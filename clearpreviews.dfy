/**
 * `clear-previews`: walk the events content folder and unlink every file whose name,
 * without its extension, ends in `_preview`, descending into every subdirectory.
 */
module ClearPreviews {
  import opened Common
  import opened FsTree
  import opened FileNames

  /** The folder the script clears, inside the content folder. */
  const GALLERIES_DIR := "events"

  /** The listing after `clearPreviews`: preview files gone, every directory cleared in turn. */
  function Cleared(entries: seq<Entry>): seq<Entry>
    decreases entries
  {
    if entries == [] then []
    else
      var n := |entries| - 1;
      Cleared(entries[..n]) + ClearedEntry(entries[n])
  }

  /** What one entry of the listing becomes. */
  function ClearedEntry(e: Entry): seq<Entry>
    decreases e
  {
    match e.node
    case Dir(children) => [Entry(e.name, Dir(Cleared(children)))]
    case File(_) => if IsPreview(e.name) then [] else [e]
  }

  /**
   * `clearPreviews(folder)`: one pass over the directory's listing that recurses into
   * each subdirectory and unlinks each preview file.
   */
  method ClearFolder(entries: seq<Entry>) returns (r: seq<Entry>)
    ensures r == Cleared(entries)
    decreases entries
  {
    r := [];
    for i := 0 to |entries|
      invariant r == Cleared(entries[..i])
    {
      var e := entries[i];
      assert entries[..i + 1][..i] == entries[..i];
      match e.node {
        case Dir(children) =>
          var cleared := ClearFolder(children);
          r := r + [Entry(e.name, Dir(cleared))];
        case File(_) =>
          if !IsPreview(e.name) {
            r := r + [e];
          }
      }
    }
    assert entries[..|entries|] == entries;
  }

  /** `main`: a missing folder (or one that is not a directory) stops the script before anything is deleted. */
  method ClearAll(content: seq<Entry>) returns (outcome: Result<(), string>, content': seq<Entry>)
    ensures outcome.Err? <==> FindDir(content, GALLERIES_DIR).None?
    ensures outcome.Err? ==> content' == content
    ensures outcome.Ok? ==>
      content' == ReplaceNode(content, GALLERIES_DIR, Dir(Cleared(FindDir(content, GALLERIES_DIR).value)))
  {
    var root := Find(content, GALLERIES_DIR);
    if root.None? {
      return Err("Path not found"), content;
    }
    if root.value.File? {
      return Err("ENOTDIR"), content;
    }
    var cleared := ClearFolder(root.value.entries);
    content' := ReplaceNode(content, GALLERIES_DIR, Dir(cleared));
    outcome := Ok(());
  }

  /** No file anywhere in the tree is a preview. */
  predicate NoPreviewFiles(entries: seq<Entry>)
    decreases entries
  {
    forall i | 0 <= i < |entries| ::
      match entries[i].node
      case File(_) => !IsPreview(entries[i].name)
      case Dir(children) => NoPreviewFiles(children)
  }

  lemma {:induction false} NoPreviewFilesAppend(a: seq<Entry>, b: seq<Entry>)
    requires NoPreviewFiles(a) && NoPreviewFiles(b)
    ensures NoPreviewFiles(a + b)
  {
    forall i | 0 <= i < |a + b|
      ensures match (a + b)[i].node
        case File(_) => !IsPreview((a + b)[i].name)
        case Dir(children) => NoPreviewFiles(children)
    {
      if i < |a| { assert (a + b)[i] == a[i]; } else { assert (a + b)[i] == b[i - |a|]; }
    }
  }

  /** After the walk no preview file is left, however deep. */
  lemma {:induction false} ClearedHasNoPreviews(entries: seq<Entry>)
    ensures NoPreviewFiles(Cleared(entries))
    decreases entries
  {
    if entries != [] {
      var n := |entries| - 1;
      var e := entries[n];
      ClearedHasNoPreviews(entries[..n]);
      if e.node.Dir? {
        ClearedHasNoPreviews(e.node.entries);
      }
      assert NoPreviewFiles(ClearedEntry(e));
      NoPreviewFilesAppend(Cleared(entries[..n]), ClearedEntry(e));
    }
  }

  /** What the walk leaves of the node found under `name`. */
  function ClearedNode(name: string, found: Option<Node>): Option<Node>
  {
    match found
    case None => None
    case Some(File(content)) => if IsPreview(name) then None else Some(File(content))
    case Some(Dir(children)) => Some(Dir(Cleared(children)))
  }

  lemma FindClearedEntry(e: Entry, name: string)
    ensures Find(ClearedEntry(e), name) == ClearedNode(name, Find([e], name))
  {
    var c := ClearedEntry(e);
    if c != [] {
      assert c[1..] == [];
    }
    assert [e][1..] == [];
  }

  /**
   * Entry by entry: a preview file is gone, any other file is kept unchanged, and a
   * directory is kept under its name with its own listing cleared.
   */
  lemma {:induction false} ClearedFind(entries: seq<Entry>, name: string)
    requires Distinct(Names(entries))
    ensures Find(Cleared(entries), name) == ClearedNode(name, Find(entries, name))
    decreases |entries|
  {
    if entries != [] {
      var n := |entries| - 1;
      var pre := entries[..n];
      var e := entries[n];
      DistinctFront(entries);
      ClearedFind(pre, name);
      ClearedFindSnoc(entries, name);
    }
  }

  /** The step of `ClearedFind`: one more entry, whose name the front does not hold when the front finds it. */
  lemma ClearedFindSnoc(entries: seq<Entry>, name: string)
    requires entries != []
    requires var n := |entries| - 1;
      Find(Cleared(entries[..n]), name) == ClearedNode(name, Find(entries[..n], name))
    requires var n := |entries| - 1;
      Find(entries[..n], name).Some? ==> Find([entries[n]], name).None?
    ensures Find(Cleared(entries), name) == ClearedNode(name, Find(entries, name))
  {
    var n := |entries| - 1;
    var pre, e := entries[..n], entries[n];
    ClearedLast(entries);
    FindLast(entries, name);
    FindAppend(Cleared(pre), ClearedEntry(e), name);
    FindClearedEntry(e, name);
    ClearedNodeFirst(name, Find(pre, name), Find([e], name));
  }

  /** Looking in the front, then in the last entry, commutes with clearing when at most one of them has the name. */
  lemma ClearedNodeFirst(name: string, front: Option<Node>, last: Option<Node>)
    requires front.Some? ==> last.None?
    ensures var cf := ClearedNode(name, front);
      (if cf.Some? then cf else ClearedNode(name, last)) == ClearedNode(name, if front.Some? then front else last)
  {
  }

  /** In a listing with distinct names, the front has distinct names, and a name found there is not the last one's. */
  lemma DistinctFront(entries: seq<Entry>)
    requires entries != [] && Distinct(Names(entries))
    ensures var n := |entries| - 1;
      Distinct(Names(entries[..n])) &&
      forall name | Find(entries[..n], name).Some? :: Find([entries[n]], name).None?
  {
    var n := |entries| - 1;
    var pre := entries[..n];
    assert Names(entries) == Names(pre) + [entries[n].name];
    forall i, j | 0 <= i < j < n ensures Names(pre)[i] != Names(pre)[j] {
      assert Names(entries)[i] != Names(entries)[j];
    }
    forall name | Find(pre, name).Some? ensures Find([entries[n]], name).None? {
      var k :| 0 <= k < n && Names(pre)[k] == name;
      assert Names(entries)[k] != Names(entries)[n];
      assert [entries[n]][1..] == [];
    }
  }

  /** `Find` on a concatenation looks in the first part, then the second. */
  lemma {:induction false} FindAppend(a: seq<Entry>, b: seq<Entry>, name: string)
    ensures Find(a + b, name) == if Find(a, name).Some? then Find(a, name) else Find(b, name)
    decreases |a|
  {
    if a == [] {
      assert a + b == b;
    } else {
      assert (a + b)[0] == a[0];
      assert (a + b)[1..] == a[1..] + b;
      FindAppend(a[1..], b, name);
    }
  }

  /** Looking up a name: in the front of the listing first, then in its last entry. */
  lemma FindLast(entries: seq<Entry>, name: string)
    requires entries != []
    ensures var n := |entries| - 1;
      Find(entries, name) == if Find(entries[..n], name).Some? then Find(entries[..n], name) else Find([entries[n]], name)
  {
    var n := |entries| - 1;
    assert entries == entries[..n] + [entries[n]];
    FindAppend(entries[..n], [entries[n]], name);
  }

  /** Clearing twice removes nothing more. */
  lemma {:induction false} ClearIdempotent(entries: seq<Entry>)
    ensures Cleared(Cleared(entries)) == Cleared(entries)
    decreases entries
  {
    if entries != [] {
      var n := |entries| - 1;
      var e := entries[n];
      ClearIdempotent(entries[..n]);
      if e.node.Dir? {
        ClearIdempotent(e.node.entries);
      }
      ClearedAppend(Cleared(entries[..n]), ClearedEntry(e));
      assert Cleared(ClearedEntry(e)) == ClearedEntry(e) by {
        var c := ClearedEntry(e);
        if c != [] {
          assert c[..0] == [];
          assert Cleared(c) == Cleared([]) + ClearedEntry(c[0]);
        }
      }
    }
  }

  lemma ClearedAppend(a: seq<Entry>, b: seq<Entry>)
    ensures Cleared(a + b) == Cleared(a) + Cleared(b)
  {
    forall s: seq<Entry>, e: Entry ensures Cleared(s + [e]) == Cleared(s) + ClearedEntry(e) {
      ClearedSnoc(s, e);
    }
    SnocMapAppend(s => Cleared(s), e => ClearedEntry(e), a, b);
  }

  /** A listing map built entry by entry from the back maps a concatenation part by part. */
  lemma {:induction false} SnocMapAppend<T, U>(f: seq<T> -> seq<U>, g: T -> seq<U>, a: seq<T>, b: seq<T>)
    requires f([]) == []
    requires forall s, x :: f(s + [x]) == f(s) + g(x)
    ensures f(a + b) == f(a) + f(b)
    decreases |b|
  {
    if b == [] {
      assert a + b == a;
    } else {
      var n := |b| - 1;
      assert a + b == (a + b[..n]) + [b[n]];
      assert b == b[..n] + [b[n]];
      SnocMapAppend(f, g, a, b[..n]);
    }
  }

  /** Clearing a listing with one more entry at the end. */
  lemma ClearedSnoc(s: seq<Entry>, e: Entry)
    ensures Cleared(s + [e]) == Cleared(s) + ClearedEntry(e)
  {
    ClearedLast(s + [e]);
    assert (s + [e])[..|s|] == s;
  }

  /** The walk handles the last entry of a listing after the ones before it. */
  lemma ClearedLast(s: seq<Entry>)
    requires s != []
    ensures Cleared(s) == Cleared(s[..|s| - 1]) + ClearedEntry(s[|s| - 1])
  {
  }
}
