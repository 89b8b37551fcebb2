/**
 * The local content folder as a tree: a directory lists its entries in `readdir`
 * order, and anything that `lstat` does not report as a directory (a regular file,
 * a symbolic link) is a file.
 */
module FsTree {
  import opened Common

  type Bytes = seq<bv8>

  datatype Node = File(content: Bytes) | Dir(entries: seq<Entry>)

  datatype Entry = Entry(name: string, node: Node)

  function Names(entries: seq<Entry>): seq<string>
  {
    seq(|entries|, i requires 0 <= i < |entries| => entries[i].name)
  }

  /** `fs.existsSync(path.join(dir, name))` and the node found there. */
  function Find(entries: seq<Entry>, name: string): (r: Option<Node>)
    ensures r.Some? <==> name in Names(entries)
    ensures r.Some? ==> Entry(name, r.value) in entries
  {
    if entries == [] then None
    else if entries[0].name == name then
      assert entries[0] == Entry(name, entries[0].node) && Names(entries)[0] == name;
      Some(entries[0].node)
    else
      assert Names(entries) == [entries[0].name] + Names(entries[1..]);
      Find(entries[1..], name)
  }

  /** The child directory called `name`, if there is one and it is a directory. */
  function FindDir(entries: seq<Entry>, name: string): Option<seq<Entry>>
  {
    match Find(entries, name)
    case Some(Dir(children)) => Some(children)
    case _ => None
  }

  /**
   * Writes a file at `name`: an existing entry keeps its place and takes the new
   * content; a new name is added at the end of the listing.
   */
  function WriteFile(entries: seq<Entry>, name: string, content: Bytes): (r: seq<Entry>)
    ensures name in Names(entries) ==> Names(r) == Names(entries)
    ensures name !in Names(entries) ==> Names(r) == Names(entries) + [name]
  {
    if entries == [] then [Entry(name, File(content))]
    else if entries[0].name == name then
      var r := [Entry(name, File(content))] + entries[1..];
      assert Names(r) == [name] + Names(entries[1..]);
      assert Names(entries) == [name] + Names(entries[1..]);
      r
    else
      var rest := WriteFile(entries[1..], name, content);
      var r := [entries[0]] + rest;
      assert Names(r) == [entries[0].name] + Names(rest);
      assert Names(entries) == [entries[0].name] + Names(entries[1..]);
      r
  }

  /** After the write, `name` holds the new file and every other name what it held before. */
  lemma {:induction false} WriteFileFind(entries: seq<Entry>, name: string, content: Bytes, other: string)
    ensures Find(WriteFile(entries, name, content), other) ==
      if other == name then Some(File(content)) else Find(entries, other)
    decreases |entries|
  {
    if entries != [] && entries[0].name != name {
      WriteFileFind(entries[1..], name, content, other);
      var r := WriteFile(entries, name, content);
      assert r[0] == entries[0] && r[1..] == WriteFile(entries[1..], name, content);
    } else if entries != [] {
      var r := WriteFile(entries, name, content);
      assert r[1..] == entries[1..];
    }
  }

  /** The listing with the node of the first entry called `name` replaced; other entries and the order stay. */
  function ReplaceNode(entries: seq<Entry>, name: string, node: Node): (r: seq<Entry>)
    ensures Names(r) == Names(entries)
  {
    if entries == [] then []
    else if entries[0].name == name then
      var r := [Entry(name, node)] + entries[1..];
      assert Names(r) == [name] + Names(entries[1..]);
      assert Names(entries) == [entries[0].name] + Names(entries[1..]);
      r
    else
      var rest := ReplaceNode(entries[1..], name, node);
      var r := [entries[0]] + rest;
      assert Names(r) == [entries[0].name] + Names(rest);
      assert Names(entries) == [entries[0].name] + Names(entries[1..]);
      r
  }

  /** After the replacement `name` finds the new node and every other name what it found before. */
  lemma {:induction false} ReplaceNodeFind(entries: seq<Entry>, name: string, node: Node, other: string)
    ensures Find(ReplaceNode(entries, name, node), other) ==
      if other == name && name in Names(entries) then Some(node) else Find(entries, other)
    decreases |entries|
  {
    if entries != [] {
      assert Names(entries) == [entries[0].name] + Names(entries[1..]);
      var r := ReplaceNode(entries, name, node);
      if entries[0].name != name {
        ReplaceNodeFind(entries[1..], name, node, other);
        assert r[0] == entries[0] && r[1..] == ReplaceNode(entries[1..], name, node);
      } else {
        assert r[1..] == entries[1..];
      }
    }
  }

  /** Putting back the node that is already there changes nothing. */
  lemma {:induction false} ReplaceNodeSame(entries: seq<Entry>, name: string, node: Node)
    requires Find(entries, name) == Some(node)
    ensures ReplaceNode(entries, name, node) == entries
    decreases |entries|
  {
    if entries[0].name != name {
      ReplaceNodeSame(entries[1..], name, node);
    }
  }
}
