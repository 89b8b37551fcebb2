/**
 * `generate-previews`: for every gallery folder under the events and portfolio
 * content folders, pick the images that have no `<stem>_preview.webp` beside them
 * yet, have sharp write one for each, and count the previews written. A run over
 * folders that already have all their previews writes nothing.
 */
module GeneratePreviews {
  import opened Common
  import opened Text
  import opened FsTree
  import opened FileNames
  import opened Media
  import Sorting

  /** One preview to write: the source file and the preview file, both in the gallery folder. */
  datatype Job = Job(file: string, previewFile: string)

  /**
   * The filter/map step of `processGallery` for one listed name: images only
   * (`/\.(jpe?g|png|webp)$/i`), never a preview itself, and only when the preview
   * does not exist yet (as a file or as anything else).
   */
  function JobFor(dir: seq<Entry>, name: string): (r: Option<Job>)
    ensures r.Some? ==> r.value == Job(name, Stem(name) + PREVIEW_REPLACEMENT)
  {
    if !HasWebImageExt(name) then None
    else if EndsWith(Stem(name), PREVIEW_SUFFIX) then None
    else if Find(dir, PreviewFileName(name)).Some? then None
    else Some(Job(name, PreviewFileName(name)))
  }

  /** `jobs`: the job list of a gallery folder, computed from its listing before any job runs. */
  function SelectJobs(dir: seq<Entry>): seq<Job>
  {
    Sorting.FilterMap(Names(dir), name => JobFor(dir, name))
  }

  /** The jobs are exactly the listed names that call for one. */
  lemma {:induction false} SelectJobsExact(dir: seq<Entry>, job: Job)
    ensures job in SelectJobs(dir) <==> exists i | 0 <= i < |dir| :: JobFor(dir, dir[i].name) == Some(job)
  {
    var f := name => JobFor(dir, name);
    var names := Names(dir);
    Sorting.FilterMapExact(names, f, job);
    if exists i | 0 <= i < |names| :: f(names[i]) == Some(job) {
      var i :| 0 <= i < |names| && f(names[i]) == Some(job);
      assert JobFor(dir, dir[i].name) == Some(job);
    }
    if exists i | 0 <= i < |dir| :: JobFor(dir, dir[i].name) == Some(job) {
      var i :| 0 <= i < |dir| && JobFor(dir, dir[i].name) == Some(job);
      assert f(names[i]) == Some(job);
    }
  }

  /** A job's preview never calls for a preview of its own. */
  lemma PreviewNeedsNoJob(dir: seq<Entry>, job: Job)
    requires job in SelectJobs(dir)
    ensures JobFor(dir, job.previewFile).None?
    ensures IsPreview(job.previewFile)
  {
    SelectJobsExact(dir, job);
    var i :| 0 <= i < |dir| && JobFor(dir, dir[i].name) == Some(job);
    PreviewFileIsPreview(dir[i].name);
  }

  /** `Math.max(2, Math.floor(os.cpus().length / 2))` workers per gallery. */
  function PreviewWorkers(cpus: nat): (w: nat)
    ensures w >= 2 && w >= cpus / 2 && (w == 2 || w == cpus / 2)
  {
    Max(2, cpus / 2)
  }

  /** The outcome of running jobs: whether all succeeded, the folder listing afterwards, and the jobs counted. */
  datatype Run = Run(ok: bool, entries: seq<Entry>, count: nat)

  /** One job: sharp reads the source file, re-encodes it and writes the preview file; a failure writes nothing. */
  function RunJob(dir: seq<Entry>, job: Job, mode: Mode, codec: Codec): (bool, seq<Entry>)
  {
    match Find(dir, job.file)
    case Some(File(content)) =>
      (match codec.encodePreview(content, PreviewResize(mode))
       case Some(webp) => (true, WriteFile(dir, job.previewFile, webp))
       case None => (false, dir))
    case _ => (false, dir)
  }

  /** The jobs run one after another; the first failure stops the run with the previews written so far. */
  function RunJobs(dir: seq<Entry>, jobs: seq<Job>, mode: Mode, codec: Codec): (bool, seq<Entry>)
  {
    if jobs == [] then (true, dir)
    else
      var n := |jobs| - 1;
      var before := RunJobs(dir, jobs[..n], mode, codec);
      if !before.0 then before else RunJob(before.1, jobs[n], mode, codec)
  }

  lemma RunJobsLast(dir: seq<Entry>, jobs: seq<Job>, mode: Mode, codec: Codec)
    requires jobs != []
    ensures var n := |jobs| - 1; var before := RunJobs(dir, jobs[..n], mode, codec);
      RunJobs(dir, jobs, mode, codec) == if !before.0 then before else RunJob(before.1, jobs[n], mode, codec)
  {
  }

  /** After a prefix of jobs succeeded with listing `cur`, one more job is that job run on `cur`. */
  lemma RunJobsNext(dir: seq<Entry>, jobs: seq<Job>, i: nat, mode: Mode, codec: Codec, cur: seq<Entry>)
    requires i < |jobs| && RunJobs(dir, jobs[..i], mode, codec) == (true, cur)
    ensures RunJobs(dir, jobs[..i + 1], mode, codec) == RunJob(cur, jobs[i], mode, codec)
  {
    assert jobs[..i + 1][..i] == jobs[..i];
    RunJobsLast(dir, jobs[..i + 1], mode, codec);
  }

  /** One turn of the drain: a success extends the prefix run, a failure is the outcome of the whole run. */
  lemma DrainStep(dir: seq<Entry>, jobs: seq<Job>, i: nat, mode: Mode, codec: Codec, cur: seq<Entry>, ok: bool, next: seq<Entry>)
    requires i < |jobs| && RunJobs(dir, jobs[..i], mode, codec) == (true, cur)
    requires (ok, next) == RunJob(cur, jobs[i], mode, codec)
    ensures ok ==> RunJobs(dir, jobs[..i + 1], mode, codec) == (true, next)
    ensures !ok ==> RunJobs(dir, jobs, mode, codec) == (false, cur)
  {
    RunJobsNext(dir, jobs, i, mode, codec, cur);
    if !ok {
      RunJobsStopsAtFailure(dir, jobs, i + 1, mode, codec);
    }
  }

  /** Once a job has failed, the jobs after it change nothing. */
  lemma {:induction false} RunJobsStopsAtFailure(dir: seq<Entry>, jobs: seq<Job>, k: nat, mode: Mode, codec: Codec)
    requires k <= |jobs| && !RunJobs(dir, jobs[..k], mode, codec).0
    ensures RunJobs(dir, jobs, mode, codec) == RunJobs(dir, jobs[..k], mode, codec)
    decreases |jobs| - k
  {
    if k < |jobs| {
      assert jobs[..k + 1][..k] == jobs[..k];
      RunJobsLast(dir, jobs[..k + 1], mode, codec);
      RunJobsStopsAtFailure(dir, jobs, k + 1, mode, codec);
    } else {
      assert jobs[..k] == jobs;
    }
  }

  /** The body of a worker for one job: read the source, encode it, write the preview. */
  method ProcessJob(dir: seq<Entry>, job: Job, mode: Mode, codec: Codec) returns (ok: bool, dir': seq<Entry>)
    ensures (ok, dir') == RunJob(dir, job, mode, codec)
    ensures ok <==> Find(dir, job.file).Some? && Find(dir, job.file).value.File? &&
                    codec.encodePreview(Find(dir, job.file).value.content, PreviewResize(mode)).Some?
    ensures ok ==> Find(dir', job.previewFile) ==
                   Some(File(codec.encodePreview(Find(dir, job.file).value.content, PreviewResize(mode)).value))
    ensures forall other | other != job.previewFile :: Find(dir', other) == Find(dir, other)
  {
    var source := Find(dir, job.file);
    if !source.Some? || !source.value.File? {
      return false, dir;
    }
    var webp := codec.encodePreview(source.value.content, PreviewResize(mode));
    if webp.None? {
      return false, dir;
    }
    dir' := WriteFile(dir, job.previewFile, webp.value);
    ok := true;
    forall other {
      WriteFileFind(dir, job.previewFile, webp.value, other);
    }
  }

  /**
   * The worker drain of `processGallery`: the shared `index` hands every job to
   * exactly one worker; with the workers run in turn this is each job once, in order.
   */
  method DrainJobs(dir: seq<Entry>, jobs: seq<Job>, mode: Mode, codec: Codec)
    returns (ok: bool, dir': seq<Entry>)
    ensures (ok, dir') == RunJobs(dir, jobs, mode, codec)
  {
    dir' := dir;
    var index := 0;
    while index < |jobs|
      invariant 0 <= index <= |jobs|
      invariant (true, dir') == RunJobs(dir, jobs[..index], mode, codec)
    {
      var job := jobs[index];
      var jobOk, next := ProcessJob(dir', job, mode, codec);
      DrainStep(dir, jobs, index, mode, codec, dir', jobOk, next);
      if !jobOk {
        return false, dir';
      }
      dir' := next;
      index := index + 1;
    }
    assert jobs[..index] == jobs;
    ok := true;
  }

  /** `processGallery`: select the jobs, drain them, and report how many there were. */
  function GalleryRun(dir: seq<Entry>, mode: Mode, codec: Codec): Run
  {
    var jobs := SelectJobs(dir);
    var r := RunJobs(dir, jobs, mode, codec);
    Run(r.0, r.1, |jobs|)
  }

  method ProcessGallery(dir: seq<Entry>, mode: Mode, codec: Codec) returns (ok: bool, dir': seq<Entry>, count: nat)
    ensures Run(ok, dir', count) == GalleryRun(dir, mode, codec)
    ensures ok ==> count == |SelectJobs(dir)|
  {
    var jobs := SelectJobs(dir);
    ok, dir' := DrainJobs(dir, jobs, mode, codec);
    count := |jobs|;
  }

  /** The node a listed gallery entry becomes: a directory is processed, anything else is passed over. */
  function EntryRun(e: Entry, mode: Mode, codec: Codec): (r: Run)
    ensures |r.entries| == 1 && r.entries[0].name == e.name
  {
    match e.node
    case Dir(children) =>
      var g := GalleryRun(children, mode, codec);
      Run(g.ok, [Entry(e.name, Dir(g.entries))], g.count)
    case File(_) => Run(true, [e], 0)
  }

  /** The galleries of one base folder in listing order; after a failure the rest is left untouched. */
  function GalleriesRun(listing: seq<Entry>, mode: Mode, codec: Codec): (r: Run)
    ensures |r.entries| == |listing|
  {
    if listing == [] then Run(true, [], 0)
    else
      var first := EntryRun(listing[0], mode, codec);
      if !first.ok then Run(false, first.entries + listing[1..], first.count)
      else
        var rest := GalleriesRun(listing[1..], mode, codec);
        Run(rest.ok, first.entries + rest.entries, first.count + rest.count)
  }

  /** One base folder: skipped when missing, an error when it is not a directory. */
  function BaseRun(content: seq<Entry>, base: string, mode: Mode, codec: Codec): Run
  {
    match Find(content, base)
    case None => Run(true, content, 0)
    case Some(File(_)) => Run(false, content, 0)
    case Some(Dir(listing)) =>
      var r := GalleriesRun(listing, mode, codec);
      Run(r.ok, ReplaceNode(content, base, Dir(r.entries)), r.count)
  }

  /** The two base folders, events first; the total is the number of previews generated. */
  function GenerateAllOf(content: seq<Entry>, codec: Codec): Run
  {
    var events := BaseRun(content, "events", Events, codec);
    if !events.ok then events
    else
      var portfolio := BaseRun(events.entries, "portfolio", Portfolio, codec);
      Run(portfolio.ok, portfolio.entries, events.count + portfolio.count)
  }

  lemma GalleriesRunAt(listing: seq<Entry>, i: nat, mode: Mode, codec: Codec)
    requires i < |listing|
    ensures var first := EntryRun(listing[i], mode, codec);
      GalleriesRun(listing[i..], mode, codec) ==
        if !first.ok then Run(false, first.entries + listing[i + 1..], first.count)
        else Then(first.entries, first.count, GalleriesRun(listing[i + 1..], mode, codec))
  {
    assert listing[i..][0] == listing[i] && listing[i..][1..] == listing[i + 1..];
  }

  /** A gallery directory becomes the processed directory. */
  lemma DirEntryRun(e: Entry, mode: Mode, codec: Codec, ok: bool, children: seq<Entry>, count: nat)
    requires e.node.Dir? && Run(ok, children, count) == GalleryRun(e.node.entries, mode, codec)
    ensures EntryRun(e, mode, codec) == Run(ok, [Entry(e.name, Dir(children))], count)
  {
  }

  /** The listing from `i` on, after the entry at `i` ran successfully as `first`. */
  lemma GalleriesRunNext(done: seq<Entry>, total: nat, listing: seq<Entry>, i: nat, mode: Mode, codec: Codec, first: Run)
    requires i < |listing| && EntryRun(listing[i], mode, codec) == first && first.ok
    ensures Then(done, total, GalleriesRun(listing[i..], mode, codec)) ==
      Then(done + first.entries, total + first.count, GalleriesRun(listing[i + 1..], mode, codec))
  {
    GalleriesRunAt(listing, i, mode, codec);
    var rest := GalleriesRun(listing[i + 1..], mode, codec);
    assert done + (first.entries + rest.entries) == done + first.entries + rest.entries;
  }

  /** The listing from `i` on, after the entry at `i` failed as `first`: the rest is left as it was. */
  lemma GalleriesRunStop(done: seq<Entry>, total: nat, listing: seq<Entry>, i: nat, mode: Mode, codec: Codec, first: Run)
    requires i < |listing| && EntryRun(listing[i], mode, codec) == first && !first.ok
    ensures var r := Then(done, total, GalleriesRun(listing[i..], mode, codec));
      !r.ok && r.entries == done + first.entries + listing[i + 1..]
  {
    GalleriesRunAt(listing, i, mode, codec);
    assert done + (first.entries + listing[i + 1..]) == done + first.entries + listing[i + 1..];
  }

  /** The gallery loop of `main` over one base folder's listing. */
  method ProcessGalleries(listing: seq<Entry>, mode: Mode, codec: Codec)
    returns (ok: bool, listing': seq<Entry>, total: nat)
    ensures var r := GalleriesRun(listing, mode, codec);
      ok == r.ok && listing' == r.entries && (ok ==> total == r.count)
  {
    var done: seq<Entry> := [];
    total := 0;
    for i := 0 to |listing|
      invariant GalleriesRun(listing, mode, codec) == Then(done, total, GalleriesRun(listing[i..], mode, codec))
    {
      var e := listing[i];
      var next := e;
      var gOk, count := true, 0;
      if e.node.Dir? {
        var children;
        gOk, children, count := ProcessGallery(e.node.entries, mode, codec);
        next := Entry(e.name, Dir(children));
        DirEntryRun(e, mode, codec, gOk, children, count);
      }
      if !gOk {
        GalleriesRunStop(done, total, listing, i, mode, codec, Run(gOk, [next], count));
        return false, done + [next] + listing[i + 1..], total;
      }
      GalleriesRunNext(done, total, listing, i, mode, codec, Run(gOk, [next], count));
      total := total + count;
      done := done + [next];
    }
    assert listing[|listing|..] == [];
    assert done + [] == done;
    ok, listing' := true, done;
  }

  /** Work already done, followed by the run of the rest. */
  function Then(done: seq<Entry>, count: nat, rest: Run): Run
  {
    Run(rest.ok, done + rest.entries, count + rest.count)
  }

  /** The loop of `main` over the two base folders. */
  method ProcessBase(content: seq<Entry>, base: string, mode: Mode, codec: Codec)
    returns (ok: bool, content': seq<Entry>, count: nat)
    ensures var r := BaseRun(content, base, mode, codec);
      ok == r.ok && content' == r.entries && (ok ==> count == r.count)
  {
    var found := Find(content, base);
    if found.None? {
      return true, content, 0;
    }
    if found.value.File? {
      return false, content, 0;
    }
    var listing;
    ok, listing, count := ProcessGalleries(found.value.entries, mode, codec);
    content' := ReplaceNode(content, base, Dir(listing));
  }

  /**
   * `main`: events galleries, then portfolio galleries; a missing base folder is
   * skipped, and only directories inside it are treated as galleries. Any failure
   * rejects `main` with the previews written so far left on disk.
   */
  method GenerateAll(content: seq<Entry>, codec: Codec) returns (outcome: Result<nat, string>, content': seq<Entry>)
    ensures var r := GenerateAllOf(content, codec);
      content' == r.entries && (outcome.Ok? <==> r.ok) && (outcome.Ok? ==> outcome.value == r.count)
  {
    var totalGenerated := 0;
    var ok, count;
    ok, content', count := ProcessBase(content, "events", Events, codec);
    if !ok {
      return Err("preview generation failed"), content';
    }
    totalGenerated := totalGenerated + count;
    ok, content', count := ProcessBase(content', "portfolio", Portfolio, codec);
    if !ok {
      return Err("preview generation failed"), content';
    }
    totalGenerated := totalGenerated + count;
    outcome := Ok(totalGenerated);
  }

  // ---- a second run generates nothing ----

  /** Every job's preview exists in `after`, nothing of `dir` is gone, and every other name is a job's preview. */
  ghost predicate Wrote(dir: seq<Entry>, jobs: seq<Job>, after: seq<Entry>)
  {
    && (forall j | j in jobs :: Find(after, j.previewFile).Some?)
    && (forall name | Find(dir, name).Some? :: Find(after, name).Some?)
    && (forall name | name in Names(after) :: name in Names(dir) || exists j | j in jobs :: j.previewFile == name)
  }

  /** What a successful drain leaves: every job's preview exists, and nothing that existed is gone. */
  lemma {:induction false} RunJobsWrites(dir: seq<Entry>, jobs: seq<Job>, mode: Mode, codec: Codec)
    requires RunJobs(dir, jobs, mode, codec).0
    ensures Wrote(dir, jobs, RunJobs(dir, jobs, mode, codec).1)
    decreases |jobs|
  {
    if jobs != [] {
      var n := |jobs| - 1;
      var job := jobs[n];
      RunJobsLast(dir, jobs, mode, codec);
      var mid := RunJobs(dir, jobs[..n], mode, codec).1;
      RunJobsWrites(dir, jobs[..n], mode, codec);
      RunJobWrote(dir, jobs, mid, mode, codec);
    }
  }

  /** A successful job writes its preview and nothing else. */
  lemma RunJobWrote(dir: seq<Entry>, jobs: seq<Job>, mid: seq<Entry>, mode: Mode, codec: Codec)
    requires jobs != [] && Wrote(dir, jobs[..|jobs| - 1], mid) && RunJob(mid, jobs[|jobs| - 1], mode, codec).0
    ensures Wrote(dir, jobs, RunJob(mid, jobs[|jobs| - 1], mode, codec).1)
  {
    var job := jobs[|jobs| - 1];
    assert jobs == jobs[..|jobs| - 1] + [job];
    var content := Find(mid, job.file).value.content;
    var webp := codec.encodePreview(content, PreviewResize(mode)).value;
    WroteOneMore(dir, jobs[..|jobs| - 1], mid, job, webp);
  }

  /** Writing one more job's preview keeps `Wrote` with that job added. */
  lemma WroteOneMore(dir: seq<Entry>, jobs: seq<Job>, mid: seq<Entry>, job: Job, webp: Bytes)
    requires Wrote(dir, jobs, mid)
    ensures Wrote(dir, jobs + [job], WriteFile(mid, job.previewFile, webp))
  {
    var after := WriteFile(mid, job.previewFile, webp);
    forall name ensures Find(after, name) == if name == job.previewFile then Some(File(webp)) else Find(mid, name) {
      WriteFileFind(mid, job.previewFile, webp, name);
    }
    forall name | name in Names(after)
      ensures name in Names(dir) || exists j | j in jobs + [job] :: j.previewFile == name
    {
      if name != job.previewFile {
        assert name in Names(mid);
        if name !in Names(dir) {
          var j :| j in jobs && j.previewFile == name;
          assert j in jobs + [job];
        }
      } else {
        assert job in jobs + [job];
      }
    }
  }

  /** A name whose stem ends in `_preview` never gets a job, whatever the folder holds. */
  lemma PreviewNameNoJob(dir: seq<Entry>, name: string)
    requires IsPreview(name)
    ensures JobFor(dir, name).None?
  {
  }

  /** After a successful `processGallery` the folder calls for no job at all. */
  lemma GallerySettles(dir: seq<Entry>, mode: Mode, codec: Codec)
    requires GalleryRun(dir, mode, codec).ok
    ensures SelectJobs(GalleryRun(dir, mode, codec).entries) == []
  {
    var jobs := SelectJobs(dir);
    var after := GalleryRun(dir, mode, codec).entries;
    RunJobsWrites(dir, jobs, mode, codec);
    forall i | 0 <= i < |after| ensures JobFor(after, after[i].name).None? {
      var name := after[i].name;
      assert name in Names(after) by { assert Names(after)[i] == name; }
      if name in Names(dir) {
        var k :| 0 <= k < |dir| && Names(dir)[k] == name;
        assert dir[k].name == name;
        match JobFor(dir, name)
        case Some(job) =>
          SelectJobsExact(dir, job);
          assert Find(after, job.previewFile).Some?;
        case None =>
      } else {
        var j :| j in jobs && j.previewFile == name;
        PreviewNeedsNoJob(dir, j);
      }
    }
    NoJobsEmpty(after);
  }

  lemma NoJobsEmpty(dir: seq<Entry>)
    requires forall i | 0 <= i < |dir| :: JobFor(dir, dir[i].name).None?
    ensures SelectJobs(dir) == []
  {
    var s := SelectJobs(dir);
    if s != [] {
      SelectJobsExact(dir, s[0]);
      assert false;
    }
  }

  /** Every gallery of the listing calls for no job. */
  predicate Settled(listing: seq<Entry>)
  {
    forall i | 0 <= i < |listing| :: listing[i].node.Dir? ==> SelectJobs(listing[i].node.entries) == []
  }

  /** A settled listing is left as it is, with nothing generated. */
  lemma {:induction false} SettledRunsEmpty(listing: seq<Entry>, mode: Mode, codec: Codec)
    requires Settled(listing)
    ensures GalleriesRun(listing, mode, codec) == Run(true, listing, 0)
    decreases |listing|
  {
    if listing != [] {
      assert Settled(listing[1..]) by {
        forall i | 0 <= i < |listing| - 1 ensures listing[1..][i] == listing[i + 1] { }
      }
      SettledRunsEmpty(listing[1..], mode, codec);
      assert listing == [listing[0]] + listing[1..];
    }
  }

  /** After a successful pass over a base folder's listing, the listing is settled. */
  lemma {:induction false} GalleriesSettle(listing: seq<Entry>, mode: Mode, codec: Codec)
    requires GalleriesRun(listing, mode, codec).ok
    ensures Settled(GalleriesRun(listing, mode, codec).entries)
    decreases |listing|
  {
    if listing != [] {
      var first := EntryRun(listing[0], mode, codec);
      var rest := GalleriesRun(listing[1..], mode, codec);
      GalleriesSettle(listing[1..], mode, codec);
      if listing[0].node.Dir? {
        GallerySettles(listing[0].node.entries, mode, codec);
      }
      var r := first.entries + rest.entries;
      forall i | 0 <= i < |r| && r[i].node.Dir? ensures SelectJobs(r[i].node.entries) == [] {
        if i > 0 { assert r[i] == rest.entries[i - 1]; }
      }
    }
  }

  /** The base folder is missing, or is a directory whose listing is settled. */
  predicate BaseSettled(content: seq<Entry>, base: string)
  {
    match Find(content, base)
    case None => true
    case Some(File(_)) => false
    case Some(Dir(listing)) => Settled(listing)
  }

  lemma BaseSettledRunsEmpty(content: seq<Entry>, base: string, mode: Mode, codec: Codec)
    requires BaseSettled(content, base)
    ensures BaseRun(content, base, mode, codec) == Run(true, content, 0)
  {
    match Find(content, base)
    case None =>
    case Some(Dir(listing)) =>
      SettledRunsEmpty(listing, mode, codec);
      ReplaceNodeSame(content, base, Dir(listing));
  }

  lemma BaseSettles(content: seq<Entry>, base: string, mode: Mode, codec: Codec)
    requires BaseRun(content, base, mode, codec).ok
    ensures BaseSettled(BaseRun(content, base, mode, codec).entries, base)
  {
    match Find(content, base)
    case None =>
    case Some(Dir(listing)) =>
      var r := GalleriesRun(listing, mode, codec);
      GalleriesSettle(listing, mode, codec);
      ReplaceNodeFind(content, base, Dir(r.entries), base);
  }

  /** Rewriting another base folder keeps this one settled. */
  lemma BaseSettledElsewhere(content: seq<Entry>, base: string, other: string, mode: Mode, codec: Codec)
    requires base != other && BaseSettled(content, base)
    ensures BaseSettled(BaseRun(content, other, mode, codec).entries, base)
  {
    match Find(content, other)
    case None =>
    case Some(File(_)) =>
    case Some(Dir(listing)) =>
      var r := GalleriesRun(listing, mode, codec);
      ReplaceNodeFind(content, other, Dir(r.entries), base);
  }

  /**
   * Re-running the script after a successful run generates no preview and leaves
   * the content folder exactly as it is.
   */
  lemma SecondRunGeneratesNothing(content: seq<Entry>, codec: Codec)
    requires GenerateAllOf(content, codec).ok
    ensures var after := GenerateAllOf(content, codec).entries;
      GenerateAllOf(after, codec) == Run(true, after, 0)
  {
    var events := BaseRun(content, "events", Events, codec);
    BaseSettles(content, "events", Events, codec);
    var after := BaseRun(events.entries, "portfolio", Portfolio, codec).entries;
    BaseSettles(events.entries, "portfolio", Portfolio, codec);
    BaseSettledElsewhere(events.entries, "events", "portfolio", Portfolio, codec);
    BaseSettledRunsEmpty(after, "events", Events, codec);
    BaseSettledRunsEmpty(after, "portfolio", Portfolio, codec);
  }
}
