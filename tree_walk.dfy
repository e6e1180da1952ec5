/** The path dispatch of `Fisher::run` and `Fisher::iter_dir` (`src/fish.rs`), walked one entry at
    a time. The file system is a tree of entries given by value; a walk returns the tree as the
    walk leaves it. Every directory is walked by a thread of its own in the source; here that
    thread runs to completion where it is spawned, and only whether it panicked is remembered. */
module TreeWalk {
  import opened Common
  import opened Ciphers
  import opened FileEngine

  /** The macOS folder-metadata file that `iter_dir` leaves alone. */
  const DS_STORE: string := ".DS_Store"

  /** A path of the file system: a file with its bytes, or a directory with its entries in the
      order `read_dir` yields them. `name` is the path's final component. */
  datatype Entry =
    | File(name: string, content: seq<u8>)
    | Directory(name: string, entries: seq<Entry>)

  /** What `modify_file` does to the bytes of a file: the new bytes, or the error it returns. */
  type Transform = seq<u8> -> Result<seq<u8>>

  /** The `Fisher` fields a walk reads: the block size, the direction and the cipher. */
  datatype Fisher = Fisher(blockSize: nat, crypt: bool, fisher: Fishers)
  {
    /** The cipher was built for this block size. */
    ghost predicate Valid()
    {
      fisher.Valid() && blockSize == fisher.Width()
    }

    /** `transform` is what `modify_file` of this `Fisher` does to the bytes of any file. The link
        is stated on `ModifiedFile` terms only, so that it comes into play where `modify_file` is
        called and nowhere else. */
    ghost predicate Performs(transform: Transform)
    {
      && Valid()
      && forall content {:trigger ModifiedFile(fisher, crypt, blockSize, content)} ::
           transform(content) == ModifiedFile(fisher, crypt, blockSize, content)
    }
  }

  /** A directory after its walk: its entries, and whether the thread that walked it, or a thread
      spawned beneath it, ended in a panic (`expect` on an `Err`). */
  datatype Walk = Walk(entries: seq<Entry>, panicked: bool)

  /** The entries `done` already walked, in front of the walk of the rest. */
  function Then(done: seq<Entry>, panicked: bool, w: Walk): Walk
  {
    Walk(done + w.entries, panicked || w.panicked)
  }

  /** `iter_dir` on a directory holding `entries`: subdirectories are walked by threads of their
      own; `.DS_Store` files are skipped; every other file goes through `modify_file`, and the first
      one that fails ends the walk of this directory, leaving its later entries as they were. */
  function DirWalk(transform: Transform, entries: seq<Entry>): Walk
    decreases entries
  {
    if entries == [] then Walk([], false)
    else
      match entries[0]
      case Directory(name, children) =>
        var sub := DirWalk(transform, children);
        Then([Directory(name, sub.entries)], sub.panicked, DirWalk(transform, entries[1..]))
      case File(name, content) =>
        if name == DS_STORE then Then([entries[0]], false, DirWalk(transform, entries[1..]))
        else
          match transform(content)
          case Ok(modified) => Then([File(name, modified)], false, DirWalk(transform, entries[1..]))
          case Err(_) => Walk(entries, true)
  }

  lemma ThenOne(done: seq<Entry>, panicked: bool, e: Entry, p: bool, w: Walk)
    ensures Then(done, panicked, Then([e], p, w)) == Then(done + [e], panicked || p, w)
  {
    assert done + ([e] + w.entries) == (done + [e]) + w.entries;
  }

  /** `iter_dir`: the loop over the directory's entries. */
  method IterDir(f: Fisher, ghost transform: Transform, entries: seq<Entry>) returns (w: Walk)
    requires f.Performs(transform)
    ensures w == DirWalk(transform, entries)
    decreases entries
  {
    var done: seq<Entry> := [];
    var panicked := false;  // some thread spawned from here panicked
    var i := 0;
    assert entries[0..] == entries;
    assert Then([], false, DirWalk(transform, entries)) == DirWalk(transform, entries);
    while i < |entries|
      invariant 0 <= i <= |entries|
      invariant DirWalk(transform, entries) == Then(done, panicked, DirWalk(transform, entries[i..]))
    {
      var entry := entries[i];
      assert entries[i..][0] == entry && entries[i..][1..] == entries[i + 1..];
      ghost var rest := DirWalk(transform, entries[i + 1..]);
      match entry {
        case Directory(name, children) =>
          var sub := IterDir(f, transform, children);
          ThenOne(done, panicked, Directory(name, sub.entries), sub.panicked, rest);
          done := done + [Directory(name, sub.entries)];
          panicked := panicked || sub.panicked;
        case File(name, content) =>
          if name == DS_STORE {
            ThenOne(done, panicked, entry, false, rest);
            done := done + [entry];
          } else {
            var modified := ModifyFile(f.fisher, f.crypt, f.blockSize, content);
            match modified {
              case Err(_) =>
                return Walk(done + entries[i..], true);
              case Ok(c) =>
                ThenOne(done, panicked, File(name, c), false, rest);
                done := done + [File(name, c)];
            }
          }
      }
      i := i + 1;
    }
    assert done + [] == done;
    w := Walk(done, panicked);
  }

  /** `after` is `before` after a walk that left every `.DS_Store` file inside a directory alone: the
      same names and kinds of entries at every depth, and every `.DS_Store` file unchanged. */
  ghost predicate DsStoresKept(before: seq<Entry>, after: seq<Entry>)
    decreases before
  {
    && |before| == |after|
    && forall i :: 0 <= i < |before| ==>
         && before[i].name == after[i].name
         && (before[i].File? <==> after[i].File?)
         && (before[i].File? && before[i].name == DS_STORE ==> after[i] == before[i])
         && (before[i].Directory? ==> DsStoresKept(before[i].entries, after[i].entries))
  }

  /** Every file of the tree that `iter_dir` would hand to `modify_file` is accepted by it. */
  ghost predicate AllModifiable(transform: Transform, entries: seq<Entry>)
    decreases entries
  {
    forall i :: 0 <= i < |entries| ==> EntryModifiable(transform, entries[i])
  }

  /** The file is a `.DS_Store` or is accepted by `modify_file`; every file beneath the directory
      would be handed to `modify_file` and accepted by it. */
  ghost predicate EntryModifiable(transform: Transform, e: Entry)
    decreases e
  {
    match e
    case File(name, content) => name != DS_STORE ==> transform(content).Ok?
    case Directory(_, children) => AllModifiable(transform, children)
  }

  /** `after` is `before` with every file other than a `.DS_Store` replaced by what `modify_file` made
      of it, at every depth. */
  ghost predicate FullyModified(transform: Transform, before: seq<Entry>, after: seq<Entry>)
    decreases before
  {
    && |before| == |after|
    && forall i :: 0 <= i < |before| ==> EntryModified(transform, before[i], after[i])
  }

  /** `after` is the entry `before` with `modify_file` applied beneath it, `.DS_Store` files
      excepted. */
  ghost predicate EntryModified(transform: Transform, before: Entry, after: Entry)
    decreases before
  {
    match before
    case File(name, content) =>
      if name == DS_STORE then after == before
      else transform(content).Ok? && after == File(name, transform(content).value)
    case Directory(name, children) =>
      after.Directory? && after.name == name && FullyModified(transform, children, after.entries)
  }

  lemma DsStoresKeptPrefix(a: seq<Entry>, b: seq<Entry>, x: seq<Entry>, y: seq<Entry>)
    requires DsStoresKept(a, b) && DsStoresKept(x, y)
    ensures DsStoresKept(a + x, b + y)
  {
    forall i | 0 <= i < |a + x|
      ensures (a + x)[i].name == (b + y)[i].name && ((a + x)[i].File? <==> (b + y)[i].File?)
      ensures (a + x)[i].File? && (a + x)[i].name == DS_STORE ==> (b + y)[i] == (a + x)[i]
      ensures (a + x)[i].Directory? ==> DsStoresKept((a + x)[i].entries, (b + y)[i].entries)
    {
      if i >= |a| {
        assert (a + x)[i] == x[i - |a|] && (b + y)[i] == y[i - |a|];
      }
    }
  }

  lemma DsStoresKeptRefl(entries: seq<Entry>)
    ensures DsStoresKept(entries, entries)
    decreases entries
  {
    forall i | 0 <= i < |entries| && entries[i].Directory?
      ensures DsStoresKept(entries[i].entries, entries[i].entries)
    {
      DsStoresKeptRefl(entries[i].entries);
    }
  }

  /** `iter_dir` never transforms a `.DS_Store` file at any depth below the directory, and keeps
      the names and kinds of all entries. */
  lemma {:induction false} DirWalkKeepsDsStores(transform: Transform, entries: seq<Entry>)
    ensures DsStoresKept(entries, DirWalk(transform, entries).entries)
    decreases entries
  {
    if entries != [] {
      var w := DirWalk(transform, entries);
      var e := entries[0];
      assert entries == [e] + entries[1..];
      match e
      case Directory(name, children) =>
        var sub := DirWalk(transform, children);
        DirWalkKeepsDsStores(transform, children);
        DirWalkKeepsDsStores(transform, entries[1..]);
        assert DsStoresKept([e], [Directory(name, sub.entries)]);
        DsStoresKeptPrefix([e], [Directory(name, sub.entries)], entries[1..], DirWalk(transform, entries[1..]).entries);
      case File(name, content) =>
        if name == DS_STORE {
          DirWalkKeepsDsStores(transform, entries[1..]);
          assert DsStoresKept([e], [e]);
          DsStoresKeptPrefix([e], [e], entries[1..], DirWalk(transform, entries[1..]).entries);
        } else if transform(content).Ok? {
          DirWalkKeepsDsStores(transform, entries[1..]);
          assert DsStoresKept([e], [File(name, transform(content).value)]);
          DsStoresKeptPrefix([e], [File(name, transform(content).value)], entries[1..], DirWalk(transform, entries[1..]).entries);
        } else {
          DsStoresKeptRefl(entries);
        }
    }
  }

  /** The walk of a directory ends in a panic exactly when some file beneath it other than a
      `.DS_Store` is not accepted by `modify_file`. */
  lemma {:induction false} DirWalkPanicsIffSomeFileFails(transform: Transform, entries: seq<Entry>)
    ensures DirWalk(transform, entries).panicked <==> !AllModifiable(transform, entries)
    decreases entries
  {
    if entries != [] {
      var e := entries[0];
      var rest := entries[1..];
      AllModifiableCons(transform, entries);
      match e
      case Directory(name, children) =>
        DirWalkPanicsIffSomeFileFails(transform, children);
        DirWalkPanicsIffSomeFileFails(transform, rest);
      case File(name, content) =>
        if name == DS_STORE || transform(content).Ok? {
          DirWalkPanicsIffSomeFileFails(transform, rest);
        }
    }
  }

  lemma AllModifiableCons(transform: Transform, entries: seq<Entry>)
    requires entries != []
    ensures AllModifiable(transform, entries) <==>
              EntryModifiable(transform, entries[0]) && AllModifiable(transform, entries[1..])
  {
    if AllModifiable(transform, entries[1..]) {
      forall i | 1 <= i < |entries| ensures entries[i] == entries[1..][i - 1] {
      }
    }
  }

  /** A walk that does not panic has transformed every file beneath the directory except the
      `.DS_Store` files, at every depth. */
  lemma {:induction false} DirWalkModifiesEveryFile(transform: Transform, entries: seq<Entry>)
    requires AllModifiable(transform, entries)
    ensures FullyModified(transform, entries, DirWalk(transform, entries).entries)
    decreases entries
  {
    if entries != [] {
      var e := entries[0];
      var rest := entries[1..];
      AllModifiableCons(transform, entries);
      DirWalkModifiesEveryFile(transform, rest);
      var tail := DirWalk(transform, rest).entries;
      var head: Entry;
      match e {
        case Directory(name, children) =>
          DirWalkModifiesEveryFile(transform, children);
          head := Directory(name, DirWalk(transform, children).entries);
        case File(name, content) =>
          head := if name == DS_STORE then e else File(name, transform(content).value);
      }
      assert DirWalk(transform, entries).entries == [head] + tail;
      FullyModifiedCons(transform, e, rest, head, tail);
      assert entries == [e] + rest;
    }
  }

  lemma FullyModifiedCons(transform: Transform, e: Entry, rest: seq<Entry>, head: Entry, tail: seq<Entry>)
    requires FullyModified(transform, rest, tail)
    requires EntryModified(transform, e, head)
    ensures FullyModified(transform, [e] + rest, [head] + tail)
  {
    forall i | 1 <= i < |rest| + 1 ensures ([e] + rest)[i] == rest[i - 1] && ([head] + tail)[i] == tail[i - 1] {
    }
  }

  /** How `run` ends: `Ok` after every thread was joined, the first failing top-level file's
      error, or a panic in `join().unwrap()` because a directory thread panicked. */
  datatype Status = Finished | Failed(error: Error) | Panicked

  /** The top-level paths after `run`, and how it ended. */
  datatype RunOutcome = RunOutcome(paths: seq<Entry>, status: Status)

  /** The paths `done` already handled, with `panicked` telling whether one of their directory
      threads panicked, in front of the outcome of the rest: a file error wins, since `run`
      returns it before joining any thread. */
  function Merge(done: seq<Entry>, panicked: bool, r: RunOutcome): RunOutcome
  {
    RunOutcome(done + r.paths, if !r.status.Failed? && panicked then Panicked else r.status)
  }

  /** `run` on the top-level paths: a directory is walked by a thread of its own; a file goes
      through `modify_file` whatever its name, and the first failure returns its error. */
  function RunWalk(transform: Transform, paths: seq<Entry>): RunOutcome
  {
    if paths == [] then RunOutcome([], Finished)
    else
      match paths[0]
      case Directory(name, children) =>
        var sub := DirWalk(transform, children);
        Merge([Directory(name, sub.entries)], sub.panicked, RunWalk(transform, paths[1..]))
      case File(name, content) =>
        match transform(content)
        case Ok(modified) => Merge([File(name, modified)], false, RunWalk(transform, paths[1..]))
        case Err(e) => RunOutcome(paths, Failed(e))
  }

  lemma MergeOne(done: seq<Entry>, panicked: bool, e: Entry, p: bool, r: RunOutcome)
    ensures Merge(done, panicked, Merge([e], p, r)) == Merge(done + [e], panicked || p, r)
  {
    assert done + ([e] + r.paths) == (done + [e]) + r.paths;
  }

  /** The first loop's bookkeeping: a handled path joins the handled ones, and whether its
      thread panicked joins whether an earlier thread did. */
  lemma HandleStep(outcome: RunOutcome, done: seq<Entry>, spawnedPanicked: bool, entry: Entry, panicked: bool,
                   here: RunOutcome, rest: RunOutcome)
    requires outcome == Merge(done, spawnedPanicked, here) && here == Merge([entry], panicked, rest)
    ensures outcome == Merge(done + [entry], spawnedPanicked || panicked, rest)
  {
    MergeOne(done, spawnedPanicked, entry, panicked, rest);
  }

  /** `run`: the loop over the paths, then the loop that joins the spawned threads in order. */
  method Run(f: Fisher, ghost transform: Transform, paths: seq<Entry>) returns (r: RunOutcome)
    requires f.Performs(transform)
    ensures r == RunWalk(transform, paths)
  {
    var done: seq<Entry> := [];
    var threads: seq<bool> := [];  // per spawned thread: whether it panicked
    ghost var spawnedPanicked := false;
    ghost var outcome := RunWalk(transform, paths);
    var i := 0;
    assert paths[0..] == paths;
    assert Merge([], false, outcome) == outcome;
    while i < |paths|
      invariant 0 <= i <= |paths|
      invariant spawnedPanicked == (true in threads)
      invariant outcome == Merge(done, spawnedPanicked, RunWalk(transform, paths[i..]))
    {
      var step := RunPath(f, transform, paths, i);
      match step {
        case Stopped(e) =>
          return RunOutcome(done + paths[i..], Failed(e));
        case Handled(entry, panicked) =>
          HandleStep(outcome, done, spawnedPanicked, entry, panicked,
                     RunWalk(transform, paths[i..]), RunWalk(transform, paths[i + 1..]));
          done := done + [entry];
          if entry.Directory? {
            assert (true in threads + [panicked]) == (true in threads || panicked);
            threads := threads + [panicked];
          }
          spawnedPanicked := spawnedPanicked || panicked;
      }
      i := i + 1;
    }
    assert done + [] == done;
    var panicked := JoinThreads(threads);
    r := RunOutcome(done, if panicked then Panicked else Finished);
  }

  /** What one iteration of the first loop of `run` leaves: the handled path and whether its
      thread panics, or the error that ends `run`. */
  datatype PathStep = Handled(entry: Entry, panicked: bool) | Stopped(error: Error)

  /** One iteration of the first loop of `run`: a directory is handed to a thread that walks it
      (`panicked` telling whether that thread panics), and a file goes through `modify_file`,
      whose error is the `failure` that `?` returns. */
  method RunPath(f: Fisher, ghost transform: Transform, paths: seq<Entry>, i: nat) returns (step: PathStep)
    requires f.Performs(transform) && i < |paths|
    ensures step.Stopped? ==> RunWalk(transform, paths[i..]) == RunOutcome(paths[i..], Failed(step.error))
    ensures step.Handled? ==> RunWalk(transform, paths[i..]) == Merge([step.entry], step.panicked, RunWalk(transform, paths[i + 1..]))
    ensures step.Handled? && step.panicked ==> step.entry.Directory?
  {
    assert paths[i..][0] == paths[i] && paths[i..][1..] == paths[i + 1..];
    match paths[i] {
      case Directory(name, children) =>
        var sub := IterDir(f, transform, children);
        return Handled(Directory(name, sub.entries), sub.panicked);
      case File(name, content) =>
        var modified := ModifyFile(f.fisher, f.crypt, f.blockSize, content);
        match modified {
          case Err(e) =>
            return Stopped(e);
          case Ok(c) =>
            return Handled(File(name, c), false);
        }
    }
  }

  /** The second loop of `run`: join the spawned threads in order; the first that panicked makes
      `join().unwrap()` panic. */
  method JoinThreads(threads: seq<bool>) returns (panicked: bool)
    ensures panicked == (true in threads)
  {
    var pending := threads;
    while pending != []
      invariant (true in pending) == (true in threads)
      decreases |pending|
    {
      var thread := pending[0];
      assert pending == [thread] + pending[1..];
      pending := pending[1..];
      if thread {
        return true;
      }
    }
    return false;
  }

  /** A top-level path that is a file `modify_file` does not accept. */
  ghost predicate FailingFile(transform: Transform, e: Entry)
  {
    e.File? && transform(e.content).Err?
  }

  /** A top-level path that is a directory whose walk panicked. */
  ghost predicate PanickingDirectory(transform: Transform, e: Entry)
  {
    e.Directory? && DirWalk(transform, e.entries).panicked
  }

  /** `run` returns an error exactly when some top-level file is not accepted by `modify_file`,
      and then it is the error of the first such file, every file before it having been accepted. */
  lemma {:induction false} RunFailsAtFirstFailingFile(transform: Transform, paths: seq<Entry>)
    ensures var r := RunWalk(transform, paths);
            r.status.Failed? <==> exists k :: 0 <= k < |paths| && FailingFile(transform, paths[k])
    ensures var r := RunWalk(transform, paths);
            r.status.Failed? ==>
              exists k :: 0 <= k < |paths| && paths[k].File? && transform(paths[k].content) == Err(r.status.error)
                          && forall j :: 0 <= j < k ==> !FailingFile(transform, paths[j])
  {
    if paths != [] {
      var rest := paths[1..];
      RunFailsAtFirstFailingFile(transform, rest);
      var r := RunWalk(transform, paths);
      var t := RunWalk(transform, rest);
      forall k | 1 <= k < |paths| ensures paths[k] == rest[k - 1] {
      }
      if FailingFile(transform, paths[0]) {
        assert r.status == Failed(transform(paths[0].content).error);
      } else {
        assert r.status.Failed? <==> t.status.Failed?;
        if t.status.Failed? {
          var k :| 0 <= k < |rest| && rest[k].File? && transform(rest[k].content) == Err(t.status.error)
                   && forall j :: 0 <= j < k ==> !FailingFile(transform, rest[j]);
          assert paths[k + 1] == rest[k];
          assert forall j :: 0 <= j < k + 1 ==> !FailingFile(transform, paths[j]);
        }
      }
    }
  }

  /** When no top-level file fails, `run` panics in `join().unwrap()` exactly when the walk of some
      top-level directory panicked, and returns `Ok` otherwise. */
  lemma {:induction false} RunPanicsIffSomeDirectoryPanicked(transform: Transform, paths: seq<Entry>)
    requires forall k :: 0 <= k < |paths| ==> !FailingFile(transform, paths[k])
    ensures var r := RunWalk(transform, paths);
            && (r.status == Panicked <==> exists k :: 0 <= k < |paths| && PanickingDirectory(transform, paths[k]))
            && (r.status == Finished <==> forall k :: 0 <= k < |paths| ==> !PanickingDirectory(transform, paths[k]))
  {
    if paths != [] {
      var rest := paths[1..];
      forall k | 1 <= k < |paths| ensures paths[k] == rest[k - 1] {
      }
      RunPanicsIffSomeDirectoryPanicked(transform, rest);
      assert !RunWalk(transform, rest).status.Failed?;
    }
  }

  /** When `run` does not return an error, every top-level file, whatever its name, holds what
      `modify_file` made of it (the main thread handles files before it joins any thread); when
      `run` finishes, every thread has been joined and every top-level directory holds its walk. */
  lemma {:induction false} RunModifiesTopLevelPaths(transform: Transform, paths: seq<Entry>)
    ensures var r := RunWalk(transform, paths);
            !r.status.Failed? ==>
              && |r.paths| == |paths|
              && (forall i :: 0 <= i < |paths| && paths[i].File? ==>
                    var m := transform(paths[i].content);
                    m.Ok? && r.paths[i] == File(paths[i].name, m.value))
    ensures var r := RunWalk(transform, paths);
            r.status == Finished ==>
              forall i :: 0 <= i < |paths| && paths[i].Directory? ==>
                r.paths[i] == Directory(paths[i].name, DirWalk(transform, paths[i].entries).entries)
  {
    if paths != [] {
      var rest := paths[1..];
      RunModifiesTopLevelPaths(transform, rest);
      var r := RunWalk(transform, paths);
      var t := RunWalk(transform, rest);
      if !r.status.Failed? {
        assert !t.status.Failed?;
        forall i | 1 <= i < |paths| ensures paths[i] == rest[i - 1] && r.paths[i] == t.paths[i - 1] {
        }
      }
    }
  }
}
