/**
 * The unpack engine of `ares.py` (`execute_unpack`, from the (suffix, tag)
 * pairs on): every archive is extracted into a scratch tree; for each
 * configured suffix `S`, in field order, the scratch files whose name
 * matches `*S.*` are moved to `<resdir>/drawable-<tag>/<name>`; the scratch
 * tree is then removed. The filesystem is a map from path to contents plus
 * the explicit set of existing folders of the resource tree.
 */
module Unpack {
  import opened Wrappers
  import opened Paths
  import opened Profiles

  type Bytes = seq<bv8>

  /** A file of the scratch tree: its path below the scratch directory and its contents. */
  datatype Entry = Entry(path: Path, data: Bytes)

  /**
   * What happens during a run, in order. `FolderMissing` and `NoFiles` are
   * the messages the engine writes; `Moved` records a successful
   * `shutil.move`, which the engine does silently.
   */
  datatype Event =
    | Unzipping(archive: Path, profile: string)
    | Moved(source: Path, destination: Path)
    | FolderMissing(folder: Path)
    | NoFiles(suffix: string)
    | Unzipped(archive: Path, profile: string)

  /** What the per-archive loop reads besides the scratch tree: `resdir`, the existing folders, `--name`. */
  datatype Target = Target(resdir: Path, folders: set<Path>, name: Option<string>)

  /** The state of one archive's processing; `crashed` is an exception that ended the program. */
  datatype Run = Run(scratch: seq<Entry>, files: map<Path, Bytes>, log: seq<Event>, crashed: bool)

  /**
   * An archive named on the command line: the files `extractall` writes, or
   * `None` if it cannot be opened, and how many directory members it has.
   */
  datatype Archive = Archive(path: Path, contents: Option<seq<Entry>>, dirMembers: nat)

  datatype BatchStatus =
    | Completed
    | Unreadable(archive: Path)                                       // ZipFile raised: the batch stops
    | NameError(archive: Path, scratchDir: Path, leftover: seq<Entry>) // pathlib raised on `--name`
    | ScratchMissing(archive: Path)                                   // rmtree raised: nothing was extracted

  datatype Batch = Batch(files: map<Path, Bytes>, log: seq<Event>, status: BatchStatus)

  const AresTemp: Path := "~/.ares/temp"

  /** The scratch directory of an archive: `ARES_TEMP/<stem of the archive's file name>`. */
  function ScratchDir(archive: Path): (dir: Path)
    ensures |AresTemp| < |dir| && dir[..|AresTemp|] == AresTemp
    ensures BaseName(dir) + Extension(BaseName(archive)) == BaseName(archive)
  {
    var stem := Stem(BaseName(archive));
    BaseNameIsLastComponent(archive);
    assert stem <= BaseName(archive);
    JoinSpec(AresTemp, stem);
    Join(AresTemp, stem)
  }

  /** A `drawable-<tag>` folder name is a single path component. */
  lemma FolderNameHasNoSlash(tag: Density)
    ensures '/' !in "drawable-" + TagName(tag)
  {
    match tag
    case Ldpi => assert "drawable-" + TagName(tag) == "drawable-ldpi";
    case Mdpi => assert "drawable-" + TagName(tag) == "drawable-mdpi";
    case Hdpi => assert "drawable-" + TagName(tag) == "drawable-hdpi";
    case Xhdpi => assert "drawable-" + TagName(tag) == "drawable-xhdpi";
    case Xxhdpi => assert "drawable-" + TagName(tag) == "drawable-xxhdpi";
    case Xxxhdpi => assert "drawable-" + TagName(tag) == "drawable-xxxhdpi";
    case Nodpi => assert "drawable-" + TagName(tag) == "drawable-nodpi";
    case Tvdpi => assert "drawable-" + TagName(tag) == "drawable-tvdpi";
  }

  /** `resdir + '/drawable-' + tag`. */
  function DrawableFolder(resdir: Path, tag: Density): (folder: Path)
    ensures |resdir| < |folder| && folder[..|resdir|] == resdir
    ensures BaseName(folder) == "drawable-" + TagName(tag)
  {
    FolderNameHasNoSlash(tag);
    JoinSpec(resdir, "drawable-" + TagName(tag));
    Join(resdir, "drawable-" + TagName(tag))
  }

  /** Different tags never share a folder. */
  lemma DrawableFoldersDistinct(resdir: Path, a: Density, b: Density)
    requires a != b
    ensures DrawableFolder(resdir, a) != DrawableFolder(resdir, b)
  {
    var fa, fb := "drawable-" + TagName(a), "drawable-" + TagName(b);
    assert BaseName(DrawableFolder(resdir, a)) == fa && BaseName(DrawableFolder(resdir, b)) == fb;
    assert fa[9..] == TagName(a) && fb[9..] == TagName(b);
  }

  /**
   * `pathlib.Path(name)` needs a given name, and `with_suffix` raises when
   * the path's name is empty, as it is for "" and ".".
   */
  predicate UsableName(name: Option<string>)
  {
    name.Some? && name.value != "" && name.value != "."
  }

  /** Where a matched file goes: the folder joined with `--name`, extended by the file's own extension if needed. */
  function Destination(folder: Path, name: string, source: Path): Path
  {
    Join(folder, TargetName(name, BaseName(source)))
  }

  /** The destination of every match of one suffix. */
  function DestinationIn(folder: Path, name: string): Path -> Path
  {
    source => Destination(folder, name, source)
  }

  /** The paths of a list of entries, in order. */
  function PathsOf(s: seq<Entry>): (ps: seq<Path>)
    ensures |ps| == |s|
    ensures forall i :: 0 <= i < |s| ==> ps[i] == s[i].path
  {
    if s == [] then [] else [s[0].path] + PathsOf(s[1..])
  }

  /** No two entries share a path, as in any directory tree. */
  predicate DistinctPaths(s: seq<Entry>)
  {
    s == [] || (s[0].path !in PathsOf(s[1..]) && DistinctPaths(s[1..]))
  }

  /** `rglob('*S.*')` over the scratch tree: the entries whose file name matches, in traversal order. */
  function MatchesOf(scratch: seq<Entry>, suffix: string): (ms: seq<Entry>)
    ensures forall e :: e in ms <==> e in scratch && NameMatches(BaseName(e.path), suffix)
    ensures |ms| <= |scratch|
  {
    if scratch == [] then []
    else if NameMatches(BaseName(scratch[0].path), suffix) then [scratch[0]] + MatchesOf(scratch[1..], suffix)
    else MatchesOf(scratch[1..], suffix)
  }

  /** The scratch tree after the file at `p` has been moved out of it. */
  function RemovePath(scratch: seq<Entry>, p: Path): (rest: seq<Entry>)
    ensures forall e :: e in rest <==> e in scratch && e.path != p
  {
    if scratch == [] then []
    else if scratch[0].path == p then RemovePath(scratch[1..], p)
    else [scratch[0]] + RemovePath(scratch[1..], p)
  }

  /** A path is listed exactly when some entry has it. */
  lemma {:induction false} PathsOfMember(s: seq<Entry>, p: Path)
    ensures p in PathsOf(s) <==> exists e :: e in s && e.path == p
  {
    if p in PathsOf(s) {
      var i :| 0 <= i < |s| && PathsOf(s)[i] == p;
      assert s[i] in s;
    }
    if exists e :: e in s && e.path == p {
      var e :| e in s && e.path == p;
      var i :| 0 <= i < |s| && s[i] == e;
      assert PathsOf(s)[i] == p;
    }
  }

  /** Moving a file out of a scratch tree with distinct paths keeps them distinct. */
  lemma {:induction false} RemovePathDistinct(s: seq<Entry>, p: Path)
    requires DistinctPaths(s)
    ensures DistinctPaths(RemovePath(s, p))
  {
    if s != [] {
      RemovePathDistinct(s[1..], p);
      var rest := RemovePath(s[1..], p);
      if s[0].path != p {
        var r := [s[0]] + rest;
        assert r[1..] == rest;
        PathsOfMember(rest, s[0].path);
        PathsOfMember(s[1..], s[0].path);
      }
    }
  }

  /** The matches of a scratch tree with distinct paths have distinct paths. */
  lemma {:induction false} MatchesOfDistinct(s: seq<Entry>, suffix: string)
    requires DistinctPaths(s)
    ensures DistinctPaths(MatchesOf(s, suffix))
  {
    if s != [] {
      MatchesOfDistinct(s[1..], suffix);
      var rest := MatchesOf(s[1..], suffix);
      if NameMatches(BaseName(s[0].path), suffix) {
        var r := [s[0]] + rest;
        assert r[1..] == rest;
        PathsOfMember(rest, s[0].path);
        PathsOfMember(s[1..], s[0].path);
      }
    }
  }

  /** The matches of a tree split along the tree, so they come in traversal order. */
  lemma {:induction false} MatchesOfAppend(a: seq<Entry>, b: seq<Entry>, suffix: string)
    ensures MatchesOf(a + b, suffix) == MatchesOf(a, suffix) + MatchesOf(b, suffix)
  {
    if a == [] {
      assert a + b == b;
    } else {
      assert (a + b)[1..] == a[1..] + b;
      MatchesOfAppend(a[1..], b, suffix);
    }
  }

  /** One `Moved` event per entry, in order. */
  function MovedEvents(ms: seq<Entry>, dest: Path -> Path): (evs: seq<Event>)
    ensures |evs| == |ms|
    ensures forall ev :: ev in evs ==> ev.Moved?
  {
    if ms == [] then [] else [Moved(ms[0].path, dest(ms[0].path))] + MovedEvents(ms[1..], dest)
  }

  /** The i-th record names the i-th entry and its destination. */
  lemma {:induction false} MovedEventsAt(ms: seq<Entry>, dest: Path -> Path)
    ensures forall i :: 0 <= i < |ms| ==> MovedEvents(ms, dest)[i] == Moved(ms[i].path, dest(ms[i].path))
  {
    if ms != [] {
      MovedEventsAt(ms[1..], dest);
      forall i | 1 <= i < |ms| ensures MovedEvents(ms, dest)[i] == Moved(ms[i].path, dest(ms[i].path)) {
        assert ms[i] == ms[1..][i - 1];
      }
    }
  }

  /** `n` reports of a missing folder. */
  function MissingEvents(folder: Path, n: nat): (evs: seq<Event>)
    ensures |evs| == n
    ensures forall i :: 0 <= i < n ==> evs[i] == FolderMissing(folder)
  {
    if n == 0 then [] else [FolderMissing(folder)] + MissingEvents(folder, n - 1)
  }

  /** The destinations of the successful moves of the file at `source`, in order. */
  function MovesOf(log: seq<Event>, source: Path): seq<Path>
  {
    if log == [] then []
    else (if log[0].Moved? && log[0].source == source then [log[0].destination] else []) + MovesOf(log[1..], source)
  }

  /** The moves recorded in a log split along the log. */
  lemma {:induction false} MovesOfAppend(a: seq<Event>, b: seq<Event>, p: Path)
    ensures MovesOf(a + b, p) == MovesOf(a, p) + MovesOf(b, p)
  {
    if a == [] {
      assert a + b == b;
    } else {
      assert (a + b)[1..] == a[1..] + b;
      MovesOfAppend(a[1..], b, p);
    }
  }

  /** Reports of a missing folder record no move. */
  lemma {:induction false} MovesOfMissing(folder: Path, n: nat, p: Path)
    ensures MovesOf(MissingEvents(folder, n), p) == []
  {
    if n > 0 {
      assert MissingEvents(folder, n)[1..] == MissingEvents(folder, n - 1);
      MovesOfMissing(folder, n - 1, p);
    }
  }

  /** Among moves of distinct files, a file is moved once if it is among them and never otherwise. */
  lemma {:induction false} MovesOfMovedEvents(ms: seq<Entry>, dest: Path -> Path, p: Path)
    requires DistinctPaths(ms)
    ensures MovesOf(MovedEvents(ms, dest), p) == if p in PathsOf(ms) then [dest(p)] else []
  {
    if ms != [] {
      var evs := MovedEvents(ms, dest);
      assert evs[1..] == MovedEvents(ms[1..], dest);
      assert PathsOf(ms) == [ms[0].path] + PathsOf(ms[1..]);
      MovesOfMovedEvents(ms[1..], dest, p);
    }
  }

  /** The moves of one suffix's matches, one `shutil.move` after another (ares.py:243-252). */
  function MoveEach(ms: seq<Entry>, folder: Path, dest: Path -> Path, folders: set<Path>, r: Run): Run
    decreases |ms|
  {
    if ms == [] then r
    else
      var m := ms[0];
      var dst := dest(m.path);
      var r' :=
        if folder in folders then Run(RemovePath(r.scratch, m.path), r.files[dst := m.data], r.log + [Moved(m.path, dst)], r.crashed)
        else r.(log := r.log + [FolderMissing(folder)]);
      MoveEach(ms[1..], folder, dest, folders, r')
  }

  /** One (suffix, tag) pair: skip an unset suffix, report a suffix without matches, else move the matches. */
  function ProcessPair(pr: (Option<string>, Density), env: Target, r: Run): Run
  {
    match pr.0
    case None => r
    case Some(s) =>
      var ms := MatchesOf(r.scratch, s);
      if ms == [] then r.(log := r.log + [NoFiles(s)])
      else if !UsableName(env.name) then r.(crashed := true)
      else
        var folder := DrawableFolder(env.resdir, pr.1);
        MoveEach(ms, folder, DestinationIn(folder, env.name.value), env.folders, r)
  }

  /** The pairs one after the other, until one of them crashes. */
  function ProcessPairs(prs: seq<(Option<string>, Density)>, env: Target, r: Run): Run
  {
    if r.crashed || prs == [] then r
    else ProcessPairs(prs[1..], env, ProcessPair(prs[0], env, r))
  }

  /**
   * An archive without members: `extractall` then creates no scratch
   * directory, and the `rmtree` at the end of the archive raises.
   */
  predicate NoMembers(extracted: seq<Entry>, dirMembers: nat)
  {
    extracted == [] && dirMembers == 0
  }

  /** The archive opens and `extractall` creates its scratch directory. */
  predicate Extracts(a: Archive)
  {
    a.contents.Some? && !NoMembers(a.contents.value, a.dirMembers)
  }

  /**
   * One archive: process every pair, then `rmtree` the scratch tree unless an
   * exception came first; `rmtree` raises when there is no scratch directory.
   */
  function ArchiveResult(pairs: seq<(Option<string>, Density)>, env: Target, extracted: seq<Entry>, dirMembers: nat,
                         files: map<Path, Bytes>, log: seq<Event>): Run
  {
    var r := ProcessPairs(pairs, env, Run(extracted, files, log, false));
    if r.crashed then r
    else if NoMembers(extracted, dirMembers) then r.(crashed := true)
    else r.(scratch := [])
  }

  /** The archives one after the other, until one cannot be opened or raises. */
  function BatchResult(archives: seq<Archive>, pairs: seq<(Option<string>, Density)>, profile: string, env: Target,
                       files: map<Path, Bytes>, log: seq<Event>): Batch
  {
    if archives == [] then Batch(files, log, Completed)
    else
      var a := archives[0];
      var log1 := log + [Unzipping(a.path, profile)];
      match a.contents
      case None => Batch(files, log1, Unreadable(a.path))
      case Some(extracted) =>
        var r := ArchiveResult(pairs, env, extracted, a.dirMembers, files, log1);
        if !r.crashed then BatchResult(archives[1..], pairs, profile, env, r.files, r.log + [Unzipped(a.path, profile)])
        // an archive without members has nothing to match, so only `rmtree` can raise for it
        else if NoMembers(extracted, a.dirMembers) then Batch(r.files, r.log, ScratchMissing(a.path))
        else Batch(r.files, r.log, NameError(a.path, ScratchDir(a.path), r.scratch))
  }

  // ---------------------------------------------------------------------------
  // What the loop does to each file

  /** The pair takes the file at `p`: its suffix is set, its pattern matches, and its folder exists. */
  predicate Takes(pr: (Option<string>, Density), env: Target, p: Path)
  {
    pr.0.Some? && NameMatches(BaseName(p), pr.0.value) && DrawableFolder(env.resdir, pr.1) in env.folders
  }

  /** Where the pair sends the file at `p`. */
  function DestinationFor(pr: (Option<string>, Density), env: Target, p: Path): Path
    requires UsableName(env.name)
  {
    Destination(DrawableFolder(env.resdir, pr.1), env.name.value, p)
  }

  /** Where the file at `p` ends up: the destination of the first pair in order that takes it. */
  function Home(prs: seq<(Option<string>, Density)>, env: Target, p: Path): Option<Path>
    requires UsableName(env.name)
  {
    if prs == [] then None
    else if Takes(prs[0], env, p) then Some(DestinationFor(prs[0], env, p))
    else Home(prs[1..], env, p)
  }

  /** `Home` as a list of at most one destination, to compare with the recorded moves. */
  function HomeList(prs: seq<(Option<string>, Density)>, env: Target, p: Path): seq<Path>
    requires UsableName(env.name)
  {
    match Home(prs, env, p)
    case None => []
    case Some(d) => [d]
  }

  /** `i` is the first pair that takes the file at `p`. */
  ghost predicate FirstTaker(prs: seq<(Option<string>, Density)>, env: Target, p: Path, i: int)
  {
    0 <= i < |prs| && Takes(prs[i], env, p) && forall j :: 0 <= j < i ==> !Takes(prs[j], env, p)
  }

  /** `Home` is the destination of the first pair that takes the file, and there is none when no pair does. */
  lemma {:induction false} HomeIsFirstTaker(prs: seq<(Option<string>, Density)>, env: Target, p: Path)
    requires UsableName(env.name)
    ensures Home(prs, env, p).None? <==> forall i :: 0 <= i < |prs| ==> !Takes(prs[i], env, p)
    ensures Home(prs, env, p).Some? ==>
      exists i :: FirstTaker(prs, env, p, i) && Home(prs, env, p).value == DestinationFor(prs[i], env, p)
  {
    if prs != [] {
      if Takes(prs[0], env, p) {
        assert FirstTaker(prs, env, p, 0);
      } else {
        HomeIsFirstTaker(prs[1..], env, p);
        if Home(prs, env, p).Some? {
          var i :| FirstTaker(prs[1..], env, p, i) && Home(prs, env, p).value == DestinationFor(prs[1..][i], env, p);
          assert prs[1..][i] == prs[i + 1];
          forall j | 0 <= j < i + 1 ensures !Takes(prs[j], env, p) {
            if j > 0 { assert prs[j] == prs[1..][j - 1]; }
          }
          assert FirstTaker(prs, env, p, i + 1);
        } else {
          forall i | 0 <= i < |prs| ensures !Takes(prs[i], env, p) {
            if i > 0 { assert prs[i] == prs[1..][i - 1]; }
          }
        }
      }
    }
  }

  /** When the folder is missing, every match stays and is reported. */
  lemma {:induction false} MoveEachMissing(ms: seq<Entry>, folder: Path, dest: Path -> Path, folders: set<Path>, r: Run)
    requires folder !in folders
    ensures MoveEach(ms, folder, dest, folders, r) == r.(log := r.log + MissingEvents(folder, |ms|))
    decreases |ms|
  {
    if ms != [] {
      var r1 := r.(log := r.log + [FolderMissing(folder)]);
      MoveEachMissing(ms[1..], folder, dest, folders, r1);
      assert MissingEvents(folder, |ms|) == [FolderMissing(folder)] + MissingEvents(folder, |ms| - 1);
      assert r1.log + MissingEvents(folder, |ms| - 1) == r.log + MissingEvents(folder, |ms|);
    }
  }

  /** When the folder exists, one move is recorded per match, in order. */
  lemma {:induction false} MoveEachLog(ms: seq<Entry>, folder: Path, dest: Path -> Path, folders: set<Path>, r: Run)
    requires folder in folders
    ensures MoveEach(ms, folder, dest, folders, r).crashed == r.crashed
    ensures MoveEach(ms, folder, dest, folders, r).log == r.log + MovedEvents(ms, dest)
    decreases |ms|
  {
    if ms != [] {
      var m := ms[0];
      var dst := dest(m.path);
      var r1 := Run(RemovePath(r.scratch, m.path), r.files[dst := m.data], r.log + [Moved(m.path, dst)], r.crashed);
      MoveEachLog(ms[1..], folder, dest, folders, r1);
      assert r1.log + MovedEvents(ms[1..], dest) == r.log + MovedEvents(ms, dest);
    }
  }

  /** When the folder exists, every match leaves the scratch tree and nothing else does. */
  lemma {:induction false} MoveEachScratch(ms: seq<Entry>, folder: Path, dest: Path -> Path, folders: set<Path>, r: Run)
    requires folder in folders
    ensures forall e :: e in MoveEach(ms, folder, dest, folders, r).scratch <==> e in r.scratch && e.path !in PathsOf(ms)
    ensures DistinctPaths(r.scratch) ==> DistinctPaths(MoveEach(ms, folder, dest, folders, r).scratch)
    decreases |ms|
  {
    if ms != [] {
      var m := ms[0];
      var dst := dest(m.path);
      var r1 := Run(RemovePath(r.scratch, m.path), r.files[dst := m.data], r.log + [Moved(m.path, dst)], r.crashed);
      MoveEachScratch(ms[1..], folder, dest, folders, r1);
      assert PathsOf(ms) == [m.path] + PathsOf(ms[1..]);
      if DistinctPaths(r.scratch) { RemovePathDistinct(r.scratch, m.path); }
    }
  }

  /** When several files match one suffix and `--name` has an extension, the last of them overwrites the others. */
  lemma {:induction false} LastMatchWins(ms: seq<Entry>, folder: Path, name: string, folders: set<Path>, r: Run)
    requires ms != [] && folder in folders && Extension(name) != ""
    ensures MoveEach(ms, folder, DestinationIn(folder, name), folders, r).files == r.files[Join(folder, name) := ms[|ms| - 1].data]
    decreases |ms|
  {
    var m := ms[0];
    assert DestinationIn(folder, name)(m.path) == Join(folder, name);
    var r1 := Run(RemovePath(r.scratch, m.path), r.files[Join(folder, name) := m.data],
                  r.log + [Moved(m.path, Join(folder, name))], r.crashed);
    if |ms| > 1 {
      LastMatchWins(ms[1..], folder, name, folders, r1);
    }
  }

  /** One pair removes from the scratch tree exactly the files it takes, and raises nothing. */
  lemma PairScratch(pr: (Option<string>, Density), env: Target, r: Run)
    requires !r.crashed && UsableName(env.name) && DistinctPaths(r.scratch)
    ensures var r' := ProcessPair(pr, env, r);
      && !r'.crashed && DistinctPaths(r'.scratch)
      && (forall e :: e in r'.scratch <==> e in r.scratch && !Takes(pr, env, e.path))
  {
    if pr.0.Some? {
      var s := pr.0.value;
      var ms := MatchesOf(r.scratch, s);
      var folder := DrawableFolder(env.resdir, pr.1);
      if ms != [] {
        MatchesOfDistinct(r.scratch, s);
        if folder in env.folders {
          MoveEachLog(ms, folder, DestinationIn(folder, env.name.value), env.folders, r);
          MoveEachScratch(ms, folder, DestinationIn(folder, env.name.value), env.folders, r);
          forall e | e in r.scratch ensures e.path in PathsOf(ms) <==> Takes(pr, env, e.path) {
            PathsOfMember(ms, e.path);
          }
        } else {
          MoveEachMissing(ms, folder, DestinationIn(folder, env.name.value), env.folders, r);
        }
      }
    }
  }

  /**
   * One pair records one move for each file it takes, to that pair's
   * destination, and none for any other file.
   */
  lemma PairMoves(pr: (Option<string>, Density), env: Target, r: Run)
    requires !r.crashed && UsableName(env.name) && DistinctPaths(r.scratch)
    ensures var r' := ProcessPair(pr, env, r);
      && (forall e :: e in r.scratch ==>
            MovesOf(r'.log, e.path) == MovesOf(r.log, e.path) + (if Takes(pr, env, e.path) then [DestinationFor(pr, env, e.path)] else []))
      && (forall p :: p !in PathsOf(r.scratch) ==> MovesOf(r'.log, p) == MovesOf(r.log, p))
  {
    var r' := ProcessPair(pr, env, r);
    if pr.0.Some? {
      var s := pr.0.value;
      var ms := MatchesOf(r.scratch, s);
      var folder := DrawableFolder(env.resdir, pr.1);
      if ms == [] {
        forall p ensures MovesOf(r'.log, p) == MovesOf(r.log, p) {
          MovesOfAppend(r.log, [NoFiles(s)], p);
        }
      } else {
        MatchesOfDistinct(r.scratch, s);
        if folder in env.folders {
          MoveEachLog(ms, folder, DestinationIn(folder, env.name.value), env.folders, r);
          forall p ensures MovesOf(r'.log, p) == MovesOf(r.log, p) + (if p in PathsOf(ms) then [DestinationIn(folder, env.name.value)(p)] else []) {
            MovesOfAppend(r.log, MovedEvents(ms, DestinationIn(folder, env.name.value)), p);
            MovesOfMovedEvents(ms, DestinationIn(folder, env.name.value), p);
          }
          forall e | e in r.scratch ensures e.path in PathsOf(ms) <==> Takes(pr, env, e.path) {
            PathsOfMember(ms, e.path);
          }
          forall p | p !in PathsOf(r.scratch) ensures p !in PathsOf(ms) {
            PathsOfMember(ms, p);
            PathsOfMember(r.scratch, p);
          }
        } else {
          MoveEachMissing(ms, folder, DestinationIn(folder, env.name.value), env.folders, r);
          forall p ensures MovesOf(r'.log, p) == MovesOf(r.log, p) {
            MovesOfAppend(r.log, MissingEvents(folder, |ms|), p);
            MovesOfMissing(folder, |ms|, p);
          }
        }
      }
    }
  }

  /** The pairs leave behind exactly the files no pair takes, and raise nothing. */
  lemma {:induction false} RoutesScratch(prs: seq<(Option<string>, Density)>, env: Target, r: Run)
    requires !r.crashed && UsableName(env.name) && DistinctPaths(r.scratch)
    ensures var r' := ProcessPairs(prs, env, r);
      && !r'.crashed && DistinctPaths(r'.scratch)
      && (forall e :: e in r'.scratch <==> e in r.scratch && Home(prs, env, e.path).None?)
  {
    if prs != [] {
      var r1 := ProcessPair(prs[0], env, r);
      PairScratch(prs[0], env, r);
      RoutesScratch(prs[1..], env, r1);
    }
  }

  /**
   * The pairs route every file of the scratch tree to the first pair in
   * order that takes it, exactly once, and record no move of any other path.
   */
  lemma {:induction false} RoutesToFirstTaker(prs: seq<(Option<string>, Density)>, env: Target, r: Run)
    requires !r.crashed && UsableName(env.name) && DistinctPaths(r.scratch)
    ensures var r' := ProcessPairs(prs, env, r);
      && (forall e :: e in r.scratch ==> MovesOf(r'.log, e.path) == MovesOf(r.log, e.path) + HomeList(prs, env, e.path))
      && (forall p :: p !in PathsOf(r.scratch) ==> MovesOf(r'.log, p) == MovesOf(r.log, p))
  {
    if prs != [] {
      var r1 := ProcessPair(prs[0], env, r);
      PairScratch(prs[0], env, r);
      PairMoves(prs[0], env, r);
      RoutesToFirstTaker(prs[1..], env, r1);
      forall e | e in r.scratch && Takes(prs[0], env, e.path) ensures e.path !in PathsOf(r1.scratch) {
        PathsOfMember(r1.scratch, e.path);
      }
      forall p | p !in PathsOf(r.scratch) ensures p !in PathsOf(r1.scratch) {
        PathsOfMember(r1.scratch, p);
        PathsOfMember(r.scratch, p);
      }
    }
  }

  /** Both maps agree at `q`: the key is in both or in neither, with the same contents. */
  ghost predicate SameAt(a: map<Path, Bytes>, b: map<Path, Bytes>, q: Path)
  {
    (q in a <==> q in b) && (q in a ==> a[q] == b[q])
  }

  /** `q` is the home of some file of the tree. */
  ghost predicate IsHome(prs: seq<(Option<string>, Density)>, env: Target, scratch: seq<Entry>, q: Path)
  {
    UsableName(env.name) && exists e :: e in scratch && Home(prs, env, e.path) == Some(q)
  }

  /** `q` exists in `files` and holds the contents of a file of the tree whose home it is. */
  ghost predicate HoldsHomed(prs: seq<(Option<string>, Density)>, env: Target, scratch: seq<Entry>,
                             files: map<Path, Bytes>, q: Path)
  {
    UsableName(env.name) && q in files &&
    exists e :: e in scratch && Home(prs, env, e.path) == Some(q) && files[q] == e.data
  }

  /** No match is sent to `q`. */
  ghost predicate Untouched(ms: seq<Entry>, dest: Path -> Path, q: Path)
  {
    forall m :: m in ms ==> dest(m.path) != q
  }

  /** `q` exists in `files` and holds the contents of a match sent to it. */
  ghost predicate WrittenBy(ms: seq<Entry>, dest: Path -> Path, files: map<Path, Bytes>, q: Path)
  {
    q in files && exists m :: m in ms && dest(m.path) == q && files[q] == m.data
  }

  /**
   * When the folder exists, the moves write every destination with the
   * contents of a match sent there, and touch no other path.
   */
  lemma {:induction false} MoveEachFiles(ms: seq<Entry>, folder: Path, dest: Path -> Path, folders: set<Path>, r: Run)
    requires folder in folders
    ensures forall q :: Untouched(ms, dest, q) ==> SameAt(MoveEach(ms, folder, dest, folders, r).files, r.files, q)
    ensures forall m :: m in ms ==> WrittenBy(ms, dest, MoveEach(ms, folder, dest, folders, r).files, dest(m.path))
    decreases |ms|
  {
    if ms != [] {
      var m := ms[0];
      var dst := dest(m.path);
      var r1 := Run(RemovePath(r.scratch, m.path), r.files[dst := m.data], r.log + [Moved(m.path, dst)], r.crashed);
      var tail := ms[1..];
      var f' := MoveEach(ms, folder, dest, folders, r).files;
      assert f' == MoveEach(tail, folder, dest, folders, r1).files;
      MoveEachFiles(tail, folder, dest, folders, r1);
      forall q | Untouched(ms, dest, q)
        ensures SameAt(f', r.files, q)
      {
        assert m in ms;
        assert Untouched(tail, dest, q) by {
          forall x | x in tail ensures dest(x.path) != q {
            assert x in ms;
          }
        }
        assert SameAt(f', r1.files, q);
      }
      forall x | x in ms
        ensures WrittenBy(ms, dest, f', dest(x.path))
      {
        var q := dest(x.path);
        if Untouched(tail, dest, q) {
          assert x !in tail;
          assert x == m;
          assert SameAt(f', r1.files, q);
          assert f'[q] == m.data;
        } else {
          var y :| y in tail && dest(y.path) == q;
          assert WrittenBy(tail, dest, f', q);
          var m' :| m' in tail && dest(m'.path) == q && f'[q] == m'.data;
          assert m' in ms;
        }
      }
    }
  }

  /** A single pair is the home of exactly the files it takes. */
  lemma HomeOfOnePair(pr: (Option<string>, Density), env: Target, p: Path)
    requires UsableName(env.name)
    ensures Home([pr], env, p) == if Takes(pr, env, p) then Some(DestinationFor(pr, env, p)) else None
  {
    assert [pr][1..] == [];
  }

  /**
   * One pair writes every destination of a file it takes with the contents
   * of a file it sends there, and touches no other path.
   */
  lemma PairFiles(pr: (Option<string>, Density), env: Target, r: Run)
    requires !r.crashed && UsableName(env.name)
    ensures forall q :: !IsHome([pr], env, r.scratch, q) ==> SameAt(ProcessPair(pr, env, r).files, r.files, q)
    ensures forall q :: IsHome([pr], env, r.scratch, q) ==> HoldsHomed([pr], env, r.scratch, ProcessPair(pr, env, r).files, q)
  {
    var f' := ProcessPair(pr, env, r).files;
    forall e | e in r.scratch ensures Home([pr], env, e.path) == if Takes(pr, env, e.path) then Some(DestinationFor(pr, env, e.path)) else None {
      HomeOfOnePair(pr, env, e.path);
    }
    if pr.0.Some? {
      var ms := MatchesOf(r.scratch, pr.0.value);
      var folder := DrawableFolder(env.resdir, pr.1);
      var dest := DestinationIn(folder, env.name.value);
      if ms != [] && folder in env.folders {
        MoveEachFiles(ms, folder, dest, env.folders, r);
        assert f' == MoveEach(ms, folder, dest, env.folders, r).files;
        forall q | !IsHome([pr], env, r.scratch, q)
          ensures SameAt(f', r.files, q)
        {
          forall x | x in ms ensures dest(x.path) != q {
            assert Home([pr], env, x.path) == Some(dest(x.path));
          }
          assert Untouched(ms, dest, q);
        }
        forall q | IsHome([pr], env, r.scratch, q)
          ensures HoldsHomed([pr], env, r.scratch, f', q)
        {
          var e :| e in r.scratch && Home([pr], env, e.path) == Some(q);
          assert e in ms && dest(e.path) == q;
          assert WrittenBy(ms, dest, f', q);
          var m :| m in ms && dest(m.path) == q && f'[q] == m.data;
          assert m in r.scratch && Home([pr], env, m.path) == Some(q);
        }
      } else if ms != [] {
        MoveEachMissing(ms, folder, dest, env.folders, r);
      }
    }
  }

  /**
   * The pairs leave every path that is no file's home as it was, and write
   * every home with the contents of a file whose home it is.
   */
  lemma {:induction false} RoutesFiles(prs: seq<(Option<string>, Density)>, env: Target, r: Run)
    requires !r.crashed && UsableName(env.name) && DistinctPaths(r.scratch)
    ensures forall q :: !IsHome(prs, env, r.scratch, q) ==> SameAt(ProcessPairs(prs, env, r).files, r.files, q)
    ensures forall q :: IsHome(prs, env, r.scratch, q) ==> HoldsHomed(prs, env, r.scratch, ProcessPairs(prs, env, r).files, q)
  {
    if prs != [] {
      var pr := prs[0];
      var r1 := ProcessPair(pr, env, r);
      var rest := prs[1..];
      var f' := ProcessPairs(prs, env, r).files;
      assert f' == ProcessPairs(rest, env, r1).files;
      PairScratch(pr, env, r);
      PairFiles(pr, env, r);
      RoutesFiles(rest, env, r1);
      forall e | e in r.scratch
        ensures Home([pr], env, e.path) == if Takes(pr, env, e.path) then Some(DestinationFor(pr, env, e.path)) else None
        ensures Home(prs, env, e.path) == if Takes(pr, env, e.path) then Home([pr], env, e.path) else Home(rest, env, e.path)
      {
        HomeOfOnePair(pr, env, e.path);
      }
      forall q | !IsHome(prs, env, r.scratch, q)
        ensures SameAt(f', r.files, q)
      {
        forall e | e in r1.scratch ensures Home(rest, env, e.path) != Some(q) {
          assert e in r.scratch && !Takes(pr, env, e.path);
        }
        assert !IsHome(rest, env, r1.scratch, q);
        forall e | e in r.scratch ensures Home([pr], env, e.path) != Some(q) {
          assert Home(prs, env, e.path) != Some(q);
        }
        assert !IsHome([pr], env, r.scratch, q);
        assert SameAt(f', r1.files, q);
      }
      forall q | IsHome(prs, env, r.scratch, q)
        ensures HoldsHomed(prs, env, r.scratch, f', q)
      {
        if IsHome(rest, env, r1.scratch, q) {
          assert HoldsHomed(rest, env, r1.scratch, f', q);
          var e' :| e' in r1.scratch && Home(rest, env, e'.path) == Some(q) && f'[q] == e'.data;
          assert e' in r.scratch && Home(prs, env, e'.path) == Some(q);
        } else {
          var e :| e in r.scratch && Home(prs, env, e.path) == Some(q);
          assert Takes(pr, env, e.path);
          assert IsHome([pr], env, r.scratch, q);
          assert HoldsHomed([pr], env, r.scratch, r1.files, q);
          var e' :| e' in r.scratch && Home([pr], env, e'.path) == Some(q) && r1.files[q] == e'.data;
          assert Takes(pr, env, e'.path);
          assert Home(prs, env, e'.path) == Some(q);
          assert SameAt(f', r1.files, q);
        }
      }
    }
  }

  /** A pair with no suffix does nothing; a set suffix gets a "no files" notice exactly when nothing matched it. */
  lemma PairReport(pr: (Option<string>, Density), env: Target, r: Run)
    requires !r.crashed && UsableName(env.name)
    ensures pr.0.None? ==> ProcessPair(pr, env, r) == r
    ensures pr.0.Some? ==>
      var r' := ProcessPair(pr, env, r);
      && |r.log| < |r'.log| && r'.log[..|r.log|] == r.log
      && (NoFiles(pr.0.value) in r'.log[|r.log|..] <==> MatchesOf(r.scratch, pr.0.value) == [])
  {
    if pr.0.Some? {
      var ms := MatchesOf(r.scratch, pr.0.value);
      var r' := ProcessPair(pr, env, r);
      var folder := DrawableFolder(env.resdir, pr.1);
      if ms != [] && folder in env.folders {
        MoveEachLog(ms, folder, DestinationIn(folder, env.name.value), env.folders, r);
        assert r'.log[|r.log|..] == MovedEvents(ms, DestinationIn(folder, env.name.value));
      } else if ms != [] {
        MoveEachMissing(ms, folder, DestinationIn(folder, env.name.value), env.folders, r);
        assert r'.log[|r.log|..] == MissingEvents(folder, |ms|);
      } else {
        assert r'.log[|r.log|..] == [NoFiles(pr.0.value)];
      }
    }
  }

  /** Without a usable `--name` nothing is moved: the run crashes at the first match, if there is one. */
  lemma {:induction false} UnusableNameMovesNothing(prs: seq<(Option<string>, Density)>, env: Target, r: Run)
    requires !UsableName(env.name)
    ensures var r' := ProcessPairs(prs, env, r);
      && r'.scratch == r.scratch && r'.files == r.files
      && (forall p :: MovesOf(r'.log, p) == MovesOf(r.log, p))
      && (r'.crashed <==> r.crashed || exists i :: 0 <= i < |prs| && prs[i].0.Some? && MatchesOf(r.scratch, prs[i].0.value) != [])
  {
    if !r.crashed && prs != [] {
      var r1 := ProcessPair(prs[0], env, r);
      UnusableNameMovesNothing(prs[1..], env, r1);
      forall p ensures MovesOf(r1.log, p) == MovesOf(r.log, p) {
        if prs[0].0.Some? { MovesOfAppend(r.log, [NoFiles(prs[0].0.value)], p); }
      }
      if exists i :: 0 <= i < |prs| && prs[i].0.Some? && MatchesOf(r.scratch, prs[i].0.value) != [] {
        var i :| 0 <= i < |prs| && prs[i].0.Some? && MatchesOf(r.scratch, prs[i].0.value) != [];
        if i > 0 { assert prs[1..][i - 1] == prs[i]; }
      }
      if exists i :: 0 <= i < |prs[1..]| && prs[1..][i].0.Some? && MatchesOf(r.scratch, prs[1..][i].0.value) != [] {
        var i :| 0 <= i < |prs[1..]| && prs[1..][i].0.Some? && MatchesOf(r.scratch, prs[1..][i].0.value) != [];
        assert prs[i + 1] == prs[1..][i];
      }
    }
  }

  /** An empty scratch tree gives no pair a match: nothing moves and nothing raises. */
  lemma {:induction false} EmptyTreeMovesNothing(prs: seq<(Option<string>, Density)>, env: Target, r: Run)
    requires r.scratch == [] && !r.crashed
    ensures var r' := ProcessPairs(prs, env, r);
      !r'.crashed && r'.scratch == [] && r'.files == r.files
  {
    if prs != [] {
      var r1 := ProcessPair(prs[0], env, r);
      if prs[0].0.Some? {
        assert MatchesOf(r.scratch, prs[0].0.value) == [];
      }
      EmptyTreeMovesNothing(prs[1..], env, r1);
    }
  }

  /**
   * One archive, with a usable `--name`: every extracted file is moved
   * exactly once to the first pair in field order that takes it, or not at
   * all, and the scratch tree is removed at the end, which raises only when
   * the archive has no members. In the resource tree, a path that is no
   * file's home keeps what it held, and every home holds the contents of a
   * file sent there.
   */
  lemma FirstTakerWins(pairs: seq<(Option<string>, Density)>, env: Target, extracted: seq<Entry>, dirMembers: nat,
                       files: map<Path, Bytes>, log: seq<Event>)
    requires UsableName(env.name) && DistinctPaths(extracted)
    ensures var r := ArchiveResult(pairs, env, extracted, dirMembers, files, log);
      && (r.crashed <==> NoMembers(extracted, dirMembers)) && r.scratch == []
      && (forall e :: e in extracted ==> MovesOf(r.log, e.path) == MovesOf(log, e.path) + HomeList(pairs, env, e.path))
      && (forall q :: !IsHome(pairs, env, extracted, q) ==> SameAt(r.files, files, q))
      && (forall q :: IsHome(pairs, env, extracted, q) ==> HoldsHomed(pairs, env, extracted, r.files, q))
  {
    RoutesScratch(pairs, env, Run(extracted, files, log, false));
    RoutesToFirstTaker(pairs, env, Run(extracted, files, log, false));
    RoutesFiles(pairs, env, Run(extracted, files, log, false));
    if extracted == [] {
      EmptyTreeMovesNothing(pairs, env, Run(extracted, files, log, false));
    }
  }

  /** An archive none of whose files any pair takes leaves the resource tree as it was. */
  lemma NothingTakenKeepsFiles(pairs: seq<(Option<string>, Density)>, env: Target, extracted: seq<Entry>, dirMembers: nat,
                               files: map<Path, Bytes>, log: seq<Event>)
    requires UsableName(env.name) && DistinctPaths(extracted)
    requires forall e :: e in extracted ==> Home(pairs, env, e.path).None?
    ensures ArchiveResult(pairs, env, extracted, dirMembers, files, log).files == files
  {
    var f' := ArchiveResult(pairs, env, extracted, dirMembers, files, log).files;
    assert f' == ProcessPairs(pairs, env, Run(extracted, files, log, false)).files;
    RoutesFiles(pairs, env, Run(extracted, files, log, false));
    forall q ensures (q in f' <==> q in files) && (q in f' ==> f'[q] == files[q]) {
      assert !IsHome(pairs, env, extracted, q);
      assert SameAt(f', files, q);
    }
    assert f'.Keys == files.Keys;
  }

  // ---------------------------------------------------------------------------
  // The loops of `execute_unpack`

  /** The first step of `MoveEach`, for the loop that performs it one match at a time. */
  lemma MoveEachFirst(ms: seq<Entry>, folder: Path, dest: Path -> Path, folders: set<Path>, r: Run, dst: Path, r1: Run)
    requires ms != [] && dst == dest(ms[0].path)
    requires folder in folders ==>
      r1 == Run(RemovePath(r.scratch, ms[0].path), r.files[dst := ms[0].data], r.log + [Moved(ms[0].path, dst)], r.crashed)
    requires folder !in folders ==> r1 == r.(log := r.log + [FolderMissing(folder)])
    ensures MoveEach(ms, folder, dest, folders, r) == MoveEach(ms[1..], folder, dest, folders, r1)
  {
  }

  /**
   * The matches of one suffix, in traversal order (ares.py:243-252): each
   * goes into `folder` under the target name, or is reported as having no
   * folder to go to. A missing or empty `--name` stops the run at the first
   * match. `found` tells whether there was a match at all.
   */
  method MoveMatches(matches: seq<Entry>, folder: Path, name: Option<string>, folders: set<Path>, cur: Run)
    returns (next: Run, found: bool)
    requires !cur.crashed
    ensures found <==> matches != []
    ensures next.crashed <==> found && !UsableName(name)
    ensures next == if !found then cur
                    else if !UsableName(name) then cur.(crashed := true)
                    else MoveEach(matches, folder, DestinationIn(folder, name.value), folders, cur)
  {
    next := cur;
    found := false;
    var j := 0;
    while j < |matches|
      invariant 0 <= j <= |matches|
      invariant found == (j > 0)
      invariant j == 0 ==> next == cur
      invariant !next.crashed
      invariant j > 0 ==> UsableName(name)
      invariant j > 0 ==>
        MoveEach(matches[j..], folder, DestinationIn(folder, name.value), folders, next) ==
        MoveEach(matches, folder, DestinationIn(folder, name.value), folders, cur)
    {
      var m := matches[j];
      if !UsableName(name) {
        // pathlib rejects a missing or empty `--name` (ares.py:245): the program stops here
        next := cur.(crashed := true);
        found := true;
        return;
      }
      var dst := Destination(folder, name.value, m.path);
      assert dst == DestinationIn(folder, name.value)(m.path);
      found := true;
      ghost var prev := next;
      if folder in folders {
        next := Run(RemovePath(next.scratch, m.path), next.files[dst := m.data], next.log + [Moved(m.path, dst)], false);
      } else {
        next := next.(log := next.log + [FolderMissing(folder)]);
      }
      assert matches[j..][0] == m && matches[j..][1..] == matches[j + 1..];
      MoveEachFirst(matches[j..], folder, DestinationIn(folder, name.value), folders, prev, dst, next);
      j := j + 1;
    }
  }

  /**
   * One (suffix, tag) pair of an archive (ares.py:239-254): an unset suffix
   * is skipped; otherwise its matches are moved into `drawable-<tag>`, and a
   * suffix nothing matched is reported.
   */
  method UnpackPair(pr: (Option<string>, Density), env: Target, cur: Run) returns (next: Run)
    requires !cur.crashed
    ensures next == ProcessPair(pr, env, cur)
    ensures next.crashed ==> !UsableName(env.name)
  {
    next := cur;
    if pr.0.None? {
      return;
    }
    var s := pr.0.value;
    var folder := DrawableFolder(env.resdir, pr.1);
    var found;
    next, found := MoveMatches(MatchesOf(cur.scratch, s), folder, env.name, env.folders, cur);
    if !found {
      next := next.(log := next.log + [NoFiles(s)]);
    }
  }

  /**
   * One archive (ares.py:239-255): the pairs in field order, then the
   * removal of the scratch tree, which an exception skips and which raises
   * itself when the archive had no members.
   */
  method UnpackArchive(pairs: seq<(Option<string>, Density)>, env: Target, extracted: seq<Entry>, dirMembers: nat,
                       files: map<Path, Bytes>, log: seq<Event>) returns (r: Run)
    ensures r == ArchiveResult(pairs, env, extracted, dirMembers, files, log)
    ensures !r.crashed ==> r.scratch == []
    ensures r.crashed ==> r.files == files && r.scratch == extracted
    ensures r.crashed && !NoMembers(extracted, dirMembers) ==> !UsableName(env.name)
    ensures NoMembers(extracted, dirMembers) ==> r.crashed
    ensures UsableName(env.name) && DistinctPaths(extracted) ==>
      (r.crashed <==> NoMembers(extracted, dirMembers)) && forall e :: e in extracted ==>
        MovesOf(r.log, e.path) == MovesOf(log, e.path) + HomeList(pairs, env, e.path)
    ensures UsableName(env.name) && DistinctPaths(extracted) ==>
      forall q :: !IsHome(pairs, env, extracted, q) ==> SameAt(r.files, files, q)
    ensures UsableName(env.name) && DistinctPaths(extracted) ==>
      forall q :: IsHome(pairs, env, extracted, q) ==> HoldsHomed(pairs, env, extracted, r.files, q)
  {
    var cur := Run(extracted, files, log, false);
    ghost var init := cur;
    var i := 0;
    while i < |pairs|
      invariant 0 <= i <= |pairs|
      invariant !cur.crashed
      invariant ProcessPairs(pairs[i..], env, cur) == ProcessPairs(pairs, env, init)
    {
      assert pairs[i..][1..] == pairs[i + 1..];
      var next := UnpackPair(pairs[i], env, cur);
      if next.crashed {
        r := next;
        CrashLeavesScratch(pairs, env, extracted, dirMembers, files, log);
        return;
      }
      cur := next;
      i := i + 1;
    }
    if extracted == [] && dirMembers == 0 {
      r := cur.(crashed := true);
    } else {
      r := cur.(scratch := []);
    }
    CrashLeavesScratch(pairs, env, extracted, dirMembers, files, log);
    if UsableName(env.name) && DistinctPaths(extracted) {
      FirstTakerWins(pairs, env, extracted, dirMembers, files, log);
    }
  }

  // ---------------------------------------------------------------------------
  // The batch of archives

  /** With a usable `--name` no pair raises, so an archive is always finished. */
  lemma {:induction false} UsableNameNeverCrashes(prs: seq<(Option<string>, Density)>, env: Target, r: Run)
    requires UsableName(env.name) && !r.crashed
    ensures !ProcessPairs(prs, env, r).crashed
  {
    if prs != [] {
      var pr := prs[0];
      if pr.0.Some? && MatchesOf(r.scratch, pr.0.value) != [] {
        var folder := DrawableFolder(env.resdir, pr.1);
        var ms := MatchesOf(r.scratch, pr.0.value);
        if folder in env.folders {
          MoveEachLog(ms, folder, DestinationIn(folder, env.name.value), env.folders, r);
        } else {
          MoveEachMissing(ms, folder, DestinationIn(folder, env.name.value), env.folders, r);
        }
      }
      UsableNameNeverCrashes(prs[1..], env, ProcessPair(pr, env, r));
    }
  }

  /** The first `n` archives could all be opened, and each had members to extract. */
  ghost predicate ArchivesOk(archives: seq<Archive>, n: int)
  {
    0 <= n <= |archives| && forall k :: 0 <= k < n ==> Extracts(archives[k])
  }

  /** `ArchivesOk` of the whole batch, read from its first archive and the rest. */
  lemma ArchivesOkCons(archives: seq<Archive>, n: int)
    requires archives != [] && 0 <= n < |archives|
    ensures ArchivesOk(archives, n + 1) <==> Extracts(archives[0]) && ArchivesOk(archives[1..], n)
  {
    if Extracts(archives[0]) && ArchivesOk(archives[1..], n) {
      forall k | 0 <= k < n + 1 ensures Extracts(archives[k]) {
        if k > 0 { assert archives[k] == archives[1..][k - 1]; }
      }
    }
  }

  /**
   * A batch completes only when every archive could be opened and had
   * members, and always does so with a usable `--name`.
   */
  lemma {:induction false} BatchCompletes(archives: seq<Archive>, pairs: seq<(Option<string>, Density)>, profile: string, env: Target,
                                          files: map<Path, Bytes>, log: seq<Event>)
    ensures BatchResult(archives, pairs, profile, env, files, log).status.Completed? ==> ArchivesOk(archives, |archives|)
    ensures UsableName(env.name) && ArchivesOk(archives, |archives|) ==>
      BatchResult(archives, pairs, profile, env, files, log).status.Completed?
  {
    if archives != [] {
      var a := archives[0];
      var log1 := log + [Unzipping(a.path, profile)];
      ArchivesOkCons(archives, |archives| - 1);
      if a.contents.Some? {
        var r := ArchiveResult(pairs, env, a.contents.value, a.dirMembers, files, log1);
        CrashLeavesScratch(pairs, env, a.contents.value, a.dirMembers, files, log1);
        if !r.crashed {
          BatchCompletes(archives[1..], pairs, profile, env, r.files, r.log + [Unzipped(a.path, profile)]);
        }
      }
    }
  }

  /** A batch that meets an archive it cannot open stops there, after extracting all the ones before it. */
  lemma {:induction false} BatchStopsAtUnreadable(archives: seq<Archive>, pairs: seq<(Option<string>, Density)>, profile: string, env: Target,
                                                  files: map<Path, Bytes>, log: seq<Event>)
    ensures var b := BatchResult(archives, pairs, profile, env, files, log);
      b.status.Unreadable? ==>
        exists i :: ArchivesOk(archives, i) && i < |archives| && archives[i].contents.None? && b.status.archive == archives[i].path
  {
    if archives != [] {
      var a := archives[0];
      var log1 := log + [Unzipping(a.path, profile)];
      var b := BatchResult(archives, pairs, profile, env, files, log);
      if a.contents.None? {
        assert ArchivesOk(archives, 0);
      } else {
        var r := ArchiveResult(pairs, env, a.contents.value, a.dirMembers, files, log1);
        CrashLeavesScratch(pairs, env, a.contents.value, a.dirMembers, files, log1);
        if !r.crashed {
          var rest := archives[1..];
          BatchStopsAtUnreadable(rest, pairs, profile, env, r.files, r.log + [Unzipped(a.path, profile)]);
          if b.status.Unreadable? {
            var i :| ArchivesOk(rest, i) && i < |rest| && rest[i].contents.None? && b.status.archive == rest[i].path;
            ArchivesOkCons(archives, i);
            assert archives[i + 1] == rest[i];
          }
        }
      }
    }
  }

  /**
   * A batch that meets an archive without members stops there with the
   * exception of `rmtree`, after extracting all the ones before it.
   */
  lemma {:induction false} BatchStopsAtEmpty(archives: seq<Archive>, pairs: seq<(Option<string>, Density)>, profile: string, env: Target,
                                             files: map<Path, Bytes>, log: seq<Event>)
    ensures var b := BatchResult(archives, pairs, profile, env, files, log);
      b.status.ScratchMissing? ==>
        exists i :: ArchivesOk(archives, i) && i < |archives| && archives[i].contents == Some([])
          && archives[i].dirMembers == 0 && b.status.archive == archives[i].path
  {
    if archives != [] {
      var a := archives[0];
      var log1 := log + [Unzipping(a.path, profile)];
      var b := BatchResult(archives, pairs, profile, env, files, log);
      if a.contents.Some? {
        var r := ArchiveResult(pairs, env, a.contents.value, a.dirMembers, files, log1);
        CrashLeavesScratch(pairs, env, a.contents.value, a.dirMembers, files, log1);
        if r.crashed {
          assert ArchivesOk(archives, 0);
        } else {
          var rest := archives[1..];
          BatchStopsAtEmpty(rest, pairs, profile, env, r.files, r.log + [Unzipped(a.path, profile)]);
          if b.status.ScratchMissing? {
            var i :| ArchivesOk(rest, i) && i < |rest| && rest[i].contents == Some([])
              && rest[i].dirMembers == 0 && b.status.archive == rest[i].path;
            ArchivesOkCons(archives, i);
            assert archives[i + 1] == rest[i];
          }
        }
      }
    }
  }

  /**
   * An archive ends in an exception only when `--name` is not usable or the
   * archive has no members (and always in the latter case); either way the
   * resource tree is untouched and the extracted tree is left as it was.
   */
  lemma CrashLeavesScratch(pairs: seq<(Option<string>, Density)>, env: Target, extracted: seq<Entry>, dirMembers: nat,
                           files: map<Path, Bytes>, log: seq<Event>)
    ensures var r := ArchiveResult(pairs, env, extracted, dirMembers, files, log);
      && (r.crashed ==> r.scratch == extracted && r.files == files)
      && (r.crashed && !NoMembers(extracted, dirMembers) ==> !UsableName(env.name))
      && (NoMembers(extracted, dirMembers) ==> r.crashed)
  {
    if extracted == [] {
      EmptyTreeMovesNothing(pairs, env, Run(extracted, files, log, false));
    } else if UsableName(env.name) {
      UsableNameNeverCrashes(pairs, env, Run(extracted, files, log, false));
    } else {
      UnusableNameMovesNothing(pairs, env, Run(extracted, files, log, false));
    }
  }

  /**
   * A `--name` error ends the batch at an archive with a match, after
   * extracting it and all the ones before it, and leaves that archive's whole
   * extracted tree behind in its scratch directory.
   */
  lemma {:induction false} BatchNameError(archives: seq<Archive>, pairs: seq<(Option<string>, Density)>, profile: string, env: Target,
                                          files: map<Path, Bytes>, log: seq<Event>)
    ensures var b := BatchResult(archives, pairs, profile, env, files, log);
      b.status.NameError? ==>
        && !UsableName(env.name)
        && exists i :: ArchivesOk(archives, i + 1) && 0 <= i && b.status.archive == archives[i].path
             && b.status.scratchDir == ScratchDir(archives[i].path)
             && b.status.leftover == archives[i].contents.value
  {
    if archives != [] {
      var a := archives[0];
      var log1 := log + [Unzipping(a.path, profile)];
      var b := BatchResult(archives, pairs, profile, env, files, log);
      if a.contents.Some? {
        var r := ArchiveResult(pairs, env, a.contents.value, a.dirMembers, files, log1);
        CrashLeavesScratch(pairs, env, a.contents.value, a.dirMembers, files, log1);
        if r.crashed {
          if !NoMembers(a.contents.value, a.dirMembers) {
            assert b == Batch(r.files, r.log, NameError(a.path, ScratchDir(a.path), r.scratch));
            assert ArchivesOk(archives, 1);
          }
        } else {
          var rest := archives[1..];
          var log2 := r.log + [Unzipped(a.path, profile)];
          assert b == BatchResult(rest, pairs, profile, env, r.files, log2);
          BatchNameError(rest, pairs, profile, env, r.files, log2);
          if b.status.NameError? {
            var i :| ArchivesOk(rest, i + 1) && 0 <= i && b.status.archive == rest[i].path
              && b.status.scratchDir == ScratchDir(rest[i].path) && b.status.leftover == rest[i].contents.value;
            ArchivesOkCons(archives, i + 1);
            assert archives[i + 1] == rest[i];
            assert ArchivesOk(archives, i + 2) && b.status.archive == archives[i + 1].path;
          }
        }
      }
    }
  }

  /**
   * The command's loop over the archives (ares.py:229-256), from the
   * active profile's (suffix, tag) pairs and resource directory on.
   */
  method UnpackBatch(archives: seq<Archive>, profile: Profile, name: Option<string>, folders: set<Path>,
                     files: map<Path, Bytes>) returns (b: Batch)
    ensures b == BatchResult(archives, SuffixesToFolders(profile), profile.name, Target(profile.resdir, folders, name), files, [])
    ensures b.status.Completed? ==> ArchivesOk(archives, |archives|)
    ensures UsableName(name) && ArchivesOk(archives, |archives|) ==> b.status.Completed?
    ensures b.status.Unreadable? ==>
      exists i :: ArchivesOk(archives, i) && i < |archives| && archives[i].contents.None? && b.status.archive == archives[i].path
    ensures b.status.ScratchMissing? ==>
      exists i :: ArchivesOk(archives, i) && i < |archives| && archives[i].contents == Some([])
        && archives[i].dirMembers == 0 && b.status.archive == archives[i].path
  {
    var pairs := SuffixesToFolders(profile);
    var env := Target(profile.resdir, folders, name);
    BatchCompletes(archives, pairs, profile.name, env, files, []);
    BatchStopsAtUnreadable(archives, pairs, profile.name, env, files, []);
    BatchStopsAtEmpty(archives, pairs, profile.name, env, files, []);
    var curFiles, curLog := files, [];
    var k := 0;
    while k < |archives|
      invariant 0 <= k <= |archives|
      invariant BatchResult(archives[k..], pairs, profile.name, env, curFiles, curLog) ==
        BatchResult(archives, pairs, profile.name, env, files, [])
    {
      var a := archives[k];
      assert archives[k..][0] == a && archives[k..][1..] == archives[k + 1..];
      curLog := curLog + [Unzipping(a.path, profile.name)];
      if a.contents.None? {
        b := Batch(curFiles, curLog, Unreadable(a.path));
        return;
      }
      var r := UnpackArchive(pairs, env, a.contents.value, a.dirMembers, curFiles, curLog);
      if r.crashed {
        if a.contents.value == [] && a.dirMembers == 0 {
          b := Batch(r.files, r.log, ScratchMissing(a.path));
        } else {
          b := Batch(r.files, r.log, NameError(a.path, ScratchDir(a.path), r.scratch));
        }
        return;
      }
      curFiles, curLog := r.files, r.log + [Unzipped(a.path, profile.name)];
      k := k + 1;
    }
    b := Batch(curFiles, curLog, Completed);
  }

  /** The file of the example below: its name matches `*hdpi.*` ... */
  lemma ExampleMatches()
    ensures NameMatches("icon_xhdpi.png", "hdpi")
  {
    assert "icon_xhdpi.png"[6..10] == "hdpi";
    assert SuffixBeforeDot("icon_xhdpi.png", "hdpi", 6);
    NameMatchesGlob("icon_xhdpi.png", "hdpi");
  }

  /** ... and has the extension `.png` ... */
  lemma ExampleExtension()
    ensures Extension("icon_xhdpi.png") == ".png"
  {
    ExtensionIsPathlibSuffix("icon_xhdpi");
    assert "icon_xhdpi"[1..] == "con_xhdpi";
    assert ".png"[1..] == "png";
    ExtensionOfAppended("icon_xhdpi", ".png");
    assert "icon_xhdpi" + ".png" == "icon_xhdpi.png";
  }

  /** ... which a `--name` of `icon`, having none, inherits. */
  lemma ExampleTargetName()
    ensures TargetName("icon", "icon_xhdpi.png") == "icon.png"
  {
    ExtensionIsPathlibSuffix("icon");
    assert "icon"[1..] == "con";
    ExampleExtension();
  }

  /**
   * With both the hdpi and the xhdpi suffix set, `icon_xhdpi.png` is taken
   * by the hdpi pattern `*hdpi.*`, which comes first in field order, whatever
   * other folders exist; under `--name icon` it keeps its `.png` extension.
   */
  lemma HdpiComesBeforeXhdpi(resdir: Path, scratch: Path, folders: set<Path>)
    requires DrawableFolder(resdir, Hdpi) in folders
    ensures var sfx := Suffixes(None, None, Some("hdpi"), Some("xhdpi"), None, None, None, None);
      var env := Target(resdir, folders, Some("icon"));
      HomeList(SuffixesToFolders(Profile("p", resdir, sfx)), env, Join(scratch, "icon_xhdpi.png")) ==
        [Join(DrawableFolder(resdir, Hdpi), "icon.png")]
  {
    var sfx := Suffixes(None, None, Some("hdpi"), Some("xhdpi"), None, None, None, None);
    var env := Target(resdir, folders, Some("icon"));
    var prs := SuffixesToFolders(Profile("p", resdir, sfx));
    var p := Join(scratch, "icon_xhdpi.png");
    JoinSpec(scratch, "icon_xhdpi.png");
    ExampleMatches();
    ExampleTargetName();
    assert BaseName(p) == "icon_xhdpi.png";
    assert prs[2] == (Some("hdpi"), Hdpi);
    assert Takes(prs[2], env, p);
    assert DestinationFor(prs[2], env, p) == Join(DrawableFolder(resdir, Hdpi), "icon.png");
    assert Home(prs[2..], env, p) == Some(DestinationFor(prs[2], env, p));
    assert Home(prs, env, p) == Home(prs[1..], env, p) == Home(prs[2..], env, p);
  }
}
