/** What the sync controller of src/Dbase/Data.php does to the data
    directory, as functions of the directory listing: the download step,
    the unpack step, the cleaning of the directory and the update procedure
    that combines them. */
module DbaseSync {
  import opened Wrappers
  import opened Seqs
  import opened DbaseNames

  /** What an entry of the data directory is, as far as the controller can
      tell: a file, or a directory that `rmdir` can or cannot remove. */
  datatype Kind = RegularFile | EmptyDirectory | NonEmptyDirectory

  /** One entry of the directory listing, without the `.` and `..` entries. */
  datatype DirEntry = DirEntry(name: Bytes, kind: Kind)

  type Directory = seq<DirEntry>

  function EntryName(e: DirEntry): Bytes
  {
    e.name
  }

  /** A listing in which no name occurs twice. */
  ghost predicate DistinctNames(dir: Directory)
  {
    DistinctBy(dir, EntryName)
  }

  /** A regular file named `name`. */
  function File(name: Bytes): DirEntry
  {
    DirEntry(name, RegularFile)
  }

  /** Creating (or truncating) the file `name`: an entry of that name is
      replaced in place by the file, otherwise the file is added at the end. */
  function PutFile(dir: Directory, name: Bytes): (r: Directory)
    ensures File(name) in r
    ensures forall e :: e in r ==> e == File(name) || e in dir
    ensures forall e :: e in dir && e.name != name ==> e in r
    decreases |dir|
  {
    if dir == [] then [File(name)]
    else if dir[0].name == name then [File(name)] + dir[1..]
    else [dir[0]] + PutFile(dir[1..], name)
  }

  /** In a listing with distinct names, the new file is the only entry of its
      name and the names stay distinct. */
  lemma {:induction false} PutFileDistinct(dir: Directory, name: Bytes)
    requires DistinctNames(dir)
    ensures DistinctNames(PutFile(dir, name))
    ensures forall e :: e in PutFile(dir, name) && e.name == name ==> e == File(name)
    decreases |dir|
  {
    if dir != [] {
      var rest := dir[1..];
      assert DistinctNames(rest) by {
        forall i, j | 0 <= i < j < |rest| ensures EntryName(rest[i]) != EntryName(rest[j]) {
          assert rest[i] == dir[i + 1] && rest[j] == dir[j + 1];
        }
      }
      assert forall e :: e in rest ==> e.name != dir[0].name by {
        forall e | e in rest ensures e.name != dir[0].name {
          var k :| 0 <= k < |rest| && rest[k] == e;
          assert dir[k + 1] == e;
          assert EntryName(dir[0]) != EntryName(dir[k + 1]);
        }
      }
      var r := PutFile(dir, name);
      if dir[0].name == name {
        DistinctAfterHead(File(name), rest);
      } else {
        PutFileDistinct(rest, name);
        DistinctAfterHead(dir[0], PutFile(rest, name));
      }
    }
  }

  /** An entry put in front of a listing with distinct names none of which is its own. */
  lemma DistinctAfterHead(head: DirEntry, rest: Directory)
    requires DistinctNames(rest)
    requires forall e :: e in rest ==> e.name != head.name
    ensures DistinctNames([head] + rest)
  {
    var s := [head] + rest;
    forall i, j | 0 <= i < j < |s| ensures EntryName(s[i]) != EntryName(s[j]) {
      assert s[j] == rest[j - 1];
      if i > 0 {
        assert s[i] == rest[i - 1];
      } else {
        assert rest[j - 1] in rest;
      }
    }
  }

  /** Extracting the entries of an archive: each one written as a file, in order. */
  function PutFiles(dir: Directory, names: seq<Bytes>): (r: Directory)
    ensures forall n :: n in names ==> File(n) in r
    ensures forall e :: e in dir && e.name !in names ==> e in r
    ensures forall e :: e in r ==> e in dir || (e.kind == RegularFile && e.name in names)
    decreases |names|
  {
    if names == [] then dir
    else
      var last := names[|names| - 1];
      var before := PutFiles(dir, names[..|names| - 1]);
      assert forall n :: n in names ==> n in names[..|names| - 1] || n == last;
      PutFile(before, last)
  }

  lemma {:induction false} PutFilesDistinct(dir: Directory, names: seq<Bytes>)
    requires DistinctNames(dir)
    ensures DistinctNames(PutFiles(dir, names))
    decreases |names|
  {
    if names != [] {
      PutFilesDistinct(dir, names[..|names| - 1]);
      PutFileDistinct(PutFiles(dir, names[..|names| - 1]), names[|names| - 1]);
    }
  }

  /** What the environment decides about the steps the model does not look into:
      whether the local file can be opened for writing, the remote address read,
      the cURL and RAR extensions are loaded, the transfer succeeds, and which
      names the archive extracts to (nothing when its entries cannot be read). */
  datatype Environment = Environment(
    localWritable: bool, remoteReadable: bool, curlLoaded: bool,
    transferOk: bool, rarLoaded: bool, archive: Option<seq<Bytes>>)

  /** An environment in which every step succeeds. */
  predicate Healthy(env: Environment)
  {
    env.localWritable && env.remoteReadable && env.curlLoaded && env.transferOk && env.rarLoaded && env.archive.Some?
  }

  /** The exceptions the controller raises. */
  datatype SyncError =
    | SoapMissing         // LogicException: no SOAP extension
    | NoCatalogInfo       // Exception: the catalog gave no information
    | LocalNotWritable    // ErrorException: the local file cannot be written
    | RemoteNotReadable   // ErrorException: the remote file cannot be read
    | CurlMissing         // LogicException: no cURL extension
    | TransferFailed      // ErrorException: the archive could not be copied
    | RarMissing          // LogicException: no RarArchive extension
    | ArchiveUnreadable   // RuntimeException: the archive could not be opened

  /** A PHP call either returns a boolean or raises. */
  datatype Outcome = Returned(value: bool) | Raised(error: SyncError)

  /** The directory after a step, and what the step returned or raised. */
  datatype Step = Step(dir: Directory, outcome: Outcome)

  /** `downloadArchive`: the file `fias_<version>.rar` is opened for writing
      (which creates it) before the remote address is opened, the cURL
      extension checked and the transfer made; each failure raises. */
  function Download(dir: Directory, version: int, env: Environment): (r: Step)
    ensures r.outcome == Returned(true) || r.outcome.Raised?
    ensures r.dir == dir || r.dir == PutFile(dir, ArchiveName(version))
    ensures r.outcome == Returned(true) <==> env.localWritable && env.remoteReadable && env.curlLoaded && env.transferOk
    ensures r.outcome == Returned(true) ==> r.dir == PutFile(dir, ArchiveName(version))
  {
    if !env.localWritable then Step(dir, Raised(LocalNotWritable))
    else
      var created := PutFile(dir, ArchiveName(version));
      if !env.remoteReadable then Step(created, Raised(RemoteNotReadable))
      else if !env.curlLoaded then Step(created, Raised(CurlMissing))
      else if !env.transferOk then Step(created, Raised(TransferFailed))
      else Step(created, Returned(true))
  }

  /** The entry `unpackArchive` picks: a file with the extension "rar" whose name is `name`. */
  predicate Selectable(e: DirEntry, name: Bytes)
  {
    e.kind == RegularFile && Extension(e.name) == RarExtension && e.name == name
  }

  /** The listing holds the archive `unpackArchive` looks for. */
  predicate ArchiveSelected(dir: Directory, name: Bytes)
  {
    exists e :: e in dir && Selectable(e, name)
  }

  lemma ArchiveSelectedAppend(dir: Directory, e: DirEntry, name: Bytes)
    ensures ArchiveSelected(dir + [e], name) <==> ArchiveSelected(dir, name) || Selectable(e, name)
  {
    if ArchiveSelected(dir, name) {
      var x :| x in dir && Selectable(x, name);
      assert x in dir + [e];
    }
    assert e in dir + [e];
  }

  /** For an archive name the extension test is implied by the name test. */
  lemma ArchiveSelectedIff(dir: Directory, version: int)
    ensures ArchiveSelected(dir, ArchiveName(version)) <==> File(ArchiveName(version)) in dir
  {
    ArchiveNameIsRar(version);
    if File(ArchiveName(version)) in dir {
      assert Selectable(File(ArchiveName(version)), ArchiveName(version));
    }
  }

  /** `unpackArchive`: raises without the RAR extension; returns false when
      the listing has no `fias_<version>.rar` file; otherwise extracts the
      archive's entries into the directory, or raises when they cannot be read. */
  function Unpack(dir: Directory, version: int, env: Environment): (r: Step)
    ensures r.dir != dir ==> ArchiveSelected(dir, ArchiveName(version)) && r.outcome == Returned(true)
    ensures r.outcome == Returned(false) <==> env.rarLoaded && !ArchiveSelected(dir, ArchiveName(version))
    ensures r.outcome == Returned(true) <==> env.rarLoaded && ArchiveSelected(dir, ArchiveName(version)) && env.archive.Some?
    ensures r.outcome == Returned(true) ==> r.dir == PutFiles(dir, env.archive.value)
  {
    if !env.rarLoaded then Step(dir, Raised(RarMissing))
    else if !ArchiveSelected(dir, ArchiveName(version)) then Step(dir, Returned(false))
    else
      match env.archive
      case None => Step(dir, Raised(ArchiveUnreadable))
      case Some(names) =>
        Step(PutFiles(dir, names), Returned(true))
  }

  /** `!downloadArchive() ?: unpackArchive()`: unpack only after a download returned true. */
  function Refresh(dir: Directory, version: int, env: Environment): (r: Step)
    ensures r.outcome != Returned(false)
    ensures r.outcome == Returned(true) <==> Healthy(env)
    ensures r.outcome == Returned(true) ==> r.dir == PutFiles(PutFile(dir, ArchiveName(version)), env.archive.value)
  {
    ArchiveSelectedIff(PutFile(dir, ArchiveName(version)), version);
    var d := Download(dir, version, env);
    if d.outcome == Returned(true) then Unpack(d.dir, version, env) else d
  }

  /** A step whose value is discarded: a step that returned counts as done. */
  function Settled(s: Step): (r: Step)
    ensures r.outcome == Returned(true) || r.outcome.Raised?
    ensures r.dir == s.dir
    ensures r.outcome.Raised? <==> s.outcome.Raised?
  {
    if s.outcome.Raised? then s else Step(s.dir, Returned(true))
  }

  /** Downloading the current archive into a healthy environment makes the
      unpack step find it and extract the archive: the download writes the same
      name that the unpack step looks for. */
  lemma RefreshHealthy(dir: Directory, version: int, env: Environment)
    requires Healthy(env)
    ensures Refresh(dir, version, env) == Step(PutFiles(PutFile(dir, ArchiveName(version)), env.archive.value), Returned(true))
  {
    var name := ArchiveName(version);
    var created := PutFile(dir, name);
    ArchiveSelectedIff(created, version);
    var r := Unpack(created, version, env);
    assert r.outcome == Returned(true);
  }

  /** What `cleanDirectory` leaves: directories `rmdir` cannot remove, and
      the file `keep`. */
  predicate Survives(e: DirEntry, keep: Bytes)
  {
    e.kind == NonEmptyDirectory || e == File(keep)
  }

  /** `cleanDirectory`: every file but `keep` is unlinked and every directory
      is given to `rmdir`, which removes only the empty ones. */
  function Clean(dir: Directory, keep: Bytes): Directory
  {
    Filter(dir, (e: DirEntry) => Survives(e, keep))
  }

  /** Cleaning a listing with one more entry at the end. */
  lemma CleanSnoc(dir: Directory, e: DirEntry, keep: Bytes)
    ensures Clean(dir + [e], keep) == Clean(dir, keep) + if Survives(e, keep) then [e] else []
  {
    FilterSnoc(dir, e, (e: DirEntry) => Survives(e, keep));
  }

  /** After cleaning, the directory holds exactly the entries it held that are
      non-empty directories or the file `keep`; in particular no other file
      and no empty directory is left, and `keep` stays when it was there. */
  lemma CleanLeaves(dir: Directory, keep: Bytes)
    ensures forall e :: e in Clean(dir, keep) <==> e in dir && Survives(e, keep)
    ensures forall e :: e in Clean(dir, keep) && e.kind == RegularFile ==> e.name == keep
    ensures forall e :: e in Clean(dir, keep) ==> e.kind != EmptyDirectory
    ensures File(keep) in dir ==> File(keep) in Clean(dir, keep)
  {
  }

  lemma CleanDistinct(dir: Directory, keep: Bytes)
    requires DistinctNames(dir)
    ensures DistinctNames(Clean(dir, keep))
  {
    FilterDistinct(dir, (e: DirEntry) => Survives(e, keep), EntryName);
  }

  /** Cleaning twice is cleaning once. */
  lemma CleanIdempotent(dir: Directory, keep: Bytes)
    ensures Clean(Clean(dir, keep), keep) == Clean(dir, keep)
  {
    FilterAll(Clean(dir, keep), (e: DirEntry) => Survives(e, keep));
  }

  /** Removing the entry `name` from the listing. */
  function Unlink(dir: Directory, name: Bytes): Directory
  {
    Filter(dir, (e: DirEntry) => e.name != name)
  }

  /** Unlinking the only entry of its name removes just that entry. */
  lemma UnlinkOnly(pre: Directory, e: DirEntry, post: Directory)
    requires forall x :: x in pre ==> x.name != e.name
    requires forall x :: x in post ==> x.name != e.name
    ensures Unlink(pre + [e] + post, e.name) == pre + post
  {
    var n := e.name;
    assert Unlink(pre + [e] + post, n) == Filter(pre + [e] + post, (x: DirEntry) => x.name != n);
    FilterOnly(pre, e, post, (x: DirEntry) => x.name != n);
  }

  /** PHP's `glob('*.rar')` finds something in the listing. */
  predicate HasRarGlob(dir: Directory)
  {
    exists e :: e in dir && MatchesRarGlob(e.name)
  }

  /** An entry of the listing that makes `update` clean and download: its
      extension is "rar" and the version in its name is older. */
  predicate Triggers(e: DirEntry, version: int)
  {
    Extension(e.name) == RarExtension && IsLocalOlder(e.name, version)
  }

  /** The body of the loop of `update` for one entry, once it is known
      whether the entry triggers. */
  function Visit(dir: Directory, triggers: bool, version: int, env: Environment): (r: Step)
    ensures r.outcome == Returned(true) || r.outcome.Raised?
    ensures !triggers ==> r == Step(dir, Returned(true))
  {
    if triggers then Settled(Refresh(Clean(dir, ArchiveName(version)), version, env))
    else Step(dir, Returned(true))
  }

  /** The body of the loop of `update` for one entry of the listing. */
  function UpdateEntry(dir: Directory, e: DirEntry, version: int, env: Environment): (r: Step)
    ensures r.outcome == Returned(true) || r.outcome.Raised?
  {
    Visit(dir, Triggers(e, version), version, env)
  }

  /** The loop of `update` over the listing taken when it starts; an exception ends it. */
  function UpdateLoop(dir: Directory, listing: seq<DirEntry>, version: int, env: Environment): (r: Step)
    ensures r.outcome == Returned(true) || r.outcome.Raised?
    decreases |listing|
  {
    if listing == [] then Step(dir, Returned(true))
    else
      var s := UpdateEntry(dir, listing[0], version, env);
      if s.outcome.Raised? then s else UpdateLoop(s.dir, listing[1..], version, env)
  }

  /** `update`: with no `*.rar` in the directory, download and unpack;
      otherwise clean, download and unpack for every older archive. It
      returns true whenever it does not raise. */
  function Update(dir: Directory, version: int, env: Environment): (r: Step)
    ensures r.outcome == Returned(true) || r.outcome.Raised?
  {
    if !HasRarGlob(dir) then Settled(Refresh(dir, version, env))
    else UpdateLoop(dir, dir, version, env)
  }

  /** Some entry of the listing is an older archive. */
  predicate AnyTriggers(listing: seq<DirEntry>, version: int)
  {
    exists e :: e in listing && Triggers(e, version)
  }

  /** Which entries of the listing trigger. */
  function Marks(listing: seq<DirEntry>, version: int): (m: seq<bool>)
    ensures |m| == |listing|
    decreases |listing|
  {
    if listing == [] then [] else [Triggers(listing[0], version)] + Marks(listing[1..], version)
  }

  lemma {:induction false} MarkAt(listing: seq<DirEntry>, version: int, i: nat)
    requires i < |listing|
    ensures Marks(listing, version)[i] == Triggers(listing[i], version)
    decreases i
  {
    if i > 0 {
      MarkAt(listing[1..], version, i - 1);
    }
  }

  /** Some entry up to position i is marked exactly when one before i is or
      the one at i is. */
  lemma MarkedPrefix(marks: seq<bool>, i: nat)
    requires i < |marks|
    ensures (true in marks[..i + 1]) == ((true in marks[..i]) || marks[i])
    ensures marks[i] ==> true in marks
  {
    assert marks[..i + 1] == marks[..i] + [marks[i]];
  }

  /** The loop of `update` over the marks of the listing. */
  function UpdateRun(dir: Directory, marks: seq<bool>, version: int, env: Environment): Step
    decreases |marks|
  {
    if marks == [] then Step(dir, Returned(true))
    else
      var s := Visit(dir, marks[0], version, env);
      if s.outcome.Raised? then s else UpdateRun(s.dir, marks[1..], version, env)
  }

  lemma {:induction false} UpdateRunOfLoop(dir: Directory, listing: seq<DirEntry>, version: int, env: Environment)
    ensures UpdateLoop(dir, listing, version, env) == UpdateRun(dir, Marks(listing, version), version, env)
    ensures AnyTriggers(listing, version) <==> true in Marks(listing, version)
    decreases |listing|
  {
    var m := Marks(listing, version);
    if listing != [] {
      var s := UpdateEntry(dir, listing[0], version, env);
      assert m[0] == Triggers(listing[0], version) && m[1..] == Marks(listing[1..], version);
      UpdateRunOfLoop(s.dir, listing[1..], version, env);
      assert forall e :: e in listing ==> e == listing[0] || e in listing[1..];
      assert true in m <==> m[0] || true in m[1..];
    }
  }

  /** One turn of the loop over marks, at position i. */
  lemma UpdateRunAt(dir: Directory, marks: seq<bool>, i: nat, s: Step, version: int, env: Environment)
    requires i < |marks|
    requires s == Visit(dir, marks[i], version, env)
    ensures s.outcome.Raised? ==> UpdateRun(dir, marks[i..], version, env) == s
    ensures !s.outcome.Raised? ==> UpdateRun(dir, marks[i..], version, env) == UpdateRun(s.dir, marks[i + 1..], version, env)
  {
    assert marks[i..][0] == marks[i] && marks[i..][1..] == marks[i + 1..];
  }

  /** Whether `update` reaches a download (and so sets the archive address). */
  predicate DownloadAttempted(dir: Directory, version: int)
  {
    !HasRarGlob(dir) || AnyTriggers(dir, version)
  }

  /** A loop over entries none of which is an older archive changes nothing. */
  lemma {:induction false} UpdateLoopIdle(dir: Directory, listing: seq<DirEntry>, version: int, env: Environment)
    requires forall e :: e in listing ==> !Triggers(e, version)
    ensures UpdateLoop(dir, listing, version, env) == Step(dir, Returned(true))
    decreases |listing|
  {
    if listing != [] {
      assert listing[0] in listing;
      assert forall e :: e in listing[1..] ==> e in listing;
      UpdateLoopIdle(dir, listing[1..], version, env);
    }
  }

  /** With archives in the directory none of which is older than the current
      version, `update` leaves the directory as it is and returns true. */
  lemma UpdateCurrent(dir: Directory, version: int, env: Environment)
    requires HasRarGlob(dir)
    requires forall e :: e in dir && Extension(e.name) == RarExtension ==> !IsLocalOlder(e.name, version)
    ensures Update(dir, version, env) == Step(dir, Returned(true))
  {
    UpdateLoopIdle(dir, dir, version, env);
  }

  /** A directory holding only the current archive is left alone by `update`. */
  lemma UpdateUpToDate(version: int, env: Environment)
    ensures Update([File(ArchiveName(version))], version, env) == Step([File(ArchiveName(version))], Returned(true))
  {
    ArchiveNameIsRar(version);
    ArchiveOlderIff(version, version);
    UpdateSingleIdle(ArchiveName(version), version, env);
  }

  lemma UpdateSingleIdle(name: Bytes, version: int, env: Environment)
    requires MatchesRarGlob(name) && !Triggers(File(name), version)
    ensures Update([File(name)], version, env) == Step([File(name)], Returned(true))
  {
    assert File(name) in [File(name)];
    UpdateLoopIdle([File(name)], [File(name)], version, env);
  }

  /** A directory without any `*.rar`, in a healthy environment: `update`
      downloads the current archive and extracts it. The archive is then the
      only entry of its name, every entry the extraction does not overwrite
      stays, and distinct names stay distinct. */
  lemma UpdateFresh(dir: Directory, version: int, env: Environment)
    requires !HasRarGlob(dir) && Healthy(env)
    ensures Update(dir, version, env) == Step(PutFiles(PutFile(dir, ArchiveName(version)), env.archive.value), Returned(true))
    ensures File(ArchiveName(version)) in Update(dir, version, env).dir
    ensures forall e :: e in Update(dir, version, env).dir && e.name == ArchiveName(version) ==> e == File(ArchiveName(version))
    ensures forall e :: e in dir && e.name !in env.archive.value ==> e in Update(dir, version, env).dir
    ensures DistinctNames(dir) ==> DistinctNames(Update(dir, version, env).dir)
  {
    var name := ArchiveName(version);
    RefreshHealthy(dir, version, env);
    ArchiveNameIsRar(version);
    var created := PutFile(dir, name);
    var r := PutFiles(created, env.archive.value);
    assert forall e :: e in dir ==> e.name != name;
    if name !in env.archive.value {
      assert File(name) in r;
    }
    if DistinctNames(dir) {
      PutFileDistinct(dir, name);
      PutFilesDistinct(created, env.archive.value);
    }
  }

  /** One archive older than the current version, in a healthy environment:
      the stale archive is removed, and the current archive is downloaded and
      extracted. */
  lemma UpdateStale(archived: int, version: int, env: Environment)
    requires archived < version && Healthy(env)
    ensures Update([File(ArchiveName(archived))], version, env)
         == Step(PutFiles([File(ArchiveName(version))], env.archive.value), Returned(true))
  {
    ArchiveNameIsRar(archived);
    ArchiveOlderIff(archived, version);
    VersionRoundTrip(archived);
    VersionRoundTrip(version);
    UpdateSingleStale(ArchiveName(archived), version, env);
  }

  /** Some older archive in a directory with archives, in a healthy
      environment, for any listing: `update` returns true; the directory
      then holds the current archive, and every entry is that archive, a
      file extracted from it, or a non-empty directory that was there
      before. Every other file, every empty directory and every other
      archive is gone. */
  lemma UpdateStaleAny(dir: Directory, version: int, env: Environment)
    requires HasRarGlob(dir) && AnyTriggers(dir, version) && Healthy(env)
    ensures Update(dir, version, env).outcome == Returned(true)
    ensures File(ArchiveName(version)) in Update(dir, version, env).dir
    ensures forall e :: e in Update(dir, version, env).dir ==>
      e == File(ArchiveName(version)) || (e.kind == RegularFile && e.name in env.archive.value) ||
      (e in dir && e.kind == NonEmptyDirectory)
  {
    LoopReachesRefresh(dir, dir, dir, version, env);
  }

  /** The directory after a refresh in the loop of `update`: the current
      archive is there, and every entry is that archive, an extracted file,
      or a non-empty directory of the listing `start` the loop began with. */
  predicate RefreshedFrom(d: Directory, start: Directory, version: int, names: seq<Bytes>)
  {
    File(ArchiveName(version)) in d &&
    forall e :: e in d ==>
      e == File(ArchiveName(version)) || (e.kind == RegularFile && e.name in names) ||
      (e in start && e.kind == NonEmptyDirectory)
  }

  /** A visit that triggers, in a healthy environment, cleans, downloads and
      unpacks, and so leaves a refreshed directory. */
  lemma VisitRefreshes(d: Directory, start: Directory, version: int, env: Environment)
    requires Healthy(env)
    requires forall e :: e in d && e.kind == NonEmptyDirectory ==> e in start
    ensures Visit(d, true, version, env).outcome == Returned(true)
    ensures RefreshedFrom(Visit(d, true, version, env).dir, start, version, env.archive.value)
  {
    var name := ArchiveName(version);
    var cleaned := Clean(d, name);
    CleanLeaves(d, name);
    RefreshHealthy(cleaned, version, env);
    var created := PutFile(cleaned, name);
    var r := PutFiles(created, env.archive.value);
    if name !in env.archive.value {
      assert File(name) in r;
    }
  }

  /** Once the directory is refreshed, the rest of the loop keeps it refreshed
      and returns true. */
  lemma {:induction false} LoopAfterRefresh(d: Directory, listing: seq<DirEntry>, start: Directory, version: int, env: Environment)
    requires Healthy(env) && RefreshedFrom(d, start, version, env.archive.value)
    ensures UpdateLoop(d, listing, version, env).outcome == Returned(true)
    ensures RefreshedFrom(UpdateLoop(d, listing, version, env).dir, start, version, env.archive.value)
    decreases |listing|
  {
    if listing != [] {
      var s := UpdateEntry(d, listing[0], version, env);
      RefreshedVisit(d, Triggers(listing[0], version), start, version, env);
      UpdateLoopCons(d, listing, version, env, s);
      LoopAfterRefresh(s.dir, listing[1..], start, version, env);
    }
  }

  /** One visit of the loop on a refreshed directory returns true and leaves
      the directory refreshed. */
  lemma RefreshedVisit(d: Directory, triggers: bool, start: Directory, version: int, env: Environment)
    requires Healthy(env) && RefreshedFrom(d, start, version, env.archive.value)
    ensures Visit(d, triggers, version, env).outcome == Returned(true)
    ensures RefreshedFrom(Visit(d, triggers, version, env).dir, start, version, env.archive.value)
  {
    if triggers {
      VisitRefreshes(d, start, version, env);
    }
  }

  /** The loop after a first entry whose visit returned. */
  lemma UpdateLoopCons(d: Directory, listing: seq<DirEntry>, version: int, env: Environment, s: Step)
    requires listing != [] && s == UpdateEntry(d, listing[0], version, env) && !s.outcome.Raised?
    ensures UpdateLoop(d, listing, version, env) == UpdateLoop(s.dir, listing[1..], version, env)
  {
  }

  /** A loop over a listing with an older archive, on a directory whose
      entries all come from `start`, reaches a refresh and ends refreshed. */
  lemma {:induction false} LoopReachesRefresh(d: Directory, listing: seq<DirEntry>, start: Directory, version: int, env: Environment)
    requires Healthy(env) && AnyTriggers(listing, version)
    requires forall e :: e in d ==> e in start
    ensures UpdateLoop(d, listing, version, env).outcome == Returned(true)
    ensures RefreshedFrom(UpdateLoop(d, listing, version, env).dir, start, version, env.archive.value)
    decreases |listing|
  {
    var x :| x in listing && Triggers(x, version);
    var s := UpdateEntry(d, listing[0], version, env);
    if Triggers(listing[0], version) {
      VisitRefreshes(d, start, version, env);
      UpdateLoopCons(d, listing, version, env, s);
      LoopAfterRefresh(s.dir, listing[1..], start, version, env);
    } else {
      assert s == Step(d, Returned(true));
      UpdateLoopCons(d, listing, version, env, s);
      assert x in listing[1..];
      LoopReachesRefresh(d, listing[1..], start, version, env);
    }
  }

  lemma UpdateSingleStale(stale: Bytes, version: int, env: Environment)
    requires MatchesRarGlob(stale) && Triggers(File(stale), version) && stale != ArchiveName(version)
    requires Healthy(env)
    ensures Update([File(stale)], version, env) == Step(PutFiles([File(ArchiveName(version))], env.archive.value), Returned(true))
  {
    var e := File(stale);
    assert HasRarGlob([e]) by {
      assert e in [e];
    }
    StaleEntry(stale, version, env);
    UpdateLoopSingle([e], e, version, env);
  }

  /** The loop over a one-entry listing is the body for that entry. */
  lemma UpdateLoopSingle(dir: Directory, e: DirEntry, version: int, env: Environment)
    ensures UpdateLoop(dir, [e], version, env) == UpdateEntry(dir, e, version, env)
  {
    assert [e][0] == e && [e][1..] == [];
  }

  /** Visiting a stale archive that is alone in the directory leaves the
      current archive and its extracted files. */
  lemma StaleEntry(stale: Bytes, version: int, env: Environment)
    requires Triggers(File(stale), version) && stale != ArchiveName(version)
    requires Healthy(env)
    ensures UpdateEntry([File(stale)], File(stale), version, env) == Step(PutFiles([File(ArchiveName(version))], env.archive.value), Returned(true))
  {
    var e := File(stale);
    var name := ArchiveName(version);
    assert Clean([e], name) == [] by {
      assert !Survives(e, name);
      assert [e][..0] == [];
    }
    RefreshHealthy([], version, env);
  }
}
