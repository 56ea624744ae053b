/** The sync controller of src/Dbase/Data.php: it keeps the version, the
    label and the download addresses the catalog reported, and brings the
    data directory up to that version. */
module DbaseData {
  import opened Wrappers
  import opened Seqs
  import opened DbaseNames
  import opened DbaseSync

  /** What `GetLastDownloadFileInfo` reports: the version, its label and the
      download addresses. */
  datatype Catalog = Catalog(versionId: int, textVersion: Bytes, urls: Urls)

  class Data {
    var databaseVersion: int
    var databaseName: Bytes
    var urls: Urls
    var urlArchive: string
    var directory: Directory

    /** The listing of the data directory has no name twice. */
    ghost predicate Valid()
      reads this`directory
    {
      DistinctNames(directory)
    }

    /** The controller for a data directory, with the catalog information
        `getInfo` fetched. */
    constructor (listing: Directory, catalog: Catalog)
      requires DistinctNames(listing)
      ensures Valid()
      ensures directory == listing && urlArchive == ""
      ensures databaseVersion == catalog.versionId && databaseName == catalog.textVersion && urls == catalog.urls
    {
      directory := listing;
      urlArchive := "";
      databaseVersion := catalog.versionId;
      databaseName := catalog.textVersion;
      urls := catalog.urls;
    }

    /** `getInfo`: raises without the SOAP extension or when the catalog
        reports nothing; otherwise stores what it reports. */
    method GetInfo(soapLoaded: bool, reply: Option<Catalog>) returns (outcome: Outcome)
      modifies this`databaseVersion, this`databaseName, this`urls
      ensures outcome == (if !soapLoaded then Raised(SoapMissing) else if reply.None? then Raised(NoCatalogInfo) else Returned(true))
      ensures outcome.Returned? ==>
        databaseVersion == reply.value.versionId && databaseName == reply.value.textVersion && urls == reply.value.urls
      ensures outcome.Raised? ==>
        databaseVersion == old(databaseVersion) && databaseName == old(databaseName) && urls == old(urls)
    {
      if !soapLoaded {
        return Raised(SoapMissing);
      }
      match reply
      case None =>
        return Raised(NoCatalogInfo);
      case Some(info) =>
        databaseVersion := info.versionId;
        databaseName := info.textVersion;
        urls := info.urls;
        return Returned(true);
    }

    /** `getDatabaseDateCreated`: the part of the label after "от" and a separator. */
    method GetDatabaseDateCreated() returns (date: Bytes)
      ensures date == DateCreated(databaseName)
    {
      date := DateCreated(databaseName);
    }

    /** `getUrlForArchve`: stores the address for the data type and returns it. */
    method GetUrlForArchive(dataType: Option<int>) returns (url: string)
      modifies this`urlArchive
      ensures url == urlArchive == UrlFor(dataType, urls)
    {
      if dataType == Some(TypeDbfAll) {
        urlArchive := urls.allDbf;
      } else if dataType == Some(TypeXmlAll) {
        urlArchive := urls.allXml;
      } else if dataType == Some(TypeDbfDelta) {
        urlArchive := urls.deltaDbf;
      } else if dataType == Some(TypeXmlDelta) {
        urlArchive := urls.deltaXml;
      } else if dataType == Some(TypeKladrArj) {
        urlArchive := urls.kladrArj;
      } else if dataType == Some(TypeKladr7z) {
        urlArchive := urls.kladr7z;
      } else {
        urlArchive := urls.allDbf;
      }
      url := urlArchive;
    }

    /** `downloadArchive`: the address is chosen first, then the file
        `fias_<version>.rar` is created and the archive copied into it. */
    method DownloadArchive(dataType: Option<int>, env: Environment) returns (outcome: Outcome)
      requires Valid()
      modifies this`urlArchive, this`directory
      ensures Valid()
      ensures urlArchive == UrlFor(dataType, urls)
      ensures Step(directory, outcome) == Download(old(directory), databaseVersion, env)
    {
      var file := ArchiveName(databaseVersion);
      var url := GetUrlForArchive(dataType);
      if !env.localWritable {
        return Raised(LocalNotWritable);
      }
      PutFileDistinct(directory, file);
      directory := PutFile(directory, file);
      if !env.remoteReadable {
        return Raised(RemoteNotReadable);
      }
      if !env.curlLoaded {
        return Raised(CurlMissing);
      }
      if !env.transferOk {
        return Raised(TransferFailed);
      }
      return Returned(true);
    }

    /** `unpackArchive`: looks through the listing for the file
        `fias_<version>.rar` with the extension "rar", and extracts the
        archive's entries into the directory. */
    method UnpackArchive(env: Environment) returns (outcome: Outcome)
      requires Valid()
      modifies this`directory
      ensures Valid()
      ensures Step(directory, outcome) == Unpack(old(directory), databaseVersion, env)
    {
      if !env.rarLoaded {
        return Raised(RarMissing);
      }
      var name := ArchiveName(databaseVersion);
      var found := SelectArchive(name);
      if !found {
        return Returned(false);
      }
      match env.archive
      case None =>
        return Raised(ArchiveUnreadable);
      case Some(names) =>
        ExtractAll(names);
        return Returned(true);
    }

    /** The loop of `unpackArchive` that picks the archive's path: whether
        some file of the listing is selected. */
    method SelectArchive(name: Bytes) returns (found: bool)
      ensures found == ArchiveSelected(directory, name)
    {
      var listing := directory;
      found := false;
      var i := 0;
      while i < |listing|
        invariant 0 <= i <= |listing|
        invariant found == ArchiveSelected(listing[..i], name)
      {
        var e := listing[i];
        assert listing[..i + 1] == listing[..i] + [e];
        ArchiveSelectedAppend(listing[..i], e, name);
        if e.kind == RegularFile && Extension(e.name) == RarExtension {
          if e.name == name {
            found := true;
          }
        }
        i := i + 1;
      }
      assert listing[..i] == listing;
    }

    /** The extraction loop of `unpackArchive`: each entry written in order. */
    method ExtractAll(names: seq<Bytes>)
      requires Valid()
      modifies this`directory
      ensures Valid()
      ensures directory == PutFiles(old(directory), names)
    {
      var i := 0;
      while i < |names|
        invariant 0 <= i <= |names|
        invariant directory == PutFiles(old(directory), names[..i])
      {
        assert names[..i + 1][..i] == names[..i];
        directory := PutFile(directory, names[i]);
        i := i + 1;
      }
      assert names[..i] == names;
      PutFilesDistinct(old(directory), names);
    }

    /** `cleanDirectory`: visits the listing as it was when it started,
        gives every directory to `rmdir` (which removes only empty ones) and
        unlinks every file but `fias_<version>.rar`. */
    method CleanDirectory()
      requires Valid()
      modifies this`directory
      ensures Valid()
      ensures directory == Clean(old(directory), ArchiveName(databaseVersion))
    {
      RemoveAllBut(ArchiveName(databaseVersion));
    }

    /** The loop of `cleanDirectory`, keeping the file `keep`. */
    method RemoveAllBut(keep: Bytes)
      requires Valid()
      modifies this`directory
      ensures Valid()
      ensures directory == Clean(old(directory), keep)
    {
      var listing := directory;
      var i := 0;
      assert listing[..0] == [];
      while i < |listing|
        invariant 0 <= i <= |listing|
        invariant directory == Clean(listing[..i], keep) + listing[i..]
      {
        CleanTurn(listing, keep, i);
        i := i + 1;
      }
      assert listing[..i] == listing && listing[i..] == [];
      CleanDistinct(listing, keep);
    }

    /** The iteration of `cleanDirectory` on the entry at position i of the
        listing it started from. */
    method CleanTurn(listing: Directory, keep: Bytes, i: nat)
      requires DistinctNames(listing) && i < |listing|
      requires directory == Clean(listing[..i], keep) + listing[i..]
      modifies this`directory
      ensures directory == Clean(listing[..i + 1], keep) + listing[i + 1..]
    {
      CleanStep(listing, keep, i, directory);
      CleanEntry(listing[i], keep);
    }

    /** One iteration of `cleanDirectory`: `rmdir` on a directory, which
        removes it only when it is empty, and `unlink` on a file other than
        `keep`. */
    method CleanEntry(e: DirEntry, keep: Bytes)
      modifies this`directory
      ensures directory == if Survives(e, keep) then old(directory) else Unlink(old(directory), e.name)
    {
      if e.kind != RegularFile {
        if e.kind == EmptyDirectory {
          directory := Unlink(directory, e.name);
        }
      } else if e.name != keep {
        directory := Unlink(directory, e.name);
      }
    }

    /** `!downloadArchive() ?: unpackArchive()`, with its value discarded. */
    method DownloadAndUnpack(dataType: Option<int>, env: Environment) returns (outcome: Outcome)
      requires Valid()
      modifies this`urlArchive, this`directory
      ensures Valid()
      ensures urlArchive == UrlFor(dataType, urls)
      ensures Step(directory, outcome) == Settled(Refresh(old(directory), databaseVersion, env))
    {
      outcome := DownloadArchive(dataType, env);
      if outcome == Returned(true) {
        outcome := UnpackArchive(env);
      }
      if outcome.Returned? {
        outcome := Returned(true);
      }
    }

    /** `update`: with no `*.rar` in the directory, downloads and unpacks;
        otherwise, for each older archive of the listing taken at the start,
        cleans the directory, downloads and unpacks. Returns true unless a
        step raises; the address is set exactly when a download is reached. */
    method Update(dataType: Option<int>, env: Environment) returns (outcome: Outcome)
      requires Valid()
      modifies this`urlArchive, this`directory
      ensures Valid()
      ensures Step(directory, outcome) == DbaseSync.Update(old(directory), databaseVersion, env)
      ensures urlArchive == if DownloadAttempted(old(directory), databaseVersion) then UrlFor(dataType, urls) else old(urlArchive)
    {
      if !HasRarGlob(directory) {
        outcome := DownloadAndUnpack(dataType, env);
      } else {
        outcome := UpdateEach(dataType, env);
      }
    }

    /** The loop of `update` over the listing taken when it starts. */
    method UpdateEach(dataType: Option<int>, env: Environment) returns (outcome: Outcome)
      requires Valid()
      modifies this`urlArchive, this`directory
      ensures Valid()
      ensures Step(directory, outcome) == UpdateLoop(old(directory), old(directory), databaseVersion, env)
      ensures urlArchive == if AnyTriggers(old(directory), databaseVersion) then UrlFor(dataType, urls) else old(urlArchive)
    {
      var listing := directory;
      ghost var marks := Marks(listing, databaseVersion);
      ghost var goal := UpdateRun(listing, marks, databaseVersion, env);
      ghost var initial := urlArchive;
      UpdateRunOfLoop(listing, listing, databaseVersion, env);
      var i := 0;
      assert marks[..0] == [] && marks[0..] == marks;
      while i < |listing|
        invariant 0 <= i <= |listing|
        invariant Valid()
        invariant UpdateRun(directory, marks[i..], databaseVersion, env) == goal
        invariant urlArchive == if true in marks[..i] then UrlFor(dataType, urls) else initial
      {
        outcome := UpdateTurn(listing, marks, i, goal, initial, dataType, env);
        if outcome.Raised? {
          return;
        }
        i := i + 1;
      }
      assert marks[i..] == [] && marks[..i] == marks;
      outcome := Returned(true);
    }

    /** One turn of the loop of `update`, at position i of the listing. */
    method UpdateTurn(listing: Directory, ghost marks: seq<bool>, i: nat, ghost goal: Step, ghost initial: string,
                      dataType: Option<int>, env: Environment)
      returns (outcome: Outcome)
      requires Valid()
      requires i < |listing| && marks == Marks(listing, databaseVersion)
      requires UpdateRun(directory, marks[i..], databaseVersion, env) == goal
      requires urlArchive == if true in marks[..i] then UrlFor(dataType, urls) else initial
      modifies this`urlArchive, this`directory
      ensures Valid()
      ensures outcome.Raised? ==> Step(directory, outcome) == goal && urlArchive == if true in marks then UrlFor(dataType, urls) else initial
      ensures !outcome.Raised? ==> UpdateRun(directory, marks[i + 1..], databaseVersion, env) == goal
      ensures urlArchive == if true in marks[..i + 1] then UrlFor(dataType, urls) else initial
    {
      ghost var before := directory;
      MarkAt(listing, databaseVersion, i);
      MarkedPrefix(marks, i);
      outcome := UpdateVisit(listing[i], dataType, env);
      UpdateRunAt(before, marks, i, Step(directory, outcome), databaseVersion, env);
    }

    /** The body of the loop of `update` for one entry: an archive whose
        version is older makes it clean the directory, download and unpack. */
    method UpdateVisit(e: DirEntry, dataType: Option<int>, env: Environment) returns (outcome: Outcome)
      requires Valid()
      modifies this`urlArchive, this`directory
      ensures Valid()
      ensures Step(directory, outcome) == Visit(old(directory), Triggers(e, databaseVersion), databaseVersion, env)
      ensures urlArchive == if Triggers(e, databaseVersion) then UrlFor(dataType, urls) else old(urlArchive)
    {
      outcome := Returned(true);
      if Extension(e.name) == RarExtension && IsLocalOlder(e.name, databaseVersion) {
        CleanDirectory();
        outcome := DownloadAndUnpack(dataType, env);
      }
    }
  }

  /** One step of `cleanDirectory`: removing the visited entry when it does
      not survive keeps the directory equal to the cleaned visited part
      followed by the rest. */
  lemma CleanStep(listing: Directory, keep: Bytes, i: nat, current: Directory)
    requires DistinctNames(listing)
    requires i < |listing|
    requires current == Clean(listing[..i], keep) + listing[i..]
    ensures Survives(listing[i], keep) ==> current == Clean(listing[..i + 1], keep) + listing[i + 1..]
    ensures !Survives(listing[i], keep) ==> Unlink(current, listing[i].name) == Clean(listing[..i + 1], keep) + listing[i + 1..]
  {
    var e := listing[i];
    var done := Clean(listing[..i], keep);
    var rest := listing[i + 1..];
    assert listing[..i + 1] == listing[..i] + [e];
    CleanSnoc(listing[..i], e, keep);
    assert listing[i..] == [e] + rest;
    assert current == done + [e] + rest;
    if Survives(e, keep) {
      assert Clean(listing[..i + 1], keep) + rest == done + [e] + rest;
    } else {
      OthersNameDiffer(listing, i, done);
      UnlinkOnly(done, e, rest);
      assert Clean(listing[..i + 1], keep) == done;
    }
  }

  /** With distinct names, no entry other than the one at position i, among
      those before it (`done` is drawn from them) or after it, has its name. */
  lemma OthersNameDiffer(listing: Directory, i: nat, done: Directory)
    requires DistinctNames(listing) && i < |listing|
    requires forall x :: x in done ==> x in listing[..i]
    ensures forall x :: x in done ==> x.name != listing[i].name
    ensures forall x :: x in listing[i + 1..] ==> x.name != listing[i].name
  {
    forall x | x in done ensures x.name != listing[i].name {
      var k :| 0 <= k < i && listing[..i][k] == x;
      assert EntryName(listing[k]) != EntryName(listing[i]);
    }
    forall x | x in listing[i + 1..] ensures x.name != listing[i].name {
      var k :| 0 <= k < |listing| - i - 1 && listing[i + 1..][k] == x;
      assert EntryName(listing[i]) != EntryName(listing[i + 1 + k]);
    }
  }
}
