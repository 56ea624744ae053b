# fias-dbf in Dafny

A model of the two classes that carry the logic of the fias-dbf library
(reading the Russian address register FIAS from its DBF files):

- `Fias\Dbf` (src/Dbf.php), a query builder. `select` and `from` choose
  the fields and the table. `equal`, `exclude` and `include` parse
  `"field = value, ..."` strings into condition lists. `exect` loads the
  table's rows into `records` (`parse`) and fills three result containers
  (`where`). `fetch`, `fetchAll`, `rowCount` and `numRows` read those
  containers. The model is the class `DbfEngine.Dbf`: its fields are the
  PHP fields, and its methods update them with the same loops as the source.
  `DbfRecords` gives the function each method is proved against, with the
  lemmas about those functions.
- `Fias\Dbase\Data` (src/Dbase/Data.php), the controller that keeps the
  data directory at the version the FIAS catalog reports. It covers:
  - the archive name `fias_<version>.rar`, the version read back out of a
    file name, and the date taken from the database label (`DbaseNames`);
  - download, unpack, clean and update, as functions of the directory
    listing (`DbaseSync`);
  - the class `DbaseData.Data`, whose methods change the listing step by
    step.

The supporting modules are:

- `Seqs`: the sequence operations the PHP built-ins are written with.
- `PhpArray`: an ordered PHP array with integer keys and its next free key.
- `DbfConditions`: the parsing of query strings.
- `DbfScenarios`: the uses the library's tests make, stated for all inputs
  of the shape the tests use.

Modelling decisions:

- PHP `empty()` is kept exactly: `""` and `"0"` are empty. So `select('0')`,
  `from('0')` and `equal('0')` change nothing.
- A fragment without `=` makes `strstr` return false. Under
  `strict_types`, `trim(false)` then raises a TypeError. The model keeps the
  conditions of the fragments before it, which PHP has already appended.
  The method returns `ok == false`; there is no precondition.
- `getExcluded` unsets entries while its `foreach` walks a copy of
  `records`. Keys are never renumbered, and `unset` never lowers the next
  free key (`PhpArray.Array.nextFree`).
- `records` is not reset between two runs of `exect`. A record loaded again
  under an existing key keeps the fields it already had.
- The table is a parameter `tables: map<string, seq<Row>>`. A missing table
  makes `open` raise, which `Exect` reports as `ok == false`, with nothing
  changed.
- For `include`, the PCRE pattern `|^value|is` without the `u` flag is
  modelled as an ASCII case-insensitive prefix match. The values must not
  hold regex metacharacters (`DbfRecords.RegexLiteral`, a precondition).
- In Data, file names and the database label are bytes, as PHP sees them.
  `substr` and `strpos` count bytes, and "от" is four bytes in UTF-8.
  `substr` past the end gives `""`, as in PHP 8.
- `(int)` of a string skips leading whitespace, reads an optional sign and
  the leading decimal digits, and gives 0 when there are none.
  `(int) false` is 0.
- `isLocalDatabaseOlderVersion` returns true or nothing (null, which is
  falsy). The model is the predicate `IsLocalOlder`.
- The directory is a listing of entries: a name, plus file, empty directory
  or non-empty directory. `rmdir` removes only empty directories, so
  `cleanDirectory` leaves non-empty ones in place. `DirectoryIterator` is
  modelled as a walk over the listing taken when the loop starts.

## Model

| member | source | states |
|---|---|---|
| DbfConditions.FragmentCondition | src/Dbf.php:204-207 | the field of a fragment holds no `=` and has no whitespace at either end; the value has no space or `=` at either end |
| DbfConditions.FragmentRoundTrip | src/Dbf.php:204-207 | a fragment `field = value`, with any padding PHP trims around field and value, parses back to exactly that field and value |
| DbfConditions.ParsedPrefixSpec | src/Dbf.php:200-208 | the i-th collected condition is the condition of the i-th fragment; collection stops exactly at the first fragment without `=` |
| DbfConditions.AppendConditions | src/Dbf.php:196-262 | the shared loop of equal/exclude/include appends the query's conditions in fragment order; `ok` holds exactly when every fragment has an `=`; an empty query appends nothing |
| DbfConditions.QueryRoundTrip | src/Dbf.php:198-208 | fragments without commas, each with an `=`, joined by commas give a well-formed query with one condition per fragment, in order |
| DbfConditions.FieldList | src/Dbf.php:137-141 | a comma list gives one field per comma-separated piece, each trimmed; no field holds a comma or has whitespace at either end |
| DbfConditions.SelectFields | src/Dbf.php:133-150 | the selection after `select`: kept for an empty argument, replaced by the field list when the argument holds a comma, otherwise extended by the argument (definition; stated for the engine by `DbfEngine.Dbf.Select`) |
| DbfConditions.QueryConditions | src/Dbf.php:196-212 | at most one condition per fragment; exactly one per fragment when the query is well formed, and only then; the i-th condition is that of the i-th fragment, which holds an `=` |
| DbfEngine.Dbf.constructor | src/Dbf.php:558-582 | a new engine has no table, no fields, no records, no conditions and no results |
| DbfEngine.Dbf.Select | src/Dbf.php:133-150 | an empty argument keeps the fields; one with a comma replaces them with the trimmed pieces; otherwise the argument is appended |
| DbfEngine.Dbf.From | src/Dbf.php:169-177 | an empty name keeps the table; any other name replaces it |
| DbfEngine.Dbf.Equal | src/Dbf.php:196-212 | the equal list grows by the query's conditions; `ok` holds exactly when the query is well formed |
| DbfEngine.Dbf.Exclude | src/Dbf.php:221-237 | the exclude list grows by the query's conditions; `ok` holds exactly when the query is well formed |
| DbfEngine.Dbf.Include | src/Dbf.php:246-262 | the include list grows by the query's conditions; `ok` holds exactly when the query is well formed |
| DbfEngine.Dbf.Parse | src/Dbf.php:380-405 | fields and records end as `ParseRows` of the old ones over the table's rows, under keys 1..n; `records` stays a valid PHP array |
| DbfEngine.Dbf.FillRecord | src/Dbf.php:392-395 | the inner loop of parse sets each selected field to the encoded column value and keeps the record's other fields |
| DbfRecords.Fill | src/Dbf.php:392-395 | the record's keys are its old keys plus the selected fields; each selected field holds the encoded column, or the encoded `""` when the row lacks that column; other keys are kept |
| DbfRecords.ParseStep | src/Dbf.php:384-400 | an empty field list becomes the row's column names; a non-empty field list is kept |
| DbfRecords.ParseRows | src/Dbf.php:380-405 | parse over the rows under keys 1..n keeps `records` a valid PHP array and keeps a non-empty field selection |
| DbfRecords.ParseFresh | src/Dbf.php:380-405 | with fields selected and no records yet, the keys are exactly 1..n and record i is row i restricted to the selected fields, encoded |
| DbfRecords.ParseTakesFirstRowFields | src/Dbf.php:386-389 | with no fields selected, the first row's column names become the fields |
| DbfRecords.ParseEmptySelection | src/Dbf.php:386-389 | loading with nothing selected is loading with the first row's columns selected |
| DbfRecords.LastMatch | src/Dbf.php:462-478 | the result is empty exactly when no record matches; otherwise it matches and no later record matches |
| DbfEngine.Dbf.GetEqualed | src/Dbf.php:462-478 | the loop returns the last record, in `records` order, that has the field with the condition's value, or the empty record |
| DbfRecords.RemoveMatching | src/Dbf.php:487-502 | what getExcluded leaves: a valid array with no record matching the condition, and the next free key unchanged |
| DbfRecords.ExcludeKeeps | src/Dbf.php:487-502 | every entry the condition does not match stays, under its key; when some record matches, the count drops |
| DbfEngine.Dbf.GetExcluded | src/Dbf.php:487-502 | unsetting matches while walking a copy leaves `records` equal to `RemoveMatching` of its old value, and returns it |
| DbfRecords.Group | src/Dbf.php:513-531 | a group holds exactly the records whose field starts with the pattern, ignoring ASCII case, and the pattern is base64-decoded for NAMEP |
| DbfEngine.Dbf.GetIncluded | src/Dbf.php:513-531 | the loop returns `Group` of the records, in `records` order |
| DbfRecords.RemoveAllSurvivors | src/Dbf.php:430-440 | after all exclude conditions, the entries left are exactly those no condition matches, in order and under their keys |
| DbfRecords.Snapshots | src/Dbf.php:430-440 | one snapshot per exclude condition; each is the records left after removing that condition's matches from the previous snapshot (definition) |
| DbfEngine.Dbf.EqualAll | src/Dbf.php:420-423 | one getEqualed result per equal condition, in order |
| DbfEngine.Dbf.ExcludeAll | src/Dbf.php:432-435 | one snapshot per exclude condition, each taken after its matches were removed; `records` ends with all matches removed |
| DbfEngine.Dbf.IncludeAll | src/Dbf.php:444-447 | one group per include condition, over the records the excludes left |
| DbfEngine.Dbf.WhereEquals | src/Dbf.php:418-428 | with equal conditions, `equaled` becomes their non-empty results; without any, it is unchanged |
| DbfEngine.Dbf.WhereExcludes | src/Dbf.php:430-440 | with exclude conditions, matches leave `records`, `excluded` becomes the non-empty snapshots, and `equaled` is emptied |
| DbfEngine.Dbf.WhereIncludes | src/Dbf.php:442-450 | with include conditions, `included` becomes the non-empty groups |
| DbfEngine.Dbf.Where | src/Dbf.php:412-453 | records and the three containers end as `DbfRecords.Where` of the conditions and the old state |
| DbfRecords.Where | src/Dbf.php:412-453 | the state after `where`: equal results, then excludes with their snapshots, then include groups over the records left (definition; its properties are the WhereExcludes, WhereEqualed, WhereIncluded and WhereExcluded rows) |
| DbfRecords.WhereExcludes | src/Dbf.php:430-440 | after where, no record left matches any exclude condition, and every record no exclude condition matches stays, in order and under its key |
| DbfRecords.WhereEqualed | src/Dbf.php:418-440 | at most one equal result per condition, each a non-empty last match of one condition; none at all once an exclude condition exists |
| DbfRecords.WhereIncluded | src/Dbf.php:442-450 | at most one group per include condition, each non-empty and the group of one condition over the records left |
| DbfRecords.WhereExcluded | src/Dbf.php:430-440 | every exclude snapshot is non-empty and is one of the per-condition snapshots; the last snapshot is what `records` holds |
| DbfEngine.Dbf.Exect | src/Dbf.php:269-275 | a missing table changes nothing and gives `ok == false`; otherwise the state is `where` applied to what `parse` loaded |
| DbfRecords.RowCount | src/Dbf.php:323-343 | the count is the number of records when there are no equal results and no include groups; otherwise it is the number of equal results plus the number of groups |
| DbfRecords.RowCountOfMatches | src/Dbf.php:323-343 | when every equal and include condition matches some record and nothing is excluded, rowCount is the number of equal conditions plus the number of include conditions, counting groups rather than rows |
| DbfRecords.Fetch | src/Dbf.php:284-306 | FETCH_ALL gives the equal results, then the groups, then the snapshots; each other code gives its own container; unknown codes give nothing |
| PhpArray.Set | src/Dbf.php:395 | `$a[$k] = $v` keeps the array valid, makes `$a[$k]` equal v, keeps the key order when k was present and appends k otherwise, and leaves every other key's value |
| PhpArray.Push | src/Dbf.php:400 | `$a[] = $v` appends v under the next free key and raises the next free key by one |
| PhpArray.Unset | src/Dbf.php:495 | `unset($a[$k])` removes the key, keeps the array valid, and does not lower the next free key |
| DbfScenarios.SelectListThenName | src/Dbf.php:133-150 | `select('A, B')->select('C')` gives `[A, B, C]`, as in the fields test (tests/src/DbfTest.php:80-90) |
| DbfScenarios.TwoConditions | src/Dbf.php:196-212 | `equal('F = v, G = w')` collects the two conditions in order, as in the equal test (tests/src/DbfTest.php:105-118) |
| DbfScenarios.CountRows | src/Dbf.php:350-353 | on a new engine with nothing selected, numRows after exect counts every row of the table whose first row has columns |
| DbfScenarios.OneExclude | src/Dbf.php:284-343 | one exclude condition that some records match and some do not gives exactly one snapshot in fetch(FETCH_EXCLUDE), and rowCount drops, as in the exclude test (tests/src/DbfTest.php:216-243) |
| DbaseNames.IntCastOfIntToString | src/Dbase/Data.php:393 | casting the decimal string PHP writes for an integer gives back that integer |
| DbaseNames.IntCast | src/Dbase/Data.php:393 | a string with no digit casts to 0; only a string holding a minus sign casts to a negative number |
| DbaseNames.LocalVersion | src/Dbase/Data.php:391-394 | a name with no dot after its first five bytes has version 0, the cast of false; VersionRoundTrip reads every archive name's version back |
| DbaseNames.IsLocalOlder | src/Dbase/Data.php:356-362 | true when the name's version is below the current one or the name is empty (definition; ArchiveOlderIff characterises it for archive names) |
| DbaseNames.ArchiveName | src/Dbase/Data.php:249 | the name starts with `fias_` and is longer than `fias_` and `.rar` together |
| DbaseNames.BeforeFirst | src/Dbase/Data.php:393 | there is no result exactly when the byte does not occur; otherwise the result is the text before its first occurrence |
| DbaseNames.VersionRoundTrip | src/Dbase/Data.php:391-394 | the version read out of `fias_<v>.rar` is v, for every integer v |
| DbaseNames.ArchiveOlderIff | src/Dbase/Data.php:356-362 | an archive named for version a counts as older than version v exactly when a < v |
| DbaseNames.Extension | src/Dbase/Data.php:224 | the extension is what follows the last dot, and is empty when the name has no dot |
| DbaseNames.ArchiveNameIsRar | src/Dbase/Data.php:249 | every archive name has the extension "rar" and matches the glob `*.rar` |
| DbaseNames.IndexOf | src/Dbase/Data.php:166 | strpos finds the first occurrence of the pattern, or reports none when there is none |
| DbaseNames.DateCreated | src/Dbase/Data.php:164-167 | the date is a suffix of the label |
| DbaseNames.DateCreatedOfLabel | src/Dbase/Data.php:164-167 | for a label `<text>от<sep><date>` whose text has no "от", the result is the date |
| DbaseNames.UrlFor | src/Dbase/Data.php:176-203 | types 1 to 6 select the six catalog addresses; no type, or any other number, selects the full DBF archive |
| DbaseData.Data.GetUrlForArchive | src/Dbase/Data.php:176-203 | stores the address `UrlFor` selects and returns it |
| DbaseData.Data.GetInfo | src/Dbase/Data.php:94-137 | raises without SOAP or when the catalog reports nothing, and then nothing changes; otherwise it stores the version, the label and the addresses |
| DbaseData.Data.GetDatabaseDateCreated | src/Dbase/Data.php:164-167 | returns `DateCreated` of the stored label |
| DbaseData.Data.constructor | src/Dbase/Data.php:54-58 | a controller over a listing with distinct names, holding what `getInfo` stored from the catalog reply, with no archive address yet |
| DbaseSync.PutFile | src/Dbase/Data.php:252 | after creating a file, the file is there and every entry of another name stays |
| DbaseSync.PutFileDistinct | src/Dbase/Data.php:252 | creating a file keeps the listing's names distinct, and the new file is the only entry of its name |
| DbaseSync.PutFiles | src/Dbase/Data.php:334-337 | after extraction every extracted name is a file, entries of other names stay, and nothing else appears |
| DbaseSync.Download | src/Dbase/Data.php:247-294 | download returns true exactly when writing, reading, cURL and the transfer all succeed, and then `fias_<version>.rar` exists; it never returns false; it raises before creating the file only when the file is not writable |
| DbaseData.Data.DownloadArchive | src/Dbase/Data.php:247-294 | sets the archive address for the data type, and changes the listing and reports the outcome as `Download` does |
| DbaseSync.ArchiveSelectedIff | src/Dbase/Data.php:318-324 | the unpack step finds the current archive exactly when the listing holds the file `fias_<version>.rar` |
| DbaseSync.Unpack | src/Dbase/Data.php:304-347 | unpack changes the directory only after finding `fias_<version>.rar` and returning true; it returns false exactly when RAR is loaded and that file is absent; a successful extraction writes the archive's entries |
| DbaseData.Data.SelectArchive | src/Dbase/Data.php:314-325 | the selection loop finds an entry exactly when some file has the extension "rar" and the archive's name |
| DbaseData.Data.ExtractAll | src/Dbase/Data.php:334-337 | the directory gains the extracted entries in order, and its names stay distinct |
| DbaseData.Data.UnpackArchive | src/Dbase/Data.php:304-347 | changes the listing and reports the outcome as `Unpack` does |
| DbaseSync.RefreshHealthy | src/Dbase/Data.php:216 | when every step succeeds, download then unpack leaves the new archive and its extracted files: the name written is the name the unpack step looks for |
| DbaseSync.Refresh | src/Dbase/Data.php:216 | download then unpack never returns false; it returns true exactly in a healthy environment, and then the directory holds the downloaded archive with its entries extracted |
| DbaseSync.CleanLeaves | src/Dbase/Data.php:367-382 | after cleaning, the entries are exactly the old non-empty directories and the file `fias_<version>.rar`; no other file and no empty directory is left; the archive stays if it was there |
| DbaseSync.CleanIdempotent | src/Dbase/Data.php:367-382 | cleaning twice is cleaning once |
| DbaseSync.CleanDistinct | src/Dbase/Data.php:367-382 | cleaning keeps the names distinct |
| DbaseSync.Clean | src/Dbase/Data.php:367-382 | the listing keeps, in order, exactly its non-empty directories and the file `keep` (definition; CleanLeaves, CleanIdempotent and CleanDistinct state its properties) |
| DbaseData.Data.CleanDirectory | src/Dbase/Data.php:367-382 | the listing becomes `Clean` of its old value, keeping `fias_<version>.rar` |
| DbaseData.Data.RemoveAllBut | src/Dbase/Data.php:369-381 | the loop that deletes entry by entry, while walking the listing taken at the start, ends with `Clean` of that listing |
| DbaseData.Data.CleanTurn | src/Dbase/Data.php:369-381 | one turn of the cleaning loop keeps the directory equal to the cleaned visited part of the listing followed by the unvisited rest |
| DbaseData.Data.CleanEntry | src/Dbase/Data.php:373-380 | visiting an entry that survives cleaning leaves the directory; visiting any other entry removes exactly that entry |
| DbaseData.CleanStep | src/Dbase/Data.php:373-380 | deleting one visited entry that should not survive keeps the directory equal to the cleaned visited part followed by the unvisited rest |
| DbaseSync.Settled | src/Dbase/Data.php:216 | a step whose value is discarded either returned true or raised, and leaves the same directory |
| DbaseSync.UpdateLoop | src/Dbase/Data.php:220-229 | the loop over the listing ends having returned true or raised |
| DbaseSync.Visit | src/Dbase/Data.php:222-228 | an entry that does not trigger changes nothing and returns true; one that triggers returns true or raises |
| DbaseSync.HasRarGlob | src/Dbase/Data.php:214 | `glob('*.rar')` finds an entry: some name ends in `.rar` and does not start with a dot (definition) |
| DbaseSync.Triggers | src/Dbase/Data.php:224 | an entry triggers a refresh when its extension is `rar` and it is older than the current version (definition) |
| DbaseSync.UpdateRunOfLoop | src/Dbase/Data.php:220-229 | the loop over the listing is the loop over which of its entries trigger, and some entry triggers exactly when some mark is set |
| DbaseSync.StaleEntry | src/Dbase/Data.php:222-228 | visiting a stale archive that is alone in the directory, in a healthy environment, leaves the current archive and its extracted files |
| DbaseSync.Update | src/Dbase/Data.php:212-233 | update returns true whenever it does not raise |
| DbaseSync.UpdateCurrent | src/Dbase/Data.php:220-229 | with archives present and none older than the current version, update changes nothing and returns true |
| DbaseSync.UpdateUpToDate | src/Dbase/Data.php:212-233 | a directory holding only the current archive is left as it is |
| DbaseSync.UpdateFresh | src/Dbase/Data.php:214-217 | any directory without a `*.rar`, when every step succeeds, gains the current archive and its extracted files: the archive is then the only entry of its name, entries the extraction does not overwrite stay, and distinct names stay distinct |
| DbaseSync.UpdateStale | src/Dbase/Data.php:218-229 | a directory holding only an older archive, when every step succeeds, loses it and ends with the current archive and its extracted files; UpdateStaleAny states the general case |
| DbaseSync.UpdateStaleAny | src/Dbase/Data.php:218-229 | for any listing with a `*.rar` and some older archive, when every step succeeds, update returns true; the current archive is there, and every entry is that archive, a file extracted from it, or a non-empty directory that was there before; every other file and archive is gone |
| DbaseData.Data.DownloadAndUnpack | src/Dbase/Data.php:216 | the listing and outcome are `Refresh` of the old listing with its value discarded; the address is set for the data type |
| DbaseData.Data.UpdateVisit | src/Dbase/Data.php:222-228 | an older rar entry makes it clean, download and unpack, and set the address; any other entry changes nothing |
| DbaseData.Data.UpdateEach | src/Dbase/Data.php:220-229 | the loop matches `UpdateLoop` over the listing taken at the start, ends at the first exception, and sets the address exactly when some entry triggers |
| DbaseData.Data.UpdateTurn | src/Dbase/Data.php:220-229 | one turn of the loop of update either raises, ending in the state the whole loop ends in, or leaves the rest of the loop to reach that state; the address is set once some entry so far triggers |
| DbaseData.Data.Update | src/Dbase/Data.php:212-233 | the listing and outcome are `DbaseSync.Update` of the old listing; the address is set exactly when a download is reached |

## Left out

- SOAP transport in `getInfo`. The catalog reply is a parameter: a missing
  extension, or no reply (which includes a `SoapFault`), raise.
- cURL and fopen transport in `downloadArchive`. Each failure is a flag of
  `DbaseSync.Environment`. A writable `fopen` that still fails, and a
  failing remote `fopen` whose `is_readable` holds, are not modelled.
- RarArchive extraction. The names an archive extracts to are a parameter.
  Entries that are directories are written as files, and a failing
  `RarArchive::open` is modelled like unreadable entries.
- Creating the directory with `mkdir` in `setPathToDbf`. The path itself is
  also left out: the listing is the directory, and `getPathToDbf` is not
  modelled.
- `getDatabaseVersion` and `getDatabaseName` read a field. The version is
  kept as the integer the catalog reports, so its `(int)` cast is the
  identity.
- IntCast: does not model exponents, hexadecimal, or the saturation of
  `(int)` at 64 bits; version numbers are plain decimal.
- The `Dbase` wrapper over the dBase extension, together with `open`,
  `close`, `numFields` and `getFieldsInfo`. They are foreign calls. The
  table is given as its rows, keyed 1..n in order.
- `getDirname`, `download`, `unpack` and `update` of `Dbf` only delegate to
  `Data`. `getFields`, `getTable` and `fetchAll` read a field.
- `encode` (CP866 to UTF-8 with `mb_convert_encoding`) and `base64_decode`.
  Both are function parameters.
- PHP's loose `==` in getEqualed and getExcluded. It compares numeric
  strings by value; the model compares strings exactly.
- The order of keys inside a record. A record is a map from field name to
  value.
- The regex engine: include values holding regex metacharacters are
  excluded by a precondition. `Fold` is also applied to every character
  code, not to single bytes of a UTF-8 sequence.
- DbfRecords.Fetch: `array_merge` renumbers the keys of the three containers,
  and `array_filter` leaves gaps in their keys. The model renumbers from 0
  in both places.
- `DirectoryIterator` lists the live directory, which `update` and
  `cleanDirectory` change while they walk it. The model walks the listing
  taken at the start.
- Symbolic links and the `.`/`..` entries. The `.` and `..` entries are
  skipped by `isDot()`.
- Concurrency, such as another process touching the directory.
- PHP 7 `substr`: on PHP 7, `substr` past the end of a string returns false,
  and under `strict_types` `strstr(false, ...)` and the `string` return of
  `getDatabaseDateCreated` then raise a TypeError. The model follows PHP 8,
  where the result is `""`. So an entry named `.rar` (four bytes) reads as
  version 0 and triggers a refresh, where PHP 7 would raise in `update`.
- DbaseData.Data.constructor: takes the catalog reply that `getInfo` stores.
  A `getInfo` that raises during construction is modelled by the method
  `GetInfo`, not by the constructor.
