/** What the query engine of src/Dbf.php computes, as functions of its
    state: the records `parse` loads from a table, and the three result
    containers `where` fills from them. */
module DbfRecords {
  import opened Seqs
  import opened PhpArray
  import opened DbfConditions

  /** One loaded record: field name to value. */
  type Record = map<string, string>

  /** One column of a row as the table yields it. */
  datatype Cell = Cell(name: string, value: string)

  /** A row of the table, its columns in table order. */
  type Row = seq<Cell>

  /** The column names of a row (array_keys of the row). */
  function Names(row: Row): seq<string>
  {
    seq(|row|, i requires 0 <= i < |row| => row[i].name)
  }

  /** `(string) $row[$name]`: the value of the column, or "" when the row has
      no such column (a missing key reads as null). */
  function Lookup(row: Row, name: string): (v: string)
    ensures (forall c :: c in row ==> c.name != name) ==> v == ""
    ensures (exists c :: c in row && c.name == name) ==> exists c :: c in row && c.name == name && c.value == v
  {
    if row == [] then ""
    else if row[0].name == name then row[0].value
    else
      var v := Lookup(row[1..], name);
      assert forall c :: c in row[1..] ==> c in row;
      v
  }

  /** The row itself as a record. */
  function RawRecord(row: Row): Record
  {
    map n | n in Names(row) :: Lookup(row, n)
  }

  /** `$rec[$f] = encode((string) $row[$f])` for each selected field `f`. */
  function Fill(base: Record, fields: seq<string>, row: Row, encode: string -> string): (r: Record)
    ensures r.Keys == base.Keys + set f | f in fields
    ensures forall f :: f in fields ==> r[f] == encode(Lookup(row, f))
    ensures forall k :: k in base && k !in fields ==> r[k] == base[k]
    decreases |fields|
  {
    if fields == [] then base
    else
      var f := fields[|fields| - 1];
      var prefix := fields[..|fields| - 1];
      assert forall g :: g in fields ==> g in prefix || g == f;
      Fill(base, prefix, row, encode)[f := encode(Lookup(row, f))]
  }

  /** Filling one more field sets it on the record filled so far. */
  lemma FillStep(base: Record, fields: seq<string>, j: nat, row: Row, encode: string -> string)
    requires j < |fields|
    ensures Fill(base, fields[..j + 1], row, encode) == Fill(base, fields[..j], row, encode)[fields[j] := encode(Lookup(row, fields[j]))]
  {
    assert fields[..j + 1][..j] == fields[..j];
  }

  /** The state `parse` works on: the selected fields and the records. */
  datatype Loaded = Loaded(fields: seq<string>, records: Array<Record>)

  /** One iteration of `parse` on the row with key `index`: an empty field
      list is first taken from the row's columns; with fields, the record
      under `index` gets each field set; without any, the row is appended. */
  function ParseStep(st: Loaded, index: nat, row: Row, encode: string -> string): (r: Loaded)
    requires Valid(st.records)
    ensures Valid(r.records)
    ensures st.fields != [] ==> r.fields == st.fields
    ensures st.fields == [] ==> r.fields == Names(row)
  {
    var fields := if st.fields == [] then Names(row) else st.fields;
    if fields != [] then
      var base := if index in Keys(st.records) then Get(st.records, index) else map[];
      Loaded(fields, Set(st.records, index, Fill(base, fields, row, encode)))
    else
      Loaded(fields, Push(st.records, RawRecord(row)))
  }

  /** `parse` over the rows of a table, which the table yields under the keys 1, 2, ... */
  function ParseRows(st: Loaded, rows: seq<Row>, encode: string -> string): (r: Loaded)
    requires Valid(st.records)
    ensures Valid(r.records)
    ensures st.fields != [] ==> r.fields == st.fields
    decreases |rows|
  {
    if rows == [] then st
    else ParseStep(ParseRows(st, rows[..|rows| - 1], encode), |rows|, rows[|rows| - 1], encode)
  }

  lemma ParseRowsStep(st: Loaded, rows: seq<Row>, i: nat, encode: string -> string)
    requires Valid(st.records) && i < |rows|
    ensures ParseRows(st, rows[..i + 1], encode) == ParseStep(ParseRows(st, rows[..i], encode), i + 1, rows[i], encode)
  {
    assert rows[..i + 1][..i] == rows[..i];
  }

  /** The numbers 1..n, the keys a table of n rows is loaded under. */
  function OneTo(n: nat): seq<nat>
  {
    seq(n, i requires 0 <= i < n => i + 1)
  }

  /** The records a table's rows load into on an engine without records,
      with the fields selected: keyed 1..n, the record under key i is row i
      with exactly the selected fields, each holding the encoded column value. */
  predicate FreshRecords(records: Array<Record>, fields: seq<string>, rows: seq<Row>, encode: string -> string)
  {
    Keys(records) == OneTo(|rows|) &&
    forall i :: 1 <= i <= |rows| ==>
      i in Keys(records) && Get(records, i) == Fill(map[], fields, rows[i - 1], encode)
  }

  /** Loading a table into an engine without records, with the fields
      selected, gives its fresh records. */
  lemma {:induction false} ParseFresh(fields: seq<string>, rows: seq<Row>, encode: string -> string)
    requires fields != []
    ensures FreshRecords(ParseRows(Loaded(fields, Empty()), rows, encode).records, fields, rows, encode)
    decreases |rows|
  {
    var st := Loaded(fields, Empty());
    assert Valid(st.records);
    var n := |rows|;
    if n > 0 {
      var prev := ParseRows(st, rows[..n - 1], encode);
      ParseFresh(fields, rows[..n - 1], encode);
      assert ParseRows(st, rows, encode) == ParseStep(prev, n, rows[n - 1], encode);
      FreshStep(prev, fields, rows, encode);
    }
  }

  /** Loading row n on the fresh records of rows 1..n-1 gives the fresh
      records of rows 1..n. */
  lemma FreshStep(prev: Loaded, fields: seq<string>, rows: seq<Row>, encode: string -> string)
    requires rows != [] && Valid(prev.records) && fields != [] && prev.fields == fields
    requires FreshRecords(prev.records, fields, rows[..|rows| - 1], encode)
    ensures FreshRecords(ParseStep(prev, |rows|, rows[|rows| - 1], encode).records, fields, rows, encode)
  {
    var n := |rows|;
    var v := Fill(map[], fields, rows[n - 1], encode);
    AppendNextKey(prev.records, n, v);
    assert n !in Keys(prev.records);
    var next := ParseStep(prev, n, rows[n - 1], encode).records;
    assert next == Set(prev.records, n, v);
    forall i | 1 <= i <= n
      ensures i in Keys(next) && Get(next, i) == Fill(map[], fields, rows[i - 1], encode)
    {
      if i < n {
        assert rows[..n - 1][i - 1] == rows[i - 1];
      }
    }
  }

  /** Setting key n on an array keyed 1..n-1 appends it and keeps the rest. */
  lemma AppendNextKey(a: Array<Record>, n: nat, v: Record)
    requires n >= 1 && Valid(a) && Keys(a) == OneTo(n - 1)
    ensures Keys(Set(a, n, v)) == OneTo(n)
    ensures forall i :: 1 <= i <= n ==> i in OneTo(n) && i in Keys(Set(a, n, v))
    ensures Get(Set(a, n, v), n) == v
    ensures forall i :: 1 <= i < n ==> i in Keys(a) && Get(Set(a, n, v), i) == Get(a, i)
  {
    assert n !in OneTo(n - 1);
    assert OneTo(n - 1) + [n] == OneTo(n);
    forall i | 1 <= i <= n ensures i in OneTo(n) {
      assert OneTo(n)[i - 1] == i;
    }
    forall i | 1 <= i < n ensures i in Keys(a) {
      assert OneTo(n - 1)[i - 1] == i;
    }
  }

  /** With no field selected, the first row with columns decides the fields. */
  lemma {:induction false} ParseTakesFirstRowFields(rows: seq<Row>, records: Array<Record>, encode: string -> string)
    requires Valid(records)
    requires rows != [] && Names(rows[0]) != []
    ensures ParseRows(Loaded([], records), rows, encode).fields == Names(rows[0])
    decreases |rows|
  {
    var n := |rows|;
    if n > 1 {
      assert rows[..n - 1][0] == rows[0];
      ParseTakesFirstRowFields(rows[..n - 1], records, encode);
    } else {
      assert rows[..0] == [];
    }
  }

  /** With no field selected, loading a table whose first row has columns
      is loading it with those columns selected. */
  lemma {:induction false} ParseEmptySelection(rows: seq<Row>, encode: string -> string)
    requires rows != [] && Names(rows[0]) != []
    ensures ParseRows(Loaded([], Empty()), rows, encode) == ParseRows(Loaded(Names(rows[0]), Empty()), rows, encode)
    decreases |rows|
  {
    var n := |rows|;
    var init := rows[..n - 1];
    if n == 1 {
      assert init == [];
    } else {
      assert init[0] == rows[0];
      ParseEmptySelection(init, encode);
    }
  }

  /** A record satisfies a condition when it has the field and the field holds the value. */
  predicate Matches(rec: Record, c: Condition)
  {
    c.field in rec && rec[c.field] == c.value
  }

  /** What `getEqualed` returns: the last matching record, or the empty record when none matches. */
  function LastMatch(recs: seq<Record>, c: Condition): (r: Record)
    ensures r == map[] <==> forall x :: x in recs ==> !Matches(x, c)
    ensures r != map[] ==> exists i :: 0 <= i < |recs| && recs[i] == r && Matches(r, c) &&
                                       forall j :: i < j < |recs| ==> !Matches(recs[j], c)
    decreases |recs|
  {
    if recs == [] then map[]
    else if Matches(recs[|recs| - 1], c) then recs[|recs| - 1]
    else
      var prefix := recs[..|recs| - 1];
      var r := LastMatch(prefix, c);
      LastMatchSkip(recs, prefix, c, r);
      r
  }

  /** A last match of all but the final record, when the final record does
      not match, is a last match of all of them. */
  lemma LastMatchSkip(recs: seq<Record>, prefix: seq<Record>, c: Condition, r: Record)
    requires recs != [] && prefix == recs[..|recs| - 1] && !Matches(recs[|recs| - 1], c)
    requires r == map[] <==> forall x :: x in prefix ==> !Matches(x, c)
    requires r != map[] ==> exists i :: 0 <= i < |prefix| && prefix[i] == r && Matches(r, c) &&
                                        forall j :: i < j < |prefix| ==> !Matches(prefix[j], c)
    ensures r == map[] <==> forall x :: x in recs ==> !Matches(x, c)
    ensures r != map[] ==> exists i :: 0 <= i < |recs| && recs[i] == r && Matches(r, c) &&
                                       forall j :: i < j < |recs| ==> !Matches(recs[j], c)
  {
    assert forall x :: x in recs ==> x in prefix || x == recs[|recs| - 1];
    assert forall i :: 0 <= i < |prefix| ==> recs[i] == prefix[i];
  }

  /** The last match over one more record. */
  lemma LastMatchStep(recs: seq<Record>, i: nat, c: Condition)
    requires i < |recs|
    ensures LastMatch(recs[..i + 1], c) == if Matches(recs[i], c) then recs[i] else LastMatch(recs[..i], c)
  {
    assert recs[..i + 1][..i] == recs[..i];
  }

  /** The pattern `getIncluded` matches with: base64-decoded for the field NAMEP. */
  function Pattern(c: Condition, decode: string -> string): string
  {
    if c.field == "NAMEP" then decode(c.value) else c.value
  }

  /** ASCII upper case to lower case: the case-insensitivity of a PCRE
      pattern compiled without UTF-8 support. */
  function Fold(ch: char): char
  {
    if 'A' <= ch <= 'Z' then (ch as int + 32) as char else ch
  }

  /** `s` starts with `p`, ignoring ASCII case. */
  predicate PrefixFold(p: string, s: string)
  {
    |p| <= |s| && forall i :: 0 <= i < |p| ==> Fold(p[i]) == Fold(s[i])
  }

  /** The characters that make a pattern more than literal text, the
      delimiter '|' among them. */
  const Metacharacters: set<char> := {'\\', '^', '$', '.', '[', ']', '|', '(', ')', '?', '*', '+', '{', '}'}

  /** A pattern that `|^pattern|is` matches as a case-insensitive prefix. */
  predicate RegexLiteral(p: string)
  {
    forall ch :: ch in p ==> ch !in Metacharacters
  }

  /** A record `preg_match("|^pattern|is", ...)` accepts for the condition. */
  predicate IncludeMatches(rec: Record, c: Condition, decode: string -> string)
  {
    c.field in rec && PrefixFold(Pattern(c, decode), rec[c.field])
  }

  /** What `getIncluded` returns: the accepted records in order. */
  function Group(recs: seq<Record>, c: Condition, decode: string -> string): (g: seq<Record>)
    ensures forall x :: x in g ==> x in recs && IncludeMatches(x, c, decode)
    ensures forall x :: x in recs && IncludeMatches(x, c, decode) ==> x in g
  {
    Filter(recs, (x: Record) => IncludeMatches(x, c, decode))
  }

  /** The group over one more record. */
  lemma GroupStep(recs: seq<Record>, i: nat, c: Condition, decode: string -> string)
    requires i < |recs|
    ensures Group(recs[..i + 1], c, decode) == Group(recs[..i], c, decode) + if IncludeMatches(recs[i], c, decode) then [recs[i]] else []
  {
    assert recs[..i + 1] == recs[..i] + [recs[i]];
    FilterSnoc(recs[..i], recs[i], (x: Record) => IncludeMatches(x, c, decode));
  }

  /** The entry stays in place when its record does not match. */
  predicate Kept(e: Entry<Record>, c: Condition)
  {
    !Matches(e.value, c)
  }

  /** The entries whose records do not match, in order. */
  function KeptEntries(s: seq<Entry<Record>>, c: Condition): seq<Entry<Record>>
  {
    Filter(s, (e: Entry<Record>) => Kept(e, c))
  }

  /** One iteration of `getExcluded` over its copy of the records: the
      visited entries that do not match stay, the others are still there;
      unsetting a matching entry removes it alone. */
  lemma ExcludeStep(copy: Array<Record>, c: Condition, i: nat, current: Array<Record>)
    requires Valid(copy) && i < |copy.entries|
    requires current == Array(KeptEntries(copy.entries[..i], c) + copy.entries[i..], copy.nextFree)
    ensures Kept(copy.entries[i], c) ==>
      current == Array(KeptEntries(copy.entries[..i + 1], c) + copy.entries[i + 1..], copy.nextFree)
    ensures !Kept(copy.entries[i], c) ==>
      Unset(current, copy.entries[i].key) == Array(KeptEntries(copy.entries[..i + 1], c) + copy.entries[i + 1..], copy.nextFree)
  {
    var e := copy.entries[i];
    var done := KeptEntries(copy.entries[..i], c);
    var rest := copy.entries[i + 1..];
    var next := KeptEntries(copy.entries[..i + 1], c);
    assert copy.entries[..i + 1][..i] == copy.entries[..i];
    assert next == done + if Kept(e, c) then [e] else [];
    assert copy.entries[i..] == [e] + rest;
    if Kept(e, c) {
      assert done + [e] + rest == next + rest;
    } else {
      OthersKeyDiffer(copy, i, done);
      assert current.entries == done + [e] + rest;
      UnsetOnly(current, done, e, rest);
      assert next == done;
    }
  }

  /** In a valid array, the entries before and after position i hold keys
      other than the key at i. */
  lemma OthersKeyDiffer<T>(a: Array<T>, i: nat, done: seq<Entry<T>>)
    requires Valid(a) && i < |a.entries|
    requires forall x :: x in done ==> x in a.entries[..i]
    ensures forall x :: x in done ==> x.key != a.entries[i].key
    ensures forall x :: x in a.entries[i + 1..] ==> x.key != a.entries[i].key
  {
    forall x | x in done ensures x.key != a.entries[i].key {
      var j :| 0 <= j < i && a.entries[..i][j] == x;
      assert EntryKey(a.entries[j]) != EntryKey(a.entries[i]);
    }
    forall x | x in a.entries[i + 1..] ensures x.key != a.entries[i].key {
      var j :| 0 <= j < |a.entries| - i - 1 && a.entries[i + 1..][j] == x;
      assert EntryKey(a.entries[i]) != EntryKey(a.entries[i + 1 + j]);
    }
  }

  /** `records` after `getExcluded`: every matching entry unset. */
  function RemoveMatching(a: Array<Record>, c: Condition): (r: Array<Record>)
    ensures Valid(a) ==> Valid(r)
    ensures forall x :: x in Values(r) ==> !Matches(x, c)
    ensures r.nextFree == a.nextFree
  {
    var r := Array(KeptEntries(a.entries, c), a.nextFree);
    UnsetValid(a, (e: Entry<Record>) => Kept(e, c), r);
    assert forall i :: 0 <= i < |r.entries| ==> r.entries[i] in r.entries;
    r
  }

  /** `getExcluded` keeps every record the condition does not match, under
      its key, and removes at least one record when one matches. */
  lemma ExcludeKeeps(a: Array<Record>, c: Condition)
    ensures forall e :: e in a.entries && !Matches(e.value, c) ==> e in RemoveMatching(a, c).entries
    ensures (exists x :: x in Values(a) && Matches(x, c)) ==> Count(RemoveMatching(a, c)) < Count(a)
  {
    if exists x :: x in Values(a) && Matches(x, c) {
      var x :| x in Values(a) && Matches(x, c);
      var i :| 0 <= i < |a.entries| && Values(a)[i] == x;
      assert a.entries[i] in a.entries;
      FilterShrinks(a.entries, (e: Entry<Record>) => Kept(e, c), a.entries[i]);
    }
  }

  /** The snapshots of `records` after each exclude condition in turn. */
  function Snapshots(a: Array<Record>, cs: seq<Condition>): (s: seq<Array<Record>>)
    ensures |s| == |cs|
    decreases |cs|
  {
    if cs == [] then []
    else
      var prev := Snapshots(a, cs[..|cs| - 1]);
      prev + [RemoveMatching(if prev == [] then a else prev[|prev| - 1], cs[|cs| - 1])]
  }

  /** `records` once all exclude conditions ran. */
  function RemoveAll(a: Array<Record>, cs: seq<Condition>): Array<Record>
  {
    if cs == [] then a else Snapshots(a, cs)[|cs| - 1]
  }

  /** No condition in `cs` holds of the entry's record. */
  predicate KeptByAll(e: Entry<Record>, cs: seq<Condition>)
  {
    forall c :: c in cs ==> !Matches(e.value, c)
  }

  /** Removing the matches of each exclude condition in turn leaves exactly
      the entries no condition matches, in their order and under their keys. */
  lemma {:induction false} RemoveAllSurvivors(a: Array<Record>, cs: seq<Condition>)
    ensures RemoveAll(a, cs).entries == Filter(a.entries, (e: Entry<Record>) => KeptByAll(e, cs))
    ensures RemoveAll(a, cs).nextFree == a.nextFree
    decreases |cs|
  {
    if cs == [] {
      FilterAll(a.entries, (e: Entry<Record>) => KeptByAll(e, cs));
    } else {
      var init := cs[..|cs| - 1];
      var c := cs[|cs| - 1];
      RemoveAllSurvivors(a, init);
      assert RemoveAll(a, cs) == RemoveMatching(RemoveAll(a, init), c);
      forall e: Entry<Record> ensures KeptByAll(e, cs) == (KeptByAll(e, init) && Kept(e, c)) {
        assert forall d :: d in cs ==> d in init || d == c;
      }
      FilterFilter(a.entries, (e: Entry<Record>) => KeptByAll(e, init), (e: Entry<Record>) => Kept(e, c),
        (e: Entry<Record>) => KeptByAll(e, cs));
    }
  }

  /** The conditions an engine has collected. */
  datatype Query = Query(equals: seq<Condition>, excludes: seq<Condition>, includes: seq<Condition>)

  /** The records and the three result containers. */
  datatype Results = Results(
    records: Array<Record>,
    equaled: seq<Record>,
    excluded: seq<Array<Record>>,
    included: seq<seq<Record>>)

  /** One result per equal condition, over the same records. */
  function EqualResults(recs: seq<Record>, cs: seq<Condition>): (r: seq<Record>)
    ensures |r| == |cs|
    ensures forall i :: 0 <= i < |cs| ==> r[i] == LastMatch(recs, cs[i])
  {
    seq(|cs|, i requires 0 <= i < |cs| => LastMatch(recs, cs[i]))
  }

  /** One group per include condition, over the same records. */
  function IncludeGroups(recs: seq<Record>, cs: seq<Condition>, decode: string -> string): (r: seq<seq<Record>>)
    ensures |r| == |cs|
    ensures forall i :: 0 <= i < |cs| ==> r[i] == Group(recs, cs[i], decode)
  {
    seq(|cs|, i requires 0 <= i < |cs| => Group(recs, cs[i], decode))
  }

  /** array_filter on the equal results: the empty records leave. */
  function NonEmptyRecords(rs: seq<Record>): seq<Record>
  {
    Filter(rs, (r: Record) => r != map[])
  }

  /** array_filter on the exclude snapshots: the empty arrays leave. */
  function NonEmptySnapshots(ss: seq<Array<Record>>): seq<Array<Record>>
  {
    Filter(ss, (a: Array<Record>) => a.entries != [])
  }

  /** array_filter on the include groups: the empty groups leave. */
  function NonEmptyGroups(gs: seq<seq<Record>>): seq<seq<Record>>
  {
    Filter(gs, (g: seq<Record>) => g != [])
  }

  /** `where`: the equal results over the loaded records, then the excludes
      (which clear any equal results), then the groups over what the
      excludes left. A container whose condition list is empty is left as
      it was, and array_filter drops the empty results of the others. */
  function Where(q: Query, res: Results, decode: string -> string): Results
  {
    var equaled := if q.equals == [] then res.equaled
      else NonEmptyRecords(EqualResults(Values(res.records), q.equals));
    var records := RemoveAll(res.records, q.excludes);
    var excluded := if q.excludes == [] then res.excluded
      else NonEmptySnapshots(Snapshots(res.records, q.excludes));
    var included := if q.includes == [] then res.included
      else NonEmptyGroups(IncludeGroups(Values(records), q.includes, decode));
    Results(records, if q.excludes == [] then equaled else [], excluded, included)
  }

  /** After `where`, no record left matches an exclude condition, and the
      records no exclude condition matches all stay, in order and under
      their keys. */
  lemma WhereExcludes(q: Query, res: Results, decode: string -> string)
    ensures Where(q, res, decode).records.entries == Filter(res.records.entries, (e: Entry<Record>) => KeptByAll(e, q.excludes))
    ensures forall c, x :: c in q.excludes && x in Values(Where(q, res, decode).records) ==> !Matches(x, c)
  {
    RemoveAllSurvivors(res.records, q.excludes);
    var r := Where(q, res, decode).records;
    forall c, x | c in q.excludes && x in Values(r) ensures !Matches(x, c) {
      var i :| 0 <= i < |r.entries| && Values(r)[i] == x;
      assert r.entries[i] in r.entries;
    }
  }

  /** At most one equal result per equal condition, each the last record
      matching one of them, and none at all once an exclude condition exists. */
  lemma WhereEqualed(q: Query, res: Results, decode: string -> string)
    requires q.equals != []
    ensures q.excludes != [] ==> Where(q, res, decode).equaled == []
    ensures |Where(q, res, decode).equaled| <= |q.equals|
    ensures forall x :: x in Where(q, res, decode).equaled ==>
      x != map[] && exists i :: 0 <= i < |q.equals| && x == LastMatch(Values(res.records), q.equals[i])
  {
    var rs := EqualResults(Values(res.records), q.equals);
    forall x | x in Where(q, res, decode).equaled
      ensures x != map[] && exists i :: 0 <= i < |q.equals| && x == LastMatch(Values(res.records), q.equals[i])
    {
      assert x in rs;
      var i :| 0 <= i < |rs| && rs[i] == x;
    }
  }

  /** Every include group is non-empty and is the group of one include
      condition over the records the excludes left; at most one per condition. */
  lemma WhereIncluded(q: Query, res: Results, decode: string -> string)
    requires q.includes != []
    ensures |Where(q, res, decode).included| <= |q.includes|
    ensures forall g :: g in Where(q, res, decode).included ==>
      g != [] && exists i :: 0 <= i < |q.includes| && g == Group(Values(Where(q, res, decode).records), q.includes[i], decode)
  {
    var recs := Values(Where(q, res, decode).records);
    var gs := IncludeGroups(recs, q.includes, decode);
    forall g | g in Where(q, res, decode).included
      ensures g != [] && exists i :: 0 <= i < |q.includes| && g == Group(recs, q.includes[i], decode)
    {
      assert g in gs;
      var i :| 0 <= i < |gs| && gs[i] == g;
    }
  }

  /** Every exclude snapshot is non-empty and is `records` after one of the
      exclude conditions; the last condition's snapshot is what is left. */
  lemma WhereExcluded(q: Query, res: Results, decode: string -> string)
    requires q.excludes != []
    ensures |Where(q, res, decode).excluded| <= |q.excludes|
    ensures forall s :: s in Where(q, res, decode).excluded ==> s.entries != [] && s in Snapshots(res.records, q.excludes)
    ensures Where(q, res, decode).records == Snapshots(res.records, q.excludes)[|q.excludes| - 1]
  {
  }

  /** `rowCount`: the number of records when nothing was equaled or
      included, otherwise the equal results plus the include groups. */
  function RowCount(res: Results): (n: nat)
    ensures res.equaled == [] && res.included == [] ==> n == Count(res.records)
    ensures res.equaled != [] || res.included != [] ==> n == |res.equaled| + |res.included|
  {
    if res.equaled == [] && res.included == [] then Count(res.records)
    else |res.equaled| + |res.included|
  }

  /** With every equal condition matching some record, no exclude condition,
      and every include condition matching some record after the excludes,
      `rowCount` is the number of equal conditions plus the number of include
      conditions: include groups count once each, whatever their size. */
  lemma RowCountOfMatches(q: Query, res: Results, decode: string -> string)
    requires q.equals != [] && q.excludes == []
    requires forall c :: c in q.equals ==> exists x :: x in Values(res.records) && Matches(x, c)
    requires forall c :: c in q.includes ==> exists x :: x in Values(res.records) && IncludeMatches(x, c, decode)
    ensures RowCount(Where(q, res, decode)) == |q.equals| + (if q.includes == [] then |res.included| else |q.includes|)
  {
    var recs := Values(res.records);
    assert RemoveAll(res.records, q.excludes) == res.records;
    EqualResultsKept(recs, q.equals);
    if q.includes != [] {
      IncludeGroupsKept(recs, q.includes, decode);
    }
  }

  /** Equal conditions that all match some record all leave a result. */
  lemma EqualResultsKept(recs: seq<Record>, cs: seq<Condition>)
    requires forall c :: c in cs ==> exists x :: x in recs && Matches(x, c)
    ensures NonEmptyRecords(EqualResults(recs, cs)) == EqualResults(recs, cs)
  {
    var rs := EqualResults(recs, cs);
    forall r | r in rs ensures r != map[] {
      var i :| 0 <= i < |rs| && rs[i] == r;
      assert cs[i] in cs;
    }
    FilterAll(rs, (r: Record) => r != map[]);
  }

  /** Include conditions that all match some record all leave a group. */
  lemma IncludeGroupsKept(recs: seq<Record>, cs: seq<Condition>, decode: string -> string)
    requires forall c :: c in cs ==> exists x :: x in recs && IncludeMatches(x, c, decode)
    ensures NonEmptyGroups(IncludeGroups(recs, cs, decode)) == IncludeGroups(recs, cs, decode)
  {
    var gs := IncludeGroups(recs, cs, decode);
    forall g | g in gs ensures g != [] {
      var i :| 0 <= i < |gs| && gs[i] == g;
      assert cs[i] in cs;
    }
    FilterAll(gs, (g: seq<Record>) => g != []);
  }

  /** The codes `fetch` accepts. */
  const FetchAll := 0
  const FetchEqual := 1
  const FetchInclude := 2
  const FetchExclude := 3

  /** One element of a `fetch` result: an equal result, an include group or an exclude snapshot. */
  datatype Item = RecordItem(record: Record) | GroupItem(group: seq<Record>) | SnapshotItem(snapshot: Array<Record>)

  /** `fetch($type)`: the container the code names, all three concatenated
      for FetchAll (array_merge renumbers them), nothing for other codes. */
  function Fetch(res: Results, kind: int): (r: seq<Item>)
    ensures kind == FetchAll ==> |r| == |res.equaled| + |res.included| + |res.excluded|
    ensures kind == FetchAll ==> forall i :: 0 <= i < |res.equaled| ==> r[i] == RecordItem(res.equaled[i])
    ensures kind == FetchAll ==> forall i :: 0 <= i < |res.included| ==> r[|res.equaled| + i] == GroupItem(res.included[i])
    ensures kind == FetchAll ==> forall i :: 0 <= i < |res.excluded| ==>
                                   r[|res.equaled| + |res.included| + i] == SnapshotItem(res.excluded[i])
    ensures kind == FetchEqual ==> |r| == |res.equaled| && forall i :: 0 <= i < |r| ==> r[i] == RecordItem(res.equaled[i])
    ensures kind == FetchInclude ==> |r| == |res.included| && forall i :: 0 <= i < |r| ==> r[i] == GroupItem(res.included[i])
    ensures kind == FetchExclude ==> |r| == |res.excluded| && forall i :: 0 <= i < |r| ==> r[i] == SnapshotItem(res.excluded[i])
    ensures kind !in {FetchAll, FetchEqual, FetchInclude, FetchExclude} ==> r == []
  {
    var equalItems := seq(|res.equaled|, i requires 0 <= i < |res.equaled| => RecordItem(res.equaled[i]));
    var groupItems := seq(|res.included|, i requires 0 <= i < |res.included| => GroupItem(res.included[i]));
    var snapshotItems := seq(|res.excluded|, i requires 0 <= i < |res.excluded| => SnapshotItem(res.excluded[i]));
    if kind == FetchAll then equalItems + groupItems + snapshotItems
    else if kind == FetchEqual then equalItems
    else if kind == FetchInclude then groupItems
    else if kind == FetchExclude then snapshotItems
    else []
  }

  /** `where` assembled from its three parts. */
  lemma WhereParts(q: Query, res: Results, decode: string -> string, r: Results)
    requires r.equaled == if q.excludes != [] then []
      else if q.equals == [] then res.equaled else NonEmptyRecords(EqualResults(Values(res.records), q.equals))
    requires r.records == RemoveAll(res.records, q.excludes)
    requires r.excluded == if q.excludes == [] then res.excluded else NonEmptySnapshots(Snapshots(res.records, q.excludes))
    requires r.included == if q.includes == [] then res.included
      else NonEmptyGroups(IncludeGroups(Values(r.records), q.includes, decode))
    ensures r == Where(q, res, decode)
  {
  }
}
