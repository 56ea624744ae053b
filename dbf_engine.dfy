/** The query engine of src/Dbf.php: a builder that collects a selection, a
    table and conditions, loads the table's rows into `records` and fills
    the three result containers. */
module DbfEngine {
  import opened Seqs
  import opened PhpArray
  import opened DbfConditions
  import opened DbfRecords

  class Dbf {
    var table: string
    var fields: seq<string>
    var records: Array<Record>
    var equals: seq<Condition>
    var excludes: seq<Condition>
    var includes: seq<Condition>
    var equaled: seq<Record>
    var included: seq<seq<Record>>
    var excluded: seq<Array<Record>>

    /** `records` is a well-formed PHP array. */
    ghost predicate Valid()
      reads this`records
    {
      PhpArray.Valid(records)
    }

    /** The conditions collected so far. */
    function Conditions(): Query
      reads this`equals, this`excludes, this`includes
    {
      Query(equals, excludes, includes)
    }

    /** The records and the result containers that `fetch`, `fetchAll`,
        `rowCount` and `numRows` read. */
    function State(): Results
      reads this`records, this`equaled, this`excluded, this`included
    {
      Results(records, equaled, excluded, included)
    }

    constructor ()
      ensures Valid()
      ensures table == "" && fields == [] && records == Empty()
      ensures equals == [] && excludes == [] && includes == []
      ensures equaled == [] && included == [] && excluded == []
    {
      table := "";
      fields := [];
      records := Empty();
      equals := [];
      excludes := [];
      includes := [];
      equaled := [];
      included := [];
      excluded := [];
    }

    /** `select`: a list with a comma replaces the selection with its trimmed
        pieces, a single name is appended, an empty argument changes nothing. */
    method Select(field: string)
      modifies this`fields
      ensures fields == SelectFields(old(fields), field)
    {
      if !IsPhpEmpty(field) {
        if ',' in field {
          fields := FieldList(field);
        } else {
          fields := fields + [field];
        }
      }
    }

    /** `from`: an empty name keeps the table, any other replaces it. */
    method From(name: string)
      modifies this`table
      ensures table == if IsPhpEmpty(name) then old(table) else name
    {
      if !IsPhpEmpty(name) {
        table := name;
      }
    }

    /** `equal`: appends the query's conditions; `ok` is false where PHP raises. */
    method Equal(query: string) returns (ok: bool)
      modifies this`equals
      ensures ok == WellFormedQuery(query)
      ensures equals == old(equals) + QueryConditions(query)
    {
      ok, equals := AppendConditions(equals, query);
    }

    /** `exclude`: appends the query's conditions; `ok` is false where PHP raises. */
    method Exclude(query: string) returns (ok: bool)
      modifies this`excludes
      ensures ok == WellFormedQuery(query)
      ensures excludes == old(excludes) + QueryConditions(query)
    {
      ok, excludes := AppendConditions(excludes, query);
    }

    /** `include`: appends the query's conditions; `ok` is false where PHP raises. */
    method Include(query: string) returns (ok: bool)
      modifies this`includes
      ensures ok == WellFormedQuery(query)
      ensures includes == old(includes) + QueryConditions(query)
    {
      ok, includes := AppendConditions(includes, query);
    }

    /** `parse`: loads the rows of the table, the i-th under key i. */
    method Parse(rows: seq<Row>, encode: string -> string)
      requires Valid()
      modifies this`fields, this`records
      ensures Valid()
      ensures Loaded(fields, records) == ParseRows(Loaded(old(fields), old(records)), rows, encode)
    {
      ghost var start := Loaded(fields, records);
      var i := 0;
      while i < |rows|
        invariant 0 <= i <= |rows|
        invariant Valid()
        invariant Loaded(fields, records) == ParseRows(start, rows[..i], encode)
      {
        var row := rows[i];
        var index := i + 1;
        ghost var before := Loaded(fields, records);
        if fields == [] {
          fields := Names(row);
        }
        if fields != [] {
          var base := if index in Keys(records) then Get(records, index) else map[];
          var rec := FillRecord(base, fields, row, encode);
          records := Set(records, index, rec);
        } else {
          records := Push(records, RawRecord(row));
        }
        ParseRowsStep(start, rows, i, encode);
        i := i + 1;
      }
      assert rows[..i] == rows;
    }

    /** The inner loop of `parse`: each selected field of the record set from the row. */
    static method FillRecord(base: Record, fields: seq<string>, row: Row, encode: string -> string) returns (rec: Record)
      ensures rec == Fill(base, fields, row, encode)
    {
      rec := base;
      var j := 0;
      while j < |fields|
        invariant 0 <= j <= |fields|
        invariant rec == Fill(base, fields[..j], row, encode)
      {
        FillStep(base, fields, j, row, encode);
        rec := rec[fields[j] := encode(Lookup(row, fields[j]))];
        j := j + 1;
      }
      assert fields[..j] == fields;
    }

    /** `getEqualed`: the last record matching the condition, or the empty record. */
    method GetEqualed(c: Condition) returns (r: Record)
      ensures r == LastMatch(Values(records), c)
    {
      var values := Values(records);
      r := map[];
      var i := 0;
      while i < |values|
        invariant 0 <= i <= |values|
        invariant r == LastMatch(values[..i], c)
      {
        var v := values[i];
        LastMatchStep(values, i, c);
        if c.field in v && v[c.field] == c.value {
          r := v;
        }
        i := i + 1;
      }
      assert values[..i] == values;
    }

    /** `getExcluded`: unsets every record matching the condition, visiting
        the records as they were when it started, and returns what is left. */
    method GetExcluded(c: Condition) returns (left: Array<Record>)
      requires Valid()
      modifies this`records
      ensures Valid()
      ensures records == RemoveMatching(old(records), c)
      ensures left == records
    {
      var copy := records;
      var i := 0;
      assert copy.entries[..0] == [];
      while i < |copy.entries|
        invariant 0 <= i <= |copy.entries|
        invariant records == Array(KeptEntries(copy.entries[..i], c) + copy.entries[i..], copy.nextFree)
      {
        var e := copy.entries[i];
        ExcludeStep(copy, c, i, records);
        if c.field in e.value && e.value[c.field] == c.value {
          records := Unset(records, e.key);
        }
        i := i + 1;
      }
      assert copy.entries[..i] == copy.entries && copy.entries[i..] == [];
      assert records == RemoveMatching(copy, c);
      left := records;
    }

    /** `getIncluded`: the records whose field starts with the pattern,
        ignoring ASCII case, in order. */
    method GetIncluded(c: Condition, decode: string -> string) returns (g: seq<Record>)
      requires RegexLiteral(Pattern(c, decode))
      ensures g == Group(Values(records), c, decode)
    {
      var values := Values(records);
      var pattern := if c.field == "NAMEP" then decode(c.value) else c.value;
      g := [];
      var i := 0;
      assert values[..0] == [];
      while i < |values|
        invariant 0 <= i <= |values|
        invariant g == Group(values[..i], c, decode)
      {
        var v := values[i];
        GroupStep(values, i, c, decode);
        assert IncludeMatches(v, c, decode) == (c.field in v && PrefixFold(pattern, v[c.field]));
        if c.field in v && PrefixFold(pattern, v[c.field]) {
          g := g + [v];
        }
        i := i + 1;
      }
      assert values[..i] == values;
    }

    /** The first loop of `where`: one `getEqualed` result per equal condition. */
    method EqualAll() returns (results: seq<Record>)
      ensures results == EqualResults(Values(records), equals)
    {
      results := [];
      var i := 0;
      while i < |equals|
        invariant 0 <= i <= |equals|
        invariant results == EqualResults(Values(records), equals[..i])
      {
        var r := GetEqualed(equals[i]);
        results := results + [r];
        i := i + 1;
      }
      assert equals[..i] == equals;
    }

    /** The second loop of `where`: one `getExcluded` snapshot per exclude
        condition, each removing its matches from `records`. */
    method ExcludeAll() returns (snapshots: seq<Array<Record>>)
      requires Valid()
      modifies this`records
      ensures Valid()
      ensures snapshots == Snapshots(old(records), excludes)
      ensures records == RemoveAll(old(records), excludes)
    {
      snapshots := [];
      var i := 0;
      assert excludes[..0] == [];
      while i < |excludes|
        invariant 0 <= i <= |excludes|
        invariant Valid()
        invariant snapshots == Snapshots(old(records), excludes[..i])
        invariant records == RemoveAll(old(records), excludes[..i])
      {
        assert excludes[..i + 1][..i] == excludes[..i];
        var left := GetExcluded(excludes[i]);
        snapshots := snapshots + [left];
        i := i + 1;
      }
      assert excludes[..i] == excludes;
    }

    /** The third loop of `where`: one `getIncluded` group per include condition. */
    method IncludeAll(decode: string -> string) returns (groups: seq<seq<Record>>)
      requires forall c :: c in includes ==> RegexLiteral(Pattern(c, decode))
      ensures groups == IncludeGroups(Values(records), includes, decode)
    {
      groups := [];
      var i := 0;
      while i < |includes|
        invariant 0 <= i <= |includes|
        invariant groups == IncludeGroups(Values(records), includes[..i], decode)
      {
        assert includes[i] in includes;
        var g := GetIncluded(includes[i], decode);
        groups := groups + [g];
        i := i + 1;
      }
      assert includes[..i] == includes;
    }

    /** The equal block of `where`. */
    method WhereEquals()
      modifies this`equaled
      ensures equaled == if equals == [] then old(equaled) else NonEmptyRecords(EqualResults(Values(records), equals))
    {
      if equals != [] {
        var results := EqualAll();
        equaled := NonEmptyRecords(results);
      }
    }

    /** The exclude block of `where`, which also clears the equal results. */
    method WhereExcludes()
      requires Valid()
      modifies this`records, this`excluded, this`equaled
      ensures Valid()
      ensures records == RemoveAll(old(records), excludes)
      ensures excluded == if excludes == [] then old(excluded) else NonEmptySnapshots(Snapshots(old(records), excludes))
      ensures equaled == if excludes == [] then old(equaled) else []
    {
      if excludes != [] {
        var snapshots := ExcludeAll();
        excluded := NonEmptySnapshots(snapshots);
        if equaled != [] {
          equaled := [];
        }
      }
    }

    /** The include block of `where`. */
    method WhereIncludes(decode: string -> string)
      requires forall c :: c in includes ==> RegexLiteral(Pattern(c, decode))
      modifies this`included
      ensures included == if includes == [] then old(included) else NonEmptyGroups(IncludeGroups(Values(records), includes, decode))
    {
      if includes != [] {
        var groups := IncludeAll(decode);
        included := NonEmptyGroups(groups);
      }
    }

    /** `where`: computes the result containers from the conditions. */
    method Where(decode: string -> string)
      requires Valid()
      requires forall c :: c in includes ==> RegexLiteral(Pattern(c, decode))
      modifies this`records, this`equaled, this`excluded, this`included
      ensures Valid()
      ensures State() == DbfRecords.Where(Conditions(), old(State()), decode)
    {
      WhereEquals();
      WhereExcludes();
      WhereIncludes(decode);
      WhereParts(Conditions(), old(State()), decode, State());
    }

    /** `exect`: `parse` on the named table, then `where`. The table is
        looked up among `tables`; `ok` is false, and nothing changes, when
        it is missing (opening it raises). */
    method Exect(tables: map<string, seq<Row>>, encode: string -> string, decode: string -> string) returns (ok: bool)
      requires Valid()
      requires forall c :: c in includes ==> RegexLiteral(Pattern(c, decode))
      modifies this`fields, this`records, this`equaled, this`excluded, this`included
      ensures Valid()
      ensures ok == (table in tables)
      ensures !ok ==> fields == old(fields) && State() == old(State())
      ensures ok ==>
        var loaded := ParseRows(Loaded(old(fields), old(records)), tables[table], encode);
        && fields == loaded.fields
        && State() == DbfRecords.Where(Conditions(), Results(loaded.records, old(equaled), old(excluded), old(included)), decode)
    {
      if table !in tables {
        return false;
      }
      Parse(tables[table], encode);
      Where(decode);
      ok := true;
    }
  }
}
