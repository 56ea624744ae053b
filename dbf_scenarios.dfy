/** Uses of the query engine that the library's own tests make, stated for
    every input of the shape the tests use. */
module DbfScenarios {
  import opened Seqs
  import opened PhpArray
  import opened DbfConditions
  import opened DbfRecords
  import opened DbfEngine

  /** A name as the tests write it: not empty, no comma, nothing to trim. */
  predicate PlainName(s: string)
  {
    s != [] && ',' !in s && Trimmed(s, Whitespace)
  }

  /** `select('A, B')->select('C')`, as in `select('STRSTATID, NAME')->select('SHORTNAME')`:
      three fields, B second. */
  method SelectListThenName(a: string, b: string, c: string) returns (fields: seq<string>)
    requires PlainName(a) && PlainName(b) && PlainName(c) && c != "0"
    ensures fields == [a, b, c]
  {
    var dbf := new Dbf();
    dbf.Select(a + ", " + b);
    ListOfTwo(a, b);
    dbf.Select(c);
    fields := dbf.fields;
  }

  /** The list "A, B" selects A and B. */
  lemma ListOfTwo(a: string, b: string)
    requires PlainName(a) && PlainName(b)
    ensures ',' in a + ", " + b && !IsPhpEmpty(a + ", " + b)
    ensures FieldList(a + ", " + b) == [a, b]
  {
    ListPieces(a, b);
    TrimPlain(a);
    TrimPlain(b);
    FieldListOfPieces(a + ", " + b, a, " " + b);
  }

  /** The list "A, B" splits into A and " B". */
  lemma ListPieces(a: string, b: string)
    requires ',' !in a && ',' !in b
    ensures ',' in a + ", " + b && !IsPhpEmpty(a + ", " + b)
    ensures Split(a + ", " + b, ',') == [a, " " + b]
  {
    var list := a + ", " + b;
    var spaced := " " + b;
    assert list == a + "," + spaced;
    assert list[|a|] == ',' && |list| >= 2;
    assert ',' !in spaced by {
      assert forall i :: 1 <= i < |spaced| ==> spaced[i] == b[i - 1];
    }
    SplitTwo(a, spaced);
  }

  /** The field list of a list that splits into two pieces: both, trimmed. */
  lemma FieldListOfPieces(list: string, p: string, q: string)
    requires Split(list, ',') == [p, q]
    ensures FieldList(list) == [Trim(p, Whitespace), Trim(q, Whitespace)]
  {
  }

  /** Two pieces without commas, joined by one, split back into them. */
  lemma SplitTwo(a: string, b: string)
    requires ',' !in a && ',' !in b
    ensures Split(a + "," + b, ',') == [a, b]
  {
    var parts := [a, b];
    assert Join(parts[1..], ',') == b;
    assert Join(parts, ',') == a + "," + b;
    SplitJoin(parts, ',');
  }

  /** Trimming a plain name, with or without a space in front, gives the name. */
  lemma TrimPlain(a: string)
    requires PlainName(a)
    ensures Trim(a, Whitespace) == a && Trim(" " + a, Whitespace) == a
  {
    assert a == [] + a + [];
    TrimPadded([], a, [], Whitespace);
    assert " " + a == " " + a + [];
    TrimPadded(" ", a, [], Whitespace);
  }

  /** A condition as the tests write it: a plain field and a plain value. */
  predicate PlainCondition(c: Condition)
  {
    PlainName(c.field) && '=' !in c.field && c.value != [] && ',' !in c.value && Trimmed(c.value, ValuePadding)
  }

  /** The fragment the tests write for a condition: "FIELD = value". */
  function Written(c: Condition): string
  {
    c.field + " = " + c.value
  }

  /** `equal('F = v, G = w')`, as in `equal('STRSTATID = 2, NAME = Литер')`:
      the two conditions, in order. */
  lemma TwoConditions(c: Condition, d: Condition)
    requires PlainCondition(c) && PlainCondition(d)
    ensures WellFormedQuery(Written(c) + ", " + Written(d))
    ensures QueryConditions(Written(c) + ", " + Written(d)) == [c, d]
  {
    var first := Written(c);
    var second := " " + Written(d);
    WrittenParses(c, []);
    WrittenParses(d, " ");
    assert [] + first == first;
    TwoFragments(first, second, c, d);
    JoinedWithSpace(first, Written(d));
  }

  /** Two fragments joined by a comma parse into their two conditions. */
  lemma TwoFragments(first: string, second: string, c: Condition, d: Condition)
    requires '=' in first && ',' !in first && FragmentCondition(first) == c
    requires '=' in second && ',' !in second && FragmentCondition(second) == d
    ensures WellFormedQuery(first + [','] + second)
    ensures QueryConditions(first + [','] + second) == [c, d]
  {
    var fragments := [first, second];
    assert Join(fragments[1..], ',') == second;
    assert Join(fragments, ',') == first + [','] + second;
    QueryRoundTrip(fragments);
  }

  lemma JoinedWithSpace(a: string, b: string)
    ensures a + [','] + (" " + b) == a + ", " + b
  {
    assert a + [','] + (" " + b) == a + ([','] + " ") + b;
  }

  /** A written condition, with or without a space in front, parses back to the condition. */
  lemma WrittenParses(c: Condition, lead: string)
    requires PlainCondition(c) && (lead == [] || lead == " ")
    ensures '=' in lead + Written(c) && ',' !in lead + Written(c)
    ensures FragmentCondition(lead + Written(c)) == c
  {
    var fragment := lead + Written(c);
    WrittenShape(c, lead);
    assert fragment == lead + c.field + " " + "=" + " " + c.value + [];
    FragmentRoundTrip(lead, c.field, " ", " ", c.value, []);
  }

  lemma WrittenShape(c: Condition, lead: string)
    requires PlainCondition(c) && (lead == [] || lead == " ")
    ensures '=' in lead + Written(c) && ',' !in lead + Written(c)
  {
    var fragment := lead + Written(c);
    assert fragment == lead + c.field + " = " + c.value;
    assert fragment[|lead| + |c.field| + 1] == '=';
  }

  /** `from(T)->exect()->numRows()` on a new engine, as the tests run it with
      nothing selected: every row of the table is loaded, when the table's
      first row has columns. */
  method CountRows(tables: map<string, seq<Row>>, name: string, encode: string -> string, decode: string -> string)
    returns (ok: bool, count: nat)
    requires !IsPhpEmpty(name)
    ensures ok == (name in tables)
    ensures ok && (tables[name] == [] || Names(tables[name][0]) != []) ==> count == |tables[name]|
  {
    var dbf := new Dbf();
    dbf.From(name);
    ok := dbf.Exect(tables, encode, decode);
    count := Count(dbf.records);
    if ok {
      var rows := tables[name];
      if rows == [] || Names(rows[0]) != [] {
        FreshCount(rows, encode);
        assert dbf.records == ParseRows(Loaded([], Empty()), rows, encode).records;
      }
    }
  }

  /** Loading a table into a new engine with nothing selected gives one
      record per row, when the first row has columns. */
  lemma FreshCount(rows: seq<Row>, encode: string -> string)
    requires rows == [] || Names(rows[0]) != []
    ensures Count(ParseRows(Loaded([], Empty()), rows, encode).records) == |rows|
  {
    if rows != [] {
      ParseEmptySelection(rows, encode);
      ParseFresh(Names(rows[0]), rows, encode);
      assert |Keys(ParseRows(Loaded(Names(rows[0]), Empty()), rows, encode).records)| == |OneTo(|rows|)|;
    }
  }

  /** One exclude condition that some records match and some do not, on an
      engine with no equal or include results, as in the exclude test:
      `fetch(FETCH_EXCLUDE)` holds one snapshot, and `rowCount` drops. */
  lemma OneExclude(res: Results, c: Condition, decode: string -> string)
    requires res.equaled == [] && res.included == []
    requires exists x :: x in Values(res.records) && Matches(x, c)
    requires exists y :: y in Values(res.records) && !Matches(y, c)
    ensures |Fetch(Where(Query([], [c], []), res, decode), FetchExclude)| == 1
    ensures RowCount(Where(Query([], [c], []), res, decode)) < RowCount(res)
  {
    var q := Query([], [c], []);
    var left := RemoveMatching(res.records, c);
    assert [c][..0] == [];
    assert Snapshots(res.records, [c]) == [left];
    ExcludeKeeps(res.records, c);
    var y :| y in Values(res.records) && !Matches(y, c);
    var i :| 0 <= i < |res.records.entries| && Values(res.records)[i] == y;
    assert res.records.entries[i] in res.records.entries;
    assert left.entries != [];
    assert [left][..0] == [];
    assert NonEmptySnapshots([left]) == [left];
  }
}
