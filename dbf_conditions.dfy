/** Parsing of the query strings given to `select`, `equal`, `exclude` and
    `include` of the query engine (src/Dbf.php). */
module DbfConditions {
  import opened Seqs

  /** One `field = value` fragment of an equal, exclude or include query. */
  datatype Condition = Condition(field: string, value: string)

  /** What PHP's trim() strips by default: space, tab, newline, carriage return, NUL, vertical tab. */
  const Whitespace: set<char> := {' ', '\t', '\n', '\r', 0 as char, 11 as char}

  /** What the value of a fragment is stripped of: trim($v, ' ='). */
  const ValuePadding: set<char> := {' ', '='}

  /** PHP's empty() on a string: only "" and "0" are empty. */
  predicate IsPhpEmpty(s: string)
  {
    s == "" || s == "0"
  }

  /** The condition of one fragment: the trimmed text before the first '=' is
      the field, the text from that '=' on, stripped of spaces and '=' at both
      ends, is the value. */
  function FragmentCondition(fragment: string): (c: Condition)
    requires '=' in fragment
    ensures '=' !in c.field
    ensures Trimmed(c.field, Whitespace)
    ensures Trimmed(c.value, ValuePadding)
  {
    var i := FirstIndex(fragment, '=');
    FirstIndexSpec(fragment, '=');
    Condition(Trim(fragment[..i], Whitespace), Trim(fragment[i..], ValuePadding))
  }

  /** A fragment `field = value`, with any padding PHP trims around its parts,
      parses back to that field and value. */
  lemma FragmentRoundTrip(lead: string, field: string, gap: string, pad: string, value: string, tail: string)
    requires forall c :: c in lead ==> c in Whitespace
    requires forall c :: c in gap ==> c in Whitespace
    requires forall c :: c in pad ==> c in ValuePadding
    requires forall c :: c in tail ==> c in ValuePadding
    requires '=' !in field && Trimmed(field, Whitespace)
    requires Trimmed(value, ValuePadding)
    ensures FragmentCondition(lead + field + gap + "=" + pad + value + tail) == Condition(field, value)
  {
    var before := lead + field + gap;
    var after := pad + value + tail;
    assert lead + field + gap + "=" + pad + value + tail == before + "=" + after;
    FragmentSplitsAt(before, after);
    TrimPadded(lead, field, gap, Whitespace);
    ValuePaddingTrimmed(pad, value, tail);
  }

  lemma FragmentSplitsAt(before: string, after: string)
    requires '=' !in before
    ensures FragmentCondition(before + "=" + after) == Condition(Trim(before, Whitespace), Trim("=" + after, ValuePadding))
  {
    var fragment := before + "=" + after;
    FirstIndexAfter(before, '=', after);
    assert fragment[..|before|] == before;
    assert fragment[|before|..] == "=" + after;
  }

  lemma ValuePaddingTrimmed(pad: string, value: string, tail: string)
    requires forall c :: c in pad ==> c in ValuePadding
    requires forall c :: c in tail ==> c in ValuePadding
    requires Trimmed(value, ValuePadding)
    ensures Trim("=" + (pad + value + tail), ValuePadding) == value
  {
    var valuePre := "=" + pad;
    assert forall c :: c in valuePre ==> c in ValuePadding;
    assert "=" + (pad + value + tail) == valuePre + value + tail;
    TrimPadded(valuePre, value, tail, ValuePadding);
  }

  /** The fragments of a query: explode(',', $query), none for an empty query. */
  function Fragments(query: string): seq<string>
  {
    if IsPhpEmpty(query) then [] else Split(query, ',')
  }

  /** A query every fragment of which holds an '='. PHP raises a TypeError for
      a fragment without one (strstr gives false, and trim(false) is refused
      under strict types). */
  predicate WellFormedQuery(query: string)
  {
    forall f :: f in Fragments(query) ==> '=' in f
  }

  /** The conditions of the leading fragments that hold an '=': what has been
      appended when the first fragment without one raises. */
  function ParsedPrefix(fragments: seq<string>): (cs: seq<Condition>)
    ensures |cs| <= |fragments|
  {
    if fragments == [] || '=' !in fragments[0] then []
    else [FragmentCondition(fragments[0])] + ParsedPrefix(fragments[1..])
  }

  /** The parsed prefix holds one condition per leading fragment with an '=',
      and stops at the first fragment without one. */
  lemma {:induction false} ParsedPrefixSpec(fragments: seq<string>)
    ensures forall i :: 0 <= i < |ParsedPrefix(fragments)| ==>
      '=' in fragments[i] && ParsedPrefix(fragments)[i] == FragmentCondition(fragments[i])
    ensures |ParsedPrefix(fragments)| < |fragments| ==> '=' !in fragments[|ParsedPrefix(fragments)|]
  {
    if fragments != [] && '=' in fragments[0] {
      var rest := ParsedPrefix(fragments[1..]);
      ParsedPrefixSpec(fragments[1..]);
      var cs := ParsedPrefix(fragments);
      assert cs == [FragmentCondition(fragments[0])] + rest;
      forall i | 0 <= i < |cs|
        ensures '=' in fragments[i] && cs[i] == FragmentCondition(fragments[i])
      {
        if i > 0 {
          assert fragments[1..][i - 1] == fragments[i];
        }
      }
      if |cs| < |fragments| {
        assert fragments[1..][|rest|] == fragments[|cs|];
      }
    }
  }

  /** The conditions a query appends, in fragment order. */
  function QueryConditions(query: string): (cs: seq<Condition>)
    ensures |cs| <= |Fragments(query)|
    ensures WellFormedQuery(query) <==> |cs| == |Fragments(query)|
    ensures forall i :: 0 <= i < |cs| ==> '=' in Fragments(query)[i] && cs[i] == FragmentCondition(Fragments(query)[i])
  {
    ParsedPrefixSpec(Fragments(query));
    ParsedPrefix(Fragments(query))
  }

  /** The loop shared by equal(), exclude() and include(): one condition per
      fragment, appended in order; `ok` is false where PHP raises. */
  method AppendConditions(conds: seq<Condition>, query: string) returns (ok: bool, result: seq<Condition>)
    ensures ok <==> WellFormedQuery(query)
    ensures result == conds + QueryConditions(query)
  {
    result := conds;
    if IsPhpEmpty(query) {
      return true, result;
    }
    var fragments := Split(query, ',');
    var i := 0;
    while i < |fragments|
      invariant 0 <= i <= |fragments|
      invariant forall j :: 0 <= j < i ==> '=' in fragments[j]
      invariant result == conds + ParsedPrefix(fragments[..i])
    {
      if '=' !in fragments[i] {
        ParsedPrefixStops(fragments, i);
        assert fragments[i] in Fragments(query);
        return false, result;
      }
      ParsedPrefixExtends(fragments, i);
      result := result + [FragmentCondition(fragments[i])];
      i := i + 1;
    }
    assert fragments[..i] == fragments;
    ok := true;
  }

  /** Parsing one more fragment with an '=' appends its condition. */
  lemma ParsedPrefixExtends(fragments: seq<string>, n: nat)
    requires n < |fragments|
    requires forall j :: 0 <= j <= n ==> '=' in fragments[j]
    ensures ParsedPrefix(fragments[..n + 1]) == ParsedPrefix(fragments[..n]) + [FragmentCondition(fragments[n])]
  {
    var longer := fragments[..n + 1];
    var shorter := fragments[..n];
    ParsedPrefixLength(longer, n + 1);
    ParsedPrefixLength(shorter, n);
    ParsedPrefixSpec(longer);
    ParsedPrefixSpec(shorter);
    var expected := ParsedPrefix(shorter) + [FragmentCondition(fragments[n])];
    forall i | 0 <= i <= n ensures ParsedPrefix(longer)[i] == expected[i] {
      if i < n {
        assert longer[i] == shorter[i];
      }
    }
  }

  /** Parsing stops at the first fragment without an '='. */
  lemma {:induction false} ParsedPrefixStops(fragments: seq<string>, n: nat)
    requires n < |fragments|
    requires forall j :: 0 <= j < n ==> '=' in fragments[j]
    requires '=' !in fragments[n]
    ensures ParsedPrefix(fragments) == ParsedPrefix(fragments[..n])
    decreases n
  {
    if n > 0 {
      ParsedPrefixStops(fragments[1..], n - 1);
      assert fragments[..n][1..] == fragments[1..][..n - 1];
    }
  }

  lemma ParsedPrefixLength(fragments: seq<string>, n: nat)
    requires n <= |fragments|
    requires forall j :: 0 <= j < n ==> '=' in fragments[j]
    requires n < |fragments| ==> '=' !in fragments[n]
    ensures |ParsedPrefix(fragments)| == n
  {
    ParsedPrefixSpec(fragments);
  }

  /** Conditions written as fragments with an '=' and joined by commas parse
      back to one condition per fragment. */
  lemma QueryRoundTrip(fragments: seq<string>)
    requires |fragments| >= 1
    requires forall f :: f in fragments ==> ',' !in f && '=' in f
    ensures WellFormedQuery(Join(fragments, ','))
    ensures |QueryConditions(Join(fragments, ','))| == |fragments|
    ensures forall i :: 0 <= i < |fragments| ==> QueryConditions(Join(fragments, ','))[i] == FragmentCondition(fragments[i])
  {
    var query := Join(fragments, ',');
    assert '=' in fragments[0];
    JoinStartsWith(fragments, ',');
    assert query[..|fragments[0]|] == fragments[0];
    assert !IsPhpEmpty(query);
    SplitJoin(fragments, ',');
    assert Fragments(query) == fragments;
    ParsedPrefixLength(fragments, |fragments|);
    ParsedPrefixSpec(fragments);
  }

  /** The field names of a comma-separated list given to select(), each trimmed. */
  function FieldList(list: string): (fields: seq<string>)
    ensures |fields| == |Split(list, ',')|
    ensures forall i :: 0 <= i < |fields| ==> fields[i] == Trim(Split(list, ',')[i], Whitespace)
    ensures forall f :: f in fields ==> ',' !in f && Trimmed(f, Whitespace)
  {
    var parts := Split(list, ',');
    SplitPieces(list, ',');
    seq(|parts|, i requires 0 <= i < |parts| => Trim(parts[i], Whitespace))
  }

  /** The selection after select($field): unchanged for an empty argument,
      replaced by the trimmed list when it holds a comma, and otherwise
      extended by the argument as given. */
  function SelectFields(fields: seq<string>, field: string): seq<string>
  {
    if IsPhpEmpty(field) then fields
    else if ',' in field then FieldList(field)
    else fields + [field]
  }
}
