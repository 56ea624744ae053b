/** Sequence operations that the PHP built-ins used by the library
    (array_filter, strstr, strrchr, trim, explode) are modelled with. */
module Seqs {

  /** The elements of `s` that satisfy `p`, in their order in `s`. */
  function Filter<T>(s: seq<T>, p: T -> bool): (r: seq<T>)
    ensures |r| <= |s|
    ensures forall x :: x in r ==> x in s && p(x)
    ensures forall x :: x in s && p(x) ==> x in r
    decreases |s|
  {
    if s == [] then []
    else Filter(s[..|s| - 1], p) + (if p(s[|s| - 1]) then [s[|s| - 1]] else [])
  }

  lemma {:induction false} FilterConcat<T>(a: seq<T>, b: seq<T>, p: T -> bool)
    ensures Filter(a + b, p) == Filter(a, p) + Filter(b, p)
    decreases |b|
  {
    if b == [] {
      assert a + b == a;
    } else {
      var b', x := b[..|b| - 1], b[|b| - 1];
      var tail := if p(x) then [x] else [];
      calc {
        Filter(a + b, p);
      == { assert a + b == (a + b') + [x]; FilterSnoc(a + b', x, p); }
        Filter(a + b', p) + tail;
      == { FilterConcat(a, b', p); }
        Filter(a, p) + Filter(b', p) + tail;
      == { assert b == b' + [x]; FilterSnoc(b', x, p); }
        Filter(a, p) + Filter(b, p);
      }
    }
  }

  /** Filtering a sequence with one more element at the end. */
  lemma FilterSnoc<T>(s: seq<T>, x: T, p: T -> bool)
    ensures Filter(s + [x], p) == Filter(s, p) + if p(x) then [x] else []
  {
    var t := s + [x];
    assert t[..|t| - 1] == s && t[|t| - 1] == x;
  }

  /** Filtering keeps everything when every element passes. */
  lemma {:induction false} FilterAll<T>(s: seq<T>, p: T -> bool)
    requires forall x :: x in s ==> p(x)
    ensures Filter(s, p) == s
  {
    forall i | 0 <= i < |s| ensures p(s[i]) {
      assert s[i] in s;
    }
    FilterAllAt(s, p);
  }

  lemma {:induction false} FilterAllAt<T>(s: seq<T>, p: T -> bool)
    requires forall i :: 0 <= i < |s| ==> p(s[i])
    ensures Filter(s, p) == s
    decreases |s|
  {
    if s != [] {
      var s', last := s[..|s| - 1], s[|s| - 1];
      assert s == s' + [last];
      assert forall i :: 0 <= i < |s'| ==> p(s'[i]) by {
        assert forall i :: 0 <= i < |s'| ==> s'[i] == s[i];
      }
      FilterAllAt(s', p);
      FilterSnoc(s', last, p);
    }
  }

  /** Filtering drops at least one element when one element fails. */
  lemma {:induction false} FilterShrinks<T>(s: seq<T>, p: T -> bool, x: T)
    requires x in s && !p(x)
    ensures |Filter(s, p)| < |s|
    decreases |s|
  {
    var s' := s[..|s| - 1];
    if s[|s| - 1] != x {
      assert x in s';
      FilterShrinks(s', p, x);
    }
  }

  /** Filtering twice is filtering once by the conjunction. */
  lemma {:induction false} FilterFilter<T>(s: seq<T>, p: T -> bool, q: T -> bool, pq: T -> bool)
    requires forall x :: pq(x) == (p(x) && q(x))
    ensures Filter(Filter(s, p), q) == Filter(s, pq)
    decreases |s|
  {
    if s != [] {
      var s' := s[..|s| - 1];
      var x := s[|s| - 1];
      var px := if p(x) then [x] else [];
      assert Filter(s, p) == Filter(s', p) + px;
      assert Filter(s, pq) == Filter(s', pq) + (if pq(x) then [x] else []);
      FilterFilter(s', p, q, pq);
      FilterConcat(Filter(s', p), px, q);
      if p(x) {
        assert [x][..0] == [];
        assert Filter([x], q) == Filter([x][..0], q) + (if q(x) then [x] else []);
      }
    }
  }

  /** Filtering out the one element that fails removes just that element. */
  lemma FilterOnly<T>(pre: seq<T>, e: T, post: seq<T>, p: T -> bool)
    requires forall x :: x in pre ==> p(x)
    requires forall x :: x in post ==> p(x)
    requires !p(e)
    ensures Filter(pre + [e] + post, p) == pre + post
  {
    FilterAll(pre, p);
    FilterAll(post, p);
    assert Filter([e], p) == [] by {
      assert [e][..0] == [];
      assert Filter([e], p) == Filter([e][..0], p);
    }
    FilterConcat(pre, [e], p);
    assert Filter(pre + [e], p) == pre;
    FilterConcat(pre + [e], post, p);
  }

  /** No two elements of `s` have the same key. */
  ghost predicate DistinctBy<T, K>(s: seq<T>, key: T -> K)
  {
    forall i, j :: 0 <= i < j < |s| ==> key(s[i]) != key(s[j])
  }

  /** Filtering a sequence whose elements have pairwise different keys keeps
      the keys pairwise different. */
  lemma {:induction false} FilterDistinct<T, K>(s: seq<T>, p: T -> bool, key: T -> K)
    requires DistinctBy(s, key)
    ensures DistinctBy(Filter(s, p), key)
    decreases |s|
  {
    if s != [] {
      var s' := s[..|s| - 1];
      var x := s[|s| - 1];
      assert DistinctBy(s', key) by {
        forall i, j | 0 <= i < j < |s'| ensures key(s'[i]) != key(s'[j]) {
          assert s'[i] == s[i] && s'[j] == s[j];
        }
      }
      FilterDistinct(s', p, key);
      var r' := Filter(s', p);
      forall y | y in r' ensures key(y) != key(x) {
        var j :| 0 <= j < |s'| && s'[j] == y;
        assert s[j] == y;
      }
      var r := Filter(s, p);
      assert r == r' + (if p(x) then [x] else []);
      forall i, j | 0 <= i < j < |r| ensures key(r[i]) != key(r[j]) {
        if j < |r'| {
          assert r[i] == r'[i] && r[j] == r'[j];
          assert key(r'[i]) != key(r'[j]);
        } else {
          assert r[i] == r'[i] && r'[i] in r';
          assert key(r'[i]) != key(x);
          assert j == |r'| && r[j] == x;
        }
      }
    }
  }

  /** Index of the first `x` in `s`, or `|s|` when there is none
      (the position `strstr` splits at). */
  function FirstIndex<T(==)>(s: seq<T>, x: T): (i: nat)
    ensures i <= |s|
    ensures i < |s| ==> s[i] == x
  {
    if s == [] then 0
    else if s[0] == x then 0
    else 1 + FirstIndex(s[1..], x)
  }

  /** Nothing before the first index is `x`, and the index is the length
      exactly when `x` does not occur. */
  lemma {:induction false} FirstIndexSpec<T>(s: seq<T>, x: T)
    ensures x !in s[..FirstIndex(s, x)]
    ensures FirstIndex(s, x) == |s| <==> x !in s
  {
    if s != [] && s[0] != x {
      var j := FirstIndex(s[1..], x);
      FirstIndexSpec(s[1..], x);
      assert s[..j + 1] == [s[0]] + s[1..][..j];
      assert s == [s[0]] + s[1..];
    }
  }

  lemma FirstIndexAt<T>(s: seq<T>, x: T, i: nat)
    requires i < |s| && s[i] == x && x !in s[..i]
    ensures FirstIndex(s, x) == i
  {
    FirstIndexSpec(s, x);
  }

  /** Index of the last `x` in `s`, or -1 when there is none (`strrchr`). */
  function LastIndex<T(==)>(s: seq<T>, x: T): (i: int)
    ensures -1 <= i < |s|
    ensures i >= 0 ==> s[i] == x
    ensures x !in s[i + 1..]
    ensures i == -1 <==> x !in s
    decreases |s|
  {
    if s == [] then -1
    else if s[|s| - 1] == x then |s| - 1
    else
      var j := LastIndex(s[..|s| - 1], x);
      assert s[j + 1..] == s[..|s| - 1][j + 1..] + [s[|s| - 1]];
      j
  }

  /** `s` without its leading elements from `cs` (PHP `ltrim`). */
  function TrimLeft<T(==)>(s: seq<T>, cs: set<T>): (r: seq<T>)
    ensures |r| <= |s| && r == s[|s| - |r|..]
    ensures forall i :: 0 <= i < |s| - |r| ==> s[i] in cs
    ensures r == [] || r[0] !in cs
  {
    if s != [] && s[0] in cs then TrimLeft(s[1..], cs) else s
  }

  /** `s` without its trailing elements from `cs` (PHP `rtrim`). */
  function TrimRight<T(==)>(s: seq<T>, cs: set<T>): (r: seq<T>)
    ensures |r| <= |s| && r == s[..|r|]
    ensures forall i :: |r| <= i < |s| ==> s[i] in cs
    ensures r == [] || r[|r| - 1] !in cs
    decreases |s|
  {
    if s != [] && s[|s| - 1] in cs then TrimRight(s[..|s| - 1], cs) else s
  }

  /** Neither the first nor the last element of `s` is in `cs`. */
  predicate Trimmed<T>(s: seq<T>, cs: set<T>)
  {
    s == [] || (s[0] !in cs && s[|s| - 1] !in cs)
  }

  /** `s` without leading and trailing elements from `cs` (PHP `trim`). */
  function Trim<T(==)>(s: seq<T>, cs: set<T>): (r: seq<T>)
    ensures Trimmed(r, cs)
    ensures r == [] <==> forall i :: 0 <= i < |s| ==> s[i] in cs
    ensures forall x :: x in r ==> x in s
    decreases |s|
  {
    if s != [] && s[0] in cs then
      var r := Trim(s[1..], cs);
      assert forall x :: x in r ==> x in s;
      r
    else
      var r := TrimRight(s, cs);
      assert r != [] ==> r[0] == s[0];
      assert forall x :: x in r ==> x in s;
      r
  }

  /** Trimming removes exactly the padding around an already trimmed core. */
  lemma {:induction false} TrimPadded<T>(pre: seq<T>, core: seq<T>, post: seq<T>, cs: set<T>)
    requires forall x :: x in pre ==> x in cs
    requires forall x :: x in post ==> x in cs
    requires Trimmed(core, cs)
    ensures Trim(pre + core + post, cs) == core
    decreases |pre|
  {
    var s := pre + core + post;
    if pre != [] {
      assert s[0] == pre[0] && s[1..] == pre[1..] + core + post;
      TrimPadded(pre[1..], core, post, cs);
    } else if core == [] {
      assert s == post;
      assert forall i :: 0 <= i < |s| ==> s[i] in cs by {
        forall i | 0 <= i < |s| ensures s[i] in cs {
          assert s[i] in post;
        }
      }
    } else {
      assert s == core + post;
      TrimRightPadded(core, post, cs);
    }
  }

  lemma {:induction false} TrimRightPadded<T>(core: seq<T>, post: seq<T>, cs: set<T>)
    requires forall x :: x in post ==> x in cs
    requires core != [] && core[|core| - 1] !in cs
    ensures TrimRight(core + post, cs) == core
    decreases |post|
  {
    if post == [] {
      assert core + post == core;
    } else {
      assert (core + post)[..|core + post| - 1] == core + post[..|post| - 1];
      TrimRightPadded(core, post[..|post| - 1], cs);
    }
  }

  /** The pieces of `s` between the separators (PHP `explode`). */
  function Split(s: string, sep: char): (parts: seq<string>)
    ensures |parts| >= 1
    decreases |s|
  {
    var i := FirstIndex(s, sep);
    if i == |s| then [s] else [s[..i]] + Split(s[i + 1..], sep)
  }

  /** No piece of a split holds the separator. */
  lemma {:induction false} SplitPieces(s: string, sep: char)
    ensures forall p :: p in Split(s, sep) ==> sep !in p
    decreases |s|
  {
    var i := FirstIndex(s, sep);
    FirstIndexSpec(s, sep);
    if i < |s| {
      SplitPieces(s[i + 1..], sep);
      SplitAt(s, sep, i);
    }
  }

  /** The pieces joined with the separator (PHP `implode`). */
  function Join(parts: seq<string>, sep: char): string
  {
    if parts == [] then []
    else if |parts| == 1 then parts[0]
    else parts[0] + [sep] + Join(parts[1..], sep)
  }

  /** A join begins with its first piece. */
  lemma JoinStartsWith(parts: seq<string>, sep: char)
    requires |parts| >= 1
    ensures |Join(parts, sep)| >= |parts[0]| && Join(parts, sep)[..|parts[0]|] == parts[0]
  {
    if |parts| > 1 {
      assert Join(parts, sep) == parts[0] + ([sep] + Join(parts[1..], sep));
    }
  }

  /** Joining the pieces of a split gives back the original sequence. */
  lemma {:induction false} JoinSplit(s: string, sep: char)
    ensures Join(Split(s, sep), sep) == s
    decreases |s|
  {
    var i := FirstIndex(s, sep);
    if i < |s| {
      JoinSplit(s[i + 1..], sep);
      JoinSplitAt(s, sep, i);
    } else {
      assert Split(s, sep) == [s];
    }
  }

  /** The step of JoinSplit at the first separator. */
  lemma JoinSplitAt(s: string, sep: char, i: nat)
    requires i == FirstIndex(s, sep) && i < |s|
    requires Join(Split(s[i + 1..], sep), sep) == s[i + 1..]
    ensures Join(Split(s, sep), sep) == s
  {
    var head, tail := s[..i], s[i + 1..];
    SplitAt(s, sep, i);
    JoinCons(head, Split(tail, sep), sep);
    Around(s, i);
  }

  /** Split cuts at the first separator. */
  lemma SplitAt(s: string, sep: char, i: nat)
    requires i == FirstIndex(s, sep) && i < |s|
    ensures Split(s, sep) == [s[..i]] + Split(s[i + 1..], sep)
  {
    var parts := Split(s, sep);
    var j := FirstIndex(s, sep);
    assert j != |s|;
  }

  /** A sequence is what comes before position i, the element at i, and what follows. */
  lemma Around<T>(s: seq<T>, i: nat)
    requires i < |s|
    ensures s[..i] + [s[i]] + s[i + 1..] == s
  {
    assert s[..i] + [s[i]] == s[..i + 1];
  }

  /** Joining a first piece in front of at least one more. */
  lemma JoinCons(head: string, parts: seq<string>, sep: char)
    requires |parts| >= 1
    ensures Join([head] + parts, sep) == head + [sep] + Join(parts, sep)
  {
    assert ([head] + parts)[0] == head && ([head] + parts)[1..] == parts;
  }

  /** Splitting pieces that hold no separator, once joined, gives them back. */
  lemma {:induction false} SplitJoin(parts: seq<string>, sep: char)
    requires |parts| >= 1
    requires forall p :: p in parts ==> sep !in p
    ensures Split(Join(parts, sep), sep) == parts
    decreases |parts|
  {
    assert sep !in parts[0];
    if |parts| > 1 {
      var rest := parts[1..];
      assert parts == [parts[0]] + rest;
      JoinCons(parts[0], rest, sep);
      SplitAfter(parts[0], Join(rest, sep), sep);
      SplitJoin(rest, sep);
    }
  }

  /** Split of a piece without separator, a separator and the rest. */
  lemma SplitAfter(head: string, rest: string, sep: char)
    requires sep !in head
    ensures Split(head + [sep] + rest, sep) == [head] + Split(rest, sep)
  {
    var s := head + [sep] + rest;
    FirstIndexAfter(head, sep, rest);
    assert s[..|head|] == head;
    assert s[|head| + 1..] == rest;
    SplitAt(s, sep, |head|);
  }

  lemma FirstIndexAfter<T>(a: seq<T>, x: T, b: seq<T>)
    requires x !in a
    ensures FirstIndex(a + [x] + b, x) == |a|
  {
    var s := a + [x] + b;
    assert s[|a|] == x;
    assert s[..|a|] == a;
    FirstIndexAt(s, x, |a|);
  }
}
