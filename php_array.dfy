/** A PHP array with non-negative integer keys, as the query engine keeps its
    records: entries in insertion order, and the next key that `$a[] = v`
    uses (PHP's next free element, which `unset` never lowers). */
module PhpArray {
  import opened Seqs

  datatype Entry<T> = Entry(key: nat, value: T)

  datatype Array<T> = Array(entries: seq<Entry<T>>, nextFree: nat)

  function Empty<T>(): Array<T>
  {
    Array([], 0)
  }

  function EntryKey<T>(e: Entry<T>): nat
  {
    e.key
  }

  /** What every PHP array satisfies: keys are unique and below the next free key. */
  ghost predicate Valid<T>(a: Array<T>)
  {
    && DistinctBy(a.entries, EntryKey)
    && forall i :: 0 <= i < |a.entries| ==> a.entries[i].key < a.nextFree
  }

  function Keys<T>(a: Array<T>): seq<nat>
  {
    seq(|a.entries|, i requires 0 <= i < |a.entries| => a.entries[i].key)
  }

  /** The values in iteration order (what `foreach ($a as $v)` visits). */
  function Values<T>(a: Array<T>): seq<T>
  {
    seq(|a.entries|, i requires 0 <= i < |a.entries| => a.entries[i].value)
  }

  function Count<T>(a: Array<T>): nat
  {
    |a.entries|
  }

  /** `$a[$k]`, for a key that is present. */
  function Get<T>(a: Array<T>, k: nat): T
    requires k in Keys(a)
  {
    FirstIndexSpec(Keys(a), k);
    a.entries[FirstIndex(Keys(a), k)].value
  }

  /** `$a[$k] = $v`: an existing key keeps its place, a new one goes last. */
  function Set<T>(a: Array<T>, k: nat, v: T): (r: Array<T>)
    ensures Valid(a) ==> Valid(r)
    ensures k in Keys(r) && Get(r, k) == v
    ensures k in Keys(a) ==> Valid(a) ==> Keys(r) == Keys(a)
    ensures k !in Keys(a) ==> Keys(r) == Keys(a) + [k]
    ensures Valid(a) ==> forall k' :: k' != k && k' in Keys(a) ==> k' in Keys(r) && Get(r, k') == Get(a, k')
  {
    var i := FirstIndex(Keys(a), k);
    FirstIndexSpec(Keys(a), k);
    var next := if k + 1 > a.nextFree then k + 1 else a.nextFree;
    var r := Array(if i < |a.entries| then a.entries[i := Entry(k, v)] else a.entries + [Entry(k, v)], next);
    assert i < |a.entries| ==> Keys(r) == Keys(a);
    assert i == |a.entries| ==> Keys(r) == Keys(a) + [k];
    SetFacts(a, k, v, r);
    r
  }

  lemma SetFacts<T>(a: Array<T>, k: nat, v: T, r: Array<T>)
    requires r == Array(
      if FirstIndex(Keys(a), k) < |a.entries| then a.entries[FirstIndex(Keys(a), k) := Entry(k, v)] else a.entries + [Entry(k, v)],
      if k + 1 > a.nextFree then k + 1 else a.nextFree)
    ensures Valid(a) ==> Valid(r)
    ensures k in Keys(r) && Get(r, k) == v
    ensures Valid(a) ==> forall k' :: k' != k && k' in Keys(a) ==> k' in Keys(r) && Get(r, k') == Get(a, k')
  {
    var i := FirstIndex(Keys(a), k);
    FirstIndexSpec(Keys(a), k);
    SetKeepsPrefix(a, k, v, r, i, i);
    FirstIndexAt(Keys(r), k, i);
    if Valid(a) {
      SetKeepsValid(a, k, v, r, i);
      forall k' | k' != k && k' in Keys(a) ensures k' in Keys(r) && Get(r, k') == Get(a, k') {
        var j := FirstIndex(Keys(a), k');
        FirstIndexSpec(Keys(a), k');
        SetKeepsPrefix(a, k, v, r, i, j);
        FirstIndexAt(Keys(r), k', j);
      }
    }
  }

  lemma SetKeepsPrefix<T>(a: Array<T>, k: nat, v: T, r: Array<T>, i: nat, j: nat)
    requires i == FirstIndex(Keys(a), k) && j <= |a.entries| && (j == i || (j < |a.entries| && a.entries[j].key != k))
    requires r.entries == if i < |a.entries| then a.entries[i := Entry(k, v)] else a.entries + [Entry(k, v)]
    ensures j < |r.entries| && Keys(r)[..j] == Keys(a)[..j]
    ensures j != i ==> r.entries[j] == a.entries[j]
    ensures j == i ==> r.entries[j] == Entry(k, v)
  {
  }

  lemma SetKeepsValid<T>(a: Array<T>, k: nat, v: T, r: Array<T>, i: nat)
    requires Valid(a)
    requires i == FirstIndex(Keys(a), k)
    requires r.nextFree == if k + 1 > a.nextFree then k + 1 else a.nextFree
    requires r.entries == if i < |a.entries| then a.entries[i := Entry(k, v)] else a.entries + [Entry(k, v)]
    ensures Valid(r)
  {
    FirstIndexSpec(Keys(a), k);
    forall x, y | 0 <= x < y < |r.entries| ensures r.entries[x].key != r.entries[y].key {
      if y == i {
        assert r.entries[x].key == Keys(a)[..i][x];
      } else if x == i {
        assert r.entries[y] == a.entries[y];
      } else {
        assert r.entries[x] == a.entries[x] && r.entries[y] == a.entries[y];
      }
    }
    assert DistinctBy(r.entries, EntryKey);
  }

  /** `unset($a[$k])`: the entry with that key leaves, the others keep their order. */
  function Unset<T>(a: Array<T>, k: nat): (r: Array<T>)
    ensures Valid(a) ==> Valid(r)
    ensures k !in Keys(r)
    ensures r.nextFree == a.nextFree
  {
    var r := Array(Filter(a.entries, (e: Entry<T>) => e.key != k), a.nextFree);
    UnsetValid(a, (e: Entry<T>) => e.key != k, r);
    assert forall i :: 0 <= i < |r.entries| ==> r.entries[i] in r.entries;
    r
  }

  lemma UnsetValid<T>(a: Array<T>, keep: Entry<T> -> bool, r: Array<T>)
    requires r == Array(Filter(a.entries, keep), a.nextFree)
    ensures Valid(a) ==> Valid(r)
  {
    if Valid(a) {
      FilterDistinct(a.entries, keep, EntryKey);
      forall i | 0 <= i < |r.entries| ensures r.entries[i].key < r.nextFree {
        assert r.entries[i] in a.entries;
      }
    }
  }

  /** Unsetting a key held by exactly one entry removes that entry only. */
  lemma UnsetOnly<T>(a: Array<T>, pre: seq<Entry<T>>, e: Entry<T>, post: seq<Entry<T>>)
    requires a.entries == pre + [e] + post
    requires forall x :: x in pre ==> x.key != e.key
    requires forall x :: x in post ==> x.key != e.key
    ensures Unset(a, e.key) == Array(pre + post, a.nextFree)
  {
    var k := e.key;
    assert Unset(a, k).entries == Filter(a.entries, (x: Entry<T>) => x.key != k);
    FilterOnly(pre, e, post, (x: Entry<T>) => x.key != k);
  }

  /** `$a[] = $v`: appends under the next free key. */
  function Push<T>(a: Array<T>, v: T): (r: Array<T>)
    requires Valid(a)
    ensures Valid(r)
    ensures r.entries == a.entries + [Entry(a.nextFree, v)]
    ensures r.nextFree == a.nextFree + 1
  {
    assert a.nextFree !in Keys(a);
    Set(a, a.nextFree, v)
  }
}
