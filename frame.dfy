/** Table operations of the dataframe library, as functions on sequences of
    rows: grouped counting (rows with an absent key belong to no group),
    distinct counting within groups, and sorting of grouped counts. */
module Frame {

  /** A value that can be absent: a missing cell of a table. */
  datatype Option<+T> = None | Some(value: T)

  /** An aggregated table: one (key, value) entry per group. */
  type Groups<K> = seq<(K, nat)>

  /** No key has two entries. */
  predicate DistinctKeys<K(==)>(g: Groups<K>)
  {
    forall i, j :: 0 <= i < j < |g| ==> g[i].0 != g[j].0
  }

  /** The keys of the groups. */
  function KeySet<K>(g: Groups<K>): set<K>
  {
    set i | 0 <= i < |g| :: g[i].0
  }

  /** The value stored for k, or 0 where k has no entry. */
  function Lookup<K(==)>(g: Groups<K>, k: K): nat
  {
    if g == [] then 0 else if g[0].0 == k then g[0].1 else Lookup(g[1..], k)
  }

  /** The sum of all values. */
  function Sum<K>(g: Groups<K>): nat
  {
    if g == [] then 0 else g[0].1 + Sum(g[1..])
  }

  /** The predicate that counts every row (`size()` rather than `count()`). */
  predicate Always<T>(x: T)
  {
    true
  }

  /** The number of rows whose key is k and that `counted` selects. */
  function CountKeyWhere<T, K(==)>(t: seq<T>, key: T -> Option<K>, k: K, counted: T -> bool): nat
  {
    if t == [] then 0
    else
      var last := t[|t| - 1];
      CountKeyWhere(t[..|t| - 1], key, k, counted) + (if key(last) == Some(k) && counted(last) then 1 else 0)
  }

  /** The number of rows whose key is present and that `counted` selects. */
  function CountPresentWhere<T, K>(t: seq<T>, key: T -> Option<K>, counted: T -> bool): nat
  {
    if t == [] then 0
    else
      var last := t[|t| - 1];
      CountPresentWhere(t[..|t| - 1], key, counted) + (if key(last).Some? && counted(last) then 1 else 0)
  }

  /** Adds d to the entry of k, appending an entry for k where there is none. */
  function Add<K(==,!new)>(g: Groups<K>, k: K, d: nat): (r: Groups<K>)
    ensures Lookup(r, k) == Lookup(g, k) + d
    ensures forall j :: j != k ==> Lookup(r, j) == Lookup(g, j)
    ensures KeySet(r) == KeySet(g) + {k}
    ensures Sum(r) == Sum(g) + d
    ensures DistinctKeys(g) ==> DistinctKeys(r)
  {
    if g == [] then [(k, d)]
    else if g[0].0 == k then
      var r := [(k, g[0].1 + d)] + g[1..];
      assert KeySet(r) == KeySet(g) by {
        forall j | j in KeySet(g) ensures j in KeySet(r) { var i :| 0 <= i < |g| && g[i].0 == j; assert r[i].0 == j; }
        forall j | j in KeySet(r) ensures j in KeySet(g) { var i :| 0 <= i < |r| && r[i].0 == j; assert g[i].0 == j; }
      }
      assert r[1..] == g[1..];
      r
    else
      var tail := Add(g[1..], k, d);
      var r := [g[0]] + tail;
      assert r[1..] == tail;
      KeySetCons(g);
      KeySetCons(r);
      assert DistinctKeys(g) ==> DistinctKeys(r) by {
        if DistinctKeys(g) {
          forall i, j | 0 <= i < j < |r| ensures r[i].0 != r[j].0 {
            if i == 0 {
              assert r[j].0 == tail[j - 1].0;
              assert tail[j - 1].0 in KeySet(tail);
            } else {
              assert DistinctKeys(g[1..]);
              assert r[i] == tail[i - 1] && r[j] == tail[j - 1];
            }
          }
        }
      }
      r
  }

  /** Concatenation is associative; stated once so that proofs about joined
      tables can use it without re-deriving it in a large context. */
  lemma ConcatAssoc<T>(x: seq<T>, y: seq<T>, z: seq<T>)
    ensures (x + y) + z == x + (y + z)
  {
  }

  /** The keys of a non-empty table are its first key and the keys of the rest. */
  lemma KeySetCons<K>(g: Groups<K>)
    requires g != []
    ensures KeySet(g) == {g[0].0} + KeySet(g[1..])
  {
    forall j | j in KeySet(g) ensures j in {g[0].0} + KeySet(g[1..]) {
      var i :| 0 <= i < |g| && g[i].0 == j;
      if i > 0 { assert g[1..][i - 1].0 == j; }
    }
    forall j | j in KeySet(g[1..]) ensures j in KeySet(g) {
      var i :| 0 <= i < |g[1..]| && g[1..][i].0 == j;
      assert g[i + 1].0 == j;
    }
  }

  /** In a table without repeated keys, looking up an entry's key finds that entry. */
  lemma {:induction false} LookupAt<K>(g: Groups<K>, i: nat)
    requires DistinctKeys(g) && i < |g|
    ensures Lookup(g, g[i].0) == g[i].1
  {
    if i > 0 {
      assert g[0].0 != g[i].0;
      assert g[1..][i - 1] == g[i];
      LookupAt(g[1..], i - 1);
    }
  }

  /** A key has a non-zero entry only if it is one of the keys. */
  lemma {:induction false} LookupOutside<K>(g: Groups<K>, k: K)
    requires k !in KeySet(g)
    ensures Lookup(g, k) == 0
  {
    if g != [] {
      KeySetCons(g);
      LookupOutside(g[1..], k);
    }
  }

  /** Some row has key k exactly when the count of rows with key k is positive. */
  lemma {:induction false} CountKeyPositive<T, K>(t: seq<T>, key: T -> Option<K>, k: K)
    ensures CountKeyWhere(t, key, k, Always) > 0 <==> exists x :: x in t && key(x) == Some(k)
  {
    if t != [] {
      var init := t[..|t| - 1];
      assert t == init + [t[|t| - 1]];
      CountKeyPositive(init, key, k);
      if CountKeyWhere(init, key, k, Always) > 0 {
        var x :| x in init && key(x) == Some(k);
        assert x in t;
      }
    }
  }

  /** `groupby(key)` followed by `count()` of the rows `counted` selects (or
      `size()` when it selects every row): one entry per key that some row
      has, in order of first appearance; rows with an absent key are dropped. */
  function Aggregate<T, K(==,!new)>(t: seq<T>, key: T -> Option<K>, counted: T -> bool): (g: Groups<K>)
    ensures DistinctKeys(g)
    ensures forall k :: k in KeySet(g) <==> (exists x :: x in t && key(x) == Some(k))
    ensures forall k :: Lookup(g, k) == CountKeyWhere(t, key, k, counted)
    ensures Sum(g) == CountPresentWhere(t, key, counted)
  {
    if t == [] then []
    else
      var init := t[..|t| - 1];
      var last := t[|t| - 1];
      assert t == init + [last];
      var g0 := Aggregate(init, key, counted);
      match key(last)
      case None => g0
      case Some(k0) => Add(g0, k0, if counted(last) then 1 else 0)
  }

  /** `groupby(key).size()`: every group is non-empty and its value is the
      number of its rows; the values add up to the rows with a key. */
  function Tally<T, K(==,!new)>(t: seq<T>, key: T -> Option<K>): (g: Groups<K>)
    ensures DistinctKeys(g)
    ensures forall k :: k in KeySet(g) <==> (exists x :: x in t && key(x) == Some(k))
    ensures forall k :: Lookup(g, k) == CountKeyWhere(t, key, k, Always)
    ensures forall i :: 0 <= i < |g| ==> g[i].1 > 0
    ensures Sum(g) == CountPresentWhere(t, key, Always)
  {
    var g := Aggregate(t, key, Always);
    forall i | 0 <= i < |g| ensures g[i].1 > 0 {
      LookupAt(g, i);
      assert g[i].0 in KeySet(g);
      CountKeyPositive(t, key, g[i].0);
    }
    g
  }

  /** Counting only some rows of a group never exceeds the group's size. */
  lemma {:induction false} CountKeyWhereAtMost<T, K>(t: seq<T>, key: T -> Option<K>, k: K, counted: T -> bool)
    ensures CountKeyWhere(t, key, k, counted) <= CountKeyWhere(t, key, k, Always)
  {
    if t != [] {
      CountKeyWhereAtMost(t[..|t| - 1], key, k, counted);
    }
  }

  /** When every row with a key is counted, `count()` and `size()` agree. */
  lemma {:induction false} CountPresentAll<T, K>(t: seq<T>, key: T -> Option<K>, counted: T -> bool)
    requires forall x :: x in t && key(x).Some? ==> counted(x)
    ensures CountPresentWhere(t, key, counted) == CountPresentWhere(t, key, Always)
  {
    if t != [] {
      var init := t[..|t| - 1];
      assert t == init + [t[|t| - 1]];
      CountPresentAll(init, key, counted);
    }
  }

  /** The same for one group: when every row of key k is counted, its
      `count()` is its `size()`. */
  lemma {:induction false} CountKeyAll<T, K>(t: seq<T>, key: T -> Option<K>, k: K, counted: T -> bool)
    requires forall x :: x in t && key(x) == Some(k) ==> counted(x)
    ensures CountKeyWhere(t, key, k, counted) == CountKeyWhere(t, key, k, Always)
  {
    if t != [] {
      var init := t[..|t| - 1];
      assert t == init + [t[|t| - 1]];
      CountKeyAll(init, key, k, counted);
    }
  }

  /** When every row has a key, the rows with a key are all the rows. */
  lemma {:induction false} CountPresentEverywhere<T, K>(t: seq<T>, key: T -> Option<K>)
    requires forall x :: x in t ==> key(x).Some?
    ensures CountPresentWhere(t, key, Always) == |t|
  {
    if t != [] {
      var init := t[..|t| - 1];
      assert t == init + [t[|t| - 1]];
      CountPresentEverywhere(init, key);
    }
  }

  /** The distinct present values of `value` among the rows whose key is k. */
  function Values<T, K(==), V(==,!new)>(t: seq<T>, key: T -> Option<K>, k: K, value: T -> Option<V>): (vs: set<V>)
    ensures forall v :: v in vs <==> exists x :: x in t && key(x) == Some(k) && value(x) == Some(v)
    ensures |vs| <= CountKeyWhere(t, key, k, Always)
  {
    if t == [] then {}
    else
      var init := t[..|t| - 1];
      var last := t[|t| - 1];
      assert t == init + [last];
      var vs0 := Values(init, key, k, value);
      if key(last) == Some(k) && value(last).Some? then vs0 + {value(last).value} else vs0
  }

  /** `groupby(key)[column].nunique()`: the same groups as `size()`, each
      valued by the number of distinct present values of the column. */
  function NUnique<T, K(==,!new), V(==,!new)>(t: seq<T>, key: T -> Option<K>, value: T -> Option<V>): (g: Groups<K>)
    ensures DistinctKeys(g)
    ensures KeySet(g) == KeySet(Tally(t, key))
    ensures forall k :: k in KeySet(g) ==> Lookup(g, k) == |Values(t, key, k, value)|
    ensures forall k :: Lookup(g, k) <= Lookup(Tally(t, key), k)
  {
    var s := Tally(t, key);
    var g := seq(|s|, i requires 0 <= i < |s| => (s[i].0, |Values(t, key, s[i].0, value)|));
    SameKeys(s, g);
    forall k | k in KeySet(g) ensures Lookup(g, k) == |Values(t, key, k, value)| <= Lookup(s, k) {
      var i :| 0 <= i < |g| && g[i].0 == k;
      LookupAt(g, i);
      LookupAt(s, i);
    }
    forall k | k !in KeySet(g) ensures Lookup(g, k) == 0 {
      LookupOutside(g, k);
    }
    g
  }

  /** Two tables with the same keys position by position have the same key
      set, and the second repeats no key if the first does not. */
  lemma SameKeys<K>(s: Groups<K>, g: Groups<K>)
    requires |g| == |s| && forall i :: 0 <= i < |g| ==> g[i].0 == s[i].0
    ensures KeySet(g) == KeySet(s)
    ensures DistinctKeys(s) ==> DistinctKeys(g)
  {
    forall j | j in KeySet(s) ensures j in KeySet(g) {
      var i :| 0 <= i < |s| && s[i].0 == j;
      assert g[i].0 == j;
    }
  }

  /** Values never increase from one entry to the next. */
  predicate NonIncreasing<K>(g: Groups<K>)
  {
    forall i, j :: 0 <= i < j < |g| ==> g[i].1 >= g[j].1
  }

  /** Puts e in front of the first entry whose value is not larger. */
  function InsertByValue<K(==)>(e: (K, nat), g: Groups<K>): (r: Groups<K>)
    requires NonIncreasing(g)
    ensures NonIncreasing(r)
    ensures multiset(r) == multiset(g) + multiset{e}
  {
    if g == [] || e.1 >= g[0].1 then [e] + g
    else
      var tail := InsertByValue(e, g[1..]);
      var r := [g[0]] + tail;
      assert g == [g[0]] + g[1..];
      forall y | y in tail ensures g[0].1 >= y.1 {
        assert y in multiset(tail);
        if y != e {
          assert y in multiset(g[1..]);
          var j :| 0 <= j < |g[1..]| && g[1..][j] == y;
          assert g[j + 1] == y;
        }
      }
      assert forall j :: 0 < j < |r| ==> r[j] == tail[j - 1];
      r
  }

  /** `sort_values` on the value column, descending. */
  function SortByValue<K(==)>(g: Groups<K>): (r: Groups<K>)
    ensures NonIncreasing(r)
    ensures multiset(r) == multiset(g)
  {
    if g == [] then []
    else
      assert g == [g[0]] + g[1..];
      InsertByValue(g[0], SortByValue(g[1..]))
  }

  /** Counting rows with one more row appended. */
  lemma CountKeySnoc<T, K>(t: seq<T>, x: T, key: T -> Option<K>, k: K, counted: T -> bool)
    ensures CountKeyWhere(t + [x], key, k, counted)
      == CountKeyWhere(t, key, k, counted) + (if key(x) == Some(k) && counted(x) then 1 else 0)
  {
    var s := t + [x];
    assert s[..|s| - 1] == t;
  }

  /** A permutation of a table without repeated keys has the same keys,
      none repeated, and the same value for each. */
  lemma PermutationKeys<K>(g: Groups<K>, h: Groups<K>)
    requires DistinctKeys(g) && multiset(h) == multiset(g)
    ensures DistinctKeys(h)
    ensures KeySet(h) == KeySet(g)
    ensures forall i :: 0 <= i < |h| ==> Lookup(g, h[i].0) == h[i].1
  {
    forall i | 0 <= i < |h| ensures exists j :: 0 <= j < |g| && g[j] == h[i] {
      assert h[i] in multiset(h);
      assert h[i] in g;
    }
    forall i | 0 <= i < |h| ensures Lookup(g, h[i].0) == h[i].1 {
      var j :| 0 <= j < |g| && g[j] == h[i];
      LookupAt(g, j);
    }
    forall i, j | 0 <= i < j < |h| ensures h[i].0 != h[j].0 {
      if h[i].0 == h[j].0 {
        var a :| 0 <= a < |g| && g[a] == h[i];
        var b :| 0 <= b < |g| && g[b] == h[j];
        PairCount(h, i, j);
        OccursOnce(g, a);
      }
    }
    forall k | k in KeySet(g) ensures k in KeySet(h) {
      var j :| 0 <= j < |g| && g[j].0 == k;
      assert g[j] in multiset(g);
      assert g[j] in h;
    }
  }

  /** In a table without repeated keys every entry occurs once. */
  lemma OccursOnce<K>(g: Groups<K>, a: nat)
    requires DistinctKeys(g) && a < |g|
    ensures multiset(g)[g[a]] == 1
  {
    var e := g[a];
    assert g == g[..a] + [e] + g[a + 1..];
    assert e !in g[..a];
    assert e !in g[a + 1..];
  }

  /** Two positions holding one entry make it occur twice. */
  lemma PairCount<T>(s: seq<T>, i: nat, j: nat)
    requires i < j < |s| && s[i] == s[j]
    ensures multiset(s)[s[i]] >= 2
  {
    var x := s[i];
    assert s == s[..i] + [x] + s[i + 1..j] + [x] + s[j + 1..];
  }
}
