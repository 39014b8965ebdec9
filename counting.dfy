/** Grouped occurrence counts: the tables that `value_counts()` and
    `groupby(col).size()` produce, as sequences of (key, count) entries. */
module Counting {
  import opened Wrappers

  /** One row of a count table. */
  datatype Entry<T> = Entry(key: T, count: nat)

  /** The key column of a table. */
  function Keys<T(==)>(t: seq<Entry<T>>): seq<T>
  {
    seq(|t|, i requires 0 <= i < |t| => t[i].key)
  }

  /** The count column's total. */
  function Sum<T(==)>(t: seq<Entry<T>>): nat
  {
    if t == [] then 0 else t[0].count + Sum(t[1..])
  }

  ghost predicate DistinctKeys<T>(t: seq<Entry<T>>)
  {
    forall i, j :: 0 <= i < j < |t| ==> t[i].key != t[j].key
  }

  /** `t` is a table of the occurrences in `xs`: every value of `xs` is the key
      of exactly one entry, whose count is the number of times it occurs, and
      no other key appears (so every count is positive). */
  ghost predicate CountsOf<T>(t: seq<Entry<T>>, xs: seq<T>)
  {
    && DistinctKeys(t)
    && (forall i :: 0 <= i < |t| ==> t[i].key in xs && t[i].count == multiset(xs)[t[i].key])
    && (forall x :: x in xs ==> x in Keys(t))
  }

  /** Counts never increase along the table (the order of `value_counts()`). */
  ghost predicate NonIncreasing<T>(t: seq<Entry<T>>)
  {
    forall i, j :: 0 <= i < j < |t| ==> t[i].count >= t[j].count
  }

  /** Keys strictly increase along the table (the order of `groupby(...).size()`). */
  ghost predicate Ascending(t: seq<Entry<int>>)
  {
    forall i, j :: 0 <= i < j < |t| ==> t[i].key < t[j].key
  }

  // ---------------------------------------------------------------------------
  // Tallying in first-occurrence order

  /** Adds one occurrence of `x`: increments its entry, or appends a new one. */
  function Bump<T(==)>(t: seq<Entry<T>>, x: T): (r: seq<Entry<T>>)
    requires DistinctKeys(t)
    ensures |r| == if x in Keys(t) then |t| else |t| + 1
    ensures forall i :: 0 <= i < |t| ==>
              r[i] == if t[i].key == x then Entry(x, t[i].count + 1) else t[i]
    ensures x !in Keys(t) ==> r[|t|] == Entry(x, 1)
    ensures Sum(r) == Sum(t) + 1
  {
    if t == [] then [Entry(x, 1)]
    else if t[0].key == x then
      assert Keys(t)[0] == x;
      [Entry(x, t[0].count + 1)] + t[1..]
    else
      assert Keys(t) == [t[0].key] + Keys(t[1..]);
      [t[0]] + Bump(t[1..], x)
  }

  lemma BumpCounts<T>(t: seq<Entry<T>>, xs: seq<T>, x: T)
    requires CountsOf(t, xs)
    ensures CountsOf(Bump(t, x), xs + [x])
  {
    BumpDistinct(t, xs, x);
    BumpEntries(t, xs, x);
    BumpCovers(t, xs, x);
  }

  lemma BumpDistinct<T>(t: seq<Entry<T>>, xs: seq<T>, x: T)
    requires CountsOf(t, xs)
    ensures DistinctKeys(Bump(t, x))
  {
    var r := Bump(t, x);
    forall i, j | 0 <= i < j < |r| ensures r[i].key != r[j].key {
      if j == |t| {
        assert Keys(t)[i] == t[i].key;
      }
    }
  }

  lemma BumpEntries<T>(t: seq<Entry<T>>, xs: seq<T>, x: T)
    requires CountsOf(t, xs)
    ensures var r := Bump(t, x);
            forall i :: 0 <= i < |r| ==> r[i].key in xs + [x] && r[i].count == multiset(xs + [x])[r[i].key]
  {
    var r := Bump(t, x);
    assert multiset(xs + [x]) == multiset(xs) + multiset{x};
    forall i | 0 <= i < |r|
      ensures r[i].key in xs + [x] && r[i].count == multiset(xs + [x])[r[i].key]
    {
      if i == |t| {
        assert x !in xs;
      }
    }
  }

  lemma BumpCovers<T>(t: seq<Entry<T>>, xs: seq<T>, x: T)
    requires CountsOf(t, xs)
    ensures forall y :: y in xs + [x] ==> y in Keys(Bump(t, x))
  {
    var r := Bump(t, x);
    forall y | y in xs + [x] ensures y in Keys(r) {
      if y in xs {
        var i :| 0 <= i < |t| && Keys(t)[i] == y;
        assert Keys(r)[i] == y;
      } else {
        forall i | 0 <= i < |t| ensures Keys(t)[i] != x {
          assert t[i].key in xs;
        }
        assert Keys(r)[|t|] == x;
      }
    }
  }

  /** The table of `xs` in first-occurrence order. */
  function Tally<T(==)>(xs: seq<T>): (t: seq<Entry<T>>)
    ensures CountsOf(t, xs)
    ensures Sum(t) == |xs|
  {
    if xs == [] then []
    else
      var init := xs[..|xs| - 1];
      var t0 := Tally(init);
      assert xs == init + [xs[|xs| - 1]];
      BumpCounts(t0, init, xs[|xs| - 1]);
      Bump(t0, xs[|xs| - 1])
  }

  /** With distinct keys, no entry occurs twice. */
  lemma {:induction false} DistinctEntries<T>(t: seq<Entry<T>>, e: Entry<T>)
    requires DistinctKeys(t)
    ensures multiset(t)[e] <= 1
  {
    if t != [] {
      assert t == [t[0]] + t[1..];
      DistinctEntries(t[1..], e);
      if t[0] == e {
        assert e !in t[1..];
      }
    }
  }

  /** Any reordering of a table of `xs` is again a table of `xs`. */
  lemma CountsOfPermutation<T>(t: seq<Entry<T>>, u: seq<Entry<T>>, xs: seq<T>)
    requires CountsOf(t, xs) && multiset(t) == multiset(u)
    ensures CountsOf(u, xs)
  {
    forall i | 0 <= i < |u|
      ensures u[i] in t && u[i].key in xs && u[i].count == multiset(xs)[u[i].key]
    {
      assert u[i] in multiset(u);
    }
    forall i, j | 0 <= i < j < |u| ensures u[i].key != u[j].key {
      if u[i].key == u[j].key {
        assert u[i] == u[j];
        assert u == u[..j] + [u[j]] + u[j + 1..];
        assert u[i] in u[..j];
        assert multiset(u)[u[i]] >= 2;
        DistinctEntries(t, u[i]);
      }
    }
    forall x | x in xs ensures x in Keys(u) {
      var j :| 0 <= j < |t| && Keys(t)[j] == x;
      assert t[j] in multiset(t);
      assert t[j] in u;
      var i :| 0 <= i < |u| && u[i] == t[j];
      assert Keys(u)[i] == x;
    }
  }

  // ---------------------------------------------------------------------------
  // Ordering by count, descending (value_counts)

  /** Inserts `e` after every entry whose count is at least `e.count`. */
  function InsertByCount<T>(e: Entry<T>, s: seq<Entry<T>>): (r: seq<Entry<T>>)
    ensures multiset(r) == multiset(s) + multiset{e}
    ensures |r| == |s| + 1
    ensures r[0] == e || (s != [] && r[0] == s[0])
    ensures Sum(r) == Sum(s) + e.count
  {
    if s == [] || e.count > s[0].count then [e] + s
    else
      assert s == [s[0]] + s[1..];
      [s[0]] + InsertByCount(e, s[1..])
  }

  lemma {:induction false} InsertByCountOrdered<T>(e: Entry<T>, s: seq<Entry<T>>)
    requires NonIncreasing(s)
    ensures NonIncreasing(InsertByCount(e, s))
  {
    if s != [] && e.count <= s[0].count {
      InsertByCountOrdered(e, s[1..]);
    }
  }

  /** Stable sort by descending count. */
  function SortByCount<T>(t: seq<Entry<T>>): (r: seq<Entry<T>>)
    ensures multiset(r) == multiset(t)
    ensures NonIncreasing(r)
    ensures Sum(r) == Sum(t)
  {
    if t == [] then []
    else
      var init := t[..|t| - 1];
      var last := t[|t| - 1];
      assert t == init + [last];
      SumSnoc(init, last);
      InsertByCountOrdered(last, SortByCount(init));
      InsertByCount(last, SortByCount(init))
  }

  lemma {:induction false} SumSnoc<T>(t: seq<Entry<T>>, e: Entry<T>)
    ensures Sum(t + [e]) == Sum(t) + e.count
  {
    if t != [] {
      assert (t + [e])[1..] == t[1..] + [e];
      SumSnoc(t[1..], e);
    }
  }

  /** `value_counts()`: the occurrence table of `xs`, largest count first. */
  function ValueCounts<T(==)>(xs: seq<T>): (t: seq<Entry<T>>)
    ensures CountsOf(t, xs)
    ensures NonIncreasing(t)
    ensures Sum(t) == |xs|
  {
    var tally := Tally(xs);
    var sorted := SortByCount(tally);
    CountsOfPermutation(tally, sorted, xs);
    sorted
  }

  // ---------------------------------------------------------------------------
  // Ordering by key, ascending (groupby(...).size())

  ghost predicate KeysNonDecreasing(t: seq<Entry<int>>)
  {
    forall i, j :: 0 <= i < j < |t| ==> t[i].key <= t[j].key
  }

  function InsertByKey(e: Entry<int>, s: seq<Entry<int>>): (r: seq<Entry<int>>)
    ensures multiset(r) == multiset(s) + multiset{e}
    ensures |r| == |s| + 1
    ensures r[0] == e || (s != [] && r[0] == s[0])
    ensures Sum(r) == Sum(s) + e.count
  {
    if s == [] || e.key <= s[0].key then [e] + s
    else
      assert s == [s[0]] + s[1..];
      [s[0]] + InsertByKey(e, s[1..])
  }

  lemma {:induction false} InsertByKeyOrdered(e: Entry<int>, s: seq<Entry<int>>)
    requires KeysNonDecreasing(s)
    ensures KeysNonDecreasing(InsertByKey(e, s))
  {
    if s != [] && e.key > s[0].key {
      InsertByKeyOrdered(e, s[1..]);
    }
  }

  function SortByKey(t: seq<Entry<int>>): (r: seq<Entry<int>>)
    ensures multiset(r) == multiset(t)
    ensures KeysNonDecreasing(r)
    ensures Sum(r) == Sum(t)
  {
    if t == [] then []
    else
      var init := t[..|t| - 1];
      var last := t[|t| - 1];
      assert t == init + [last];
      SumSnoc(init, last);
      InsertByKeyOrdered(last, SortByKey(init));
      InsertByKey(last, SortByKey(init))
  }

  /** `groupby(...).size()` over integer keys: the occurrence table of `xs`,
      in ascending key order. */
  function GroupCounts(xs: seq<int>): (t: seq<Entry<int>>)
    ensures CountsOf(t, xs)
    ensures Ascending(t)
    ensures Sum(t) == |xs|
  {
    var tally := Tally(xs);
    var sorted := SortByKey(tally);
    CountsOfPermutation(tally, sorted, xs);
    sorted
  }

  // ---------------------------------------------------------------------------
  // Reading a table

  /** `table.get(k)`: the count of key `k`, if it is a key. */
  function Lookup<T(==)>(t: seq<Entry<T>>, k: T): (r: Option<nat>)
    ensures r.Some? <==> k in Keys(t)
    ensures DistinctKeys(t) ==> forall i :: 0 <= i < |t| && t[i].key == k ==> r == Some(t[i].count)
  {
    if t == [] then None
    else
      assert Keys(t) == [t[0].key] + Keys(t[1..]);
      if t[0].key == k then Some(t[0].count) else Lookup(t[1..], k)
  }

  /** `table.get(k, 0)`. */
  function Get<T(==)>(t: seq<Entry<T>>, k: T): nat
  {
    match Lookup(t, k)
    case Some(c) => c
    case None => 0
  }

  /** Reading a table of `xs` gives the number of occurrences in `xs`, and 0
      for a value that does not occur. */
  lemma GetCounts<T>(t: seq<Entry<T>>, xs: seq<T>, k: T)
    requires CountsOf(t, xs)
    ensures Get(t, k) == multiset(xs)[k]
    ensures Lookup(t, k).Some? <==> k in xs
  {
    if k in Keys(t) {
      var i :| 0 <= i < |t| && Keys(t)[i] == k;
      assert t[i].key == k;
    } else {
      assert k !in xs;
    }
  }

  /** A table of `xs` has one entry per distinct value of `xs`. */
  lemma CountsOfSize<T>(t: seq<Entry<T>>, xs: seq<T>)
    requires CountsOf(t, xs)
    ensures |t| == |set x | x in xs|
  {
    var keys := set i | 0 <= i < |t| :: t[i].key;
    assert keys == set x | x in xs by {
      forall x | x in xs ensures x in keys {
        var i :| 0 <= i < |t| && Keys(t)[i] == x;
        assert t[i].key == x;
      }
    }
    DistinctKeysSize(t);
  }

  /** The keys of a table of `xs` all lie in `s` exactly when the values of
      `xs` do. */
  lemma CountsWithin<T>(t: seq<Entry<T>>, xs: seq<T>, s: set<T>)
    requires CountsOf(t, xs)
    ensures (forall i :: 0 <= i < |t| ==> t[i].key in s) <==> (forall x :: x in xs ==> x in s)
  {
    if forall i :: 0 <= i < |t| ==> t[i].key in s {
      forall x | x in xs ensures x in s {
        var i :| 0 <= i < |t| && Keys(t)[i] == x;
        assert t[i].key == x;
      }
    }
  }

  /** In a table listed largest first, a value that is not among the first
      `n` keys occurs no more often than the `n`-th entry counts. */
  lemma OutsidePrefix<T>(t: seq<Entry<T>>, xs: seq<T>, n: nat, x: T)
    requires CountsOf(t, xs) && NonIncreasing(t) && 0 < n <= |t|
    requires x in xs && x !in Keys(t[..n])
    ensures multiset(xs)[x] <= t[n - 1].count
  {
    var i :| 0 <= i < |t| && Keys(t)[i] == x;
    assert forall j :: 0 <= j < n ==> Keys(t[..n])[j] == Keys(t)[j];
  }

  /** A table is empty exactly when its column is. */
  lemma EmptyTable<T>(t: seq<Entry<T>>, xs: seq<T>)
    requires CountsOf(t, xs)
    ensures t == [] <==> xs == []
  {
    assert xs != [] ==> xs[0] in xs;
    assert t != [] ==> t[0].key in xs;
  }

  /** The head of a table listed largest first is a value of the column that
      no other value outnumbers. */
  lemma FirstIsMostFrequent<T>(t: seq<Entry<T>>, xs: seq<T>)
    requires CountsOf(t, xs) && NonIncreasing(t) && t != []
    ensures t[0].key in xs
    ensures forall x :: x in xs ==> multiset(xs)[x] <= multiset(xs)[t[0].key]
  {
    forall x | x in xs ensures multiset(xs)[x] <= multiset(xs)[t[0].key] {
      var i :| 0 <= i < |t| && Keys(t)[i] == x;
    }
  }

  lemma {:induction false} DistinctKeysSize<T>(t: seq<Entry<T>>)
    requires DistinctKeys(t)
    ensures |set i | 0 <= i < |t| :: t[i].key| == |t|
  {
    if t != [] {
      var rest := t[1..];
      DistinctKeysSize(rest);
      var keys := set i | 0 <= i < |t| :: t[i].key;
      var restKeys := set i | 0 <= i < |rest| :: rest[i].key;
      assert keys == {t[0].key} + restKeys by {
        forall k | k in keys ensures k in {t[0].key} + restKeys {
          var i :| 0 <= i < |t| && t[i].key == k;
          if i > 0 {
            assert rest[i - 1].key == k;
          }
        }
      }
      assert t[0].key !in restKeys;
    }
  }

  /** `idxmax()`: the first position holding the largest count. */
  function FirstMax<T(==)>(t: seq<Entry<T>>): (k: nat)
    requires t != []
    ensures k < |t|
    ensures forall i :: 0 <= i < |t| ==> t[i].count <= t[k].count
    ensures forall i :: 0 <= i < k ==> t[i].count < t[k].count
  {
    if |t| == 1 then 0
    else
      var j := FirstMax(t[..|t| - 1]);
      if t[|t| - 1].count > t[j].count then |t| - 1 else j
  }

  /** In a table with ascending keys, `idxmax()` lands on the earliest key
      with the largest count. */
  lemma EarliestPeak(t: seq<Entry<int>>)
    requires Ascending(t) && t != []
    ensures forall e :: e in t ==> e.count <= t[FirstMax(t)].count
    ensures forall e :: e in t && e.key < t[FirstMax(t)].key ==> e.count < t[FirstMax(t)].count
  {
    var k := FirstMax(t);
    forall e | e in t ensures e.count <= t[k].count && (e.key < t[k].key ==> e.count < t[k].count) {
      var i :| 0 <= i < |t| && t[i] == e;
    }
  }
}
