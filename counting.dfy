/**
 * `collections.Counter` and `Counter.most_common`, as used by the statistics
 * and the n-gram engine.  A Python dict is ordered, so a table is a sequence
 * of (key, value) entries with distinct keys, in insertion order.
 */
module Counting {

  function Min(a: int, b: int): int {
    if a <= b then a else b
  }

  /** Number of occurrences of `x` in `xs`. */
  function Occurrences<T(==)>(xs: seq<T>, x: T): (n: nat)
    ensures n <= |xs|
    ensures n > 0 <==> x in xs
  {
    if xs == [] then 0 else (if xs[0] == x then 1 else 0) + Occurrences(xs[1..], x)
  }

  /** Index of the first occurrence of `x` in `xs`, or `|xs|` when there is none. */
  function Rank<T(==)>(xs: seq<T>, x: T): (r: nat)
    ensures r <= |xs|
    ensures r < |xs| <==> x in xs
    ensures r < |xs| ==> xs[r] == x
  {
    if xs == [] then 0 else if xs[0] == x then 0 else 1 + Rank(xs[1..], x)
  }

  /** The keys of a table, in order. */
  function Keys<T, V>(t: seq<(T, V)>): (ks: seq<T>)
    ensures |ks| == |t| && forall i :: 0 <= i < |t| ==> ks[i] == t[i].0
  {
    seq(|t|, i requires 0 <= i < |t| => t[i].0)
  }

  predicate DistinctKeys<T(==), V>(t: seq<(T, V)>) {
    forall i, j :: 0 <= i < j < |t| ==> t[i].0 != t[j].0
  }

  /** Sum of the values of a count table. */
  function SumCounts<T>(t: seq<(T, nat)>): nat {
    if t == [] then 0 else t[0].1 + SumCounts(t[1..])
  }

  lemma {:induction false} SumCountsConcat<T>(a: seq<(T, nat)>, b: seq<(T, nat)>)
    ensures SumCounts(a + b) == SumCounts(a) + SumCounts(b)
  {
    if a == [] {
      assert a + b == b;
    } else {
      assert (a + b)[1..] == a[1..] + b;
      SumCountsConcat(a[1..], b);
    }
  }

  lemma {:induction false} SumCountsUpdate<T>(t: seq<(T, nat)>, k: nat, e: (T, nat))
    requires k < |t|
    ensures SumCounts(t[k := e]) + t[k].1 == SumCounts(t) + e.1
  {
    if k > 0 {
      assert t[k := e][1..] == t[1..][k - 1 := e];
      SumCountsUpdate(t[1..], k - 1, e);
    }
  }

  /** `counter[x] += 1` on a table: the entry for `x` goes up by one, or a new entry `(x, 1)` is appended. */
  function Bump<T(==)>(t: seq<(T, nat)>, x: T): (r: seq<(T, nat)>)
    requires DistinctKeys(t)
    ensures DistinctKeys(r)
    ensures SumCounts(r) == SumCounts(t) + 1
  {
    var k := Rank(Keys(t), x);
    if k < |t| then
      SumCountsUpdate(t, k, (x, t[k].1 + 1));
      t[k := (x, t[k].1 + 1)]
    else
      SumCountsConcat(t, [(x, 1)]);
      assert SumCounts([(x, 1)]) == 1;
      t + [(x, 1)]
  }

  /** `Counter(xs)`: each distinct element with its number of occurrences, in first-occurrence order. */
  function Tally<T(==)>(xs: seq<T>): (t: seq<(T, nat)>)
    ensures DistinctKeys(t)
    ensures SumCounts(t) == |xs|
  {
    if xs == [] then [] else Bump(Tally(xs[..|xs| - 1]), xs[|xs| - 1])
  }

  /** The entries of `Bump(t, x)`: those of `t`, with `x`'s count one higher, and `(x, 1)` at the end if `x` was new. */
  lemma BumpEntries<T>(t: seq<(T, nat)>, x: T)
    requires DistinctKeys(t)
    ensures x in Keys(t) ==> |Bump(t, x)| == |t|
    ensures x !in Keys(t) ==> |Bump(t, x)| == |t| + 1 && Bump(t, x)[|t|] == (x, 1)
    ensures forall i :: 0 <= i < |t| ==>
      Bump(t, x)[i].0 == t[i].0 && Bump(t, x)[i].1 == t[i].1 + (if t[i].0 == x then 1 else 0)
  {
    var k := Rank(Keys(t), x);
    if k < |t| {
      forall i | 0 <= i < |t| && i != k ensures t[i].0 != x {
        assert Keys(t)[k] == x;
      }
    }
  }

  /** Occurrences add up over a concatenation. */
  lemma {:induction false} OccurrencesConcat<T>(a: seq<T>, b: seq<T>, x: T)
    ensures Occurrences(a + b, x) == Occurrences(a, x) + Occurrences(b, x)
  {
    if a == [] {
      assert a + b == b;
    } else {
      assert (a + b)[1..] == a[1..] + b;
      OccurrencesConcat(a[1..], b, x);
    }
  }

  lemma {:induction false} OccurrencesSnoc<T>(xs: seq<T>, x: T, y: T)
    ensures Occurrences(xs + [x], y) == Occurrences(xs, y) + (if x == y then 1 else 0)
  {
    if xs != [] {
      assert (xs + [x])[1..] == xs[1..] + [x];
      OccursSnocStep(xs, x, y);
      OccurrencesSnoc(xs[1..], x, y);
    }
  }

  lemma OccursSnocStep<T>(xs: seq<T>, x: T, y: T)
    requires xs != []
    ensures Occurrences(xs + [x], y) == (if xs[0] == y then 1 else 0) + Occurrences(xs[1..] + [x], y)
  {
    assert (xs + [x])[1..] == xs[1..] + [x];
  }

  lemma {:induction false} RankSnoc<T>(xs: seq<T>, x: T, y: T)
    ensures y in xs ==> Rank(xs + [x], y) == Rank(xs, y)
    ensures y !in xs && y == x ==> Rank(xs + [x], y) == |xs|
  {
    if xs != [] {
      assert (xs + [x])[1..] == xs[1..] + [x];
      assert xs == [xs[0]] + xs[1..];
      if xs[0] != y {
        RankSnoc(xs[1..], x, y);
      }
    }
  }

  /** Every entry of `Counter(xs)` is an element of `xs` with its exact number of occurrences. */
  lemma {:induction false} TallyCounts<T>(xs: seq<T>)
    ensures forall i :: 0 <= i < |Tally(xs)| ==> Tally(xs)[i].0 in xs && Tally(xs)[i].1 == Occurrences(xs, Tally(xs)[i].0)
  {
    if xs != [] {
      var ys, x := xs[..|xs| - 1], xs[|xs| - 1];
      assert xs == ys + [x];
      var t, r := Tally(ys), Tally(xs);
      TallyCounts(ys);
      BumpEntries(t, x);
      forall i | 0 <= i < |r| ensures r[i].0 in xs && r[i].1 == Occurrences(xs, r[i].0) {
        OccurrencesSnoc(ys, x, r[i].0);
        if i < |t| {
          assert r[i].0 == t[i].0;
        } else {
          TallyCovers(ys);
          assert r[i] == (x, 1) && x !in ys;
        }
      }
    }
  }

  /** Every element of `xs` has an entry in `Counter(xs)`. */
  lemma {:induction false} TallyCovers<T>(xs: seq<T>)
    ensures forall x :: x in xs ==> x in Keys(Tally(xs))
  {
    if xs != [] {
      var ys, x := xs[..|xs| - 1], xs[|xs| - 1];
      assert xs == ys + [x];
      var t, r := Tally(ys), Tally(xs);
      TallyCovers(ys);
      BumpEntries(t, x);
      forall y | y in xs ensures y in Keys(r) {
        if y in ys {
          var i :| 0 <= i < |t| && Keys(t)[i] == y;
          assert Keys(r)[i] == y;
        } else {
          TallyCounts(ys);
          assert y == x;
          assert Keys(r)[|t|] == y;
        }
      }
    }
  }

  /** The entries of `Counter(xs)` are in first-occurrence order. */
  lemma {:induction false} TallyOrder<T>(xs: seq<T>)
    ensures forall i, j :: 0 <= i < j < |Tally(xs)| ==> Rank(xs, Tally(xs)[i].0) < Rank(xs, Tally(xs)[j].0)
  {
    if xs != [] {
      var ys, x := xs[..|xs| - 1], xs[|xs| - 1];
      assert xs == ys + [x];
      var t, r := Tally(ys), Tally(xs);
      TallyOrder(ys);
      TallyCounts(ys);
      BumpEntries(t, x);
      RankSnoc(ys, x, x);
      forall i, j | 0 <= i < j < |r| ensures Rank(xs, r[i].0) < Rank(xs, r[j].0) {
        RankSnoc(ys, x, r[i].0);
        RankSnoc(ys, x, r[j].0);
        if j >= |t| {
          assert r[j].0 == x && x !in Keys(t);
          if x in ys {
            TallyCovers(ys);
          }
          assert r[i].0 == t[i].0 && t[i].0 in ys;
        }
      }
    }
  }

  /** What a Counter holds. */
  predicate IsTallyOf<T(==)>(t: seq<(T, nat)>, xs: seq<T>) {
    && DistinctKeys(t)
    && (forall i :: 0 <= i < |t| ==> t[i].0 in xs && t[i].1 == Occurrences(xs, t[i].0))
    && (forall x :: x in xs ==> x in Keys(t))
    && (forall i, j :: 0 <= i < j < |t| ==> Rank(xs, t[i].0) < Rank(xs, t[j].0))
    && SumCounts(t) == |xs|
  }

  /**
   * `Counter(xs)` has one entry per distinct element, with its exact count,
   * in first-occurrence order, and its counts add up to `|xs|`.
   */
  lemma TallySpec<T>(xs: seq<T>)
    ensures IsTallyOf(Tally(xs), xs)
  {
    TallyCounts(xs);
    TallyCovers(xs);
    TallyOrder(xs);
  }

  /** Stable insertion by descending count: `e` goes before the first entry whose count is at most its own. */
  function InsertByCount<T>(e: (T, nat), s: seq<(T, nat)>): (r: seq<(T, nat)>)
    ensures |r| == |s| + 1
    ensures forall i :: 0 <= i < |r| ==> r[i] == e || r[i] in s
  {
    if s == [] || e.1 >= s[0].1 then [e] + s
    else
      assert s == [s[0]] + s[1..];
      [s[0]] + InsertByCount(e, s[1..])
  }

  /**
   * `sorted(entries, key=count, reverse=True)`, which is stable: entries with
   * equal counts keep their relative order.
   */
  function SortByCount<T>(t: seq<(T, nat)>): (r: seq<(T, nat)>)
    ensures |r| == |t|
    ensures forall i :: 0 <= i < |r| ==> r[i] in t
  {
    if t == [] then []
    else
      assert t == [t[0]] + t[1..];
      InsertByCount(t[0], SortByCount(t[1..]))
  }

  lemma {:induction false} InsertByCountPermutes<T>(e: (T, nat), s: seq<(T, nat)>)
    ensures multiset(InsertByCount(e, s)) == multiset(s) + multiset{e}
  {
    if !(s == [] || e.1 >= s[0].1) {
      assert s == [s[0]] + s[1..];
      InsertByCountPermutes(e, s[1..]);
    }
  }

  /** The sort is a permutation of the table. */
  lemma {:induction false} SortByCountPermutes<T>(t: seq<(T, nat)>)
    ensures multiset(SortByCount(t)) == multiset(t)
  {
    if t != [] {
      assert t == [t[0]] + t[1..];
      SortByCountPermutes(t[1..]);
      InsertByCountPermutes(t[0], SortByCount(t[1..]));
    }
  }

  /** Counts never increase along `s`. */
  predicate Descending<T>(s: seq<(T, nat)>) {
    forall i, j :: 0 <= i < j < |s| ==> s[i].1 >= s[j].1
  }

  lemma {:induction false} InsertByCountDescending<T>(e: (T, nat), s: seq<(T, nat)>)
    requires Descending(s)
    ensures Descending(InsertByCount(e, s))
  {
    if !(s == [] || e.1 >= s[0].1) {
      assert s == [s[0]] + s[1..];
      InsertByCountDescending(e, s[1..]);
      var r := InsertByCount(e, s[1..]);
      forall j | 0 <= j < |r| ensures s[0].1 >= r[j].1 {
        if r[j] != e {
          var m :| 0 <= m < |s[1..]| && s[1..][m] == r[j];
          assert s[m + 1] == r[j];
        }
      }
    }
  }

  /** The stable sort puts the counts in non-increasing order. */
  lemma {:induction false} SortByCountDescending<T>(t: seq<(T, nat)>)
    ensures Descending(SortByCount(t))
  {
    if t != [] {
      assert t == [t[0]] + t[1..];
      SortByCountDescending(t[1..]);
      InsertByCountDescending(t[0], SortByCount(t[1..]));
    }
  }

  /**
   * `Counter.most_common(k)`: the first `k` entries of the stable descending
   * sort.  It holds min(k, len) entries of the table, with counts in
   * non-increasing order.
   */
  function MostCommon<T>(t: seq<(T, nat)>, k: nat): (r: seq<(T, nat)>)
    ensures |r| == Min(k, |t|)
    ensures forall i :: 0 <= i < |r| ==> r[i] in t
    ensures Descending(r)
  {
    var s := SortByCount(t);
    SortByCountDescending(t);
    s[..Min(k, |s|)]
  }

  /** `a` comes before `b`: a higher count, or the same count and an earlier first occurrence in `xs`. */
  predicate Precedes<T(==)>(a: (T, nat), b: (T, nat), xs: seq<T>) {
    a.1 > b.1 || (a.1 == b.1 && Rank(xs, a.0) < Rank(xs, b.0))
  }

  /** Descending by count, ties in first-occurrence order in `xs`. */
  predicate CountOrdered<T(==)>(s: seq<(T, nat)>, xs: seq<T>) {
    forall i, j :: 0 <= i < j < |s| ==> Precedes(s[i], s[j], xs)
  }

  lemma {:induction false} InsertByCountOrdered<T>(e: (T, nat), s: seq<(T, nat)>, xs: seq<T>)
    requires CountOrdered(s, xs)
    requires forall i :: 0 <= i < |s| ==> Rank(xs, e.0) < Rank(xs, s[i].0)
    ensures CountOrdered(InsertByCount(e, s), xs)
  {
    if s == [] || e.1 >= s[0].1 {
      InsertFrontOrdered(e, s, xs);
    } else {
      InsertByCountOrdered(e, s[1..], xs);
      InsertLaterOrdered(e, s, xs);
    }
  }

  lemma InsertFrontOrdered<T>(e: (T, nat), s: seq<(T, nat)>, xs: seq<T>)
    requires CountOrdered(s, xs)
    requires forall i :: 0 <= i < |s| ==> Rank(xs, e.0) < Rank(xs, s[i].0)
    requires s == [] || e.1 >= s[0].1
    ensures CountOrdered([e] + s, xs)
  {
    var r := [e] + s;
    forall i, j | 0 <= i < j < |r| ensures Precedes(r[i], r[j], xs) {
      if i == 0 {
        assert r[j] == s[j - 1];
        if j > 1 {
          assert Precedes(s[0], s[j - 1], xs);
        }
      } else {
        assert r[i] == s[i - 1] && r[j] == s[j - 1];
      }
    }
  }

  lemma InsertLaterOrdered<T>(e: (T, nat), s: seq<(T, nat)>, xs: seq<T>)
    requires s != [] && e.1 < s[0].1
    requires CountOrdered(s, xs)
    requires CountOrdered(InsertByCount(e, s[1..]), xs)
    ensures CountOrdered([s[0]] + InsertByCount(e, s[1..]), xs)
  {
    HeadPrecedesInserted(e, s, xs);
    ConsOrdered(s[0], InsertByCount(e, s[1..]), xs);
  }

  /** The head of an ordered list precedes everything the insertion into its tail produces, when it outranks the inserted entry. */
  lemma HeadPrecedesInserted<T>(e: (T, nat), s: seq<(T, nat)>, xs: seq<T>)
    requires s != [] && e.1 < s[0].1
    requires CountOrdered(s, xs)
    ensures forall j :: 0 <= j < |InsertByCount(e, s[1..])| ==> Precedes(s[0], InsertByCount(e, s[1..])[j], xs)
  {
    var rest := InsertByCount(e, s[1..]);
    forall j | 0 <= j < |rest| ensures Precedes(s[0], rest[j], xs) {
      if rest[j] != e {
        var m :| 0 <= m < |s[1..]| && s[1..][m] == rest[j];
        assert s[m + 1] == rest[j];
      }
    }
  }

  /** An entry that precedes every entry of an ordered list can be put in front of it. */
  lemma ConsOrdered<T>(h: (T, nat), rest: seq<(T, nat)>, xs: seq<T>)
    requires CountOrdered(rest, xs)
    requires forall j :: 0 <= j < |rest| ==> Precedes(h, rest[j], xs)
    ensures CountOrdered([h] + rest, xs)
  {
    var r := [h] + rest;
    forall i, j | 0 <= i < j < |r| ensures Precedes(r[i], r[j], xs) {
      assert r[j] == rest[j - 1];
      if i > 0 {
        assert r[i] == rest[i - 1];
      }
    }
  }

  /** The stable sort of a table in first-occurrence order is ordered by count, ties by first occurrence. */
  lemma {:induction false} SortByCountOrdered<T>(t: seq<(T, nat)>, xs: seq<T>)
    requires forall i, j :: 0 <= i < j < |t| ==> Rank(xs, t[i].0) < Rank(xs, t[j].0)
    ensures CountOrdered(SortByCount(t), xs)
  {
    if t != [] {
      var rest := SortByCount(t[1..]);
      SortByCountOrdered(t[1..], xs);
      forall i | 0 <= i < |rest| ensures Rank(xs, t[0].0) < Rank(xs, rest[i].0) {
        var m :| 0 <= m < |t[1..]| && t[1..][m] == rest[i];
        assert t[m + 1] == rest[i];
      }
      InsertByCountOrdered(t[0], rest, xs);
    }
  }

  /** An ordered table has distinct keys when equal keys carry equal counts. */
  lemma OrderedDistinct<T>(s: seq<(T, nat)>, xs: seq<T>)
    requires CountOrdered(s, xs)
    requires forall i :: 0 <= i < |s| ==> s[i].1 == Occurrences(xs, s[i].0)
    ensures DistinctKeys(s)
  {
    forall i, j | 0 <= i < j < |s| ensures s[i].0 != s[j].0 {
      assert Precedes(s[i], s[j], xs);
    }
  }

  /** The stable sort of `Counter(xs)` holds exact counts of elements of `xs`. */
  lemma SortedTallyCounts<T>(xs: seq<T>)
    ensures forall i :: 0 <= i < |SortByCount(Tally(xs))| ==>
      SortByCount(Tally(xs))[i].0 in xs && SortByCount(Tally(xs))[i].1 == Occurrences(xs, SortByCount(Tally(xs))[i].0)
  {
    var t := Tally(xs);
    TallyCounts(xs);
    var s := SortByCount(t);
    forall i | 0 <= i < |s| ensures s[i].0 in xs && s[i].1 == Occurrences(xs, s[i].0) {
      var j :| 0 <= j < |t| && t[j] == s[i];
    }
  }

  /** Every element of `xs` has an entry in the stable sort of `Counter(xs)`. */
  lemma SortedTallyCovers<T>(xs: seq<T>, x: T)
    requires x in xs
    ensures x in Keys(SortByCount(Tally(xs)))
  {
    var t := Tally(xs);
    TallyCovers(xs);
    var s := SortByCount(t);
    var a :| 0 <= a < |t| && Keys(t)[a] == x;
    SortByCountPermutes(t);
    assert t[a] in multiset(s);
    var b :| 0 <= b < |s| && s[b] == t[a];
    assert Keys(s)[b] == x;
  }

  /** The first `k` entries of an ordered table are ordered, and keep their keys. */
  lemma MostCommonPrefix<T>(s: seq<(T, nat)>, k: nat, xs: seq<T>)
    requires CountOrdered(s, xs)
    ensures CountOrdered(s[..Min(k, |s|)], xs)
    ensures forall b :: 0 <= b < Min(k, |s|) ==> Keys(s[..Min(k, |s|)])[b] == s[b].0
  {
  }

  /**
   * `Counter(xs).most_common(k)`: min(k, distinct) entries with exact counts,
   * in non-increasing count order with ties in first-occurrence order.
   */
  lemma MostCommonSpec<T>(xs: seq<T>, k: nat)
    ensures |MostCommon(Tally(xs), k)| == Min(k, |Tally(xs)|)
    ensures forall i :: 0 <= i < |MostCommon(Tally(xs), k)| ==>
      MostCommon(Tally(xs), k)[i].0 in xs && MostCommon(Tally(xs), k)[i].1 == Occurrences(xs, MostCommon(Tally(xs), k)[i].0)
    ensures CountOrdered(MostCommon(Tally(xs), k), xs)
    ensures DistinctKeys(MostCommon(Tally(xs), k))
  {
    var s := SortByCount(Tally(xs));
    TallyOrder(xs);
    SortByCountOrdered(Tally(xs), xs);
    SortedTallyCounts(xs);
    MostCommonPrefix(s, k, xs);
    OrderedDistinct(MostCommon(Tally(xs), k), xs);
  }

  /**
   * No element left out of `Counter(xs).most_common(k)` occurs more often
   * than any element kept, and on a tie every kept element occurs first in
   * `xs`: each kept entry precedes the left-out one.
   */
  lemma MostCommonMaximal<T>(xs: seq<T>, k: nat, x: T, i: nat)
    requires x in xs && x !in Keys(MostCommon(Tally(xs), k))
    requires i < |MostCommon(Tally(xs), k)|
    ensures Occurrences(xs, x) <= MostCommon(Tally(xs), k)[i].1
    ensures Precedes(MostCommon(Tally(xs), k)[i], (x, Occurrences(xs, x)), xs)
  {
    var s := SortByCount(Tally(xs));
    TallyOrder(xs);
    SortByCountOrdered(Tally(xs), xs);
    SortedTallyCounts(xs);
    SortedTallyCovers(xs, x);
    MostCommonPrefix(s, k, xs);
    var m := MostCommon(Tally(xs), k);
    assert m == s[..|m|];
    var b :| 0 <= b < |s| && Keys(s)[b] == x;
    assert b >= |m|;
    assert s[b] == (x, Occurrences(xs, x));
    assert Precedes(s[i], s[b], xs);
  }

  /**
   * A worked example: over `a b a c b a` with three different tokens,
   * the two most common are (a, 3) then (b, 2).
   */
  lemma MostCommonExample<T>(a: T, b: T, c: T)
    requires a != b && b != c && a != c
    ensures MostCommon(Tally([a, b, a, c, b, a]), 2) == [(a, 3), (b, 2)]
  {
    TallyExample(a, b, c);
    SortExample(a, b, c);
  }

  lemma SortExample<T>(a: T, b: T, c: T)
    ensures SortByCount([(a, 3), (b, 2), (c, 1)]) == [(a, 3), (b, 2), (c, 1)]
  {
    SortStep((c, 1), [], []);
    assert [(c, 1)] + [] == [(c, 1)];
    SortStep((b, 2), [(c, 1)], [(c, 1)]);
    SortStep((a, 3), [(b, 2), (c, 1)], [(b, 2), (c, 1)]);
  }

  /** A step of the example: an entry whose count is at least the first sorted count goes in front. */
  lemma SortStep<T>(e: (T, nat), t: seq<(T, nat)>, sorted: seq<(T, nat)>)
    requires SortByCount(t) == sorted
    requires sorted == [] || e.1 >= sorted[0].1
    ensures SortByCount([e] + t) == [e] + sorted
  {
    assert ([e] + t)[1..] == t;
  }

  /** `Counter` of `a b a c b a`: a, b, c with counts 3, 2, 1. */
  lemma TallyExample<T>(a: T, b: T, c: T)
    requires a != b && b != c && a != c
    ensures Tally([a, b, a, c, b, a]) == [(a, 3), (b, 2), (c, 1)]
  {
    TallyExamplePrefix(a, b);
    TallyStep([a, b, a], c, [(a, 2), (b, 1)], 2, [(a, 2), (b, 1), (c, 1)]);
    assert [a, b, a] + [c] == [a, b, a, c];
    TallyStep([a, b, a, c], b, [(a, 2), (b, 1), (c, 1)], 1, [(a, 2), (b, 2), (c, 1)]);
    assert [a, b, a, c] + [b] == [a, b, a, c, b];
    TallyStep([a, b, a, c, b], a, [(a, 2), (b, 2), (c, 1)], 0, [(a, 3), (b, 2), (c, 1)]);
    assert [a, b, a, c, b] + [a] == [a, b, a, c, b, a];
  }

  lemma TallyExamplePrefix<T>(a: T, b: T)
    requires a != b
    ensures Tally([a, b, a]) == [(a, 2), (b, 1)]
  {
    TallyExamplePair(a, b);
    TallyStep([a, b], a, [(a, 1), (b, 1)], 0, [(a, 2), (b, 1)]);
    assert [a, b] + [a] == [a, b, a];
  }

  lemma TallyExamplePair<T>(a: T, b: T)
    requires a != b
    ensures Tally([a, b]) == [(a, 1), (b, 1)]
  {
    TallyExampleSingle(a);
    TallyStep([a], b, [(a, 1)], 1, [(a, 1), (b, 1)]);
    assert [a] + [b] == [a, b];
  }

  lemma TallyExampleSingle<T>(a: T)
    ensures Tally([a]) == [(a, 1)]
  {
    assert [a][..0] == [];
  }

  /** One step of the example: `Tally(xs + [x])` from `Tally(xs)` and the position of `x`'s entry. */
  lemma TallyStep<T>(xs: seq<T>, x: T, t: seq<(T, nat)>, k: nat, r: seq<(T, nat)>)
    requires Tally(xs) == t && k <= |t|
    requires forall i :: 0 <= i < k ==> t[i].0 != x
    requires k < |t| ==> t[k].0 == x && r == t[k := (x, t[k].1 + 1)]
    requires k == |t| ==> r == t + [(x, 1)]
    ensures Tally(xs + [x]) == r
  {
    assert (xs + [x])[..|xs|] == xs;
    RankOf(Keys(t), x, k);
  }

  lemma {:induction false} RankOf<T>(xs: seq<T>, x: T, k: nat)
    requires k <= |xs| && (k < |xs| ==> xs[k] == x)
    requires forall i :: 0 <= i < k ==> xs[i] != x
    ensures Rank(xs, x) == k
  {
    if xs != [] && k > 0 {
      RankOf(xs[1..], x, k - 1);
    }
  }
}
