/**
 * `FrequencyAnalyzer.calculate_ngrams` and `calculate_probabilities`.
 * A dict is an association list with distinct keys in insertion order.
 */
module Ngrams {
  import opened Counting

  /** An n-gram key: unigram tables are keyed by the token itself, longer n-grams by the tuple of tokens. */
  datatype NgramKey = Uni(token: string) | Multi(tokens: seq<string>)

  /** Number of windows `range(len(tokens) - n + 1)` visits (none when that is not positive). */
  function WindowCount(len: nat, n: nat): nat {
    if len + 1 >= n then len + 1 - n else 0
  }

  /** The keys `calculate_ngrams` counts, in the order it meets them. */
  function Grams(tokens: seq<string>, n: nat): (g: seq<NgramKey>)
    ensures n == 1 ==> |g| == |tokens| && forall i :: 0 <= i < |g| ==> g[i] == Uni(tokens[i])
    ensures n != 1 ==>
      |g| == WindowCount(|tokens|, n) && forall i :: 0 <= i < |g| ==> i + n <= |tokens| && g[i] == Multi(tokens[i..i + n])
  {
    if n == 1 then Unigrams(tokens) else Windows(tokens, n, WindowCount(|tokens|, n))
  }

  /** Each token as a unigram key. */
  function Unigrams(tokens: seq<string>): (g: seq<NgramKey>)
    ensures |g| == |tokens| && forall i :: 0 <= i < |g| ==> g[i] == Uni(tokens[i])
  {
    if tokens == [] then [] else Unigrams(tokens[..|tokens| - 1]) + [Uni(tokens[|tokens| - 1])]
  }

  /** The first `count` windows of `n` consecutive tokens. */
  function Windows(tokens: seq<string>, n: nat, count: nat): (g: seq<NgramKey>)
    requires count <= WindowCount(|tokens|, n)
    ensures |g| == count && forall i :: 0 <= i < count ==> i + n <= |tokens| && g[i] == Multi(tokens[i..i + n])
  {
    if count == 0 then [] else Windows(tokens, n, count - 1) + [Multi(tokens[count - 1..count - 1 + n])]
  }

  /**
   * `calculate_ngrams(tokens, n)`: a Counter of the unigram tokens when
   * `n == 1`, otherwise of the windows `tuple(tokens[i:i + n])`.  The table
   * has one entry per distinct key with its exact count, in first-occurrence
   * order, and the counts add up to the number of keys counted.
   */
  method CalculateNgrams(tokens: seq<string>, n: nat) returns (counts: seq<(NgramKey, nat)>)
    ensures IsTallyOf(counts, Grams(tokens, n))
    ensures SumCounts(counts) == if n == 1 then |tokens| else WindowCount(|tokens|, n)
  {
    if n == 1 {
      var unigrams := Unigrams(tokens);
      counts := Tally(unigrams);
      TallySpec(unigrams);
      return;
    }
    var ngrams: seq<NgramKey> := [];
    var i := 0;
    while i < |tokens| - n + 1
      invariant 0 <= i <= WindowCount(|tokens|, n)
      invariant |ngrams| == i
      invariant forall k :: 0 <= k < i ==> ngrams[k] == Multi(tokens[k..k + n])
    {
      var ngram := Multi(tokens[i..i + n]);
      ngrams := ngrams + [ngram];
      i := i + 1;
    }
    assert ngrams == Grams(tokens, n);
    counts := Tally(ngrams);
    TallySpec(ngrams);
  }

  /** `w` is the run of tokens starting at index `i`. */
  predicate WindowAt(tokens: seq<string>, w: seq<string>, i: int) {
    0 <= i && i + |w| <= |tokens| && tokens[i..i + |w|] == w
  }

  /** Every key of an n-gram table (n other than 1) is a tuple of `n` consecutive tokens. */
  lemma NgramKeysAreWindows(tokens: seq<string>, n: nat, counts: seq<(NgramKey, nat)>)
    requires n != 1 && IsTallyOf(counts, Grams(tokens, n))
    ensures forall k :: 0 <= k < |counts| ==>
      counts[k].0.Multi? && |counts[k].0.tokens| == n && exists i :: WindowAt(tokens, counts[k].0.tokens, i)
  {
    var g := Grams(tokens, n);
    forall k | 0 <= k < |counts|
      ensures counts[k].0.Multi? && |counts[k].0.tokens| == n && exists i :: WindowAt(tokens, counts[k].0.tokens, i)
    {
      var i :| 0 <= i < |g| && g[i] == counts[k].0;
      assert WindowAt(tokens, counts[k].0.tokens, i);
    }
  }

  /** Every key of a unigram table is one of the tokens. */
  lemma UnigramKeysAreTokens(tokens: seq<string>, counts: seq<(NgramKey, nat)>)
    requires IsTallyOf(counts, Grams(tokens, 1))
    ensures forall k :: 0 <= k < |counts| ==> counts[k].0.Uni? && counts[k].0.token in tokens
  {
    var g := Grams(tokens, 1);
    forall k | 0 <= k < |counts| ensures counts[k].0.Uni? && counts[k].0.token in tokens {
      var i :| 0 <= i < |g| && g[i] == counts[k].0;
    }
  }

  /** What `calculate_probabilities` returns: the probability table, or the ZeroDivisionError Python raises. */
  datatype ProbabilityResult<K> = Probabilities(table: seq<(K, real)>) | ZeroDivision

  /** `sum(ngram_counts.values()) + smoothing * len(ngram_counts)`. */
  function Total<K>(counts: seq<(K, nat)>, smoothing: real): real {
    SumCounts(counts) as real + smoothing * |counts| as real
  }

  /** Sum of the values of a probability table. */
  function SumValues<K>(t: seq<(K, real)>): real {
    if t == [] then 0.0 else SumValues(t[..|t| - 1]) + t[|t| - 1].1
  }

  /** `d[key] = value`: overwrites the entry for `key` in place, or appends a new entry. */
  function Put<K(==), V>(t: seq<(K, V)>, key: K, value: V): (r: seq<(K, V)>)
    requires DistinctKeys(t)
    ensures DistinctKeys(r)
    ensures key !in Keys(t) ==> r == t + [(key, value)]
    ensures key in Keys(t) ==> Keys(r) == Keys(t)
    ensures forall i :: 0 <= i < |r| ==> r[i].1 == (if r[i].0 == key then value else t[i].1)
  {
    var k := Rank(Keys(t), key);
    if k < |t| then
      assert Keys(t)[k] == key;
      t[k := (key, value)]
    else t + [(key, value)]
  }

  lemma {:induction false} SumCountsSnoc<K>(t: seq<(K, nat)>, e: (K, nat))
    ensures SumCounts(t + [e]) == SumCounts(t) + e.1
  {
    SumCountsConcat(t, [e]);
  }

  lemma {:induction false} CountAtMostSum<K>(t: seq<(K, nat)>, k: nat)
    requires k < |t|
    ensures t[k].1 <= SumCounts(t)
  {
    if k > 0 {
      CountAtMostSum(t[1..], k - 1);
    }
  }

  /** The smoothed counts added up entry by entry: the sum of `count + smoothing`. */
  function SmoothedSum<K>(counts: seq<(K, nat)>, smoothing: real): real {
    if counts == [] then 0.0
    else SmoothedSum(counts[..|counts| - 1], smoothing) + counts[|counts| - 1].1 as real + smoothing
  }

  /** Adding up the smoothed counts gives `total`. */
  lemma {:induction false} SmoothedSumIsTotal<K>(counts: seq<(K, nat)>, smoothing: real)
    ensures SmoothedSum(counts, smoothing) == Total(counts, smoothing)
  {
    if counts != [] {
      var n := |counts| - 1;
      SmoothedSumIsTotal(counts[..n], smoothing);
      assert counts == counts[..n] + [counts[n]];
      SumCountsSnoc(counts[..n], counts[n]);
      assert smoothing * (n + 1) as real == smoothing * n as real + smoothing;
    }
  }

  /**
   * A probability table for `counts`: the same keys in the same order, each
   * with `(count + smoothing) / total`, the total being non-zero when there
   * is any entry.
   */
  ghost predicate IsProbabilityTable<K>(counts: seq<(K, nat)>, smoothing: real, table: seq<(K, real)>) {
    && |table| == |counts|
    && (counts != [] ==> Total(counts, smoothing) != 0.0)
    && forall k :: 0 <= k < |counts| ==>
         table[k] == (counts[k].0, (counts[k].1 as real + smoothing) / Total(counts, smoothing))
  }

  /**
   * `calculate_probabilities(ngram_counts, smoothing)`.  It fails exactly
   * when the table is not empty and the smoothed total is zero; otherwise it
   * returns the probability table of the counts (whose values add up to one,
   * `ProbabilitiesSumToOne`, and lie in [0, 1] under non-negative
   * smoothing, `ProbabilitiesInUnitRange`).
   */
  method CalculateProbabilities<K(==)>(counts: seq<(K, nat)>, smoothing: real) returns (r: ProbabilityResult<K>)
    requires DistinctKeys(counts)
    ensures r.ZeroDivision? <==> counts != [] && Total(counts, smoothing) == 0.0
    ensures r.Probabilities? ==> IsProbabilityTable(counts, smoothing, r.table) && DistinctKeys(r.table)
  {
    var total := Total(counts, smoothing);
    var probabilities: seq<(K, real)> := [];
    var i := 0;
    while i < |counts|
      invariant i <= |counts| && (i > 0 ==> total != 0.0)
      invariant |probabilities| == i && DistinctKeys(probabilities)
      invariant forall k :: 0 <= k < i ==> probabilities[k] == (counts[k].0, (counts[k].1 as real + smoothing) / total)
    {
      var (ngram, count) := counts[i];
      if total == 0.0 {
        return ZeroDivision;
      }
      var p := (count as real + smoothing) / total;
      assert ngram !in Keys(probabilities) by {
        forall k | 0 <= k < i ensures Keys(probabilities)[k] != ngram {
          assert probabilities[k].0 == counts[k].0;
        }
      }
      probabilities := Put(probabilities, ngram, p);
      i := i + 1;
    }
    return Probabilities(probabilities);
  }

  /** The first `i` values of a probability table add up to the first `i` smoothed counts over the total. */
  lemma {:induction false} PrefixSum<K>(counts: seq<(K, nat)>, smoothing: real, table: seq<(K, real)>, i: nat)
    requires IsProbabilityTable(counts, smoothing, table) && 0 < i <= |counts|
    ensures SumValues(table[..i]) == SmoothedSum(counts[..i], smoothing) / Total(counts, smoothing)
  {
    var total := Total(counts, smoothing);
    if i > 1 {
      PrefixSum(counts, smoothing, table, i - 1);
    }
    SumValuesStep(table[..i - 1], table[..i], counts, i - 1, smoothing, total);
  }

  /** The values of a non-empty probability table add up to one. */
  lemma ProbabilitiesSumToOne<K>(counts: seq<(K, nat)>, smoothing: real, table: seq<(K, real)>)
    requires IsProbabilityTable(counts, smoothing, table) && counts != []
    ensures SumValues(table) == 1.0
  {
    PrefixSum(counts, smoothing, table, |counts|);
    assert table[..|counts|] == table && counts[..|counts|] == counts;
    SmoothedSumIsTotal(counts, smoothing);
    DivideSelf(Total(counts, smoothing));
  }

  /** With non-negative smoothing every probability lies in [0, 1]. */
  lemma ProbabilitiesInUnitRange<K>(counts: seq<(K, nat)>, smoothing: real, table: seq<(K, real)>)
    requires IsProbabilityTable(counts, smoothing, table) && smoothing >= 0.0
    ensures forall k :: 0 <= k < |table| ==> 0.0 <= table[k].1 <= 1.0
  {
    forall k | 0 <= k < |table| ensures 0.0 <= table[k].1 <= 1.0 {
      ProbabilityInUnitRange(counts, smoothing, k);
    }
  }

  /** With non-negative smoothing, each smoothed count is between zero and the total. */
  lemma ProbabilityInUnitRange<K>(counts: seq<(K, nat)>, smoothing: real, k: nat)
    requires smoothing >= 0.0 && k < |counts|
    ensures Total(counts, smoothing) != 0.0 ==> 0.0 <= (counts[k].1 as real + smoothing) / Total(counts, smoothing) <= 1.0
  {
    CountAtMostSum(counts, k);
    SmoothingAtMost(smoothing, |counts|);
    var total := Total(counts, smoothing);
    assert counts[k].1 as real <= SumCounts(counts) as real;
    assert counts[k].1 as real + smoothing <= total;
    if total != 0.0 {
      ProbabilityBounds(counts[k].1 as real + smoothing, total);
    }
  }

  /** Appending the next probability keeps the running sum equal to the smoothed counts so far over the total. */
  lemma {:induction false} SumValuesStep<K>(before: seq<(K, real)>, after: seq<(K, real)>, counts: seq<(K, nat)>, i: nat,
                                            smoothing: real, total: real)
    requires i < |counts| && |before| == i && total != 0.0
    requires i > 0 ==> SumValues(before) == SmoothedSum(counts[..i], smoothing) / total
    requires after == before + [(counts[i].0, (counts[i].1 as real + smoothing) / total)]
    ensures SumValues(after) == SmoothedSum(counts[..i + 1], smoothing) / total
  {
    assert after[..|after| - 1] == before;
    assert counts[..i + 1][..i] == counts[..i];
    if i > 0 {
      AddFractions(SmoothedSum(counts[..i], smoothing), counts[i].1 as real + smoothing, total);
    } else {
      assert SmoothedSum(counts[..1], smoothing) == counts[i].1 as real + smoothing;
    }
  }

  lemma DivideSelf(t: real)
    requires t != 0.0
    ensures t / t == 1.0
  {
  }

  lemma AddFractions(a: real, b: real, t: real)
    requires t != 0.0
    ensures a / t + b / t == (a + b) / t
  {
  }

  lemma SmoothingAtMost(smoothing: real, n: nat)
    requires smoothing >= 0.0 && n >= 1
    ensures smoothing <= smoothing * n as real
  {
  }

  lemma ProbabilityBounds(part: real, total: real)
    requires 0.0 <= part <= total && total != 0.0
    ensures 0.0 <= part / total <= 1.0
  {
  }
}
