/**
 * The Fisher-Yates shuffle of the random-number mode, driven by an explicit
 * sequence of draws in place of the random number generator, and the set of
 * pixels that mode lights.
 */
module Shuffle {
  import opened RingDefs
  import opened Channels

  /** Draws for a shuffle of `n` entries: the draw for index i lies in [0, i]. */
  predicate ValidDraws(draws: seq<int>, n: nat)
  {
    |draws| == n && forall i :: 0 < i < n ==> 0 <= draws[i] <= i
  }

  /** Entries i and j exchanged. */
  function Swap(s: seq<int>, i: nat, j: nat): (r: seq<int>)
    requires i < |s| && j < |s|
    ensures |r| == |s|
  {
    s[i := s[j]][j := s[i]]
  }

  /** The shuffle loop's remaining passes, for indices i down to 1. */
  function FisherYates(s: seq<int>, draws: seq<int>, i: nat): (r: seq<int>)
    requires i < |s| && ValidDraws(draws, |s|)
    ensures |r| == |s|
    decreases i
  {
    if i == 0 then s else FisherYates(Swap(s, i, draws[i]), draws, i - 1)
  }

  /** The whole shuffle of `s`. */
  function Shuffled(s: seq<int>, draws: seq<int>): (r: seq<int>)
    requires ValidDraws(draws, |s|)
    ensures |r| == |s|
  {
    if s == [] then s else FisherYates(s, draws, |s| - 1)
  }

  lemma SwapPermutes(s: seq<int>, i: nat, j: nat)
    requires i < |s| && j < |s|
    ensures multiset(Swap(s, i, j)) == multiset(s)
  {
  }

  /** Whatever the draws, the shuffle leaves a permutation of its input. */
  lemma {:induction false} FisherYatesPermutes(s: seq<int>, draws: seq<int>, i: nat)
    requires i < |s| && ValidDraws(draws, |s|)
    ensures multiset(FisherYates(s, draws, i)) == multiset(s)
    decreases i
  {
    if i > 0 {
      SwapPermutes(s, i, draws[i]);
      FisherYatesPermutes(Swap(s, i, draws[i]), draws, i - 1);
    }
  }

  lemma ShuffledPermutes(s: seq<int>, draws: seq<int>)
    requires ValidDraws(draws, |s|)
    ensures multiset(Shuffled(s, draws)) == multiset(s)
  {
    if s != [] {
      FisherYatesPermutes(s, draws, |s| - 1);
    }
  }

  predicate Distinct(s: seq<int>)
  {
    forall i, j :: 0 <= i < j < |s| ==> s[i] != s[j]
  }

  /** The shuffle keeps entries distinct and keeps the set of entries. */
  lemma {:induction false} FisherYatesKeepsEntries(s: seq<int>, draws: seq<int>, i: nat)
    requires i < |s| && ValidDraws(draws, |s|)
    ensures Distinct(s) ==> Distinct(FisherYates(s, draws, i))
    ensures forall x :: x in FisherYates(s, draws, i) <==> x in s
    decreases i
  {
    if i > 0 {
      var t := Swap(s, i, draws[i]);
      SwapPermutes(s, i, draws[i]);
      assert forall x :: x in t <==> x in multiset(t);
      assert forall x :: x in t <==> x in s;
      if Distinct(s) {
        forall a, b | 0 <= a < b < |t| ensures t[a] != t[b] {
          var j := draws[i];
          var pa := if a == i then j else if a == j then i else a;
          var pb := if b == i then j else if b == j then i else b;
          assert t[a] == s[pa] && t[b] == s[pb];
        }
      }
      FisherYatesKeepsEntries(t, draws, i - 1);
    }
  }

  lemma ShuffledKeepsEntries(s: seq<int>, draws: seq<int>)
    requires ValidDraws(draws, |s|)
    ensures Distinct(s) ==> Distinct(Shuffled(s, draws))
    ensures forall x :: x in Shuffled(s, draws) <==> x in s
  {
    if s != [] {
      FisherYatesKeepsEntries(s, draws, |s| - 1);
    }
  }

  /** The array the random-number mode shuffles, as written: 1, 2, ..., 60. */
  function OneToLedCount(): (r: seq<int>)
    ensures |r| == LedCount
  {
    seq(LedCount, i => i + 1)
  }

  /** The pixel indices that array would hold if it were filled with 0, 1, ..., 59. */
  function ZeroToLedCount(): (r: seq<int>)
    ensures |r| == LedCount
  {
    seq(LedCount, i => i)
  }

  /** The pixels that setting each index of `idx` writes; an index off the ring writes none. */
  function Written(idx: seq<int>): set<int>
  {
    set k | k in idx && 0 <= k < LedCount
  }

  /** As written: the pixels the random-number mode writes with `n` and `draws`, from the 1 .. 60 array. */
  function RandomNumberWrites(n: nat, draws: seq<int>): set<int>
    requires n <= LedCount && ValidDraws(draws, LedCount)
  {
    Written(Shuffled(OneToLedCount(), draws)[..n])
  }

  /** The set of entries of a sequence. */
  function Elements(s: seq<int>): set<int>
  {
    set x | x in s
  }

  lemma {:induction false} DistinctCard(s: seq<int>)
    requires Distinct(s)
    ensures |Elements(s)| == |s|
  {
    if s != [] {
      var tail := s[1..];
      assert Distinct(tail);
      DistinctCard(tail);
      assert Elements(s) == {s[0]} + Elements(tail);
      assert s[0] !in tail;
    }
  }

  lemma PrefixDistinct(s: seq<int>, n: nat)
    requires n <= |s| && Distinct(s)
    ensures Distinct(s[..n])
  {
  }

  /**
   * As the code is written: pixel 0 is never written, and `n` shuffled entries
   * write n pixels, or n - 1 when the entry 60 (off the ring) is among them.
   */
  lemma RandomNumberWritesAsWritten(n: nat, draws: seq<int>)
    requires n <= LedCount && ValidDraws(draws, LedCount)
    ensures 0 !in RandomNumberWrites(n, draws)
    ensures forall k :: k in RandomNumberWrites(n, draws) ==> 1 <= k < LedCount
    ensures |RandomNumberWrites(n, draws)| ==
      if LedCount in Shuffled(OneToLedCount(), draws)[..n] then n - 1 else n
  {
    var t := Shuffled(OneToLedCount(), draws);
    OneToLedCountShuffled(draws);
    PrefixDistinct(t, n);
    assert forall x :: x in t[..n] ==> x in t;
    WrittenCount(t[..n]);
  }

  /** The shuffled array holds distinct entries, each from 1 to 60. */
  lemma OneToLedCountShuffled(draws: seq<int>)
    requires ValidDraws(draws, LedCount)
    ensures Distinct(Shuffled(OneToLedCount(), draws))
    ensures forall x :: x in Shuffled(OneToLedCount(), draws) <==> 1 <= x <= LedCount
  {
    ShuffledKeepsEntries(OneToLedCount(), draws);
    forall x | 1 <= x <= LedCount ensures x in OneToLedCount() {
      assert OneToLedCount()[x - 1] == x;
    }
  }

  /** Distinct entries from 1 to 60 write one pixel each, except the entry 60. */
  lemma WrittenCount(p: seq<int>)
    requires Distinct(p)
    requires forall x :: x in p ==> 1 <= x <= LedCount
    ensures 0 !in Written(p)
    ensures forall k :: k in Written(p) ==> 1 <= k < LedCount
    ensures |Written(p)| == if LedCount in p then |p| - 1 else |p|
  {
    DistinctCard(p);
    var all := Elements(p);
    assert Written(p) == all - {LedCount};
    assert |all| == |p|;
    if LedCount in p {
      assert LedCount in all;
      assert |all - {LedCount}| == |all| - 1;
      assert |Written(p)| == |p| - 1;
    } else {
      assert LedCount !in all;
      assert all - {LedCount} == all;
      assert |Written(p)| == |p|;
    }
  }

  /**
   * Counterexample to "lights exactly n distinct pixels": asking for all 60
   * pixels writes only 59 of them, whatever the draws, and pixel 0 stays dark.
   */
  lemma RandomNumberMissesOnePixel(draws: seq<int>)
    requires ValidDraws(draws, LedCount)
    ensures |RandomNumberWrites(LedCount, draws)| == LedCount - 1
    ensures 0 !in RandomNumberWrites(LedCount, draws)
  {
    var t := Shuffled(OneToLedCount(), draws);
    RandomNumberWritesAsWritten(LedCount, draws);
    ShuffledKeepsEntries(OneToLedCount(), draws);
    assert OneToLedCount()[LedCount - 1] == LedCount;
    assert t[..LedCount] == t;
  }

  /**
   * The evidently intended behaviour, with the array filled with the pixel
   * indices 0 .. 59: `n` shuffled entries write exactly n distinct pixels.
   */
  function IntendedRandomNumberWrites(n: nat, draws: seq<int>): (w: set<int>)
    requires n <= LedCount && ValidDraws(draws, LedCount)
    ensures |w| == n
    ensures forall k :: k in w ==> 0 <= k < LedCount
  {
    var t := Shuffled(ZeroToLedCount(), draws);
    ShuffledKeepsEntries(ZeroToLedCount(), draws);
    assert forall x :: x in ZeroToLedCount() <==> 0 <= x < LedCount by {
      forall x | 0 <= x < LedCount ensures x in ZeroToLedCount() {
        assert ZeroToLedCount()[x] == x;
      }
    }
    PrefixDistinct(t, n);
    DistinctCard(t[..n]);
    assert forall x :: x in t[..n] ==> x in t;
    assert Written(t[..n]) == Elements(t[..n]);
    Written(t[..n])
  }

  /** The ring with exactly the pixels named in `idx` lit in `c`; an entry off the ring lights nothing. */
  function LightIndices(idx: seq<int>, c: Rgb): (r: seq<Rgb>)
    ensures |r| == LedCount
  {
    seq(LedCount, i => if i in idx then c else Off)
  }

  /** The pixels of `s` that are not dark. */
  function Lit(s: seq<Rgb>): set<int>
  {
    set i | 0 <= i < |s| && s[i] != Off
  }

  /** With a colour that is not dark, the lit pixels are exactly the pixels the indices write. */
  lemma LitIndices(idx: seq<int>, c: Rgb)
    requires c != Off
    ensures Lit(LightIndices(idx, c)) == Written(idx)
  {
    var r := LightIndices(idx, c);
    forall i ensures i in Lit(r) <==> i in Written(idx) {
      if 0 <= i < LedCount {
        assert r[i] == if i in idx then c else Off;
      }
    }
  }

  /**
   * As written: the ring after the random-number mode, which lights the
   * first `n` entries of the shuffled 1 .. 60 array in `c`.
   */
  function RandomNumberFrame(n: nat, draws: seq<int>, c: Rgb): (r: seq<Rgb>)
    requires n <= LedCount && ValidDraws(draws, LedCount)
    ensures |r| == LedCount
  {
    LightIndices(Shuffled(OneToLedCount(), draws)[..n], c)
  }

  /**
   * As written, with a colour that is not dark, the mode lights exactly the
   * pixels it writes: pixel 0 never, and n pixels, or n - 1 when the entry 60
   * is among the first n.
   */
  lemma RandomNumberFrameLit(n: nat, draws: seq<int>, c: Rgb)
    requires n <= LedCount && ValidDraws(draws, LedCount) && c != Off
    ensures Lit(RandomNumberFrame(n, draws, c)) == RandomNumberWrites(n, draws)
    ensures RandomNumberFrame(n, draws, c)[0] == Off
    ensures |Lit(RandomNumberFrame(n, draws, c))| ==
      if LedCount in Shuffled(OneToLedCount(), draws)[..n] then n - 1 else n
  {
    LitIndices(Shuffled(OneToLedCount(), draws)[..n], c);
    RandomNumberWritesAsWritten(n, draws);
  }

  /**
   * As written, asking for all 60 pixels in a colour that is not dark lights
   * only 59 of them, whatever the draws, and pixel 0 stays dark.
   */
  lemma RandomNumberFrameMissesOnePixel(draws: seq<int>, c: Rgb)
    requires ValidDraws(draws, LedCount) && c != Off
    ensures |Lit(RandomNumberFrame(LedCount, draws, c))| == LedCount - 1
    ensures RandomNumberFrame(LedCount, draws, c)[0] == Off
  {
    LitIndices(Shuffled(OneToLedCount(), draws)[..LedCount], c);
    RandomNumberMissesOnePixel(draws);
  }

  /**
   * The evidently intended ring after the random-number mode, with the array
   * filled with the pixel indices 0 .. 59.
   */
  function IntendedRandomNumberFrame(n: nat, draws: seq<int>, c: Rgb): (r: seq<Rgb>)
    requires n <= LedCount && ValidDraws(draws, LedCount)
    ensures |r| == LedCount
  {
    LightIndices(Shuffled(ZeroToLedCount(), draws)[..n], c)
  }

  /**
   * With a colour that is not dark, the intended mode lights exactly the
   * intended pixels, so exactly `n` distinct pixels are lit.
   */
  lemma RandomNumberLightsExactly(n: nat, draws: seq<int>, c: Rgb)
    requires n <= LedCount && ValidDraws(draws, LedCount) && c != Off
    ensures Lit(IntendedRandomNumberFrame(n, draws, c)) == IntendedRandomNumberWrites(n, draws)
    ensures |Lit(IntendedRandomNumberFrame(n, draws, c))| == n
  {
    LitIndices(Shuffled(ZeroToLedCount(), draws)[..n], c);
  }
}
