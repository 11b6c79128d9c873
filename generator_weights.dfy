/**
 * The sign tally of the seven generator weights and the histogram
 * "sumNumPosMinusNegWeights" it is written to.
 *
 * summedWeights holds 14 unsigned 32-bit counters: weight i increments
 * counter 2i when it is non-negative and counter 2i+1 when it is negative.
 * At the end of a file each pair's difference goes into a fixed bin.
 */
module GeneratorWeights {
  import opened Wrappers
  import opened Events

  const NumCounters: nat := 14
  /** Modulus of unsigned int arithmetic. */
  const U32: int := 0x1_0000_0000
  /** Filled into every bin by MC runs without LHE weights. */
  const NoLheSentinel: int := -666

  /** The counter weight i of event e increments. */
  function CounterOf(e: Event, i: nat): (c: nat)
    requires i < NumWeights
    ensures c / 2 == i
    ensures c % 2 == 0 <==> Weight(e, i) >= 0.0
  {
    if Weight(e, i) >= 0.0 then 2 * i else 2 * i + 1
  }

  /** How many events of evs increment counter c (an exact count, no wrap-around). */
  ghost function Count(evs: seq<Event>, c: nat): (n: nat)
    requires c < NumCounters
    ensures n <= |evs|
  {
    if evs == [] then 0
    else Count(evs[..|evs| - 1], c) + (if CounterOf(evs[|evs| - 1], c / 2) == c then 1 else 0)
  }

  /** Every event lands in exactly one counter of each pair. */
  lemma {:induction false} PairCountsEveryEvent(evs: seq<Event>, i: nat)
    requires i < NumWeights
    ensures Count(evs, 2 * i) + Count(evs, 2 * i + 1) == |evs|
  {
    if evs != [] {
      PairCountsEveryEvent(evs[..|evs| - 1], i);
      var c := CounterOf(evs[|evs| - 1], i);
      assert c == 2 * i || c == 2 * i + 1;
    }
  }

  /** The counters after tallying evs (all zero when nothing is tallied). */
  ghost function SummedWeights(evs: seq<Event>, tally: bool): (summed: seq<int>)
    ensures |summed| == NumCounters
    ensures forall c :: 0 <= c < NumCounters ==> 0 <= summed[c] < U32
    ensures !tally ==> forall c :: 0 <= c < NumCounters ==> summed[c] == 0
  {
    seq(NumCounters, c requires 0 <= c < NumCounters => if tally then Count(evs, c) % U32 else 0)
  }

  /** Before any event is read, every counter is zero, as summedWeights{} initialises them. */
  lemma NoEventsNoCounts(tally: bool)
    ensures SummedWeights([], tally) == seq(NumCounters, _ => 0)
  {
  }

  /** Without tallying, the counters do not depend on the events read. */
  lemma UntalliedIsZero(evs: seq<Event>, evs': seq<Event>)
    ensures SummedWeights(evs, false) == SummedWeights(evs', false)
  {
  }

  /** For fewer than 2^32 events the counters of each pair add up to the number of events. */
  lemma SummedWeightsPairTotal(evs: seq<Event>, i: nat)
    requires i < NumWeights && |evs| < U32
    ensures SummedWeights(evs, true)[2 * i] + SummedWeights(evs, true)[2 * i + 1] == |evs|
  {
    PairCountsEveryEvent(evs, i);
    var pos, neg := Count(evs, 2 * i), Count(evs, 2 * i + 1);
    assert pos < U32 && neg < U32;
    assert SummedWeights(evs, true)[2 * i] == pos % U32 == pos;
    assert SummedWeights(evs, true)[2 * i + 1] == neg % U32 == neg;
  }

  /** summedWeights[c]++ on an unsigned int. */
  method Increment(summedWeights: array<int>, c: nat)
    requires c < summedWeights.Length
    modifies summedWeights
    ensures summedWeights[..] == old(summedWeights[..])[c := (old(summedWeights[c]) + 1) % U32]
  {
    summedWeights[c] := (summedWeights[c] + 1) % U32;
  }

  /** The counters now are those before, with the increments of weights 0 .. k-1 of e applied. */
  ghost predicate TalliedUpTo(now: seq<int>, before: seq<int>, e: Event, k: nat)
    requires k <= NumWeights
  {
    |now| == |before| == NumCounters
    && forall c :: 0 <= c < NumCounters ==>
      now[c] == if c < 2 * k && CounterOf(e, c / 2) == c then (before[c] + 1) % U32 else before[c]
  }

  /** Applying the increment of weight k to counters tallied up to k tallies up to k + 1. */
  lemma TallyOne(now: seq<int>, before: seq<int>, e: Event, k: nat, next: seq<int>)
    requires k < NumWeights && TalliedUpTo(now, before, e, k)
    requires var c := CounterOf(e, k); next == now[c := (now[c] + 1) % U32]
    ensures TalliedUpTo(next, before, e, k + 1)
  {
  }

  /** The seven conditional increments made for one MC event with LHE weights. */
  method TallyEvent(summedWeights: array<int>, e: Event)
    requires summedWeights.Length == NumCounters
    modifies summedWeights
    ensures TalliedUpTo(summedWeights[..], old(summedWeights[..]), e, NumWeights)
  {
    ghost var before := summedWeights[..];
    ghost var now := before;
    Increment(summedWeights, CounterOf(e, 0));
    TallyOne(now, before, e, 0, summedWeights[..]);
    now := summedWeights[..];
    Increment(summedWeights, CounterOf(e, 1));
    TallyOne(now, before, e, 1, summedWeights[..]);
    now := summedWeights[..];
    Increment(summedWeights, CounterOf(e, 2));
    TallyOne(now, before, e, 2, summedWeights[..]);
    now := summedWeights[..];
    Increment(summedWeights, CounterOf(e, 3));
    TallyOne(now, before, e, 3, summedWeights[..]);
    now := summedWeights[..];
    Increment(summedWeights, CounterOf(e, 4));
    TallyOne(now, before, e, 4, summedWeights[..]);
    now := summedWeights[..];
    Increment(summedWeights, CounterOf(e, 5));
    TallyOne(now, before, e, 5, summedWeights[..]);
    now := summedWeights[..];
    Increment(summedWeights, CounterOf(e, 6));
    TallyOne(now, before, e, 6, summedWeights[..]);
  }

  lemma ModIncrement(x: int)
    ensures (x % U32 + 1) % U32 == (x + 1) % U32
  {
  }

  /** Tallying one more event moves the counters from SummedWeights(evs) to SummedWeights(evs + [e]). */
  lemma SummedWeightsStep(evs: seq<Event>, e: Event, c: nat)
    requires c < NumCounters
    ensures SummedWeights(evs + [e], true)[c] ==
      if CounterOf(e, c / 2) == c then (SummedWeights(evs, true)[c] + 1) % U32 else SummedWeights(evs, true)[c]
  {
    assert (evs + [e])[..|evs|] == evs;
    ModIncrement(Count(evs, c));
  }

  /** Tallying event e onto the counters of evs gives the counters of evs + [e]. */
  lemma TallyExtends(now: seq<int>, evs: seq<Event>, e: Event)
    requires TalliedUpTo(now, SummedWeights(evs, true), e, NumWeights)
    ensures now == SummedWeights(evs + [e], true)
  {
    forall c | 0 <= c < NumCounters
      ensures now[c] == SummedWeights(evs + [e], true)[c]
    {
      SummedWeightsStep(evs, e, c);
    }
  }

  /** Centre of the bin that receives the difference of counter pair i. */
  function BinCentre(i: nat): (b: int)
    requires i < NumWeights
    ensures b in Bins
  {
    match i
    case 0 => 0
    case 1 => -1
    case 2 => -2
    case 3 => -3
    case 4 => 1
    case 5 => 2
    case _ => 3
  }

  /** The counter pair whose difference bin b receives. */
  function PairOfBin(b: int): (i: nat)
    requires b in Bins
    ensures i < NumWeights && BinCentre(i) == b
  {
    if b <= 0 then -b else b + 3
  }

  /** The seven counter pairs go to seven different bins, and every bin gets one. */
  lemma BinCentreIsBijective()
    ensures forall i, i' :: 0 <= i < NumWeights && 0 <= i' < NumWeights && BinCentre(i) == BinCentre(i') ==> i == i'
    ensures (set i | 0 <= i < NumWeights :: BinCentre(i)) == Bins
  {
    forall b | b in Bins
      ensures b in (set i | 0 <= i < NumWeights :: BinCentre(i))
    {
      var i := PairOfBin(b);
      assert BinCentre(i) == b;
    }
  }

  /** The bins of the 7-bin histogram over [-3.5, 3.5), keyed by their centres. */
  const Bins: set<int> := {-3, -2, -1, 0, 1, 2, 3}

  /**
   * The bin lookup of the 7 unit-width bins over [-3.5, 3.5): the centre of
   * the bin whose range [b - 0.5, b + 0.5) holds x, or None below or above
   * the axis.
   */
  function BinOf(x: real): (b: Option<int>)
    ensures b.Some? <==> -3.5 <= x < 3.5
    ensures b.Some? ==> b.value in Bins && b.value as real - 0.5 <= x < b.value as real + 0.5
  {
    if -3.5 <= x < 3.5 then Some((x + 0.5).Floor) else None
  }

  /** The bins do not overlap: a value inside bin b's range is looked up as b and as no other bin. */
  lemma BinOfUnique(x: real, b: int)
    requires b in Bins && b as real - 0.5 <= x < b as real + 0.5
    ensures BinOf(x) == Some(b)
  {
    var c := BinOf(x).value;
    assert c as real - 0.5 <= x < c as real + 0.5;
    assert c - 1 < b < c + 1 by {
      assert (c - 1) as real < b as real < (c + 1) as real;
    }
  }

  /** The value each counter pair is filled at lies in that pair's own bin. */
  lemma BinCentreFillsOwnBin(i: nat)
    requires i < NumWeights
    ensures BinOf(BinCentre(i) as real) == Some(BinCentre(i))
  {
    BinOfUnique(BinCentre(i) as real, BinCentre(i));
  }

  /** A freshly booked histogram: every bin empty. */
  function EmptyHistogram(): (h: map<int, int>)
    ensures h.Keys == Bins
    ensures forall b :: b in h ==> h[b] == 0
  {
    map b | b in Bins :: 0
  }

  /**
   * TH1I::Fill(x, w): adds w to the content of the bin that holds x. The
   * under- and overflow bins are not kept, so a value off the axis changes
   * no bin.
   */
  function Fill(h: map<int, int>, x: real, w: int): (h': map<int, int>)
    ensures h'.Keys == h.Keys
    ensures BinOf(x).Some? && BinOf(x).value in h ==> h'[BinOf(x).value] == h[BinOf(x).value] + w
    ensures forall b :: b in h && BinOf(x) != Some(b) ==> h'[b] == h[b]
  {
    match BinOf(x)
    case Some(b) => if b in h then h[b := h[b] + w] else h
    case None => h
  }

  /**
   * The histogram after the first k fills of the source, in its order: pair
   * i's value filled at its bin centre for every i < k, the other bins still
   * empty.
   */
  function FillPairs(values: seq<int>, k: nat): (h: map<int, int>)
    requires |values| == NumWeights && k <= NumWeights
    ensures h.Keys == Bins
    ensures forall i :: 0 <= i < k ==> h[BinCentre(i)] == values[i]
    ensures forall i :: k <= i < NumWeights ==> h[BinCentre(i)] == 0
  {
    if k == 0 then EmptyHistogram()
    else
      BinCentreFillsOwnBin(k - 1);
      assert forall i :: 0 <= i < NumWeights && i != k - 1 ==> BinCentre(i) != BinCentre(k - 1);
      Fill(FillPairs(values, k - 1), BinCentre(k - 1) as real, values[k - 1])
  }

  /**
   * The difference of a counter pair as written: an unsigned int
   * subtraction, so it wraps modulo 2^32 when neg exceeds pos.
   */
  function PosMinusNegAsWritten(pos: int, neg: int): (d: int)
    requires 0 <= pos < U32 && 0 <= neg < U32
    ensures 0 <= d < U32
    ensures pos >= neg ==> d == pos - neg
    ensures pos < neg ==> d == U32 + pos - neg
  {
    (pos - neg) % U32
  }

  /** The evidently intended signed difference, which the histogram below is filled with. */
  function PosMinusNeg(pos: int, neg: int): (d: int)
    ensures d < 0 <==> pos < neg
    ensures d + neg == pos
  {
    pos - neg
  }

  /** One event with a negative nominal weight: the as-written difference is 2^32 - 1, not -1. */
  lemma PosMinusNegAsWrittenWraps()
    ensures var e := Event(0, [], [], [], [], [], -1.0, 1.0, 1.0, 1.0, 1.0, 1.0, 1.0);
      var summed := SummedWeights([e], true);
      PosMinusNegAsWritten(summed[0], summed[1]) == U32 - 1
      && PosMinusNeg(summed[0], summed[1]) == -1
  {
    var e := Event(0, [], [], [], [], [], -1.0, 1.0, 1.0, 1.0, 1.0, 1.0, 1.0);
    assert [e][..0] == [];
    assert CounterOf(e, 0) == 1;
    assert Count([e], 0) == 0 && Count([e], 1) == 1;
  }

  /** The two differences agree whenever the counters hold no more negative than non-negative entries. */
  lemma PosMinusNegAgreesWhenNotNegative(pos: int, neg: int)
    requires 0 <= neg <= pos < U32
    ensures PosMinusNegAsWritten(pos, neg) == PosMinusNeg(pos, neg)
  {
  }

  /**
   * For fewer than 2^32 events, the value a pair's bin receives is the number
   * of events whose weight is non-negative minus the number whose weight is
   * negative.
   */
  lemma {:induction false} BinValueCountsSigns(evs: seq<Event>, i: nat)
    requires i < NumWeights && |evs| < U32
    ensures var summed := SummedWeights(evs, true);
      PosMinusNeg(summed[2 * i], summed[2 * i + 1]) == Count(evs, 2 * i) - Count(evs, 2 * i + 1)
      && PosMinusNeg(summed[2 * i], summed[2 * i + 1]) == 2 * Count(evs, 2 * i) - |evs|
  {
    PairCountsEveryEvent(evs, i);
  }

  /** The signed difference of each counter pair, in pair order. */
  function PairDifferences(summed: seq<int>): (d: seq<int>)
    requires |summed| == NumCounters
    ensures |d| == NumWeights
    ensures forall i :: 0 <= i < NumWeights ==> d[i] == PosMinusNeg(summed[2 * i], summed[2 * i + 1])
  {
    seq(NumWeights, i requires 0 <= i < NumWeights => PosMinusNeg(summed[2 * i], summed[2 * i + 1]))
  }

  /** The unsigned difference of each counter pair, in pair order. */
  function PairDifferencesAsWritten(summed: seq<int>): (d: seq<int>)
    requires |summed| == NumCounters && forall c :: 0 <= c < NumCounters ==> 0 <= summed[c] < U32
    ensures |d| == NumWeights
    ensures forall i :: 0 <= i < NumWeights ==> d[i] == PosMinusNegAsWritten(summed[2 * i], summed[2 * i + 1])
  {
    seq(NumWeights, i requires 0 <= i < NumWeights => PosMinusNegAsWritten(summed[2 * i], summed[2 * i + 1]))
  }

  /** Filling the same value at every pair's bin centre puts it in every bin. */
  lemma FillPairsConstant(values: seq<int>, v: int)
    requires |values| == NumWeights && forall i :: 0 <= i < NumWeights ==> values[i] == v
    ensures forall b :: b in FillPairs(values, NumWeights) ==> FillPairs(values, NumWeights)[b] == v
  {
    var h := FillPairs(values, NumWeights);
    forall b | b in h
      ensures h[b] == v
    {
      var i := PairOfBin(b);
      assert h[BinCentre(i)] == values[i];
    }
  }

  /**
   * The histogram a file's output gets: none for data; for MC with LHE
   * weights each counter pair's signed difference in its fixed bin; for MC
   * without LHE weights the sentinel in every bin.
   */
  function WeightHistogram(summed: seq<int>, isMC: bool, hasLHE: bool): (h: Option<map<int, int>>)
    requires |summed| == NumCounters
    ensures h.Some? <==> isMC
    ensures isMC ==> h.value.Keys == Bins
    ensures isMC && hasLHE ==> forall i :: 0 <= i < NumWeights ==>
      h.value[BinCentre(i)] == PosMinusNeg(summed[2 * i], summed[2 * i + 1])
    ensures isMC && !hasLHE ==> forall b :: b in h.value ==> h.value[b] == NoLheSentinel
  {
    if !isMC then None
    else if hasLHE then Some(FillPairs(PairDifferences(summed), NumWeights))
    else
      var sentinels := seq(NumWeights, _ => NoLheSentinel);
      FillPairsConstant(sentinels, NoLheSentinel);
      Some(FillPairs(sentinels, NumWeights))
  }

  /**
   * The histogram as the source fills it: the same as WeightHistogram except
   * that with LHE weights each bin receives the unsigned difference.
   */
  function WeightHistogramAsWritten(summed: seq<int>, isMC: bool, hasLHE: bool): (h: Option<map<int, int>>)
    requires |summed| == NumCounters && forall c :: 0 <= c < NumCounters ==> 0 <= summed[c] < U32
    ensures h.Some? <==> isMC
    ensures isMC ==> h.value.Keys == Bins
    ensures isMC && hasLHE ==> forall i :: 0 <= i < NumWeights ==>
      h.value[BinCentre(i)] == PosMinusNegAsWritten(summed[2 * i], summed[2 * i + 1])
    ensures !(isMC && hasLHE) ==> h == WeightHistogram(summed, isMC, hasLHE)
  {
    if isMC && hasLHE then Some(FillPairs(PairDifferencesAsWritten(summed), NumWeights))
    else WeightHistogram(summed, isMC, hasLHE)
  }

  /** The histogram as written and the corrected one are the same when no pair holds more negative than non-negative entries. */
  lemma WeightHistogramAgreesWhenNotNegative(summed: seq<int>, isMC: bool, hasLHE: bool)
    requires |summed| == NumCounters && forall c :: 0 <= c < NumCounters ==> 0 <= summed[c] < U32
    requires forall i :: 0 <= i < NumWeights ==> summed[2 * i + 1] <= summed[2 * i]
    ensures WeightHistogramAsWritten(summed, isMC, hasLHE) == WeightHistogram(summed, isMC, hasLHE)
  {
    if isMC && hasLHE {
      forall i | 0 <= i < NumWeights
        ensures PairDifferencesAsWritten(summed)[i] == PairDifferences(summed)[i]
      {
        PosMinusNegAgreesWhenNotNegative(summed[2 * i], summed[2 * i + 1]);
      }
      assert PairDifferencesAsWritten(summed) == PairDifferences(summed);
    }
  }

  /**
   * A file of one MC event with LHE weights whose nominal weight is negative:
   * the source fills 2^32 - 1 into bin 0 where the corrected histogram holds -1.
   */
  lemma WeightHistogramAsWrittenWraps()
    ensures var e := Event(0, [], [], [], [], [], -1.0, 1.0, 1.0, 1.0, 1.0, 1.0, 1.0);
      var summed := SummedWeights([e], true);
      WeightHistogramAsWritten(summed, true, true).value[0] == U32 - 1
      && WeightHistogram(summed, true, true).value[0] == -1
  {
    PosMinusNegAsWrittenWraps();
    var e := Event(0, [], [], [], [], [], -1.0, 1.0, 1.0, 1.0, 1.0, 1.0, 1.0);
    var summed := SummedWeights([e], true);
    assert BinCentre(0) == 0;
    assert WeightHistogramAsWritten(summed, true, true).value[BinCentre(0)] == PosMinusNegAsWritten(summed[0], summed[1]);
  }
}
