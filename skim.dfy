/**
 * Skimming one input file: every event is read in order, its generator
 * weights are tallied (MC with LHE weights only), it is written to the output
 * tree when it is kept, and at the end the weight histogram is filled.
 */
module Skim {
  import opened Wrappers
  import opened Events
  import opened MuonSelection
  import opened GeneratorWeights

  /**
   * What skimming one input file yields: the output tree and the weight
   * histogram, which the output file receives, and the final counters,
   * which stay local to the loop and are not written.
   */
  datatype SkimResult = SkimResult(tree: seq<Event>, summedWeights: seq<int>, histogram: Option<map<int, int>>)

  /** The result of skimming an input file holding events. */
  ghost function Skimmed(events: seq<Event>, isMC: bool, hasLHE: bool, disableCuts: bool): SkimResult
    requires forall e :: e in events ==> WellFormed(e)
  {
    var summed := SummedWeights(events, isMC && hasLHE);
    SkimResult(Kept(events, disableCuts), summed, WeightHistogram(summed, isMC, hasLHE))
  }

  /**
   * The body of the event loop: tally the event's weights when asked to,
   * then write it to the output tree when it is kept.
   */
  method SkimEvent(summedWeights: array<int>, outTree: seq<Event>, event: Event, ghost read: seq<Event>,
                   tally: bool, disableCuts: bool)
    returns (outTree': seq<Event>)
    requires WellFormed(event) && forall e :: e in read ==> WellFormed(e)
    requires summedWeights[..] == SummedWeights(read, tally)
    requires outTree == Kept(read, disableCuts)
    modifies summedWeights
    ensures summedWeights[..] == SummedWeights(read + [event], tally)
    ensures outTree' == Kept(read + [event], disableCuts)
  {
    if tally {
      TallyEvent(summedWeights, event);
      TallyExtends(summedWeights[..], read, event);
    } else {
      UntalliedIsZero(read, read + [event]);
    }
    KeptStep(read, event, disableCuts);
    outTree' := outTree;
    if disableCuts {
      outTree' := outTree' + [event];
    } else {
      var passMuonCut := PassMuonCut(event);
      if passMuonCut {
        outTree' := outTree' + [event];
      }
    }
  }

  method SkimFile(events: seq<Event>, isMC: bool, hasLHE: bool, disableCuts: bool) returns (r: SkimResult)
    requires forall e :: e in events ==> WellFormed(e)
    ensures r == Skimmed(events, isMC, hasLHE, disableCuts)
    ensures |r.tree| <= |events|
    ensures disableCuts ==> r.tree == events
    ensures !(isMC && hasLHE) ==> forall c :: 0 <= c < NumCounters ==> r.summedWeights[c] == 0
  {
    var summedWeights := new int[NumCounters](_ => 0);
    var outTree: seq<Event> := [];
    var i := 0;
    NoEventsNoCounts(isMC && hasLHE);
    assert summedWeights[..] == seq(NumCounters, _ => 0);
    while i < |events|
      invariant 0 <= i <= |events|
      invariant summedWeights[..] == SummedWeights(events[..i], isMC && hasLHE)
      invariant outTree == Kept(events[..i], disableCuts)
    {
      assert events[..i + 1] == events[..i] + [events[i]];
      outTree := SkimEvent(summedWeights, outTree, events[i], events[..i], isMC && hasLHE, disableCuts);
      i := i + 1;
    }
    assert events[..i] == events;
    if disableCuts {
      KeptAllWhenCutsDisabled(events);
    }
    var summed := summedWeights[..];
    r := SkimResult(outTree, summed, WeightHistogram(summed, isMC, hasLHE));
  }
}
