/**
 * The per-event dimuon selection of makeDatasetSkim: an event is kept when
 * some pair of muons passes the eta, pT and invariant-mass cuts, or when the
 * cuts are disabled.
 */
module MuonSelection {
  import opened Kinematics
  import opened Events

  const MinMuon1Pt: real := 15.0
  const MinMuon2Pt: real := 6.0
  const MaxMuonEta: real := 2.8
  const MaxInvZMass: real := 10.0

  function Max(x: real, y: real): real { if x < y then y else x }
  function Min(x: real, y: real): real { if x < y then x else y }

  /** A muon is skipped when |eta| exceeds the limit; the limit itself passes. */
  predicate PassesEta(eta: real)
  {
    !(Abs(eta) > MaxMuonEta)
  }

  lemma PassesEtaIsClosedInterval(eta: real)
    ensures PassesEta(eta) <==> -MaxMuonEta <= eta <= MaxMuonEta
  {
  }

  /**
   * The pT test as written on the two pT values: the harder muon must reach
   * MinMuon1Pt and the other MinMuon2Pt. Equal pTs take the else branch.
   */
  function PassesPt(pt1: real, pt2: real): (r: bool)
    ensures r <==> Max(pt1, pt2) >= MinMuon1Pt && Min(pt1, pt2) >= MinMuon2Pt
  {
    if pt1 > pt2 then !(pt1 < MinMuon1Pt || pt2 < MinMuon2Pt)
    else !(pt2 < MinMuon1Pt || pt1 < MinMuon2Pt)
  }

  /** The same test evaluated on squared pT values, as the model computes it. */
  function PassesPtSquared(q1: real, q2: real): (r: bool)
    ensures r <==> Max(q1, q2) >= MinMuon1Pt * MinMuon1Pt && Min(q1, q2) >= MinMuon2Pt * MinMuon2Pt
  {
    if q1 > q2 then !(q1 < MinMuon1Pt * MinMuon1Pt || q2 < MinMuon2Pt * MinMuon2Pt)
    else !(q2 < MinMuon1Pt * MinMuon1Pt || q1 < MinMuon2Pt * MinMuon2Pt)
  }

  /** The mass test as written, on ROOT's signed mass; the limit itself passes. */
  predicate PassesMass(m: real)
  {
    m <= MaxInvZMass
  }

  /** The mass test on the squared mass. */
  predicate PassesMassSquared(m2: real)
  {
    m2 <= MaxInvZMass * MaxInvZMass
  }

  /** The squared pT test decides exactly as the test on the pT values. */
  lemma PtTestOnSquares(a: FourMomentum, b: FourMomentum, pt1: real, pt2: real)
    requires IsPt(a, pt1) && IsPt(b, pt2)
    ensures PassesPtSquared(PtSquared(a), PtSquared(b)) == PassesPt(pt1, pt2)
  {
    SquareMonotone(pt1, pt2);
    SquareMonotone(pt2, pt1);
    SquareMonotone(pt1, MinMuon1Pt);
    SquareMonotone(pt2, MinMuon1Pt);
    SquareMonotone(pt1, MinMuon2Pt);
    SquareMonotone(pt2, MinMuon2Pt);
  }

  /** The squared mass test decides exactly as the test on ROOT's signed mass. */
  lemma MassTestOnSquares(p: FourMomentum, m: real)
    requires IsMass(p, m)
    ensures PassesMassSquared(MassSquared(p)) == PassesMass(m)
  {
    if MassSquared(p) >= 0.0 {
      SquareMonotone(MaxInvZMass, m);
    }
  }

  /** Muons j and k form an accepted pair. */
  predicate PairAccepted(e: Event, j: int, k: int)
    requires WellFormed(e) && 0 <= j < e.numMuons && 0 <= k < e.numMuons
  {
    PassesEta(e.muonEta[j]) && PassesEta(e.muonEta[k])
    && PassesPtSquared(PtSquared(Muon(e, j)), PtSquared(Muon(e, k)))
    && PassesMassSquared(MassSquared(Sum(Muon(e, j), Muon(e, k))))
  }

  /**
   * Given the pTs and the pair mass as ROOT would compute them, PairAccepted
   * is the source's test: both |eta| within the limit, the pT test, mass at
   * most MaxInvZMass.
   */
  lemma PairAcceptedIsSourceTest(e: Event, j: int, k: int, pt1: real, pt2: real, m: real)
    requires WellFormed(e) && 0 <= j < e.numMuons && 0 <= k < e.numMuons
    requires IsPt(Muon(e, j), pt1) && IsPt(Muon(e, k), pt2)
    requires IsMass(Sum(Muon(e, j), Muon(e, k)), m)
    ensures PairAccepted(e, j, k) <==>
      PassesEta(e.muonEta[j]) && PassesEta(e.muonEta[k]) && PassesPt(pt1, pt2) && PassesMass(m)
  {
    PtTestOnSquares(Muon(e, j), Muon(e, k), pt1, pt2);
    MassTestOnSquares(Sum(Muon(e, j), Muon(e, k)), m);
  }

  /** Acceptance does not depend on which muon of the pair comes first. */
  lemma PairAcceptedSymmetric(e: Event, j: int, k: int)
    requires WellFormed(e) && 0 <= j < e.numMuons && 0 <= k < e.numMuons
    ensures PairAccepted(e, j, k) == PairAccepted(e, k, j)
  {
    assert Sum(Muon(e, j), Muon(e, k)) == Sum(Muon(e, k), Muon(e, j));
  }

  /** A muon outside the eta acceptance is in no accepted pair, in either position. */
  lemma ForwardMuonNeverPaired(e: Event, j: int)
    requires WellFormed(e) && 0 <= j < e.numMuons
    requires Abs(e.muonEta[j]) > MaxMuonEta
    ensures forall k :: 0 <= k < e.numMuons ==> !PairAccepted(e, j, k) && !PairAccepted(e, k, j)
  {
  }

  /** The event passes the muon cut: some pair j < k is accepted. */
  ghost predicate HasAcceptedPair(e: Event)
  {
    WellFormed(e) && exists j, k :: 0 <= j < k < e.numMuons && PairAccepted(e, j, k)
  }

  /** Equivalently, some pair of distinct muons is accepted, whichever index is larger. */
  lemma HasAcceptedPairUnordered(e: Event)
    requires WellFormed(e)
    ensures HasAcceptedPair(e) <==>
      exists j, k :: 0 <= j < e.numMuons && 0 <= k < e.numMuons && j != k && PairAccepted(e, j, k)
  {
    if j, k :| 0 <= j < e.numMuons && 0 <= k < e.numMuons && j != k && PairAccepted(e, j, k) {
      if k < j {
        PairAcceptedSymmetric(e, j, k);
        assert PairAccepted(e, k, j);
      }
    }
  }

  /** An event with fewer than two muons never passes. */
  lemma FewMuonsNeverPass(e: Event)
    requires WellFormed(e) && e.numMuons < 2
    ensures !HasAcceptedPair(e)
  {
  }

  /**
   * The nested selection loop. Muons outside the eta acceptance are
   * skipped, the first accepted pair sets the flag and both loops stop.
   */
  method PassMuonCut(e: Event) returns (passMuonCut: bool)
    requires WellFormed(e)
    ensures passMuonCut <==> HasAcceptedPair(e)
  {
    passMuonCut := false;
    var j := 0;
    while j < e.numMuons
      invariant 0 <= j
      invariant passMuonCut ==> HasAcceptedPair(e)
      invariant !passMuonCut ==>
        forall j', k' :: 0 <= j' < j && j' < k' < e.numMuons ==> !PairAccepted(e, j', k')
    {
      if Abs(e.muonEta[j]) > MaxMuonEta {
        j := j + 1;
        continue;
      }
      var k := j + 1;
      while k < e.numMuons
        invariant j + 1 <= k <= e.numMuons
        invariant passMuonCut ==> HasAcceptedPair(e)
        invariant !passMuonCut ==> forall k' :: j < k' < k ==> !PairAccepted(e, j, k')
      {
        if Abs(e.muonEta[k]) > MaxMuonEta {
          k := k + 1;
          continue;
        }
        var muon1 := Muon(e, j);
        var muon2 := Muon(e, k);
        var pt1 := PtSquared(muon1);
        var pt2 := PtSquared(muon2);
        if pt1 > pt2 {
          if pt1 < MinMuon1Pt * MinMuon1Pt || pt2 < MinMuon2Pt * MinMuon2Pt {
            k := k + 1;
            continue;
          }
        } else {
          if pt2 < MinMuon1Pt * MinMuon1Pt || pt1 < MinMuon2Pt * MinMuon2Pt {
            k := k + 1;
            continue;
          }
        }
        var invMass := MassSquared(Sum(muon1, muon2));
        if invMass <= MaxInvZMass * MaxInvZMass {
          assert PairAccepted(e, j, k);
          passMuonCut := true;
          break;
        }
        k := k + 1;
      }
      if passMuonCut {
        break;
      }
      j := j + 1;
    }
  }

  /** Whether the event is written to the output tree. */
  ghost predicate KeepEvent(e: Event, disableCuts: bool)
    requires WellFormed(e)
  {
    disableCuts || HasAcceptedPair(e)
  }

  /** The events written to the output tree, in input order. */
  ghost function Kept(events: seq<Event>, disableCuts: bool): (written: seq<Event>)
    requires forall e :: e in events ==> WellFormed(e)
    ensures |written| <= |events|
    ensures forall e :: e in written ==> e in events && KeepEvent(e, disableCuts)
    ensures forall e :: e in events && KeepEvent(e, disableCuts) ==> e in written
  {
    if events == [] then []
    else
      var last := events[|events| - 1];
      Kept(events[..|events| - 1], disableCuts) + (if KeepEvent(last, disableCuts) then [last] else [])
  }

  /** Reading one more event appends it to the output exactly when it is kept. */
  lemma KeptStep(events: seq<Event>, e: Event, disableCuts: bool)
    requires forall x :: x in events ==> WellFormed(x)
    requires WellFormed(e)
    ensures Kept(events + [e], disableCuts) == Kept(events, disableCuts) + (if KeepEvent(e, disableCuts) then [e] else [])
  {
    assert (events + [e])[..|events|] == events;
  }

  /** With the cuts disabled every event is written, in order. */
  lemma {:induction false} KeptAllWhenCutsDisabled(events: seq<Event>)
    requires forall e :: e in events ==> WellFormed(e)
    ensures Kept(events, true) == events
  {
    if events != [] {
      KeptAllWhenCutsDisabled(events[..|events| - 1]);
      assert events[..|events| - 1] + [events[|events| - 1]] == events;
    }
  }
}
