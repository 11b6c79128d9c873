/**
 * The part of one input-tree entry (an AnalysisEvent after GetEntry) that
 * the skim reads: the muon collection and the seven generator weights.
 */
module Events {
  import opened Kinematics

  datatype Event = Event(
    numMuons: int,
    muonEta: seq<real>,
    muonPx: seq<real>,
    muonPy: seq<real>,
    muonPz: seq<real>,
    muonE: seq<real>,
    origWeightForNorm: real,
    weightMuF0p5: real,
    weightMuR0p5: real,
    weightMuF0p5MuR0p5: real,
    weightMuF2: real,
    weightMuR2: real,
    weightMuF2MuR2: real)

  /** Number of generator weights whose signs are tallied. */
  const NumWeights: nat := 7

  /** Every muon index below numMuons has an entry in each branch. */
  predicate WellFormed(e: Event)
  {
    e.numMuons <= |e.muonEta| && e.numMuons <= |e.muonPx| && e.numMuons <= |e.muonPy|
    && e.numMuons <= |e.muonPz| && e.numMuons <= |e.muonE|
  }

  /** The four-momentum of muon j. */
  function Muon(e: Event, j: int): FourMomentum
    requires WellFormed(e) && 0 <= j < e.numMuons
  {
    FourMomentum(e.muonPx[j], e.muonPy[j], e.muonPz[j], e.muonE[j])
  }

  /** Weight i, in the order the counters are laid out (counter pair 2i, 2i+1). */
  function Weight(e: Event, i: nat): real
    requires i < NumWeights
  {
    match i
    case 0 => e.origWeightForNorm
    case 1 => e.weightMuF0p5
    case 2 => e.weightMuR0p5
    case 3 => e.weightMuF0p5MuR0p5
    case 4 => e.weightMuF2
    case 5 => e.weightMuR2
    case _ => e.weightMuF2MuR2
  }
}
