# makeDatasetSkim, modelled in Dafny

The skimming tool `Skimmer/bin/makeDatasetSkim.cpp` reads the N-tuple files
of a dataset, one ROOT file at a time, and writes a reduced copy of each file
into `datasetName/skimFile<n>.root`. This project models what its `main` decides:

- **Which inputs are skimmed and where their outputs go** (`FileNumbering`,
  `DatasetSkim`). Every regular file whose whole path matches `.*\.root`
  takes the next file number. Its output goes to
  `datasetName/skimFile<n>.root`, unless a regular file of that name already
  exists; then the input is skipped but its number is still used up.
- **Which events are written to the output tree** (`MuonSelection`). An event
  is written when some pair of muons has both |eta| ≤ 2.8, the harder muon
  pT ≥ 15 and the other pT ≥ 6, and an invariant mass ≤ 10. With cuts disabled,
  every event is written.
- **The generator-weight sign tally** (`GeneratorWeights`). For MC with LHE
  weights, each of the seven weights bumps one of 14 unsigned 32-bit counters
  per event: the non-negative counter or the negative one. Each pair's
  difference is filled into a fixed bin of the 7-bin histogram
  `sumNumPosMinusNegWeights`. MC without LHE weights fills -666 into every bin.
  Data writes no histogram. The source subtracts the counters as unsigned
  ints, which wraps when a pair holds more negative than non-negative entries
  (see "## Findings"). The model has both histograms:
  `GeneratorWeights.WeightHistogramAsWritten` is the one the source fills, and
  `GeneratorWeights.WeightHistogram`, filled with the signed difference, is the
  one a file's skim is stated with.
- **One file's skim** (`Skim.SkimFile`). The event loop tallies the weights
  in a 14-slot array, grows the output tree, and fills the histogram at the end.

Modules: `Wrappers` (Option), `Kinematics` (four-momenta), `Events` (the
event record), `MuonSelection`, `GeneratorWeights`, `Skim`, `FileNumbering`,
`DatasetSkim`.

Modelling choices:

- **Kinematics.** pT and the invariant mass are real numbers and are never
  computed as square roots. `Kinematics.IsPt` says what it means for a real
  number to be the pT of a four-momentum. `Kinematics.IsMass` does the same
  for ROOT's signed mass, which is -sqrt(-M²) for a space-like vector. The
  selection compares squares. `MuonSelection.PairAcceptedIsSourceTest` proves
  that this decides exactly as the tests on pT and mass written in the source.
- **Inputs as values.** A directory listing is a sequence of (path, is-regular)
  entries. The regular files on disk are a set of paths; each output the run
  creates is added to that set. Reading an input file is a function from its
  path to its events. The 14 counters are an `array<int>` that is incremented
  in place, modulo 2^32.
- **Regular expression.** The mask `.*\.root` is matched the way
  `std::regex_match` does with the ECMAScript grammar on `char`. There, `.`
  matches anything except `'\n'` and `'\r'`. So a path matches exactly when it
  ends in `.root` and has no line terminator before that suffix.
- **Stale comment.** The comment at `Skimmer/bin/makeDatasetSkim.cpp:88` says
  "except for the last two". The code never overwrites an existing output, and
  the model follows the code (`DatasetSkim.MakeDatasetSkim`, `written.Keys !! existing`).

## Model

| member | source | states |
|---|---|---|
| `Kinematics.Sum` | Skimmer/bin/makeDatasetSkim.cpp:169 | defines `muon1 + muon2` as the component-wise sum of the two four-momenta |
| `Kinematics.IsPt` | Skimmer/bin/makeDatasetSkim.cpp:161-168 | defines what `Pt()` returns: the non-negative pt whose square is px² + py² |
| `Kinematics.IsMass` | Skimmer/bin/makeDatasetSkim.cpp:169 | defines what `M()` returns: sqrt(M²) for M² ≥ 0, and ROOT's -sqrt(-M²) for a space-like vector |
| `MuonSelection.PassesEtaIsClosedInterval` | Skimmer/bin/makeDatasetSkim.cpp:153-160 | a muon passes the eta test exactly when -2.8 ≤ eta ≤ 2.8; the boundary passes because the skip test is a strict `>` |
| `MuonSelection.PassesEta` | Skimmer/bin/makeDatasetSkim.cpp:158-160 | defines the eta test: a muon is skipped when abs(eta) > 2.8; `PassesEtaIsClosedInterval` is its partner |
| `MuonSelection.PassesPt` | Skimmer/bin/makeDatasetSkim.cpp:151-168 | the two-branch pT test holds exactly when max(pT) ≥ 15 and min(pT) ≥ 6, so it is symmetric; equal pTs take the else branch with the same thresholds |
| `MuonSelection.PassesPtSquared` | Skimmer/bin/makeDatasetSkim.cpp:163-168 | the same branch structure on squared pT holds exactly when the larger square ≥ 225 and the smaller ≥ 36 |
| `MuonSelection.PassesMass` | Skimmer/bin/makeDatasetSkim.cpp:169-170 | defines the mass test on ROOT's mass value: the pair passes when the mass is at most 10; `MassTestOnSquares` is its partner |
| `MuonSelection.PtTestOnSquares` | Skimmer/bin/makeDatasetSkim.cpp:161-168 | for non-negative pTs whose squares are px²+py², the squared test decides exactly as the test on the pT values |
| `MuonSelection.MassTestOnSquares` | Skimmer/bin/makeDatasetSkim.cpp:169-170 | for ROOT's signed mass m of the pair, `m <= 10` holds exactly when M² ≤ 100; the boundary is included |
| `MuonSelection.PairAccepted` | Skimmer/bin/makeDatasetSkim.cpp:158-173 | defines acceptance of muons j and k on squares: both pass the eta test, the pT test holds on their squared pTs and the squared mass of their sum is at most 100; `PairAcceptedIsSourceTest` is its partner |
| `MuonSelection.PairAcceptedIsSourceTest` | Skimmer/bin/makeDatasetSkim.cpp:153-173 | a pair is accepted exactly when both pass the eta test, the pT test on their pTs holds and their mass is ≤ 10 |
| `MuonSelection.PairAcceptedSymmetric` | Skimmer/bin/makeDatasetSkim.cpp:159-173 | pair acceptance does not depend on the order of the two muons |
| `MuonSelection.ForwardMuonNeverPaired` | Skimmer/bin/makeDatasetSkim.cpp:157-160 | a muon with abs(eta) > 2.8 takes part in no accepted pair, in either position |
| `MuonSelection.HasAcceptedPairUnordered` | Skimmer/bin/makeDatasetSkim.cpp:157-176 | "some pair j < k is accepted" is the same as "some pair of distinct muons is accepted" |
| `MuonSelection.HasAcceptedPair` | Skimmer/bin/makeDatasetSkim.cpp:155-176 | defines the value `passMuonCut` should end with: the event is well formed and some pair j < k of its muons is accepted; `PassMuonCut` is proved against it |
| `MuonSelection.FewMuonsNeverPass` | Skimmer/bin/makeDatasetSkim.cpp:157-159 | an event with fewer than two muons never passes the muon cut |
| `MuonSelection.PassMuonCut` | Skimmer/bin/makeDatasetSkim.cpp:155-176 | the nested loop with its `continue`s and early `break`s sets the flag exactly when some pair j < k is accepted |
| `MuonSelection.KeepEvent` | Skimmer/bin/makeDatasetSkim.cpp:147-177 | defines when an event is written to the output tree: cuts are disabled, or some pair of its muons is accepted |
| `MuonSelection.Kept` | Skimmer/bin/makeDatasetSkim.cpp:147-177 | the output tree holds at most as many events as were read; an event is in it exactly when it was read and is kept (cuts disabled or muon cut passed) |
| `MuonSelection.KeptAllWhenCutsDisabled` | Skimmer/bin/makeDatasetSkim.cpp:147 | with cuts disabled the output tree is the input, event for event |
| `Events.Weight` | Skimmer/bin/makeDatasetSkim.cpp:130-143 | defines weight i of an event as the field whose sign decides counter pair i: origWeightForNorm, then the six weights in the order of lines 132-143 |
| `GeneratorWeights.CounterOf` | Skimmer/bin/makeDatasetSkim.cpp:128-143 | weight i bumps counter 2i or 2i+1, and 2i exactly when the weight is ≥ 0.0, so 0.0 counts as non-negative |
| `GeneratorWeights.Count` | Skimmer/bin/makeDatasetSkim.cpp:128-144 | a counter is bumped at most once per event |
| `GeneratorWeights.PairCountsEveryEvent` | Skimmer/bin/makeDatasetSkim.cpp:128-144 | for each weight, its two counters together count every event exactly once |
| `GeneratorWeights.SummedWeights` | Skimmer/bin/makeDatasetSkim.cpp:93-144 | there are 14 counters, each in [0, 2^32); without the MC and LHE flags all stay 0 |
| `GeneratorWeights.SummedWeightsPairTotal` | Skimmer/bin/makeDatasetSkim.cpp:128-144 | for fewer than 2^32 events, `summedWeights[2i] + summedWeights[2i+1]` equals the number of events |
| `GeneratorWeights.Increment` | Skimmer/bin/makeDatasetSkim.cpp:130-143 | `summedWeights[c]++` on an unsigned int: only counter c changes, and it goes up by one modulo 2^32 |
| `GeneratorWeights.TallyEvent` | Skimmer/bin/makeDatasetSkim.cpp:128-144 | the seven increments bump exactly the counter `CounterOf(e, i)` of each weight and leave the other counter alone |
| `GeneratorWeights.TallyExtends` | Skimmer/bin/makeDatasetSkim.cpp:120-144 | tallying one more event turns the counters of the events so far into the counters of those events plus the new one |
| `GeneratorWeights.BinCentre` | Skimmer/bin/makeDatasetSkim.cpp:185-191 | the bin that counter pair i fills is one of the seven bins of the histogram |
| `GeneratorWeights.BinCentreIsBijective` | Skimmer/bin/makeDatasetSkim.cpp:185-191 | the pairs (0,1)…(12,13) go to bins 0, -1, -2, -3, 1, 2, 3: no two share a bin and every bin gets one |
| `GeneratorWeights.BinOf` | Skimmer/bin/makeDatasetSkim.cpp:94-98 | the bin lookup of 7 unit-width bins over [-3.5, 3.5): a value has a bin exactly when -3.5 ≤ x < 3.5, and then the bin b is one of -3..3 with b - 0.5 ≤ x < b + 0.5 |
| `GeneratorWeights.BinOfUnique` | Skimmer/bin/makeDatasetSkim.cpp:94-98 | the bins do not overlap: a value inside bin b's range is looked up as b and no other bin |
| `GeneratorWeights.BinCentreFillsOwnBin` | Skimmer/bin/makeDatasetSkim.cpp:185-201 | the x at which counter pair i is filled lies in pair i's own bin |
| `GeneratorWeights.Fill` | Skimmer/bin/makeDatasetSkim.cpp:185-201 | `TH1::Fill(x, w)` keeps the bins; with `BinOf`, the bin holding x gains w and every other bin is unchanged |
| `GeneratorWeights.FillPairs` | Skimmer/bin/makeDatasetSkim.cpp:185-201 | after the source's first k fills, in its order, each filled pair's bin holds that pair's value and every other bin is still empty; the bins stay -3..3 |
| `GeneratorWeights.FillPairsConstant` | Skimmer/bin/makeDatasetSkim.cpp:195-201 | filling one value at all seven bin centres, as with -666, puts it in every bin |
| `GeneratorWeights.PosMinusNegAsWritten` | Skimmer/bin/makeDatasetSkim.cpp:185-191 | the unsigned difference is pos - neg when pos ≥ neg, and 2^32 + pos - neg otherwise |
| `GeneratorWeights.PosMinusNegAsWrittenWraps` | Skimmer/bin/makeDatasetSkim.cpp:185 | one event with a negative nominal weight fills 2^32 - 1 into bin 0 as written, where the signed difference is -1 |
| `GeneratorWeights.PosMinusNegAgreesWhenNotNegative` | Skimmer/bin/makeDatasetSkim.cpp:185-191 | as written and corrected agree whenever neg ≤ pos |
| `GeneratorWeights.BinValueCountsSigns` | Skimmer/bin/makeDatasetSkim.cpp:128-191 | for fewer than 2^32 events, each bin receives (#non-negative) - (#negative) = 2·(#non-negative) - n for its weight |
| `GeneratorWeights.WeightHistogram` | Skimmer/bin/makeDatasetSkim.cpp:181-209 | data runs write no histogram; MC runs have bins -3..3; with LHE, bin `BinCentre(i)` holds pair i's difference; without LHE, every bin holds -666 |
| `GeneratorWeights.WeightHistogramAsWritten` | Skimmer/bin/makeDatasetSkim.cpp:181-201 | the histogram as the source fills it: with LHE weights bin `BinCentre(i)` holds pair i's unsigned difference; in every other case it is `WeightHistogram` |
| `GeneratorWeights.WeightHistogramAgreesWhenNotNegative` | Skimmer/bin/makeDatasetSkim.cpp:185-191 | when no pair has more negative than non-negative entries, the histogram as written is the corrected one |
| `GeneratorWeights.WeightHistogramAsWrittenWraps` | Skimmer/bin/makeDatasetSkim.cpp:185 | for one MC event with a negative nominal weight, bin 0 holds 2^32 - 1 as written and -1 in the corrected histogram |
| `Skim.Skimmed` | Skimmer/bin/makeDatasetSkim.cpp:93-209 | defines what skimming one input yields: the kept events and `WeightHistogram` of the counters, which the output file receives, and the final counters themselves, which stay local and are not written |
| `Skim.SkimEvent` | Skimmer/bin/makeDatasetSkim.cpp:122-178 | one pass of the event loop moves the counters from those of the events read so far to those including this event; it appends the event to the output tree exactly when the event is kept |
| `Skim.SkimFile` | Skimmer/bin/makeDatasetSkim.cpp:93-209 | one file's loop yields the kept events, the counters of the tallied events and the histogram built from them; never more entries than events; without the MC and LHE flags the counters stay 0 |
| `FileNumbering.MatchesRootMask` | Skimmer/bin/makeDatasetSkim.cpp:65-76 | defines `std::regex_match` with `.*\.root`: the path ends in `.root` and has no line terminator before that suffix |
| `FileNumbering.IsRootFile` | Skimmer/bin/makeDatasetSkim.cpp:75-79 | defines the skip test: an entry takes a file number exactly when it is a regular file whose path matches the mask |
| `FileNumbering.MatchesRootMaskIsLanguage` | Skimmer/bin/makeDatasetSkim.cpp:65-76 | the suffix test accepts exactly the strings of `.*\.root`: a prefix without line terminators followed by `.root` |
| `FileNumbering.RootFiles` | Skimmer/bin/makeDatasetSkim.cpp:68-79 | the numbered paths are exactly the paths of the listed entries that are regular files matching the mask |
| `FileNumbering.NatToString` | Skimmer/bin/makeDatasetSkim.cpp:81 | the file number is written as a non-empty string of decimal digits |
| `FileNumbering.DecimalValueOfNatToString` | Skimmer/bin/makeDatasetSkim.cpp:81 | reading the digits back gives the number |
| `FileNumbering.NatToStringInjective` | Skimmer/bin/makeDatasetSkim.cpp:81 | different numbers are written differently |
| `FileNumbering.OutputPath` | Skimmer/bin/makeDatasetSkim.cpp:85 | defines the output path `datasetName + "/skimFile" + to_string(n) + ".root"` |
| `FileNumbering.OutputPathInjective` | Skimmer/bin/makeDatasetSkim.cpp:85 | different file numbers give different output paths |
| `FileNumbering.PlannedJobs` | Skimmer/bin/makeDatasetSkim.cpp:81-91 | the n-th numbered file is skimmed into `OutputPath(n)` exactly when no regular file of that name existed beforehand; the jobs come in increasing file-number order |
| `FileNumbering.NoExistingOutputOverwritten` | Skimmer/bin/makeDatasetSkim.cpp:87-91 | no planned output is a file that existed beforehand |
| `FileNumbering.NextOutputIsNew` | Skimmer/bin/makeDatasetSkim.cpp:85-106 | the next number's output path is not among the outputs written so far, so the run never trips over its own outputs |
| `DatasetSkim.SkipNonRootEntry` | Skimmer/bin/makeDatasetSkim.cpp:75-79 | an entry that is not a regular ROOT file uses no number and changes nothing |
| `DatasetSkim.SkipExistingOutput` | Skimmer/bin/makeDatasetSkim.cpp:87-91 | a ROOT file whose output exists uses up its number and writes nothing |
| `DatasetSkim.WriteNewOutput` | Skimmer/bin/makeDatasetSkim.cpp:93-215 | a ROOT file whose output is new is skimmed into it and uses up its number |
| `DatasetSkim.VisitEntry` | Skimmer/bin/makeDatasetSkim.cpp:73-215 | one iteration of the inner loop keeps the run's state consistent with the entries seen so far |
| `DatasetSkim.VisitDirectory` | Skimmer/bin/makeDatasetSkim.cpp:70-218 | after one directory's entries, the run's state is consistent with every entry listed so far, this directory's included |
| `DatasetSkim.MakeDatasetSkim` | Skimmer/bin/makeDatasetSkim.cpp:65-219 | `fileNum` ends at the number of regular ROOT files across all input directories; the skimmed inputs are the planned ones; outputs are all new files, and each is mapped to the skim of its input, whose tree and histogram it receives |

## Left out

- Command-line parsing with boost::program_options, `--help` and option errors (lines 34-63): a library wrapper. Its results are the parameters of `DatasetSkim.MakeDatasetSkim`.
- ROOT I/O: opening the chain, cloning the tree, compression, auto-save, flushing, writing and closing the files. Also the progress bar and the printed paths. Reading a file is the `readEvents` parameter, and an output tree is the sequence of kept events.
- Loading the event from the tree (`AnalysisEvent::GetEntry`): its header is not part of this model, so the event is an input record. `WellFormed` assumes each muon branch holds `numMuons` entries. The `is2016` flag only reaches that loader.
- Floating point: coordinates, weights and thresholds are exact reals, so rounding, NaN and the binary value of 2.8 are not modelled. Square roots are never computed; pT and mass are characterised by their squares.
- How TH1I stores a filled weight in its integer bin contents (a ROOT internal). A histogram is the sum of the weights filled into each bin.
- Directory iteration: the order and content of each listing are given as input, and a directory that cannot be opened is not modelled. An output path that exists but is not a regular file is not modelled either.
- Output paths are built from `datasetName` as given; whether that directory exists is not modelled.
- `DatasetSkim.MakeDatasetSkim`: `fileNum` is a natural number; the `int` overflow after 2^31 files is not modelled.
- `GeneratorWeights.TallyEvent`: each of the seven ternaries is written as `CounterOf(e, i)`, which names the same counter.
- `GeneratorWeights.WeightHistogram`: fills each pair's signed difference, where lines 185-191 fill the unsigned difference, which wraps modulo 2^32 when a pair holds more negative than non-negative entries. `Skim.Skimmed`, `Skim.SkimFile` and `DatasetSkim.MakeDatasetSkim` are stated with this corrected histogram. `GeneratorWeights.WeightHistogramAsWritten` is the source's histogram, and `GeneratorWeights.WeightHistogramAgreesWhenNotNegative` says when the two are the same.
- `GeneratorWeights.Fill`: the under- and overflow bins are not kept, so a value off the axis changes no bin. The source only fills values inside the axis.
- `GeneratorWeights.SummedWeightsPairTotal`: states the pair sum only for fewer than 2^32 events, because the counters wrap beyond that.
- The Python configuration files (`NTupliser/test`, `generation`). They are parameter sets for an external framework and contain no algorithm.

## Findings

| source | as written | input that shows it | evidently intended | confidence | as-written member | corrected member |
|---|---|---|---|---|---|---|
| Skimmer/bin/makeDatasetSkim.cpp:185-191 | `summedWeights[2i] - summedWeights[2i+1]` is an `unsigned int` subtraction, so it wraps modulo 2^32 when a weight has more negative than non-negative entries | an MC file with LHE weights holding one event whose `origWeightForNorm` is -1.0: bin 0 is filled with 4294967295 (`GeneratorWeights.PosMinusNegAsWrittenWraps`, `GeneratorWeights.WeightHistogramAsWrittenWraps`) | the signed difference, here -1, as the histogram's name "sumNumPosMinusNegWeights" says (`GeneratorWeights.BinValueCountsSigns`) | medium, not executed | `GeneratorWeights.PosMinusNegAsWritten` | `GeneratorWeights.PosMinusNeg` |
