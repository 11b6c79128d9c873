/**
 * Which input files are skimmed and where each output goes: every regular
 * file whose whole path matches the regular expression .*\.root takes the
 * next number n, and its output is datasetName/skimFile<n>.root unless a
 * regular file of that name already exists, in which case the input is
 * skipped and n is used up all the same.
 */
module FileNumbering {

  /** One entry of a directory listing. */
  datatype DirEntry = DirEntry(path: string, isRegular: bool)

  /** An input file that is skimmed, with its number and its output path. */
  datatype Job = Job(input: string, fileNum: nat, output: string)

  const RootSuffix: string := ".root"

  /** Characters the ECMAScript '.' does not match in a narrow-character regex. */
  predicate IsLineTerminator(ch: char)
  {
    ch == '\n' || ch == '\r'
  }

  /** std::regex_match(path, std::regex(".*\\.root")), decided by its suffix. */
  predicate MatchesRootMask(path: string)
  {
    |path| >= |RootSuffix| && path[|path| - |RootSuffix|..] == RootSuffix
    && forall i :: 0 <= i < |path| - |RootSuffix| ==> !IsLineTerminator(path[i])
  }

  /** The regular expression's language: any line-terminator-free prefix followed by ".root". */
  ghost predicate InRootMaskLanguage(path: string)
  {
    exists prefix: string :: path == prefix + RootSuffix && forall ch :: ch in prefix ==> !IsLineTerminator(ch)
  }

  lemma MatchesRootMaskIsLanguage(path: string)
    ensures MatchesRootMask(path) <==> InRootMaskLanguage(path)
  {
    if MatchesRootMask(path) {
      var prefix := path[..|path| - |RootSuffix|];
      assert path == prefix + RootSuffix;
      forall ch | ch in prefix
        ensures !IsLineTerminator(ch)
      {
        var i :| 0 <= i < |prefix| && prefix[i] == ch;
        assert path[i] == ch;
      }
    }
    if InRootMaskLanguage(path) {
      var prefix: string :| path == prefix + RootSuffix && forall ch :: ch in prefix ==> !IsLineTerminator(ch);
      assert path[|path| - |RootSuffix|..] == RootSuffix;
      forall i | 0 <= i < |path| - |RootSuffix|
        ensures !IsLineTerminator(path[i])
      {
        assert path[i] == prefix[i];
      }
    }
  }

  /** An entry the skim considers: a regular file whose path matches the mask. */
  predicate IsRootFile(entry: DirEntry)
  {
    entry.isRegular && MatchesRootMask(entry.path)
  }

  /** The listings of all input directories, one after the other. */
  function Flatten(dirs: seq<seq<DirEntry>>): seq<DirEntry>
  {
    if dirs == [] then [] else Flatten(dirs[..|dirs| - 1]) + dirs[|dirs| - 1]
  }

  /** The paths of the entries that get a file number, in listing order. */
  function RootFiles(entries: seq<DirEntry>): (paths: seq<string>)
    ensures |paths| <= |entries|
    ensures forall p :: p in paths <==> exists entry :: entry in entries && IsRootFile(entry) && entry.path == p
  {
    if entries == [] then []
    else
      var last := entries[|entries| - 1];
      var init := entries[..|entries| - 1];
      assert forall entry :: entry in entries <==> entry in init || entry == last;
      RootFiles(init) + (if IsRootFile(last) then [last.path] else [])
  }

  lemma RootFilesStep(seen: seq<DirEntry>, entry: DirEntry)
    ensures RootFiles(seen + [entry]) == RootFiles(seen) + (if IsRootFile(entry) then [entry.path] else [])
  {
    assert (seen + [entry])[..|seen|] == seen;
  }

  function DigitChar(d: nat): char
    requires d < 10
  {
    "0123456789"[d]
  }

  function DigitValue(ch: char): int
  {
    ch as int - '0' as int
  }

  lemma DigitValueOfDigitChar(d: nat)
    requires d < 10
    ensures DigitValue(DigitChar(d)) == d
  {
    assert d == 0 || d == 1 || d == 2 || d == 3 || d == 4 || d == 5 || d == 6 || d == 7 || d == 8 || d == 9;
  }

  /** std::to_string of a non-negative number. */
  function NatToString(n: nat): (s: string)
    ensures |s| >= 1
    ensures forall i :: 0 <= i < |s| ==> '0' <= s[i] <= '9'
    decreases n
  {
    if n < 10 then [DigitChar(n)] else NatToString(n / 10) + [DigitChar(n % 10)]
  }

  /** The number a string of decimal digits denotes. */
  function DecimalValue(s: string): int
  {
    if s == [] then 0 else 10 * DecimalValue(s[..|s| - 1]) + DigitValue(s[|s| - 1])
  }

  lemma {:induction false} DecimalValueOfNatToString(n: nat)
    ensures DecimalValue(NatToString(n)) == n
    decreases n
  {
    var s := NatToString(n);
    if n < 10 {
      DigitValueOfDigitChar(n);
      assert s[..0] == [];
    } else {
      DecimalValueOfNatToString(n / 10);
      DigitValueOfDigitChar(n % 10);
      assert s[..|s| - 1] == NatToString(n / 10);
      assert DecimalValue(s) == 10 * (n / 10) + n % 10;
    }
  }

  /** Different numbers are written as different strings. */
  lemma NatToStringInjective(a: nat, b: nat)
    requires NatToString(a) == NatToString(b)
    ensures a == b
  {
    DecimalValueOfNatToString(a);
    DecimalValueOfNatToString(b);
  }

  /** datasetName + "/skimFile" + std::to_string(n) + ".root" */
  function OutputPath(datasetName: string, n: nat): string
  {
    datasetName + "/skimFile" + NatToString(n) + RootSuffix
  }

  /** Different file numbers give different output paths. */
  lemma OutputPathInjective(datasetName: string, a: nat, b: nat)
    requires OutputPath(datasetName, a) == OutputPath(datasetName, b)
    ensures a == b
  {
    var head := datasetName + "/skimFile";
    var pa, pb := OutputPath(datasetName, a), OutputPath(datasetName, b);
    assert pa == head + NatToString(a) + RootSuffix;
    assert pa[|head|..|pa| - |RootSuffix|] == NatToString(a);
    assert pb[|head|..|pb| - |RootSuffix|] == NatToString(b);
    NatToStringInjective(a, b);
  }

  /**
   * The inputs that are skimmed, given the paths that get numbers (in order)
   * and the regular files already present: the n-th path is skimmed exactly
   * when OutputPath(datasetName, n) is not among them.
   */
  function PlannedJobs(datasetName: string, roots: seq<string>, existing: set<string>): (jobs: seq<Job>)
    ensures |jobs| <= |roots|
    ensures forall job :: job in jobs ==>
      job.fileNum < |roots| && job.input == roots[job.fileNum]
      && job.output == OutputPath(datasetName, job.fileNum) && job.output !in existing
    ensures forall n :: 0 <= n < |roots| && OutputPath(datasetName, n) !in existing ==>
      Job(roots[n], n, OutputPath(datasetName, n)) in jobs
    ensures forall a, b :: 0 <= a < b < |jobs| ==> jobs[a].fileNum < jobs[b].fileNum
  {
    if roots == [] then []
    else
      var n := |roots| - 1;
      var init := roots[..n];
      assert forall k :: 0 <= k < n ==> init[k] == roots[k];
      var earlier := PlannedJobs(datasetName, init, existing);
      var out := OutputPath(datasetName, n);
      earlier + (if out in existing then [] else [Job(roots[n], n, out)])
  }

  lemma PlannedJobsStep(datasetName: string, roots: seq<string>, path: string, existing: set<string>)
    ensures var out := OutputPath(datasetName, |roots|);
      PlannedJobs(datasetName, roots + [path], existing)
      == PlannedJobs(datasetName, roots, existing) + (if out in existing then [] else [Job(path, |roots|, out)])
  {
    assert (roots + [path])[..|roots|] == roots;
  }

  /** The output paths of a list of jobs. */
  ghost function Outputs(jobs: seq<Job>): set<string>
  {
    set job | job in jobs :: job.output
  }

  /** No planned output is a file that was already there: nothing is overwritten. */
  lemma NoExistingOutputOverwritten(datasetName: string, roots: seq<string>, existing: set<string>)
    ensures Outputs(PlannedJobs(datasetName, roots, existing)) !! existing
  {
  }

  /** The next number's output path is not among the outputs planned so far. */
  lemma NextOutputIsNew(datasetName: string, roots: seq<string>, existing: set<string>)
    ensures OutputPath(datasetName, |roots|) !in Outputs(PlannedJobs(datasetName, roots, existing))
  {
    var jobs := PlannedJobs(datasetName, roots, existing);
    forall job | job in jobs
      ensures job.output != OutputPath(datasetName, |roots|)
    {
      if job.output == OutputPath(datasetName, |roots|) {
        OutputPathInjective(datasetName, job.fileNum, |roots|);
      }
    }
  }
}
