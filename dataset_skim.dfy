/**
 * The body of makeDatasetSkim's main after option parsing: walk the input
 * directories, number the ROOT files, skip those whose output exists and
 * skim the rest into datasetName/skimFile<n>.root.
 */
module DatasetSkim {
  import opened Events
  import opened FileNumbering
  import opened Skim

  /** The parsed command-line options other than the input directories. */
  datatype Options = Options(datasetName: string, isMC: bool, hasLHE: bool, disableCuts: bool)

  /** Every file readEvents can yield holds well-formed events. */
  ghost predicate ReadsWellFormed(readEvents: string -> seq<Event>)
  {
    forall path, e :: e in readEvents(path) ==> WellFormed(e)
  }

  /**
   * The state of the run after the entries seen: fileNum counts the ROOT
   * files among them, jobs are the planned skims, each new output holds the
   * skim of its input, and the regular files are those present before plus
   * the new outputs.
   */
  ghost predicate RunState(opts: Options, existing: set<string>, readEvents: string -> seq<Event>,
                           seen: seq<DirEntry>, fileNum: nat, jobs: seq<Job>, files: set<string>,
                           written: map<string, SkimResult>)
    requires ReadsWellFormed(readEvents)
  {
    var roots := RootFiles(seen);
    fileNum == |roots|
    && jobs == PlannedJobs(opts.datasetName, roots, existing)
    && written.Keys == Outputs(jobs)
    && files == existing + written.Keys
    && forall job :: job in jobs ==>
      written[job.output] == Skimmed(readEvents(job.input), opts.isMC, opts.hasLHE, opts.disableCuts)
  }

  /** An entry that is not a regular ROOT file changes nothing. */
  lemma SkipNonRootEntry(opts: Options, existing: set<string>, readEvents: string -> seq<Event>,
                         seen: seq<DirEntry>, entry: DirEntry,
                         fileNum: nat, jobs: seq<Job>, files: set<string>, written: map<string, SkimResult>)
    requires ReadsWellFormed(readEvents) && !IsRootFile(entry)
    requires RunState(opts, existing, readEvents, seen, fileNum, jobs, files, written)
    ensures RunState(opts, existing, readEvents, seen + [entry], fileNum, jobs, files, written)
  {
    RootFilesStep(seen, entry);
    assert RootFiles(seen + [entry]) == RootFiles(seen);
  }

  /** A ROOT file whose output already exists only uses up its number. */
  lemma SkipExistingOutput(opts: Options, existing: set<string>, readEvents: string -> seq<Event>,
                           seen: seq<DirEntry>, entry: DirEntry,
                           fileNum: nat, jobs: seq<Job>, files: set<string>, written: map<string, SkimResult>)
    requires ReadsWellFormed(readEvents) && IsRootFile(entry)
    requires RunState(opts, existing, readEvents, seen, fileNum, jobs, files, written)
    requires OutputPath(opts.datasetName, fileNum) in files
    ensures RunState(opts, existing, readEvents, seen + [entry], fileNum + 1, jobs, files, written)
  {
    var roots := RootFiles(seen);
    RootFilesStep(seen, entry);
    PlannedJobsStep(opts.datasetName, roots, entry.path, existing);
    NextOutputIsNew(opts.datasetName, roots, existing);
    assert OutputPath(opts.datasetName, fileNum) in existing;
  }

  /** A ROOT file whose output is new is skimmed into that output. */
  lemma WriteNewOutput(opts: Options, existing: set<string>, readEvents: string -> seq<Event>,
                       seen: seq<DirEntry>, entry: DirEntry,
                       fileNum: nat, jobs: seq<Job>, files: set<string>, written: map<string, SkimResult>,
                       result: SkimResult)
    requires ReadsWellFormed(readEvents) && IsRootFile(entry)
    requires RunState(opts, existing, readEvents, seen, fileNum, jobs, files, written)
    requires OutputPath(opts.datasetName, fileNum) !in files
    requires result == Skimmed(readEvents(entry.path), opts.isMC, opts.hasLHE, opts.disableCuts)
    ensures var out := OutputPath(opts.datasetName, fileNum);
      RunState(opts, existing, readEvents, seen + [entry], fileNum + 1,
               jobs + [Job(entry.path, fileNum, out)], files + {out}, written[out := result])
  {
    var roots := RootFiles(seen);
    var out := OutputPath(opts.datasetName, fileNum);
    var job := Job(entry.path, fileNum, out);
    var jobs', written' := jobs + [job], written[out := result];
    assert RootFiles(seen + [entry]) == roots + [entry.path] by {
      RootFilesStep(seen, entry);
    }
    assert jobs' == PlannedJobs(opts.datasetName, roots + [entry.path], existing) by {
      PlannedJobsStep(opts.datasetName, roots, entry.path, existing);
      assert out !in existing;
    }
    assert Outputs(jobs') == Outputs(jobs) + {out};
    assert written'.Keys == written.Keys + {out};
    assert files + {out} == existing + written'.Keys;
    assert fileNum + 1 == |roots + [entry.path]|;
    NewOutputKeepsEarlierSkims(opts, readEvents, jobs, written, job, result);
  }

  /** Adding a job whose output is new keeps every earlier output's skim. */
  lemma NewOutputKeepsEarlierSkims(opts: Options, readEvents: string -> seq<Event>,
                                   jobs: seq<Job>, written: map<string, SkimResult>, job: Job, result: SkimResult)
    requires ReadsWellFormed(readEvents)
    requires job.output !in written && written.Keys == Outputs(jobs)
    requires forall j :: j in jobs ==>
      written[j.output] == Skimmed(readEvents(j.input), opts.isMC, opts.hasLHE, opts.disableCuts)
    requires result == Skimmed(readEvents(job.input), opts.isMC, opts.hasLHE, opts.disableCuts)
    ensures forall j :: j in jobs + [job] ==>
      written[job.output := result][j.output] == Skimmed(readEvents(j.input), opts.isMC, opts.hasLHE, opts.disableCuts)
  {
    forall j | j in jobs + [job]
      ensures written[job.output := result][j.output] == Skimmed(readEvents(j.input), opts.isMC, opts.hasLHE, opts.disableCuts)
    {
      if j != job {
        assert j in jobs && j.output in written;
      }
    }
  }

  /** One iteration of the inner loop: the handling of one directory entry. */
  method VisitEntry(opts: Options, existing: set<string>, readEvents: string -> seq<Event>,
                    ghost seen: seq<DirEntry>, entry: DirEntry,
                    fileNum: nat, jobs: seq<Job>, files: set<string>, written: map<string, SkimResult>)
    returns (fileNum': nat, jobs': seq<Job>, files': set<string>, written': map<string, SkimResult>)
    requires ReadsWellFormed(readEvents)
    requires RunState(opts, existing, readEvents, seen, fileNum, jobs, files, written)
    ensures RunState(opts, existing, readEvents, seen + [entry], fileNum', jobs', files', written')
  {
    fileNum', jobs', files', written' := fileNum, jobs, files, written;
    if !entry.isRegular || !MatchesRootMask(entry.path) {
      SkipNonRootEntry(opts, existing, readEvents, seen, entry, fileNum, jobs, files, written);
      return;
    }
    var outFilePath := OutputPath(opts.datasetName, fileNum);
    if outFilePath in files {
      SkipExistingOutput(opts, existing, readEvents, seen, entry, fileNum, jobs, files, written);
      fileNum' := fileNum + 1;
      return;
    }
    var result := SkimFile(readEvents(entry.path), opts.isMC, opts.hasLHE, opts.disableCuts);
    WriteNewOutput(opts, existing, readEvents, seen, entry, fileNum, jobs, files, written, result);
    jobs' := jobs + [Job(entry.path, fileNum, outFilePath)];
    written' := written[outFilePath := result];
    files' := files + {outFilePath};
    fileNum' := fileNum + 1;
  }

  /** The inner loop: every entry of one directory, in listing order. */
  method VisitDirectory(opts: Options, existing: set<string>, readEvents: string -> seq<Event>,
                        ghost listed: seq<DirEntry>, dir: seq<DirEntry>,
                        fileNum: nat, jobs: seq<Job>, files: set<string>, written: map<string, SkimResult>)
    returns (fileNum': nat, jobs': seq<Job>, files': set<string>, written': map<string, SkimResult>)
    requires ReadsWellFormed(readEvents)
    requires RunState(opts, existing, readEvents, listed, fileNum, jobs, files, written)
    ensures RunState(opts, existing, readEvents, listed + dir, fileNum', jobs', files', written')
  {
    fileNum', jobs', files', written' := fileNum, jobs, files, written;
    var f := 0;
    ghost var seen := listed;
    while f < |dir|
      invariant 0 <= f <= |dir| && seen == listed + dir[..f]
      invariant RunState(opts, existing, readEvents, seen, fileNum', jobs', files', written')
    {
      fileNum', jobs', files', written' :=
        VisitEntry(opts, existing, readEvents, seen, dir[f], fileNum', jobs', files', written');
      assert listed + dir[..f + 1] == seen + [dir[f]];
      seen := seen + [dir[f]];
      f := f + 1;
    }
    assert dir[..f] == dir;
  }

  /** What the run has done once every entry has been seen. */
  lemma FinalState(opts: Options, existing: set<string>, readEvents: string -> seq<Event>,
                   seen: seq<DirEntry>, fileNum: nat, jobs: seq<Job>, files: set<string>,
                   written: map<string, SkimResult>)
    requires ReadsWellFormed(readEvents)
    requires RunState(opts, existing, readEvents, seen, fileNum, jobs, files, written)
    ensures written.Keys !! existing
  {
    NoExistingOutputOverwritten(opts.datasetName, RootFiles(seen), existing);
  }

  /**
   * inDirs lists each input directory's entries in iteration order;
   * existing is the set of regular files present before the run, and
   * readEvents gives the events of an input file.
   * Returns the final file number, the inputs that were skimmed, the regular
   * files present afterwards and, for each new output file, the result of
   * skimming its input (the file receives its tree and histogram).
   */
  method MakeDatasetSkim(inDirs: seq<seq<DirEntry>>, opts: Options, existing: set<string>,
                         readEvents: string -> seq<Event>)
    returns (fileNum: nat, jobs: seq<Job>, files: set<string>, written: map<string, SkimResult>)
    requires ReadsWellFormed(readEvents)
    ensures fileNum == |RootFiles(Flatten(inDirs))|
    ensures jobs == PlannedJobs(opts.datasetName, RootFiles(Flatten(inDirs)), existing)
    ensures written.Keys == Outputs(jobs)
    ensures written.Keys !! existing
    ensures files == existing + written.Keys
    ensures forall job :: job in jobs ==>
      written[job.output] == Skimmed(readEvents(job.input), opts.isMC, opts.hasLHE, opts.disableCuts)
  {
    fileNum := 0;
    jobs := [];
    files := existing;
    written := map[];
    var d := 0;
    while d < |inDirs|
      invariant 0 <= d <= |inDirs|
      invariant RunState(opts, existing, readEvents, Flatten(inDirs[..d]), fileNum, jobs, files, written)
    {
      assert inDirs[..d + 1][..d] == inDirs[..d];
      assert Flatten(inDirs[..d + 1]) == Flatten(inDirs[..d]) + inDirs[d];
      fileNum, jobs, files, written :=
        VisitDirectory(opts, existing, readEvents, Flatten(inDirs[..d]), inDirs[d], fileNum, jobs, files, written);
      d := d + 1;
    }
    assert inDirs[..d] == inDirs;
    FinalState(opts, existing, readEvents, Flatten(inDirs), fileNum, jobs, files, written);
  }
}
