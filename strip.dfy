/**
 `stripFile` (lclsStrip2D.py:55-78) and the command line's loop over the
 input files (lclsStrip2D.py:111-120).

 The file system is a parameter: `existing` is the set of paths
 `os.path.exists` answers yes for, and `sources` maps each readable input path
 to the traversal of its tree and to the copy oracle of its datasets. A path
 absent from `sources` cannot be opened for reading (`h5.File(h5name, "r")`
 raises).
 */
module Strip {
  import opened Common
  import opened Patterns
  import opened Naming
  import opened Inputs
  import opened Selection
  import opened Copying

  /** An input file: what `visititems` visits, and how each copy of one of
      its datasets ends. */
  datatype Source = Source(items: seq<Item>, faults: map<string, Fault>)

  /** The exception that leaves `stripFile`. */
  datatype Error =
    | InputUnreadable        // `h5.File(h5name, "r")` raised
    | SkipListIsNone         // `"|".join(None)` raised a `TypeError`
    | CopyRaised(path: string) // the copy of this dataset raised other than `RuntimeError`

  /** How a call of `stripFile` ends, with the output path it computed and,
      when it wrote one, what the output file holds and which paths it
      reported as "failed to copy". */
  datatype StripResult =
    | AlreadyStripped(outName: string)
    | Stripped(outName: string, entries: map<string, Payload>, reported: seq<string>)
    | Raised(outName: string, error: Error, outCreated: bool, entries: map<string, Payload>, reported: seq<string>)

  /** The paths a call leaves existing that may not have existed before. */
  function Created(r: StripResult): set<string>
  {
    match r
    case AlreadyStripped(_) => {}
    case Stripped(outName, _, _) => {outName}
    case Raised(outName, _, outCreated, _, _) => if outCreated then {outName} else {}
  }

  /** What `stripFile(h5name, outputFolder, skipList, force)` does. The
      existence guard comes first; then the input is opened, then the output
      (which empties it), then the dataset list is built, which is where a
      `None` skip list raises. */
  function StripSpec(h5name: string, outputFolder: string, skipList: SkipList, force: bool,
                     existing: set<string>, sources: map<string, Source>): StripResult
  {
    var outName := OutputName(h5name, outputFolder);
    if outName in existing && !force then AlreadyStripped(outName)
    else if h5name !in sources then Raised(outName, InputUnreadable, false, map[], [])
    else
      match SkipPatterns(skipList)
      case None => Raised(outName, SkipListIsNone, true, map[], [])
      case Some(patterns) =>
        var source := sources[h5name];
        var run := CopyAll(Selected(WithSkip, SkipRegex(patterns), source.items), source.faults);
        if run.raised.None? then Stripped(outName, run.entries, run.reported)
        else Raised(outName, CopyRaised(run.raised.value), true, run.entries, run.reported)
  }

  /** The ways a call ends: it returns at the guard iff the output exists
      and `force` is off; otherwise an unreadable input raises before the
      output is created, a `None` skip list raises after, and every other
      call creates the output. The output path is always the computed one. */
  lemma StripOutcomes(h5name: string, outputFolder: string, skipList: SkipList, force: bool,
                      existing: set<string>, sources: map<string, Source>)
    ensures var r := StripSpec(h5name, outputFolder, skipList, force, existing, sources);
            && r.outName == OutputName(h5name, outputFolder)
            && (r.AlreadyStripped? <==> OutputName(h5name, outputFolder) in existing && !force)
            && (r.Raised? && r.error == InputUnreadable <==> !r.AlreadyStripped? && h5name !in sources)
            && (r.Raised? && r.error == SkipListIsNone <==> !r.AlreadyStripped? && h5name in sources && skipList.NoList?)
            && (Created(r) == {} <==> r.AlreadyStripped? || (r.Raised? && r.error == InputUnreadable))
  {
    var outName := OutputName(h5name, outputFolder);
    var r := StripSpec(h5name, outputFolder, skipList, force, existing, sources);
    if outName in existing && !force {
      assert r == AlreadyStripped(outName);
    } else if h5name !in sources {
      assert r == Raised(outName, InputUnreadable, false, map[], []);
    } else if skipList.NoList? {
      assert r == Raised(outName, SkipListIsNone, true, map[], []);
    } else {
      assert r.outName == outName && !r.AlreadyStripped?;
      assert r.Stripped? || r.error.CopyRaised?;
    }
  }

  /** `stripFile`: the imperative run, with the output file and the dataset
      list as objects and the copy loop over the kept datasets. */
  method StripFile(h5name: string, outputFolder: string, skipList: SkipList, force: bool,
                   existing: set<string>, sources: map<string, Source>) returns (r: StripResult)
    ensures r == StripSpec(h5name, outputFolder, skipList, force, existing, sources)
  {
    var outName := OutputName(h5name, outputFolder);
    if outName in existing && !force {
      return AlreadyStripped(outName);
    }
    if h5name !in sources {
      return Raised(outName, InputUnreadable, false, map[], []);
    }
    var source := sources[h5name];
    var hOut := new OutputFile();
    var patterns := SkipPatterns(skipList);
    if patterns.None? {
      return Raised(outName, SkipListIsNone, true, hOut.entries, []);
    }
    var data := new DatasetList(patterns.value);
    data.VisitItems(source.items);
    var keep := data.data;
    assert keep == Selected(WithSkip, SkipRegex(patterns.value), source.items);
    var reported, raised := CopyKept(hOut, keep, source.faults);
    if raised.Some? {
      return Raised(outName, CopyRaised(raised.value), true, hOut.entries, reported);
    }
    return Stripped(outName, hOut.entries, reported);
  }

  /** The copy loop of lclsStrip2D.py:72-76 into the freshly emptied output:
      a `RuntimeError` is reported and the loop goes on; any other exception
      leaves the loop, and its dataset's path is returned. */
  method CopyKept(hOut: OutputFile, keep: seq<Dataset>, faults: map<string, Fault>)
    returns (reported: seq<string>, raised: Option<string>)
    requires hOut.entries == map[]
    modifies hOut
    ensures CopyAll(keep, faults) == CopyRun(hOut.entries, reported, raised)
  {
    reported := [];
    var i := 0;
    while i < |keep|
      invariant 0 <= i <= |keep|
      invariant CopyAll(keep[..i], faults) == CopyRun(hOut.entries, reported, None)
    {
      var d := keep[i];
      var fault := hOut.Copy(d, faults);
      assert keep[..i + 1][..i] == keep[..i];
      assert keep[..i + 1][i] == d;
      match fault {
        case None =>
        case Some(RuntimeErr) =>
          reported := reported + [d.path];
        case Some(OtherErr) =>
          CopyAllAfterRaise(keep, faults, i + 1);
          return reported, Some(d.path);
      }
      i := i + 1;
    }
    assert keep[..|keep|] == keep;
    return reported, None;
  }

  /** The name of a dataset is free of every pattern. */
  predicate Unskipped(patterns: seq<string>, name: string)
  {
    forall k :: 0 <= k < |patterns| ==> !Occurs(patterns[k], name)
  }

  /** The item at `i` is a dataset visited under a name free of every pattern. */
  predicate KeptAt(patterns: seq<string>, items: seq<Item>, i: int)
  {
    0 <= i < |items| && items[i].node.DatasetNode? && Unskipped(patterns, items[i].name)
  }

  /** End to end, when no copy raises other than `RuntimeError` and no two
      datasets share a path: the output holds exactly the datasets visited
      under a name in which no pattern occurs and whose copy succeeds, each
      at its own path with its own payload, and the reported paths are
      exactly those of the kept datasets whose copy failed. */
  lemma StripContents(h5name: string, outputFolder: string, patterns: seq<string>, force: bool,
                      existing: set<string>, sources: map<string, Source>)
    requires !(OutputName(h5name, outputFolder) in existing && !force)
    requires h5name in sources
    requires |patterns| >= 1 && forall k :: 0 <= k < |patterns| ==> '|' !in patterns[k]
    requires DistinctDatasetPaths(sources[h5name].items)
    requires forall p :: p in sources[h5name].faults ==> sources[h5name].faults[p] == RuntimeErr
    ensures var r := StripSpec(h5name, outputFolder, List(patterns), force, existing, sources);
            var items := sources[h5name].items;
            var faults := sources[h5name].faults;
            && r.Stripped?
            && r.entries.Keys
               == (set i | 0 <= i < |items| && KeptAt(patterns, items, i) && items[i].node.dataset.path !in faults
                     :: items[i].node.dataset.path)
            && (forall i :: KeptAt(patterns, items, i) && items[i].node.dataset.path !in faults
                  ==> r.entries[items[i].node.dataset.path] == items[i].node.dataset.payload)
            && (forall p :: p in r.reported
                  <==> exists i :: KeptAt(patterns, items, i) && items[i].node.dataset.path == p && p in faults)
  {
    var source := sources[h5name];
    var keep := Selected(WithSkip, SkipRegex(patterns), source.items);
    SelectedDistinct(WithSkip, SkipRegex(patterns), source.items);
    CopyAllWithoutOtherErrors(keep, source.faults);
    var run := CopyAll(keep, source.faults);
    assert StripSpec(h5name, outputFolder, List(patterns), force, existing, sources)
           == Stripped(OutputName(h5name, outputFolder), run.entries, run.reported);
    KeptBySkipList(patterns, source.items);
    KeptEntries(patterns, source.items, source.faults, keep, run.entries);
    KeptReported(patterns, source.items, source.faults, keep);
  }

  /** When no pattern occurs in any visited name and every copy succeeds,
      the output holds every dataset of the input at its own path with its
      own payload, and nothing is reported. */
  lemma UnmatchedCopiesEverything(h5name: string, outputFolder: string, patterns: seq<string>, force: bool,
                                  existing: set<string>, sources: map<string, Source>)
    requires !(OutputName(h5name, outputFolder) in existing && !force)
    requires h5name in sources && sources[h5name].faults == map[]
    requires |patterns| >= 1 && forall k :: 0 <= k < |patterns| ==> '|' !in patterns[k]
    requires DistinctDatasetPaths(sources[h5name].items)
    requires forall i :: 0 <= i < |sources[h5name].items| ==> Unskipped(patterns, sources[h5name].items[i].name)
    ensures var r := StripSpec(h5name, outputFolder, List(patterns), force, existing, sources);
            var items := sources[h5name].items;
            && r.Stripped?
            && (forall p :: p !in r.reported)
            && r.entries.Keys
               == (set i | 0 <= i < |items| && items[i].node.DatasetNode? :: items[i].node.dataset.path)
            && forall i :: 0 <= i < |items| && items[i].node.DatasetNode?
                 ==> r.entries[items[i].node.dataset.path] == items[i].node.dataset.payload
  {
    var items := sources[h5name].items;
    var faults := sources[h5name].faults;
    StripContents(h5name, outputFolder, patterns, force, existing, sources);
    var r := StripSpec(h5name, outputFolder, List(patterns), force, existing, sources);
    AllKept(patterns, items, faults);
  }

  /** With no name matched and no fault, the kept paths are all dataset paths. */
  lemma AllKept(patterns: seq<string>, items: seq<Item>, faults: map<string, Fault>)
    requires faults == map[]
    requires forall i :: 0 <= i < |items| ==> Unskipped(patterns, items[i].name)
    ensures (set i | 0 <= i < |items| && KeptAt(patterns, items, i) && items[i].node.dataset.path !in faults
               :: items[i].node.dataset.path)
            == (set i | 0 <= i < |items| && items[i].node.DatasetNode? :: items[i].node.dataset.path)
  {
  }

  /** The selection of the skipping visitor, item by item. */
  lemma KeptBySkipList(patterns: seq<string>, items: seq<Item>)
    requires |patterns| >= 1 && forall k :: 0 <= k < |patterns| ==> '|' !in patterns[k]
    ensures forall d :: d in Selected(WithSkip, SkipRegex(patterns), items)
                        <==> exists i :: KeptAt(patterns, items, i) && items[i].node.dataset == d
  {
    forall d ensures d in Selected(WithSkip, SkipRegex(patterns), items)
                     <==> exists i :: KeptAt(patterns, items, i) && items[i].node.dataset == d
    {
      SelectedBySkipList(patterns, items, d);
    }
  }

  /** The output's paths, from the kept datasets to the visited items. */
  lemma KeptEntries(patterns: seq<string>, items: seq<Item>, faults: map<string, Fault>,
                    keep: seq<Dataset>, entries: map<string, Payload>)
    requires forall d :: d in keep <==> exists i :: KeptAt(patterns, items, i) && items[i].node.dataset == d
    requires entries.Keys == set d | d in keep && d.path !in faults :: d.path
    requires forall d :: d in keep && d.path !in faults ==> entries[d.path] == d.payload
    ensures entries.Keys
            == (set i | 0 <= i < |items| && KeptAt(patterns, items, i) && items[i].node.dataset.path !in faults
                  :: items[i].node.dataset.path)
    ensures forall i :: KeptAt(patterns, items, i) && items[i].node.dataset.path !in faults
              ==> entries[items[i].node.dataset.path] == items[i].node.dataset.payload
  {
    var keys := set i | 0 <= i < |items| && KeptAt(patterns, items, i) && items[i].node.dataset.path !in faults
                  :: items[i].node.dataset.path;
    forall p ensures p in entries.Keys <==> p in keys {
      if p in keys {
        var i :| 0 <= i < |items| && KeptAt(patterns, items, i) && items[i].node.dataset.path !in faults
                 && items[i].node.dataset.path == p;
        assert items[i].node.dataset in keep;
      }
    }
    forall i | KeptAt(patterns, items, i) && items[i].node.dataset.path !in faults
      ensures entries[items[i].node.dataset.path] == items[i].node.dataset.payload
    {
      assert items[i].node.dataset in keep;
    }
  }

  /** The reported paths, from the kept datasets to the visited items. */
  lemma KeptReported(patterns: seq<string>, items: seq<Item>, faults: map<string, Fault>, keep: seq<Dataset>)
    requires forall d :: d in keep <==> exists i :: KeptAt(patterns, items, i) && items[i].node.dataset == d
    requires forall p :: p in faults ==> faults[p] == RuntimeErr
    ensures forall p :: p in FailedPaths(keep, faults)
              <==> exists i :: KeptAt(patterns, items, i) && items[i].node.dataset.path == p && p in faults
  {
    forall p ensures p in FailedPaths(keep, faults)
                     <==> exists i :: KeptAt(patterns, items, i) && items[i].node.dataset.path == p && p in faults
    {
      FailedPathsMembers(keep, faults, p);
      if p in FailedPaths(keep, faults) {
        var d :| d in keep && d.path == p && CopyOutcome(faults, d) == Some(RuntimeErr);
        var i :| KeptAt(patterns, items, i) && items[i].node.dataset == d;
      }
      if exists i :: KeptAt(patterns, items, i) && items[i].node.dataset.path == p && p in faults {
        var i :| KeptAt(patterns, items, i) && items[i].node.dataset.path == p && p in faults;
        var d := items[i].node.dataset;
        assert d in keep && CopyOutcome(faults, d) == Some(RuntimeErr);
      }
    }
  }

  /** An empty `--skip_list` argument gives the pattern list `[""]`, which
      skips every dataset: the output is created and left empty. */
  lemma EmptyArgumentCopiesNothing(h5name: string, outputFolder: string, force: bool,
                                   existing: set<string>, sources: map<string, Source>)
    requires !(OutputName(h5name, outputFolder) in existing && !force)
    requires h5name in sources
    ensures StripSpec(h5name, outputFolder, List(Split("", ',')), force, existing, sources)
            == Stripped(OutputName(h5name, outputFolder), map[], [])
  {
    var patterns := Split("", ',');
    assert patterns == [""];
    EmptyPatternSelectsNothing(patterns, sources[h5name].items);
  }

  /** `stripFile` with its default skip list "CsPad", on a run file with a
      detector image and a temperature readout: only the temperature reaches
      the output, with its payload, and nothing is reported, whatever the
      image's copy would have done. */
  lemma ExampleCsPadStrip(h5name: string, outputFolder: string, force: bool, existing: set<string>,
                          sources: map<string, Source>, image: Payload, temperature: Payload)
    requires !(OutputName(h5name, outputFolder) in existing && !force)
    requires h5name in sources && sources[h5name].items == ExampleVisit(image, temperature)
    requires "/run/meta/temperature" !in sources[h5name].faults
    ensures StripSpec(h5name, outputFolder, Str(StripFileDefault), force, existing, sources)
            == Stripped(OutputName(h5name, outputFolder), map["/run/meta/temperature" := temperature], [])
  {
    var source := sources[h5name];
    var keep := Selected(WithSkip, SkipRegex(["CsPad"]), source.items);
    DefaultKeepsTemperature(image, temperature);
    assert keep == [Dataset("/run/meta/temperature", temperature)];
    CopyOne(keep[0], source.faults);
  }

  /** The default skip expression keeps only the temperature of the example. */
  lemma DefaultKeepsTemperature(image: Payload, temperature: Payload)
    ensures SkipPatterns(Str(StripFileDefault)) == Some(["CsPad"])
    ensures Selected(WithSkip, SkipRegex(["CsPad"]), ExampleVisit(image, temperature))
            == [Dataset("/run/meta/temperature", temperature)]
  {
    ExampleSearches(SkipRegex(["CsPad"]));
    ExampleCsPadRun(SkipRegex(["CsPad"]), image, temperature);
  }

  /** Copying a single dataset whose copy succeeds writes just that dataset. */
  lemma CopyOne(d: Dataset, faults: map<string, Fault>)
    requires d.path !in faults
    ensures CopyAll([d], faults) == CopyRun(map[d.path := d.payload], [], None)
  {
    assert [d][..0] == [];
  }

  /** A second call for an input whose output a first call created returns
      at the guard unless forced, whatever the skip list. */
  lemma RerunIsNoOp(h5name: string, outputFolder: string, skipList: SkipList, force: bool,
                    existing: set<string>, sources: map<string, Source>, skipList2: SkipList)
    requires Created(StripSpec(h5name, outputFolder, skipList, force, existing, sources)) != {}
    ensures var existing2 := existing + Created(StripSpec(h5name, outputFolder, skipList, force, existing, sources));
            StripSpec(h5name, outputFolder, skipList2, false, existing2, sources)
            == AlreadyStripped(OutputName(h5name, outputFolder))
  {
    var r := StripSpec(h5name, outputFolder, skipList, force, existing, sources);
    StripOutcomes(h5name, outputFolder, skipList, force, existing, sources);
    assert OutputName(h5name, outputFolder) in Created(r);
    StripOutcomes(h5name, outputFolder, skipList2, false, existing + Created(r), sources);
  }

  // ---------------------------------------------------------------------------
  // The command line (lclsStrip2D.py:104-120)
  // ---------------------------------------------------------------------------

  /** The results of the calls so far and the paths that exist after them. */
  datatype Batch = Batch(results: seq<StripResult>, existing: set<string>)

  /** The loop over the input files, for a per-file call `step` that is given
      the file and the paths that exist: every file is attempted, whatever the
      earlier calls did, and an output created by one call exists for the
      later ones. */
  function Process(files: seq<string>, step: (string, set<string>) -> StripResult, existing: set<string>): Batch
    decreases |files|
  {
    if |files| == 0 then Batch([], existing)
    else
      var before := Process(files[..|files| - 1], step, existing);
      var r := step(files[|files| - 1], before.existing);
      Batch(before.results + [r], before.existing + Created(r))
  }

  /** The call the command line makes for one file: `stripFile` with the
      `--skip_list` argument split at ",". */
  function StripStep(outputFolder: string, skipArg: string, force: bool, sources: map<string, Source>)
    : (string, set<string>) -> StripResult
  {
    (f, ex) => StripSpec(f, outputFolder, List(Split(skipArg, ',')), force, ex, sources)
  }

  /** What the loop of lclsStrip2D.py:111-120 does. */
  function ProcessSpec(files: seq<string>, outputFolder: string, skipArg: string, force: bool,
                       existing: set<string>, sources: map<string, Source>): Batch
  {
    Process(files, StripStep(outputFolder, skipArg, force, sources), existing)
  }

  /** `for f in files: try: stripFile(...) except Exception: ...`. */
  method ProcessFiles(files: seq<string>, outputFolder: string, skipArg: string, force: bool,
                      existing: set<string>, sources: map<string, Source>)
    returns (results: seq<StripResult>, existingAfter: set<string>)
    ensures Batch(results, existingAfter) == ProcessSpec(files, outputFolder, skipArg, force, existing, sources)
  {
    ghost var step := StripStep(outputFolder, skipArg, force, sources);
    results := [];
    existingAfter := existing;
    var i := 0;
    while i < |files|
      invariant 0 <= i <= |files|
      invariant Batch(results, existingAfter) == Process(files[..i], step, existing)
    {
      var r := StripFile(files[i], outputFolder, List(Split(skipArg, ',')), force, existingAfter, sources);
      assert r == step(files[i], existingAfter);
      ProcessSnoc(files, i, step, existing);
      results := results + [r];
      existingAfter := existingAfter + Created(r);
      i := i + 1;
    }
    assert files[..|files|] == files;
  }

  /** The whole command line: the file list, then the loop. */
  method CommandLine(input: string, inputIsDir: bool, globbed: seq<string>, outputFolder: string,
                     skipArg: string, force: bool, existing: set<string>, sources: map<string, Source>)
    returns (results: seq<StripResult>, existingAfter: set<string>)
    ensures Batch(results, existingAfter)
            == ProcessSpec(InputFiles(input, inputIsDir, globbed), outputFolder, skipArg, force, existing, sources)
  {
    var files := InputFiles(input, inputIsDir, globbed);
    results, existingAfter := ProcessFiles(files, outputFolder, skipArg, force, existing, sources);
  }

  // The loop, for any step.

  /** One more file: one more result, and what it creates. */
  lemma ProcessSnoc(files: seq<string>, i: nat, step: (string, set<string>) -> StripResult, existing: set<string>)
    requires i < |files|
    ensures var before := Process(files[..i], step, existing);
            var r := step(files[i], before.existing);
            Process(files[..i + 1], step, existing) == Batch(before.results + [r], before.existing + Created(r))
  {
    assert files[..i + 1][..i] == files[..i];
    assert files[..i + 1][i] == files[i];
  }

  /** One result per file, and the paths that exist only grow. */
  lemma {:induction false} ProcessShape(files: seq<string>, step: (string, set<string>) -> StripResult, existing: set<string>)
    ensures var b := Process(files, step, existing);
            |b.results| == |files| && existing <= b.existing
    decreases |files|
  {
    if |files| > 0 {
      ProcessShape(files[..|files| - 1], step, existing);
    }
  }

  /** Processing a prefix of the files gives a prefix of the results and a
      subset of the paths. */
  lemma {:induction false} ProcessPrefix(files: seq<string>, n: nat, step: (string, set<string>) -> StripResult,
                                        existing: set<string>)
    requires n <= |files|
    ensures var whole := Process(files, step, existing);
            var prefix := Process(files[..n], step, existing);
            |prefix.results| == n <= |whole.results| && whole.results[..n] == prefix.results
            && prefix.existing <= whole.existing
    decreases |files|
  {
    if n < |files| {
      var init := files[..|files| - 1];
      assert init[..n] == files[..n];
      ProcessPrefix(init, n, step, existing);
      var before := Process(init, step, existing);
      var whole := Process(files, step, existing);
      assert whole.results[..|before.results|] == before.results;
      assert whole.results[..n] == before.results[..n];
    } else {
      assert files[..n] == files;
      ProcessShape(files, step, existing);
    }
  }

  /** The i-th result is the step on the i-th file, given the paths that
      the steps on the files before it left; what it creates persists. */
  lemma ProcessAt(files: seq<string>, step: (string, set<string>) -> StripResult, existing: set<string>, i: nat)
    requires i < |files|
    ensures var b := Process(files, step, existing);
            var ex := Process(files[..i], step, existing).existing;
            |b.results| == |files|
            && b.results[i] == step(files[i], ex)
            && ex + Created(b.results[i]) <= b.existing
  {
    ProcessShape(files, step, existing);
    ProcessPrefix(files, i + 1, step, existing);
    var upto := files[..i + 1];
    assert upto[..i] == files[..i];
    assert upto[i] == files[i];
  }

  /** When no step creates anything, the paths stay as they were and each
      result is the step on the original paths. */
  lemma {:induction false} ProcessCreatingNothing(files: seq<string>, step: (string, set<string>) -> StripResult,
                                                 existing: set<string>)
    requires forall i :: 0 <= i < |files| ==> Created(step(files[i], existing)) == {}
    ensures var b := Process(files, step, existing);
            && b.existing == existing
            && |b.results| == |files|
            && forall i :: 0 <= i < |files| ==> b.results[i] == step(files[i], existing)
    decreases |files|
  {
    if |files| > 0 {
      var init := files[..|files| - 1];
      forall i | 0 <= i < |init| ensures files[i] == init[i] {
      }
      ProcessCreatingNothing(init, step, existing);
      var b := Process(files, step, existing);
      var before := Process(init, step, existing);
      forall i | 0 <= i < |files| ensures b.results[i] == step(files[i], existing) {
        if i < |init| {
          assert b.results[i] == before.results[i];
        }
      }
    }
  }

  // The loop of the command line.

  /** Every file is attempted, in order, whatever happened to the earlier
      ones: the i-th result is `stripFile` on the i-th file, run against the
      file system the calls on the files before it left, and it is never the
      error a `None` skip list raises. */
  lemma EveryFileAttempted(files: seq<string>, outputFolder: string, skipArg: string, force: bool,
                           existing: set<string>, sources: map<string, Source>, i: nat)
    requires i < |files|
    ensures var b := ProcessSpec(files, outputFolder, skipArg, force, existing, sources);
            var before := ProcessSpec(files[..i], outputFolder, skipArg, force, existing, sources);
            var r := StripSpec(files[i], outputFolder, List(Split(skipArg, ',')), force, before.existing, sources);
            |b.results| == |files| && b.results[i] == r && !(r.Raised? && r.error == SkipListIsNone)
  {
    var step := StripStep(outputFolder, skipArg, force, sources);
    ProcessAt(files, step, existing, i);
    var ex := Process(files[..i], step, existing).existing;
    StripOutcomes(files[i], outputFolder, List(Split(skipArg, ',')), force, ex, sources);
  }

  /** After the loop, the output of every readable input exists. */
  lemma OutputsExistAfter(files: seq<string>, outputFolder: string, skipArg: string, force: bool,
                          existing: set<string>, sources: map<string, Source>)
    ensures forall i :: 0 <= i < |files| && files[i] in sources
              ==> OutputName(files[i], outputFolder)
                  in ProcessSpec(files, outputFolder, skipArg, force, existing, sources).existing
  {
    var step := StripStep(outputFolder, skipArg, force, sources);
    forall i | 0 <= i < |files| && files[i] in sources
      ensures OutputName(files[i], outputFolder) in Process(files, step, existing).existing
    {
      ProcessAt(files, step, existing, i);
      var ex := Process(files[..i], step, existing).existing;
      StripOutcomes(files[i], outputFolder, List(Split(skipArg, ',')), force, ex, sources);
    }
  }

  /** With every output already there and no `--force`, the loop does
      nothing: every call returns at the guard. */
  lemma AllPresentSkipsAll(files: seq<string>, outputFolder: string, skipArg: string,
                           existing: set<string>, sources: map<string, Source>)
    requires forall i :: 0 <= i < |files| ==> OutputName(files[i], outputFolder) in existing
    ensures var b := ProcessSpec(files, outputFolder, skipArg, false, existing, sources);
            && b.existing == existing
            && |b.results| == |files|
            && forall i :: 0 <= i < |files| ==> b.results[i] == AlreadyStripped(OutputName(files[i], outputFolder))
  {
    var step := StripStep(outputFolder, skipArg, false, sources);
    forall i | 0 <= i < |files|
      ensures step(files[i], existing) == AlreadyStripped(OutputName(files[i], outputFolder))
    {
      StripOutcomes(files[i], outputFolder, List(Split(skipArg, ',')), false, existing, sources);
    }
    ProcessCreatingNothing(files, step, existing);
  }

  /** Running the command line a second time without `--force`, over the
      same readable files, changes nothing. */
  lemma SecondRunIsNoOp(files: seq<string>, outputFolder: string, skipArg: string, force: bool,
                        existing: set<string>, sources: map<string, Source>, skipArg2: string)
    requires forall i :: 0 <= i < |files| ==> files[i] in sources
    ensures var first := ProcessSpec(files, outputFolder, skipArg, force, existing, sources);
            var second := ProcessSpec(files, outputFolder, skipArg2, false, first.existing, sources);
            && second.existing == first.existing
            && |second.results| == |files|
            && forall i :: 0 <= i < |files| ==> second.results[i] == AlreadyStripped(OutputName(files[i], outputFolder))
  {
    var first := ProcessSpec(files, outputFolder, skipArg, force, existing, sources);
    OutputsExistAfter(files, outputFolder, skipArg, force, existing, sources);
    AllPresentSkipsAll(files, outputFolder, skipArg2, first.existing, sources);
  }
}
