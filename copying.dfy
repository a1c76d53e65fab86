/**
 The copy phase of `stripFile` (lclsStrip2D.py:72-76).

 Each kept dataset is copied, in keep-list order, to its own absolute path
 in the output file. Whether one copy raises is decided by the HDF5 library
 and is an oracle here: a map from a dataset's path to the exception its copy
 raises, with no entry for a copy that succeeds. A `RuntimeError` is
 reported and the loop goes on; any other exception leaves the loop and
 `stripFile`.
 */
module Copying {
  import opened Common
  import opened Selection

  /** The exception a copy raises. */
  datatype Fault = RuntimeErr | OtherErr

  /** The outcome of `H_OUT.copy(d, d.name)` for dataset `d`. */
  function CopyOutcome(faults: map<string, Fault>, d: Dataset): Option<Fault>
  {
    if d.path in faults then Some(faults[d.path]) else None
  }

  /** What the loop leaves behind: the datasets in the output file by path,
      the paths reported as "failed to copy", and the path whose copy raised
      the exception that left the loop, if one did. */
  datatype CopyRun = CopyRun(entries: map<string, Payload>, reported: seq<string>, raised: Option<string>)

  /** The loop run over `keep`, starting from an empty output file. */
  function CopyAll(keep: seq<Dataset>, faults: map<string, Fault>): CopyRun
    decreases |keep|
  {
    if |keep| == 0 then CopyRun(map[], [], None)
    else
      var before := CopyAll(keep[..|keep| - 1], faults);
      var d := keep[|keep| - 1];
      if before.raised.Some? then before
      else
        match CopyOutcome(faults, d)
        case None => before.(entries := before.entries[d.path := d.payload])
        case Some(RuntimeErr) => before.(reported := before.reported + [d.path])
        case Some(OtherErr) => before.(raised := Some(d.path))
  }

  // ---------------------------------------------------------------------------
  // Reference definitions
  // ---------------------------------------------------------------------------

  /** The datasets whose copy succeeds, in order. */
  function Copied(ds: seq<Dataset>, faults: map<string, Fault>): seq<Dataset>
    decreases |ds|
  {
    if |ds| == 0 then []
    else
      var d := ds[|ds| - 1];
      Copied(ds[..|ds| - 1], faults) + (if d.path in faults then [] else [d])
  }

  /** The paths whose copy raises a `RuntimeError`, in order. */
  function FailedPaths(ds: seq<Dataset>, faults: map<string, Fault>): seq<string>
    decreases |ds|
  {
    if |ds| == 0 then []
    else
      var d := ds[|ds| - 1];
      FailedPaths(ds[..|ds| - 1], faults) + (if CopyOutcome(faults, d) == Some(RuntimeErr) then [d.path] else [])
  }

  /** The output file after writing `ds` in order: each dataset at its path. */
  function Entries(ds: seq<Dataset>): map<string, Payload>
    decreases |ds|
  {
    if |ds| == 0 then map[]
    else
      var d := ds[|ds| - 1];
      Entries(ds[..|ds| - 1])[d.path := d.payload]
  }

  /** `s` is the index of the first kept dataset whose copy raises something
      other than a `RuntimeError`, or `|keep|` if none does. */
  predicate FirstOtherError(keep: seq<Dataset>, faults: map<string, Fault>, s: nat)
  {
    && s <= |keep|
    && (forall i :: 0 <= i < s ==> CopyOutcome(faults, keep[i]) != Some(OtherErr))
    && (s < |keep| ==> CopyOutcome(faults, keep[s]) == Some(OtherErr))
  }

  /** The loop copies every dataset before the first other exception whose
      copy succeeds, reports every one before it whose copy raises a
      `RuntimeError`, and stops at the first other exception. */
  lemma CopyAllMeaning(keep: seq<Dataset>, faults: map<string, Fault>, s: nat)
    requires FirstOtherError(keep, faults, s)
    ensures CopyAll(keep, faults)
            == CopyRun(Entries(Copied(keep[..s], faults)), FailedPaths(keep[..s], faults),
                       if s < |keep| then Some(keep[s].path) else None)
  {
    var prefix := keep[..s];
    assert forall i :: 0 <= i < |prefix| ==> prefix[i] == keep[i];
    CopyAllClean(prefix, faults);
    if s < |keep| {
      var upto := keep[..s + 1];
      assert upto[..s] == prefix;
      assert upto[s] == keep[s];
      CopyAllAfterRaise(keep, faults, s + 1);
    } else {
      assert prefix == keep;
    }
  }

  /** Without other exceptions, the loop runs to the end. */
  lemma {:induction false} CopyAllClean(keep: seq<Dataset>, faults: map<string, Fault>)
    requires forall i :: 0 <= i < |keep| ==> CopyOutcome(faults, keep[i]) != Some(OtherErr)
    ensures CopyAll(keep, faults) == CopyRun(Entries(Copied(keep, faults)), FailedPaths(keep, faults), None)
    decreases |keep|
  {
    if |keep| > 0 {
      var init, d := keep[..|keep| - 1], keep[|keep| - 1];
      assert keep == init + [d];
      assert forall i :: 0 <= i < |init| ==> init[i] == keep[i];
      CopyAllClean(init, faults);
      CopyAllLastStep(init, d, faults);
    }
  }

  /** Once a copy has raised an other exception, later datasets change
      nothing: the loop has been left. */
  lemma {:induction false} CopyAllAfterRaise(keep: seq<Dataset>, faults: map<string, Fault>, n: nat)
    requires n <= |keep|
    requires CopyAll(keep[..n], faults).raised.Some?
    ensures CopyAll(keep, faults) == CopyAll(keep[..n], faults)
    decreases |keep|
  {
    if n < |keep| {
      var init := keep[..|keep| - 1];
      assert init[..n] == keep[..n];
      CopyAllAfterRaise(init, faults, n);
    } else {
      assert keep[..n] == keep;
    }
  }

  /** One more dataset whose copy does not raise an other exception. */
  lemma CopyAllLastStep(init: seq<Dataset>, d: Dataset, faults: map<string, Fault>)
    requires CopyOutcome(faults, d) != Some(OtherErr)
    requires CopyAll(init, faults) == CopyRun(Entries(Copied(init, faults)), FailedPaths(init, faults), None)
    ensures CopyAll(init + [d], faults)
            == CopyRun(Entries(Copied(init + [d], faults)), FailedPaths(init + [d], faults), None)
  {
    SnocUnfold(init, d, faults);
    if d.path in faults {
      assert faults[d.path] == RuntimeErr;
      assert CopyOutcome(faults, d) == Some(RuntimeErr);
      assert Copied(init, faults) + [] == Copied(init, faults);
    } else {
      assert CopyOutcome(faults, d).None?;
      EntriesSnoc(Copied(init, faults), d);
    }
  }

  /** Writing one more dataset. */
  lemma EntriesSnoc(ds: seq<Dataset>, d: Dataset)
    ensures Entries(ds + [d]) == Entries(ds)[d.path := d.payload]
  {
    assert (ds + [d])[..|ds|] == ds;
  }

  /** The three loop functions, one dataset further. */
  lemma SnocUnfold(init: seq<Dataset>, d: Dataset, faults: map<string, Fault>)
    ensures Copied(init + [d], faults) == Copied(init, faults) + (if d.path in faults then [] else [d])
    ensures FailedPaths(init + [d], faults)
            == FailedPaths(init, faults) + (if CopyOutcome(faults, d) == Some(RuntimeErr) then [d.path] else [])
    ensures CopyAll(init, faults).raised.None? && CopyOutcome(faults, d).None?
            ==> CopyAll(init + [d], faults)
                == CopyAll(init, faults).(entries := CopyAll(init, faults).entries[d.path := d.payload])
    ensures CopyAll(init, faults).raised.None? && CopyOutcome(faults, d) == Some(RuntimeErr)
            ==> CopyAll(init + [d], faults)
                == CopyAll(init, faults).(reported := CopyAll(init, faults).reported + [d.path])
  {
    assert (init + [d])[..|init|] == init;
  }

  /** The output holds exactly the paths written. */
  lemma {:induction false} EntriesKeys(ds: seq<Dataset>)
    ensures Entries(ds).Keys == set d | d in ds :: d.path
    decreases |ds|
  {
    if |ds| > 0 {
      var init := ds[..|ds| - 1];
      EntriesKeys(init);
      assert ds == init + [ds[|ds| - 1]];
    }
  }

  /** When no two datasets share a path, each lands with its own payload. */
  lemma {:induction false} EntriesLookup(ds: seq<Dataset>, i: nat)
    requires DistinctPaths(ds)
    requires i < |ds|
    ensures ds[i].path in Entries(ds) && Entries(ds)[ds[i].path] == ds[i].payload
    decreases |ds|
  {
    EntriesKeys(ds);
    if i < |ds| - 1 {
      var init := ds[..|ds| - 1];
      assert init[i] == ds[i];
      EntriesLookup(init, i);
    }
  }

  /** A dataset is copied iff it is one of `ds` and its copy succeeds. */
  lemma {:induction false} CopiedMembers(ds: seq<Dataset>, faults: map<string, Fault>, d: Dataset)
    ensures d in Copied(ds, faults) <==> d in ds && d.path !in faults
    decreases |ds|
  {
    if |ds| > 0 {
      var init := ds[..|ds| - 1];
      CopiedMembers(init, faults, d);
      assert ds == init + [ds[|ds| - 1]];
    }
  }

  /** Filtering keeps distinct paths distinct. */
  lemma {:induction false} CopiedDistinct(ds: seq<Dataset>, faults: map<string, Fault>)
    requires DistinctPaths(ds)
    ensures DistinctPaths(Copied(ds, faults))
    decreases |ds|
  {
    if |ds| > 0 {
      var init := ds[..|ds| - 1];
      var last := ds[|ds| - 1];
      assert DistinctPaths(init);
      CopiedDistinct(init, faults);
      var c := Copied(init, faults);
      forall k | 0 <= k < |c| ensures c[k].path != last.path {
        CopiedMembers(init, faults, c[k]);
        var m :| 0 <= m < |init| && init[m] == c[k];
        assert ds[m] == c[k];
      }
    }
  }

  /** What the output file holds after the loop, when no kept dataset's copy
      raises anything but a `RuntimeError`: exactly the datasets whose copy
      succeeds, each at its own path with its payload; the reported paths
      are those whose copy raised a `RuntimeError`. */
  lemma CopyAllWithoutOtherErrors(keep: seq<Dataset>, faults: map<string, Fault>)
    requires forall i :: 0 <= i < |keep| ==> CopyOutcome(faults, keep[i]) != Some(OtherErr)
    requires DistinctPaths(keep)
    ensures CopyAll(keep, faults).raised == None
    ensures CopyAll(keep, faults).reported == FailedPaths(keep, faults)
    ensures CopyAll(keep, faults).entries.Keys == set d | d in keep && d.path !in faults :: d.path
    ensures forall d :: d in keep && d.path !in faults ==> CopyAll(keep, faults).entries[d.path] == d.payload
  {
    assert FirstOtherError(keep, faults, |keep|);
    CopyAllMeaning(keep, faults, |keep|);
    assert keep[..|keep|] == keep;
    var c := Copied(keep, faults);
    EntriesKeys(c);
    forall d ensures d in c <==> d in keep && d.path !in faults {
      CopiedMembers(keep, faults, d);
    }
    CopiedDistinct(keep, faults);
    forall d | d in keep && d.path !in faults ensures Entries(c)[d.path] == d.payload {
      var k :| 0 <= k < |c| && c[k] == d;
      EntriesLookup(c, k);
    }
  }

  /** The first other exception ends the loop: it is the one raised, and
      nothing kept after it reaches the output file. */
  lemma CopyAllStopsAtOtherError(keep: seq<Dataset>, faults: map<string, Fault>, s: nat)
    requires FirstOtherError(keep, faults, s) && s < |keep|
    ensures CopyAll(keep, faults).raised == Some(keep[s].path)
    ensures CopyAll(keep, faults).entries.Keys == set d | d in keep[..s] && d.path !in faults :: d.path
    ensures CopyAll(keep, faults).reported == FailedPaths(keep[..s], faults)
  {
    CopyAllMeaning(keep, faults, s);
    var c := Copied(keep[..s], faults);
    EntriesKeys(c);
    forall d ensures d in c <==> d in keep[..s] && d.path !in faults {
      CopiedMembers(keep[..s], faults, d);
    }
  }

  /** A `RuntimeError` is reported with the dataset's path and the loop goes
      on: the reported paths are exactly the kept paths before the first
      other exception whose copy raised a `RuntimeError`. */
  lemma {:induction false} FailedPathsMembers(ds: seq<Dataset>, faults: map<string, Fault>, p: string)
    ensures p in FailedPaths(ds, faults)
            <==> exists d :: d in ds && d.path == p && CopyOutcome(faults, d) == Some(RuntimeErr)
    decreases |ds|
  {
    if |ds| > 0 {
      var init := ds[..|ds| - 1];
      FailedPathsMembers(init, faults, p);
      assert ds == init + [ds[|ds| - 1]];
    }
  }

  /** The output file of lclsStrip2D.py:65, opened for writing (and so
      emptied). Only the datasets are modelled; the groups above them are
      created by the copy and are implied by the paths. */
  class OutputFile {
    var entries: map<string, Payload>

    constructor ()
      ensures entries == map[]
    {
      entries := map[];
    }

    /** `H_OUT.copy(d, d.name)`: writes `d` at its path unless the copy
        raises; the exception is returned. */
    method Copy(d: Dataset, faults: map<string, Fault>) returns (fault: Option<Fault>)
      modifies this
      ensures fault == CopyOutcome(faults, d)
      ensures entries == if fault.None? then old(entries)[d.path := d.payload] else old(entries)
    {
      fault := CopyOutcome(faults, d);
      if fault.None? {
        entries := entries[d.path := d.payload];
      }
    }
  }
}
