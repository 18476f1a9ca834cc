/** The whole run of the splitter: discover the pairs, stop when there are
    none, shuffle them, size the splits and copy each split's pairs. The
    folder listing, the random draws and the success of each copy are inputs;
    the file-system effects are the returned log. */
module Pipeline {
  import opened Discovery
  import opened Sizing
  import opened Shuffling
  import opened Effects
  import opened Materialization

  /** What a completed run computed. */
  datatype Report = Report(
    scan: Scan,
    shuffled: seq<Pair>,
    counts: seq<SplitCount>,
    copied: seq<nat>)

  /** The run either stops right after discovery, because no pair was found
      (nothing is created or copied then), or completes. */
  datatype Outcome = Stopped(scan: Scan) | Completed(report: Report)

  /** The script from the discovery loop to the end of the copy loop; `log`
      holds the directories it creates and the copies it attempts. */
  method Run(inDir: string, folder: Folder, outDir: string, props: seq<Proportion>,
             draw: nat -> nat, outcome: nat -> CopyOutcome) returns (r: Outcome, log: seq<Action>)
    requires DistinctNames(props)
    ensures r.Stopped? <==> ScanOf(inDir, folder, folder.entries).pairs == []
    ensures r.Stopped? ==> r.scan == ScanOf(inDir, folder, folder.entries) && log == []
    ensures r.Completed? ==>
      var rep := r.report;
      rep.scan == ScanOf(inDir, folder, folder.entries)
      && rep.shuffled == Shuffled(rep.scan.pairs, draw)
      && rep.counts == SplitSizes(|rep.shuffled|, props)
      && |rep.copied| == |rep.counts|
      && (forall k :: 0 <= k < |rep.counts| ==>
            rep.copied[k] == Successes(outcome, Start(rep.counts, |rep.shuffled|, k),
                                       Start(rep.counts, |rep.shuffled|, k + 1)))
      && log == MaterializeLog(outDir, rep.shuffled, rep.counts, outcome, |rep.counts|)
  {
    var scan := DiscoverPairs(inDir, folder);
    if scan.pairs == [] {
      return Stopped(scan), [];
    }
    var a := new Pair[|scan.pairs|](i requires 0 <= i < |scan.pairs| => scan.pairs[i]);
    assert a[..] == scan.pairs;
    Shuffle(a, draw);
    var shuffled := a[..];
    var counts := ComputeSplitCounts(|shuffled|, props);
    var copied, cursor;
    copied, cursor, log := Materialize(outDir, shuffled, counts, outcome);
    r := Completed(Report(scan, shuffled, counts, copied));
  }

  /** The shuffled pairs are the discovered pairs in some order. */
  lemma ShuffledArePairs(inDir: string, folder: Folder, draw: nat -> nat)
    ensures multiset(Shuffled(ScanOf(inDir, folder, folder.entries).pairs, draw))
         == multiset(ScanOf(inDir, folder, folder.entries).pairs)
  {
    ShufflePermutes(ScanOf(inDir, folder, folder.entries).pairs, draw);
  }

  /** With at least one split configured, every position of the shuffled
      pairs falls in the slice of exactly one split, whatever the
      proportions: no pair is skipped and none is copied twice. */
  lemma EveryPairInOneSplit(total: nat, props: seq<Proportion>, i: nat) returns (owner: nat)
    requires |props| > 0 && i < total
    ensures owner < |props| && InSplit(SplitSizes(total, props), total, owner, i)
    ensures forall k :: 0 <= k < |props| && InSplit(SplitSizes(total, props), total, k, i) ==> k == owner
  {
    var counts := SplitSizes(total, props);
    SplitSizesSumToTotal(total, props);
    RequestedAtLeastTotal(counts);
    owner := ExactlyOneSplit(counts, total, i);
  }

  /** The copy loop ends with the cursor on the last pair: with at least one
      split configured, all positions are visited. */
  lemma CursorReachesEnd(total: nat, props: seq<Proportion>)
    requires |props| > 0
    ensures Start(SplitSizes(total, props), total, |props|) == total
  {
    var counts := SplitSizes(total, props);
    SplitSizesSumToTotal(total, props);
    RequestedAtLeastTotal(counts);
    StartIsClippedRequested(counts, total, |counts|);
    assert counts[..|counts|] == counts;
  }
}
