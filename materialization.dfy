/** Materialization: one cursor walks the shuffled pairs and hands each split,
    in configuration order, the next `count` pairs; each pair's image and
    label are copied into `<out>/<split>/images` and `<out>/<split>/labels`.
    The file system is represented by the log of the directory creations and
    copy attempts, and whether a copy succeeds is an oracle indexed by the
    cursor position of the pair. */
module Materialization {
  import opened Paths
  import opened Discovery
  import opened Sizing
  import opened Effects

  /** What happens when a pair is copied: both copies succeed, the image copy
      raises (the label copy is then not attempted), or the label copy raises
      after the image was copied. */
  datatype CopyOutcome = Copied | ImageCopyFailed | LabelCopyFailed

  function ImagesDir(outDir: string, split: string): string
  {
    Join(Join(outDir, split), "images")
  }

  function LabelsDir(outDir: string, split: string): string
  {
    Join(Join(outDir, split), "labels")
  }

  /** Number of iterations of `range(count)`. */
  function Iterations(count: int): nat
  {
    if count > 0 then count else 0
  }

  function Min(a: int, b: int): int
  {
    if a <= b then a else b
  }

  /** Sum of the iteration counts of the splits. */
  function Requested(counts: seq<SplitCount>): nat
    decreases |counts|
  {
    if counts == [] then 0
    else Requested(counts[..|counts| - 1]) + Iterations(counts[|counts| - 1].count)
  }

  /** The cursor position at which split `k` starts taking pairs: each
      earlier split advances the cursor by its count, and the safety break
      stops it at the number of pairs. */
  function Start(counts: seq<SplitCount>, total: nat, k: nat): (r: nat)
    requires k <= |counts|
    ensures r <= total
    decreases k
  {
    if k == 0 then 0
    else Min(total, Start(counts, total, k - 1) + Iterations(counts[k - 1].count))
  }

  /** Number of pairs among the cursor positions [lo, hi) whose copies both
      succeed. */
  function Successes(outcome: nat -> CopyOutcome, lo: nat, hi: nat): nat
    decreases hi - lo
  {
    if hi <= lo then 0
    else Successes(outcome, lo, hi - 1) + (if outcome(hi - 1) == Copied then 1 else 0)
  }

  lemma SuccessesStep(outcome: nat -> CopyOutcome, lo: nat, hi: nat)
    requires lo <= hi
    ensures Successes(outcome, lo, hi + 1) == Successes(outcome, lo, hi) + (if outcome(hi) == Copied then 1 else 0)
  {
  }

  /** The copy attempts for one pair: the image, then the label unless the
      image copy raised. Each destination keeps the source's basename. */
  function CopyActions(imagesDir: string, labelsDir: string, p: Pair, o: CopyOutcome): seq<Action>
  {
    [CopyFile(p.imagePath, Join(imagesDir, Basename(p.imagePath)))]
    + (if o == ImageCopyFailed then [] else [CopyFile(p.labelPath, Join(labelsDir, Basename(p.labelPath)))])
  }

  /** The copy attempts for the pairs at cursor positions [lo, hi). */
  function CopyLog(imagesDir: string, labelsDir: string, pairs: seq<Pair>, outcome: nat -> CopyOutcome,
                   lo: nat, hi: nat): seq<Action>
    requires lo <= hi <= |pairs|
    decreases hi - lo
  {
    if hi == lo then []
    else CopyLog(imagesDir, labelsDir, pairs, outcome, lo, hi - 1)
         + CopyActions(imagesDir, labelsDir, pairs[hi - 1], outcome(hi - 1))
  }

  lemma CopyLogStep(imagesDir: string, labelsDir: string, pairs: seq<Pair>, outcome: nat -> CopyOutcome,
                    lo: nat, hi: nat)
    requires lo <= hi < |pairs|
    ensures CopyLog(imagesDir, labelsDir, pairs, outcome, lo, hi + 1)
         == CopyLog(imagesDir, labelsDir, pairs, outcome, lo, hi) + CopyActions(imagesDir, labelsDir, pairs[hi], outcome(hi))
  {
  }

  /** The effects of split `k`: its two directories, then the copies of its
      slice of the pairs. */
  function SplitLog(outDir: string, pairs: seq<Pair>, counts: seq<SplitCount>,
                    outcome: nat -> CopyOutcome, k: nat): seq<Action>
    requires k < |counts|
  {
    var name := counts[k].name;
    [MakeDirs(ImagesDir(outDir, name)), MakeDirs(LabelsDir(outDir, name))]
    + CopyLog(ImagesDir(outDir, name), LabelsDir(outDir, name), pairs, outcome,
              Start(counts, |pairs|, k), Start(counts, |pairs|, k + 1))
  }

  /** The logs of the first `k` splits, in order. */
  function SplitLogs(outDir: string, pairs: seq<Pair>, counts: seq<SplitCount>,
                     outcome: nat -> CopyOutcome, k: nat): (r: seq<seq<Action>>)
    requires k <= |counts|
    ensures |r| == k && forall j :: 0 <= j < k ==> r[j] == SplitLog(outDir, pairs, counts, outcome, j)
  {
    seq(k, j requires 0 <= j < |counts| => SplitLog(outDir, pairs, counts, outcome, j))
  }

  /** The effects of the first `k` splits, in order. */
  function MaterializeLog(outDir: string, pairs: seq<Pair>, counts: seq<SplitCount>,
                          outcome: nat -> CopyOutcome, k: nat): seq<Action>
    requires k <= |counts|
  {
    Flatten(SplitLogs(outDir, pairs, counts, outcome, k))
  }

  lemma MaterializeLogAppends(outDir: string, pairs: seq<Pair>, counts: seq<SplitCount>,
                              outcome: nat -> CopyOutcome, k: nat)
    requires k < |counts|
    ensures MaterializeLog(outDir, pairs, counts, outcome, k + 1)
         == MaterializeLog(outDir, pairs, counts, outcome, k) + SplitLog(outDir, pairs, counts, outcome, k)
  {
    assert SplitLogs(outDir, pairs, counts, outcome, k + 1)
        == SplitLogs(outDir, pairs, counts, outcome, k) + [SplitLog(outDir, pairs, counts, outcome, k)];
    FlattenAppend(SplitLogs(outDir, pairs, counts, outcome, k), SplitLog(outDir, pairs, counts, outcome, k));
  }

  lemma MaterializeLogStep(outDir: string, pairs: seq<Pair>, counts: seq<SplitCount>,
                           outcome: nat -> CopyOutcome, k: nat)
    requires k < |counts|
    ensures Start(counts, |pairs|, k) <= Start(counts, |pairs|, k + 1)
    ensures MaterializeLog(outDir, pairs, counts, outcome, k + 1)
         == MaterializeLog(outDir, pairs, counts, outcome, k)
            + [MakeDirs(ImagesDir(outDir, counts[k].name)), MakeDirs(LabelsDir(outDir, counts[k].name))]
            + CopyLog(ImagesDir(outDir, counts[k].name), LabelsDir(outDir, counts[k].name), pairs, outcome,
                      Start(counts, |pairs|, k), Start(counts, |pairs|, k + 1))
  {
    MaterializeLogAppends(outDir, pairs, counts, outcome, k);
  }

  /** The start of split `k` is what the earlier splits ask for, clipped to
      the number of pairs. */
  lemma {:induction false} StartIsClippedRequested(counts: seq<SplitCount>, total: nat, k: nat)
    requires k <= |counts|
    ensures Start(counts, total, k) == Min(total, Requested(counts[..k]))
    decreases k
  {
    if k > 0 {
      StartIsClippedRequested(counts, total, k - 1);
      assert counts[..k][..k - 1] == counts[..k - 1];
    } else {
      assert counts[..0] == [];
    }
  }

  /** The body of the copy loop for one pair: the destination names, the
      image copy, the label copy unless the image copy raised, and whether
      the pair counts as copied (both copies succeeded). */
  method CopyPair(imagesDir: string, labelsDir: string, p: Pair, o: CopyOutcome)
    returns (ok: bool, acts: seq<Action>)
    ensures ok <==> o == Copied
    ensures acts == CopyActions(imagesDir, labelsDir, p, o)
  {
    var imageSrcPath, labelSrcPath := p.imagePath, p.labelPath;
    var imageFilename := Basename(imageSrcPath);
    var labelFilename := Basename(labelSrcPath);
    var imageDestPath := Join(imagesDir, imageFilename);
    var labelDestPath := Join(labelsDir, labelFilename);
    acts := [CopyFile(imageSrcPath, imageDestPath)];
    ok := false;
    if o != ImageCopyFailed {
      acts := acts + [CopyFile(labelSrcPath, labelDestPath)];
      if o == Copied {
        ok := true;
      }
    }
  }

  /** The copy loop of one split. It takes up to `count` pairs from the
      cursor on, stops early when the cursor reaches the number of pairs,
      attempts the image and label copies of each pair, counts a pair only
      when both copies succeed, and advances the cursor either way. */
  method CopySplit(imagesDir: string, labelsDir: string, pairs: seq<Pair>, outcome: nat -> CopyOutcome,
                   count: int, start: nat) returns (cursor: nat, copied: nat, log: seq<Action>)
    requires start <= |pairs|
    ensures cursor == Min(|pairs|, start + Iterations(count))
    ensures copied == Successes(outcome, start, cursor)
    ensures log == CopyLog(imagesDir, labelsDir, pairs, outcome, start, cursor)
  {
    cursor, copied, log := start, 0, [];
    var i := 0;
    while i < count
      invariant 0 <= i <= Iterations(count)
      invariant cursor == start + i <= |pairs|
      invariant copied == Successes(outcome, start, cursor)
      invariant log == CopyLog(imagesDir, labelsDir, pairs, outcome, start, cursor)
    {
      if cursor >= |pairs| {
        break;
      }
      var ok, acts := CopyPair(imagesDir, labelsDir, pairs[cursor], outcome(cursor));
      SuccessesStep(outcome, start, cursor);
      CopyLogStep(imagesDir, labelsDir, pairs, outcome, start, cursor);
      log := log + acts;
      if ok {
        copied := copied + 1;
      }
      cursor := cursor + 1;
      i := i + 1;
    }
  }

  /** The materialization loop over the splits in configuration order. For
      each split it creates the two directories and runs the split's copy
      loop from the shared cursor; `copied` holds the successful pairs per
      split, in the same order. */
  method Materialize(outDir: string, pairs: seq<Pair>, counts: seq<SplitCount>, outcome: nat -> CopyOutcome)
    returns (copied: seq<nat>, cursor: nat, log: seq<Action>)
    ensures cursor == Start(counts, |pairs|, |counts|)
    ensures |copied| == |counts|
    ensures forall k :: 0 <= k < |counts| ==>
      copied[k] == Successes(outcome, Start(counts, |pairs|, k), Start(counts, |pairs|, k + 1))
    ensures log == MaterializeLog(outDir, pairs, counts, outcome, |counts|)
  {
    copied, cursor, log := [], 0, [];
    var k := 0;
    while k < |counts|
      invariant 0 <= k <= |counts|
      invariant cursor == Start(counts, |pairs|, k)
      invariant |copied| == k
      invariant forall j :: 0 <= j < k ==>
        copied[j] == Successes(outcome, Start(counts, |pairs|, j), Start(counts, |pairs|, j + 1))
      invariant log == MaterializeLog(outDir, pairs, counts, outcome, k)
    {
      var splitName := counts[k].name;
      var imagesOutputDir := ImagesDir(outDir, splitName);
      var labelsOutputDir := LabelsDir(outDir, splitName);
      log := log + [MakeDirs(imagesOutputDir), MakeDirs(labelsOutputDir)];
      var next, splitCopied, splitLog := CopySplit(imagesOutputDir, labelsOutputDir, pairs, outcome,
                                                   counts[k].count, cursor);
      MaterializeLogStep(outDir, pairs, counts, outcome, k);
      copied := copied + [splitCopied];
      log := log + splitLog;
      cursor := next;
      k := k + 1;
    }
  }

  lemma {:induction false} RequestedPrefixMonotone(counts: seq<SplitCount>, k: nat, k': nat)
    requires k <= k' <= |counts|
    ensures Requested(counts[..k]) <= Requested(counts[..k'])
    decreases k'
  {
    if k < k' {
      RequestedPrefixMonotone(counts, k, k' - 1);
      assert counts[..k'][..k' - 1] == counts[..k' - 1];
    }
  }

  /** Later splits never start before earlier ones. */
  lemma {:induction false} StartMonotone(counts: seq<SplitCount>, total: nat, k: nat, k': nat)
    requires k <= k' <= |counts|
    ensures Start(counts, total, k) <= Start(counts, total, k')
    decreases k'
  {
    if k < k' {
      StartMonotone(counts, total, k, k' - 1);
    }
  }

  /** Split `k` holds cursor position `i`. */
  predicate InSplit(counts: seq<SplitCount>, total: nat, k: nat, i: nat)
    requires k < |counts|
  {
    Start(counts, total, k) <= i < Start(counts, total, k + 1)
  }

  /** No cursor position belongs to two splits: the slices are disjoint. */
  lemma SplitsDisjoint(counts: seq<SplitCount>, total: nat, i: nat, k: nat, k': nat)
    requires k < |counts| && k' < |counts|
    requires InSplit(counts, total, k, i) && InSplit(counts, total, k', i)
    ensures k == k'
  {
    if k < k' {
      StartMonotone(counts, total, k + 1, k');
    } else if k' < k {
      StartMonotone(counts, total, k' + 1, k);
    }
  }

  lemma {:induction false} FindSplit(counts: seq<SplitCount>, total: nat, i: nat, k: nat) returns (owner: nat)
    requires k < |counts|
    requires Start(counts, total, k) <= i < Start(counts, total, |counts|)
    ensures k <= owner < |counts| && InSplit(counts, total, owner, i)
    decreases |counts| - k
  {
    if i < Start(counts, total, k + 1) {
      owner := k;
    } else {
      owner := FindSplit(counts, total, i, k + 1);
    }
  }

  /** When the splits ask for at least as many pairs as there are, every
      pair position belongs to exactly one split: nothing is skipped and
      nothing is copied twice. */
  lemma ExactlyOneSplit(counts: seq<SplitCount>, total: nat, i: nat) returns (owner: nat)
    requires Requested(counts) >= total && i < total
    ensures owner < |counts| && InSplit(counts, total, owner, i)
    ensures forall k :: 0 <= k < |counts| && InSplit(counts, total, k, i) ==> k == owner
  {
    assert counts[..|counts|] == counts;
    StartIsClippedRequested(counts, total, |counts|);
    owner := FindSplit(counts, total, i, 0);
    forall k | 0 <= k < |counts| && InSplit(counts, total, k, i)
      ensures k == owner
    {
      SplitsDisjoint(counts, total, i, k, owner);
    }
  }

  /** Counts that add up to the number of pairs ask for at least that many:
      a negative count asks for none. */
  lemma {:induction false} RequestedAtLeastTotal(counts: seq<SplitCount>)
    ensures Requested(counts) >= Total(counts)
    decreases |counts|
  {
    if counts != [] {
      RequestedAtLeastTotal(counts[..|counts| - 1]);
    }
  }

  lemma {:induction false} RequestedIsTotalWhenNonNegative(counts: seq<SplitCount>)
    requires forall j :: 0 <= j < |counts| ==> counts[j].count >= 0
    ensures Requested(counts) == Total(counts)
    decreases |counts|
  {
    if counts != [] {
      var init := counts[..|counts| - 1];
      assert forall j :: 0 <= j < |init| ==> init[j] == counts[j];
      RequestedIsTotalWhenNonNegative(init);
    }
  }

  /** With non-negative counts that add up to the number of pairs, split `k`
      receives exactly the positions from the sum of the earlier counts up to
      that sum plus its own count. */
  lemma SplitSliceAsCounted(counts: seq<SplitCount>, total: nat, k: nat)
    requires forall j :: 0 <= j < |counts| ==> counts[j].count >= 0
    requires Total(counts) == total
    requires k < |counts|
    ensures Start(counts, total, k) == Total(counts[..k])
    ensures Start(counts, total, k + 1) == Total(counts[..k]) + counts[k].count
  {
    var pre := counts[..k];
    var pre' := counts[..k + 1];
    assert forall j :: 0 <= j < |pre| ==> pre[j] == counts[j];
    assert forall j :: 0 <= j < |pre'| ==> pre'[j] == counts[j];
    RequestedIsTotalWhenNonNegative(pre);
    RequestedIsTotalWhenNonNegative(pre');
    RequestedIsTotalWhenNonNegative(counts);
    RequestedPrefixMonotone(counts, k + 1, |counts|);
    assert counts[..|counts|] == counts;
    StartIsClippedRequested(counts, total, k);
    StartIsClippedRequested(counts, total, k + 1);
    assert pre'[..k] == pre;
  }

  lemma {:induction false} SuccessesAtMostRange(outcome: nat -> CopyOutcome, lo: nat, hi: nat)
    requires lo <= hi
    ensures Successes(outcome, lo, hi) <= hi - lo
    ensures (forall i :: lo <= i < hi ==> outcome(i) == Copied) ==> Successes(outcome, lo, hi) == hi - lo
    decreases hi - lo
  {
    if lo < hi {
      SuccessesAtMostRange(outcome, lo, hi - 1);
    }
  }

  /** A split never reports more copied pairs than it took, nor more than its
      count; it reports exactly as many as it took when no copy fails. */
  lemma CopiedAtMostCount(counts: seq<SplitCount>, total: nat, outcome: nat -> CopyOutcome, k: nat)
    requires k < |counts|
    ensures Start(counts, total, k) <= Start(counts, total, k + 1)
    ensures Successes(outcome, Start(counts, total, k), Start(counts, total, k + 1))
         <= Start(counts, total, k + 1) - Start(counts, total, k) <= Iterations(counts[k].count)
    ensures (forall i :: outcome(i) == Copied) ==>
      Successes(outcome, Start(counts, total, k), Start(counts, total, k + 1))
        == Start(counts, total, k + 1) - Start(counts, total, k)
  {
    SuccessesAtMostRange(outcome, Start(counts, total, k), Start(counts, total, k + 1));
  }

  lemma CopyActionsKeepNames(imagesDir: string, labelsDir: string, p: Pair, o: CopyOutcome)
    ensures Renamed(CopyActions(imagesDir, labelsDir, p, o)) == {}
  {
    var image := [CopyFile(p.imagePath, Join(imagesDir, Basename(p.imagePath)))];
    var lbl := [CopyFile(p.labelPath, Join(labelsDir, Basename(p.labelPath)))];
    CopyIntoRenamesNothing(imagesDir, p.imagePath);
    CopyIntoRenamesNothing(labelsDir, p.labelPath);
    RenamedConcat(image, []);
    RenamedConcat(image, lbl);
  }

  /** The copies among the attempts for cursor positions [lo, hi) that do
      not keep their file name. */
  function CopyLogRenamed(imagesDir: string, labelsDir: string, pairs: seq<Pair>, outcome: nat -> CopyOutcome,
                          lo: nat, hi: nat): set<Action>
    requires lo <= hi <= |pairs|
  {
    Renamed(CopyLog(imagesDir, labelsDir, pairs, outcome, lo, hi))
  }

  lemma {:induction false} CopyLogKeepsNames(imagesDir: string, labelsDir: string, pairs: seq<Pair>,
                                             outcome: nat -> CopyOutcome, lo: nat, hi: nat)
    requires lo <= hi <= |pairs|
    ensures CopyLogRenamed(imagesDir, labelsDir, pairs, outcome, lo, hi) == {}
    decreases hi - lo
  {
    if lo < hi {
      CopyLogKeepsNames(imagesDir, labelsDir, pairs, outcome, lo, hi - 1);
      CopyActionsKeepNames(imagesDir, labelsDir, pairs[hi - 1], outcome(hi - 1));
      RenamedConcat(CopyLog(imagesDir, labelsDir, pairs, outcome, lo, hi - 1),
                    CopyActions(imagesDir, labelsDir, pairs[hi - 1], outcome(hi - 1)));
    }
  }

  lemma SplitLogKeepsNames(outDir: string, pairs: seq<Pair>, counts: seq<SplitCount>,
                           outcome: nat -> CopyOutcome, k: nat)
    requires k < |counts|
    ensures Renamed(SplitLog(outDir, pairs, counts, outcome, k)) == {}
  {
    var imagesDir, labelsDir := ImagesDir(outDir, counts[k].name), LabelsDir(outDir, counts[k].name);
    var lo, hi := Start(counts, |pairs|, k), Start(counts, |pairs|, k + 1);
    StartMonotone(counts, |pairs|, k, k + 1);
    CopyLogKeepsNames(imagesDir, labelsDir, pairs, outcome, lo, hi);
    DirsRenameNothing(imagesDir, labelsDir);
    RenamedConcat([MakeDirs(imagesDir), MakeDirs(labelsDir)], CopyLog(imagesDir, labelsDir, pairs, outcome, lo, hi));
  }

  lemma MaterializeLogKeepsNames(outDir: string, pairs: seq<Pair>, counts: seq<SplitCount>,
                                 outcome: nat -> CopyOutcome, k: nat)
    requires k <= |counts|
    ensures Renamed(MaterializeLog(outDir, pairs, counts, outcome, k)) == {}
  {
    var logs := SplitLogs(outDir, pairs, counts, outcome, k);
    forall j | 0 <= j < k
      ensures Renamed(logs[j]) == {}
    {
      SplitLogKeepsNames(outDir, pairs, counts, outcome, j);
    }
    FlattenRenamesNothing(logs);
  }

  /** Every copy of the run keeps the source file's name in its destination
      directory. */
  lemma LogKeepsFileNames(outDir: string, pairs: seq<Pair>, counts: seq<SplitCount>,
                          outcome: nat -> CopyOutcome)
    ensures forall i :: 0 <= i < |MaterializeLog(outDir, pairs, counts, outcome, |counts|)| ==>
              KeepsName(MaterializeLog(outDir, pairs, counts, outcome, |counts|)[i])
  {
    MaterializeLogKeepsNames(outDir, pairs, counts, outcome, |counts|);
    RenamedEmptyMeans(MaterializeLog(outDir, pairs, counts, outcome, |counts|));
  }
}
