/**
 * The shared progress counters of the parallel heap scan: any number of workers, each with its own region, interleaved
 * in any order. The counters are accessed with relaxed ordering, so a load of the threshold may return any value that
 * it ever held, and a compare-exchange may fail for no visible reason; only a successful one sees the latest value.
 */
module ScanProgress {
  import opened HeapScan
  import opened Memory

  const GRANULARITY := 16 * 1024 * 1024

  /** Where a worker is in its loop; `total` is what its fetch-add returned plus its advance. */
  datatype Phase =
    | Reading
    | Counted(total: int)
    | Loaded(total: int, threshold: int)
    | Emitting(total: int)
    | Finished
    | GaveUp

  /** A worker has accounted for the first `done` bytes of its region. */
  datatype Worker = Worker(region: Region, done: int, phase: Phase)

  /**
   * `thresholds` lists all values of `next_emit` in modification order, so its last element is the current one;
   * `reported` lists the values passed to the progress callback in the order of the compare-exchanges that claimed
   * them.
   */
  datatype State = State(scanned: int, thresholds: seq<int>, reported: seq<int>, workers: seq<Worker>)

  function NextEmit(s: State): int
    requires s.thresholds != []
  {
    s.thresholds[|s.thresholds| - 1]
  }

  function TotalBytes(workers: seq<Worker>): int {
    if workers == [] then 0 else workers[0].region.size + TotalBytes(workers[1..])
  }

  function DoneBytes(workers: seq<Worker>): int {
    if workers == [] then 0 else workers[0].done + DoneBytes(workers[1..])
  }

  predicate Start(s: State) {
    && s.scanned == 0 && s.thresholds == [GRANULARITY] && s.reported == []
    && forall w :: w in s.workers ==> w.done == 0 && w.phase == Reading
  }

  // ---------- steps ----------

  function With(s: State, i: nat, w: Worker): State
    requires i < |s.workers|
  {
    s.(workers := s.workers[i := w])
  }

  /** A chunk was read and searched; its advance is added to the shared counter. */
  predicate CountStep(s: State, s': State, i: nat) {
    && i < |s.workers|
    && var w := s.workers[i];
    && w.phase == Reading && 0 <= w.done < w.region.size
    && var advance := Advance(w.region, w.done);
    && s' == With(s, i, w.(done := w.done + advance, phase := Counted(s.scanned + advance)))
             .(scanned := s.scanned + advance)
  }

  /** The loop ends: the region is used up, or a chunk could not be read. */
  predicate StopStep(s: State, s': State, i: nat) {
    && i < |s.workers|
    && var w := s.workers[i];
    && w.phase == Reading
    && (s' == With(s, i, w.(phase := if w.done >= w.region.size then Finished else GaveUp)))
  }

  /** The threshold is loaded, as it is or once was, and compared with the worker's total. */
  predicate LoadStep(s: State, s': State, i: nat, seen: int) {
    && i < |s.workers| && seen in s.thresholds
    && var w := s.workers[i];
    && w.phase.Counted?
    && s' == With(s, i, w.(phase := if w.phase.total >= seen then Loaded(w.phase.total, seen) else Reading))
  }

  /** The compare-exchange succeeds: the loaded threshold is still the current one. */
  predicate ClaimStep(s: State, s': State, i: nat) {
    && i < |s.workers| && s.thresholds != []
    && var w := s.workers[i];
    && w.phase.Loaded? && w.phase.threshold == NextEmit(s)
    && var total := TotalBytes(s.workers);
    && s' == With(s, i, w.(phase := Emitting(w.phase.total)))
             .(thresholds := s.thresholds + [(w.phase.total / GRANULARITY + 1) * GRANULARITY],
               reported := s.reported + [if w.phase.total < total then w.phase.total else total])
  }

  /** The compare-exchange fails, or the callback returns. */
  predicate ResumeStep(s: State, s': State, i: nat) {
    && i < |s.workers|
    && var w := s.workers[i];
    && (w.phase.Loaded? || w.phase.Emitting?)
    && s' == With(s, i, w.(phase := Reading))
  }

  ghost predicate StepOf(s: State, s': State, i: nat) {
    || CountStep(s, s', i)
    || StopStep(s, s', i)
    || (exists seen :: LoadStep(s, s', i, seen))
    || ClaimStep(s, s', i)
    || ResumeStep(s, s', i)
  }

  ghost predicate Next(s: State, s': State) { exists i: nat :: StepOf(s, s', i) }

  ghost predicate Run(run: seq<State>) {
    && run != [] && Start(run[0])
    && forall k :: 0 < k < |run| ==> Next(run[k - 1], run[k])
  }

  // ---------- invariant ----------

  predicate WorkerInv(s: State, w: Worker) {
    && 0 <= w.done <= w.region.size
    && (w.phase.Counted? || w.phase.Loaded? ==> w.phase.total <= s.scanned)
    && (w.phase.Loaded? ==> w.phase.threshold <= w.phase.total)
    && (w.phase == Finished ==> w.done == w.region.size)
  }

  /** Every claim lies between the threshold it passed and the one it set, and slots are claimed one by one. */
  predicate ClaimsInv(thresholds: seq<int>, reported: seq<int>) {
    && |thresholds| == |reported| + 1
    && (forall k :: 0 <= k < |thresholds| ==>
          thresholds[k] % GRANULARITY == 0 && thresholds[k] >= (k + 1) * GRANULARITY)
    && (forall k :: 0 <= k < |reported| ==> thresholds[k] <= reported[k] < thresholds[k + 1])
  }

  predicate Inv(s: State) {
    && s.scanned == DoneBytes(s.workers)
    && ClaimsInv(s.thresholds, s.reported)
    && (forall k :: 0 <= k < |s.reported| ==> s.reported[k] <= s.scanned)
    && (forall i :: 0 <= i < |s.workers| ==> WorkerInv(s, s.workers[i]))
  }

  lemma {:induction false} SumsAfter(workers: seq<Worker>, i: nat, w: Worker)
    requires i < |workers|
    ensures DoneBytes(workers[i := w]) == DoneBytes(workers) - workers[i].done + w.done
    ensures w.region == workers[i].region ==> TotalBytes(workers[i := w]) == TotalBytes(workers)
  {
    if i == 0 {
      assert workers[i := w][1..] == workers[1..];
    } else {
      SumsAfter(workers[1..], i - 1, w);
      assert workers[i := w][1..] == workers[1..][i - 1 := w];
    }
  }

  lemma {:induction false} DoneWithinTotal(workers: seq<Worker>)
    requires forall i :: 0 <= i < |workers| ==> 0 <= workers[i].done <= workers[i].region.size
    ensures 0 <= DoneBytes(workers) <= TotalBytes(workers)
  {
    if workers != [] {
      DoneWithinTotal(workers[1..]);
    }
  }

  lemma {:induction false} NothingDone(workers: seq<Worker>)
    requires forall w :: w in workers ==> w.done == 0
    ensures DoneBytes(workers) == 0
  {
    if workers != [] {
      NothingDone(workers[1..]);
    }
  }

  lemma StartInv(s: State)
    requires Start(s)
    ensures Inv(s)
  {
    NothingDone(s.workers);
  }

  lemma CountInv(s: State, s': State, i: nat)
    requires Inv(s) && CountStep(s, s', i)
    ensures Inv(s')
  {
    SumsAfter(s.workers, i, s'.workers[i]);
  }

  lemma QuietInv(s: State, s': State, i: nat, seen: int)
    requires Inv(s) && (StopStep(s, s', i) || LoadStep(s, s', i, seen) || ResumeStep(s, s', i))
    ensures Inv(s') && s'.thresholds == s.thresholds && s'.reported == s.reported && s'.scanned == s.scanned
  {
    SumsAfter(s.workers, i, s'.workers[i]);
  }

  /** Rounding a total up to the next slot boundary passes the threshold that the total reached by at least a slot. */
  lemma NextSlot(threshold: int, total: int)
    requires threshold % GRANULARITY == 0 && threshold <= total
    ensures var next := (total / GRANULARITY + 1) * GRANULARITY;
            total < next && next % GRANULARITY == 0 && next >= threshold + GRANULARITY
  {
  }

  lemma ClaimInv(s: State, s': State, i: nat)
    requires Inv(s) && ClaimStep(s, s', i)
    ensures Inv(s') && NextEmit(s) < NextEmit(s') && s'.reported == s.reported + [s.workers[i].phase.total]
  {
    SumsAfter(s.workers, i, s'.workers[i]);
    DoneWithinTotal(s.workers);
    NextSlot(NextEmit(s), s.workers[i].phase.total);
  }

  lemma StepInv(s: State, s': State)
    requires Inv(s) && Next(s, s')
    ensures Inv(s')
  {
    var i: nat :| StepOf(s, s', i);
    if CountStep(s, s', i) {
      CountInv(s, s', i);
    } else if ClaimStep(s, s', i) {
      ClaimInv(s, s', i);
    } else if seen :| LoadStep(s, s', i, seen) {
      QuietInv(s, s', i, seen);
    } else {
      QuietInv(s, s', i, 0);
    }
  }

  lemma {:induction false} RunInv(run: seq<State>, k: nat)
    requires Run(run) && k < |run|
    ensures Inv(run[k])
  {
    if k == 0 {
      StartInv(run[0]);
    } else {
      RunInv(run, k - 1);
      StepInv(run[k - 1], run[k]);
    }
  }

  // ---------- results ----------

  lemma StepTotal(s: State, s': State)
    requires Inv(s) && Next(s, s')
    ensures TotalBytes(s'.workers) == TotalBytes(s.workers)
  {
    var i: nat :| StepOf(s, s', i);
    SumsAfter(s.workers, i, s'.workers[i]);
  }

  /** The threshold moves only when a report is claimed, and then strictly upwards; the counter never moves back. */
  lemma ThresholdMovesUp(s: State, s': State)
    requires Inv(s) && Next(s, s')
    ensures s.thresholds != [] && s'.thresholds != [] && s.scanned <= s'.scanned
    ensures || (s'.thresholds == s.thresholds && s'.reported == s.reported)
            || (NextEmit(s) < NextEmit(s') && |s'.reported| == |s.reported| + 1 && s.reported < s'.reported)
  {
    var i: nat :| StepOf(s, s', i);
    if ClaimStep(s, s', i) {
      ClaimInv(s, s', i);
    }
  }

  lemma {:induction false} ReportsIncrease(thresholds: seq<int>, reported: seq<int>, i: nat, j: nat)
    requires ClaimsInv(thresholds, reported) && i < j < |reported|
    ensures reported[i] < thresholds[j] <= reported[j]
    decreases j
  {
    if i < j - 1 {
      ReportsIncrease(thresholds, reported, i, j - 1);
    }
    assert reported[j - 1] < thresholds[j];
  }

  /** All workers came to the end of their regions. */
  lemma {:induction false} AllFinished(workers: seq<Worker>)
    requires forall i :: 0 <= i < |workers| ==> workers[i].done == workers[i].region.size
    ensures DoneBytes(workers) == TotalBytes(workers)
  {
    if workers != [] {
      AllFinished(workers[1..]);
    }
  }

  lemma {:induction false} RunTotal(run: seq<State>, k: nat)
    requires Run(run) && k < |run|
    ensures TotalBytes(run[k].workers) == TotalBytes(run[0].workers)
  {
    if k > 0 {
      RunInv(run, k - 1);
      StepTotal(run[k - 1], run[k]);
      RunTotal(run, k - 1);
    }
  }

  /**
   * In every interleaving: the reports strictly increase in the order of the successful compare-exchanges, none exceeds
   * the total, there are at most `total / 16 MiB` of them, and once all workers have read their whole regions the
   * counter is exactly the total.
   */
  lemma ProgressSafe(run: seq<State>, k: nat)
    requires Run(run) && k < |run|
    ensures var s, total := run[k], TotalBytes(run[0].workers);
            && (forall i, j :: 0 <= i < j < |s.reported| ==> s.reported[i] < s.reported[j])
            && (forall i :: 0 <= i < |s.reported| ==> GRANULARITY <= s.reported[i] <= total)
            && |s.reported| * GRANULARITY <= total
            && 0 <= s.scanned <= total
            && ((forall i :: 0 <= i < |s.workers| ==> s.workers[i].phase == Finished) ==> s.scanned == total)
  {
    RunInv(run, k);
    RunTotal(run, k);
    var s := run[k];
    DoneWithinTotal(s.workers);
    forall i, j | 0 <= i < j < |s.reported| ensures s.reported[i] < s.reported[j] {
      ReportsIncrease(s.thresholds, s.reported, i, j);
    }
    if s.reported != [] {
      assert s.thresholds[|s.reported| - 1] >= |s.reported| * GRANULARITY;
    }
    if forall i :: 0 <= i < |s.workers| ==> s.workers[i].phase == Finished {
      AllFinished(s.workers);
    }
  }
}
