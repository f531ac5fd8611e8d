/**
 * The safety evaluator: the need matrix and the repeated-pass Banker's safety check
 * (`calculate_need` and `is_safe_state`, nested in `DeadlockGUI.deadlock_recovery`).
 *
 * The check is given twice: as the functions `Pass`, `Passes` and `SafetyCheck`, which
 * describe the scan step by step, and as the method `IsSafeState`, which runs the same
 * nested loops on local copies and is proved to return exactly what `SafetyCheck` says.
 * The lemmas relate `SafetyCheck` to the textbook meaning of a safe state
 * (`SafeState`: some completion order lets every process obtain its remaining need).
 */
module Safety {
  import opened BankerState

  /** `need[i][j] = maxm[i][j] - alloc[i][j]`, with as many columns as the first row of `maxm`. */
  function CalculateNeed(maxm: Matrix, alloc: Matrix): (need: Matrix)
    requires |alloc| == |maxm|
    requires |maxm| > 0 ==> Rectangular(maxm, |maxm[0]|) && Rectangular(alloc, |maxm[0]|)
    ensures |need| == |maxm|
    ensures forall i :: 0 <= i < |need| ==> |need[i]| == |maxm[i]|
    ensures forall i, j :: 0 <= i < |need| && 0 <= j < |need[i]| ==> need[i][j] == maxm[i][j] - alloc[i][j]
  {
    seq(|maxm|, i requires 0 <= i < |maxm| =>
      seq(|maxm[0]|, j requires 0 <= j < |maxm[0]| => maxm[i][j] - alloc[i][j]))
  }

  /** The need matrix of a snapshot. */
  function NeedOf(s: Snapshot): (need: Matrix)
    requires s.Valid()
    ensures |need| == s.N() && Rectangular(need, s.M())
  {
    CalculateNeed(s.maxm, s.alloc)
  }

  // ----- The scan, as functions -----

  /** The local state of one run of the check: `finish`, `work` and the rows finished so far, in order. */
  datatype Probe = Probe(finish: seq<bool>, work: seq<int>, rows: seq<nat>)

  /** Lengths fit the snapshot and every recorded row is a live row. */
  predicate Shaped(s: Snapshot, p: Probe) {
    && |p.finish| == s.N()
    && |p.work| == s.M()
    && forall k :: 0 <= k < |p.rows| ==> p.rows[k] < s.N()
  }

  /** `finish = [False] * n`, `work = avail[:]`, `safe_seq = []`. */
  function Init(s: Snapshot): (p: Probe)
    ensures Shaped(s, p)
  {
    Probe(seq(s.N(), _ => false), s.avail, [])
  }

  /** Number of `False` entries. */
  function Unfinished(finish: seq<bool>): (count: nat) {
    if finish == [] then 0 else (if finish[0] then 0 else 1) + Unfinished(finish[1..])
  }

  /** `all(finish)`. */
  predicate AllFinished(finish: seq<bool>) {
    forall i :: 0 <= i < |finish| ==> finish[i]
  }

  lemma {:induction false} UnfinishedAllFalse(n: nat)
    ensures Unfinished(seq(n, _ => false)) == n
  {
    if n > 0 {
      assert seq(n, _ => false)[1..] == seq(n - 1, _ => false);
      UnfinishedAllFalse(n - 1);
    }
  }

  lemma {:induction false} UnfinishedMark(finish: seq<bool>, i: nat)
    requires i < |finish| && !finish[i]
    ensures Unfinished(finish[i := true]) == Unfinished(finish) - 1
  {
    if i > 0 {
      assert finish[i := true][1..] == finish[1..][i - 1 := true];
      UnfinishedMark(finish[1..], i - 1);
    }
  }

  /** No `False` entry is left exactly when `all(finish)` holds. */
  lemma {:induction false} UnfinishedZero(finish: seq<bool>)
    ensures Unfinished(finish) == 0 <==> AllFinished(finish)
  {
    if finish != [] {
      UnfinishedZero(finish[1..]);
      assert forall i :: 1 <= i < |finish| ==> finish[i] == finish[1..][i - 1];
    }
  }

  /** The test of line 101: not finished yet, and its need fits `work`. */
  predicate Eligible(s: Snapshot, i: nat, p: Probe)
    requires s.Valid() && i < s.N() && Shaped(s, p)
  {
    !p.finish[i] && Fits(NeedOf(s)[i], p.work)
  }

  /** Lines 102-105: release row `i` into `work`, mark it finished, append it to the order. */
  function Finish(s: Snapshot, i: nat, p: Probe): (r: Probe)
    requires s.Valid() && i < s.N() && Shaped(s, p)
    requires !p.finish[i]
    ensures Shaped(s, r)
    ensures Unfinished(r.finish) == Unfinished(p.finish) - 1
  {
    UnfinishedMark(p.finish, i);
    Probe(p.finish[i := true], VecAdd(p.work, s.alloc[i]), p.rows + [i])
  }

  /**
   * The `for` loop of lines 100-106 from index `i` on; `progress` is the flag the source calls `allocated`.
   * Returns the state after the pass and the final flag.
   */
  function Pass(s: Snapshot, i: nat, p: Probe, progress: bool): (r: (Probe, bool))
    requires s.Valid() && i <= s.N() && Shaped(s, p)
    ensures Shaped(s, r.0)
    ensures Unfinished(r.0.finish) <= Unfinished(p.finish)
    ensures r.1 == (progress || Unfinished(r.0.finish) < Unfinished(p.finish))
    ensures !r.1 ==> r.0 == p
    decreases s.N() - i
  {
    if i == s.N() then (p, progress)
    else if Eligible(s, i, p) then Pass(s, i + 1, Finish(s, i, p), true)
    else Pass(s, i + 1, p, progress)
  }

  /** The `while True` loop of lines 98-108: passes repeat until one makes no progress. */
  function Passes(s: Snapshot, p: Probe): (r: Probe)
    requires s.Valid() && Shaped(s, p)
    ensures Shaped(s, r)
    decreases Unfinished(p.finish)
  {
    var after := Pass(s, 0, p, false);
    if !after.1 then after.0 else Passes(s, after.0)
  }

  /** The final state of the scan started from `Init`. */
  function FinalProbe(s: Snapshot): (p: Probe)
    requires s.Valid()
    ensures Shaped(s, p)
  {
    Passes(s, Init(s))
  }

  /** The process identifiers of the given rows, in the same order. */
  function Ids(processes: seq<int>, rows: seq<nat>): (r: seq<int>)
    requires forall k :: 0 <= k < |rows| ==> rows[k] < |processes|
    ensures |r| == |rows|
    ensures forall k :: 0 <= k < |rows| ==> r[k] == processes[rows[k]]
  {
    seq(|rows|, k requires 0 <= k < |rows| => processes[rows[k]])
  }

  /** The pair `(all(finish), safe_seq)` that `is_safe_state` returns. */
  datatype Verdict = Verdict(safe: bool, order: seq<int>)

  function SafetyCheck(s: Snapshot): (v: Verdict)
    requires s.Valid()
  {
    var p := FinalProbe(s);
    Verdict(AllFinished(p.finish), Ids(s.processes, p.rows))
  }

  // ----- The meaning of a safe state -----

  /**
   * `rows` lists distinct live rows, and each of them, at its turn, has its need covered by
   * the free units plus everything the rows before it have given back.
   */
  ghost predicate IsSafePrefix(s: Snapshot, rows: seq<nat>)
    requires s.Valid()
  {
    && Distinct(rows)
    && (forall k :: 0 <= k < |rows| ==> rows[k] < s.N())
    && forall k :: 0 <= k < |rows| ==> Fits(NeedOf(s)[rows[k]], Released(s.avail, s.alloc, rows[..k]))
  }

  /** A safe completion order of all live processes. */
  ghost predicate IsSafeSchedule(s: Snapshot, rows: seq<nat>)
    requires s.Valid()
  {
    IsSafePrefix(s, rows) && forall i :: 0 <= i < s.N() ==> i in rows
  }

  /** Some order lets every process obtain its remaining need and finish. */
  ghost predicate SafeState(s: Snapshot)
    requires s.Valid()
  {
    exists rows :: IsSafeSchedule(s, rows)
  }

  // ----- Invariants of the scan -----

  /** What stays true of the scan's local state from start to end. */
  ghost predicate Consistent(s: Snapshot, p: Probe)
    requires s.Valid()
  {
    && Shaped(s, p)
    && (forall i :: 0 <= i < s.N() ==> (p.finish[i] <==> i in p.rows))
    && |p.rows| + Unfinished(p.finish) == s.N()
    && p.work == Released(s.avail, s.alloc, p.rows)
    && IsSafePrefix(s, p.rows)
  }

  lemma InitConsistent(s: Snapshot)
    requires s.Valid()
    ensures Consistent(s, Init(s))
  {
    UnfinishedAllFalse(s.N());
    assert Released(s.avail, s.alloc, []) == s.avail;
  }

  lemma FinishConsistent(s: Snapshot, i: nat, p: Probe)
    requires s.Valid() && i < s.N() && Consistent(s, p) && Eligible(s, i, p)
    ensures Consistent(s, Finish(s, i, p))
  {
    var r := Finish(s, i, p);
    ReleasedSnoc(s.avail, s.alloc, p.rows, i);
    assert r.rows[..|p.rows|] == p.rows;
    forall k | 0 <= k < |p.rows| ensures r.rows[..k] == p.rows[..k] {
    }
  }

  lemma {:induction false} PassConsistent(s: Snapshot, i: nat, p: Probe, progress: bool)
    requires s.Valid() && i <= s.N() && Consistent(s, p)
    ensures Consistent(s, Pass(s, i, p, progress).0)
    decreases s.N() - i
  {
    if i < s.N() {
      if Eligible(s, i, p) {
        FinishConsistent(s, i, p);
        PassConsistent(s, i + 1, Finish(s, i, p), true);
      } else {
        PassConsistent(s, i + 1, p, progress);
      }
    }
  }

  lemma {:induction false} PassesConsistent(s: Snapshot, p: Probe)
    requires s.Valid() && Consistent(s, p)
    ensures Consistent(s, Passes(s, p))
    decreases Unfinished(p.finish)
  {
    PassConsistent(s, 0, p, false);
    var after := Pass(s, 0, p, false);
    if after.1 {
      PassesConsistent(s, after.0);
    }
  }

  /** A pass that makes no progress found no eligible process from `i` on. */
  lemma {:induction false} PassStuck(s: Snapshot, i: nat, p: Probe)
    requires s.Valid() && i <= s.N() && Shaped(s, p)
    requires !Pass(s, i, p, false).1
    ensures forall k :: i <= k < s.N() ==> !Eligible(s, k, p)
    decreases s.N() - i
  {
    if i < s.N() {
      PassStuck(s, i + 1, p);
    }
  }

  /** The passes stop at a fixed point: no unfinished process fits the final `work`. */
  lemma {:induction false} PassesExhausted(s: Snapshot, p: Probe)
    requires s.Valid() && Shaped(s, p)
    ensures forall i :: 0 <= i < s.N() ==> !Eligible(s, i, Passes(s, p))
    decreases Unfinished(p.finish)
  {
    var after := Pass(s, 0, p, false);
    if after.1 {
      PassesExhausted(s, after.0);
    } else {
      PassStuck(s, 0, p);
    }
  }

  /** With non-negative allocations, `work` never decreases during a pass. */
  lemma {:induction false} WorkNeverDecreases(s: Snapshot, i: nat, p: Probe, progress: bool)
    requires s.Valid() && i <= s.N() && Shaped(s, p) && NonNegative(s.alloc)
    ensures forall j :: 0 <= j < s.M() ==> p.work[j] <= Pass(s, i, p, progress).0.work[j]
    decreases s.N() - i
  {
    if i < s.N() {
      if Eligible(s, i, p) {
        WorkNeverDecreases(s, i + 1, Finish(s, i, p), true);
      } else {
        WorkNeverDecreases(s, i + 1, p, progress);
      }
    }
  }

  /**
   * A pass only finishes unfinished processes: a finished process stays finished, and the
   * order only grows at its end, by the rows newly finished.
   */
  lemma {:induction false} PassKeepsFinished(s: Snapshot, i: nat, p: Probe, progress: bool)
    requires s.Valid() && i <= s.N() && Shaped(s, p)
    ensures forall k :: 0 <= k < |p.finish| && p.finish[k] ==> Pass(s, i, p, progress).0.finish[k]
    ensures |p.rows| <= |Pass(s, i, p, progress).0.rows|
    ensures Pass(s, i, p, progress).0.rows[..|p.rows|] == p.rows
    ensures forall k :: |p.rows| <= k < |Pass(s, i, p, progress).0.rows| ==>
      !p.finish[Pass(s, i, p, progress).0.rows[k]]
    decreases s.N() - i
  {
    if i < s.N() {
      if Eligible(s, i, p) {
        var f := Finish(s, i, p);
        PassKeepsFinished(s, i + 1, f, true);
        var r := Pass(s, i + 1, f, true).0;
        assert r.rows[..|p.rows|] == r.rows[..|f.rows|][..|p.rows|];
      } else {
        PassKeepsFinished(s, i + 1, p, progress);
      }
    }
  }

  /** Across the whole scan a finished process stays finished and the order only grows at its end. */
  lemma {:induction false} PassesKeepsFinished(s: Snapshot, p: Probe)
    requires s.Valid() && Shaped(s, p)
    ensures forall k :: 0 <= k < |p.finish| && p.finish[k] ==> Passes(s, p).finish[k]
    ensures |p.rows| <= |Passes(s, p).rows| && Passes(s, p).rows[..|p.rows|] == p.rows
    decreases Unfinished(p.finish)
  {
    var after := Pass(s, 0, p, false);
    PassKeepsFinished(s, 0, p, false);
    if after.1 {
      PassesKeepsFinished(s, after.0);
      var r := Passes(s, after.0);
      assert r.rows[..|p.rows|] == r.rows[..|after.0.rows|][..|p.rows|];
    }
  }

  /** With non-negative allocations, `work` never decreases during the whole scan. */
  lemma {:induction false} WorkNeverDecreasesInScan(s: Snapshot, p: Probe)
    requires s.Valid() && Shaped(s, p) && NonNegative(s.alloc)
    ensures forall j :: 0 <= j < s.M() ==> p.work[j] <= Passes(s, p).work[j]
    decreases Unfinished(p.finish)
  {
    var after := Pass(s, 0, p, false);
    WorkNeverDecreases(s, 0, p, false);
    if after.1 {
      WorkNeverDecreasesInScan(s, after.0);
    }
  }

  // ----- What the verdict means -----

  /** The rows the check finished, in the order it finished them. */
  ghost function Schedule(s: Snapshot): (rows: seq<nat>)
    requires s.Valid()
    ensures forall k :: 0 <= k < |rows| ==> rows[k] < s.N()
    ensures SafetyCheck(s).order == Ids(s.processes, rows)
  {
    FinalProbe(s).rows
  }

  /**
   * The returned order is a valid partial schedule; the verdict is safe exactly when it
   * covers every live process, and then it lists each of them once.
   */
  lemma {:induction false} ScheduleIsSafePrefix(s: Snapshot)
    requires s.Valid()
    ensures IsSafePrefix(s, Schedule(s))
    ensures SafetyCheck(s).safe <==> |Schedule(s)| == s.N()
    ensures SafetyCheck(s).safe <==> IsSafeSchedule(s, Schedule(s))
  {
    InitConsistent(s);
    PassesConsistent(s, Init(s));
    UnfinishedZero(FinalProbe(s).finish);
  }

  /** No process left out of the order can have its need met by the final `work`. */
  lemma ScheduleMaximal(s: Snapshot)
    requires s.Valid()
    ensures forall i :: 0 <= i < s.N() && i !in Schedule(s) ==>
      !Fits(NeedOf(s)[i], Released(s.avail, s.alloc, Schedule(s)))
  {
    InitConsistent(s);
    PassesConsistent(s, Init(s));
    PassesExhausted(s, Init(s));
    var p := FinalProbe(s);
    forall i | 0 <= i < s.N() && i !in Schedule(s)
      ensures !Fits(NeedOf(s)[i], Released(s.avail, s.alloc, Schedule(s)))
    {
      assert !p.finish[i] && !Eligible(s, i, p);
    }
  }

  /** An empty process list is safe, with an empty order. */
  lemma EmptyIsSafe(s: Snapshot)
    requires s.Valid() && s.N() == 0
    ensures SafetyCheck(s) == Verdict(true, [])
  {
    assert Pass(s, 0, Init(s), false) == (Init(s), false);
  }

  /** Sound: a safe verdict comes with a safe schedule, whose identifiers are the order returned. */
  lemma SafeVerdictIsSafeState(s: Snapshot)
    requires s.Valid() && SafetyCheck(s).safe
    ensures SafeState(s)
    ensures IsSafeSchedule(s, Schedule(s))
  {
    ScheduleIsSafePrefix(s);
  }

  /** Each finished process is listed exactly once: the order is as long as the number of finished entries. */
  lemma OrderCountsFinished(s: Snapshot)
    requires s.Valid()
    ensures Distinct(Schedule(s))
    ensures |SafetyCheck(s).order| == s.N() - Unfinished(FinalProbe(s).finish)
    ensures forall i :: 0 <= i < s.N() ==> (FinalProbe(s).finish[i] <==> i in Schedule(s))
  {
    InitConsistent(s);
    PassesConsistent(s, Init(s));
  }

  /** The order is drawn from the live processes, and has no repeats when they have none. */
  lemma OrderDrawnFromProcesses(s: Snapshot)
    requires s.Valid()
    ensures forall k :: 0 <= k < |SafetyCheck(s).order| ==> SafetyCheck(s).order[k] in s.processes
    ensures Distinct(s.processes) ==> Distinct(SafetyCheck(s).order)
  {
    ScheduleIsSafePrefix(s);
  }

  lemma IdsConcat(processes: seq<int>, xs: seq<nat>, ys: seq<nat>)
    requires forall k :: 0 <= k < |xs| ==> xs[k] < |processes|
    requires forall k :: 0 <= k < |ys| ==> ys[k] < |processes|
    ensures Ids(processes, xs + ys) == Ids(processes, xs) + Ids(processes, ys)
  {
    var l, r := Ids(processes, xs + ys), Ids(processes, xs) + Ids(processes, ys);
    forall k | 0 <= k < |l| ensures l[k] == r[k] {
      if k >= |xs| {
        assert (xs + ys)[k] == ys[k - |xs|];
      }
    }
  }

  /** `rows` lists each of `0 .. n-1` exactly once. */
  predicate IsOrdering(rows: seq<nat>, n: nat) {
    && |rows| == n
    && Distinct(rows)
    && (forall k :: 0 <= k < |rows| ==> rows[k] < n)
    && forall i :: 0 <= i < n ==> i in rows
  }

  /** Taking `n-1` out of an ordering of `0 .. n-1` leaves an ordering of `0 .. n-2`. */
  lemma OrderingWithoutLast(rows: seq<nat>, n: nat, q: nat)
    requires n > 0 && IsOrdering(rows, n) && q < |rows| && rows[q] == n - 1
    ensures IsOrdering(rows[..q] + rows[q + 1..], n - 1)
  {
    var rest := rows[..q] + rows[q + 1..];
    RemoveKeepsOthers(rows, q);
    forall k | 0 <= k < |rest| ensures rest[k] < n - 1 {
      var k' := if k < q then k else k + 1;
      assert rest[k] == rows[k'];
    }
    forall i | 0 <= i < n - 1 ensures i in rest {
      assert i in rows;
      var r :| 0 <= r < |rows| && rows[r] == i;
    }
  }

  /** The identifiers of an ordering of all rows are a permutation of the identifiers. */
  lemma {:induction false} IdsOfOrdering(processes: seq<int>, rows: seq<nat>)
    requires IsOrdering(rows, |processes|)
    ensures multiset(Ids(processes, rows)) == multiset(processes)
    decreases |processes|
  {
    if |processes| == 0 {
      assert rows == [];
    } else {
      var last := |processes| - 1;
      var front := processes[..last];
      var q: nat :| q < |rows| && rows[q] == last by {
        assert last in rows;
      }
      var rest := rows[..q] + rows[q + 1..];
      assert IsOrdering(rest, last) by {
        OrderingWithoutLast(rows, |processes|, q);
      }
      IdsOfOrdering(front, rest);
      IdsDropLastMultiset(processes, rows, q);
      assert processes == front + [processes[last]];
    }
  }

  /** Row `q` is the last process; the others keep their identifiers in the shorter list. */
  lemma IdsDropLast(processes: seq<int>, rows: seq<nat>, q: nat)
    requires |processes| > 0 && IsOrdering(rows, |processes|)
    requires q < |rows| && rows[q] == |processes| - 1
    requires IsOrdering(rows[..q] + rows[q + 1..], |processes| - 1)
    ensures Ids(processes, rows) == Ids(processes[..|processes| - 1], rows[..q]) + [processes[rows[q]]]
                                    + Ids(processes[..|processes| - 1], rows[q + 1..])
    ensures Ids(processes[..|processes| - 1], rows[..q] + rows[q + 1..])
         == Ids(processes[..|processes| - 1], rows[..q]) + Ids(processes[..|processes| - 1], rows[q + 1..])
  {
    var front := processes[..|processes| - 1];
    var rest := rows[..q] + rows[q + 1..];
    forall k | 0 <= k < |rows| && k != q ensures rows[k] < |front| {
      var k' := if k < q then k else k - 1;
      assert rest[k'] == rows[k];
    }
    IdsConcat(front, rows[..q], rows[q + 1..]);
  }

  /** Removing the last process from an ordering removes exactly its identifier from the multiset of identifiers. */
  lemma IdsDropLastMultiset(processes: seq<int>, rows: seq<nat>, q: nat)
    requires |processes| > 0 && IsOrdering(rows, |processes|)
    requires q < |rows| && rows[q] == |processes| - 1
    requires IsOrdering(rows[..q] + rows[q + 1..], |processes| - 1)
    ensures multiset(Ids(processes, rows))
         == multiset(Ids(processes[..|processes| - 1], rows[..q] + rows[q + 1..])) + multiset{processes[|processes| - 1]}
  {
    var front := processes[..|processes| - 1];
    var before, after := Ids(front, rows[..q]), Ids(front, rows[q + 1..]);
    IdsDropLast(processes, rows, q);
    assert multiset(Ids(processes, rows)) == multiset(before) + multiset{processes[rows[q]]} + multiset(after);
    assert multiset(Ids(front, rows[..q] + rows[q + 1..])) == multiset(before) + multiset(after);
  }

  /** A safe verdict's order is a permutation of the live processes. */
  lemma SafeOrderIsPermutation(s: Snapshot)
    requires s.Valid() && SafetyCheck(s).safe
    ensures multiset(SafetyCheck(s).order) == multiset(s.processes)
  {
    ScheduleIsSafePrefix(s);
    IdsOfOrdering(s.processes, Schedule(s));
  }

  /**
   * Every process the given safe schedule lists before position `k` is finished by the
   * check: what those processes give back is at most the final `work`, so the next one of
   * them fits it as well, and the check would not have stopped without it.
   */
  lemma {:induction false} ScheduleFinishedUpTo(s: Snapshot, sched: seq<nat>, k: nat)
    requires s.Valid() && NonNegative(s.alloc)
    requires IsSafePrefix(s, sched) && k <= |sched|
    ensures forall q :: 0 <= q < k ==> sched[q] in Schedule(s)
  {
    if k > 0 {
      ScheduleFinishedUpTo(s, sched, k - 1);
      var p := FinalProbe(s);
      var x := sched[k - 1];
      InitConsistent(s);
      PassesConsistent(s, Init(s));
      PassesExhausted(s, Init(s));
      var before := sched[..k - 1];
      var freed := Released(s.avail, s.alloc, before);
      forall j | 0 <= j < s.M() ensures freed[j] <= p.work[j] {
        RowsSumSubset(s.alloc, before, p.rows, j);
      }
      assert Fits(NeedOf(s)[x], freed);
      assert Fits(NeedOf(s)[x], p.work);
      assert !Eligible(s, x, p);
    }
  }

  /**
   * Complete: with non-negative allocations, if some safe schedule exists the check finds
   * the state safe, however it orders its passes.
   */
  lemma SafeStateIsSafeVerdict(s: Snapshot, sched: seq<nat>)
    requires s.Valid() && NonNegative(s.alloc)
    requires IsSafeSchedule(s, sched)
    ensures SafetyCheck(s).safe
  {
    ScheduleFinishedUpTo(s, sched, |sched|);
    var p := FinalProbe(s);
    InitConsistent(s);
    PassesConsistent(s, Init(s));
    forall i | 0 <= i < s.N() ensures p.finish[i] {
      assert i in sched;
      var q :| 0 <= q < |sched| && sched[q] == i;
    }
  }

  /** With non-negative allocations the check decides exactly the safe states. */
  lemma SafetyCheckCorrect(s: Snapshot)
    requires s.Valid() && NonNegative(s.alloc)
    ensures SafetyCheck(s).safe <==> SafeState(s)
  {
    if SafetyCheck(s).safe {
      SafeVerdictIsSafeState(s);
    }
    if SafeState(s) {
      var sched :| IsSafeSchedule(s, sched);
      SafeStateIsSafeVerdict(s, sched);
    }
  }

  /**
   * With non-negative allocations, if every process's need fits the free units as they
   * are, the state is safe.
   */
  lemma AllNeedsFitIsSafe(s: Snapshot)
    requires s.Valid() && NonNegative(s.alloc)
    requires forall i :: 0 <= i < s.N() ==> Fits(NeedOf(s)[i], s.avail)
    ensures SafetyCheck(s).safe
  {
    var sched: seq<nat> := seq(s.N(), k => k);
    forall k | 0 <= k < s.N()
      ensures Fits(NeedOf(s)[sched[k]], Released(s.avail, s.alloc, sched[..k]))
    {
      forall j | 0 <= j < s.M() ensures s.avail[j] <= Released(s.avail, s.alloc, sched[..k])[j] {
        RowsSumNonNegative(s.alloc, sched[..k], j);
      }
    }
    forall i | 0 <= i < s.N() ensures i in sched {
      assert sched[i] == i;
    }
    SafeStateIsSafeVerdict(s, sched);
  }

  // ----- The check, as the source runs it -----

  /** Lines 102-103: `work[j] += alloc[i][j]` for every resource j, one column at a time. */
  method ReleaseRow(work: seq<int>, row: seq<int>) returns (r: seq<int>)
    requires |row| == |work|
    ensures r == VecAdd(work, row)
  {
    r := work;
    for j := 0 to |r|
      invariant |r| == |work|
      invariant forall k :: 0 <= k < j ==> r[k] == work[k] + row[k]
      invariant forall k :: j <= k < |r| ==> r[k] == work[k]
    {
      r := r[j := r[j] + row[j]];
    }
  }

  /**
   * `is_safe_state`: need matrix, then passes over the unfinished processes in index order,
   * each finished process's allocation added to `work` at once, until a pass makes no
   * progress. `passes` counts the passes of the outer loop.
   */
  method IsSafeState(s: Snapshot) returns (safe: bool, safeSeq: seq<int>, ghost passes: nat)
    requires s.Valid()
    ensures safe == SafetyCheck(s).safe && safeSeq == SafetyCheck(s).order
    ensures passes <= s.N() + 1
  {
    var need := CalculateNeed(s.maxm, s.alloc);
    var finish := seq(|s.processes|, _ => false);
    var work := s.avail;
    safeSeq := [];
    ghost var rows: seq<nat> := [];
    passes := 0;
    UnfinishedAllFalse(s.N());
    while true
      invariant Shaped(s, Probe(finish, work, rows))
      invariant Passes(s, Probe(finish, work, rows)) == FinalProbe(s)
      invariant safeSeq == Ids(s.processes, rows)
      invariant passes + Unfinished(finish) <= s.N()
      decreases Unfinished(finish)
    {
      var progress := false;
      ghost var start := Probe(finish, work, rows);
      for i := 0 to |s.processes|
        invariant Shaped(s, Probe(finish, work, rows))
        invariant Pass(s, i, Probe(finish, work, rows), progress) == Pass(s, 0, start, false)
        invariant safeSeq == Ids(s.processes, rows)
      {
        ghost var cur := Probe(finish, work, rows);
        if !finish[i] && Fits(need[i], work) {
          assert Eligible(s, i, cur);
          work := ReleaseRow(work, s.alloc[i]);
          finish := finish[i := true];
          safeSeq := safeSeq + [s.processes[i]];
          rows := rows + [i];
          progress := true;
          assert Probe(finish, work, rows) == Finish(s, i, cur);
          assert safeSeq == Ids(s.processes, rows) by {
            assert Ids(s.processes, rows) == Ids(s.processes, cur.rows) + [s.processes[i]];
          }
        } else {
          assert !Eligible(s, i, cur);
        }
      }
      assert Pass(s, 0, start, false) == (Probe(finish, work, rows), progress);
      passes := passes + 1;
      if !progress {
        break;
      }
    }
    safe := AllFinished(finish);
  }
}
