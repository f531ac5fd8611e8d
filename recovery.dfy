/**
 * The recovery planner: the `while not safe` loop of `DeadlockGUI.deadlock_recovery`,
 * which terminates the last surviving process, gives its allocation back to the free
 * pool, drops its rows, and re-runs the safety check until the state is safe.
 */
module Recovery {
  import opened BankerState
  import opened Safety

  /** The snapshot the simulator starts from: processes `0 .. n-1` with the entered data. */
  function Initial(alloc: Matrix, maxm: Matrix, avail: seq<int>): (s: Snapshot) {
    Snapshot(Range(|alloc|), alloc, maxm, avail)
  }

  /**
   * One recovery step (lines 119-125): the last process is removed from `processes`,
   * `alloc` and `maxm`, and its allocation row is added to `avail`.
   */
  function Terminate(s: Snapshot): (r: Snapshot)
    requires s.Valid() && s.N() > 0
    ensures r.Valid() && r.N() == s.N() - 1 && r.M() == s.M()
    ensures r.processes == s.processes[..s.N() - 1]
    ensures r.alloc == s.alloc[..s.N() - 1] && r.maxm == s.maxm[..s.N() - 1]
    ensures forall j :: 0 <= j < s.M() ==> r.avail[j] == s.avail[j] + s.alloc[s.N() - 1][j]
    ensures forall j :: 0 <= j < s.M() ==> r.avail[j] + Held(r.alloc, j) == s.avail[j] + Held(s.alloc, j)
  {
    var last := s.N() - 1;
    Snapshot(s.processes[..last], s.alloc[..last], s.maxm[..last], VecAdd(s.avail, s.alloc[last]))
  }

  /** The snapshot after `t` recovery steps. */
  function AfterKills(s: Snapshot, t: nat): (r: Snapshot)
    requires s.Valid() && t <= s.N()
    ensures r.Valid() && r.N() == s.N() - t && r.M() == s.M()
    decreases t
  {
    if t == 0 then s else Terminate(AfterKills(s, t - 1))
  }

  /** The survivors of `t` steps are the first `n - t` processes, with their rows unchanged and in order. */
  lemma {:induction false} AfterKillsSurvivors(s: Snapshot, t: nat)
    requires s.Valid() && t <= s.N()
    ensures AfterKills(s, t).processes == s.processes[..s.N() - t]
    ensures AfterKills(s, t).alloc == s.alloc[..s.N() - t]
    ensures AfterKills(s, t).maxm == s.maxm[..s.N() - t]
  {
    if t > 0 {
      AfterKillsSurvivors(s, t - 1);
    }
  }

  /**
   * Resources are conserved: after any number of steps, free units plus units held by the
   * survivors equal the free units plus the units held by everyone at the start.
   */
  lemma {:induction false} AfterKillsConserves(s: Snapshot, t: nat, j: nat)
    requires s.Valid() && t <= s.N() && j < s.M()
    ensures AfterKills(s, t).avail[j] + Held(AfterKills(s, t).alloc, j) == s.avail[j] + Held(s.alloc, j)
  {
    if t > 0 {
      AfterKillsConserves(s, t - 1, j);
    }
  }

  /** Terminating everyone reaches the empty snapshot, which is safe: the loop cannot run past `n` steps. */
  lemma AllKilledIsSafe(s: Snapshot)
    requires s.Valid()
    ensures SafetyCheck(AfterKills(s, s.N())) == Verdict(true, [])
  {
    EmptyIsSafe(AfterKills(s, s.N()));
  }

  /** An unsafe snapshot still has a process to terminate. */
  lemma UnsafeHasProcesses(s: Snapshot)
    requires s.Valid() && !SafetyCheck(s).safe
    ensures s.N() > 0
  {
    if s.N() == 0 {
      EmptyIsSafe(s);
      assert false;
    }
  }

  /** The loop of lines 118-126 as a function: how many processes it terminates, starting from `s`. */
  ghost function Kills(s: Snapshot): (k: nat)
    requires s.Valid()
    ensures k <= s.N()
    decreases s.N()
  {
    if SafetyCheck(s).safe then 0
    else
      UnsafeHasProcesses(s);
      1 + Kills(Terminate(s))
  }

  /** Taking `t - 1` steps after the first one is the same as taking `t` steps. */
  lemma {:induction false} AfterKillsShift(s: Snapshot, t: nat)
    requires s.Valid() && 0 < t <= s.N()
    ensures AfterKills(Terminate(s), t - 1) == AfterKills(s, t)
  {
    if t > 1 {
      AfterKillsShift(s, t - 1);
    }
  }

  /** After `t` of its steps, the loop has exactly `Kills(s) - t` terminations left to do. */
  lemma {:induction false} KillsAfter(s: Snapshot, t: nat)
    requires s.Valid() && t <= Kills(s)
    ensures Kills(AfterKills(s, t)) == Kills(s) - t
  {
    var u := 0;
    while u < t
      invariant u <= t
      invariant u + Kills(AfterKills(s, u)) == Kills(s)
    {
      KillsPositive(AfterKills(s, u));
      u := u + 1;
    }
  }

  /** The loop ends at a safe snapshot. */
  lemma KillsReachesSafe(s: Snapshot)
    requires s.Valid()
    ensures SafetyCheck(AfterKills(s, Kills(s))).safe
  {
    KillsAfter(s, Kills(s));
    KillsZero(AfterKills(s, Kills(s)));
  }

  /** The loop ends at the first safe snapshot: every snapshot before it is unsafe. */
  lemma KillsIsFirst(s: Snapshot, t: nat)
    requires s.Valid() && t < Kills(s)
    ensures !SafetyCheck(AfterKills(s, t)).safe
  {
    KillsAfter(s, t);
    KillsPositive(AfterKills(s, t));
  }

  /** The loop terminates nothing from a snapshot exactly when the check reports it safe. */
  lemma KillsZero(s: Snapshot)
    requires s.Valid()
    ensures Kills(s) == 0 <==> SafetyCheck(s).safe
  {
    if !SafetyCheck(s).safe {
      UnsafeHasProcesses(s);
    }
  }

  /** A snapshot from which the loop terminates something is unsafe, and the loop goes on from `Terminate(s)`. */
  lemma KillsPositive(s: Snapshot)
    requires s.Valid() && Kills(s) > 0
    ensures !SafetyCheck(s).safe && s.N() > 0
    ensures Kills(Terminate(s)) == Kills(s) - 1
  {
    UnsafeHasProcesses(s);
  }

  /**
   * The snapshot the loop stops at is safe in the textbook sense: its survivors can all
   * finish in the order the check returns.
   */
  lemma RecoveredIsSafeState(s: Snapshot)
    requires s.Valid()
    ensures SafeState(AfterKills(s, Kills(s)))
    ensures IsSafeSchedule(AfterKills(s, Kills(s)), Schedule(AfterKills(s, Kills(s))))
  {
    KillsReachesSafe(s);
    SafeVerdictIsSafeState(AfterKills(s, Kills(s)));
  }

  /**
   * For the snapshot the program builds, the final safe order lists each surviving
   * identifier `0 .. n-1-Kills` exactly once.
   */
  lemma RecoveredOrderIsPermutation(alloc: Matrix, maxm: Matrix, avail: seq<int>)
    requires Initial(alloc, maxm, avail).Valid()
    ensures multiset(SafetyCheck(AfterKills(Initial(alloc, maxm, avail), Kills(Initial(alloc, maxm, avail)))).order)
         == multiset(Range(|alloc|)[..|alloc| - Kills(Initial(alloc, maxm, avail))])
    ensures Distinct(SafetyCheck(AfterKills(Initial(alloc, maxm, avail), Kills(Initial(alloc, maxm, avail)))).order)
  {
    var s0 := Initial(alloc, maxm, avail);
    var r := AfterKills(s0, Kills(s0));
    KillsReachesSafe(s0);
    AfterKillsSurvivors(s0, Kills(s0));
    SafeOrderIsPermutation(r);
    assert Distinct(r.processes);
    OrderDrawnFromProcesses(r);
  }

  /** The identifiers `n-1, n-2, ...` of the first `k` processes the loop terminates, last first. */
  function Countdown(n: int, k: nat): (r: seq<int>)
    ensures |r| == k
    ensures forall t :: 0 <= t < k ==> r[t] == n - 1 - t
  {
    if k == 0 then [] else Countdown(n, k - 1) + [n - k]
  }

  /**
   * `deadlock_recovery` from line 86 on: check the entered state; while it is unsafe,
   * terminate the last surviving process and check again. Returns whether the entered
   * state was safe, the final safe order, and the terminated identifiers in order.
   */
  method DeadlockRecovery(alloc: Matrix, maxm: Matrix, avail: seq<int>)
      returns (initiallySafe: bool, safeSeq: seq<int>, terminated: seq<int>)
    requires Initial(alloc, maxm, avail).Valid()
    ensures initiallySafe == SafetyCheck(Initial(alloc, maxm, avail)).safe
    ensures initiallySafe <==> terminated == []
    ensures |terminated| == Kills(Initial(alloc, maxm, avail))
    ensures forall t :: 0 <= t < |terminated| ==> terminated[t] == |alloc| - 1 - t
    ensures forall a, b :: 0 <= a < b < |terminated| ==> terminated[a] > terminated[b]
    ensures SafetyCheck(AfterKills(Initial(alloc, maxm, avail), |terminated|)) == Verdict(true, safeSeq)
  {
    ghost var s0 := Initial(alloc, maxm, avail);
    var processes := Range(|alloc|);
    var allocNow, maxmNow, availNow := alloc, maxm, avail;
    var safe, order;
    ghost var passes: nat;
    safe, order, passes := IsSafeState(Snapshot(processes, allocNow, maxmNow, availNow));
    initiallySafe := safe;
    terminated := [];
    while !safe
      invariant |terminated| <= |alloc|
      invariant Snapshot(processes, allocNow, maxmNow, availNow) == AfterKills(s0, |terminated|)
      invariant |terminated| + Kills(AfterKills(s0, |terminated|)) == Kills(s0)
      invariant safe == SafetyCheck(AfterKills(s0, |terminated|)).safe
      invariant order == SafetyCheck(AfterKills(s0, |terminated|)).order
      invariant terminated == [] ==> safe == initiallySafe
      invariant initiallySafe ==> terminated == []
      invariant terminated == Countdown(|alloc|, |terminated|)
      decreases |processes|
    {
      ghost var cur := Snapshot(processes, allocNow, maxmNow, availNow);
      UnsafeHasProcesses(cur);
      var killP := |processes| - 1;
      assert processes[killP] == |alloc| - 1 - |terminated| by {
        AfterKillsSurvivors(s0, |terminated|);
      }
      terminated := terminated + [processes[killP]];
      availNow := ReleaseRow(availNow, allocNow[killP]);
      processes := processes[..killP];
      allocNow := allocNow[..killP];
      maxmNow := maxmNow[..killP];
      assert Snapshot(processes, allocNow, maxmNow, availNow) == Terminate(cur);
      safe, order, passes := IsSafeState(Snapshot(processes, allocNow, maxmNow, availNow));
    }
    safeSeq := order;
  }
}
