# Banker's safety check and deadlock recovery

This project models the computational core of `DeadlockGUI.deadlock_recovery` in
`deadlock_gui.py`: a snapshot of a resource-allocation system with `n` processes and
`m` resource types. The snapshot is given as an allocation matrix, a maximum-claim
matrix and an available vector.

- `calculate_need` derives the remaining need of every process.
- `is_safe_state` is the repeated-pass form of the Banker's safety check. Each pass
  scans the unfinished processes in index order. A process whose need fits the
  working vector is finished at once, and its allocation is added to `work` before
  the next index is tested. Passes repeat until one makes no progress.
- The recovery loop runs while the state is unsafe. It terminates the last surviving
  process, gives its allocation row back to the available vector, drops its rows, and
  checks again.

Modules:

- `BankerState` (`banker_state.dfy`): matrices, the snapshot, vector addition, and
  sums of allocation rows.
- `Safety` (`safety.dfy`): the need matrix and the safety check. The check is written
  twice:
  - as specification functions (`Pass`, `Passes`, `SafetyCheck`), which follow the
    scan step by step;
  - as the imperative method `IsSafeState`, whose nested `while`/`for` loops mutate
    local `finish`, `work` and `safe_seq` values. It is proved to return exactly
    `SafetyCheck`.

  Lemmas about `SafetyCheck`:
  - soundness and completeness against the declarative meaning of a safe state: there
    is an order in which every process's need fits the free units plus what the
    earlier processes released;
  - the returned order is a permutation of the processes;
  - the fixed point reached.
- `Recovery` (`recovery.dfy`): the recovery loop. It is a method that shrinks
  `processes`, `alloc` and `maxm` and adds the killed row to `avail` on each step.
  It is proved against:
  - `AfterKills`, the snapshot after `t` steps;
  - `Kills`, the loop as a recursive function.

  Lemmas about those functions show:
  - resources are conserved;
  - survivors keep their rows and their order;
  - the loop stops at the first safe snapshot, within `n` steps;
  - terminated identifiers come out in strictly decreasing order.

The safety check receives the snapshot as a value. So `avail`, `alloc` and `maxm` are
unchanged by it by construction, as in the source, which works on a copy (`work`) and
on locals.

## Model

| member | source | states |
|---|---|---|
| `BankerState.Range` | deadlock_gui.py:86 | the initial process list is `0 .. n-1` in order |
| `Safety.CalculateNeed` | deadlock_gui.py:89-90 | the need matrix has the dimensions of `maxm`, and entry `(i, j)` is `maxm[i][j] - alloc[i][j]` |
| `Safety.Init` | deadlock_gui.py:94-96 | the starting probe has one flag per process and a `work` vector of length `m`. `Safety.InitConsistent` states its contents |
| `Safety.InitConsistent` | deadlock_gui.py:94-96 | the starting probe satisfies the scan invariant. Its order is empty, so no flag is set, all `n` processes are unfinished, and `work` equals `avail` |
| `Safety.FinishConsistent` | deadlock_gui.py:101-105 | taking a process that passed the test at line 101 keeps the invariant: flags match the order, the counts add up to `n`, `work` is `avail` plus the released rows, and the order stays a safe prefix |
| `Safety.Eligible` | deadlock_gui.py:101 | the definition of the test: not finished yet, and every need entry fits `work`. `Safety.ScheduleMaximal` and `Safety.PassesExhausted` describe it at the fixed point |
| `Safety.Finish` | deadlock_gui.py:102-105 | taking a process keeps the probe's shape and lowers the unfinished count by exactly one |
| `Safety.Pass` | deadlock_gui.py:100-106 | one `for` pass never increases the count of unfinished processes. It raises the progress flag exactly when it finished at least one. A pass without progress leaves `finish`, `work` and the order unchanged |
| `Safety.PassKeepsFinished` | deadlock_gui.py:100-106 | a pass only finishes processes that were unfinished. A finished entry stays finished, and the order keeps its old entries as a prefix: it is only appended to, never reordered |
| `Safety.PassesKeepsFinished` | deadlock_gui.py:98-108 | across the whole scan a finished entry stays finished, and the order only grows at its end |
| `Safety.Passes` | deadlock_gui.py:98-108 | the `while True` loop ends (it is measured by the count of unfinished processes) in a state of the same shape |
| `Safety.PassesConsistent` | deadlock_gui.py:98-108 | through every pass: `finish[i]` holds exactly for the rows in the order; the order's length plus the unfinished count is `n`; `work` is `avail` plus the finished rows' allocations; each finished row fitted `work` when it was taken |
| `Safety.PassesExhausted` | deadlock_gui.py:98-108 | when the loop stops, no unfinished process's need fits the final `work` |
| `Safety.WorkNeverDecreases` | deadlock_gui.py:102-103 | with non-negative allocations, no entry of `work` decreases during a pass |
| `Safety.WorkNeverDecreasesInScan` | deadlock_gui.py:98-108 | with non-negative allocations, no entry of `work` decreases during the whole scan |
| `Safety.ReleaseRow` | deadlock_gui.py:102-103 | the column loop `work[j] += alloc[i][j]` yields the pointwise sum of `work` and the row |
| `Safety.SafetyCheck` | deadlock_gui.py:92-109 | the definition of the returned pair `(all(finish), safe_seq)` after the scan. `Safety.ScheduleIsSafePrefix` and `Safety.SafetyCheckCorrect` state what it means |
| `Safety.IsSafeState` | deadlock_gui.py:92-109 | the nested loops return exactly the verdict and order of `SafetyCheck`, after at most `n + 1` passes of the outer loop |
| `Safety.ScheduleIsSafePrefix` | deadlock_gui.py:94-109 | the returned order lists distinct live processes, each of whose need fitted the free units plus what the ones before it released. The flag is `all(finish)`: it is true exactly when the order covers all `n` processes, and exactly when the order is a complete safe schedule |
| `Safety.OrderCountsFinished` | deadlock_gui.py:101-105 | each process is appended at most once, a process is in the order exactly when it is finished, and the order is as long as the number of finished entries |
| `Safety.ScheduleMaximal` | deadlock_gui.py:98-108 | every process left out of the order has a need that does not fit what the whole order released |
| `Safety.EmptyIsSafe` | deadlock_gui.py:94-109 | an empty process list gives `(True, [])` |
| `Safety.OrderDrawnFromProcesses` | deadlock_gui.py:101-105 | every identifier in the order is a live process. The order has no duplicates when the process list has none |
| `Safety.SafeOrderIsPermutation` | deadlock_gui.py:104-109 | when the verdict is safe, the order is a permutation of `processes` |
| `Safety.SafeVerdictIsSafeState` | deadlock_gui.py:92-109 | soundness: a safe verdict comes with a safe completion order, namely the one returned |
| `Safety.SafeStateIsSafeVerdict` | deadlock_gui.py:92-109 | completeness (non-negative allocations): if any safe completion order exists, the greedy scan reports safe |
| `Safety.SafetyCheckCorrect` | deadlock_gui.py:92-109 | with non-negative allocations, the flag is true exactly when the state is safe in the Banker's sense |
| `Safety.AllNeedsFitIsSafe` | deadlock_gui.py:98-108 | with non-negative allocations, if every need fits the free units as they are, the verdict is safe |
| `Safety.IdsOfOrdering` | deadlock_gui.py:105 | mapping an ordering of all row indices to their identifiers gives a permutation of the identifiers |
| `Recovery.Initial` | deadlock_gui.py:86 | the definition of the entered snapshot with processes `0 .. n-1`. `Recovery.RecoveredOrderIsPermutation` describes the loop's result from it |
| `BankerState.HeldIsRowsSum` | deadlock_gui.py:121-122 | the units of a resource held by all processes are the sum of that column over every row index |
| `Recovery.Terminate` | deadlock_gui.py:119-125 | one step leaves `n - 1` processes and keeps `m`. `processes`, `alloc` and `maxm` each lose exactly their last entry. Each `avail[j]` grows by the last process's allocation of resource `j`. For every resource, free units plus units held are unchanged |
| `Recovery.AfterKills` | deadlock_gui.py:119-125 | `t` recovery steps leave a well-formed snapshot with `n - t` processes and the same `m`. `Recovery.AfterKillsSurvivors` and `Recovery.AfterKillsConserves` state which rows survive and what is conserved |
| `Recovery.AfterKillsSurvivors` | deadlock_gui.py:119-125 | after `t` steps the survivors are the first `n - t` processes, with their rows unchanged and in order |
| `Recovery.AfterKillsConserves` | deadlock_gui.py:121-122 | after any number of steps, `avail[j]` plus the survivors' column sum equals its value at the start |
| `Recovery.AllKilledIsSafe` | deadlock_gui.py:118-126 | after all `n` steps the snapshot is empty and evaluates to `(True, [])` |
| `Recovery.UnsafeHasProcesses` | deadlock_gui.py:118-119 | an unsafe snapshot always has a last process to terminate |
| `Recovery.Kills` | deadlock_gui.py:118-126 | the number of terminations the loop performs is at most the number of processes |
| `Recovery.AfterKillsShift` | deadlock_gui.py:118-126 | continuing from the snapshot after one step is the same as taking one more step from the start |
| `Recovery.KillsZero` | deadlock_gui.py:118 | the loop performs no termination exactly when the entered snapshot is safe |
| `Recovery.KillsPositive` | deadlock_gui.py:118-126 | when the loop terminates at least one process, the snapshot is unsafe, has a last process, and the loop continues from the snapshot without it |
| `Recovery.KillsAfter` | deadlock_gui.py:118-126 | after `t` of its steps, the loop has exactly `Kills - t` terminations left to do |
| `Recovery.KillsReachesSafe` | deadlock_gui.py:118-126 | the loop stops at a snapshot the check reports safe |
| `Recovery.KillsIsFirst` | deadlock_gui.py:118-126 | every snapshot before the one the loop stops at is reported unsafe: no termination is unnecessary under the kill-last policy |
| `Recovery.RecoveredOrderIsPermutation` | deadlock_gui.py:86-126 | for the entered data, the final safe order lists exactly the surviving identifiers `0 .. n - Kills - 1`, each once |
| `Recovery.RecoveredIsSafeState` | deadlock_gui.py:118-126 | the survivors after recovery are in a safe state in the Banker's sense: the order the check returns for them is a complete safe schedule |
| `Recovery.Countdown` | deadlock_gui.py:119-120 | the `k` identifiers terminated first are `n-1, n-2, ..., n-k` |
| `Recovery.DeadlockRecovery` | deadlock_gui.py:86-126 | the loop returns:<br>• the verdict of the entered state;<br>• an empty termination log exactly when that state was safe;<br>• exactly `Kills` terminations, with identifiers `n-1, n-2, ...` in strictly decreasing order;<br>• the safe order of the snapshot left after those terminations, which the check reports safe |

## Left out

- The tkinter interface is not modelled: window, entries, buttons, `generate_matrices`, message boxes and the main loop (deadlock_gui.py:1-59, 131-134).
- Parsing of the matrices and the available vector from text is not modelled (deadlock_gui.py:61-83). Only its outcome appears, as the precondition `Snapshot.Valid()`: as many rows in `maxm` as in `alloc`, every row of length `m`, and `|avail| == m`.
- The `result_text` messages (emoji lines, `P{p}` labels, the arrow join) are not modelled. The model returns their content instead: the initial verdict, the final order and the termination log.
- The source reads `n` and `m` with `int(...)` and does not reject negative values. A negative `m` is always rejected by the length checks at lines 66-67 and 83. A negative `n` gives no rows and an empty process list, which the model covers as `n = 0`.
- Recovery.DeadlockRecovery: takes `n` as `|alloc|`, the number of rows entered. In the source, `self.n` can differ from that count: line 29 sets it before line 30's `int(...)` fails, and the method returns at line 33 with the old entry rows still in place. If the new `n` exceeds the row count, line 101 raises `IndexError` when `m > 0`. When `m = 0`, the fit test at line 101 holds without reading `need[i]`, so every id of `range(n)` is reported finished and the verdict is safe. The model captures neither case. If it is smaller, the rows past `n` are never tested or released, so the source behaves like the model applied to `alloc[..n]` and `maxm[..n]`.
- The source mutates lists in place: `avail[j] +=`, `pop` on `processes`, `alloc` and `maxm`. The model reassigns sequence values. No other code holds these lists, so no aliasing is lost.
- `Safety.CalculateNeed` takes its column count from the first row of `maxm`, as the source does. Its precondition that all rows have that length is the parsing guarantee.
- `Safety.SafeStateIsSafeVerdict`: assumes non-negative allocations, which the source never checks. With a negative entry, finishing a process can lower `work`, and the scan order can then miss a safe completion order.
- `Safety.SafetyCheckCorrect`: the completeness direction assumes non-negative allocations, for the same reason. The soundness direction (`Safety.SafeVerdictIsSafeState`) holds unconditionally.
- `Safety.AllNeedsFitIsSafe`: assumes non-negative allocations, for the same reason.
- `Safety.WorkNeverDecreases`: assumes non-negative allocations. With negative entries `work` can decrease, as the source's `+=` shows.
- `Safety.WorkNeverDecreasesInScan`: assumes non-negative allocations, for the same reason.
- The source never checks that `maxm[i][j] >= alloc[i][j]`, or the sign of any entry, so a need can be negative. A negative need entry fits any non-negative `work` entry. The model keeps this behaviour and adds no precondition for it.
