# On-the-fly invariant checking over a finite transition system

This project models the invariant checker of `FiniteTransitionSystem` in Dafny.
The checker runs an iterative depth-first search over a finite transition system.
It keeps a visited set `R`, an explicit stack `U` and a flag `b` that stays true while the invariant holds.
A state is checked against the property `PHI` only when it is popped.
It is popped only once all its successors are visited.
The search stops at the first violation and returns the stack as a counterexample.

Files:

- `transition_system.dfy`, module `TransitionSystems`: the system (states, initial states, successor table), edges, the successor set `Post`, runs, reachability, "PHI is an invariant", and the closure lemma behind soundness.
- `invariant_checker.dfy`, module `InvariantChecker`: `Visit` (`FiniteTransitionSystem.visite`), `Search` and `InvariantChecking` (`FiniteTransitionSystem.invariant_checking`), the verdict type, and the corrected variant described under Findings.
- `examples.dfy`, module `Examples`: the two hard-coded systems, proved to satisfy their properties, and the checker's answer on each; plus the one-state system `Lone` behind the finding below.

Modelling choices:

- `PHI` is a plain function parameter `phi: State -> bool`. `LogicalProposition.check` only applies the wrapped predicate.
- The answers `"oui"` and `("non", U)` become `Holds` and `Violated(trace)`.
- The arbitrary picks `next(iter(...))` become Dafny's `:|`, so every proved property holds for every choice order.
- `post` indexes the table directly, so a state without an entry raises a lookup error. The model requires instead that every reachable state has an entry (`Explorable`). No other condition is placed on the input: the Python code never reads `states` and never checks that successors lie in it.
- The search state that the Python object stores on itself (`self.R`, `self.U`, `self.b`) is passed in and returned explicitly.
- Termination: each inner iteration either pops `U` or adds to `R` a state not yet in it. Every added state lies in `Universe(ts)`, the initial states plus every listed successor, which is finite. The loop measure is `Universe(ts) - R, |U|`, ordered lexicographically: a push shrinks the unvisited part of the universe, and a pop keeps it and shrinks the stack. The outer loop decreases `initial - R`.
- `visite` pops the top at line 32 before checking it at line 33, so the stack returned at line 21 does not contain the violating state. The model follows the code; see Findings.
- `post` indexes the table directly and nothing checks the input first. The model follows the code, with the precondition above.
- In the traffic-light table (lines 80-90), the states reachable from `r1,r2` are `r1,r2`, `r1,v2`, `r1,o2`, `v1,r2` and `o1,r2`, each with a red light. No edge leads from these five to any of the four forbidden states. So `exemple2` gets the answer `"oui"`, as `Examples.TrafficLightsKeepOneRed` and `Examples.CheckTrafficLights` prove.

## Model

| member | source | states |
|---|---|---|
| TransitionSystems.Post | MVSC_DM_1_GERARD_KYLIAN.py:40-41 | the successor set of a state that has a table entry is exactly the set of edge targets out of it, and it lies inside the finite universe of states the system mentions |
| TransitionSystems.ClosedSetContainsRun | MVSC_DM_1_GERARD_KYLIAN.py:18-19 | a set that contains every initial state and every successor of each of its members contains the last state of every run; this is why a search that empties its stack without a violation has seen every reachable state |
| TransitionSystems.ClosedSetContainsReachable | MVSC_DM_1_GERARD_KYLIAN.py:15-19 | the same closure fact for all runs at once, stated as "every reachable state is in the set" |
| TransitionSystems.ExtendRun | MVSC_DM_1_GERARD_KYLIAN.py:35-36 | pushing a successor of the top of a stack that is a run gives a run, so the pushed state is reachable |
| InvariantChecker.PopKeepsConsistent | MVSC_DM_1_GERARD_KYLIAN.py:31-32 | popping a top whose successors are all visited keeps the stack a duplicate-free run of visited states and keeps every off-stack visited state closed under successors; the popped state is no longer anywhere on the stack, and if the stack had more than one state, the popped state is a successor of the new top and differs from the bottom |
| InvariantChecker.PushKeepsConsistent | MVSC_DM_1_GERARD_KYLIAN.py:35-37 | pushing an unvisited successor of the top and marking it visited keeps the stack a duplicate-free run and keeps off-stack visited states closed |
| InvariantChecker.Visit | MVSC_DM_1_GERARD_KYLIAN.py:24-37 | started on an unvisited initial state, with everything visited so far checked: the visited set grows to include that state, and every state is pushed at most once. On success the stack is empty and every visited state satisfies PHI. On failure the popped state violates PHI and is not on the stack, and the stack is empty exactly when that state is the start state. Otherwise the stack is a run from the start state ending in a predecessor of the failed state, and every other checked state satisfies PHI (the search stops at the first failing check). The loop terminates |
| InvariantChecker.Search | MVSC_DM_1_GERARD_KYLIAN.py:9-17 | the flag ends true exactly when PHI holds in every reachable state. Then the stack is empty and the visited set is exactly the reachable set. Otherwise the last popped state violates PHI, the stack is a witness path to it, and it is the only visited state that failed a check |
| InvariantChecker.InvariantChecking | MVSC_DM_1_GERARD_KYLIAN.py:9-21 | `Holds` exactly when PHI is an invariant, in both directions. An empty set of initial states gives `Holds`. `Violated(trace)` carries a duplicate-free trace and some state that violates PHI and is not in the trace: it is an initial state when the trace is empty, and otherwise a successor of the trace's last state, the trace being a run |
| InvariantChecker.ViolationRefutesInvariant | MVSC_DM_1_GERARD_KYLIAN.py:20-21 | the state behind a returned trace is reachable, so a `Violated` answer is never given when PHI is an invariant |
| InvariantChecker.WitnessCompletesRun | MVSC_DM_1_GERARD_KYLIAN.py:32-33 | appending the popped violating state to the returned trace gives a duplicate-free run that ends in a state violating PHI |
| InvariantChecker.DeadEndStartGivesEmptyTrace | MVSC_DM_1_GERARD_KYLIAN.py:32-33 | for any system whose only initial state has an empty successor list, every trace the contract of `InvariantChecking` admits is empty, and the violating state is that initial state |
| Examples.LoneVerdict | MVSC_DM_1_GERARD_KYLIAN.py:18-21 | on `Lone` (initial states `{0}`, table `{0: []}`, PHI = "state is not 0") the checker answers `Violated([])`: a counterexample that names no state |
| InvariantChecker.CheckWithFullTrace | MVSC_DM_1_GERARD_KYLIAN.py:20-21 | the corrected checker: `Holds` exactly when PHI is an invariant; otherwise the trace is a non-empty duplicate-free run from an initial state whose last state violates PHI |
| Examples.SemaphoreIsMutuallyExclusive | MVSC_DM_1_GERARD_KYLIAN.py:53-67 | in the binary-semaphore system every reachable state has a table entry, and no reachable state has both processes critical |
| Examples.TrafficLightsKeepOneRed | MVSC_DM_1_GERARD_KYLIAN.py:78-93 | in the traffic-light system every reachable state has a table entry, and every reachable state has at least one red light |
| Examples.CheckSemaphore | MVSC_DM_1_GERARD_KYLIAN.py:66-69 | the checker answers `Holds` on the semaphore system |
| Examples.CheckTrafficLights | MVSC_DM_1_GERARD_KYLIAN.py:92-95 | the checker answers `Holds` on the traffic-light system |

## Left out

- Console output of `exemple1`, `exemple2` and the `__main__` block: presentation only. Their systems and checker calls are modelled in `Examples`.
- The iteration order of Python sets behind `next(iter(...))`: the model picks an arbitrary element, so its properties hold for every order.
- The lookup error `post` raises for a state with no table entry: replaced by the precondition `Explorable`, which says every reachable state has an entry.
- `LogicalProposition`: a one-method wrapper, represented by the function parameter `phi`.
- The `states` field: stored but never read by the checker, so it constrains nothing in the model.
- InvariantChecker.InvariantChecking: requires a table entry for every reachable state, although a search that stops at a violation only looks up the states it reached before stopping; the same holds for `Visit`, `Search` and `CheckWithFullTrace`.
- Input validation: the Python code performs none, and the model adds none beyond `Explorable`.

## Findings

| source | as written | input that shows it | evidently intended | confidence | as-written member | corrected member |
|---|---|---|---|---|---|---|
| MVSC_DM_1_GERARD_KYLIAN.py:32-33 | the top state is popped before PHI is checked on it, so the stack returned as the counterexample at line 21 stops one state short of the violation, and is empty exactly when the violating state is the initial state the current `visite` started from | initial states `{0}`, table `{0: []}`, PHI = "state is not 0": the answer is `("non", [])` | the returned trace runs from an initial state to, and including, the violating state, as the comment at line 21 says the stack gives a counterexample | medium, not executed | Examples.LoneVerdict | InvariantChecker.CheckWithFullTrace |
