/**
  On-the-fly invariant checking by iterative depth-first search.

  The search keeps a visited set `R`, an explicit stack `U` and a flag `b`
  that stays true while every state checked so far satisfies the invariant.
  A state is checked against `phi` when it is popped, which happens only once
  all its successors are visited; the search stops at the first violation and
  hands back the stack. Because the violating state is popped before it is
  checked, the returned stack is the path up to, but excluding, that state.
 */
module InvariantChecker {
  import opened TransitionSystems

  datatype Option<T> = None | Some(value: T)

  /** `invariant_checking` answers "oui", or "non" together with the stack. */
  datatype Verdict<State> = Holds | Violated(trace: seq<State>)

  ghost predicate NoDuplicates<T>(s: seq<T>) {
    forall i, j :: 0 <= i < j < |s| ==> s[i] != s[j]
  }

  /** What the search maintains about its visited set and stack, whatever the
      value of the flag: the stack holds distinct visited states forming a run,
      every visited state is reachable, and every visited state that has left
      the stack has all its successors visited. */
  ghost predicate Consistent<State(!new)>(ts: System<State>, R: set<State>, U: seq<State>) {
    && NoDuplicates(U)
    && (forall i :: 0 <= i < |U| ==> U[i] in R)
    && (U != [] ==> IsRun(ts, U))
    && (forall x :: x in R ==> Reachable(ts, x))
    && (forall x :: x in R && x !in U ==> Done(ts, R, x))
  }

  /** The counterexample `InvariantChecking` returns: `v` violates `phi`, is not on `trace`, and
      is either an initial state (then `trace` is empty) or a successor of the
      last state of the run `trace`. */
  ghost predicate ViolationWitness<State(!new)>(ts: System<State>, phi: State -> bool, trace: seq<State>, v: State) {
    && !phi(v)
    && v !in trace
    && (trace == [] ==> v in ts.initial)
    && (trace != [] ==> IsRun(ts, trace) && Edge(ts, Last(trace), v))
  }

  /** `pushes` lists each state of `R` exactly once. */
  ghost predicate PushLog<State(!new)>(pushes: seq<State>, R: set<State>) {
    NoDuplicates(pushes) && (forall x :: x in pushes <==> x in R)
  }

  /** Popping a state whose successors are all visited keeps the search
      consistent; the popped state leaves the stack entirely, and the state
      below it (if any) has it as a successor. */
  lemma PopKeepsConsistent<State(!new)>(ts: System<State>, R: set<State>, U: seq<State>)
    requires Consistent(ts, R, U)
    requires U != [] && Done(ts, R, Last(U))
    ensures Consistent(ts, R, U[..|U| - 1])
    ensures Last(U) !in U[..|U| - 1]
    ensures |U| > 1 ==> Edge(ts, Last(U[..|U| - 1]), Last(U)) && Last(U) != U[0]
  { }

  /** Pushing an unvisited successor of the top keeps the search consistent. */
  lemma PushKeepsConsistent<State(!new)>(ts: System<State>, R: set<State>, U: seq<State>, next: State)
    requires Consistent(ts, R, U)
    requires U != [] && Edge(ts, Last(U), next) && next !in R
    ensures Consistent(ts, R + {next}, U + [next])
  { }

  /** `FiniteTransitionSystem.visite(s)`, entered with an empty stack and the flag set.
      It explores everything reachable from `s` that is not yet visited,
      checking states as they are popped, until the stack empties or a check
      fails. `last` is the last state popped (the violating one on failure). */
  method Visit<State(==,!new)>(ts: System<State>, phi: State -> bool, R0: set<State>, ghost pushes0: seq<State>, s: State)
    returns (R: set<State>, U: seq<State>, b: bool, last: State, ghost pushes: seq<State>)
    requires Explorable(ts)
    requires Consistent(ts, R0, [])
    requires forall x :: x in R0 ==> phi(x)
    requires PushLog(pushes0, R0)
    requires s in ts.initial && s !in R0
    ensures R0 + {s} <= R
    ensures Consistent(ts, R, U)
    ensures PushLog(pushes, R)
    ensures b ==> U == [] && forall x :: x in R ==> phi(x)
    ensures !b ==> last in R && ViolationWitness(ts, phi, U, last)
    ensures !b ==> (U == [] <==> last == s)
    ensures !b ==> U != [] ==> U[0] == s
    ensures !b ==> forall x :: x in R && x !in U && x != last ==> phi(x)
  {
    R, U, b, last, pushes := R0 + {s}, [s], true, s, pushes0 + [s];
    assert IsRun(ts, [s]) && Last([s]) == s;
    while U != [] && b
      invariant R0 + {s} <= R
      invariant Consistent(ts, R, U)
      invariant PushLog(pushes, R)
      invariant U != [] ==> U[0] == s
      invariant forall x :: x in R && x !in U ==> phi(x) || (!b && x == last)
      invariant !b ==> last in R && ViolationWitness(ts, phi, U, last)
      invariant !b ==> (U == [] <==> last == s)
      decreases Universe(ts) - R, |U|
    {
      var top := Last(U);
      assert top in ts.trans;
      var succ := Post(ts, top);
      if succ <= R {
        var rest := U[..|U| - 1];
        PopKeepsConsistent(ts, R, U);
        assert rest != [] ==> U[0] == rest[0];
        U := rest;
        b := b && phi(top);
        last := top;
      } else {
        var next :| next in succ && next !in R;
        PushKeepsConsistent(ts, R, U, next);
        U := U + [next];
        R := R + {next};
        pushes := pushes + [next];
      }
    }
  }

  /** The loop of `FiniteTransitionSystem.invariant_checking`, returning the whole search state:
      the visited set, the stack, the flag and, once a check has failed, the
      state that failed it. */
  method Search<State(==,!new)>(ts: System<State>, phi: State -> bool)
    returns (R: set<State>, U: seq<State>, b: bool, culprit: Option<State>, ghost pushes: seq<State>)
    requires Explorable(ts)
    ensures b <==> IsInvariant(ts, phi)
    ensures Consistent(ts, R, U)
    ensures PushLog(pushes, R)
    ensures b ==> U == [] && forall x :: x in R <==> Reachable(ts, x)
    ensures !b ==> culprit.Some? && culprit.value in R && ViolationWitness(ts, phi, U, culprit.value)
    ensures !b ==> forall x :: x in R && x !in U && x != culprit.value ==> phi(x)
  {
    R, U, b, culprit, pushes := {}, [], true, None, [];
    while ts.initial - R != {} && b
      invariant Consistent(ts, R, U)
      invariant PushLog(pushes, R)
      invariant b ==> U == [] && forall x :: x in R ==> phi(x)
      invariant !b ==> culprit.Some? && culprit.value in R && ViolationWitness(ts, phi, U, culprit.value)
      invariant !b ==> forall x :: x in R && x !in U && x != culprit.value ==> phi(x)
      decreases ts.initial - R
    {
      var s :| s in ts.initial - R;
      var last;
      R, U, b, last, pushes := Visit(ts, phi, R, pushes, s);
      culprit := Some(last);
    }
    if b {
      assert ts.initial <= R by {
        forall x | x in ts.initial ensures x in R {
          assert x !in ts.initial - R;
        }
      }
      ClosedSetContainsReachable(ts, R);
    } else {
      ViolationRefutesInvariant(ts, phi, U, culprit.value);
    }
  }

  /** The checker's public entry point. */
  method InvariantChecking<State(==,!new)>(ts: System<State>, phi: State -> bool) returns (r: Verdict<State>)
    requires Explorable(ts)
    ensures r.Holds? <==> IsInvariant(ts, phi)
    ensures ts.initial == {} ==> r == Holds
    ensures r.Violated? ==> NoDuplicates(r.trace) && exists v :: ViolationWitness(ts, phi, r.trace, v)
  {
    var R, U, b, culprit, pushes := Search(ts, phi);
    if b {
      r := Holds;
    } else {
      r := Violated(U);
    }
  }

  /** A witness turns the trace `InvariantChecking` returns into a run that
      ends in a state violating `phi`, as `CheckWithFullTrace` reports it. */
  lemma WitnessCompletesRun<State(!new)>(ts: System<State>, phi: State -> bool, trace: seq<State>, v: State)
    requires NoDuplicates(trace)
    requires ViolationWitness(ts, phi, trace, v)
    ensures IsRun(ts, trace + [v]) && !phi(Last(trace + [v]))
    ensures NoDuplicates(trace + [v])
  { }

  /** A witness is a reachable state violating `phi`, so `phi` is not an
      invariant. */
  lemma ViolationRefutesInvariant<State(!new)>(ts: System<State>, phi: State -> bool, trace: seq<State>, v: State)
    requires ViolationWitness(ts, phi, trace, v)
    ensures !IsInvariant(ts, phi)
  {
    if trace == [] {
      assert IsRun(ts, [v]) && Last([v]) == v;
    } else {
      ExtendRun(ts, trace, v);
      assert Last(trace + [v]) == v;
    }
  }

  /** The checker with the violating state kept at the end of the trace, so
      that a failure always comes with a run that ends in a violation. */
  method CheckWithFullTrace<State(==,!new)>(ts: System<State>, phi: State -> bool) returns (r: Verdict<State>)
    requires Explorable(ts)
    ensures r.Holds? <==> IsInvariant(ts, phi)
    ensures r.Violated? ==> IsRun(ts, r.trace) && !phi(Last(r.trace)) && NoDuplicates(r.trace)
  {
    var R, U, b, culprit, pushes := Search(ts, phi);
    if b {
      r := Holds;
    } else {
      WitnessCompletesRun(ts, phi, U, culprit.value);
      r := Violated(U + [culprit.value]);
    }
  }

  /** When the only initial state has no successors, every trace
      `InvariantChecking` can return is empty and the violating state is that
      initial state: the counterexample names no state at all. */
  lemma DeadEndStartGivesEmptyTrace<State(!new)>(ts: System<State>, phi: State -> bool, s: State, trace: seq<State>, v: State)
    requires ts.initial == {s} && s in ts.trans && ts.trans[s] == []
    requires ViolationWitness(ts, phi, trace, v)
    ensures trace == [] && v == s
  {
    if trace != [] {
      if |trace| > 1 {
        PathEdge(ts, trace, 0);
      }
      assert false;
    }
  }
}
