/**
  Finite transition systems as handed to the invariant checker: a state set,
  a set of initial states and a successor table mapping a state to the ordered
  list of its successors. This module defines edges, runs, reachability and
  what it means for a predicate to be an invariant, plus the one closure fact
  the soundness argument of the checker rests on.
 */
module TransitionSystems {

  /** The three constructor arguments of `FiniteTransitionSystem`. The checker
      never reads `states`; it is kept so that a system value carries
      everything the Python object stores. */
  datatype System<State> = System(
    states: set<State>,
    initial: set<State>,
    trans: map<State, seq<State>>
  )

  function Last<T>(s: seq<T>): T
    requires |s| > 0
  {
    s[|s| - 1]
  }

  /** `b` is listed among the successors of `a`. */
  ghost predicate Edge<State(!new)>(ts: System<State>, a: State, b: State) {
    a in ts.trans && b in ts.trans[a]
  }

  /** The successor set of `s`, as `FiniteTransitionSystem.post` computes it.
      `post` indexes the table directly, so a state without an entry raises a
      lookup error there; hence the precondition. */
  function Post<State(==,!new)>(ts: System<State>, s: State): (r: set<State>)
    requires s in ts.trans
    ensures forall y :: y in r <==> Edge(ts, s, y)
    ensures r <= Universe(ts)
  {
    set y | y in ts.trans[s]
  }

  /** Every state the system mentions as initial or as a successor. A search
      that only ever adds initial states and successors stays inside this
      finite set, which is what makes it terminate. */
  function Universe<State(==,!new)>(ts: System<State>): set<State> {
    ts.initial + set k, y | k in ts.trans && y in ts.trans[k] :: y
  }

  /** Every consecutive pair of `p` is an edge. */
  ghost predicate IsPath<State(!new)>(ts: System<State>, p: seq<State>) {
    forall i :: 0 <= i < |p| - 1 ==> Edge(ts, p[i], p[i + 1])
  }

  /** A finite execution: a non-empty path starting in an initial state. */
  ghost predicate IsRun<State(!new)>(ts: System<State>, p: seq<State>) {
    |p| > 0 && p[0] in ts.initial && IsPath(ts, p)
  }

  ghost predicate Reachable<State(!new)>(ts: System<State>, x: State) {
    exists p :: IsRun(ts, p) && Last(p) == x
  }

  /** `phi` holds in every reachable state. */
  ghost predicate IsInvariant<State(!new)>(ts: System<State>, phi: State -> bool) {
    forall p :: IsRun(ts, p) ==> phi(Last(p))
  }

  /** Every reachable state has an entry in the successor table, so looking up
      its successors cannot fail. */
  ghost predicate Explorable<State(!new)>(ts: System<State>) {
    forall p :: IsRun(ts, p) ==> Last(p) in ts.trans
  }

  /** All successors of `x` are already in `R`. */
  ghost predicate Done<State(!new)>(ts: System<State>, R: set<State>, x: State) {
    x in ts.trans && forall y :: Edge(ts, x, y) ==> y in R
  }

  /** A set that contains the initial states and is closed under successors
      contains the last state of every run. */
  lemma {:induction false} ClosedSetContainsRun<State(!new)>(ts: System<State>, R: set<State>, p: seq<State>)
    requires ts.initial <= R
    requires forall x :: x in R ==> Done(ts, R, x)
    requires IsRun(ts, p)
    ensures Last(p) in R
    decreases |p|
  {
    if |p| > 1 {
      var q := p[..|p| - 1];
      assert IsRun(ts, q) by {
        forall i | 0 <= i < |q| - 1 ensures Edge(ts, q[i], q[i + 1]) {
          assert q[i] == p[i] && q[i + 1] == p[i + 1];
        }
      }
      ClosedSetContainsRun(ts, R, q);
      assert Edge(ts, p[|p| - 2], p[|p| - 1]);
    }
  }

  /** Same as above, for every run at once. */
  lemma ClosedSetContainsReachable<State(!new)>(ts: System<State>, R: set<State>)
    requires ts.initial <= R
    requires forall x :: x in R ==> Done(ts, R, x)
    ensures forall p :: IsRun(ts, p) ==> Last(p) in R
    ensures forall x :: Reachable(ts, x) ==> x in R
  {
    forall p | IsRun(ts, p) ensures Last(p) in R {
      ClosedSetContainsRun(ts, R, p);
    }
  }

  lemma PathEdge<State(!new)>(ts: System<State>, p: seq<State>, i: int)
    requires IsPath(ts, p) && 0 <= i < |p| - 1
    ensures Edge(ts, p[i], p[i + 1])
  {
  }

  /** A run extended by an edge out of its last state is a run. */
  lemma ExtendRun<State(!new)>(ts: System<State>, p: seq<State>, x: State)
    requires IsRun(ts, p)
    requires Edge(ts, Last(p), x)
    ensures IsRun(ts, p + [x])
    ensures Reachable(ts, x)
  {
    var q := p + [x];
    forall i | 0 <= i < |q| - 1 ensures Edge(ts, q[i], q[i + 1]) {
      if i < |p| - 1 {
        assert q[i] == p[i] && q[i + 1] == p[i + 1];
      }
    }
    assert Last(q) == x;
  }
}
