/**
  The two transition systems the repository hard-codes: a binary semaphore
  with the mutual-exclusion property, and a pair of traffic lights with the
  property that at least one light is red. Both are proved to satisfy their
  property, so the checker answers `Holds` on each. A third, one-state
  system shows `InvariantChecking` returning an empty counterexample.
 */
module Examples {
  import opened TransitionSystems
  import opened InvariantChecker

  /** Two processes, each non-critical (n), waiting (p) or critical (c). */
  const Semaphore: System<string> := System(
    {"n1,n2", "p1,n2", "n1,p2", "p1,p2", "c1,n2", "n1,c2", "c1,p2", "p1,c2"},
    {"n1,n2"},
    map[
      "n1,n2" := ["p1,n2", "n1,p2"],
      "p1,n2" := ["c1,n2", "p1,p2"],
      "n1,p2" := ["n1,c2", "p1,p2"],
      "p1,p2" := ["c1,p2", "p1,c2"],
      "c1,p2" := ["n1,p2"],
      "p1,c2" := ["p1,n2"],
      "c1,n2" := ["c1,p2", "n1,n2"],
      "n1,c2" := ["p1,c2", "n1,n2"]
    ]
  )

  function MutualExclusion(s: string): bool {
    s != "c1,c2"
  }

  /** Two lights, each red (r), orange (o) or green (v). */
  const TrafficLights: System<string> := System(
    {"r1,v2", "r1,o2", "r1,r2", "o1,r2", "v1,r2", "o1,v2", "o1,o2", "v1,o2", "v1,v2"},
    {"r1,r2"},
    map[
      "r1,v2" := ["r1,o2"],
      "r1,o2" := ["r1,r2"],
      "r1,r2" := ["r1,v2", "v1,r2"],
      "o1,r2" := ["r1,r2"],
      "v1,r2" := ["o1,r2"],
      "o1,v2" := ["r1,v2", "o1,o2"],
      "o1,o2" := ["r1,o2", "o1,r2"],
      "v1,o2" := ["o1,o2", "v1,r2"],
      "v1,v2" := ["o1,v2", "v1,o2"]
    ]
  )

  /** The property of `exemple2`: the state is none of the four labels where
      neither light is red. On the nine states of `TrafficLights` this means
      "some light is red"; on other strings it need not. */
  function SomeLightRed(s: string): bool {
    s != "o1,v2" && s != "o1,o2" && s != "v1,o2" && s != "v1,v2"
  }

  /** Every reachable semaphore state has an entry, and no run reaches both
      processes in their critical section. */
  lemma SemaphoreIsMutuallyExclusive()
    ensures Explorable(Semaphore)
    ensures IsInvariant(Semaphore, MutualExclusion)
  {
    var R := Semaphore.states;
    forall x | x in R ensures Done(Semaphore, R, x) {
      assert x in Semaphore.trans;
    }
    ClosedSetContainsReachable(Semaphore, R);
  }

  /** From both lights red only five states are reachable, each with a red
      light, and no edge leads from these five to any of the four forbidden
      states. */
  lemma TrafficLightsKeepOneRed()
    ensures Explorable(TrafficLights)
    ensures IsInvariant(TrafficLights, SomeLightRed)
  {
    var R := {"r1,v2", "r1,o2", "r1,r2", "o1,r2", "v1,r2"};
    forall x | x in R ensures Done(TrafficLights, R, x) {
      assert x in TrafficLights.trans;
    }
    ClosedSetContainsReachable(TrafficLights, R);
  }

  /** The first driver's call: the checker answers `Holds`. */
  method CheckSemaphore() returns (r: Verdict<string>)
    ensures r == Holds
  {
    SemaphoreIsMutuallyExclusive();
    r := InvariantChecking(Semaphore, MutualExclusion);
  }

  /** The second driver's call: the checker answers `Holds`. */
  method CheckTrafficLights() returns (r: Verdict<string>)
    ensures r == Holds
  {
    TrafficLightsKeepOneRed();
    r := InvariantChecking(TrafficLights, SomeLightRed);
  }

  /** One initial state, no successors, and a property it violates. */
  const Lone: System<int> := System({0}, {0}, map[0 := []])

  function NonZero(x: int): bool {
    x != 0
  }

  /** Every run of `Lone` is `[0]`, which has an entry and violates `NonZero`. */
  lemma LoneExplorable()
    ensures Explorable(Lone)
    ensures !IsInvariant(Lone, NonZero)
  {
    forall p | IsRun(Lone, p) ensures Last(p) in Lone.trans {
      if |p| > 1 {
        PathEdge(Lone, p, 0);
        assert false;
      }
    }
    assert IsRun(Lone, [0]) && Last([0]) == 0;
  }

  /** `InvariantChecking` reports the violation on `Lone` with an empty
      trace: the one violating state was popped before it was checked. */
  method LoneVerdict() returns (r: Verdict<int>)
    ensures r == Violated([])
  {
    LoneExplorable();
    r := InvariantChecking(Lone, NonZero);
    ghost var v :| ViolationWitness(Lone, NonZero, r.trace, v);
    DeadEndStartGivesEmptyTrace(Lone, NonZero, 0, r.trace, v);
  }
}
