/** service/cleanup.go: compensations run in the reverse of the order in which they were pushed. */
module Cleanup {
  class CleanupChain<C> {
    var steps: seq<C>

    constructor ()
      ensures steps == []
    {
      steps := [];
    }

    method Push(step: C)
      modifies this
      ensures steps == old(steps) + [step]
    {
      steps := steps + [step];
    }
  }

  /** What run does to a state, when step c takes state s to undo(s, c). */
  function Unwind<S, C>(undo: (S, C) -> S, steps: seq<C>, s: S): S
    decreases |steps|
  {
    if steps == [] then s
    else
      var last := |steps| - 1;
      Unwind(undo, steps[..last], undo(s, steps[last]))
  }

  lemma {:induction false} UnwindConcat<S, C>(undo: (S, C) -> S, a: seq<C>, b: seq<C>, s: S)
    ensures Unwind(undo, a + b, s) == Unwind(undo, a, Unwind(undo, b, s))
    decreases |b|
  {
    if b == [] {
      assert a + b == a;
    } else {
      var last := |b| - 1;
      assert (a + b)[..|a + b| - 1] == a + b[..last];
      UnwindConcat(undo, a, b[..last], undo(s, b[last]));
    }
  }

  /** Each compensation takes the state after its step back to the state before it. */
  ghost predicate EachInverts<S(!new), C(!new)>(undo: (S, C) -> S, steps: seq<C>, states: seq<S>)
    requires |states| == |steps| + 1
  {
    forall i :: 0 <= i < |steps| ==> undo(states[i + 1], steps[i]) == states[i]
  }

  ghost predicate RestoresFrom<S(!new), C(!new)>(undo: (S, C) -> S, steps: seq<C>, states: seq<S>, j: nat, k: nat)
    requires |states| == |steps| + 1 && j <= k <= |steps|
  {
    Unwind(undo, steps[j..k], states[k]) == states[j]
  }

  lemma {:induction false} InvertersRestore<S(!new), C(!new)>(
      undo: (S, C) -> S, steps: seq<C>, states: seq<S>, j: nat, k: nat)
    requires |states| == |steps| + 1 && j <= k <= |steps| && EachInverts(undo, steps, states)
    ensures RestoresFrom(undo, steps, states, j, k)
    decreases k
  {
    if j < k {
      assert steps[j..k][..k - j - 1] == steps[j..k - 1];
      InvertersRestore(undo, steps, states, j, k - 1);
    }
  }

  /** A chain takes every later state of a run back to every earlier one exactly if each compensation inverts its
      step. */
  lemma ChainRestoresIffEachInverts<S(!new), C(!new)>(undo: (S, C) -> S, steps: seq<C>, states: seq<S>)
    requires |states| == |steps| + 1
    ensures EachInverts(undo, steps, states) <==>
            forall j, k :: 0 <= j <= k <= |steps| ==> RestoresFrom(undo, steps, states, j, k)
  {
    if EachInverts(undo, steps, states) {
      forall j, k | 0 <= j <= k <= |steps| ensures RestoresFrom(undo, steps, states, j, k) {
        InvertersRestore(undo, steps, states, j, k);
      }
    }
    if forall j, k :: 0 <= j <= k <= |steps| ==> RestoresFrom(undo, steps, states, j, k) {
      forall i | 0 <= i < |steps| ensures undo(states[i + 1], steps[i]) == states[i] {
        assert RestoresFrom(undo, steps, states, i, i + 1);
        assert steps[i..i + 1] == [steps[i]] && [steps[i]][..0] == [];
        assert Unwind(undo, [steps[i]], states[i + 1]) == undo(states[i + 1], steps[i]);
      }
    }
  }

  /** In particular a failure after any number of steps is undone to the start, and a second run finds nothing to do. */
  lemma RunRestoresTheStart<S(!new), C(!new)>(undo: (S, C) -> S, steps: seq<C>, states: seq<S>, k: nat)
    requires |states| == |steps| + 1 && k <= |steps| && EachInverts(undo, steps, states)
    ensures Unwind(undo, steps[..k], states[k]) == states[0]
    ensures Unwind(undo, [], Unwind(undo, steps[..k], states[k])) == states[0]
  {
    InvertersRestore(undo, steps, states, 0, k);
    assert steps[0..k] == steps[..k];
  }
}
