/**
  The example automaton over {a, b} that accepts exactly the inputs
  ending in "ab", and the proof that it does.
*/
module EndsWithAb {
  import opened Wrappers
  import opened DfaSpec
  import opened DfaEngine

  const Q0: State := "q0"
  const Q1: State := "q1"
  const Q2: State := "q2"
  const A: Symbol := "a"
  const B: Symbol := "b"

  function Table(): Table
  {
    map[Q0 := map[A := Q1, B := Q0],
        Q1 := map[A := Q1, B := Q2],
        Q2 := map[A := Q1, B := Q0]]
  }

  /** The definition the factory passes to the constructor. */
  function Components(): Automaton
  {
    Automaton({Q0, Q1, Q2}, {A, B}, Table(), Some(Q0), {Q2})
  }

  lemma TargetsDeclared()
    ensures Targets(Table()) <= {Q0, Q1, Q2}
  {
    forall t | t in Targets(Table())
      ensures t in {Q0, Q1, Q2}
    {
      var s, a :| s in Table() && a in Table()[s] && Table()[s][a] == t;
    }
  }

  lemma ComponentsTotal()
    ensures Total(Components())
  {
    var d := Components();
    forall s, a | s in d.states && a in d.alphabet
      ensures HasEntry(d.delta, s, a)
    {
    }
  }

  /** The constructor adds nothing to it: every target is declared and the table is total. */
  lemma BuildIsComponents()
    ensures Build({Q0, Q1, Q2}, {A, B}, Table(), Some(Q0), {Q2}, true) == Components()
  {
    var states := {Q0, Q1, Q2} + Table().Keys + Targets(Table());
    assert states == {Q0, Q1, Q2} by {
      TargetsDeclared();
      assert Table().Keys == {Q0, Q1, Q2};
    }
    var d := Automaton(states, {A, B}, Table(), Some(Q0), {Q2});
    assert d == Components();
    ComponentsTotal();
    CompleteNoOp(d);
  }

  /** `example_ends_with_ab()` */
  method ExampleEndsWithAb() returns (dfa: Dfa)
    ensures fresh(dfa)
    ensures dfa.Definition() == Components()
    ensures dfa.current == Some(Q0)
  {
    dfa := new Dfa({Q0, Q1, Q2}, {A, B}, Table(), Some(Q0), {Q2}, true);
    BuildIsComponents();
  }

  predicate EndsInAb(w: seq<Symbol>)
  {
    |w| >= 2 && w[|w| - 2] == A && w[|w| - 1] == B
  }

  /** The state that remembers how much of "ab" the input has just seen. */
  function Memory(w: seq<Symbol>): State
  {
    if EndsInAb(w) then Q2
    else if |w| >= 1 && w[|w| - 1] == A then Q1
    else Q0
  }

  lemma {:induction false} FoldIsMemory(w: seq<Symbol>)
    requires forall i :: 0 <= i < |w| ==> w[i] in {A, B}
    ensures Fold(Table(), Some(Q0), w) == Some(Memory(w))
    decreases |w|
  {
    if w != [] {
      var w' := w[..|w| - 1];
      FoldIsMemory(w');
      if |w| >= 2 {
        assert w'[|w'| - 1] == w[|w| - 2];
      }
    }
  }

  /** Over {a, b} the automaton accepts exactly the inputs ending in "ab"; any other symbol is invalid. */
  lemma AcceptsExactlyEndsInAb(w: seq<Symbol>)
    ensures Acceptance(Components(), w)
         == if exists i :: 0 <= i < |w| && w[i] !in {A, B} then Undefined
            else if EndsInAb(w) then Accepted
            else Rejected
  {
    if forall i :: 0 <= i < |w| ==> w[i] in {A, B} {
      FoldIsMemory(w);
    }
  }

  lemma SampleInputs()
    ensures Acceptance(Components(), [A, B]) == Accepted
    ensures Acceptance(Components(), [A, A, B]) == Accepted
    ensures Acceptance(Components(), [A, B, A]) == Rejected
    ensures Acceptance(Components(), [B]) == Rejected
    ensures Acceptance(Components(), []) == Rejected
    ensures Acceptance(Components(), [A, "c"]) == Undefined
  {
    AcceptsExactlyEndsInAb([A, B]);
    AcceptsExactlyEndsInAb([A, A, B]);
    AcceptsExactlyEndsInAb([A, B, A]);
    AcceptsExactlyEndsInAb([B]);
    AcceptsExactlyEndsInAb([A, "c"]);
    assert [A, "c"][1] !in {A, B};
  }

}
