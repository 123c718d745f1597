/** Runs of a state machine. A schedule is any finite sequence of actions; a machine's `Step`
    is total and leaves the state alone when the action is not enabled (a blocked lock request,
    a call that has already ended), so quantifying over schedules quantifies over every
    interleaving. */
module Runs {
  ghost function Run<S, A>(step: (S, A) -> S, s: S, acts: seq<A>): S
    decreases |acts|
  {
    if acts == [] then s else Run(step, step(s, acts[0]), acts[1..])
  }

  /** What every step keeps holds in every state a run reaches. */
  lemma {:induction false} Invariant<S(!new), A(!new)>(step: (S, A) -> S, inv: S -> bool, s: S, acts: seq<A>)
    requires inv(s)
    requires forall t, a :: inv(t) ==> inv(step(t, a))
    ensures inv(Run(step, s, acts))
    decreases |acts|
  {
    if acts != [] {
      Invariant(step, inv, step(s, acts[0]), acts[1..]);
    }
  }

  /** What every allowed step keeps holds in every state a run of allowed actions reaches. */
  lemma {:induction false} InvariantUnder<S(!new), A(!new)>(step: (S, A) -> S, inv: S -> bool, allowed: A -> bool, s: S, acts: seq<A>)
    requires inv(s)
    requires forall a :: a in acts ==> allowed(a)
    requires forall t, a :: inv(t) && allowed(a) ==> inv(step(t, a))
    ensures inv(Run(step, s, acts))
    decreases |acts|
  {
    if acts != [] {
      InvariantUnder(step, inv, allowed, step(s, acts[0]), acts[1..]);
    }
  }

  /** Running two schedules one after the other is running their concatenation. */
  lemma {:induction false} Concat<S, A>(step: (S, A) -> S, s: S, a: seq<A>, b: seq<A>)
    ensures Run(step, s, a + b) == Run(step, Run(step, s, a), b)
    decreases |a|
  {
    if a == [] {
      assert a + b == b;
    } else {
      assert (a + b)[1..] == a[1..] + b;
      Concat(step, step(s, a[0]), a[1..], b);
    }
  }

  lemma RunOne<S, A>(step: (S, A) -> S, s: S, a: A)
    ensures Run(step, s, [a]) == step(s, a)
  {
    assert [a][1..] == [];
    assert Run(step, s, [a]) == Run(step, step(s, a), []);
  }

  lemma RunLast<S, A>(step: (S, A) -> S, s: S, acts: seq<A>, a: A)
    ensures Run(step, s, acts + [a]) == step(Run(step, s, acts), a)
  {
    Concat(step, s, acts, [a]);
    RunOne(step, Run(step, s, acts), a);
  }

  lemma RunTwo<S, A>(step: (S, A) -> S, s: S, a: A, b: A)
    ensures Run(step, s, [a, b]) == step(step(s, a), b)
  {
    assert [a, b][1..] == [b];
    RunOne(step, step(s, a), b);
  }

  lemma RunThree<S, A>(step: (S, A) -> S, s: S, a: A, b: A, c: A)
    ensures Run(step, s, [a, b, c]) == step(step(step(s, a), b), c)
  {
    assert [a, b, c][1..] == [b, c];
    RunTwo(step, step(s, a), b, c);
  }

  lemma RunFour<S, A>(step: (S, A) -> S, s: S, a: A, b: A, c: A, d: A)
    ensures Run(step, s, [a, b, c, d]) == step(step(step(step(s, a), b), c), d)
  {
    assert [a, b, c, d][1..] == [b, c, d];
    RunThree(step, step(s, a), b, c, d);
  }
}
