/** Systems that move step by step, and their runs. */
module Steps {
  import opened Prelude

  /** Where a sequence of steps leads, if each of them is possible in its turn. */
  function Run<S, A>(next: (S, A) -> Option<S>, s: S, steps: seq<A>): Option<S>
    decreases |steps|
  {
    if steps == [] then Some(s)
    else
      var s' :- next(s, steps[0]);
      Run(next, s', steps[1..])
  }

  ghost predicate Leads<S, A(!new)>(next: (S, A) -> Option<S>, start: S, s: S) {
    exists steps: seq<A> :: Run(next, start, steps) == Some(s)
  }

  ghost predicate Kept<S(!new), A(!new)>(next: (S, A) -> Option<S>, inv: S -> bool) {
    forall s, step :: inv(s) && next(s, step).Some? ==> inv(next(s, step).value)
  }

  lemma {:induction false} RunAppend<S, A>(next: (S, A) -> Option<S>, s: S, a: seq<A>, b: seq<A>)
    requires Run(next, s, a).Some?
    ensures Run(next, s, a + b) == Run(next, Run(next, s, a).value, b)
    decreases |a|
  {
    if a == [] {
      assert a + b == b;
    } else {
      assert (a + b)[1..] == a[1..] + b;
      RunAppend(next, next(s, a[0]).value, a[1..], b);
    }
  }

  lemma RunOne<S, A>(next: (S, A) -> Option<S>, s: S, step: A)
    ensures Run(next, s, [step]) == next(s, step)
  {
  }

  /** What every step keeps, every run keeps. */
  lemma {:induction false} RunKeeps<S(!new), A(!new)>(next: (S, A) -> Option<S>, inv: S -> bool, s: S, steps: seq<A>)
    requires Kept(next, inv) && inv(s) && Run(next, s, steps).Some?
    ensures inv(Run(next, s, steps).value)
    decreases |steps|
  {
    if steps != [] {
      RunKeeps(next, inv, next(s, steps[0]).value, steps[1..]);
    }
  }

  lemma LeadsNowhere<S, A(!new)>(next: (S, A) -> Option<S>, s: S)
    ensures Leads(next, s, s)
  {
    assert Run(next, s, []) == Some(s);
  }

  lemma LeadsOn<S, A(!new)>(next: (S, A) -> Option<S>, start: S, s: S, steps: seq<A>)
    requires Leads(next, start, s) && Run(next, s, steps).Some?
    ensures Leads(next, start, Run(next, s, steps).value)
  {
    var before: seq<A> :| Run(next, start, before) == Some(s);
    RunAppend(next, start, before, steps);
  }

  lemma LeadsKept<S(!new), A(!new)>(next: (S, A) -> Option<S>, inv: S -> bool, start: S, s: S)
    requires Leads(next, start, s) && Kept(next, inv) && inv(start)
    ensures inv(s)
  {
    var steps: seq<A> :| Run(next, start, steps) == Some(s);
    RunKeeps(next, inv, start, steps);
  }
}
