/** Finite runs of a transition relation. */
module Runs {
  /** The events lead from s to t. */
  ghost predicate Leads<S(!new), E>(next: (S, E, S) -> bool, s: S, events: seq<E>, t: S)
    decreases |events|
  {
    if events == [] then s == t
    else
      var before, last := events[..|events| - 1], events[|events| - 1];
      exists mid :: Leads(next, s, before, mid) && next(mid, last, t)
  }

  lemma LeadsOn<S(!new), E>(next: (S, E, S) -> bool, s: S, events: seq<E>, t: S, e: E, u: S)
    requires Leads(next, s, events, t) && next(t, e, u)
    ensures Leads(next, s, events + [e], u)
  {
    var all := events + [e];
    assert all[..|all| - 1] == events && all[|all| - 1] == e;
    assert Leads(next, s, all[..|all| - 1], t);
  }

  /** The states on the way. */
  lemma {:induction false} StatesOnTheWay<S(!new), E>(next: (S, E, S) -> bool, s: S, events: seq<E>, t: S)
    returns (run: seq<S>)
    requires Leads(next, s, events, t)
    ensures |run| == |events| + 1 && run[0] == s && run[|events|] == t
    ensures forall i | 0 <= i < |events| :: next(run[i], events[i], run[i + 1])
    decreases |events|
  {
    if events == [] {
      run := [s];
    } else {
      var n := |events| - 1;
      var mid :| Leads(next, s, events[..n], mid) && next(mid, events[n], t);
      var before := StatesOnTheWay(next, s, events[..n], mid);
      run := before + [t];
      forall i | 0 <= i < |events|
        ensures next(run[i], events[i], run[i + 1])
      {
        if i < n {
          assert run[i] == before[i] && run[i + 1] == before[i + 1] && events[..n][i] == events[i];
        }
      }
    }
  }
}
