/** Runs of a machine that takes one enabled step after another. */
module Runs {

  datatype Machine<!S, !A> = Machine(enabled: (S, A) -> bool, step: (S, A) -> S)

  /** `t` comes after the steps `actions` from `s`. */
  ghost predicate Leads<S, A>(m: Machine<S, A>, s: S, actions: seq<A>, t: S)
    decreases |actions|
  {
    if actions == [] then s == t
    else m.enabled(s, actions[0]) && Leads(m, m.step(s, actions[0]), actions[1..], t)
  }

  lemma {:induction false} OneMore<S, A>(m: Machine<S, A>, s: S, actions: seq<A>, t: S, a: A)
    requires Leads(m, s, actions, t) && m.enabled(t, a)
    ensures Leads(m, s, actions + [a], m.step(t, a))
    decreases |actions|
  {
    if actions != [] {
      OneMore(m, m.step(s, actions[0]), actions[1..], t, a);
      assert (actions + [a])[1..] == actions[1..] + [a];
    } else {
      assert (actions + [a])[1..] == [];
    }
  }

  /** What every enabled step keeps, every run keeps. */
  lemma {:induction false} RunKeeps<S(!new), A(!new)>(m: Machine<S, A>, inv: S -> bool, s: S, actions: seq<A>, t: S)
    requires forall s, a :: inv(s) && m.enabled(s, a) ==> inv(m.step(s, a))
    requires inv(s) && Leads(m, s, actions, t)
    ensures inv(t)
    decreases |actions|
  {
    if actions != [] {
      RunKeeps(m, inv, m.step(s, actions[0]), actions[1..], t);
    }
  }

  /** What holds of the steps taken so far and the state, and is kept when a step is
      taken and told, holds of every run. */
  lemma {:induction false} RunTells<S(!new), A(!new)>(m: Machine<S, A>, told: (seq<A>, S) -> bool,
                                                      past: seq<A>, s: S, actions: seq<A>, t: S)
    requires forall h, s, a :: told(h, s) && m.enabled(s, a) ==> told(h + [a], m.step(s, a))
    requires told(past, s) && Leads(m, s, actions, t)
    ensures told(past + actions, t)
    decreases |actions|
  {
    if actions == [] {
      assert past + actions == past;
    } else {
      RunTells(m, told, past + [actions[0]], m.step(s, actions[0]), actions[1..], t);
      assert past + [actions[0]] + actions[1..] == past + actions;
    }
  }
}
