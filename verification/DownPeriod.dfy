/** When a failover is triggered, told from the checks alone: their results and their clocks. */
module DownPeriods {
  import opened Options
  import opened Failovers

  ghost predicate Failed(steps: seq<Step>, t: nat)
  {
    t < |steps| && steps[t].Check? && !steps[t].ok
  }

  /** The master counts as up afterwards: it answered, or a failover put another one in its place. */
  ghost predicate Raises(step: Step)
  {
    (step.Check? && step.ok) || step.Take?
  }

  /** Something between `v` and `t` raised the master. */
  ghost predicate RaisedBetween(steps: seq<Step>, v: nat, t: nat)
  {
    exists x :: v < x < t && x < |steps| && Raises(steps[x])
  }

  /** The check at `u` failed and found the master up before it. */
  ghost predicate Begins(steps: seq<Step>, u: nat)
  {
    Failed(steps, u) && forall v :: 0 <= v < u && Failed(steps, v) ==> RaisedBetween(steps, v, u)
  }

  /** The master has been down since the check at `u`: no check before `t` found it up again. */
  ghost predicate Since(steps: seq<Step>, u: nat, t: nat)
  {
    u < t && Begins(steps, u) && !RaisedBetween(steps, u, t)
  }

  /** A check that comes late enough after the one at `u`. */
  ghost predicate Ripe(steps: seq<Step>, u: nat, x: nat, downAfter: int)
  {
    u < |steps| && steps[u].Check? && x < |steps| && steps[x].Check? && steps[x].later - steps[u].now >= downAfter
  }

  /** The check at `t` is the first to come late enough in a down period that began at `u`. */
  ghost predicate Due(steps: seq<Step>, u: nat, t: nat, downAfter: int)
  {
    && Failed(steps, t) && (u == t || Since(steps, u, t)) && Begins(steps, u) && Ripe(steps, u, t, downAfter)
    && forall x :: u <= x < t ==> !Ripe(steps, u, x, downAfter)
  }

  // ---------- the down period at a time ----------

  ghost function DownSince(steps: seq<Step>, t: nat): Option<nat>
    requires t <= |steps|
  {
    if t == 0 then None
    else if Raises(steps[t - 1]) then None
    else if DownSince(steps, t - 1).None? && Failed(steps, t - 1) then Some(t - 1)
    else DownSince(steps, t - 1)
  }

  lemma RaisedLater(steps: seq<Step>, v: nat, t: nat)
    requires v <= t < |steps|
    ensures RaisedBetween(steps, v, t + 1) <==> RaisedBetween(steps, v, t) || (v < t && Raises(steps[t]))
  {
    if v < t && Raises(steps[t]) { assert v < t < t + 1; }
  }

  lemma {:induction false} PeriodAt(steps: seq<Step>, t: nat)
    requires t <= |steps|
    ensures DownSince(steps, t).None? ==> forall v :: 0 <= v < t && Failed(steps, v) ==> RaisedBetween(steps, v, t)
    ensures DownSince(steps, t).Some? ==> Since(steps, DownSince(steps, t).value, t)
  {
    hide Raises, RaisedBetween;
    if t > 0 {
      PeriodAt(steps, t - 1);
      NotBoth(steps, t - 1);
      forall v | 0 <= v < t ensures RaisedBetween(steps, v, t) <==>
                                    RaisedBetween(steps, v, t - 1) || (v < t - 1 && Raises(steps[t - 1]))
      {
        RaisedLater(steps, v, t - 1);
      }
      NothingBetween(steps, t - 1);
    }
  }

  lemma NotBoth(steps: seq<Step>, t: nat)
    requires t < |steps|
    ensures !(Failed(steps, t) && Raises(steps[t]))
  {
  }

  lemma NothingBetween(steps: seq<Step>, t: nat)
    ensures !RaisedBetween(steps, t, t) && !RaisedBetween(steps, t, t + 1)
  {
  }

  lemma SinceOnce(steps: seq<Step>, u: nat, v: nat, t: nat)
    requires Since(steps, u, t) && Since(steps, v, t)
    ensures u == v
  {
    hide RaisedBetween;
    Outlasts(steps, u, v, t);
    Outlasts(steps, v, u, t);
  }

  lemma Outlasts(steps: seq<Step>, u: nat, v: nat, t: nat)
    ensures u < v <= t && Failed(steps, u) && Begins(steps, v) ==> RaisedBetween(steps, u, t)
  {
  }

  lemma SinceExactly(steps: seq<Step>, u: nat, t: nat)
    requires t <= |steps|
    ensures Since(steps, u, t) <==> DownSince(steps, t) == Some(u)
  {
    hide DownSince, Failed, RaisedBetween;
    PeriodAt(steps, t);
    if Since(steps, u, t) && DownSince(steps, t).Some? {
      SinceOnce(steps, u, DownSince(steps, t).value, t);
    }
  }

  // ---------- what the sentinel knows of it ----------

  ghost predicate RipeBefore(steps: seq<Step>, u: nat, t: nat, downAfter: int)
  {
    exists x :: u <= x < t && Ripe(steps, u, x, downAfter)
  }

  lemma RipeLater(steps: seq<Step>, u: nat, t: nat, downAfter: int)
    requires u <= t
    ensures RipeBefore(steps, u, t + 1, downAfter) <==>
            RipeBefore(steps, u, t, downAfter) || Ripe(steps, u, t, downAfter)
  {
  }

  /** The monitor agrees with the checks so far. */
  ghost predicate Knows(m: Monitor, steps: seq<Step>, t: nat, downAfter: int)
    requires t <= |steps|
  {
    match DownSince(steps, t)
    case None => !m.down
    case Some(u) =>
      && m.down && u < |steps| && steps[u].Check? && m.downSince == steps[u].now
      && (m.triggered <==> RipeBefore(steps, u, t, downAfter))
  }

  lemma SinceChecked(steps: seq<Step>, t: nat)
    requires t <= |steps| && DownSince(steps, t).Some?
    ensures var u := DownSince(steps, t).value; u < t && Failed(steps, u)
  {
    hide RaisedBetween;
    PeriodAt(steps, t);
  }

  lemma NextKnows(w: World, steps: seq<Step>, t: nat, downAfter: int)
    requires t < |steps| && Enabled(w, steps[t]) && Knows(w.m, steps, t, downAfter)
    ensures Knows(Next(w, steps[t], downAfter).m, steps, t + 1, downAfter)
  {
    hide RipeBefore;
    if DownSince(steps, t).Some? {
      SinceChecked(steps, t);
      RipeLater(steps, DownSince(steps, t).value, t, downAfter);
    } else {
      RipeLater(steps, t, t, downAfter);
      NothingRipe(steps, t, downAfter);
    }
  }

  lemma NothingRipe(steps: seq<Step>, t: nat, downAfter: int)
    ensures !RipeBefore(steps, t, t, downAfter)
  {
  }

  lemma {:induction false} RunKnows(w: World, steps: seq<Step>, t: nat, downAfter: int)
    requires !w.m.down && t <= |steps| && Run(w, steps[..t], downAfter).Some?
    ensures Knows(Run(w, steps[..t], downAfter).value.m, steps, t, downAfter)
  {
    hide Next, Enabled, RipeBefore;
    if t > 0 {
      assert steps[..t][..t - 1] == steps[..t - 1];
      RunKnows(w, steps, t - 1, downAfter);
      NextKnows(Run(w, steps[..t - 1], downAfter).value, steps, t - 1, downAfter);
    }
  }

  /** A check triggers a failover if and only if it failed, all checks since some failed check
    * that found the master up failed too with no change of master in between, and it is the
    * first of them that comes `downAfter` or more after that one. */
  lemma TriggersExactly(w: World, steps: seq<Step>, t: nat, downAfter: int)
    requires !w.m.down && t < |steps| && Run(w, steps[..t], downAfter).Some?
    ensures FiresAt(w, steps, t, downAfter) <==> exists u :: Due(steps, u, t, downAfter)
  {
    hide Run, Begins, RaisedBetween, RipeBefore, Due;
    RunKnows(w, steps, t, downAfter);
    var m := Run(w, steps[..t], downAfter).value.m;
    forall u: nat ensures Due(steps, u, t, downAfter) <==> DueAt(steps, u, t, downAfter) {
      DueForm(steps, u, t, downAfter);
    }
    FiresForm(w, steps, t, downAfter, m);
  }

  /** A failover starts in a step if and only if that step is a check that is due and no failover
    * is under way. */
  lemma StartsExactly(w: World, steps: seq<Step>, t: nat, downAfter: int)
    requires Fresh(w) && !w.m.down && t < |steps| && Run(w, steps[..t + 1], downAfter).Some?
    ensures Run(w, steps[..t], downAfter).Some?
    ensures var before, after := Run(w, steps[..t], downAfter).value, Run(w, steps[..t + 1], downAfter).value;
            |after.running| > |before.running| <==> before.running == [] && exists u :: Due(steps, u, t, downAfter)
  {
    hide Due, Fires, Fresh;
    assert steps[..t + 1][..t] == steps[..t];
    TriggersExactly(w, steps, t, downAfter);
    RunConserves(w, steps[..t], downAfter);
  }

  /** Due, in terms of the down period at `t`. */
  ghost predicate DueAt(steps: seq<Step>, u: nat, t: nat, downAfter: int)
    requires t < |steps|
  {
    && Failed(steps, t) && u == (if DownSince(steps, t).Some? then DownSince(steps, t).value else t)
    && Ripe(steps, u, t, downAfter) && !RipeBefore(steps, u, t, downAfter)
  }

  lemma DueForm(steps: seq<Step>, u: nat, t: nat, downAfter: int)
    requires t < |steps|
    ensures Due(steps, u, t, downAfter) <==> DueAt(steps, u, t, downAfter)
  {
    hide DownSince, RaisedBetween, Ripe;
    PeriodAt(steps, t);
    SinceExactly(steps, u, t);
    if DownSince(steps, t).Some? { Outlasts(steps, DownSince(steps, t).value, t, t); }
  }

  lemma FiresForm(w: World, steps: seq<Step>, t: nat, downAfter: int, m: Monitor)
    requires t < |steps| && Run(w, steps[..t], downAfter).Some? && m == Run(w, steps[..t], downAfter).value.m
    requires Knows(m, steps, t, downAfter)
    ensures FiresAt(w, steps, t, downAfter) <==> exists u :: DueAt(steps, u, t, downAfter)
  {
    hide Run, DownSince, RipeBefore;
    var u := if DownSince(steps, t).Some? then DownSince(steps, t).value else t;
    NothingRipe(steps, t, downAfter);
    assert FiresAt(w, steps, t, downAfter) <==> DueAt(steps, u, t, downAfter);
  }
}
