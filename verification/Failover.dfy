/** A sentinel's failover: health checks, the choice of a replica, and the phases of
  * performFailover interleaved with everything else that goes on. */
module Failovers {
  import opened Options

  datatype Addr = Addr(host: string, port: int)

  datatype Replica = Replica(down: bool, priority: int, offset: int)

  datatype Monitor = Monitor(master: Addr, down: bool, downSince: int, triggered: bool, inProgress: bool,
                             replicas: map<Addr, Replica>)

  // ---------- the choice of a replica ----------

  function Score(r: Replica): int
  {
    r.priority * 1000000 + r.offset
  }

  predicate Eligible(r: Replica)
  {
    !r.down && Score(r) >= 0
  }

  /** Priority first, then the offset, as long as offsets stay below a million. */
  lemma ScoreExactly(a: Replica, b: Replica)
    requires 0 <= a.offset < 1000000 && 0 <= b.offset < 1000000
    ensures Score(a) < Score(b) <==> a.priority < b.priority || (a.priority == b.priority && a.offset < b.offset)
  {
  }

  /** Beyond that a great offset outweighs the priority. */
  lemma OffsetOutweighs(a: Replica, b: Replica)
    requires a.priority < b.priority
    ensures Score(a) > Score(b) <==> a.offset - b.offset > (b.priority - a.priority) * 1000000
  {
  }

  /** An up replica whose score no up replica exceeds. */
  ghost predicate IsBest(replicas: map<Addr, Replica>, a: Addr)
  {
    && a in replicas && Eligible(replicas[a])
    && forall b :: b in replicas && !replicas[b].down ==> Score(replicas[b]) <= Score(replicas[a])
  }

  // ---------- one sentinel ----------

  /** The ping result enters the monitor; both edges of `down` rearm the trigger. */
  function Pinged(m: Monitor, ok: bool, now: int): Monitor
  {
    if !ok && !m.down then m.(down := true, downSince := now, triggered := false)
    else if ok && m.down then m.(down := false, triggered := false)
    else m
  }

  predicate Fires(m: Monitor, ok: bool, now: int, later: int, downAfter: int)
  {
    var p := Pinged(m, ok, now);
    p.down && later - p.downSince >= downAfter && !p.triggered
  }

  function Checked(m: Monitor, ok: bool, now: int, later: int, downAfter: int): Monitor
  {
    var p := Pinged(m, ok, now);
    if Fires(m, ok, now, later, downAfter) then p.(triggered := true, inProgress := true) else p
  }

  function Switch(m: Monitor, to: Addr): Monitor
  {
    m.(master := to, down := false)
  }

  const RETIRED := Replica(true, 0, 0)

  class Sentinel {
    const downAfter: int
    var master: Addr
    var isDown: bool
    var downSince: int
    var failoverTriggered: bool
    var failoverInProgress: bool
    var replicas: map<Addr, Replica>

    ghost function State(): Monitor
      reads this
    {
      Monitor(master, isDown, downSince, failoverTriggered, failoverInProgress, replicas)
    }

    constructor (master: Addr, downAfter: int)
      ensures State() == Monitor(master, false, 0, false, false, map[]) && this.downAfter == downAfter
    {
      this.master, this.downAfter := master, downAfter;
      isDown, downSince, failoverTriggered, failoverInProgress, replicas := false, 0, false, false, map[];
    }

    /** `started` says that a failover was launched; the ping result and the clock are inputs. */
    method CheckMasterHealth(ok: bool, now: int, later: int) returns (started: bool)
      modifies this
      ensures State() == Checked(old(State()), ok, now, later, downAfter)
      ensures started <==> Fires(old(State()), ok, now, later, downAfter) && !old(failoverInProgress)
      ensures started <==>
              && !ok && !old(failoverInProgress)
              && if old(isDown) then later - old(downSince) >= downAfter && !old(failoverTriggered)
                 else later - now >= downAfter
      ensures isDown <==> !ok
      ensures started ==> failoverInProgress
    {
      if !ok {
        if !isDown {
          isDown := true;
          downSince := now;
          failoverTriggered := false;
        }
      } else {
        if isDown {
          isDown := false;
          failoverTriggered := false;
        }
      }
      started := false;
      if isDown && later - downSince >= downAfter {
        if !failoverTriggered {
          failoverTriggered := true;
          started := TriggerFailover();
        }
      }
    }

    method TriggerFailover() returns (started: bool)
      modifies `failoverInProgress
      ensures failoverInProgress && (started <==> !old(failoverInProgress))
    {
      if failoverInProgress {
        return false;
      }
      failoverInProgress := true;
      return true;
    }

    /** Any iteration order finds a best replica, and none only if no up replica scores 0 or more. */
    method SelectBestReplica() returns (best: Option<Addr>)
      ensures best.Some? ==> IsBest(replicas, best.value)
      ensures best.None? <==> forall a :: a in replicas ==> !Eligible(replicas[a])
      ensures best.Some? ==>
        var r := replicas[best.value];
        && !r.down && r.priority * 1000000 + r.offset >= 0
        && forall a :: a in replicas && !replicas[a].down ==>
             replicas[a].priority * 1000000 + replicas[a].offset <= r.priority * 1000000 + r.offset
      ensures best.None? <==>
        forall a :: a in replicas ==> replicas[a].down || replicas[a].priority * 1000000 + replicas[a].offset < 0
    {
      var bestScore := -1;
      best := None;
      var todo := replicas.Keys;
      while todo != {}
        invariant todo <= replicas.Keys
        invariant best.Some? ==>
                    && best.value in replicas && Eligible(replicas[best.value])
                    && bestScore == Score(replicas[best.value])
        invariant best.None? ==> bestScore == -1
        invariant forall a :: a in replicas && a !in todo && !replicas[a].down ==> Score(replicas[a]) <= bestScore
        decreases |todo|
      {
        var a :| a in todo;
        todo := todo - {a};
        if !replicas[a].down {
          var score := Score(replicas[a]);
          if score > bestScore {
            bestScore := score;
            best := Some(a);
          }
        }
      }
    }

    /** A failover that nothing interrupts swaps the master with a best replica, or changes
      * neither; the vote and the promotion are inputs. */
    method PerformFailover(won: bool, promoted: bool) returns (switched: Option<Addr>)
      modifies this
      ensures !failoverInProgress && failoverTriggered == old(failoverTriggered)
      ensures switched.None? ==> master == old(master) && replicas == old(replicas) && isDown == old(isDown)
      ensures switched.Some? ==>
        && won && promoted && IsBest(old(replicas), switched.value) && master == switched.value && !isDown
        && replicas == (old(replicas) - {master})[old(master) := RETIRED]
      ensures old(master) !in old(replicas) ==>
        master !in replicas && {master} + replicas.Keys == {old(master)} + old(replicas).Keys
    {
      if !won {
        failoverInProgress := false;
        return None;
      }
      var best := SelectBestReplica();
      if best.None? || !promoted {
        failoverInProgress := false;
        return None;
      }
      var oldMaster := master;
      master := best.value;
      isDown := false;
      replicas := replicas - {master};
      replicas := replicas[oldMaster := RETIRED];
      failoverInProgress := false;
      return best;
    }
  }

  // ---------- interleaved runs ----------

  /** How far a running performFailover has come. */
  datatype Phase =
    | Voting
    | Chosen(to: Addr)
    | Promoted(to: Addr)
    | Switched(to: Addr, from: Addr)   // the master reference is updated
    | Dropped(to: Addr, from: Addr)    // the promoted replica has left the replica map

  datatype World = World(m: Monitor, running: seq<Phase>)

  datatype Step =
    | Check(ok: bool, now: int, later: int)
    | PingReplica(a: Addr, ok: bool)
    | Register(a: Addr, r: Replica)    // discovery and AddReplica
    | Abort(i: nat)                    // lost vote, no replica, or failed promotion
    | Choose(i: nat, to: Addr)
    | Promote(i: nat)
    | Take(i: nat)
    | Drop(i: nat)
    | Finish(i: nat)

  ghost predicate Enabled(w: World, step: Step)
  {
    match step
    case Check(_, _, _) => true
    case PingReplica(a, _) => a in w.m.replicas
    case Register(_, _) => true
    case Abort(i) => i < |w.running| && (w.running[i].Voting? || w.running[i].Chosen?)
    case Choose(i, to) => i < |w.running| && w.running[i].Voting? && IsBest(w.m.replicas, to)
    case Promote(i) => i < |w.running| && w.running[i].Chosen?
    case Take(i) => i < |w.running| && w.running[i].Promoted?
    case Drop(i) => i < |w.running| && w.running[i].Switched?
    case Finish(i) => i < |w.running| && w.running[i].Dropped?
  }

  ghost function Next(w: World, step: Step, downAfter: int): World
    requires Enabled(w, step)
  {
    match step
    case Check(ok, now, later) =>
      World(Checked(w.m, ok, now, later, downAfter),
            if Fires(w.m, ok, now, later, downAfter) && !w.m.inProgress then w.running + [Voting] else w.running)
    case PingReplica(a, ok) => w.(m := w.m.(replicas := w.m.replicas[a := w.m.replicas[a].(down := !ok)]))
    case Register(a, r) => w.(m := w.m.(replicas := w.m.replicas[a := r]))
    case Abort(i) => World(w.m.(inProgress := false), w.running[..i] + w.running[i + 1..])
    case Choose(i, to) => w.(running := w.running[i := Chosen(to)])
    case Promote(i) => w.(running := w.running[i := Promoted(w.running[i].to)])
    case Take(i) => World(Switch(w.m, w.running[i].to), w.running[i := Switched(w.running[i].to, w.m.master)])
    case Drop(i) =>
      var p := w.running[i];
      World(w.m.(replicas := w.m.replicas - {p.to}), w.running[i := Dropped(p.to, p.from)])
    case Finish(i) =>
      var p := w.running[i];
      World(w.m.(replicas := w.m.replicas[p.from := RETIRED], inProgress := false), w.running[..i] + w.running[i + 1..])
  }

  ghost function Run(w: World, steps: seq<Step>, downAfter: int): Option<World>
  {
    if steps == [] then Some(w)
    else
      match Run(w, steps[..|steps| - 1], downAfter)
      case None => None
      case Some(v) =>
        if Enabled(v, steps[|steps| - 1]) then Some(Next(v, steps[|steps| - 1], downAfter)) else None
  }

  ghost predicate Fresh(w: World)
  {
    w.running == [] && !w.m.inProgress && w.m.master !in w.m.replicas
  }

  /** One failover at most, and the flag tells. */
  ghost predicate OneFailover(w: World)
  {
    |w.running| <= 1 && (w.m.inProgress <==> |w.running| == 1)
  }

  /** What the running failover may count on, phase by phase. */
  ghost predicate PhaseOk(m: Monitor, p: Phase)
  {
    match p
    case Voting => true
    case Chosen(to) => to in m.replicas
    case Promoted(to) => to in m.replicas
    case Switched(to, _) => m.master == to
    case Dropped(to, _) => m.master == to
  }

  ghost predicate Inv(w: World)
  {
    OneFailover(w) && (w.running != [] ==> PhaseOk(w.m, w.running[0]))
  }

  /** The master is no replica, but for the moment between taking over and leaving the map. */
  ghost predicate MasterApart(w: World)
  {
    && (w.running == [] || !w.running[0].Switched? ==> w.m.master !in w.m.replicas)
    && (w.running != [] && (w.running[0].Switched? || w.running[0].Dropped?) ==> w.running[0].to != w.running[0].from)
  }

  /** Discovery never reports the current master as its own replica. */
  ghost predicate Sensible(w: World, step: Step)
  {
    step.Register? ==> step.a != w.m.master
  }

  lemma NextKeeps(w: World, step: Step, downAfter: int)
    requires Inv(w) && Enabled(w, step)
    ensures Inv(Next(w, step, downAfter))
    ensures MasterApart(w) && Sensible(w, step) ==> MasterApart(Next(w, step, downAfter))
  {
  }

  /** Registering an address keeps the master apart exactly when it is not the master's. */
  lemma RegisterKeeps(w: World, a: Addr, r: Replica, downAfter: int)
    requires Inv(w) && MasterApart(w) && (w.running == [] || !w.running[0].Switched?)
    ensures MasterApart(Next(w, Register(a, r), downAfter)) <==> a != w.m.master
  {
  }

  ghost function InFlight(w: World): set<Addr>
  {
    if |w.running| == 1 && (w.running[0].Switched? || w.running[0].Dropped?) then {w.running[0].from} else {}
  }

  /** Every instance the sentinel knows of. */
  ghost function Roster(w: World): set<Addr>
  {
    {w.m.master} + w.m.replicas.Keys + InFlight(w)
  }

  lemma NextConserves(w: World, step: Step, downAfter: int)
    requires Inv(w) && Enabled(w, step)
    ensures Roster(Next(w, step, downAfter)) == Roster(w) + if step.Register? then {step.a} else {}
  {
    var t := Next(w, step, downAfter);
    match step
    case Register(a, _) => assert t.m.replicas.Keys == w.m.replicas.Keys + {a};
    case PingReplica(_, _) => assert t.m.replicas.Keys == w.m.replicas.Keys;
    case Drop(_) => assert t.m.replicas.Keys == w.m.replicas.Keys - {w.m.master};
    case Finish(_) => assert t.m.replicas.Keys == w.m.replicas.Keys + InFlight(w);
    case _ => assert t.m.replicas.Keys == w.m.replicas.Keys;
  }

  // ---------- whole runs ----------

  ghost function Registered(steps: seq<Step>): set<Addr>
  {
    set i | 0 <= i < |steps| && steps[i].Register? :: steps[i].a
  }

  /** Over every run at most one failover is in progress, and no instance is lost or made up. */
  lemma {:induction false} RunConserves(w: World, steps: seq<Step>, downAfter: int)
    requires Fresh(w) && Run(w, steps, downAfter).Some?
    ensures var v := Run(w, steps, downAfter).value;
            Inv(v) && Roster(v) == Roster(w) + Registered(steps)
  {
    hide Next, Roster, Enabled;
    if steps == [] {
      assert Registered(steps) == {};
    } else {
      var n := |steps| - 1;
      RunConserves(w, steps[..n], downAfter);
      var v := Run(w, steps[..n], downAfter).value;
      NextKeeps(v, steps[n], downAfter);
      NextConserves(v, steps[n], downAfter);
      assert Registered(steps) == Registered(steps[..n]) + if steps[n].Register? then {steps[n].a} else {};
    }
  }

  /** At no time of the run does discovery report the current master. */
  ghost predicate SensibleRun(w: World, steps: seq<Step>, downAfter: int)
  {
    forall t :: 0 <= t < |steps| && Run(w, steps[..t], downAfter).Some? ==>
                  Sensible(Run(w, steps[..t], downAfter).value, steps[t])
  }

  lemma {:induction false} RunKeepsMasterApart(w: World, steps: seq<Step>, downAfter: int)
    requires Fresh(w) && Run(w, steps, downAfter).Some? && SensibleRun(w, steps, downAfter)
    ensures MasterApart(Run(w, steps, downAfter).value)
  {
    hide Next, Enabled, Sensible, Inv;
    if steps != [] {
      var n := |steps| - 1;
      forall t | 0 <= t < n && Run(w, steps[..n][..t], downAfter).Some?
        ensures Sensible(Run(w, steps[..n][..t], downAfter).value, steps[..n][t])
      {
        assert steps[..n][..t] == steps[..t];
      }
      RunKeepsMasterApart(w, steps[..n], downAfter);
      RunConserves(w, steps[..n], downAfter);
      NextKeeps(Run(w, steps[..n], downAfter).value, steps[n], downAfter);
    }
  }

  /** Whenever no failover is under way, master and replicas are all the instances there ever
    * were, the master apart from the replicas. */
  lemma SettledRun(w: World, steps: seq<Step>, downAfter: int)
    requires Fresh(w) && Run(w, steps, downAfter).Some? && SensibleRun(w, steps, downAfter)
    requires Run(w, steps, downAfter).value.running == []
    ensures var v := Run(w, steps, downAfter).value;
            && !v.m.inProgress && v.m.master !in v.m.replicas
            && {v.m.master} + v.m.replicas.Keys == {w.m.master} + w.m.replicas.Keys + Registered(steps)
  {
    hide Run, SensibleRun;
    RunKeepsMasterApart(w, steps, downAfter);
    RunConserves(w, steps, downAfter);
  }

  ghost predicate FiresAt(w: World, steps: seq<Step>, t: nat, downAfter: int)
  {
    && t < |steps| && steps[t].Check? && Run(w, steps[..t], downAfter).Some?
    && Fires(Run(w, steps[..t], downAfter).value.m, steps[t].ok, steps[t].now, steps[t].later, downAfter)
  }

  lemma StaysTriggered(w: World, step: Step, downAfter: int)
    requires Enabled(w, step) && w.m.down && w.m.triggered
    ensures Next(w, step, downAfter).m.down ==> Next(w, step, downAfter).m.triggered
    ensures step.Check? ==> !Fires(w.m, step.ok, step.now, step.later, downAfter)
  {
  }

  lemma {:induction false} TriggeredUntilUp(w: World, steps: seq<Step>, t1: nat, t2: nat, downAfter: int)
    requires t1 < t2 <= |steps| && FiresAt(w, steps, t1, downAfter) && Run(w, steps[..t2], downAfter).Some?
    requires forall t :: t1 < t <= t2 && Run(w, steps[..t], downAfter).Some? ==>
             Run(w, steps[..t], downAfter).value.m.down
    ensures Run(w, steps[..t2], downAfter).value.m.triggered
  {
    hide Next, Enabled;
    var u := t2 - 1;
    assert steps[..t2][..u] == steps[..u];
    var v := Run(w, steps[..u], downAfter).value;
    assert Run(w, steps[..t2], downAfter).value == Next(v, steps[u], downAfter);
    if u == t1 {
      FiringTriggers(v, steps[u], downAfter);
    } else {
      TriggeredUntilUp(w, steps, t1, u, downAfter);
      StaysTriggered(v, steps[u], downAfter);
    }
  }

  lemma FiringTriggers(w: World, step: Step, downAfter: int)
    requires step.Check? && Fires(w.m, step.ok, step.now, step.later, downAfter)
    ensures Next(w, step, downAfter).m.triggered
  {
  }

  /** Between two triggers the master was up at some moment: one trigger per down period. */
  lemma OneTriggerPerDownPeriod(w: World, steps: seq<Step>, t1: nat, t2: nat, downAfter: int)
    requires t1 < t2 && FiresAt(w, steps, t1, downAfter) && FiresAt(w, steps, t2, downAfter)
    ensures exists t ::
              && t1 < t <= t2 && Run(w, steps[..t], downAfter).Some?
              && !Run(w, steps[..t], downAfter).value.m.down
  {
    if forall t :: t1 < t <= t2 && Run(w, steps[..t], downAfter).Some? ==> Run(w, steps[..t], downAfter).value.m.down {
      TriggeredUntilUp(w, steps, t1, t2, downAfter);
    }
  }

  /** At time u `to` was chosen as a best replica. */
  ghost predicate ChosenAt(w: World, steps: seq<Step>, u: nat, to: Addr, downAfter: int)
  {
    && u < |steps| && steps[u].Choose? && steps[u].to == to
    && Run(w, steps[..u], downAfter).Some? && IsBest(Run(w, steps[..u], downAfter).value.m.replicas, to)
  }

  lemma FreshVoting(w: World)
    requires Fresh(w)
    ensures w.running == []
  {
  }

  /** A failover past its vote was there before, for the same replica, or chose it in this step. */
  lemma PhaseFrom(w: World, step: Step, i: nat, downAfter: int)
    requires Inv(w) && Enabled(w, step) && i < |Next(w, step, downAfter).running|
    requires !Next(w, step, downAfter).running[i].Voting?
    ensures var p := Next(w, step, downAfter).running[i];
            if step.Choose? && step.i == i then step.to == p.to && IsBest(w.m.replicas, p.to)
            else i < |w.running| && !w.running[i].Voting? && w.running[i].to == p.to
  {
  }

  lemma {:induction false} PhaseChosen(w: World, steps: seq<Step>, i: nat, downAfter: int) returns (u: nat)
    requires Fresh(w) && Run(w, steps, downAfter).Some? && i < |Run(w, steps, downAfter).value.running|
    requires !Run(w, steps, downAfter).value.running[i].Voting?
    ensures ChosenAt(w, steps, u, Run(w, steps, downAfter).value.running[i].to, downAfter)
  {
    hide Next, Enabled, IsBest, Inv, Fresh;
    var n := |steps| - 1;
    FreshVoting(w);
    var v := Run(w, steps[..n], downAfter).value;
    RunConserves(w, steps[..n], downAfter);
    PhaseFrom(v, steps[n], i, downAfter);
    if steps[n].Choose? && steps[n].i == i {
      u := n;
    } else {
      u := PhaseChosen(w, steps[..n], i, downAfter);
      assert steps[..n][..u] == steps[..u];
    }
  }

  /** The step reports the instance up. */
  ghost predicate SaysUp(step: Step, a: Addr)
  {
    step == PingReplica(a, true) || (step.Register? && step.a == a && !step.r.down)
  }

  ghost predicate SaidUpBetween(steps: seq<Step>, a: Addr, y: nat, t: nat)
  {
    exists x :: y < x < t && x < |steps| && SaysUp(steps[x], a)
  }

  lemma SaidUpLater(steps: seq<Step>, a: Addr, y: nat, t: nat)
    requires y < t < |steps|
    ensures SaidUpBetween(steps, a, y, t) || SaysUp(steps[t], a) ==> SaidUpBetween(steps, a, y, t + 1)
  {
    if SaysUp(steps[t], a) { assert y < t < t + 1; }
  }

  /** What a step can do to an up replica: leave it, or report it up. */
  lemma StaysUp(w: World, step: Step, downAfter: int, a: Addr)
    requires Enabled(w, step)
    requires a in Next(w, step, downAfter).m.replicas && !Next(w, step, downAfter).m.replicas[a].down
    ensures step != PingReplica(a, false)
    ensures (a in w.m.replicas && !w.m.replicas[a].down) || SaysUp(step, a)
  {
  }

  /** A replica that counts as up has been reported up since each failed ping. */
  lemma {:induction false} AnsweredSince(w: World, steps: seq<Step>, t: nat, downAfter: int, a: Addr, y: nat)
    requires t <= |steps| && Run(w, steps[..t], downAfter).Some?
    requires a in Run(w, steps[..t], downAfter).value.m.replicas
    requires !Run(w, steps[..t], downAfter).value.m.replicas[a].down
    requires y < t && steps[y] == PingReplica(a, false)
    ensures SaidUpBetween(steps, a, y, t)
    decreases t
  {
    hide Next, Enabled, SaysUp;
    var n := t - 1;
    assert steps[..t][..n] == steps[..n];
    var v := Run(w, steps[..n], downAfter).value;
    StaysUp(v, steps[n], downAfter, a);
    if y < n {
      SaidUpLater(steps, a, y, n);
      if !SaysUp(steps[n], a) { AnsweredSince(w, steps, n, downAfter, a, y); }
    }
  }

  /** A new master had been reported up since every failed ping before it was chosen. */
  lemma NewMasterAnswered(w: World, steps: seq<Step>, t: nat, downAfter: int, y: nat) returns (u: nat)
    requires Fresh(w) && t < |steps| && steps[t].Take? && Run(w, steps[..t + 1], downAfter).Some?
    ensures u < t && ChosenAt(w, steps, u, Run(w, steps[..t + 1], downAfter).value.m.master, downAfter)
    ensures var to := Run(w, steps[..t + 1], downAfter).value.m.master;
            y < u && steps[y] == PingReplica(to, false) ==> SaidUpBetween(steps, to, y, u)
  {
    hide Run, SaidUpBetween;
    u := NewMasterWasBest(w, steps, t, downAfter);
    var to := Run(w, steps[..t + 1], downAfter).value.m.master;
    if y < u && steps[y] == PingReplica(to, false) { AnsweredSince(w, steps, u, downAfter, to, y); }
  }

  /** A new master was a best replica when it was chosen. */
  lemma NewMasterWasBest(w: World, steps: seq<Step>, t: nat, downAfter: int) returns (u: nat)
    requires Fresh(w) && t < |steps| && steps[t].Take? && Run(w, steps[..t + 1], downAfter).Some?
    ensures u < t && ChosenAt(w, steps, u, Run(w, steps[..t + 1], downAfter).value.m.master, downAfter)
  {
    assert steps[..t + 1][..t] == steps[..t];
    var v := Run(w, steps[..t], downAfter).value;
    u := PhaseChosen(w, steps[..t], steps[t].i, downAfter);
    assert steps[..t][..u] == steps[..u];
  }
}
