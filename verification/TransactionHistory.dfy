/** What EXEC and its companions reply, told from the events alone: who opened a transaction,
  * what was watched since when, and which writes came in between. */
module TransactionHistories {
  import opened Options
  import opened Transactions

  const NOBODY := Reference(map[], map[])

  // ---------- read off the events ----------

  /** The event ends a transaction of the client, whatever it replies. */
  ghost predicate Ends(e: Event, id: int)
  {
    e == Exec(id) || e == Discard(id) || e == Disconnect(id)
  }

  ghost predicate EndedBetween(events: seq<Event>, id: int, m: nat, t: nat)
  {
    exists x :: m < x < t && x < |events| && Ends(events[x], id)
  }

  /** The client sent MULTI at `m` and nothing before `t` has ended the transaction. */
  ghost predicate MultiSince(events: seq<Event>, id: int, m: nat, t: nat)
  {
    m < t && m < |events| && events[m] == Multi(id) && !EndedBetween(events, id, m, t)
  }

  ghost predicate InMulti(events: seq<Event>, id: int, t: nat)
  {
    exists m: nat :: MultiSince(events, id, m, t)
  }

  /** The MULTI that opened the transaction, as opposed to the nested ones. */
  ghost predicate Opened(events: seq<Event>, id: int, m: nat, t: nat)
  {
    MultiSince(events, id, m, t) && !InMulti(events, id, m)
  }

  /** The event makes the client forget its watches: UNWATCH, a disconnect, or an EXEC in MULTI. */
  ghost predicate Forgets(events: seq<Event>, id: int, x: nat)
  {
    x < |events| &&
    (events[x] == Unwatch(id) || events[x] == Disconnect(id) || (events[x] == Exec(id) && InMulti(events, id, x)))
  }

  ghost predicate ForgottenBetween(events: seq<Event>, id: int, w: nat, t: nat)
  {
    exists x :: w < x < t && Forgets(events, id, x)
  }

  ghost predicate Watches(events: seq<Event>, id: int, k: string, w: nat)
  {
    w < |events| && events[w].Watch? && events[w].id == id && k in events[w].keys && !InMulti(events, id, w)
  }

  /** The client watched the key at `w` and has not forgotten it since. */
  ghost predicate WatchedSince(events: seq<Event>, id: int, k: string, w: nat, t: nat)
  {
    w < t && Watches(events, id, k, w) && !ForgottenBetween(events, id, w, t)
  }

  /** The event wrote the key: from elsewhere, by a command that ran, or by an executed queue. */
  ghost predicate Wrote(e: Event, reply: Reply, k: string)
  {
    || (e.Touch? && k in e.keys)
    || (reply.Ran? && k in WriteKeys(reply.command))
    || (reply.Executed? && exists i :: 0 <= i < |reply.commands| && k in WriteKeys(reply.commands[i]))
  }

  ghost predicate WrittenBetween(events: seq<Event>, replies: seq<Reply>, k: string, w: nat, t: nat)
  {
    exists u :: w < u < t && u < |events| && u < |replies| && Wrote(events[u], replies[u], k)
  }

  /** A key was written after the client watched it, and it still watches it. */
  ghost predicate Spoiled(events: seq<Event>, replies: seq<Reply>, id: int, k: string, t: nat)
  {
    exists w: nat :: WatchedSince(events, id, k, w, t) && WrittenBetween(events, replies, k, w, t)
  }

  /** The commands the client sent from `a` to `b`, those that may be queued. */
  ghost function Sent(events: seq<Event>, id: int, a: nat, b: nat): seq<Queued>
    requires b <= |events|
    decreases b
  {
    if b <= a then []
    else
      var e := events[b - 1];
      Sent(events, id, a, b - 1) + if e.Issue? && e.id == id && !Blocking(e.command) then [e.command] else []
  }

  // ---------- the same, one event after the other ----------

  ghost function OpenSince(events: seq<Event>, id: int, t: nat): Option<nat>
    requires t <= |events|
  {
    if t == 0 || Ends(events[t - 1], id) then None
    else if events[t - 1] == Multi(id) && OpenSince(events, id, t - 1).None? then Some(t - 1)
    else OpenSince(events, id, t - 1)
  }

  lemma EndedLater(events: seq<Event>, id: int, m: nat, t: nat)
    requires m <= t < |events|
    ensures EndedBetween(events, id, m, t + 1) <==> EndedBetween(events, id, m, t) || (m < t && Ends(events[t], id))
  {
    if m < t && Ends(events[t], id) { assert m < t < t + 1; }
  }

  lemma MultiLater(events: seq<Event>, id: int, m: nat, t: nat)
    requires t < |events|
    ensures MultiSince(events, id, m, t + 1) <==>
            (MultiSince(events, id, m, t) && !Ends(events[t], id)) || (m == t && events[t] == Multi(id))
  {
    hide EndedBetween;
    if m <= t {
      EndedLater(events, id, m, t);
      if m == t { NoneEnded(events, id, t); }
    }
  }

  lemma NoneEnded(events: seq<Event>, id: int, t: nat)
    ensures !EndedBetween(events, id, t, t)
  {
  }

  lemma {:induction false} OpenExactly(events: seq<Event>, id: int, t: nat)
    requires t <= |events|
    ensures OpenSince(events, id, t).Some? <==> InMulti(events, id, t)
    ensures OpenSince(events, id, t).Some? ==> Opened(events, id, OpenSince(events, id, t).value, t)
  {
    hide MultiSince;
    if t == 0 {
      forall m: nat ensures !MultiSince(events, id, m, 0) { NoMulti(events, id, m); }
    } else {
      OpenExactly(events, id, t - 1);
      MultiLater(events, id, t - 1, t - 1);
      if OpenSince(events, id, t - 1).Some? { MultiLater(events, id, OpenSince(events, id, t - 1).value, t - 1); }
      forall m: nat | MultiSince(events, id, m, t)
        ensures !Ends(events[t - 1], id) && (MultiSince(events, id, m, t - 1) || events[t - 1] == Multi(id))
      {
        MultiLater(events, id, m, t - 1);
      }
    }
  }

  lemma NoMulti(events: seq<Event>, id: int, m: nat)
    ensures !MultiSince(events, id, m, 0)
  {
  }

  ghost function HeldSince(events: seq<Event>, id: int, k: string, t: nat): Option<nat>
    requires t <= |events|
  {
    if t == 0 || Forgets(events, id, t - 1) then None
    else if Watches(events, id, k, t - 1) && HeldSince(events, id, k, t - 1).None? then Some(t - 1)
    else HeldSince(events, id, k, t - 1)
  }

  lemma ForgottenLater(events: seq<Event>, id: int, w: nat, t: nat)
    requires w <= t < |events|
    ensures ForgottenBetween(events, id, w, t + 1) <==>
            ForgottenBetween(events, id, w, t) || (w < t && Forgets(events, id, t))
  {
    hide Forgets;
    if w < t && Forgets(events, id, t) { assert w < t < t + 1; }
  }

  lemma WatchedLater(events: seq<Event>, id: int, k: string, w: nat, t: nat)
    requires t < |events|
    ensures WatchedSince(events, id, k, w, t + 1) <==>
            (WatchedSince(events, id, k, w, t) && !Forgets(events, id, t)) || (w == t && Watches(events, id, k, t))
  {
    hide ForgottenBetween, Watches, Forgets;
    if w <= t {
      ForgottenLater(events, id, w, t);
      if w == t { NoneForgotten(events, id, t); }
    }
  }

  lemma NoneForgotten(events: seq<Event>, id: int, t: nat)
    ensures !ForgottenBetween(events, id, t, t)
  {
  }

  /** The first watch that still holds: all others that hold came later. */
  lemma {:induction false} HeldExactly(events: seq<Event>, id: int, k: string, t: nat, w: nat)
    requires t <= |events|
    ensures HeldSince(events, id, k, t).Some? ==> WatchedSince(events, id, k, HeldSince(events, id, k, t).value, t)
    ensures WatchedSince(events, id, k, w, t) ==>
              HeldSince(events, id, k, t).Some? && HeldSince(events, id, k, t).value <= w
  {
    hide WatchedSince, Watches, Forgets;
    if t == 0 {
      NotWatched(events, id, k, w);
    } else {
      HeldExactly(events, id, k, t - 1, w);
      WatchedLater(events, id, k, w, t - 1);
      WatchedLater(events, id, k, t - 1, t - 1);
      if HeldSince(events, id, k, t - 1).Some? {
        WatchedLater(events, id, k, HeldSince(events, id, k, t - 1).value, t - 1);
        WatchedBefore(events, id, k, HeldSince(events, id, k, t - 1).value, t - 1);
      }
      WatchedBefore(events, id, k, w, t - 1);
      ForgetsOrWatches(events, id, k, t - 1);
    }
  }

  lemma NotWatched(events: seq<Event>, id: int, k: string, w: nat)
    ensures !WatchedSince(events, id, k, w, 0)
  {
  }

  lemma WatchedBefore(events: seq<Event>, id: int, k: string, w: nat, t: nat)
    ensures WatchedSince(events, id, k, w, t) ==> w < t
  {
  }

  lemma ForgetsOrWatches(events: seq<Event>, id: int, k: string, t: nat)
    ensures !(Forgets(events, id, t) && Watches(events, id, k, t))
  {
  }

  lemma SpoiledExactly(events: seq<Event>, replies: seq<Reply>, id: int, k: string, t: nat)
    requires t <= |events|
    ensures Spoiled(events, replies, id, k, t) <==>
            var w := HeldSince(events, id, k, t);
            w.Some? && WrittenBetween(events, replies, k, w.value, t)
  {
    hide WatchedSince, HeldSince;
    forall w: nat ensures WatchedSince(events, id, k, w, t) ==>
                            HeldSince(events, id, k, t).Some? && HeldSince(events, id, k, t).value <= w
    {
      HeldExactly(events, id, k, t, w);
    }
    HeldExactly(events, id, k, t, 0);
  }

  // ---------- what one step does ----------

  lemma {:induction false} WrittenMeans(r: Reference, keys: seq<string>, k: string)
    ensures Written(r, keys).clients == r.clients
    ensures Version(Written(r, keys).versions, k) >= Version(r.versions, k)
    ensures Version(Written(r, keys).versions, k) > Version(r.versions, k) <==> k in keys
  {
    if keys != [] {
      WrittenMeans(r, keys[..|keys| - 1], k);
      assert keys == keys[..|keys| - 1] + [keys[|keys| - 1]];
    }
  }

  ghost predicate QueueWrites(queue: seq<Queued>, k: string)
  {
    exists i :: 0 <= i < |queue| && k in WriteKeys(queue[i])
  }

  lemma {:induction false} WrittenByMeans(r: Reference, queue: seq<Queued>, k: string)
    ensures WrittenBy(r, queue).clients == r.clients
    ensures Version(WrittenBy(r, queue).versions, k) >= Version(r.versions, k)
    ensures Version(WrittenBy(r, queue).versions, k) > Version(r.versions, k) <==> QueueWrites(queue, k)
  {
    hide WriteKeys, Written, Version;
    if queue != [] {
      var n := |queue| - 1;
      WrittenByMeans(r, queue[..n], k);
      WrittenMeans(WrittenBy(r, queue[..n]), WriteKeys(queue[n]), k);
      assert QueueWrites(queue, k) <==> QueueWrites(queue[..n], k) || k in WriteKeys(queue[n]) by {
        if QueueWrites(queue[..n], k) {
          var i :| 0 <= i < n && k in WriteKeys(queue[..n][i]);
          assert k in WriteKeys(queue[i]);
        }
        if QueueWrites(queue, k) && k !in WriteKeys(queue[n]) {
          var i :| 0 <= i < |queue| && k in WriteKeys(queue[i]);
          assert k in WriteKeys(queue[..n][i]);
        }
      }
    }
  }

  lemma {:induction false} WatchedAllMeans(r: Reference, id: int, keys: seq<string>, k: string)
    requires id in r.clients
    ensures var s := WatchedAll(r, id, keys);
            && s.versions == r.versions && s.clients.Keys == r.clients.Keys
            && (forall j :: j in r.clients && j != id ==> s.clients[j] == r.clients[j])
            && var c, d := r.clients[id], s.clients[id];
               && d.started == c.started && d.queue == c.queue
               && (k in d.seen <==> k in c.seen || k in keys)
               && (k in d.seen ==> d.seen[k] == if k in c.seen then c.seen[k] else Version(r.versions, k))
  {
    if keys != [] {
      WatchedAllMeans(r, id, keys[..|keys| - 1], k);
      assert keys == keys[..|keys| - 1] + [keys[|keys| - 1]];
    }
  }

  /** A step moves a key's version exactly if it writes the key. */
  lemma VersionMoves(r: Reference, e: Event, k: string)
    requires Possible(r, e)
    ensures var (s, reply) := Step(r, e);
            && Version(s.versions, k) >= Version(r.versions, k)
            && (Version(s.versions, k) > Version(r.versions, k) <==> Wrote(e, reply, k))
  {
    hide WriteKeys, Written, WrittenBy, WatchedAll, Version, Changed, Blocking;
    match e
    case Exec(id) => WrittenByMeans(r, r.clients[id].queue, k);
    case Issue(id, c) => WrittenMeans(r, WriteKeys(c), k);
    case Touch(keys) => WrittenMeans(r, keys, k);
    case Watch(id, keys) => WatchedAllMeans(r, id, keys, k);
    case _ =>
  }

  /** A step leaves the clients alone that it does not concern. */
  lemma OthersStay(r: Reference, e: Event, id: int)
    requires Possible(r, e) && (e.Touch? || e.id != id)
    ensures var s := Step(r, e).0;
            (id in s.clients <==> id in r.clients) && (id in s.clients ==> s.clients[id] == r.clients[id])
  {
    hide WriteKeys, Written, WrittenBy, WatchedAll, Changed, Blocking;
    match e
    case Exec(i) => WrittenByMeans(r, r.clients[i].queue, "");
    case Issue(i, c) => WrittenMeans(r, WriteKeys(c), "");
    case Touch(keys) => WrittenMeans(r, keys, "");
    case Watch(i, keys) => WatchedAllMeans(r, i, keys, "");
    case _ =>
  }

  /** What a step makes of the client it concerns. */
  lemma OwnMoves(r: Reference, e: Event, k: string)
    requires Possible(r, e) && !e.Touch?
    ensures var (s, reply) := Step(r, e);
            var id := e.id;
            && (id in s.clients <==> !e.Disconnect?)
            && (id in s.clients && id in r.clients ==>
                  var c, d := r.clients[id], s.clients[id];
                  && (d.started <==> if c.started then !e.Exec? && !e.Discard? else e.Multi?)
                  && (c.started && d.started ==>
                        d.queue == c.queue + if e.Issue? && !Blocking(e.command) then [e.command] else [])
                  && (!c.started && d.started ==> d.queue == [])
                  && (k in d.seen <==>
                        if e.Unwatch? || (e.Exec? && c.started) then false
                        else k in c.seen || (e.Watch? && !c.started && k in e.keys))
                  && (k in d.seen ==> d.seen[k] == if k in c.seen then c.seen[k] else Version(r.versions, k)))
            && (id in s.clients && id !in r.clients ==> s.clients[id] == Client(false, [], map[]))
  {
    hide WriteKeys, Written, WrittenBy, WatchedAll, Version, Changed, Blocking;
    match e
    case Exec(id) => WrittenByMeans(r, r.clients[id].queue, k);
    case Issue(id, c) =>
      WrittenMeans(r, WriteKeys(c), k);
      assert r.clients[id].queue + [] == r.clients[id].queue;
    case Watch(id, keys) => WatchedAllMeans(r, id, keys, k);
    case Multi(id) => assert r.clients[id].queue + [] == r.clients[id].queue;
    case _ =>
  }

  // ---------- the reference agrees with the events ----------

  /** The client's transaction at time `t`. */
  ghost predicate TellsMulti(r: Reference, events: seq<Event>, id: int, t: nat)
    requires t <= |events|
  {
    var m := OpenSince(events, id, t);
    && (m.Some? <==> id in r.clients && r.clients[id].started)
    && (m.Some? ==> r.clients[id].queue == Sent(events, id, m.value + 1, t))
  }

  /** The client's watch on a key at time `t`. */
  ghost predicate TellsKey(r: Reference, events: seq<Event>, replies: seq<Reply>, id: int, k: string, t: nat)
    requires t <= |events|
  {
    var w := HeldSince(events, id, k, t);
    && (w.Some? <==> id in r.clients && k in r.clients[id].seen)
    && (w.Some? ==>
          && r.clients[id].seen[k] <= Version(r.versions, k)
          && (r.clients[id].seen[k] < Version(r.versions, k) <==> WrittenBetween(events, replies, k, w.value, t)))
  }

  lemma SentNone(events: seq<Event>, id: int, t: nat)
    requires t <= |events|
    ensures Sent(events, id, t, t) == []
  {
  }

  lemma SentLater(events: seq<Event>, id: int, a: nat, t: nat)
    requires a <= t < |events|
    ensures Sent(events, id, a, t + 1) ==
            Sent(events, id, a, t) +
            if events[t].Issue? && events[t].id == id && !Blocking(events[t].command) then [events[t].command] else []
  {
  }

  lemma OpenBefore(events: seq<Event>, id: int, t: nat)
    requires t <= |events|
    ensures OpenSince(events, id, t).Some? ==> OpenSince(events, id, t).value < t
  {
    hide MultiSince, InMulti;
    OpenExactly(events, id, t);
    if OpenSince(events, id, t).Some? { MultiBefore(events, id, OpenSince(events, id, t).value, t); }
  }

  lemma MultiBefore(events: seq<Event>, id: int, m: nat, t: nat)
    ensures MultiSince(events, id, m, t) ==> m < t
  {
  }

  lemma StepTellsMulti(r: Reference, events: seq<Event>, id: int, t: nat)
    requires t < |events| && Possible(r, events[t]) && TellsMulti(r, events, id, t)
    ensures TellsMulti(Step(r, events[t]).0, events, id, t + 1)
  {
    hide Step, Sent, Blocking;
    var e := events[t];
    OpenBefore(events, id, t);
    if OpenSince(events, id, t).Some? { SentLater(events, id, OpenSince(events, id, t).value + 1, t); }
    SentNone(events, id, t + 1);
    if e.Touch? || e.id != id {
      OthersStay(r, e, id);
    } else {
      OwnMoves(r, e, "");
    }
  }

  lemma WrittenLater(events: seq<Event>, replies: seq<Reply>, k: string, w: nat, t: nat)
    requires w <= t < |events| && t < |replies|
    ensures WrittenBetween(events, replies, k, w, t + 1) <==>
            WrittenBetween(events, replies, k, w, t) || (w < t && Wrote(events[t], replies[t], k))
  {
    hide Wrote;
    if w < t && Wrote(events[t], replies[t], k) { assert w < t < t + 1; }
  }

  lemma NoneWritten(events: seq<Event>, replies: seq<Reply>, k: string, t: nat)
    ensures !WrittenBetween(events, replies, k, t, t + 1)
  {
  }

  lemma HeldBefore(events: seq<Event>, id: int, k: string, t: nat)
    requires t <= |events|
    ensures HeldSince(events, id, k, t).Some? ==> HeldSince(events, id, k, t).value < t
  {
    hide WatchedSince;
    HeldExactly(events, id, k, t, 0);
    if HeldSince(events, id, k, t).Some? { WatchedBefore(events, id, k, HeldSince(events, id, k, t).value, t); }
  }

  lemma StepTellsKey(r: Reference, events: seq<Event>, replies: seq<Reply>, id: int, k: string, t: nat)
    requires t < |events| && t < |replies| && Possible(r, events[t]) && replies[t] == Step(r, events[t]).1
    requires TellsMulti(r, events, id, t) && TellsKey(r, events, replies, id, k, t)
    ensures TellsKey(Step(r, events[t]).0, events, replies, id, k, t + 1)
  {
    hide Step, Version, Wrote, WrittenBetween, InMulti, OpenSince;
    var e := events[t];
    VersionMoves(r, e, k);
    OpenExactly(events, id, t);
    HeldBefore(events, id, k, t);
    if HeldSince(events, id, k, t).Some? { WrittenLater(events, replies, k, HeldSince(events, id, k, t).value, t); }
    NoneWritten(events, replies, k, t);
    if e.Touch? || e.id != id {
      OthersStay(r, e, id);
    } else {
      OwnMoves(r, e, k);
    }
    WritesNothing(r, e, k);
  }

  lemma WritesNothing(r: Reference, e: Event, k: string)
    requires Possible(r, e)
    ensures e.Watch? ==> !Wrote(e, Step(r, e).1, k)
  {
  }

  // ---------- whole runs ----------

  /** A run, cut at any time. */
  lemma {:induction false} RunAt(r: Reference, events: seq<Event>, t: nat)
    requires Runnable(r, events) && t < |events|
    ensures Runnable(r, events[..t]) && Possible(Run(r, events[..t]).0, events[t]) && Runnable(r, events[..t + 1])
    ensures |Run(r, events).1| == |events| && Run(r, events).1[t] == Step(Run(r, events[..t]).0, events[t]).1
    ensures Run(r, events[..t + 1]).0 == Step(Run(r, events[..t]).0, events[t]).0
    decreases |events|
  {
    hide Step, Possible;
    RunLength(r, events);
    var next := Step(r, events[0]).0;
    if t == 0 {
      assert events[..1][1..] == [] && events[..0] == [];
    } else {
      RunAt(next, events[1..], t - 1);
      assert events[..t][1..] == events[1..][..t - 1] && events[..t + 1][1..] == events[1..][..t];
    }
  }

  lemma {:induction false} RunLength(r: Reference, events: seq<Event>)
    requires Runnable(r, events)
    ensures |Run(r, events).1| == |events|
    decreases |events|
  {
    hide Step;
    if events != [] { RunLength(Step(r, events[0]).0, events[1..]); }
  }

  lemma {:induction false} RunTells(events: seq<Event>, id: int, k: string, t: nat)
    requires Runnable(NOBODY, events) && t <= |events|
    ensures Runnable(NOBODY, events[..t])
    ensures TellsMulti(Run(NOBODY, events[..t]).0, events, id, t)
    ensures TellsKey(Run(NOBODY, events[..t]).0, events, Run(NOBODY, events).1, id, k, t)
    decreases t
  {
    hide Step, Possible, WrittenBetween;
    if t > 0 {
      RunAt(NOBODY, events, t - 1);
      RunTells(events, id, k, t - 1);
      StepTellsMulti(Run(NOBODY, events[..t - 1]).0, events, id, t - 1);
      StepTellsKey(Run(NOBODY, events[..t - 1]).0, events, Run(NOBODY, events).1, id, k, t - 1);
    }
  }

  /** EXEC in MULTI aborts if and only if some key the client still watches was written after it
    * watched it; otherwise it runs exactly what the client sent since it opened the
    * transaction, in order. Outside MULTI it is refused. */
  lemma ExecExactly(events: seq<Event>, t: nat)
    requires Runnable(NOBODY, events) && t < |events| && events[t].Exec?
    ensures |Run(NOBODY, events).1| == |events|
    ensures var id, replies := events[t].id, Run(NOBODY, events).1;
            && (!InMulti(events, id, t) <==> replies[t] == NotInMulti)
            && (InMulti(events, id, t) ==>
                  if exists k :: Spoiled(events, replies, id, k, t) then replies[t] == Aborted
                  else exists m: nat :: Opened(events, id, m, t) && replies[t] == Executed(Sent(events, id, m + 1, t)))
  {
    hide Run, OpenSince, HeldSince, Sent, Spoiled, InMulti, Opened, WrittenBetween, Version;
    var id, replies := events[t].id, Run(NOBODY, events).1;
    RunAt(NOBODY, events, t);
    var r := Run(NOBODY, events[..t]).0;
    RunTells(events, id, "", t);
    OpenExactly(events, id, t);
    forall k ensures Spoiled(events, replies, id, k, t) <==>
                     id in r.clients && k in r.clients[id].seen && Version(r.versions, k) != r.clients[id].seen[k]
    {
      RunTells(events, id, k, t);
      SpoiledExactly(events, replies, id, k, t);
    }
  }

  /** The replies of the other commands of a transaction. */
  lemma RepliesExactly(events: seq<Event>, t: nat)
    requires Runnable(NOBODY, events) && t < |events|
    ensures |Run(NOBODY, events).1| == |events|
    ensures var e, reply := events[t], Run(NOBODY, events).1[t];
            && (e.Multi? ==> reply == if InMulti(events, e.id, t) then NestedMulti else Okay)
            && (e.Discard? ==> reply == if InMulti(events, e.id, t) then Okay else NotInMulti)
            && (e.Watch? ==>
                  reply == if InMulti(events, e.id, t) then WatchInMulti else if e.keys == [] then NoKeys else Okay)
            && (e.Issue? ==>
                  reply == if !InMulti(events, e.id, t) then Ran(e.command)
                           else if e.command.name in {"BLPOP", "BRPOP", "BLMOVE", "BRPOPLPUSH"} then NotAllowed
                           else InQueue)
  {
    hide Run, OpenSince, HeldSince, Sent, InMulti, WrittenBetween, Version;
    RunAt(NOBODY, events, t);
    if !events[t].Touch? {
      RunTells(events, events[t].id, "", t);
      OpenExactly(events, events[t].id, t);
    }
  }
}
