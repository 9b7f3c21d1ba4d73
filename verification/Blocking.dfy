/** Blocked clients: one queue per key with direct removal, against one list of clients in
  * order of arrival. */
module Blockings {
  import opened Options
  import opened Sequences

  datatype Direction = Left | Right

  /** A blocking pop on some keys, or a move to a destination. */
  datatype Registration = Registration(id: int, keys: seq<string>, from: Direction, dest: string, into: Direction)

  datatype Outcome =
    | Nobody
    | NoData
    | Served(who: Registration, key: string, value: string, moved: Option<(string, Direction)>)
    | Unblocked(who: Registration)
    | Panicked

  // ---------- the reference ----------

  /** The first to wait on a key, or |w|. */
  ghost function FirstOn(w: seq<Registration>, key: string): (i: nat)
    ensures i <= |w| && (forall j :: 0 <= j < i ==> key !in w[j].keys) && (i < |w| ==> key in w[i].keys)
  {
    if w == [] || key in w[0].keys then 0
    else
      var i := FirstOn(w[1..], key);
      assert w == [w[0]] + w[1..];
      1 + i
  }

  ghost function Cut<T>(s: seq<T>, i: nat): seq<T>
    requires i < |s|
  {
    s[..i] + s[i + 1..]
  }

  /** `who` was the first of `w` on the key, and alone is missing afterwards. */
  ghost predicate FirstServed(w: seq<Registration>, key: string, i: nat, who: Registration, w': seq<Registration>)
  {
    i < |w| && w[i] == who && (forall j :: 0 <= j < i ==> key !in w[j].keys) && w' == w[..i] + w[i + 1..]
  }

  ghost function Place(w: seq<Registration>, id: int): (i: nat)
    ensures i <= |w| && (forall j :: 0 <= j < i ==> w[j].id != id) && (i < |w| ==> w[i].id == id)
  {
    if w == [] || w[0].id == id then 0
    else
      var i := Place(w[1..], id);
      assert w == [w[0]] + w[1..];
      1 + i
  }

  datatype Event =
    | Block(r: Registration)
    | Push(key: string, pop: Direction -> Option<string>)
    | Leave(id: int)   // timeout or disconnect

  ghost predicate Possible(w: seq<Registration>, e: Event)
  {
    e.Block? ==> Distinct(e.r.keys) && Place(w, e.r.id) == |w|
  }

  ghost function Move(r: Registration): Option<(string, Direction)>
  {
    if r.dest != "" then Some((r.dest, r.into)) else None
  }

  ghost function Step(w: seq<Registration>, e: Event): (seq<Registration>, Outcome)
  {
    match e
    case Block(r) => (w + [r], Nobody)
    case Push(key, pop) =>
      var i := FirstOn(w, key);
      if i == |w| then (w, Nobody)
      else
        (match pop(w[i].from)
         case None => (w, NoData)
         case Some(v) => (Cut(w, i), Served(w[i], key, v, Move(w[i]))))
    case Leave(id) =>
      var i := Place(w, id);
      if i == |w| then (w, Nobody) else (Cut(w, i), Unblocked(w[i]))
  }

  // ---------- the queues ----------

  class BlockedClient {
    const reg: Registration
    var listNodes: map<string, nat>   // key to the ticket of its queue element
    var closed: bool                  // its response channel

    constructor (reg: Registration)
      ensures this.reg == reg && listNodes == map[] && !closed
    {
      this.reg, listNodes, closed := reg, map[], false;
    }

    /** Sends the result and closes the channel, which panics on a closed one. */
    method Respond()
      requires !closed
      modifies `closed
      ensures closed
    {
      closed := true;
    }
  }

  /** A list element; the ticket stands for the element's address. */
  datatype Elem = Elem(ticket: nat, who: BlockedClient)

  type Queues = map<string, seq<Elem>>

  function At(qs: Queues, k: string): seq<Elem>
  {
    if k in qs then qs[k] else []
  }

  function TicketAt(q: seq<Elem>, t: nat): (i: nat)
    ensures i <= |q| && (forall j :: 0 <= j < i ==> q[j].ticket != t) && (i < |q| ==> q[i].ticket == t)
  {
    if q == [] || q[0].ticket == t then 0
    else
      var i := TicketAt(q[1..], t);
      assert q == [q[0]] + q[1..];
      1 + i
  }

  function Plucked(q: seq<Elem>, t: nat): seq<Elem>
  {
    var i := TicketAt(q, t);
    if i == |q| then q else q[..i] + q[i + 1..]
  }

  /** The waiting clients of a key, in order of arrival. */
  ghost function OnKey(w: seq<BlockedClient>, k: string): seq<BlockedClient>
  {
    if w == [] then []
    else OnKey(w[..|w| - 1], k) + if k in w[|w| - 1].reg.keys then [w[|w| - 1]] else []
  }

  ghost function Names(q: seq<Elem>): seq<BlockedClient>
  {
    seq(|q|, i requires 0 <= i < |q| => q[i].who)
  }

  type Nodes = map<BlockedClient, map<string, nat>>

  /** The queue holds the key's clients in order, each under the ticket it knows. */
  ghost predicate QueueOk(q: seq<Elem>, w: seq<BlockedClient>, k: string, nodes: Nodes)
  {
    && Names(q) == OnKey(w, k)
    && (forall j :: 0 <= j < |q| ==> q[j].who in nodes && k in nodes[q[j].who] && nodes[q[j].who][k] == q[j].ticket)
    && forall i, j :: 0 <= i < j < |q| ==> q[i].ticket != q[j].ticket
  }

  ghost predicate QueuesOk(qs: Queues, w: seq<BlockedClient>, nodes: Nodes)
  {
    (forall k :: k in qs ==> qs[k] != []) && forall k :: QueueOk(At(qs, k), w, k, nodes)
  }

  lemma {:induction false} OnKeyCut(w: seq<BlockedClient>, i: nat, k: string) returns (p: nat)
    requires i < |w|
    ensures k !in w[i].reg.keys ==> OnKey(Cut(w, i), k) == OnKey(w, k)
    ensures k in w[i].reg.keys ==>
              && p < |OnKey(w, k)| && OnKey(w, k)[p] == w[i]
              && OnKey(Cut(w, i), k) == Cut(OnKey(w, k), p)
  {
    hide OnKey, Cut;
    var n := |w| - 1;
    OnKeyMore(w[..n], w[n], k);
    assert w[..n] + [w[n]] == w;
    if i == n {
      CutLast(w[..n], w[n]);
      p := |OnKey(w[..n], k)|;
      if k in w[n].reg.keys { CutLast(OnKey(w[..n], k), w[n]); }
    } else {
      p := OnKeyCut(w[..n], i, k);
      CutBefore(w[..n], w[n], i);
      OnKeyMore(Cut(w[..n], i), w[n], k);
      if k in w[i].reg.keys && k in w[n].reg.keys { CutBefore(OnKey(w[..n], k), w[n], p); }
    }
  }

  lemma OnKeyMore(w: seq<BlockedClient>, x: BlockedClient, k: string)
    ensures OnKey(w + [x], k) == if k in x.reg.keys then OnKey(w, k) + [x] else OnKey(w, k)
  {
    assert (w + [x])[..|w|] == w;
    assert OnKey(w, k) + [] == OnKey(w, k);
  }

  lemma CutLast<T>(s: seq<T>, x: T)
    ensures Cut(s + [x], |s|) == s
  {
  }

  lemma CutBefore<T>(s: seq<T>, x: T, i: nat)
    requires i < |s|
    ensures Cut(s + [x], i) == Cut(s, i) + [x]
  {
  }

  /** Taking the ticket out of a key's queue takes the client out. */
  lemma QueueCut(q: seq<Elem>, w: seq<BlockedClient>, k: string, nodes: Nodes, i: nat)
    requires QueueOk(q, w, k, nodes) && i < |w| && w[i] in nodes && k in w[i].reg.keys && k in nodes[w[i]]
    ensures QueueOk(Plucked(q, nodes[w[i]][k]), Cut(w, i), k, nodes)
    ensures |Plucked(q, nodes[w[i]][k])| == |q| - 1
  {
    var p := OnKeyCut(w, i, k);
    assert q[p].who == Names(q)[p];
    var t := nodes[w[i]][k];
    assert TicketAt(q, t) == p;
    assert Names(Plucked(q, t)) == Cut(Names(q), p);
  }

  lemma QueueKept(q: seq<Elem>, w: seq<BlockedClient>, k: string, nodes: Nodes, i: nat)
    requires QueueOk(q, w, k, nodes) && i < |w| && k !in w[i].reg.keys
    ensures QueueOk(q, Cut(w, i), k, nodes)
  {
    var _ := OnKeyCut(w, i, k);
  }

  // ---------- blocking and its undoing, for any list of keys ----------

  /** Each key's queue gets an element; the client remembers the last one per key. */
  ghost function Enqueued(qs: Queues, next: nat, who: BlockedClient, keys: seq<string>): Queues
  {
    if keys == [] then qs
    else
      var n, k := |keys| - 1, keys[|keys| - 1];
      var before := Enqueued(qs, next, who, keys[..n]);
      before[k := At(before, k) + [Elem(next + n, who)]]
  }

  ghost function Slots(next: nat, keys: seq<string>): map<string, nat>
  {
    if keys == [] then map[] else Slots(next, keys[..|keys| - 1])[keys[|keys| - 1] := next + |keys| - 1]
  }

  lemma EnqueuedNone(qs: Queues, next: nat, who: BlockedClient)
    ensures Enqueued(qs, next, who, []) == qs && Slots(next, []) == map[]
  {
  }

  lemma EnqueuedMore(qs: Queues, next: nat, who: BlockedClient, keys: seq<string>, i: nat)
    requires i < |keys|
    ensures var before := Enqueued(qs, next, who, keys[..i]);
            Enqueued(qs, next, who, keys[..i + 1]) == before[keys[i] := At(before, keys[i]) + [Elem(next + i, who)]]
    ensures Slots(next, keys[..i + 1]) == Slots(next, keys[..i])[keys[i] := next + i]
  {
    assert keys[..i + 1][..i] == keys[..i];
  }

  ghost function Dequeued(qs: Queues, slots: map<string, nat>): Queues
  {
    map k | k in qs && !(k in slots && Plucked(qs[k], slots[k]) == []) ::
      if k in slots then Plucked(qs[k], slots[k]) else qs[k]
  }

  lemma AtDequeued(qs: Queues, slots: map<string, nat>, k: string)
    ensures At(Dequeued(qs, slots), k) == if k in slots then Plucked(At(qs, k), slots[k]) else At(qs, k)
  {
    hide TicketAt;
  }

  ghost predicate TicketsBelow(qs: Queues, next: nat)
  {
    forall k, j :: k in qs && 0 <= j < |qs[k]| ==> qs[k][j].ticket < next
  }

  lemma {:induction false} SlotsOf(next: nat, keys: seq<string>)
    ensures forall k :: k in Slots(next, keys) <==> k in keys
    ensures forall k :: k in keys ==> next <= Slots(next, keys)[k] < next + |keys|
  {
    if keys != [] { SlotsOf(next, keys[..|keys| - 1]); }
  }

  lemma {:induction false} EnqueuedSize(qs: Queues, next: nat, who: BlockedClient, keys: seq<string>, k: string)
    ensures |At(Enqueued(qs, next, who, keys), k)| == |At(qs, k)| + multiset(keys)[k]
  {
    if keys != [] {
      EnqueuedSize(qs, next, who, keys[..|keys| - 1], k);
      assert keys == keys[..|keys| - 1] + [keys[|keys| - 1]];
    }
  }

  lemma {:induction false} EnqueuedAt(qs: Queues, next: nat, who: BlockedClient, keys: seq<string>, k: string)
    requires Distinct(keys)
    ensures k in Slots(next, keys) <==> k in keys
    ensures At(Enqueued(qs, next, who, keys), k) ==
            At(qs, k) + if k in keys then [Elem(Slots(next, keys)[k], who)] else []
  {
    hide TicketAt, Enqueued, Slots;
    EnqueuedNone(qs, next, who);
    if keys != [] {
      var n := |keys| - 1;
      var before := keys[..n];
      EnqueuedAt(qs, next, who, before, k);
      EnqueuedMore(qs, next, who, keys, n);
      assert keys[..n + 1] == keys == before + [keys[n]];
      assert k in keys <==> k in before || k == keys[n];
      if k == keys[n] { assert k !in before; }
    }
  }

  lemma RemovedLast(q: seq<Elem>, e: Elem)
    requires forall j :: 0 <= j < |q| ==> q[j].ticket != e.ticket
    ensures Plucked(q + [e], e.ticket) == q
  {
    var r := q + [e];
    assert r[|q|] == e && forall j :: 0 <= j < |q| ==> r[j] == q[j];
    assert TicketAt(r, e.ticket) == |q|;
  }

  lemma RemovedSize(q: seq<Elem>, t: nat)
    ensures |q| - 1 <= |Plucked(q, t)| <= |q|
  {
  }

  lemma {:induction false} Repeated(keys: seq<string>) returns (k: string)
    requires !Distinct(keys)
    ensures multiset(keys)[k] >= 2
  {
    var i, j :| 0 <= i < j < |keys| && keys[i] == keys[j];
    k := keys[i];
    assert keys == keys[..j] + [keys[j]] + keys[j + 1..];
    assert keys[..j][i] == k && k in multiset(keys[..j]);
  }

  /** Removing a client undoes its blocking exactly when it named no key twice. */
  lemma UndoneExactly(qs: Queues, next: nat, who: BlockedClient, keys: seq<string>)
    requires TicketsBelow(qs, next)
    ensures (forall k :: At(Dequeued(Enqueued(qs, next, who, keys), Slots(next, keys)), k) == At(qs, k)) <==>
            Distinct(keys)
  {
    hide Dequeued, Enqueued, Slots, Plucked;
    if Distinct(keys) {
      forall k ensures At(Dequeued(Enqueued(qs, next, who, keys), Slots(next, keys)), k) == At(qs, k) {
        EnqueuedAt(qs, next, who, keys, k);
        AtDequeued(Enqueued(qs, next, who, keys), Slots(next, keys), k);
        SlotsOf(next, keys);
        if k in keys {
          RemovedLast(At(qs, k), Elem(Slots(next, keys)[k], who));
        }
      }
    } else {
      var k := Repeated(keys);
      EnqueuedSize(qs, next, who, keys, k);
      AtDequeued(Enqueued(qs, next, who, keys), Slots(next, keys), k);
      SlotsOf(next, keys);
      RemovedSize(At(Enqueued(qs, next, who, keys), k), Slots(next, keys)[k]);
    }
  }

  // ---------- the invariant moves ----------

  lemma {:induction false} OnKeyWithin(w: seq<BlockedClient>, k: string)
    ensures forall x :: x in OnKey(w, k) ==> x in w
  {
    if w != [] { OnKeyWithin(w[..|w| - 1], k); }
  }

  lemma QueuesGrow(qs: Queues, w: seq<BlockedClient>, nodes: Nodes, next: nat, who: BlockedClient)
    requires QueuesOk(qs, w, nodes) && TicketsBelow(qs, next) && Distinct(who.reg.keys) && who !in w
    ensures QueuesOk(Enqueued(qs, next, who, who.reg.keys), w + [who], nodes[who := Slots(next, who.reg.keys)])
    ensures TicketsBelow(Enqueued(qs, next, who, who.reg.keys), next + |who.reg.keys|)
  {
    hide Enqueued, Slots, QueueOk, TicketsBelow;
    var keys := who.reg.keys;
    var qs' := Enqueued(qs, next, who, keys);
    SlotsOf(next, keys);
    forall k ensures QueueOk(At(qs', k), w + [who], k, nodes[who := Slots(next, keys)]) {
      EnqueuedAt(qs, next, who, keys, k);
      BelowAt(qs, next, k);
      QueueGrows(At(qs, k), w, nodes, k, who, Slots(next, keys));
    }
    EnqueuedNonempty(qs, next, who, keys);
    forall k, j | k in qs' && 0 <= j < |qs'[k]| ensures qs'[k][j].ticket < next + |keys| {
      EnqueuedAt(qs, next, who, keys, k);
      BelowAt(qs, next, k);
    }
    BelowIf(qs', next + |keys|);
  }

  lemma BelowAt(qs: Queues, next: nat, k: string)
    requires TicketsBelow(qs, next)
    ensures forall j :: 0 <= j < |At(qs, k)| ==> At(qs, k)[j].ticket < next
  {
  }

  lemma BelowIf(qs: Queues, next: nat)
    requires forall k, j :: k in qs && 0 <= j < |qs[k]| ==> qs[k][j].ticket < next
    ensures TicketsBelow(qs, next)
  {
  }

  lemma {:induction false} EnqueuedNonempty(qs: Queues, next: nat, who: BlockedClient, keys: seq<string>)
    requires forall k :: k in qs ==> qs[k] != []
    ensures forall k :: k in Enqueued(qs, next, who, keys) ==> Enqueued(qs, next, who, keys)[k] != []
  {
    if keys != [] { EnqueuedNonempty(qs, next, who, keys[..|keys| - 1]); }
  }

  lemma QueueGrows(q: seq<Elem>, w: seq<BlockedClient>, nodes: Nodes, k: string, who: BlockedClient,
    slots: map<string, nat>)
    requires QueueOk(q, w, k, nodes) && who !in w && (k in slots <==> k in who.reg.keys)
    requires k in slots ==> forall j :: 0 <= j < |q| ==> q[j].ticket < slots[k]
    ensures QueueOk(q + if k in who.reg.keys then [Elem(slots[k], who)] else [], w + [who], k, nodes[who := slots])
  {
    if k in who.reg.keys {
      QueueTakes(q, w, nodes, k, who, slots);
    } else {
      QueueIgnores(q, w, nodes, k, who, slots);
      assert q + [] == q;
    }
  }

  lemma QueueTakes(q: seq<Elem>, w: seq<BlockedClient>, nodes: Nodes, k: string, who: BlockedClient,
    slots: map<string, nat>)
    requires QueueOk(q, w, k, nodes) && who !in w && k in slots && k in who.reg.keys
    requires forall j :: 0 <= j < |q| ==> q[j].ticket < slots[k]
    ensures QueueOk(q + [Elem(slots[k], who)], w + [who], k, nodes[who := slots])
  {
    OnKeyWithin(w, k);
    forall j | 0 <= j < |q| ensures q[j].who != who { assert Names(q)[j] in OnKey(w, k); }
    assert (w + [who])[..|w|] == w;
    assert Names(q + [Elem(slots[k], who)]) == Names(q) + [who];
  }

  lemma QueueIgnores(q: seq<Elem>, w: seq<BlockedClient>, nodes: Nodes, k: string, who: BlockedClient,
    slots: map<string, nat>)
    requires QueueOk(q, w, k, nodes) && who !in w && k !in who.reg.keys
    ensures QueueOk(q, w + [who], k, nodes[who := slots])
  {
    OnKeyWithin(w, k);
    forall j | 0 <= j < |q| ensures q[j].who != who { assert Names(q)[j] in OnKey(w, k); }
    assert (w + [who])[..|w|] == w;
  }

  ghost predicate KeysOf(m: map<string, nat>, keys: seq<string>)
  {
    forall k :: k in m <==> k in keys
  }

  lemma QueuesShrink(qs: Queues, w: seq<BlockedClient>, nodes: Nodes, i: nat)
    requires QueuesOk(qs, w, nodes) && i < |w| && w[i] in nodes && KeysOf(nodes[w[i]], w[i].reg.keys)
    ensures QueuesOk(Dequeued(qs, nodes[w[i]]), Cut(w, i), nodes)
  {
    hide Dequeued, QueueOk, Plucked;
    var qs' := Dequeued(qs, nodes[w[i]]);
    forall k ensures QueueOk(At(qs', k), Cut(w, i), k, nodes) {
      AtDequeued(qs, nodes[w[i]], k);
      if k in w[i].reg.keys {
        QueueCut(At(qs, k), w, k, nodes, i);
      } else {
        QueueKept(At(qs, k), w, k, nodes, i);
      }
    }
    DequeuedNonempty(qs, nodes[w[i]]);
  }

  lemma DequeuedNonempty(qs: Queues, slots: map<string, nat>)
    requires forall k :: k in qs ==> qs[k] != []
    ensures forall k :: k in Dequeued(qs, slots) ==> Dequeued(qs, slots)[k] != []
  {
    hide TicketAt;
  }

  lemma DequeuedBelow(qs: Queues, slots: map<string, nat>, next: nat)
    requires TicketsBelow(qs, next)
    ensures TicketsBelow(Dequeued(qs, slots), next)
  {
    hide TicketAt, Plucked;
    forall k | k in qs && k in slots
      ensures forall j :: 0 <= j < |Plucked(qs[k], slots[k])| ==> Plucked(qs[k], slots[k])[j] in qs[k]
    {
      RemovedWithin(qs[k], slots[k]);
    }
  }

  lemma RemovedWithin(q: seq<Elem>, t: nat)
    ensures forall j :: 0 <= j < |Plucked(q, t)| ==> Plucked(q, t)[j] in q
  {
    hide TicketAt;
    var i := TicketAt(q, t);
    TicketBound(q, t);
    if i < |q| {
      var r := Plucked(q, t);
      forall j | 0 <= j < |r| ensures r[j] in q { assert r[j] == if j < i then q[j] else q[j + 1]; }
    }
  }

  lemma TicketBound(q: seq<Elem>, t: nat)
    ensures TicketAt(q, t) <= |q|
  {
  }

  // ---------- queues and the reference ----------

  ghost function Regs(w: seq<BlockedClient>): seq<Registration>
  {
    seq(|w|, i requires 0 <= i < |w| => w[i].reg)
  }

  lemma RegsCut(w: seq<BlockedClient>, i: nat)
    requires i < |w|
    ensures Regs(Cut(w, i)) == Cut(Regs(w), i)
  {
  }

  /** The front of a key's queue is the first to wait on it. */
  lemma {:induction false} FrontIsFirst(w: seq<BlockedClient>, k: string)
    ensures OnKey(w, k) == [] <==> FirstOn(Regs(w), k) == |w|
    ensures OnKey(w, k) != [] ==> FirstOn(Regs(w), k) < |w| && OnKey(w, k)[0] == w[FirstOn(Regs(w), k)]
  {
    if w != [] {
      var n := |w| - 1;
      FrontIsFirst(w[..n], k);
      FirstOnSnoc(w, k);
    }
  }

  lemma FirstOnSnoc(w: seq<BlockedClient>, k: string)
    requires w != []
    ensures var n := |w| - 1;
            FirstOn(Regs(w), k) ==
              if FirstOn(Regs(w[..n]), k) < n then FirstOn(Regs(w[..n]), k)
              else if k in w[n].reg.keys then n else |w|
  {
    var n := |w| - 1;
    var a, b := Regs(w), Regs(w[..n]);
    assert forall j :: 0 <= j < n ==> a[j] == b[j];
    assert a[n] == w[n].reg;
  }

  lemma PlaceIs(w: seq<Registration>, id: int, i: nat)
    requires i <= |w| && (forall j :: 0 <= j < |w| && j != i ==> w[j].id != id) && (i < |w| ==> w[i].id == id)
    ensures Place(w, id) == i
  {
    assert Place(w, id) < |w| ==> w[Place(w, id)].id == id;
  }

  // ---------- the manager ----------

  /** The forward index holds exactly the waiting clients, one per id. */
  ghost predicate Indexed(index: map<int, BlockedClient>, w: seq<BlockedClient>)
  {
    && (forall i :: 0 <= i < |w| ==> w[i].reg.id in index && index[w[i].reg.id] == w[i])
    && (forall id :: id in index ==> index[id] in w && index[id].reg.id == id)
    && forall i, j :: 0 <= i < j < |w| ==> w[i] != w[j]
  }

  lemma IndexedGrows(index: map<int, BlockedClient>, w: seq<BlockedClient>, who: BlockedClient)
    requires Indexed(index, w) && who.reg.id !in index
    ensures Indexed(index[who.reg.id := who], w + [who]) && who !in w
  {
  }

  lemma IndexedShrinks(index: map<int, BlockedClient>, w: seq<BlockedClient>, i: nat)
    requires Indexed(index, w) && i < |w|
    ensures Indexed(index - {w[i].reg.id}, Cut(w, i)) && w[i] !in Cut(w, i)
  {
    var c := Cut(w, i);
    CutAt(w, i);
    hide Cut;
    forall id | id in index - {w[i].reg.id} ensures index[id] in c {
      var j :| 0 <= j < |w| && w[j] == index[id];
      assert c[if j < i then j else j - 1] == w[j];
    }
  }

  lemma CutAt<T>(s: seq<T>, i: nat)
    requires i < |s|
    ensures |Cut(s, i)| == |s| - 1
    ensures forall j :: 0 <= j < |s| - 1 ==> Cut(s, i)[j] == if j < i then s[j] else s[j + 1]
  {
  }

  lemma IndexedPlace(index: map<int, BlockedClient>, w: seq<BlockedClient>, id: int) returns (i: nat)
    requires Indexed(index, w)
    ensures i == Place(Regs(w), id) <= |w|
    ensures id in index <==> i < |w|
    ensures id in index ==> index[id] == w[i]
  {
    if id in index {
      i :| 0 <= i < |w| && w[i] == index[id];
    } else {
      i := |w|;
    }
    PlaceIs(Regs(w), id, i);
  }

  /** Every queued client is the one the forward index has under its id. */
  ghost predicate Consistent(qs: Queues, index: map<int, BlockedClient>)
  {
    forall k, j :: k in qs && 0 <= j < |qs[k]| ==>
      qs[k][j].who.reg.id in index && index[qs[k][j].who.reg.id] == qs[k][j].who
  }

  ghost predicate Queued(qs: Queues, who: BlockedClient)
  {
    exists k, j :: k in qs && 0 <= j < |qs[k]| && qs[k][j].who == who
  }

  lemma {:induction false} OnKeyHolds(w: seq<BlockedClient>, i: nat, k: string)
    requires i < |w| && k in w[i].reg.keys
    ensures w[i] in OnKey(w, k)
  {
    if i < |w| - 1 {
      OnKeyHolds(w[..|w| - 1], i, k);
      assert w[..|w| - 1][i] == w[i];
    }
  }

  lemma {:induction false} OnKeyNames(w: seq<BlockedClient>, k: string)
    ensures forall x :: x in OnKey(w, k) ==> x in w && k in x.reg.keys
  {
    if w != [] { OnKeyNames(w[..|w| - 1], k); }
  }

  /** A waiting client sits in some queue exactly if it named a key. */
  lemma WaitingQueued(qs: Queues, w: seq<BlockedClient>, nodes: Nodes, who: BlockedClient)
    requires QueuesOk(qs, w, nodes)
    ensures Queued(qs, who) <==> who in w && who.reg.keys != []
  {
    if Queued(qs, who) {
      var k, j :| k in qs && 0 <= j < |qs[k]| && qs[k][j].who == who;
      assert QueueOk(At(qs, k), w, k, nodes);
      assert Names(qs[k])[j] == who;
      OnKeyNames(w, k);
    }
    if who in w && who.reg.keys != [] {
      var i :| 0 <= i < |w| && w[i] == who;
      var k := who.reg.keys[0];
      OnKeyHolds(w, i, k);
      assert QueueOk(At(qs, k), w, k, nodes);
      var j :| 0 <= j < |OnKey(w, k)| && OnKey(w, k)[j] == who;
      assert Names(At(qs, k))[j] == At(qs, k)[j].who;
    }
  }

  lemma ValidConsistent(qs: Queues, w: seq<BlockedClient>, nodes: Nodes, index: map<int, BlockedClient>)
    requires QueuesOk(qs, w, nodes) && Indexed(index, w)
    ensures Consistent(qs, index)
  {
    hide QueuesOk, Indexed;
    forall k, j | k in qs && 0 <= j < |qs[k]|
      ensures qs[k][j].who.reg.id in index && index[qs[k][j].who.reg.id] == qs[k][j].who
    {
      WaitingQueued(qs, w, nodes, qs[k][j].who);
      IndexedAt(index, w, qs[k][j].who);
    }
  }

  lemma IndexedAt(index: map<int, BlockedClient>, w: seq<BlockedClient>, x: BlockedClient)
    requires Indexed(index, w)
    ensures x in w ==> x.reg.id in index && index[x.reg.id] == x
    ensures forall id :: id in index ==> index[id] in w && index[id].reg.id == id
  {
  }

  /** Enqueuing keeps all elements and adds only the new client's. */
  lemma {:induction false} EnqueuedWho(qs: Queues, next: nat, who: BlockedClient, keys: seq<string>, k: string)
    ensures var before, after := At(qs, k), At(Enqueued(qs, next, who, keys), k);
            before <= after && forall j :: |before| <= j < |after| ==> after[j].who == who
  {
    hide TicketAt;
    if keys != [] { EnqueuedWho(qs, next, who, keys[..|keys| - 1], k); }
  }

  /** After a client is entered under an id, the queues agree with the index exactly if no
    * other client of that id is left in a queue. */
  lemma EnteredConsistent(qs: Queues, index: map<int, BlockedClient>, next: nat, who: BlockedClient, keys: seq<string>)
    requires Consistent(qs, index) && !Queued(qs, who)
    requires who.reg.id in index ==> index[who.reg.id].reg.id == who.reg.id
    ensures Consistent(Enqueued(qs, next, who, keys), index[who.reg.id := who]) <==>
            (who.reg.id in index ==> !Queued(qs, index[who.reg.id]))
  {
    hide Enqueued;
    var qs': Queues := Enqueued(qs, next, who, keys);
    var index' := index[who.reg.id := who];
    if who.reg.id in index ==> !Queued(qs, index[who.reg.id]) {
      forall k, j | k in qs' && 0 <= j < |qs'[k]|
        ensures qs'[k][j].who.reg.id in index' && index'[qs'[k][j].who.reg.id] == qs'[k][j].who
      {
        EnqueuedWho(qs, next, who, keys, k);
        if j < |At(qs, k)| { assert qs'[k][j] == qs[k][j]; }
      }
    } else {
      var k, j :| k in qs && 0 <= j < |qs[k]| && qs[k][j].who == index[who.reg.id];
      EnqueuedWho(qs, next, who, keys, k);
      assert At(qs', k)[j] == qs[k][j] && k in qs';
    }
  }

  class BlockingManager {
    var queues: Queues                          // keyBlockedClients
    var clientBlocked: map<int, BlockedClient>
    var nextTicket: nat
    ghost var waiting: seq<BlockedClient>
    ghost var nodes: Nodes

    ghost predicate Remembered()
      reads `waiting, `nodes, waiting
    {
      forall i :: 0 <= i < |waiting| ==>
        waiting[i] in nodes && waiting[i].listNodes == nodes[waiting[i]] &&
          KeysOf(nodes[waiting[i]], waiting[i].reg.keys)
    }

    /** Nobody who waits was answered. */
    ghost predicate Open()
      reads `waiting, waiting
    {
      forall i :: 0 <= i < |waiting| ==> !waiting[i].closed
    }

    ghost predicate Valid()
      reads this, waiting
    {
      && Indexed(clientBlocked, waiting) && QueuesOk(queues, waiting, nodes) && TicketsBelow(queues, nextTicket)
      && Remembered() && Open()
    }

    /** The registrations still waiting, in order of arrival. */
    ghost function State(): seq<Registration>
      reads this
    {
      Regs(waiting)
    }

    constructor ()
      ensures Valid() && State() == []
    {
      queues, clientBlocked, nextTicket, waiting, nodes := map[], map[], 0, [], map[];
    }

    /** Any list of keys and any client is taken. The queues stay in order for lists without
      * repetition and clients that do not wait yet; with a client that waits, the queues and
      * the index part ways exactly if its first registration names a key. */
    method BlockClient(r: Registration) returns (who: BlockedClient)
      requires Valid()
      modifies this
      ensures fresh(who) && who.reg == r && clientBlocked == old(clientBlocked)[r.id := who]
      ensures queues == Enqueued(old(queues), old(nextTicket), who, r.keys) &&
              who.listNodes == Slots(old(nextTicket), r.keys)
      ensures TicketsBelow(old(queues), old(nextTicket))
      ensures Distinct(r.keys) && r.id !in old(clientBlocked) ==>
        Valid() && State() == old(State()) + [r] && waiting == old(waiting) + [who]
      ensures Consistent(queues, clientBlocked) <==>
        (r.id in old(clientBlocked) ==> old(clientBlocked[r.id]).reg.keys == [])
    {
      hide Indexed, QueuesOk, TicketsBelow, Enqueued, Slots, Remembered, Distinct, Consistent, Queued;
      who := new BlockedClient(r);
      ghost var index := clientBlocked;
      ValidConsistent(queues, waiting, nodes, index);
      WaitingQueued(queues, waiting, nodes, who);
      IndexedAt(index, waiting, who);
      if r.id in index {
        WaitingQueued(queues, waiting, nodes, index[r.id]);
      } else {
        IndexedGrows(index, waiting, who);
      }
      EnteredConsistent(queues, index, nextTicket, who, r.keys);
      clientBlocked := clientBlocked[r.id := who];
      Enqueue(who);
      if Distinct(r.keys) && r.id !in index {
        QueuesGrow(old(queues), waiting, nodes, old(nextTicket), who);
        SlotsOf(old(nextTicket), r.keys);
        Remember(who);
        assert State() == old(State()) + [r];
      }
    }

    method Enqueue(who: BlockedClient)
      requires who.listNodes == map[]
      modifies `queues, `nextTicket, who`listNodes
      ensures queues == Enqueued(old(queues), old(nextTicket), who, who.reg.keys)
      ensures who.listNodes == Slots(old(nextTicket), who.reg.keys) && nextTicket == old(nextTicket) + |who.reg.keys|
    {
      hide Enqueued, Slots;
      var keys := who.reg.keys;
      EnqueuedNone(queues, nextTicket, who);
      for i := 0 to |keys|
        invariant queues == Enqueued(old(queues), old(nextTicket), who, keys[..i])
        invariant who.listNodes == Slots(old(nextTicket), keys[..i]) && nextTicket == old(nextTicket) + i
      {
        var key := keys[i];
        EnqueuedMore(old(queues), old(nextTicket), who, keys, i);
        if key !in queues {
          queues := queues[key := []];
        }
        queues := queues[key := queues[key] + [Elem(nextTicket, who)]];
        who.listNodes := who.listNodes[key := nextTicket];
        nextTicket := nextTicket + 1;
      }
      assert keys[..|keys|] == keys;
    }

    ghost method Remember(who: BlockedClient)
      requires Remembered() && who !in waiting && KeysOf(who.listNodes, who.reg.keys)
      modifies `waiting, `nodes
      ensures Remembered() && waiting == old(waiting) + [who] && nodes == old(nodes)[who := who.listNodes]
    {
      waiting := waiting + [who];
      nodes := nodes[who := who.listNodes];
    }

    /** removeBlockedClientLocked, for a client that waits or is over. */
    method RemoveLocked(who: BlockedClient)
      modifies `clientBlocked, `queues, who`listNodes
      ensures clientBlocked == old(clientBlocked) - {who.reg.id} && who.listNodes == map[]
      ensures queues == Dequeued(old(queues), old(who.listNodes))
    {
      clientBlocked := clientBlocked - {who.reg.id};
      Dequeue(who.listNodes);
      who.listNodes := map[];
    }

    /** Takes a waiting client out of the index and of all its queues. */
    method RemoveBlockedClient(who: BlockedClient, ghost i: nat)
      requires Valid() && i < |waiting| && who == waiting[i]
      modifies this, who`listNodes
      ensures Valid() && waiting == Cut(old(waiting), i) && State() == Cut(old(State()), i)
      ensures clientBlocked == old(clientBlocked) - {who.reg.id}
      ensures queues == Dequeued(old(queues), old(who.listNodes))
      ensures forall w :: w in old(waiting) ==> !w.closed && (w in waiting <==> w != who)
    {
      hide Indexed, QueuesOk, TicketsBelow, Dequeued, Cut, KeysOf;
      RegsCut(waiting, i);
      IndexedShrinks(clientBlocked, waiting, i);
      CutOnce(clientBlocked, waiting, i);
      QueuesShrink(queues, waiting, nodes, i);
      DequeuedBelow(queues, who.listNodes, nextTicket);
      RemoveLocked(who);
      CutWithin(waiting, i);
      waiting := Cut(waiting, i);
    }

    /** A client waits once. */
    lemma CutOnce(index: map<int, BlockedClient>, w: seq<BlockedClient>, i: nat)
      requires Indexed(index, w) && i < |w|
      ensures forall x :: x in w ==> (x in Cut(w, i) <==> x != w[i])
    {
      forall x | x in w ensures x in Cut(w, i) <==> x != w[i] {
        var j :| 0 <= j < |w| && w[j] == x;
        if j != i {
          assert Cut(w, i)[if j < i then j else j - 1] == x;
        }
        if x in Cut(w, i) {
          var l :| 0 <= l < |Cut(w, i)| && Cut(w, i)[l] == x;
          assert Cut(w, i)[l] == w[if l < i then l else l + 1];
        }
      }
    }

    lemma CutWithin(w: seq<BlockedClient>, i: nat)
      requires i < |w|
      ensures forall j :: 0 <= j < |Cut(w, i)| ==> Cut(w, i)[j] in w
    {
      forall j | 0 <= j < |Cut(w, i)| ensures Cut(w, i)[j] in w {
        assert Cut(w, i)[j] == if j < i then w[j] else w[j + 1];
      }
    }

    method Dequeue(slots: map<string, nat>)
      modifies `queues
      ensures queues == Dequeued(old(queues), slots)
    {
      hide Dequeued;
      ghost var done: map<string, nat> := map[];
      var todo := slots.Keys;
      DequeuedNone(queues);
      while todo != {}
        invariant todo <= slots.Keys && done == (map k | k in slots && k !in todo :: slots[k])
        invariant queues == Dequeued(old(queues), done)
        decreases |todo|
      {
        var k :| k in todo;
        DequeuedMore(old(queues), done, k, slots[k]);
        if k in queues {
          queues := queues[k := Plucked(queues[k], slots[k])];
          if queues[k] == [] {
            queues := queues - {k};
          }
        }
        todo, done := todo - {k}, done[k := slots[k]];
      }
      assert done == slots;
    }

    lemma DequeuedNone(qs: Queues)
      ensures Dequeued(qs, map[]) == qs
    {
    }

    lemma DequeuedMore(qs: Queues, done: map<string, nat>, k: string, t: nat)
      requires k !in done
      ensures var before := Dequeued(qs, done);
              Dequeued(qs, done[k := t]) ==
              if k !in before then before
              else if Plucked(before[k], t) == [] then before[k := Plucked(before[k], t)] - {k}
              else before[k := Plucked(before[k], t)]
    {
      hide Plucked;
    }

    /** A push on a key serves its longest-waiting client, if there is one and the list still
      * has data; `pop` stands for the list. */
    method UnblockClientWithData(key: string, pop: Direction -> Option<string>) returns (o: Outcome)
      requires Valid()
      modifies this, waiting
      ensures Valid() && (State(), o) == Step(old(State()), Push(key, pop))
      ensures o.Nobody? <==> forall r :: r in old(State()) ==> key !in r.keys
      ensures o.Served? ==>
        && o.key == key && key in o.who.keys && pop(o.who.from) == Some(o.value)
        && (o.moved == if o.who.dest == "" then None else Some((o.who.dest, o.who.into)))
        && exists i :: FirstServed(old(State()), key, i, o.who, State())
      ensures o.NoData? ==> State() == old(State())
      ensures forall i :: 0 <= i < |waiting| ==> waiting[i] in old(waiting)
      ensures forall w :: w in old(waiting) ==> (w.closed <==> w !in waiting)
    {
      hide Indexed, TicketsBelow, Remembered, Cut, OnKey, FirstOn;
      FrontIsFirst(waiting, key);
      QueueFront(key);
      if key !in queues || |queues[key]| == 0 {
        return Nobody;
      }
      var who := queues[key][0].who;
      ghost var i := FirstOn(Regs(waiting), key);
      assert Regs(waiting)[i] == who.reg;
      var value := pop(who.reg.from);
      if value.None? {
        return NoData;
      }
      var moved := None;
      if who.reg.dest != "" {
        moved := Some((who.reg.dest, who.reg.into));
      }
      CutWithin(waiting, i);
      RemoveBlockedClient(who, i);
      who.Respond();
      ServedFirst(old(State()), key, i);
      return Served(who.reg, key, value.value, moved);
    }

    lemma ServedFirst(w: seq<Registration>, key: string, i: nat)
      requires i == FirstOn(w, key) < |w|
      ensures FirstServed(w, key, i, w[i], Cut(w, i)) && key in w[i].keys
    {
    }

    lemma QueueFront(key: string)
      requires QueuesOk(queues, waiting, nodes)
      ensures OnKey(waiting, key) == [] <==> key !in queues
      ensures key in queues ==>
                && |queues[key]| > 0 && |OnKey(waiting, key)| > 0
                && queues[key][0].who == OnKey(waiting, key)[0]
    {
      assert QueueOk(At(queues, key), waiting, key, nodes);
      if key in queues { assert Names(queues[key])[0] == queues[key][0].who; }
    }

    /** Disconnect. */
    method RemoveClient(id: int) returns (o: Outcome)
      requires Valid()
      modifies this, waiting
      ensures Valid() && (State(), o) == Step(old(State()), Leave(id))
      ensures forall i :: 0 <= i < |waiting| ==> waiting[i] in old(waiting)
      ensures forall w :: w in old(waiting) ==> (w.closed <==> w !in waiting)
    {
      hide Indexed, QueuesOk, TicketsBelow, Remembered, Cut, Place;
      ghost var i := IndexedPlace(clientBlocked, waiting, id);
      if id !in clientBlocked {
        return Nobody;
      }
      var who := clientBlocked[id];
      assert Regs(waiting)[i] == who.reg;
      CutWithin(waiting, i);
      RemoveBlockedClient(who, i);
      who.Respond();
      return Unblocked(who.reg);
    }

    /** A registration's timer. While it waits it is resolved; when the client is gone nothing
      * happens; when the client waits again, it loses that new registration from the index,
      * and it stays in the queues exactly if that one names a key. The program then panics
      * exactly if the older registration was answered. */
    method HandleTimeout(who: BlockedClient) returns (o: Outcome)
      requires Valid() && (who in waiting || who.listNodes == map[])
      modifies this, waiting, who
      ensures who.reg.id in old(clientBlocked) && old(clientBlocked[who.reg.id]) != who ==>
        && clientBlocked == old(clientBlocked) - {who.reg.id} && queues == old(queues)
        && o == (if old(who.closed) then Panicked else Unblocked(who.reg)) && who.closed
        && (Consistent(queues, clientBlocked) <==> old(clientBlocked[who.reg.id]).reg.keys == [])
      ensures (who.reg.id in old(clientBlocked) ==> old(clientBlocked[who.reg.id]) == who) ==>
        && Valid() && (State(), o) == Step(old(State()), Leave(who.reg.id))
        && (forall i :: 0 <= i < |waiting| ==> waiting[i] in old(waiting))
        && forall w :: w in old(waiting) ==> (w.closed <==> w !in waiting)
    {
      hide Indexed, QueuesOk, TicketsBelow, Remembered, Cut, Place, Consistent, Queued, Dequeued;
      ghost var i := IndexedPlace(clientBlocked, waiting, who.reg.id);
      if who.reg.id !in clientBlocked {
        return Nobody;
      }
      if clientBlocked[who.reg.id] == who {
        assert Regs(waiting)[i] == who.reg;
        CutWithin(waiting, i);
        RemoveBlockedClient(who, i);
      } else {
        ghost var other := clientBlocked[who.reg.id];
        IndexedAt(clientBlocked, waiting, who);
        ValidConsistent(queues, waiting, nodes, clientBlocked);
        WaitingQueued(queues, waiting, nodes, other);
        DroppedConsistent(queues, clientBlocked, who.reg.id);
        DequeuedNone(queues);
        RemoveLocked(who);
        if who.closed {
          return Panicked;
        }
      }
      who.Respond();
      return Unblocked(who.reg);
    }

    lemma DroppedConsistent(qs: Queues, index: map<int, BlockedClient>, id: int)
      requires Consistent(qs, index) && id in index && index[id].reg.id == id
      ensures Consistent(qs, index - {id}) <==> !Queued(qs, index[id])
    {
    }

    method Perform(e: Event) returns (o: Outcome)
      requires Valid() && Possible(State(), e)
      modifies this, waiting
      ensures Valid() && (State(), o) == Step(old(State()), e)
      ensures forall i :: 0 <= i < |waiting| ==> waiting[i] in old(waiting) || fresh(waiting[i])
    {
      hide Indexed, QueuesOk, TicketsBelow, Remembered, Cut, Place, FirstOn, Distinct, Enqueued, Slots;
      match e {
        case Block(r) =>
          ghost var i := IndexedPlace(clientBlocked, waiting, r.id);
          var _ := BlockClient(r);
          o := Nobody;
        case Push(key, pop) => o := UnblockClientWithData(key, pop);
        case Leave(id) => o := RemoveClient(id);
      }
    }

    /** Over every run the queues decide like one list in order of arrival. */
    method PerformAll(events: seq<Event>) returns (outcomes: seq<Outcome>)
      requires Valid() && Runnable(State(), events)
      modifies this, waiting
      ensures Valid() && (State(), outcomes) == Run(old(State()), events)
      ensures forall i :: 0 <= i < |waiting| ==> waiting[i] in old(waiting) || fresh(waiting[i])
      decreases |events|
    {
      hide Indexed, QueuesOk, TicketsBelow, Remembered, Step, Possible;
      if events == [] {
        return [];
      }
      var o := Perform(events[0]);
      var rest := PerformAll(events[1..]);
      return [o] + rest;
    }
  }

  // ---------- whole runs ----------

  ghost predicate Runnable(w: seq<Registration>, events: seq<Event>)
    decreases |events|
  {
    events == [] || (Possible(w, events[0]) && Runnable(Step(w, events[0]).0, events[1..]))
  }

  ghost function Run(w: seq<Registration>, events: seq<Event>): (seq<Registration>, seq<Outcome>)
    requires Runnable(w, events)
    decreases |events|
  {
    if events == [] then (w, [])
    else
      var (next, o) := Step(w, events[0]);
      var (last, os) := Run(next, events[1..]);
      (last, [o] + os)
  }

  ghost function Entering(e: Event): multiset<Registration>
  {
    if e.Block? then multiset{e.r} else multiset{}
  }

  ghost function Leaving(o: Outcome): multiset<Registration>
  {
    if o.Served? || o.Unblocked? then multiset{o.who} else multiset{}
  }

  ghost function Blocked(events: seq<Event>): multiset<Registration>
  {
    if events == [] then multiset{} else Entering(events[0]) + Blocked(events[1..])
  }

  ghost function Resolved(os: seq<Outcome>): multiset<Registration>
  {
    if os == [] then multiset{} else Leaving(os[0]) + Resolved(os[1..])
  }

  /** Every registration is resolved once or still waits: none is lost, none is answered
    * twice. */
  lemma {:induction false} EachResolvedOnce(w: seq<Registration>, events: seq<Event>)
    requires Runnable(w, events)
    ensures var (last, os) := Run(w, events);
            multiset(w) + Blocked(events) == multiset(last) + Resolved(os)
    decreases |events|
  {
    hide Step, Possible, Entering, Leaving;
    if events != [] {
      var (next, o) := Step(w, events[0]);
      var (last, os) := Run(next, events[1..]);
      StepAccounts(w, events[0]);
      EachResolvedOnce(next, events[1..]);
      assert ([o] + os)[1..] == os;
      Chain(multiset(w), Entering(events[0]), Blocked(events[1..]), multiset(next), Leaving(o), multiset(last),
        Resolved(os));
    }
  }

  lemma Chain<T>(a: multiset<T>, b: multiset<T>, c: multiset<T>, d: multiset<T>, e: multiset<T>, f: multiset<T>,
    g: multiset<T>)
    requires a + b == d + e && d + c == f + g
    ensures a + (b + c) == f + (e + g)
  {
    assert a + (b + c) == (a + b) + c;
    assert (d + e) + c == (d + c) + e;
  }

  lemma StepAccounts(w: seq<Registration>, e: Event)
    ensures var (next, o) := Step(w, e);
            multiset(w) + Entering(e) == multiset(next) + Leaving(o)
  {
    hide Cut;
    match e
    case Block(r) =>
    case Push(key, _) => if FirstOn(w, key) < |w| { CutAccounts(w, FirstOn(w, key)); }
    case Leave(id) => if Place(w, id) < |w| { CutAccounts(w, Place(w, id)); }
  }

  lemma CutAccounts(w: seq<Registration>, i: nat)
    requires i < |w|
    ensures multiset(w) == multiset(Cut(w, i)) + multiset{w[i]}
  {
    assert w == w[..i] + [w[i]] + w[i + 1..];
  }
}
