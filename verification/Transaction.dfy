/** WATCH, MULTI and EXEC: the reverse index and the dirty flag against a reference that
  * compares key versions. */
module Transactions {
  import opened Relations

  datatype Queued = Queued(name: string, args: seq<string>)

  function Evens(args: seq<string>): seq<string>
  {
    if |args| <= 1 then args else [args[0]] + Evens(args[2..])
  }

  /** The keys a command writes, as far as it is known to write any. */
  function WriteKeys(c: Queued): seq<string>
  {
    if |c.args| == 0 then []
    else if c.name in {"SET", "SETEX", "SETNX", "GETSET", "INCR", "INCRBY", "INCRBYFLOAT", "DECR", "DECRBY", "APPEND",
                       "LPUSH", "RPUSH", "LPOP", "RPOP", "LSET", "LREM", "LTRIM", "LINSERT",
                       "HSET", "HSETNX", "HDEL", "HINCRBY", "HINCRBYFLOAT", "SADD", "SREM", "SPOP", "SMOVE",
                       "SUNIONSTORE", "SINTERSTORE", "SDIFFSTORE",
                       "EXPIRE", "EXPIREAT", "PEXPIRE", "PEXPIREAT", "PERSIST"} then [c.args[0]]
    else if c.name in {"MSET", "MSETNX"} then Evens(c.args)
    else if c.name in {"RPOPLPUSH", "LMOVE", "RENAME"} then if |c.args| >= 2 then c.args[..2] else c.args[..1]
    else if c.name in {"DEL", "UNLINK"} then c.args
    else []
  }

  lemma {:induction false} EvensAt(args: seq<string>, i: nat)
    ensures |Evens(args)| == (|args| + 1) / 2
    ensures 2 * i < |args| ==> Evens(args)[i] == args[2 * i]
  {
    if |args| > 1 { EvensAt(args[2..], if i == 0 then 0 else i - 1); }
  }

  /** MSET writes every other argument, DEL all of them, and the commands that move the first two. */
  lemma ManyKeysExactly(c: Queued, k: string)
    ensures c.name in {"MSET", "MSETNX"} ==>
              (k in WriteKeys(c) <==> exists i :: 0 <= i < |c.args| && i % 2 == 0 && c.args[i] == k)
    ensures c.name in {"DEL", "UNLINK"} ==> WriteKeys(c) == c.args
    ensures c.name in {"RPOPLPUSH", "LMOVE", "RENAME"} ==>
              WriteKeys(c) == if |c.args| < 2 then c.args else [c.args[0], c.args[1]]
  {
    if c.name in {"MSET", "MSETNX"} {
      if k in WriteKeys(c) {
        var j :| 0 <= j < |WriteKeys(c)| && WriteKeys(c)[j] == k;
        EvensAt(c.args, j);
        assert 0 <= 2 * j < |c.args| && 2 * j % 2 == 0;
      }
      if i :| 0 <= i < |c.args| && i % 2 == 0 && c.args[i] == k {
        EvensAt(c.args, i / 2);
        assert Evens(c.args)[i / 2] == k;
      }
    }
  }

  /** Any other command writes its first argument or, as far as is known, nothing: so do reads,
    * FLUSHALL and the commands on sorted sets. */
  lemma OneKeyExactly(c: Queued)
    requires c.name !in {"MSET", "MSETNX", "DEL", "UNLINK", "RPOPLPUSH", "LMOVE", "RENAME"}
    ensures WriteKeys(c) == [] || (c.args != [] && WriteKeys(c) == [c.args[0]])
    ensures c.name in {"GET", "LRANGE", "ZADD", "ZREM", "FLUSHALL", "FLUSHDB"} ==> WriteKeys(c) == []
    ensures (c.name in {"SET", "SETEX", "SETNX", "GETSET", "APPEND", "INCR", "INCRBY", "INCRBYFLOAT", "DECR",
                        "DECRBY", "LPUSH", "RPUSH", "LPOP", "RPOP", "LSET", "LREM", "LTRIM", "LINSERT", "HSET",
                        "HSETNX", "HDEL", "HINCRBY", "HINCRBYFLOAT", "SADD", "SREM", "SPOP", "SMOVE", "SUNIONSTORE",
                        "SINTERSTORE", "SDIFFSTORE", "EXPIRE", "EXPIREAT", "PEXPIRE", "PEXPIREAT", "PERSIST"}) &&
            c.args != [] ==>
              WriteKeys(c) == [c.args[0]]
  {
  }

  predicate Blocking(c: Queued)
  {
    c.name in {"BLPOP", "BRPOP", "BLMOVE", "BRPOPLPUSH"}
  }

  datatype Reply =
    | Okay
    | Aborted
    | Executed(commands: seq<Queued>)
    | InQueue
    | Ran(command: Queued)
    | NestedMulti
    | NotInMulti
    | WatchInMulti
    | NoKeys
    | NotAllowed

  // ---------- the reference: versions ----------

  type Versions = map<string, nat>

  ghost function Version(vs: Versions, k: string): nat
  {
    if k in vs then vs[k] else 0
  }

  ghost function Bump(vs: Versions, k: string): Versions
  {
    vs[k := Version(vs, k) + 1]
  }

  /** A client's transaction, with the version of each watched key when it was first watched. */
  datatype Client = Client(started: bool, queue: seq<Queued>, seen: Versions)

  datatype Reference = Reference(clients: map<int, Client>, versions: Versions)

  ghost predicate Changed(c: Client, vs: Versions)
  {
    exists k :: k in c.seen && Version(vs, k) != c.seen[k]
  }

  ghost function Written(r: Reference, keys: seq<string>): Reference
  {
    if keys == [] then r
    else
      var w := Written(r, keys[..|keys| - 1]);
      w.(versions := Bump(w.versions, keys[|keys| - 1]))
  }

  ghost function WrittenBy(r: Reference, queue: seq<Queued>): Reference
  {
    if queue == [] then r
    else Written(WrittenBy(r, queue[..|queue| - 1]), WriteKeys(queue[|queue| - 1]))
  }

  ghost function Watched(r: Reference, id: int, k: string): Reference
  {
    if id !in r.clients || k in r.clients[id].seen then r
    else
      var c := r.clients[id];
      r.(clients := r.clients[id := c.(seen := c.seen[k := Version(r.versions, k)])])
  }

  ghost function WatchedAll(r: Reference, id: int, keys: seq<string>): Reference
  {
    if keys == [] then r else Watched(WatchedAll(r, id, keys[..|keys| - 1]), id, keys[|keys| - 1])
  }

  ghost function Unwatched(r: Reference, id: int): Reference
  {
    if id in r.clients then r.(clients := r.clients[id := r.clients[id].(seen := map[])]) else r
  }

  ghost function Reset(r: Reference, id: int): Reference
  {
    if id in r.clients then r.(clients := r.clients[id := r.clients[id].(started := false, queue := [])]) else r
  }

  datatype Event =
    | Connect(id: int)
    | Disconnect(id: int)
    | Multi(id: int)
    | Exec(id: int)
    | Discard(id: int)
    | Watch(id: int, keys: seq<string>)
    | Unwatch(id: int)
    | Issue(id: int, command: Queued)   // any other command
    | Touch(keys: seq<string>)          // a write that comes from elsewhere

  ghost predicate Possible(r: Reference, e: Event)
  {
    e.Connect? || e.Disconnect? || e.Touch? || e.id in r.clients
  }

  /** The reference: EXEC goes ahead unless some watched key has a new version. */
  ghost function Step(r: Reference, e: Event): (Reference, Reply)
    requires Possible(r, e)
  {
    match e
    case Connect(id) => (if id in r.clients then r else r.(clients := r.clients[id := Client(false, [], map[])]), Okay)
    case Disconnect(id) => (r.(clients := r.clients - {id}), Okay)
    case Multi(id) =>
      if r.clients[id].started then (r, NestedMulti)
      else (r.(clients := r.clients[id := r.clients[id].(started := true, queue := [])]), Okay)
    case Exec(id) =>
      var c := r.clients[id];
      if !c.started then (r, NotInMulti)
      else if Changed(c, r.versions) then (Unwatched(Reset(r, id), id), Aborted)
      else (Unwatched(Reset(WrittenBy(r, c.queue), id), id), Executed(c.queue))
    case Discard(id) => if r.clients[id].started then (Reset(r, id), Okay) else (r, NotInMulti)
    case Watch(id, keys) =>
      if r.clients[id].started then (r, WatchInMulti)
      else if keys == [] then (r, NoKeys)
      else (WatchedAll(r, id, keys), Okay)
    case Unwatch(id) => (Unwatched(r, id), Okay)
    case Issue(id, c) =>
      if r.clients[id].started && Blocking(c) then (r, NotAllowed)
      else if r.clients[id].started then
        (r.(clients := r.clients[id := r.clients[id].(queue := r.clients[id].queue + [c])]), InQueue)
      else (Written(r, WriteKeys(c)), Ran(c))
    case Touch(keys) => (Written(r, keys), Okay)
  }

  // ---------- the manager's state as a value ----------

  datatype Tx = Tx(started: bool, queue: seq<Queued>, watched: set<string>, dirty: bool)

  type View = map<int, Tx>

  ghost function Own(v: View): Relation<int, string>
  {
    map id | id in v :: v[id].watched
  }

  ghost predicate TxTracks(t: Tx, c: Client, vs: Versions)
  {
    && t.started == c.started && t.queue == c.queue && t.watched == c.seen.Keys
    && (forall k :: k in c.seen ==> c.seen[k] <= Version(vs, k))
    && (t.dirty <==> Changed(c, vs))
  }

  /** The flags say what comparing versions would say. */
  ghost predicate Tracks(v: View, r: Reference)
  {
    v.Keys == r.clients.Keys && forall id :: id in v ==> TxTracks(v[id], r.clients[id], r.versions)
  }

  ghost function Marked(v: View, ids: set<int>): View
  {
    map id | id in v :: if id in ids then v[id].(dirty := true) else v[id]
  }

  ghost function Touched(v: View, k: string): View
  {
    map id | id in v :: v[id].(dirty := v[id].dirty || k in v[id].watched)
  }

  lemma TouchTracks(v: View, r: Reference, k: string)
    requires Tracks(v, r)
    ensures Tracks(Touched(v, k), r.(versions := Bump(r.versions, k)))
  {
    var v', vs' := Touched(v, k), Bump(r.versions, k);
    forall id | id in v' ensures TxTracks(v'[id], r.clients[id], vs') {
      TxTouched(v[id], r.clients[id], r.versions, k);
    }
  }

  lemma TxTouched(t: Tx, c: Client, vs: Versions, k: string)
    requires TxTracks(t, c, vs)
    ensures TxTracks(t.(dirty := t.dirty || k in t.watched), c, Bump(vs, k))
  {
    if Changed(c, vs) {
      var j :| j in c.seen && Version(vs, j) != c.seen[j];
      assert Version(Bump(vs, k), j) != c.seen[j];
    }
    if k in c.seen { assert Version(Bump(vs, k), k) != c.seen[k]; }
    if Changed(c, Bump(vs, k)) && k !in c.seen {
      var j :| j in c.seen && Version(Bump(vs, k), j) != c.seen[j];
      assert Version(vs, j) != c.seen[j];
    }
  }

  lemma WatchTracks(v: View, r: Reference, id: int, k: string)
    requires Tracks(v, r) && id in v
    ensures Tracks(v[id := v[id].(watched := v[id].watched + {k})], Watched(r, id, k))
  {
    hide Changed, Version;
    var c, vs := r.clients[id], r.versions;
    if k in c.seen {
      assert v[id].watched + {k} == v[id].watched;
      assert v[id := v[id].(watched := v[id].watched + {k})] == v;
    } else {
      SeenNow(c, vs, k);
      assert c.seen[k := Version(vs, k)].Keys == v[id].watched + {k};
    }
  }

  /** A key just seen is unchanged. */
  lemma SeenNow(c: Client, vs: Versions, k: string)
    requires k !in c.seen
    ensures Changed(c.(seen := c.seen[k := Version(vs, k)]), vs) <==> Changed(c, vs)
  {
    var c' := c.(seen := c.seen[k := Version(vs, k)]);
    if Changed(c, vs) {
      var j :| j in c.seen && Version(vs, j) != c.seen[j];
      assert j in c'.seen && Version(vs, j) != c'.seen[j];
    }
  }

  lemma UnwatchTracks(v: View, r: Reference, id: int)
    requires Tracks(v, r) && id in v
    ensures Tracks(v[id := v[id].(watched := {}, dirty := false)], Unwatched(r, id))
  {
    assert TxTracks(v[id], r.clients[id], r.versions);
  }

  lemma ResetTracks(v: View, r: Reference, id: int, started: bool, queue: seq<Queued>)
    requires Tracks(v, r) && id in v
    ensures Tracks(v[id := v[id].(started := started, queue := queue)],
                   r.(clients := r.clients[id := r.clients[id].(started := started, queue := queue)]))
  {
    assert TxTracks(v[id], r.clients[id], r.versions);
    assert Changed(r.clients[id].(started := started, queue := queue), r.versions) <==>
           Changed(r.clients[id], r.versions);
  }

  lemma TracksAt(v: View, r: Reference, id: int)
    requires Tracks(v, r)
    ensures id in v <==> id in r.clients
    ensures id in v ==> v[id].started == r.clients[id].started && v[id].queue == r.clients[id].queue
                        && (v[id].dirty <==> Changed(r.clients[id], r.versions))
  {
  }

  /** The clients to mark for a key are the ones in its entry. */
  lemma MarkedIsTouched(v: View, kw: Relation<string, int>, k: string)
    requires Inverse(kw, Own(v))
    ensures Touched(v, k) == Marked(v, if k in kw then kw[k] else {})
  {
    var ids := if k in kw then kw[k] else {};
    var a, b := Touched(v, k), Marked(v, ids);
    forall id | id in v ensures a[id] == b[id] {
      assert Related(kw, k, id) <==> Related(Own(v), id, k);
    }
  }

  lemma SameOwn(v: View, v': View)
    requires v.Keys == v'.Keys && forall id :: id in v ==> v[id].watched == v'[id].watched
    ensures Own(v) == Own(v')
  {
    assert Own(v).Keys == Own(v').Keys;
    forall id | id in v ensures Own(v)[id] == Own(v')[id] { }
  }

  lemma OwnPut(v: View, id: int, t: Tx)
    ensures Own(v[id := t]) == Own(v)[id := t.watched]
  {
    var a, b := Own(v[id := t]), Own(v)[id := t.watched];
    assert a.Keys == b.Keys;
    forall i | i in a ensures a[i] == b[i] { }
  }

  lemma OwnWithout(v: View, id: int)
    ensures Own(v - {id}) == Own(v) - {id}
  {
    var a, b := Own(v - {id}), Own(v) - {id};
    assert a.Keys == b.Keys;
    forall i | i in a ensures a[i] == b[i] { }
  }

  /** A client that owns nothing can be entered or dropped without touching the index. */
  lemma InverseNobody(kw: Relation<string, int>, own: Relation<int, string>, id: int)
    requires Inverse(kw, own) && (id in own ==> own[id] == {})
    ensures Inverse(kw, own[id := {}]) && Inverse(kw, own - {id})
  {
    forall k, i ensures Related(kw, k, i) <==> Related(own[id := {}], i, k) {
      assert Related(kw, k, i) <==> Related(own, i, k);
    }
    forall k, i ensures Related(kw, k, i) <==> Related(own - {id}, i, k) {
      assert Related(kw, k, i) <==> Related(own, i, k);
    }
  }

  lemma InverseUnwatched(kw: Relation<string, int>, own: Relation<int, string>, id: int)
    requires Inverse(kw, own) && id in own
    ensures Inverse(Parted(kw, own[id], id), own[id := {}])
  {
    hide Parted, Inverse;
    PartedOwn(kw, own, id);
    InverseGone(kw, own, id);
    InverseNobody(Parted(kw, kw.Keys, id), own - {id}, id);
    assert (own - {id})[id := {}] == own[id := {}];
  }

  lemma MarkedMore(v: View, ids: set<int>, id: int)
    requires id in v
    ensures Marked(v, ids)[id := v[id].(dirty := true)] == Marked(v, ids + {id})
  {
    var a, b := Marked(v, ids)[id := v[id].(dirty := true)], Marked(v, ids + {id});
    assert a.Keys == b.Keys;
    forall i | i in a ensures a[i] == b[i] { }
  }

  lemma MarkedNone(v: View, ids: set<int>, id: int)
    requires id !in v
    ensures Marked(v, ids) == Marked(v, ids + {id}) && Marked(v, {}) == v
  {
    MarkedEmpty(v);
    var a, b := Marked(v, ids), Marked(v, ids + {id});
    assert a.Keys == b.Keys;
    forall i | i in a ensures a[i] == b[i] { }
  }

  lemma MarkedEmpty(v: View)
    ensures Marked(v, {}) == v
  {
    var a := Marked(v, {});
    assert a.Keys == v.Keys;
    forall i | i in a ensures a[i] == v[i] { }
  }

  // ---------- the manager ----------

  class Transaction {
    ghost const owner: int
    var started: bool
    var queue: seq<Queued>
    var watchedKeys: set<string>
    var dirty: bool

    constructor (ghost owner: int)
      ensures this.owner == owner && Value() == Tx(false, [], {}, false)
    {
      this.owner := owner;
      started, queue, watchedKeys, dirty := false, [], {}, false;
    }

    ghost function Value(): Tx
      reads this
    {
      Tx(started, queue, watchedKeys, dirty)
    }
  }

  class TransactionManager {
    var transactions: map<int, Transaction>
    var keyWatchers: Relation<string, int>
    ghost var view: View
    ghost var ref: Reference

    ghost predicate Coupled()
      reads `transactions, `view, transactions.Values
    {
      && transactions.Keys == view.Keys
      && forall id :: id in transactions ==> transactions[id].owner == id && transactions[id].Value() == view[id]
    }

    ghost predicate Valid()
      reads this, transactions.Values
    {
      Coupled() && Inverse(keyWatchers, Own(view)) && Tracks(view, ref)
    }

    constructor ()
      ensures Valid() && ref == Reference(map[], map[]) && transactions == map[]
    {
      transactions, keyWatchers, view, ref := map[], map[], map[], Reference(map[], map[]);
    }

    lemma At(id: int)
      requires Coupled()
      ensures id in transactions <==> id in view
      ensures id in transactions ==> transactions[id] in transactions.Values && transactions[id].Value() == view[id]
    {
    }

    method GetTransaction(id: int) returns (tx: Transaction)
      requires Valid()
      modifies this
      ensures Valid() && id in transactions && tx == transactions[id]
      ensures ref == Step(old(ref), Connect(id)).0 && fresh(transactions.Values - old(transactions.Values))
    {
      hide Inverse, Own, Tracks, Coupled;
      At(id);
      TracksAt(view, ref, id);
      if id in transactions {
        return transactions[id];
      }
      OwnPut(view, id, Tx(false, [], {}, false));
      OwnKeys(view);
      InverseNobody(keyWatchers, Own(view), id);
      ConnectTracks(view, ref, id);
      tx := Enlist(id);
      ref := ref.(clients := ref.clients[id := Client(false, [], map[])]);
    }

    method Enlist(id: int) returns (tx: Transaction)
      requires Coupled() && id !in transactions
      modifies `transactions, `view
      ensures Coupled() && transactions == old(transactions)[id := tx] && fresh(tx)
      ensures view == old(view)[id := Tx(false, [], {}, false)]
    {
      tx := new Transaction(id);
      transactions := transactions[id := tx];
      view := view[id := Tx(false, [], {}, false)];
    }

    lemma OwnKeys(v: View)
      ensures Own(v).Keys == v.Keys && forall id :: id in v ==> Own(v)[id] == v[id].watched
    {
    }

    lemma ConnectTracks(v: View, r: Reference, id: int)
      requires Tracks(v, r)
      ensures Tracks(v[id := Tx(false, [], {}, false)], r.(clients := r.clients[id := Client(false, [], map[])]))
    {
    }

    /** Takes a client out of the entries of the keys it watches. */
    method Forget(id: int, keys: set<string>)
      requires forall k :: k in keyWatchers ==> keyWatchers[k] != {}
      modifies `keyWatchers
      ensures keyWatchers == Parted(old(keyWatchers), keys, id)
    {
      hide Parted;
      ghost var done: set<string> := {};
      var todo := keys;
      PartedNone(keyWatchers, id);
      while todo != {}
        invariant done + todo == keys && keyWatchers == Parted(old(keyWatchers), done, id)
        decreases |todo|
      {
        var k :| k in todo;
        PartedOne(keyWatchers, k, id);
        PartedMore(old(keyWatchers), done, k, id);
        if k in keyWatchers {
          keyWatchers := keyWatchers[k := keyWatchers[k] - {id}];
          if keyWatchers[k] == {} {
            keyWatchers := keyWatchers - {k};
          }
        }
        todo, done := todo - {k}, done + {k};
      }
    }

    method RemoveClient(id: int)
      requires Valid()
      modifies this
      ensures Valid() && transactions == old(transactions) - {id} && ref == Step(old(ref), Disconnect(id)).0
    {
      hide Inverse, Own, Tracks, Parted, Coupled;
      At(id);
      OwnKeys(view);
      TracksAt(view, ref, id);
      Nonempty(keyWatchers, Own(view));
      DisconnectTracks(view, ref, id);
      if id in transactions {
        var tx := transactions[id];
        InverseUnwatched(keyWatchers, Own(view), id);
        Forget(id, tx.watchedKeys);
        InverseNobody(keyWatchers, Own(view)[id := {}], id);
        assert Own(view)[id := {}] - {id} == Own(view) - {id};
        OwnWithout(view, id);
      } else {
        assert view - {id} == view;
      }
      Dismiss(id);
      ref := ref.(clients := ref.clients - {id});
    }

    method Dismiss(id: int)
      requires Coupled()
      modifies `transactions, `view
      ensures Coupled() && transactions == old(transactions) - {id} && view == old(view) - {id}
    {
      transactions := transactions - {id};
      view := view - {id};
    }

    lemma DisconnectTracks(v: View, r: Reference, id: int)
      requires Tracks(v, r)
      ensures Tracks(v - {id}, r.(clients := r.clients - {id}))
    {
    }

    method WatchKey(id: int, key: string)
      requires Valid()
      modifies this, transactions.Values
      ensures Valid() && transactions == old(transactions) && ref == Watched(old(ref), id, key)
    {
      hide Inverse, Own, Tracks, Joined, Coupled;
      At(id);
      TracksAt(view, ref, id);
      if id !in transactions {
        return;
      }
      WatchTracks(view, ref, id, key);
      OwnKeys(view);
      OwnPut(view, id, view[id].(watched := view[id].watched + {key}));
      InverseJoin(keyWatchers, Own(view), key, id);
      AddWatched(transactions[id], id, key);
      Enroll(id, key);
      ref := Watched(ref, id, key);
    }

    method AddWatched(tx: Transaction, ghost id: int, key: string)
      requires Coupled() && id in transactions && tx == transactions[id] && id in view
      modifies `view, tx`watchedKeys
      ensures Coupled() && view == old(view)[id := old(view)[id].(watched := old(view)[id].watched + {key})]
    {
      tx.watchedKeys := tx.watchedKeys + {key};
      view := view[id := view[id].(watched := view[id].watched + {key})];
    }

    method Enroll(id: int, key: string)
      modifies `keyWatchers
      ensures keyWatchers == Joined(old(keyWatchers), {key}, id)
    {
      hide Joined;
      JoinedOne(keyWatchers, key, id);
      if key !in keyWatchers {
        keyWatchers := keyWatchers[key := {}];
      }
      keyWatchers := keyWatchers[key := keyWatchers[key] + {id}];
    }

    method UnwatchAllKeys(id: int)
      requires Valid()
      modifies this, transactions.Values
      ensures Valid() && transactions == old(transactions) && ref == Unwatched(old(ref), id)
    {
      hide Inverse, Own, Tracks, Parted, Coupled;
      At(id);
      TracksAt(view, ref, id);
      if id !in transactions {
        return;
      }
      var tx := transactions[id];
      OwnKeys(view);
      Nonempty(keyWatchers, Own(view));
      InverseUnwatched(keyWatchers, Own(view), id);
      UnwatchTracks(view, ref, id);
      OwnPut(view, id, view[id].(watched := {}, dirty := false));
      Forget(id, tx.watchedKeys);
      Clean(tx, id);
      ref := Unwatched(ref, id);
    }

    method Clean(tx: Transaction, ghost id: int)
      requires Coupled() && id in transactions && tx == transactions[id] && id in view
      modifies `view, tx`watchedKeys, tx`dirty
      ensures Coupled() && view == old(view)[id := old(view)[id].(watched := {}, dirty := false)]
    {
      tx.watchedKeys := {};
      tx.dirty := false;
      view := view[id := view[id].(watched := {}, dirty := false)];
    }

    method TouchKeys(keys: seq<string>)
      requires Valid()
      modifies `view, `ref, transactions.Values
      ensures Valid() && ref == Written(old(ref), keys)
    {
      hide Inverse, Own, Tracks;
      for i := 0 to |keys|
        invariant Valid() && ref == Written(old(ref), keys[..i])
      {
        TouchOne(keys[i]);
        assert keys[..i + 1][..i] == keys[..i];
      }
      assert keys[..|keys|] == keys;
    }

    method TouchOne(key: string)
      requires Valid()
      modifies `view, `ref, transactions.Values
      ensures Valid() && ref == old(ref).(versions := Bump(old(ref).versions, key))
    {
      hide Inverse, Own, Tracks, Touched, Marked;
      TouchTracks(view, ref, key);
      MarkedIsTouched(view, keyWatchers, key);
      SameOwnMarked(view, if key in keyWatchers then keyWatchers[key] else {});
      MarkedEmpty(view);
      if key in keyWatchers {
        MarkAll(keyWatchers[key]);
      }
      ref := ref.(versions := Bump(ref.versions, key));
    }

    lemma SameOwnMarked(v: View, ids: set<int>)
      ensures Own(Marked(v, ids)) == Own(v)
    {
      SameOwn(v, Marked(v, ids));
    }

    method MarkAll(ids: set<int>)
      requires Coupled()
      modifies `view, transactions.Values
      ensures Coupled() && view == Marked(old(view), ids)
    {
      hide Marked, Coupled;
      ghost var done: set<int> := {};
      var todo := ids;
      MarkedEmpty(view);
      while todo != {}
        invariant done + todo == ids && Coupled() && view == Marked(old(view), done)
        decreases |todo|
      {
        ghost var _ := AnyOf(todo);
        var id :| id in todo;
        MarkedAt(old(view), done, id);
        At(id);
        if id in transactions {
          MarkedMore(old(view), done, id);
          Mark(transactions[id], id);
        } else {
          MarkedNone(old(view), done, id);
        }
        todo, done := todo - {id}, done + {id};
      }
    }

    method Mark(tx: Transaction, ghost id: int)
      requires Coupled() && id in transactions && tx == transactions[id] && id in view
      modifies `view, tx`dirty
      ensures Coupled() && view == old(view)[id := old(view)[id].(dirty := true)]
    {
      tx.dirty := true;
      view := view[id := view[id].(dirty := true)];
    }

    lemma MarkedAt(v: View, ids: set<int>, id: int)
      ensures Marked(v, ids).Keys == v.Keys
      ensures id in v ==> Marked(v, ids)[id].(dirty := true) == v[id].(dirty := true)
    {
    }

    // ---------- the commands ----------

    /** Writes a transaction's state and queue. */
    method Restart(id: int, started: bool, queue: seq<Queued>)
      requires Valid() && id in transactions
      modifies `view, `ref, transactions.Values
      ensures Valid() && id in old(ref).clients
      ensures ref ==
              old(ref).(clients := old(ref).clients[id := old(ref).clients[id].(started := started, queue := queue)])
    {
      hide Inverse, Own, Tracks, Coupled;
      At(id);
      TracksAt(view, ref, id);
      ResetTracks(view, ref, id, started, queue);
      OwnKeys(view);
      OwnPut(view, id, view[id].(started := started, queue := queue));
      assert Own(view)[id := view[id].watched] == Own(view);
      Rewrite(transactions[id], id, started, queue);
      ref := ref.(clients := ref.clients[id := ref.clients[id].(started := started, queue := queue)]);
    }

    method Rewrite(tx: Transaction, ghost id: int, started: bool, queue: seq<Queued>)
      requires Coupled() && id in transactions && tx == transactions[id] && id in view
      modifies `view, tx`started, tx`queue
      ensures Coupled() && view == old(view)[id := old(view)[id].(started := started, queue := queue)]
    {
      tx.started := started;
      tx.queue := queue;
      view := view[id := view[id].(started := started, queue := queue)];
    }

    method HandleMulti(id: int) returns (reply: Reply)
      requires Valid() && id in transactions
      modifies `view, `ref, transactions.Values
      ensures Valid() && id in old(ref).clients && (ref, reply) == Step(old(ref), Multi(id))
    {
      hide Inverse, Own, Tracks;
      At(id);
      TracksAt(view, ref, id);
      if transactions[id].started {
        return NestedMulti;
      }
      Restart(id, true, []);
      return Okay;
    }

    /** The dirty flag decides; the reference compares versions. */
    method HandleExec(id: int) returns (reply: Reply)
      requires Valid() && id in transactions
      modifies this, transactions.Values
      ensures Valid() && transactions == old(transactions)
      ensures id in old(ref).clients && (ref, reply) == Step(old(ref), Exec(id))
    {
      hide Inverse, Own, Tracks, Changed, WrittenBy, Reset, Unwatched;
      At(id);
      TracksAt(view, ref, id);
      var tx := transactions[id];
      if !tx.started {
        return NotInMulti;
      }
      ghost var r := ref;
      if tx.dirty {
        ResetForm(ref, id);
        Restart(id, false, []);
        UnwatchAllKeys(id);
        return Aborted;
      }
      var queue := tx.queue;
      RunQueue(queue);
      At(id);
      TracksAt(view, ref, id);
      ResetForm(ref, id);
      Restart(id, false, []);
      UnwatchAllKeys(id);
      return Executed(queue);
    }

    lemma ResetForm(r: Reference, id: int)
      requires id in r.clients
      ensures Reset(r, id) == r.(clients := r.clients[id := r.clients[id].(started := false, queue := [])])
    {
    }

    /** EXEC's loop: each command runs and its keys are touched. */
    method RunQueue(queue: seq<Queued>)
      requires Valid()
      modifies `view, `ref, transactions.Values
      ensures Valid() && ref == WrittenBy(old(ref), queue)
    {
      hide Inverse, Own, Tracks, WriteKeys;
      for i := 0 to |queue|
        invariant Valid() && ref == WrittenBy(old(ref), queue[..i])
      {
        var keys := WriteKeys(queue[i]);
        if |keys| > 0 {
          TouchKeys(keys);
        }
        assert queue[..i + 1][..i] == queue[..i];
      }
      assert queue[..|queue|] == queue;
    }

    /** DISCARD keeps the watches. */
    method HandleDiscard(id: int) returns (reply: Reply)
      requires Valid() && id in transactions
      modifies `view, `ref, transactions.Values
      ensures Valid() && id in old(ref).clients && (ref, reply) == Step(old(ref), Discard(id))
    {
      hide Inverse, Own, Tracks;
      At(id);
      TracksAt(view, ref, id);
      if !transactions[id].started {
        return NotInMulti;
      }
      Restart(id, false, []);
      return Okay;
    }

    method HandleWatch(id: int, keys: seq<string>) returns (reply: Reply)
      requires Valid() && id in transactions
      modifies this, transactions.Values
      ensures Valid() && transactions == old(transactions)
      ensures id in old(ref).clients && (ref, reply) == Step(old(ref), Watch(id, keys))
    {
      hide Inverse, Own, Tracks, Watched;
      At(id);
      TracksAt(view, ref, id);
      if transactions[id].started {
        return WatchInMulti;
      }
      if |keys| == 0 {
        return NoKeys;
      }
      for i := 0 to |keys|
        invariant Valid() && transactions == old(transactions) && ref == WatchedAll(old(ref), id, keys[..i])
      {
        WatchKey(id, keys[i]);
        assert keys[..i + 1][..i] == keys[..i];
      }
      assert keys[..|keys|] == keys;
      return Okay;
    }

    /** A command other than the five of transactions; inside MULTI it is queued, unless it
      * could block. */
    method HandleOther(id: int, c: Queued) returns (reply: Reply)
      requires Valid() && id in transactions
      modifies `view, `ref, transactions.Values
      ensures Valid() && id in old(ref).clients && (ref, reply) == Step(old(ref), Issue(id, c))
    {
      hide Inverse, Own, Tracks, WriteKeys, Blocking;
      At(id);
      TracksAt(view, ref, id);
      var tx := transactions[id];
      if tx.started {
        if Blocking(c) {
          return NotAllowed;
        }
        Restart(id, true, tx.queue + [c]);
        return InQueue;
      }
      var keys := WriteKeys(c);
      if |keys| > 0 {
        TouchKeys(keys);
      }
      return Ran(c);
    }

    lemma Known()
      requires Valid()
      ensures transactions.Keys == ref.clients.Keys
    {
    }

    method Perform(e: Event) returns (reply: Reply)
      requires Valid() && Possible(ref, e)
      modifies this, transactions.Values
      ensures Valid() && fresh(transactions.Values - old(transactions.Values))
      ensures (ref, reply) == Step(old(ref), e)
    {
      hide Inverse, Own, Tracks, Changed, WrittenBy, Reset, Unwatched, WatchedAll;
      Known();
      reply := Okay;
      match e {
        case Connect(id) => var _ := GetTransaction(id);
        case Disconnect(id) => RemoveClient(id);
        case Multi(id) => reply := HandleMulti(id);
        case Exec(id) => reply := HandleExec(id);
        case Discard(id) => reply := HandleDiscard(id);
        case Watch(id, keys) => reply := HandleWatch(id, keys);
        case Unwatch(id) => UnwatchAllKeys(id);
        case Issue(id, c) => reply := HandleOther(id, c);
        case Touch(keys) => if |keys| > 0 { TouchKeys(keys); }
      }
    }

    /** Over every run the server's replies are the reference's: EXEC aborts exactly when the
      * version check would. */
    method PerformAll(events: seq<Event>) returns (replies: seq<Reply>)
      requires Valid() && Runnable(ref, events)
      modifies this, transactions.Values
      ensures Valid() && fresh(transactions.Values - old(transactions.Values))
      ensures (ref, replies) == Run(old(ref), events)
      decreases |events|
    {
      hide Inverse, Own, Tracks, Step;
      if events == [] {
        return [];
      }
      var reply := Perform(events[0]);
      var rest := PerformAll(events[1..]);
      return [reply] + rest;
    }
  }

  ghost predicate Runnable(r: Reference, events: seq<Event>)
    decreases |events|
  {
    events == [] || (Possible(r, events[0]) && Runnable(Step(r, events[0]).0, events[1..]))
  }

  ghost function Run(r: Reference, events: seq<Event>): (Reference, seq<Reply>)
    requires Runnable(r, events)
    decreases |events|
  {
    if events == [] then (r, [])
    else
      var (next, reply) := Step(r, events[0]);
      var (last, replies) := Run(next, events[1..]);
      (last, [reply] + replies)
  }
}
