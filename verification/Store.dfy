/** The store with copy-on-write snapshots: values are shared by reference between the
  * store and its snapshots, and every writer clones while a snapshot is active. */
module Stores {
  import opened Decimals
  import opened Options
  import opened Order
  import opened Rankings
  import opened Sequences
  import opened LinkedLists
  import opened ZSets
  import opened Keyspaces

  datatype Data = TextData(text: string) | ListData(list: List) | ZSetData(zset: ZSet)

  class Value {
    var data: Data
    var expiresAt: Option<int>

    constructor (data: Data, expiresAt: Option<int>)
      ensures this.data == data && this.expiresAt == expiresAt
    {
      this.data, this.expiresAt := data, expiresAt;
    }
  }

  /** `cells` are the heap cells behind `d`, they form a valid structure, and its contents
    * are `payload`. */
  ghost predicate Fits(d: Data, cells: set<object>, payload: Payload)
    reads cells
  {
    match d
    case TextData(text) => cells == {} && payload == Text(text)
    case ListData(list) => list in cells && list.Repr == cells && list.Valid() && payload == Items(list.Contents())
    case ZSetData(zset) => zset in cells && zset.Repr == cells && zset.Valid() && payload == Scored(zset.dict)
  }

  /** What a Value cell held at some moment: its fields and the deep contents behind them. */
  datatype Item = Item(value: Value, data: Data, record: Record, cells: set<object>)

  /** The heap still agrees with the item. */
  ghost predicate Matches(it: Item)
    reads it.value, it.cells
  {
    && it.value.data == it.data && it.value.expiresAt == it.record.expiresAt
    && Fits(it.data, it.cells, it.record.payload)
  }

  type Catalog = map<string, Item>

  /** What a command replies: a value, or one of the store's errors. */
  datatype Reply<+T> = Done(value: T) | WrongType | NoSuchKey | IndexOutOfRange | NotANumber

  ghost function Contents(c: Catalog): Keyspace
  {
    map k | k in c :: c[k].record
  }

  /** The values of a catalog use different cells, and no snapshot uses its Value cells. */
  ghost predicate Apart(c: Catalog, snaps: seq<Catalog>)
  {
    && (forall k, l :: k in c && l in c ==> c[l].value !in c[k].cells)
    && (forall k, l :: k in c && l in c && k != l ==> c[k].value != c[l].value && c[k].cells !! c[l].cells)
    && (forall i, k :: 0 <= i < |snaps| && k in snaps[i] ==> Beside(c, snaps[i][k]))
  }

  ghost predicate Beside(c: Catalog, it: Item)
  {
    forall l :: l in c ==> it.value != c[l].value && c[l].value !in it.cells
  }

  ghost predicate Agrees(c: Catalog, R: set<object>)
    reads R
  {
    forall k :: k in c ==> c[k].value in R && c[k].cells <= R && Matches(c[k])
  }

  /** The catalog and all snapshots agree with the heap, within the cells `R`. */
  ghost predicate Holds(self: object, c: Catalog, snaps: seq<Catalog>, R: set<object>)
    reads R
  {
    && self !in R && Apart(c, snaps) && Agrees(c, R)
    && forall i :: 0 <= i < |snaps| ==> Agrees(snaps[i], R)
  }

  // ---------- how the invariant moves ----------

  lemma FitsZSet(zset: ZSet, cells: set<object>, payload: Payload)
    requires Fits(ZSetData(zset), cells, payload)
    ensures zset in cells && zset.Repr == cells && zset.Valid() && payload == Scored(zset.dict)
  {
  }

  lemma ZSetFits(zset: ZSet)
    requires zset.Valid()
    ensures zset in zset.Repr && Fits(ZSetData(zset), zset.Repr, Scored(zset.dict))
  {
  }

  lemma ContentsPut(c: Catalog, key: string, it: Item)
    ensures Contents(c[key := it]) == Contents(c)[key := it.record]
  {
  }

  lemma ContentsWithout(c: Catalog, key: string)
    ensures Contents(c - {key}) == Contents(c) - {key}
  {
  }

  lemma FitsList(list: List, cells: set<object>, payload: Payload)
    requires Fits(ListData(list), cells, payload)
    ensures list in cells && list.Repr == cells && list.Valid() && payload == Items(list.Contents())
  {
  }

  lemma ListSize(list: List)
    requires list.Valid()
    ensures list.length == |list.Contents()| && (list.length == 0 <==> list.Contents() == [])
  {
    list.Sizes();
  }

  lemma ListFits(list: List)
    requires list.Valid()
    ensures list in list.Repr && Fits(ListData(list), list.Repr, Items(list.Contents()))
  {
  }

  lemma FitsText(text: string)
    ensures Fits(TextData(text), {}, Text(text))
  {
  }

  lemma HoldsSelf(self: object, c: Catalog, snaps: seq<Catalog>, R: set<object>)
    requires Holds(self, c, snaps, R)
    ensures self !in R
  {
  }

  lemma HoldsWithout(self: object, c: Catalog, snaps: seq<Catalog>, R: set<object>, key: string)
    requires Holds(self, c, snaps, R)
    ensures Holds(self, c - {key}, snaps, R)
  {
    hide Matches;
  }

  /** Cells that no value of the catalog uses; snapshots may. */
  ghost predicate Unused(c: Catalog, cells: set<object>)
  {
    forall k :: k in c ==> c[k].cells !! cells && c[k].value !in cells
  }

  /** A new Value cell over cells no other value uses may be put under a key. */
  lemma HoldsPut(self: object, c: Catalog, snaps: seq<Catalog>, R: set<object>, key: string, it: Item)
    requires Holds(self, c - {key}, snaps, R) && Unused(c - {key}, it.cells)
    requires Matches(it) && it.value !in R && it.value !in it.cells
    requires self != it.value && self !in it.cells
    ensures Holds(self, c[key := it], snaps, R + it.cells + {it.value})
  {
    hide Matches;
    assert forall k :: k in c && k != key ==> k in c - {key} && (c - {key})[k] == c[k];
  }

  lemma UnusedFresh(self: object, c: Catalog, snaps: seq<Catalog>, R: set<object>, cells: set<object>)
    requires Holds(self, c, snaps, R) && cells !! R
    ensures Unused(c, cells)
  {
    hide Matches;
  }

  /** A key's Value cell is nobody else's. */
  lemma HoldsAside(self: object, c: Catalog, snaps: seq<Catalog>, R: set<object>, key: string)
    requires Holds(self, c, snaps, R) && key in c
    ensures Holds(self, c - {key}, snaps, R - {c[key].value}) && Unused(c - {key}, c[key].cells)
    ensures c[key].value !in c[key].cells && c[key].value in R && c[key].cells <= R && Matches(c[key])
  {
    hide Matches;
  }

  lemma HoldsFields(self: object, c: Catalog, snaps: seq<Catalog>, R: set<object>, key: string)
    requires Holds(self, c, snaps, R) && key in c
    ensures c[key].value in R && c[key].value.data == c[key].data && c[key].value.expiresAt == c[key].record.expiresAt
  {
    hide Fits;
  }

  /** Without snapshots, neither are the cells behind it. */
  lemma HoldsEvict(self: object, c: Catalog, R: set<object>, key: string)
    requires Holds(self, c, [], R) && key in c
    ensures Holds(self, c - {key}, [], R - {c[key].value} - c[key].cells)
  {
    hide Matches;
  }

  ghost function ValueCells(items: Catalog): map<string, Value>
  {
    map k | k in items :: items[k].value
  }

  /** `items` are the first-level copies of `c` under some keys, in Value cells `newCells`. */
  ghost predicate Copied(items: Catalog, c: Catalog, newCells: set<object>)
    reads newCells
  {
    forall k :: k in items ==>
      && k in c && items[k].value in newCells && items[k] == c[k].(value := items[k].value)
      && items[k].value.data == c[k].data && items[k].value.expiresAt == c[k].record.expiresAt
  }

  lemma CopiedNone(c: Catalog)
    ensures Copied(map[], c, {}) && ValueCells(map[]) == map[]
  {
  }

  lemma CopiedPut(items: Catalog, c: Catalog, newCells: set<object>, k: string, v: Value)
    requires Copied(items, c, newCells) && k in c
    requires v.data == c[k].data && v.expiresAt == c[k].record.expiresAt
    ensures Copied(items[k := c[k].(value := v)], c, newCells + {v})
    ensures ValueCells(items[k := c[k].(value := v)]) == ValueCells(items)[k := v]
  {
  }

  /** New Value cells over the structures of the catalog make a snapshot. */
  lemma HoldsSnapshot(self: object, c: Catalog, snaps: seq<Catalog>, R: set<object>, items: Catalog,
    newCells: set<object>)
    requires Holds(self, c, snaps, R) && newCells !! R && self !in newCells
    requires items.Keys == c.Keys && Copied(items, c, newCells)
    ensures Holds(self, c, snaps + [items], R + newCells) && Contents(items) == Contents(c)
  {
    hide Fits;
    assert forall k :: k in c ==> Matches(c[k]) && Matches(items[k]);
    var snaps', R' := snaps + [items], R + newCells;
    assert Agrees(c, R');
    forall i | 0 <= i < |snaps'| ensures Agrees(snaps'[i], R') {
      assert i < |snaps| ==> snaps'[i] == snaps[i] && Agrees(snaps[i], R);
    }
    forall i, k | 0 <= i < |snaps'| && k in snaps'[i] ensures Beside(c, snaps'[i][k]) {
      assert i < |snaps| ==> Beside(c, snaps[i][k]);
    }
  }

  lemma HoldsRelease(self: object, c: Catalog, snaps: seq<Catalog>, R: set<object>, i: nat)
    requires Holds(self, c, snaps, R) && i < |snaps|
    ensures Holds(self, c, snaps[..i] + snaps[i + 1..], R)
  {
    hide Matches;
    var snaps' := snaps[..i] + snaps[i + 1..];
    assert forall j :: 0 <= j < |snaps'| ==> snaps'[j] == snaps[if j < i then j else j + 1];
  }

  /** The store's maps are those of the catalog, and the expiry index covers every key that expires. */
  ghost predicate Indexes(data: map<string, Value>, dataWithExpiry: map<string, int>, c: Catalog)
  {
    && data.Keys == c.Keys && (forall k :: k in data ==> data[k] == c[k].value)
    && (forall k :: k in c && c[k].record.expiresAt.Some? ==>
          k in dataWithExpiry && dataWithExpiry[k] == c[k].record.expiresAt.value)
  }

  lemma IndexesKeys(data: map<string, Value>, dataWithExpiry: map<string, int>, c: Catalog)
    requires Indexes(data, dataWithExpiry, c)
    ensures data.Keys == c.Keys && forall k :: k in data ==> data[k] == c[k].value
  {
  }

  lemma IndexesWithout(data: map<string, Value>, dataWithExpiry: map<string, int>, c: Catalog, key: string)
    requires Indexes(data, dataWithExpiry, c)
    ensures Indexes(data - {key}, dataWithExpiry - {key}, c - {key})
  {
  }

  lemma IndexesPut(data: map<string, Value>, dataWithExpiry: map<string, int>, dataWithExpiry': map<string, int>,
    c: Catalog, key: string, it: Item)
    requires Indexes(data, dataWithExpiry, c)
    requires dataWithExpiry' - {key} == dataWithExpiry - {key}
    requires it.record.expiresAt.Some? ==> key in dataWithExpiry' && dataWithExpiry'[key] == it.record.expiresAt.value
    ensures Indexes(data[key := it.value], dataWithExpiry', c[key := it])
  {
    forall k | k in c && k != key && c[k].record.expiresAt.Some?
      ensures k in dataWithExpiry' && dataWithExpiry'[k] == c[k].record.expiresAt.value
    {
      assert k in dataWithExpiry - {key};
    }
  }

  ghost function AllContents(snaps: seq<Catalog>): seq<Keyspace>
  {
    seq(|snaps|, i requires 0 <= i < |snaps| => Contents(snaps[i]))
  }

  /** What a holder of the map reads, following every pointer, is the keyspace `ks`. */
  ghost predicate Shows(snapshot: map<string, Value>, ks: Keyspace)
    reads *
  {
    && snapshot.Keys == ks.Keys
    && forall k :: k in snapshot ==> snapshot[k].expiresAt == ks[k].expiresAt && Reads(snapshot[k].data, ks[k].payload)
  }

  ghost predicate Reads(d: Data, payload: Payload)
    reads *
  {
    match d
    case TextData(text) => payload == Text(text)
    case ListData(list) => list.Valid() && payload == Items(list.Contents())
    case ZSetData(zset) => zset.Valid() && payload == Scored(zset.dict)
  }

  /** Every snapshot taken in the run and not released since shows the store of its moment. */
  ghost predicate Handed(r: Reference, events: seq<Event>, handed: seq<map<string, Value>>)
    requires Runnable(r, events)
    reads *
  {
    |handed| == |events| && forall t :: 0 <= t < |events| ==> HandedAt(r, events, handed[t], t)
  }

  ghost predicate HandedAt(r: Reference, events: seq<Event>, snapshot: map<string, Value>, t: nat)
    requires Runnable(r, events) && t < |events|
    reads *
  {
    var b := Before(r, events, t);
    events[t].Take? && StillAt(|b.copies|, events[t + 1..]).Some? ==> Shows(snapshot, b.now)
  }

  lemma HandedNone(r: Reference)
    ensures Handed(r, [], [])
  {
  }

  lemma HandedCons(r: Reference, events: seq<Event>, first: map<string, Value>, rest: seq<map<string, Value>>)
    requires events != [] && Runnable(r, events) && Handed(Step(r, events[0]), events[1..], rest)
    requires events[0].Take? && StillAt(|r.copies|, events[1..]).Some? ==> Shows(first, r.now)
    ensures Handed(r, events, [first] + rest)
  {
    hide Step, Shows;
    var handed := [first] + rest;
    forall t | 0 <= t < |events| ensures HandedAt(r, events, handed[t], t) {
      if t > 0 {
        assert HandedAt(Step(r, events[0]), events[1..], rest[t - 1], t - 1);
        assert events[1..][t..] == events[t + 1..];
      }
    }
  }

  class Store {
    var data: map<string, Value>
    var dataWithExpiry: map<string, int>
    var snapshotCount: int
    ghost var cat: Catalog
    ghost var snaps: seq<Catalog>  // the active snapshots
    ghost var Repr: set<object>

    ghost predicate Valid()
      reads this, Repr
    {
      Indexes(data, dataWithExpiry, cat) && snapshotCount == |snaps| && Holds(this, cat, snaps, Repr)
    }

    ghost function Model(): Keyspace
      reads `cat
    {
      Contents(cat)
    }

    constructor ()
      ensures Valid() && Model() == map[] && snaps == [] && fresh(Repr)
    {
      data, dataWithExpiry, snapshotCount := map[], map[], 0;
      cat, snaps, Repr := map[], [], {};
    }

    method DeleteKey(key: string)
      requires Valid()
      modifies `data, `dataWithExpiry, `cat
      ensures Valid() && cat == old(cat) - {key}
    {
      hide Holds, Indexes;
      HoldsSelf(this, cat, snaps, Repr);
      HoldsWithout(this, cat, snaps, Repr, key);
      IndexesWithout(data, dataWithExpiry, cat, key);
      data := data - {key};
      dataWithExpiry := dataWithExpiry - {key};
      cat := cat - {key};
    }

    /** The lookup every command starts with: an expired key is dropped on the way. */
    method Fetch(key: string, now: int) returns (d: Option<Data>)
      requires Valid()
      modifies `data, `dataWithExpiry, `cat
      ensures Valid() && Model() == Live(old(Model()), key, now)
      ensures d == if key in cat then Some(cat[key].data) else None
    {
      hide Holds;
      ValueAt(key);
      if key !in data {
        return None;
      }
      var val := data[key];
      if val.expiresAt.Some? && now > val.expiresAt.value {
        DeleteKey(key);
        return None;
      }
      return Some(val.data);
    }

    lemma ValueAt(key: string)
      requires Valid()
      ensures data.Keys == cat.Keys
      ensures key in cat ==>
                data[key] == cat[key].value && data[key] in Repr && cat[key].cells <= Repr && Matches(cat[key])
      ensures this !in Repr
    {
      HoldsSelf(this, cat, snaps, Repr);
    }

    lemma KindAt(key: string)
      requires Valid()
      ensures key in cat ==>
        && (cat[key].data.TextData? <==> cat[key].record.payload.Text?)
        && (cat[key].data.ListData? <==> cat[key].record.payload.Items?)
        && (cat[key].data.ZSetData? <==> cat[key].record.payload.Scored?)
    {
      ValueAt(key);
    }

    /** Puts a value in cells of its own under `key`; `idx0` is the expiry index before the command. */
    method Enter(key: string, v: Value, ghost payload: Payload, ghost cells: set<object>, ghost R: set<object>,
      ghost idx0: map<string, int>)
      requires Holds(this, cat - {key}, snaps, R) && Indexes(data, idx0, cat) && snapshotCount == |snaps|
      requires dataWithExpiry - {key} == idx0 - {key}
      requires v.expiresAt.Some? ==> key in dataWithExpiry && dataWithExpiry[key] == v.expiresAt.value
      requires Fits(v.data, cells, payload) && v !in R && v !in cells && this !in cells && Unused(cat - {key}, cells)
      modifies `data, `cat, `Repr
      ensures Valid() && Repr == R + cells + {v}
      ensures cat == old(cat)[key := Item(v, v.data, Record(payload, v.expiresAt), cells)]
    {
      hide Holds, Indexes, Fits, Unused;
      ghost var it := Item(v, v.data, Record(payload, v.expiresAt), cells);
      HoldsSelf(this, cat - {key}, snaps, R);
      HoldsPut(this, cat, snaps, R, key, it);
      IndexesPut(data, idx0, dataWithExpiry, cat, key, it);
      data := data[key := v];
      cat := cat[key := it];
      Repr := R + cells + {v};
    }

    method Set(key: string, text: string, expiry: Option<int>)
      requires Valid()
      modifies this
      ensures Valid() && fresh(Repr - old(Repr)) && snaps == old(snaps)
      ensures Model() == old(Model())[key := Record(Text(text), expiry)]
    {
      hide Holds, Indexes, Fits;
      HoldsWithout(this, cat, snaps, Repr, key);
      HoldsSelf(this, cat, snaps, Repr);
      ghost var idx0 := dataWithExpiry;
      var v := new Value(TextData(text), expiry);
      if expiry.Some? {
        dataWithExpiry := dataWithExpiry[key := expiry.value];
      } else {
        dataWithExpiry := dataWithExpiry - {key};
      }
      FitsText(text);
      UnusedFresh(this, cat - {key}, snaps, Repr, {});
      Enter(key, v, Text(text), {}, Repr, idx0);
    }

    method Delete(key: string) returns (deleted: bool)
      requires Valid()
      modifies this
      ensures Valid() && Repr == old(Repr) && snaps == old(snaps)
      ensures Model() == old(Model()) - {key} && (deleted <==> key in old(Model()))
    {
      hide Holds;
      if key in data {
        DeleteKey(key);
        return true;
      }
      assert cat == cat - {key};
      return false;
    }

    method Flush()
      requires Valid()
      modifies this
      ensures Valid() && Repr == old(Repr) && snaps == old(snaps) && Model() == map[]
    {
      hide Matches;
      HoldsSelf(this, cat, snaps, Repr);
      assert Holds(this, map[], snaps, Repr);
      hide Holds;
      data := map[];
      dataWithExpiry := map[];
      cat := map[];
    }

    /** EXPIRE writes the Value cell in place; snapshots have their own. */
    method Expire(key: string, expiry: Option<int>, now: int) returns (ok: bool)
      requires Valid()
      modifies this, Repr
      ensures Valid() && Repr == old(Repr) && snaps == old(snaps)
      ensures Model() == Effect(old(Model()), Command.Expire(key, expiry, now))
      ensures ok <==> key in Live(old(Model()), key, now)
    {
      hide Holds, Indexes;
      var d := Fetch(key, now);
      if d.None? {
        return false;
      }
      Restamp(key, expiry);
      return true;
    }

    method Restamp(key: string, expiry: Option<int>)
      requires Valid() && key in cat
      modifies this, Repr
      ensures Valid() && Repr == old(Repr) && snaps == old(snaps)
      ensures Model() == old(Model())[key := old(cat[key].record).(expiresAt := expiry)]
    {
      hide Holds, Indexes, Fits;
      ValueAt(key);
      HoldsAside(this, cat, snaps, Repr, key);
      ghost var it, idx0 := cat[key], dataWithExpiry;
      var val := data[key];
      val.expiresAt := expiry;
      if expiry.Some? {
        dataWithExpiry := dataWithExpiry[key := expiry.value];
      } else {
        dataWithExpiry := dataWithExpiry - {key};
      }
      Enter(key, val, it.record.payload, it.cells, Repr - {val}, idx0);
    }

    /** INCRBY and its relatives; `parse` reads a stored text as a number. The new text has a
      * cell of its own, and the expiry index is left as it is. */
    method IncrBy(key: string, increment: int, parse: string -> Option<int>, now: int) returns (reply: Reply<int>)
      requires Valid()
      modifies this
      ensures Valid() && fresh(Repr - old(Repr)) && snaps == old(snaps)
      ensures Model() == Effect(old(Model()), Command.IncrBy(key, increment, parse, now))
      ensures reply == match NumberAt(Live(old(Model()), key, now), key, parse)
                       case None => NotANumber
                       case Some(n) => Done(Wrapped(n + increment))
    {
      hide Holds, Indexes, Fits, Live, Wrapped, Number, Effect;
      EffectIncrBy(Model(), key, increment, parse, now);
      var d := Fetch(key, now);
      KindAt(key);
      TextAt(key);
      var current := 0;
      if d.Some? {
        if !d.value.TextData? {
          return NotANumber;
        }
        var parsed := parse(d.value.text);
        if parsed.None? {
          return NotANumber;
        }
        current := parsed.value;
      }
      PutText(key, Number(Wrapped(current + increment)));
      return Done(Wrapped(current + increment));
    }

    lemma TextAt(key: string)
      requires Valid()
      ensures key in cat && cat[key].data.TextData? ==> cat[key].record.payload == Text(cat[key].data.text)
    {
      ValueAt(key);
    }

    method PutText(key: string, text: string)
      requires Valid()
      modifies this
      ensures Valid() && fresh(Repr - old(Repr)) && snaps == old(snaps)
      ensures Model() == old(Model())[key := Record(Text(text), None)]
    {
      hide Holds, Indexes, Fits;
      HoldsWithout(this, cat, snaps, Repr, key);
      HoldsSelf(this, cat, snaps, Repr);
      var v := new Value(TextData(text), None);
      FitsText(text);
      UnusedFresh(this, cat - {key}, snaps, Repr, {});
      Enter(key, v, Text(text), {}, Repr, dataWithExpiry);
    }

    /** GetAllData: new Value cells over the same structures. */
    method GetAllData() returns (snapshot: map<string, Value>)
      requires Valid()
      modifies this
      ensures Valid() && fresh(Repr - old(Repr)) && Model() == old(Model())
      ensures |snaps| == |old(snaps)| + 1 && snaps[..|old(snaps)|] == old(snaps)
      ensures var s := snaps[|old(snaps)|];
              Contents(s) == Model() && snapshot == ValueCells(s)
    {
      hide Holds, Indexes;
      HoldsSelf(this, cat, snaps, Repr);
      snapshotCount := snapshotCount + 1;
      ghost var items;
      ghost var newCells;
      snapshot, items, newCells := CopyValues();
      HoldsSnapshot(this, cat, snaps, Repr, items, newCells);
      snaps := snaps + [items];
      Repr := Repr + newCells;
    }

    /** GetAllData's loop over the map, in any order. */
    method CopyValues() returns (snapshot: map<string, Value>, ghost items: Catalog, ghost newCells: set<object>)
      requires Holds(this, cat, snaps, Repr) && Indexes(data, dataWithExpiry, cat)
      ensures Holds(this, cat, snaps, Repr) && fresh(newCells)
      ensures items.Keys == cat.Keys && Copied(items, cat, newCells) && snapshot == ValueCells(items)
    {
      hide Holds, Copied, ValueCells, Indexes;
      snapshot, items, newCells := map[], map[], {};
      CopiedNone(cat);
      HoldsSelf(this, cat, snaps, Repr);
      IndexesKeys(data, dataWithExpiry, cat);
      var todo := data.Keys;
      while todo != {}
        invariant todo <= data.Keys
        invariant Holds(this, cat, snaps, Repr) && fresh(newCells) && Copied(items, cat, newCells)
        invariant items.Keys == data.Keys - todo && snapshot == ValueCells(items)
        decreases |todo|
      {
        var k :| k in todo;
        HoldsFields(this, cat, snaps, Repr, k);
        var v := new Value(data[k].data, data[k].expiresAt);
        CopiedPut(items, cat, newCells, k, v);
        snapshot := snapshot[k := v];
        items := items[k := cat[k].(value := v)];
        newCells := newCells + {v};
        todo := todo - {k};
      }
    }

    /** ReleaseSnapshot, called by the holder of snapshot number `i`. */
    method ReleaseSnapshot(ghost i: nat)
      requires Valid() && i < |snaps|
      modifies this
      ensures Valid() && Repr == old(Repr) && Model() == old(Model())
      ensures snaps == old(snaps)[..i] + old(snaps)[i + 1..]
    {
      hide Indexes;
      HoldsSelf(this, cat, snaps, Repr);
      HoldsRelease(this, cat, snaps, Repr, i);
      snapshotCount := snapshotCount - 1;
      snaps := snaps[..i] + snaps[i + 1..];
    }

    // ---------- list commands ----------

    lemma StoredList(key: string)
      requires Valid() && key in cat && cat[key].data.ListData?
      ensures var list := cat[key].data.list;
              list.length == |list.Contents()| && cat[key].record.payload == Items(list.Contents())
    {
      ValueAt(key);
      FitsList(cat[key].data.list, cat[key].cells, cat[key].record.payload);
      ListSize(cat[key].data.list);
    }

    /** The list a writer may change: a new one for a missing key, a clone while a snapshot
      * is active, otherwise the stored one. Its cells are apart from `R`, in which the rest
      * of the store and all snapshots live. */
    method WritableList(key: string, d: Option<Data>) returns (list: List, ghost R: set<object>)
      requires Valid() && d == (if key in cat then Some(cat[key].data) else None)
      requires d.Some? ==> d.value.ListData?
      ensures Holds(this, cat - {key}, snaps, R) && R <= Repr
      ensures list.Valid() && list.Repr !! R && this !in list.Repr && fresh(list.Repr - Repr)
      ensures ItemsAt(Model(), key) == Some(list.Contents())
    {
      hide Holds, Indexes, List.Valid, Fits;
      ValueAt(key);
      HoldsWithout(this, cat, snaps, Repr, key);
      R := Repr;
      if d.None? {
        list := new List();
        return;
      }
      list := d.value.list;
      FitsList(list, cat[key].cells, cat[key].record.payload);
      if snapshotCount > 0 {
        list := list.Clone();
      } else {
        HoldsEvict(this, cat, Repr, key);
        R := Repr - {cat[key].value} - cat[key].cells;
      }
    }

    /** deleteKey, for a key whose value is already out of the store's cells. */
    method Discard(key: string, ghost R: set<object>)
      requires Holds(this, cat - {key}, snaps, R) && Indexes(data, dataWithExpiry, cat) && snapshotCount == |snaps|
      modifies `data, `dataWithExpiry, `cat, `Repr
      ensures Valid() && Repr == R && cat == old(cat) - {key}
    {
      hide Holds, Indexes;
      HoldsSelf(this, cat - {key}, snaps, R);
      IndexesWithout(data, dataWithExpiry, cat, key);
      data := data - {key};
      dataWithExpiry := dataWithExpiry - {key};
      cat := cat - {key};
      Repr := R;
    }

    method SaveList(key: string, list: List, ghost R: set<object>)
      requires Holds(this, cat - {key}, snaps, R) && Indexes(data, dataWithExpiry, cat) && snapshotCount == |snaps|
      requires list.Valid() && list.Repr !! R && this !in list.Repr
      modifies this
      ensures Valid() && fresh(Repr - R - list.Repr) && snaps == old(snaps)
      ensures Model() == SaveItems(old(Model()), key, list.Contents())
    {
      hide Holds, Indexes, List.Valid, List.Contents, Fits, Contents;
      ListSize(list);
      HoldsSelf(this, cat - {key}, snaps, R);
      ContentsWithout(cat, key);
      if list.length == 0 {
        Discard(key, R);
        return;
      }
      var v := new Value(ListData(list), None);
      ListFits(list);
      UnusedFresh(this, cat - {key}, snaps, R, list.Repr);
      ContentsPut(cat, key, Item(v, v.data, Record(Items(list.Contents()), None), list.Repr));
      Enter(key, v, Items(list.Contents()), list.Repr, R, dataWithExpiry);
    }

    method LPush(key: string, values: seq<string>, now: int) returns (reply: Reply<nat>)
      requires Valid()
      modifies this, Repr
      ensures Valid() && fresh(Repr - old(Repr)) && snaps == old(snaps)
      ensures Model() == Effect(old(Model()), Command.LPush(key, values, now))
      ensures var live := Live(old(Model()), key, now);
              match ItemsAt(live, key)
              case None => reply == WrongType
              case Some(s) => reply == Done(|PushLeft(s, values)|)
    {
      hide Holds, Indexes, List.Valid, List.Contents, PushLeft, SaveItems, Effect, Live;
      EffectOnItems(Model(), Command.LPush(key, values, now));
      var d := Fetch(key, now);
      KindAt(key);
      if d.Some? && !d.value.ListData? {
        return WrongType;
      }
      var list, R := WritableList(key, d);
      list.PushAllFront(values);
      SaveList(key, list, R);
      ListSize(list);
      return Done(list.length);
    }

    method RPush(key: string, values: seq<string>, now: int) returns (reply: Reply<nat>)
      requires Valid()
      modifies this, Repr
      ensures Valid() && fresh(Repr - old(Repr)) && snaps == old(snaps)
      ensures Model() == Effect(old(Model()), Command.RPush(key, values, now))
      ensures var live := Live(old(Model()), key, now);
              match ItemsAt(live, key)
              case None => reply == WrongType
              case Some(s) => reply == Done(|s| + |values|)
    {
      hide Holds, Indexes, List.Valid, List.Contents, SaveItems, Effect, Live;
      EffectOnItems(Model(), Command.RPush(key, values, now));
      var d := Fetch(key, now);
      KindAt(key);
      if d.Some? && !d.value.ListData? {
        return WrongType;
      }
      var list, R := WritableList(key, d);
      list.PushAllBack(values);
      SaveList(key, list, R);
      ListSize(list);
      return Done(list.length);
    }

    method LPop(key: string, count: int, now: int) returns (reply: Reply<seq<string>>)
      requires Valid()
      modifies this, Repr
      ensures Valid() && fresh(Repr - old(Repr)) && snaps == old(snaps)
      ensures Model() == Effect(old(Model()), Command.LPop(key, count, now))
      ensures var live := Live(old(Model()), key, now);
              match ItemsAt(live, key)
              case None => reply == WrongType
              case Some(s) => reply == Done(s[..PopCount(count, |s|)])
    {
      hide Holds, Indexes, List.Valid, List.Contents, SaveItems, Effect, Live;
      EffectOnItems(Model(), Command.LPop(key, count, now));
      var d := Fetch(key, now);
      KindAt(key);
      if d.Some? && !d.value.ListData? {
        return WrongType;
      }
      if d.None? {
        return Done([]);
      }
      StoredList(key);
      if d.value.list.length == 0 {
        return Done([]);
      }
      var list, R := WritableList(key, d);
      ListSize(list);
      var result := list.PopManyFront(count);
      SaveList(key, list, R);
      return Done(result);
    }

    method RPop(key: string, count: int, now: int) returns (reply: Reply<seq<string>>)
      requires Valid()
      modifies this, Repr
      ensures Valid() && fresh(Repr - old(Repr)) && snaps == old(snaps)
      ensures Model() == Effect(old(Model()), Command.RPop(key, count, now))
      ensures var live := Live(old(Model()), key, now);
              match ItemsAt(live, key)
              case None => reply == WrongType
              case Some(s) => reply == Done(Reverse(s[|s| - PopCount(count, |s|)..]))
    {
      hide Holds, Indexes, List.Valid, List.Contents, SaveItems, Effect, Live;
      EffectOnItems(Model(), Command.RPop(key, count, now));
      var d := Fetch(key, now);
      KindAt(key);
      if d.Some? && !d.value.ListData? {
        return WrongType;
      }
      if d.None? {
        return Done([]);
      }
      StoredList(key);
      if d.value.list.length == 0 {
        return Done([]);
      }
      var list, R := WritableList(key, d);
      ListSize(list);
      var result := list.PopManyBack(count);
      SaveList(key, list, R);
      return Done(result);
    }

    method LSet(key: string, index: int, value: string, now: int) returns (reply: Reply<()>)
      requires Valid()
      modifies this, Repr
      ensures Valid() && fresh(Repr - old(Repr)) && snaps == old(snaps)
      ensures Model() == Effect(old(Model()), Command.LSet(key, index, value, now))
      ensures var live := Live(old(Model()), key, now);
              match ItemsAt(live, key)
              case None => reply == WrongType
              case Some(s) =>
                reply == if key !in live then NoSuchKey
                         else if 0 <= Normal(index, |s|) < |s| then Done(()) else IndexOutOfRange
    {
      hide Holds, Indexes, List.Valid, List.Contents, SaveItems, Effect, Live;
      EffectOnItems(Model(), Command.LSet(key, index, value, now));
      var d := Fetch(key, now);
      KindAt(key);
      if d.Some? && !d.value.ListData? {
        return WrongType;
      }
      if d.None? {
        return NoSuchKey;
      }
      StoredList(key);
      var list, R := WritableList(key, d);
      ListSize(list);
      list.Sizes();
      var node := list.GetNodeAt(index);
      if node == null {
        return IndexOutOfRange;
      }
      list.Overwrite(node, value, Normal(index, list.length));
      SaveList(key, list, R);
      return Done(());
    }

    method LRem(key: string, count: int, value: string, now: int) returns (reply: Reply<nat>)
      requires Valid()
      modifies this, Repr
      ensures Valid() && fresh(Repr - old(Repr)) && snaps == old(snaps)
      ensures Model() == Effect(old(Model()), Command.LRem(key, count, value, now))
      ensures var live := Live(old(Model()), key, now);
              match ItemsAt(live, key)
              case None => reply == WrongType
              case Some(s) => reply == Done(|s| - |Rem(s, count, value)|)
    {
      hide Holds, Indexes, List.Valid, List.Contents, SaveItems, Effect, Live;
      EffectOnItems(Model(), Command.LRem(key, count, value, now));
      var d := Fetch(key, now);
      KindAt(key);
      if d.Some? && !d.value.ListData? {
        return WrongType;
      }
      if d.None? {
        return Done(0);
      }
      StoredList(key);
      if d.value.list.length == 0 {
        return Done(0);
      }
      var removed := RemOn(key, d, count, value);
      return Done(removed);
    }

    method RemOn(key: string, d: Option<Data>, count: int, value: string) returns (removed: nat)
      requires Valid() && d == (if key in cat then Some(cat[key].data) else None)
      requires d.Some? ==> d.value.ListData?
      modifies this, Repr
      ensures Valid() && fresh(Repr - old(Repr)) && snaps == old(snaps)
      ensures ItemsAt(old(Model()), key).Some?
      ensures var s := ItemsAt(old(Model()), key).value;
              removed == |s| - |Rem(s, count, value)| && Model() == SaveItems(old(Model()), key, Rem(s, count, value))
    {
      hide Holds, Indexes, List.Valid, List.Contents, SaveItems, Contents, ItemsAt, DropFirst, DropLast;
      var list, R := WritableList(key, d);
      ListSize(list);
      var toRemove := if count == 0 then list.length else if count < 0 then -count else count;
      if count >= 0 {
        removed := list.RemoveFromHead(value, toRemove);
      } else {
        removed := list.RemoveFromTail(value, toRemove);
      }
      SaveList(key, list, R);
    }

    method LTrim(key: string, start: int, stop: int, now: int) returns (reply: Reply<()>)
      requires Valid()
      modifies this, Repr
      ensures Valid() && fresh(Repr - old(Repr)) && snaps == old(snaps)
      ensures Model() == Effect(old(Model()), Command.LTrim(key, start, stop, now))
      ensures var live := Live(old(Model()), key, now);
              match ItemsAt(live, key)
              case None => reply == WrongType
              case Some(s) => reply == Done(())
    {
      hide Holds, Indexes, List.Valid, List.Contents, SaveItems, Window, Effect, Live;
      EffectOnItems(Model(), Command.LTrim(key, start, stop, now));
      var d := Fetch(key, now);
      KindAt(key);
      if d.Some? && !d.value.ListData? {
        return WrongType;
      }
      if d.None? {
        return Done(());
      }
      StoredList(key);
      var list, R := WritableList(key, d);
      list.Trim(start, stop);
      SaveList(key, list, R);
      return Done(());
    }

    method LInsert(key: string, before: bool, pivot: string, value: string, now: int) returns (reply: Reply<int>)
      requires Valid()
      modifies this, Repr
      ensures Valid() && fresh(Repr - old(Repr)) && snaps == old(snaps)
      ensures Model() == Effect(old(Model()), Command.LInsert(key, before, pivot, value, now))
      ensures var live := Live(old(Model()), key, now);
              match ItemsAt(live, key)
              case None => reply == WrongType
              case Some(s) => reply == Done(if s == [] then 0 else if pivot !in s then -1 else |s| + 1)
    {
      hide Holds, Indexes, List.Valid, List.Contents, SaveItems, Splice, IndexOf, Effect, Live;
      EffectOnItems(Model(), Command.LInsert(key, before, pivot, value, now));
      var d := Fetch(key, now);
      KindAt(key);
      if d.Some? && !d.value.ListData? {
        return WrongType;
      }
      if d.None? {
        return Done(0);
      }
      StoredList(key);
      if d.value.list.length == 0 {
        return Done(0);
      }
      SpliceForm(ItemsAt(Model(), key).value, before, pivot, value);
      var n := InsertOn(key, d, before, pivot, value);
      return Done(n);
    }

    method InsertOn(key: string, d: Option<Data>, before: bool, pivot: string, value: string) returns (n: int)
      requires Valid() && d == (if key in cat then Some(cat[key].data) else None)
      requires d.Some? ==> d.value.ListData?
      modifies this, Repr
      ensures Valid() && fresh(Repr - old(Repr)) && snaps == old(snaps)
      ensures ItemsAt(old(Model()), key).Some?
      ensures var s := ItemsAt(old(Model()), key).value;
              if pivot !in s then n == -1 && Model() == old(Model())
              else n == |s| + 1 && Model() == SaveItems(old(Model()), key, Splice(s, before, pivot, value))
    {
      hide Holds, Indexes, List.Valid, List.Contents, SaveItems, Contents, ItemsAt, Splice, IndexOf;
      var list, R := WritableList(key, d);
      ListSize(list);
      var node, k := list.FindNode(pivot, true);
      SpliceForm(list.Contents(), before, pivot, value);
      if node == null {
        return -1;
      }
      IndexOfUnique(list.Contents(), pivot, k);
      list.InsertBeside(node, before, value, k);
      SaveList(key, list, R);
      ListSize(list);
      return list.length;
    }

    // ---------- sorted-set commands ----------

    /** The sorted set a writer may change, chosen as for lists. */
    method WritableZSet(key: string, d: Option<Data>) returns (zset: ZSet, ghost R: set<object>)
      requires Valid() && d == (if key in cat then Some(cat[key].data) else None)
      requires d.Some? ==> d.value.ZSetData?
      ensures Holds(this, cat - {key}, snaps, R) && R <= Repr
      ensures zset.Valid() && zset.Repr !! R && this !in zset.Repr && fresh(zset.Repr - Repr)
      ensures ScoresAt(Model(), key) == Some(zset.dict)
    {
      hide Holds, Indexes, ZSet.Valid, Fits;
      ValueAt(key);
      HoldsWithout(this, cat, snaps, Repr, key);
      R := Repr;
      if d.None? {
        zset := new ZSet();
        return;
      }
      zset := d.value.zset;
      FitsZSet(zset, cat[key].cells, cat[key].record.payload);
      if snapshotCount > 0 {
        zset := zset.Clone();
      } else {
        HoldsEvict(this, cat, Repr, key);
        R := Repr - {cat[key].value} - cat[key].cells;
      }
    }

    method SaveZSet(key: string, zset: ZSet, ghost R: set<object>)
      requires Holds(this, cat - {key}, snaps, R) && Indexes(data, dataWithExpiry, cat) && snapshotCount == |snaps|
      requires zset.Valid() && zset.Repr !! R && this !in zset.Repr
      modifies this
      ensures Valid() && fresh(Repr - R - zset.Repr) && snaps == old(snaps)
      ensures Model() == SaveScores(old(Model()), key, zset.dict)
    {
      hide Holds, Indexes, ZSet.Valid, Fits, Contents, Ranking;
      HoldsSelf(this, cat - {key}, snaps, R);
      ContentsWithout(cat, key);
      RankingSize(zset.dict);
      if |zset.dict| == 0 {
        Discard(key, R);
        return;
      }
      var v := new Value(ZSetData(zset), None);
      ZSetFits(zset);
      UnusedFresh(this, cat - {key}, snaps, R, zset.Repr);
      ContentsPut(cat, key, Item(v, v.data, Record(Scored(zset.dict), None), zset.Repr));
      Enter(key, v, Scored(zset.dict), zset.Repr, R, dataWithExpiry);
    }

    /** The stored sorted set of a reader. */
    lemma StoredZSet(key: string)
      requires Valid() && key in cat && cat[key].data.ZSetData?
      ensures var zset := cat[key].data.zset;
              zset.Valid() && cat[key].record.payload == Scored(zset.dict)
    {
      ValueAt(key);
      FitsZSet(cat[key].data.zset, cat[key].cells, cat[key].record.payload);
    }

    method ZAdd(key: string, members: seq<Entry>, now: int) returns (added: int)
      requires Valid()
      modifies this, Repr
      ensures Valid() && fresh(Repr - old(Repr)) && snaps == old(snaps)
      ensures Model() == Effect(old(Model()), Command.ZAdd(key, members, now))
      ensures var live := Live(old(Model()), key, now);
              match ScoresAt(live, key)
              case None => added == -1
              case Some(scores) => added == Changes(scores, members)
    {
      hide Holds, Indexes, ZSet.Valid, SaveScores, AddAll, Changes, Effect, Live;
      EffectOnScores(Model(), Command.ZAdd(key, members, now));
      var d := Fetch(key, now);
      KindAt(key);
      if d.Some? && !d.value.ZSetData? {
        return -1;
      }
      var zset, R := WritableZSet(key, d);
      added := zset.AddAllMembers(members);
      SaveZSet(key, zset, R);
    }

    method ZRem(key: string, members: seq<string>, now: int) returns (removed: int)
      requires Valid()
      modifies this, Repr
      ensures Valid() && fresh(Repr - old(Repr)) && snaps == old(snaps)
      ensures Model() == Effect(old(Model()), Command.ZRem(key, members, now))
      ensures var live := Live(old(Model()), key, now);
              match ScoresAt(live, key)
              case None => removed == -1
              case Some(scores) => removed == |scores| - |Dropped(scores, members)|
    {
      hide Holds, Indexes, ZSet.Valid, SaveScores, Dropped, Effect, Live;
      EffectOnScores(Model(), Command.ZRem(key, members, now));
      var d := Fetch(key, now);
      KindAt(key);
      if d.Some? && !d.value.ZSetData? {
        return -1;
      }
      DroppedAny(members);
      if d.None? {
        return 0;
      }
      var zset, R := WritableZSet(key, d);
      removed := zset.RemoveMembers(members);
      SaveZSet(key, zset, R);
    }

    method ZIncrBy(key: string, delta: real, member: string, now: int) returns (reply: Reply<real>)
      requires Valid()
      modifies this, Repr
      ensures Valid() && fresh(Repr - old(Repr)) && snaps == old(snaps)
      ensures Model() == Effect(old(Model()), Command.ZIncrBy(key, delta, member, now))
      ensures var live := Live(old(Model()), key, now);
              match ScoresAt(live, key)
              case None => reply == WrongType
              case Some(scores) => reply == Done((if member in scores then scores[member] else 0.0) + delta)
    {
      hide Holds, Indexes, ZSet.Valid, SaveScores, Effect, Live;
      EffectOnScores(Model(), Command.ZIncrBy(key, delta, member, now));
      var d := Fetch(key, now);
      KindAt(key);
      if d.Some? && !d.value.ZSetData? {
        return WrongType;
      }
      var score := IncrOn(key, d, delta, member);
      return Done(score);
    }

    method IncrOn(key: string, d: Option<Data>, delta: real, member: string) returns (score: real)
      requires Valid() && d == (if key in cat then Some(cat[key].data) else None)
      requires d.Some? ==> d.value.ZSetData?
      modifies this, Repr
      ensures Valid() && fresh(Repr - old(Repr)) && snaps == old(snaps)
      ensures ScoresAt(old(Model()), key).Some?
      ensures var scores := ScoresAt(old(Model()), key).value;
              && score == (if member in scores then scores[member] else 0.0) + delta
              && Model() == SaveScores(old(Model()), key, scores[member := score])
    {
      hide Holds, Indexes, ZSet.Valid, SaveScores, Contents, ScoresAt;
      var zset, R := WritableZSet(key, d);
      score := zset.IncrBy(member, delta);
      SaveZSet(key, zset, R);
    }

    method ZPopMin(key: string, now: int) returns (popped: Option<Entry>)
      requires Valid()
      modifies this, Repr
      ensures Valid() && fresh(Repr - old(Repr)) && snaps == old(snaps)
      ensures Model() == Effect(old(Model()), Command.ZPopMin(key, now))
      ensures var live := Live(old(Model()), key, now);
              match ScoresAt(live, key)
              case None => popped == None
              case Some(scores) => popped == Lowest(scores)
    {
      hide Holds, Indexes, ZSet.Valid, SaveScores, Ranking, Effect, Live;
      EffectOnScores(Model(), Command.ZPopMin(key, now));
      var d := Fetch(key, now);
      KindAt(key);
      if d.Some? && !d.value.ZSetData? {
        return None;
      }
      RankingSize(map[]);
      if d.None? {
        return None;
      }
      popped := PopMinOn(key, d);
    }

    method PopMinOn(key: string, d: Option<Data>) returns (popped: Option<Entry>)
      requires Valid() && d == (if key in cat then Some(cat[key].data) else None)
      requires d.Some? ==> d.value.ZSetData?
      modifies this, Repr
      ensures Valid() && fresh(Repr - old(Repr)) && snaps == old(snaps)
      ensures ScoresAt(old(Model()), key).Some?
      ensures var scores := ScoresAt(old(Model()), key).value;
              popped == Lowest(scores) && Model() == SaveScores(old(Model()), key, Popped(scores, popped))
    {
      hide Holds, Indexes, ZSet.Valid, SaveScores, Model, ScoresAt, Lowest, Popped;
      var zset, R := WritableZSet(key, d);
      popped := zset.PopMin();
      SaveZSet(key, zset, R);
    }

    method ZPopMax(key: string, now: int) returns (popped: Option<Entry>)
      requires Valid()
      modifies this, Repr
      ensures Valid() && fresh(Repr - old(Repr)) && snaps == old(snaps)
      ensures Model() == Effect(old(Model()), Command.ZPopMax(key, now))
      ensures var live := Live(old(Model()), key, now);
              match ScoresAt(live, key)
              case None => popped == None
              case Some(scores) => popped == Highest(scores)
    {
      hide Holds, Indexes, ZSet.Valid, SaveScores, Ranking, Effect, Live;
      EffectOnScores(Model(), Command.ZPopMax(key, now));
      var d := Fetch(key, now);
      KindAt(key);
      if d.Some? && !d.value.ZSetData? {
        return None;
      }
      RankingSize(map[]);
      if d.None? {
        return None;
      }
      popped := PopMaxOn(key, d);
    }

    method PopMaxOn(key: string, d: Option<Data>) returns (popped: Option<Entry>)
      requires Valid() && d == (if key in cat then Some(cat[key].data) else None)
      requires d.Some? ==> d.value.ZSetData?
      modifies this, Repr
      ensures Valid() && fresh(Repr - old(Repr)) && snaps == old(snaps)
      ensures ScoresAt(old(Model()), key).Some?
      ensures var scores := ScoresAt(old(Model()), key).value;
              popped == Highest(scores) && Model() == SaveScores(old(Model()), key, Popped(scores, popped))
    {
      hide Holds, Indexes, ZSet.Valid, SaveScores, Model, ScoresAt, Highest, Popped;
      var zset, R := WritableZSet(key, d);
      popped := zset.PopMax();
      SaveZSet(key, zset, R);
    }

    method ZRemRangeByScore(key: string, min: real, max: real, now: int) returns (removed: nat)
      requires Valid()
      modifies this, Repr
      ensures Valid() && fresh(Repr - old(Repr)) && snaps == old(snaps)
      ensures Model() == Effect(old(Model()), Command.ZRemRangeByScore(key, min, max, now))
      ensures var live := Live(old(Model()), key, now);
              match ScoresAt(live, key)
              case None => removed == 0
              case Some(scores) =>
                removed == |scores| - |map m | m in scores && !(min <= scores[m] <= max) :: scores[m]|
    {
      hide Holds, Indexes, ZSet.Valid, SaveScores, Effect, Live;
      EffectOnScores(Model(), Command.ZRemRangeByScore(key, min, max, now));
      var d := Fetch(key, now);
      KindAt(key);
      if d.Some? && !d.value.ZSetData? {
        return 0;
      }
      if d.None? {
        return 0;
      }
      removed := RemoveScores(key, d, min, max);
    }

    method RemoveScores(key: string, d: Option<Data>, min: real, max: real) returns (removed: nat)
      requires Valid() && d == (if key in cat then Some(cat[key].data) else None)
      requires d.Some? ==> d.value.ZSetData?
      modifies this, Repr
      ensures Valid() && fresh(Repr - old(Repr)) && snaps == old(snaps)
      ensures ScoresAt(old(Model()), key).Some?
      ensures var scores := ScoresAt(old(Model()), key).value;
              var rest := map m | m in scores && !(min <= scores[m] <= max) :: scores[m];
              removed == |scores| - |rest| && Model() == SaveScores(old(Model()), key, rest)
    {
      hide Holds, Indexes, ZSet.Valid, SaveScores, Contents, ScoresAt;
      var zset, R := WritableZSet(key, d);
      removed := zset.RemoveRangeByScore(min, max);
      SaveZSet(key, zset, R);
    }

    /** The index clamping of the rank-range commands. */
    method RankLimits(length: nat, start: int, stop: int) returns (low: int, high: int)
      ensures low == (if Normal(start, length) < 0 then 0 else Normal(start, length))
      ensures high == Min(Normal(stop, length), length - 1)
    {
      low, high := start, stop;
      if low < 0 {
        low := length + low;
      }
      if high < 0 {
        high := length + high;
      }
      if low < 0 {
        low := 0;
      }
      if high >= length {
        high := length - 1;
      }
    }

    method ZRemRangeByRank(key: string, start: int, stop: int, now: int) returns (removed: nat)
      requires Valid()
      modifies this, Repr
      ensures Valid() && fresh(Repr - old(Repr)) && snaps == old(snaps)
      ensures Model() == Effect(old(Model()), Command.ZRemRangeByRank(key, start, stop, now))
      ensures var live := Live(old(Model()), key, now);
              match ScoresAt(live, key)
              case None => removed == 0
              case Some(scores) => removed == |scores| - |Without(scores, Window(Ranking(scores), start, stop))|
    {
      hide Holds, Indexes, ZSet.Valid, SaveScores, Ranking, Without, Window, RankSlice, Effect, Live;
      EffectOnScores(Model(), Command.ZRemRangeByRank(key, start, stop, now));
      var d := Fetch(key, now);
      KindAt(key);
      if d.Some? && !d.value.ZSetData? {
        return 0;
      }
      if d.None? {
        WindowOfNone(start, stop);
        return 0;
      }
      removed := RemoveWindow(key, d, start, stop);
    }

    method RemoveWindow(key: string, d: Option<Data>, start: int, stop: int) returns (removed: nat)
      requires Valid() && d == (if key in cat then Some(cat[key].data) else None)
      requires d.Some? && d.value.ZSetData?
      modifies this, Repr
      ensures Valid() && fresh(Repr - old(Repr)) && snaps == old(snaps)
      ensures ScoresAt(old(Model()), key).Some?
      ensures var scores := ScoresAt(old(Model()), key).value;
              var gone := Window(Ranking(scores), start, stop);
              && removed == |scores| - |Without(scores, gone)|
              && Model() ==
                 if gone == [] then old(Model()) else SaveScores(old(Model()), key, Without(scores, gone))
    {
      hide Holds, Indexes, ZSet.Valid, SaveScores, Ranking, Without, Window, RankSlice;
      StoredZSet(key);
      var scores := d.value.zset.dict;
      RankingSize(scores);
      ClampedSlice(Ranking(scores), start, stop);
      WithoutNone(scores);
      var low, high := RankLimits(|scores|, start, stop);
      if low > high {
        return 0;
      }
      removed := RemoveRanks(key, d, low, high);
    }

    method RemoveRanks(key: string, d: Option<Data>, low: int, high: int) returns (removed: nat)
      requires Valid() && d == (if key in cat then Some(cat[key].data) else None)
      requires d.Some? && d.value.ZSetData?
      modifies this, Repr
      ensures Valid() && fresh(Repr - old(Repr)) && snaps == old(snaps)
      ensures var scores := ScoresAt(old(Model()), key);
              && scores.Some?
              && Model() == SaveScores(old(Model()), key,
                Without(scores.value, RankSlice(Ranking(scores.value), low, high)))
              && removed == |scores.value| - |Without(scores.value, RankSlice(Ranking(scores.value), low, high))|
    {
      hide Holds, Indexes, ZSet.Valid, SaveScores, Ranking, Without, RankSlice, Contents;
      var zset, R := WritableZSet(key, d);
      removed := zset.RemoveRangeByRank(low, high);
      SaveZSet(key, zset, R);
    }

    /** ZRANGE and ZREVRANGE: positions start..stop of the ranking, or of its mirror image. */
    method ZRange(key: string, start: int, stop: int, reverse: bool, now: int) returns (result: seq<Entry>)
      requires Valid()
      modifies this, Repr
      ensures Valid() && Repr == old(Repr) && snaps == old(snaps)
      ensures Model() == Live(old(Model()), key, now)
      ensures match ScoresAt(Model(), key)
              case None => result == []
              case Some(scores) =>
                result == Window(if reverse then Reverse(Ranking(scores)) else Ranking(scores), start, stop)
    {
      hide Holds, Indexes, ZSet.Valid, Ranking, Window, RankSlice, Reverse;
      var d := Fetch(key, now);
      KindAt(key);
      if d.Some? && !d.value.ZSetData? {
        return [];
      }
      if d.None? {
        WindowOfNone(start, stop);
        return [];
      }
      StoredZSet(key);
      var scores := d.value.zset.dict;
      RankingSize(scores);
      ReversedLength(Ranking(scores));
      ClampedSlice(Ranking(scores), start, stop);
      ClampedSlice(Reverse(Ranking(scores)), start, stop);
      var low, high := RankLimits(|scores|, start, stop);
      if low > high {
        return [];
      }
      result := d.value.zset.RangeByRank(low, high, reverse);
    }

    // ---------- whole runs ----------

    method ExecuteList(c: Command)
      requires Valid() && OfList(c)
      modifies this, Repr
      ensures Valid() && fresh(Repr - old(Repr)) && snaps == old(snaps)
      ensures Model() == Effect(old(Model()), c)
    {
      hide Holds, Indexes, Effect, Contents, Live, ItemsAt;
      match c {
        case LPush(key, values, now) => var _ := LPush(key, values, now);
        case RPush(key, values, now) => var _ := RPush(key, values, now);
        case LPop(key, count, now) => var _ := LPop(key, count, now);
        case RPop(key, count, now) => var _ := RPop(key, count, now);
        case LSet(key, index, value, now) => var _ := LSet(key, index, value, now);
        case LRem(key, count, value, now) => var _ := LRem(key, count, value, now);
        case LTrim(key, start, stop, now) => var _ := LTrim(key, start, stop, now);
        case LInsert(key, before, pivot, value, now) => var _ := LInsert(key, before, pivot, value, now);
      }
    }

    method ExecuteZSet(c: Command)
      requires Valid() && OfZSet(c)
      modifies this, Repr
      ensures Valid() && fresh(Repr - old(Repr)) && snaps == old(snaps)
      ensures Model() == Effect(old(Model()), c)
    {
      hide Holds, Indexes, Effect, Contents, Live, ScoresAt;
      match c {
        case ZAdd(key, entries, now) => var _ := ZAdd(key, entries, now);
        case ZRem(key, members, now) => var _ := ZRem(key, members, now);
        case ZIncrBy(key, delta, member, now) => var _ := ZIncrBy(key, delta, member, now);
        case ZPopMin(key, now) => var _ := ZPopMin(key, now);
        case ZPopMax(key, now) => var _ := ZPopMax(key, now);
        case ZRemRangeByScore(key, min, max, now) => var _ := ZRemRangeByScore(key, min, max, now);
        case ZRemRangeByRank(key, start, stop, now) => var _ := ZRemRangeByRank(key, start, stop, now);
      }
    }

    /** Every writing command has its reference effect on the store and none on any snapshot. */
    method Execute(c: Command)
      requires Valid()
      modifies this, Repr
      ensures Valid() && fresh(Repr - old(Repr)) && snaps == old(snaps)
      ensures Model() == Effect(old(Model()), c)
    {
      hide Holds, Indexes, Contents, Live;
      if OfList(c) {
        ExecuteList(c);
      } else if OfZSet(c) {
        ExecuteZSet(c);
      } else {
        match c {
          case Set(key, text, expiry) => Set(key, text, expiry);
          case Delete(key) => var _ := Delete(key);
          case Flush => Flush();
          case Expire(key, expiry, now) => var _ := Expire(key, expiry, now);
          case IncrBy(key, increment, parse, now) => var _ := IncrBy(key, increment, parse, now);
        }
      }
    }

    /** The store and its active snapshots as a reference state; Valid() says that each
      * snapshot's heap cells still hold it. */
    ghost function Abstract(): Reference
      reads `cat, `snaps
    {
      Reference(Model(), AllContents(snaps))
    }

    /** One event; taking a snapshot hands out its map. */
    method Perform(e: Event) returns (handed: map<string, Value>)
      requires Valid() && Possible(Abstract(), e)
      modifies this, Repr
      ensures Valid() && fresh(Repr - old(Repr))
      ensures Abstract() == Step(old(Abstract()), e)
      ensures forall i: nat :: i < |old(snaps)| && Moved(i, e).Some? ==>
                Moved(i, e).value < |snaps| && snaps[Moved(i, e).value] == old(snaps)[i]
      ensures e.Take? ==> |snaps| == |old(snaps)| + 1 && handed == ValueCells(snaps[|old(snaps)|])
                          && Contents(snaps[|old(snaps)|]) == old(Model())
    {
      hide Holds, Indexes, Contents, Effect;
      handed := map[];
      match e {
        case Do(c) => Execute(c);
        case Take => handed := GetAllData();
        case Release(i) => ReleaseSnapshot(i);
      }
    }

    /** An active snapshot's cells and all that they lead to hold what it was taken of. */
    lemma Readable(i: nat)
      requires Valid() && i < |snaps|
      ensures Shows(ValueCells(snaps[i]), Contents(snaps[i]))
    {
      assert Agrees(snaps[i], Repr);
    }

    /** Snapshot isolation: over every run of commands, snapshots and releases, in-place updates
      * with copy-on-write behave like a keyspace whose snapshots are plain copies. A snapshot
      * that was active before and is not released keeps its cells, and what a holder reads
      * from the map of a snapshot taken at time t is the store as it was just before t, until
      * that snapshot is released. */
    method PerformAll(events: seq<Event>) returns (handed: seq<map<string, Value>>)
      requires Valid() && Runnable(Abstract(), events)
      modifies this, Repr
      ensures Valid() && fresh(Repr - old(Repr))
      ensures Abstract() == Run(old(Abstract()), events)
      ensures forall i: nat :: i < |old(snaps)| && StillAt(i, events).Some? ==>
                StillAt(i, events).value < |snaps| && snaps[StillAt(i, events).value] == old(snaps)[i]
      ensures Handed(old(Abstract()), events, handed)
      decreases |events|
    {
      hide Holds, Indexes, Contents, Effect, Step, Handed, Shows;
      if events == [] {
        HandedNone(Abstract());
        return [];
      }
      ghost var r := Abstract();
      var first := Perform(events[0]);
      ghost var taken := |snaps| - 1;
      var rest := PerformAll(events[1..]);
      handed := [first] + rest;
      if events[0].Take? && StillAt(taken, events[1..]).Some? {
        Readable(StillAt(taken, events[1..]).value);
      }
      HandedCons(r, events, first, rest);
    }

    /** A holder's view: after taking a snapshot, any run that does not release it leaves all
      * that can be read through it as it was. */
    method HoldWhile(events: seq<Event>) returns (snapshot: map<string, Value>)
      requires Valid() && Runnable(Step(Abstract(), Take), events) && StillAt(|snaps|, events).Some?
      modifies this, Repr
      ensures Valid() && Shows(snapshot, old(Model()))
    {
      hide Holds, Indexes, Contents, Effect, Step, Shows;
      snapshot := Perform(Take);
      ghost var taken := |snaps| - 1;
      var _ := PerformAll(events);
      Readable(StillAt(taken, events).value);
    }
  }
}
