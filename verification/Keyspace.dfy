/** The store as a value, and what each command makes of it. */
module Keyspaces {
  import opened Decimals
  import opened Options
  import opened Order
  import opened Rankings
  import opened Sequences

  datatype Payload = Text(text: string) | Items(items: seq<string>) | Scored(scores: Scores)

  /** A payload with the time after which it is gone. */
  datatype Record = Record(payload: Payload, expiresAt: Option<int>)

  type Keyspace = map<string, Record>

  ghost predicate Expired(ks: Keyspace, key: string, now: int)
  {
    key in ks && ks[key].expiresAt.Some? && now > ks[key].expiresAt.value
  }

  /** Every access first drops the key if its time has passed. */
  ghost function Live(ks: Keyspace, key: string, now: int): Keyspace
  {
    if Expired(ks, key, now) then ks - {key} else ks
  }

  // Saving a collection drops its expiry; an empty collection is not kept.

  ghost function SaveItems(ks: Keyspace, key: string, items: seq<string>): Keyspace
  {
    if items == [] then ks - {key} else ks[key := Record(Items(items), None)]
  }

  ghost function SaveScores(ks: Keyspace, key: string, scores: Scores): Keyspace
  {
    if scores == map[] then ks - {key} else ks[key := Record(Scored(scores), None)]
  }

  /** The list under a key; a missing key is an empty list, a key of another type is none. */
  ghost function ItemsAt(ks: Keyspace, key: string): Option<seq<string>>
  {
    if key !in ks then Some([])
    else if ks[key].payload.Items? then Some(ks[key].payload.items) else None
  }

  ghost function ScoresAt(ks: Keyspace, key: string): Option<Scores>
  {
    if key !in ks then Some(map[])
    else if ks[key].payload.Scored? then Some(ks[key].payload.scores) else None
  }

  /** The number under a key; a missing key counts as 0, other than a number is none. */
  ghost function NumberAt(ks: Keyspace, key: string, parse: string -> Option<int>): Option<int>
  {
    if key !in ks then Some(0)
    else if ks[key].payload.Text? then parse(ks[key].payload.text) else None
  }

  // ---------- the writing commands ----------

  datatype Command =
    | Set(key: string, text: string, expiry: Option<int>)
    | Delete(key: string)
    | Flush
    | Expire(key: string, expiry: Option<int>, now: int)
    | IncrBy(key: string, increment: int, parse: string -> Option<int>, now: int)
    | LPush(key: string, values: seq<string>, now: int)
    | RPush(key: string, values: seq<string>, now: int)
    | LPop(key: string, count: int, now: int)
    | RPop(key: string, count: int, now: int)
    | LSet(key: string, index: int, value: string, now: int)
    | LRem(key: string, count: int, value: string, now: int)
    | LTrim(key: string, start: int, stop: int, now: int)
    | LInsert(key: string, before: bool, pivot: string, value: string, now: int)
    | ZAdd(key: string, entries: seq<Entry>, now: int)
    | ZRem(key: string, members: seq<string>, now: int)
    | ZIncrBy(key: string, delta: real, member: string, now: int)
    | ZPopMin(key: string, now: int)
    | ZPopMax(key: string, now: int)
    | ZRemRangeByScore(key: string, min: real, max: real, now: int)
    | ZRemRangeByRank(key: string, start: int, stop: int, now: int)

  /** What a list command leaves under its key, or None when it leaves the key alone. */
  ghost function ListEffect(c: Command, s: seq<string>, present: bool): Option<seq<string>>
  {
    match c
    case LPush(_, values, _) => Some(PushLeft(s, values))
    case RPush(_, values, _) => Some(s + values)
    case LPop(_, count, _) => if s == [] then None else Some(s[PopCount(count, |s|)..])
    case RPop(_, count, _) => if s == [] then None else Some(s[..|s| - PopCount(count, |s|)])
    case LSet(_, index, value, _) =>
      if 0 <= Normal(index, |s|) < |s| then Some(s[Normal(index, |s|) := value]) else None
    case LRem(_, count, value, _) => if s == [] then None else Some(Rem(s, count, value))
    case LTrim(_, start, stop, _) => if present then Some(Window(s, start, stop)) else None
    case LInsert(_, before, pivot, value, _) => if pivot in s then Some(Splice(s, before, pivot, value)) else None
    case _ => None
  }

  ghost function ZSetEffect(c: Command, d: Scores, present: bool): Option<Scores>
  {
    match c
    case ZAdd(_, entries, _) => Some(AddAll(d, entries))
    case ZRem(_, members, _) => if present then Some(Dropped(d, members)) else None
    case ZIncrBy(_, delta, m, _) => Some(d[m := (if m in d then d[m] else 0.0) + delta])
    case ZPopMin(_, _) => if present then Some(Popped(d, Lowest(d))) else None
    case ZPopMax(_, _) => if present then Some(Popped(d, Highest(d))) else None
    case ZRemRangeByScore(_, min, max, _) =>
      if present then Some(map m | m in d && !(min <= d[m] <= max) :: d[m]) else None
    case ZRemRangeByRank(_, start, stop, _) =>
      var gone := Window(Ranking(d), start, stop);
      if gone == [] then None else Some(Without(d, gone))
    case _ => None
  }

  ghost function OnItems(ks: Keyspace, key: string, c: Command): Keyspace
  {
    match ItemsAt(ks, key)
    case None => ks
    case Some(s) =>
      match ListEffect(c, s, key in ks)
      case None => ks
      case Some(s') => SaveItems(ks, key, s')
  }

  ghost function OnScores(ks: Keyspace, key: string, c: Command): Keyspace
  {
    match ScoresAt(ks, key)
    case None => ks
    case Some(d) =>
      match ZSetEffect(c, d, key in ks)
      case None => ks
      case Some(d') => SaveScores(ks, key, d')
  }

  /** The reference meaning of a command on the keyspace. */
  ghost function Effect(ks: Keyspace, c: Command): Keyspace
  {
    match c
    case Set(key, text, expiry) => ks[key := Record(Text(text), expiry)]
    case Delete(key) => ks - {key}
    case Flush => map[]
    case Expire(key, expiry, now) =>
      var live := Live(ks, key, now);
      if key in live then live[key := live[key].(expiresAt := expiry)] else live
    case IncrBy(key, increment, parse, now) =>
      var live := Live(ks, key, now);
      (match NumberAt(live, key, parse)
       case None => live
       case Some(n) => live[key := Record(Text(Number(Wrapped(n + increment))), None)])
    case LPush(key, _, now) => OnItems(Live(ks, key, now), key, c)
    case RPush(key, _, now) => OnItems(Live(ks, key, now), key, c)
    case LPop(key, _, now) => OnItems(Live(ks, key, now), key, c)
    case RPop(key, _, now) => OnItems(Live(ks, key, now), key, c)
    case LSet(key, _, _, now) => OnItems(Live(ks, key, now), key, c)
    case LRem(key, _, _, now) => OnItems(Live(ks, key, now), key, c)
    case LTrim(key, _, _, now) => OnItems(Live(ks, key, now), key, c)
    case LInsert(key, _, _, _, now) => OnItems(Live(ks, key, now), key, c)
    case ZAdd(key, _, now) => OnScores(Live(ks, key, now), key, c)
    case ZRem(key, _, now) => OnScores(Live(ks, key, now), key, c)
    case ZIncrBy(key, _, _, now) => OnScores(Live(ks, key, now), key, c)
    case ZPopMin(key, now) => OnScores(Live(ks, key, now), key, c)
    case ZPopMax(key, now) => OnScores(Live(ks, key, now), key, c)
    case ZRemRangeByScore(key, _, _, now) => OnScores(Live(ks, key, now), key, c)
    case ZRemRangeByRank(key, _, _, now) => OnScores(Live(ks, key, now), key, c)
  }

  predicate OfList(c: Command)
  {
    c.LPush? || c.RPush? || c.LPop? || c.RPop? || c.LSet? || c.LRem? || c.LTrim? || c.LInsert?
  }

  predicate OfZSet(c: Command)
  {
    c.ZAdd? || c.ZRem? || c.ZIncrBy? || c.ZPopMin? || c.ZPopMax? || c.ZRemRangeByScore? || c.ZRemRangeByRank?
  }

  lemma EffectOnItems(ks: Keyspace, c: Command)
    requires OfList(c)
    ensures var live := Live(ks, c.key, c.now);
            Effect(ks, c) == match ItemsAt(live, c.key)
                             case None => live
                             case Some(s) => match ListEffect(c, s, c.key in live)
                                             case None => live
                                             case Some(s') => SaveItems(live, c.key, s')
  {
  }

  lemma EffectOnScores(ks: Keyspace, c: Command)
    requires OfZSet(c)
    ensures var live := Live(ks, c.key, c.now);
            Effect(ks, c) == match ScoresAt(live, c.key)
                             case None => live
                             case Some(d) => match ZSetEffect(c, d, c.key in live)
                                             case None => live
                                             case Some(d') => SaveScores(live, c.key, d')
  {
  }

  lemma EffectIncrBy(ks: Keyspace, key: string, increment: int, parse: string -> Option<int>, now: int)
    ensures var live := Live(ks, key, now);
            Effect(ks, IncrBy(key, increment, parse, now)) ==
            match NumberAt(live, key, parse)
            case None => live
            case Some(n) => live[key := Record(Text(Number(Wrapped(n + increment))), None)]
  {
  }

  lemma WrappedTwice(n: int, a: int, b: int)
    ensures Wrapped(Wrapped(n + a) + b) == Wrapped(n + (a + b))
  {
  }

  /** Increments add up, whatever overflows on the way, as long as the reader of numbers reads
    * what the counter writes. */
  lemma IncrementsAdd(ks: Keyspace, key: string, a: int, b: int, parse: string -> Option<int>, now: int)
    requires forall n :: Wrapped(n) == n ==> parse(Number(n)) == Some(n)
    ensures Effect(Effect(ks, IncrBy(key, a, parse, now)), IncrBy(key, b, parse, now)) ==
            Effect(ks, IncrBy(key, a + b, parse, now))
  {
    hide Effect, Number, Wrapped;
    EffectIncrBy(ks, key, a, parse, now);
    EffectIncrBy(ks, key, a + b, parse, now);
    var once := Effect(ks, IncrBy(key, a, parse, now));
    EffectIncrBy(once, key, b, parse, now);
    var n := NumberAt(Live(ks, key, now), key, parse);
    if n.Some? {
      WrappedTwice(n.value, a, b);
      WrappedTwice(n.value, a, 0);
      assert Wrapped(Wrapped(n.value + a)) == Wrapped(n.value + a);
    }
  }

  // ---------- whole runs, with snapshots that are plain copies ----------

  datatype Event = Do(command: Command) | Take | Release(index: nat)

  /** The keyspace, and the copies of it that are still in use. */
  datatype Reference = Reference(now: Keyspace, copies: seq<Keyspace>)

  ghost predicate Possible(r: Reference, e: Event)
  {
    e.Release? ==> e.index < |r.copies|
  }

  ghost function Step(r: Reference, e: Event): Reference
    requires Possible(r, e)
  {
    match e
    case Do(c) => Reference(Effect(r.now, c), r.copies)
    case Take => Reference(r.now, r.copies + [r.now])
    case Release(i) => Reference(r.now, r.copies[..i] + r.copies[i + 1..])
  }

  ghost predicate Runnable(r: Reference, events: seq<Event>)
    decreases |events|
  {
    events == [] || (Possible(r, events[0]) && Runnable(Step(r, events[0]), events[1..]))
  }

  ghost function Run(r: Reference, events: seq<Event>): Reference
    requires Runnable(r, events)
    decreases |events|
  {
    if events == [] then r else Run(Step(r, events[0]), events[1..])
  }

  // ---------- following a snapshot through a run ----------

  /** Where the copy at position i is after an event, unless it was released. */
  ghost function Moved(i: nat, e: Event): Option<nat>
  {
    if !e.Release? || e.index > i then Some(i) else if e.index == i then None else Some(i - 1)
  }

  ghost function StillAt(i: nat, events: seq<Event>): Option<nat>
    decreases |events|
  {
    if events == [] then Some(i)
    else match Moved(i, events[0])
      case None => None
      case Some(j) => StillAt(j, events[1..])
  }

  /** The reference just before event t. */
  ghost function Before(r: Reference, events: seq<Event>, t: nat): Reference
    requires Runnable(r, events) && t <= |events|
    decreases t
  {
    if t == 0 then r else Before(Step(r, events[0]), events[1..], t - 1)
  }

  /** A copy that is kept still holds what it held: snapshots of the reference are values. */
  lemma {:induction false} StillCopied(r: Reference, events: seq<Event>, i: nat)
    requires Runnable(r, events) && i < |r.copies| && StillAt(i, events).Some?
    ensures var j := StillAt(i, events).value;
            j < |Run(r, events).copies| && Run(r, events).copies[j] == r.copies[i]
    decreases |events|
  {
    hide Effect;
    if events != [] {
      StillCopied(Step(r, events[0]), events[1..], Moved(i, events[0]).value);
    }
  }
}
