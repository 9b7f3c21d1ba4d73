/** What each command leaves in the store, said outright: positions, counts and scores instead
  * of the functions that compute them. */
module CommandLaws {
  import opened Options
  import opened Order
  import opened Rankings
  import opened Sequences
  import opened Keyspaces

  /** The key is there and its time has not passed: it lasts up to and including its expiry. */
  ghost predicate Present(ks: Keyspace, key: string, now: int)
  {
    key in ks && (ks[key].expiresAt.None? || now <= ks[key].expiresAt.value)
  }

  ghost predicate ListOf(ks: Keyspace, key: string, now: int, s: seq<string>)
  {
    if Present(ks, key, now) then ks[key].payload == Items(s) else s == []
  }

  ghost predicate ScoresOf(ks: Keyspace, key: string, now: int, d: Scores)
  {
    if Present(ks, key, now) then ks[key].payload == Scored(d) else d == map[]
  }

  ghost predicate SameElsewhere(ks: Keyspace, ks': Keyspace, key: string)
  {
    forall k :: k != key ==> (k in ks' <==> k in ks) && (k in ks ==> ks'[k] == ks[k])
  }

  /** Nothing but this list under this key, without an expiry; no empty list is kept. */
  ghost predicate LeavesList(ks: Keyspace, ks': Keyspace, key: string, r: seq<string>)
  {
    && SameElsewhere(ks, ks', key)
    && (key in ks' <==> r != []) && (r != [] ==> ks'[key] == Record(Items(r), None))
  }

  ghost predicate LeavesScores(ks: Keyspace, ks': Keyspace, key: string, d: Scores)
  {
    && SameElsewhere(ks, ks', key)
    && (key in ks' <==> d != map[]) && (d != map[] ==> ks'[key] == Record(Scored(d), None))
  }

  /** The key is as it was, or gone with its time. */
  ghost predicate LeavesAlone(ks: Keyspace, ks': Keyspace, key: string, now: int)
  {
    && SameElsewhere(ks, ks', key)
    && (key in ks' <==> Present(ks, key, now)) && (key in ks' ==> ks'[key] == ks[key])
  }

  // ---------- every command ----------

  lemma LiveMeans(ks: Keyspace, key: string, now: int)
    ensures LeavesAlone(ks, Live(ks, key, now), key, now)
  {
  }

  lemma SavedItems(ks: Keyspace, live: Keyspace, key: string, r: seq<string>)
    requires SameElsewhere(ks, live, key)
    ensures LeavesList(ks, SaveItems(live, key, r), key, r)
  {
  }

  lemma SavedScores(ks: Keyspace, live: Keyspace, key: string, r: Scores)
    requires SameElsewhere(ks, live, key)
    ensures LeavesScores(ks, SaveScores(live, key, r), key, r)
  {
  }

  /** A command concerns its key alone. */
  lemma OtherKeysStay(ks: Keyspace, c: Command)
    requires !c.Flush?
    ensures SameElsewhere(ks, Effect(ks, c), c.key)
  {
    if OfList(c) {
      ListKeysStay(ks, c);
    } else if OfZSet(c) {
      ZSetKeysStay(ks, c);
    }
  }

  lemma ListKeysStay(ks: Keyspace, c: Command)
    requires OfList(c)
    ensures SameElsewhere(ks, Effect(ks, c), c.key)
  {
    hide Effect, Live, ListEffect, SaveItems, SameElsewhere;
    EffectOnItems(ks, c);
    var live := Live(ks, c.key, c.now);
    LiveMeans(ks, c.key, c.now);
    if ItemsAt(live, c.key).Some? {
      var r := ListEffect(c, ItemsAt(live, c.key).value, c.key in live);
      if r.Some? { SavedItems(ks, live, c.key, r.value); }
    }
  }

  lemma ZSetKeysStay(ks: Keyspace, c: Command)
    requires OfZSet(c)
    ensures SameElsewhere(ks, Effect(ks, c), c.key)
  {
    hide Effect, Live, ZSetEffect, SaveScores, SameElsewhere;
    EffectOnScores(ks, c);
    var live := Live(ks, c.key, c.now);
    LiveMeans(ks, c.key, c.now);
    if ScoresAt(live, c.key).Some? {
      var r := ZSetEffect(c, ScoresAt(live, c.key).value, c.key in live);
      if r.Some? { SavedScores(ks, live, c.key, r.value); }
    }
  }

  /** A key of another type is left alone. */
  lemma OtherTypesStay(ks: Keyspace, c: Command)
    requires OfList(c) || OfZSet(c)
    requires Present(ks, c.key, c.now)
    requires if OfList(c) then !ks[c.key].payload.Items? else !ks[c.key].payload.Scored?
    ensures LeavesAlone(ks, Effect(ks, c), c.key, c.now)
  {
    hide Effect, Live, ListEffect, ZSetEffect, SameElsewhere;
    LiveMeans(ks, c.key, c.now);
    if OfList(c) { EffectOnItems(ks, c); } else { EffectOnScores(ks, c); }
  }

  /** EXPIRE sets the time of a key that is there, and finds no other. */
  lemma ExpireLaw(ks: Keyspace, key: string, expiry: Option<int>, now: int)
    ensures var ks' := Effect(ks, Expire(key, expiry, now));
            && SameElsewhere(ks, ks', key) && (key in ks' <==> Present(ks, key, now))
            && (key in ks' ==> ks'[key] == Record(ks[key].payload, expiry))
  {
  }

  lemma ItemsForm(ks: Keyspace, c: Command, s: seq<string>)
    requires OfList(c) && ListOf(ks, c.key, c.now, s)
    ensures var p := Present(ks, c.key, c.now);
            match ListEffect(c, s, p)
            case None => LeavesAlone(ks, Effect(ks, c), c.key, c.now)
            case Some(r) => LeavesList(ks, Effect(ks, c), c.key, r)
  {
    hide Effect, Live, ListEffect, SaveItems, SameElsewhere;
    EffectOnItems(ks, c);
    LiveMeans(ks, c.key, c.now);
    var r := ListEffect(c, s, Present(ks, c.key, c.now));
    if r.Some? { SavedItems(ks, Live(ks, c.key, c.now), c.key, r.value); }
  }

  lemma ScoresForm(ks: Keyspace, c: Command, d: Scores)
    requires OfZSet(c) && ScoresOf(ks, c.key, c.now, d)
    ensures var p := Present(ks, c.key, c.now);
            match ZSetEffect(c, d, p)
            case None => LeavesAlone(ks, Effect(ks, c), c.key, c.now)
            case Some(r) => LeavesScores(ks, Effect(ks, c), c.key, r)
  {
    hide Effect, Live, ZSetEffect, SaveScores, SameElsewhere;
    EffectOnScores(ks, c);
    LiveMeans(ks, c.key, c.now);
    var r := ZSetEffect(c, d, Present(ks, c.key, c.now));
    if r.Some? { SavedScores(ks, Live(ks, c.key, c.now), c.key, r.value); }
  }

  /** Without the key there is nothing to take, overwrite or trim. */
  lemma AbsentLaw(ks: Keyspace, c: Command)
    requires (OfList(c) || OfZSet(c)) && !Present(ks, c.key, c.now)
    requires !c.LPush? && !c.RPush? && !c.ZAdd? && !c.ZIncrBy?
    ensures LeavesAlone(ks, Effect(ks, c), c.key, c.now)
  {
    hide Effect, LeavesList, LeavesScores;
    if OfList(c) {
      ItemsForm(ks, c, []);
    } else {
      ScoresForm(ks, c, map[]);
      if c.ZRemRangeByRank? { WindowOfNone(c.start, c.stop); }
    }
  }

  // ---------- lists ----------

  /** RPUSH appends the values in order. */
  lemma RPushLaw(ks: Keyspace, key: string, vs: seq<string>, now: int, s: seq<string>)
    requires ListOf(ks, key, now, s)
    ensures LeavesList(ks, Effect(ks, RPush(key, vs, now)), key, s + vs)
  {
    hide Effect, ListOf, LeavesList;
    ItemsForm(ks, RPush(key, vs, now), s);
  }

  /** LPUSH puts the values in front, the last one first. */
  lemma LPushLaw(ks: Keyspace, key: string, vs: seq<string>, now: int, s: seq<string>) returns (r: seq<string>)
    requires ListOf(ks, key, now, s)
    ensures LeavesList(ks, Effect(ks, LPush(key, vs, now)), key, r)
    ensures |r| == |vs| + |s| && r[|vs|..] == s && forall i :: 0 <= i < |vs| ==> r[i] == vs[|vs| - 1 - i]
  {
    hide Effect, ListOf, LeavesList, Reverse;
    ItemsForm(ks, LPush(key, vs, now), s);
    r := PushLeft(s, vs);
    ReverseAt(vs);
  }

  /** A pop takes at least one element, at most all, and otherwise as many as asked. */
  lemma PopLaw(ks: Keyspace, key: string, count: int, now: int, s: seq<string>)
    requires ListOf(ks, key, now, s) && s != []
    ensures var n := if count < 1 then 1 else if count > |s| then |s| else count;
            && LeavesList(ks, Effect(ks, LPop(key, count, now)), key, s[n..])
            && LeavesList(ks, Effect(ks, RPop(key, count, now)), key, s[..|s| - n])
  {
    hide Effect, ListOf, LeavesList;
    ItemsForm(ks, LPop(key, count, now), s);
    ItemsForm(ks, RPop(key, count, now), s);
  }

  /** LSET overwrites the position, counted from the end if negative, and nothing outside. */
  lemma LSetLaw(ks: Keyspace, key: string, index: int, v: string, now: int, s: seq<string>)
    requires ListOf(ks, key, now, s)
    ensures var p, ks' := if index < 0 then |s| + index else index, Effect(ks, LSet(key, index, v, now));
            if 0 <= p < |s| then LeavesList(ks, ks', key, s[p := v]) else LeavesAlone(ks, ks', key, now)
  {
    hide Effect, ListOf, LeavesList, LeavesAlone;
    ItemsForm(ks, LSet(key, index, v, now), s);
  }

  /** LREM clears the foremost copies, the hindmost, or all. */
  lemma LRemLaw(ks: Keyspace, key: string, count: int, v: string, now: int, s: seq<string>) returns (r: seq<string>)
    requires ListOf(ks, key, now, s) && s != []
    ensures LeavesList(ks, Effect(ks, LRem(key, count, v, now)), key, r)
    ensures count > 0 ==> ClearedAtHead(s, r, v, Min(count, Occurrences(s, v)))
    ensures count < 0 ==> ClearedAtTail(s, r, v, Min(-count, Occurrences(s, v)))
    ensures count == 0 ==> r == Others(s, v)
  {
    hide Effect, ListOf, LeavesList, Rem, ClearedAtHead, ClearedAtTail, Occurrences, Others, Min;
    ItemsForm(ks, LRem(key, count, v, now), s);
    r := Rem(s, count, v);
    RemExact(s, count, v);
  }

  /** LTRIM keeps exactly the positions from start to stop, counted from the end if negative. */
  lemma LTrimLaw(ks: Keyspace, key: string, start: int, stop: int, now: int, s: seq<string>) returns (a: nat, b: nat)
    requires ListOf(ks, key, now, s) && s != []
    ensures a <= b <= |s| && LeavesList(ks, Effect(ks, LTrim(key, start, stop, now)), key, s[a..b])
    ensures forall i :: 0 <= i < |s| ==> (a <= i < b <==> Between(|s|, start, stop, i))
  {
    hide Effect, LeavesList, Window, Between;
    ItemsForm(ks, LTrim(key, start, stop, now), s);
    a, b := WindowExactly(s, start, stop);
  }

  /** LINSERT puts the value beside the first pivot, and nowhere without one. */
  lemma LInsertLaw(ks: Keyspace, key: string, before: bool, pivot: string, v: string, now: int, s: seq<string>)
    returns (k: nat)
    requires ListOf(ks, key, now, s)
    ensures var ks' := Effect(ks, LInsert(key, before, pivot, v, now));
            if pivot !in s then LeavesAlone(ks, ks', key, now)
            else
              && k < |s| && s[k] == pivot && pivot !in s[..k]
              && LeavesList(ks, ks', key, if before then s[..k] + [v] + s[k..] else s[..k + 1] + [v] + s[k + 1..])
  {
    hide Effect, ListOf, LeavesList, LeavesAlone, Splice;
    ItemsForm(ks, LInsert(key, before, pivot, v, now), s);
    SpliceForm(s, before, pivot, v);
    k := IndexOf(s, pivot);
  }

  // ---------- sorted sets ----------

  /** The last of the entries that names the member. */
  ghost predicate LastNamed(es: seq<Entry>, m: string, i: nat)
  {
    i < |es| && es[i].member == m && forall j :: i < j < |es| ==> es[j].member != m
  }

  lemma {:induction false} AddAllMeans(d: Scores, es: seq<Entry>, m: string, i: nat)
    ensures (forall j :: 0 <= j < |es| ==> es[j].member != m) ==>
              (m in AddAll(d, es) <==> m in d) && (m in d ==> AddAll(d, es)[m] == d[m])
    ensures LastNamed(es, m, i) ==> m in AddAll(d, es) && AddAll(d, es)[m] == es[i].score
  {
    if es != [] {
      var n := |es| - 1;
      AddAllMeans(d, es[..n], m, i);
      if LastNamed(es, m, i) && i < n { assert es[n].member != m && LastNamed(es[..n], m, i); }
    }
  }

  /** ZADD gives each member named the score it is last given, and keeps the others. */
  lemma ZAddLaw(ks: Keyspace, key: string, es: seq<Entry>, now: int, d: Scores) returns (r: Scores)
    requires ScoresOf(ks, key, now, d)
    ensures LeavesScores(ks, Effect(ks, ZAdd(key, es, now)), key, r)
    ensures forall m :: (forall j :: 0 <= j < |es| ==> es[j].member != m) ==>
              (m in r <==> m in d) && (m in d ==> r[m] == d[m])
    ensures forall m, i: nat :: LastNamed(es, m, i) ==> m in r && r[m] == es[i].score
  {
    hide Effect, ScoresOf, LeavesScores, AddAll;
    ScoresForm(ks, ZAdd(key, es, now), d);
    r := AddAll(d, es);
    forall m | forall j :: 0 <= j < |es| ==> es[j].member != m
      ensures (m in r <==> m in d) && (m in d ==> r[m] == d[m])
    {
      AddAllMeans(d, es, m, 0);
    }
    forall m, i: nat | LastNamed(es, m, i) ensures m in r && r[m] == es[i].score {
      AddAllMeans(d, es, m, i);
    }
  }

  /** ZREM leaves exactly the members not named. */
  lemma ZRemLaw(ks: Keyspace, key: string, ms: seq<string>, now: int, d: Scores) returns (r: Scores)
    requires ScoresOf(ks, key, now, d) && Present(ks, key, now)
    ensures LeavesScores(ks, Effect(ks, ZRem(key, ms, now)), key, r)
    ensures forall m :: (m in r <==> m in d && m !in ms) && (m in r ==> r[m] == d[m])
  {
    hide Effect, ScoresOf, LeavesScores;
    ScoresForm(ks, ZRem(key, ms, now), d);
    r := Dropped(d, ms);
  }

  /** ZINCRBY adds to one score; a missing one counts as 0. */
  lemma ZIncrByLaw(ks: Keyspace, key: string, delta: real, m: string, now: int, d: Scores)
    requires ScoresOf(ks, key, now, d)
    ensures LeavesScores(ks, Effect(ks, ZIncrBy(key, delta, m, now)), key,
                         d[m := delta + if m in d then d[m] else 0.0])
  {
    hide Effect, ScoresOf, LeavesScores;
    ScoresForm(ks, ZIncrBy(key, delta, m, now), d);
  }

  /** `m` comes before `n` in a sorted set: by score, then in the dictionary order. */
  ghost predicate RanksBefore(d: Scores, m: string, n: string)
    requires m in d && n in d
  {
    d[m] < d[n] || (d[m] == d[n] && InDictionaryOrder(m, n))
  }

  lemma EndsOrdered(d: Scores, n: string)
    requires n in d
    ensures Lowest(d).Some? && Highest(d).Some?
    ensures var l, h := Lowest(d).value.member, Highest(d).value.member;
            l in d && h in d && (l == n || RanksBefore(d, l, n)) && (h == n || RanksBefore(d, n, h))
  {
    hide Lowest, Highest, InDictionaryOrder, StringLess, Ranking;
    RankingEnds(d);
    AgreesWith(d);
    StringLessExactly(Lowest(d).value.member, n);
    StringLessExactly(n, Highest(d).value.member);
  }

  lemma AgreesWith(d: Scores)
    ensures forall i :: 0 <= i < |Ranking(d)| ==>
              Ranking(d)[i].member in d && d[Ranking(d)[i].member] == Ranking(d)[i].score
  {
    assert forall i :: 0 <= i < |Ranking(d)| ==> Ranking(d)[i] in Ranking(d);
  }

  /** ZPOPMIN and ZPOPMAX take the member that ranks before, or behind, all others. */
  lemma ZPopLaw(ks: Keyspace, key: string, now: int, d: Scores) returns (l: string, h: string)
    requires ScoresOf(ks, key, now, d) && d != map[]
    ensures l in d && h in d
    ensures forall n :: n in d ==> (n == l || RanksBefore(d, l, n)) && (n == h || RanksBefore(d, n, h))
    ensures LeavesScores(ks, Effect(ks, ZPopMin(key, now)), key, d - {l})
    ensures LeavesScores(ks, Effect(ks, ZPopMax(key, now)), key, d - {h})
  {
    hide Effect, LeavesScores, Lowest, Highest, RanksBefore;
    ScoresForm(ks, ZPopMin(key, now), d);
    ScoresForm(ks, ZPopMax(key, now), d);
    forall n | n in d
      ensures Lowest(d).Some? && Highest(d).Some?
      ensures var l, h := Lowest(d).value.member, Highest(d).value.member;
              l in d && h in d && (l == n || RanksBefore(d, l, n)) && (h == n || RanksBefore(d, n, h))
    {
      EndsOrdered(d, n);
    }
    var n :| n in d;
    EndsOrdered(d, n);
    l, h := Lowest(d).value.member, Highest(d).value.member;
  }

  /** ZREMRANGEBYSCORE leaves exactly the scores outside the range. */
  lemma ZRemRangeByScoreLaw(ks: Keyspace, key: string, min: real, max: real, now: int, d: Scores) returns (r: Scores)
    requires ScoresOf(ks, key, now, d) && Present(ks, key, now)
    ensures LeavesScores(ks, Effect(ks, ZRemRangeByScore(key, min, max, now)), key, r)
    ensures forall m :: (m in r <==> m in d && (d[m] < min || d[m] > max)) && (m in r ==> r[m] == d[m])
  {
    hide Effect, ScoresOf, LeavesScores;
    ScoresForm(ks, ZRemRangeByScore(key, min, max, now), d);
    r := map m | m in d && !(min <= d[m] <= max) :: d[m];
  }

  /** ZREMRANGEBYRANK takes exactly the members at the ranks from start to stop, counted from
    * the end if negative. */
  lemma ZRemRangeByRankLaw(ks: Keyspace, key: string, start: int, stop: int, now: int, d: Scores) returns (r: Scores)
    requires ScoresOf(ks, key, now, d)
    ensures var ks' := Effect(ks, ZRemRangeByRank(key, start, stop, now));
            LeavesScores(ks, ks', key, r) || (r == d && LeavesAlone(ks, ks', key, now))
    ensures forall m :: m in r ==> m in d && r[m] == d[m]
    ensures |Ranking(d)| == |d|
    ensures forall i :: 0 <= i < |d| ==> (Ranking(d)[i].member in r <==> !Between(|d|, start, stop, i))
  {
    hide Effect, ScoresOf, LeavesScores, LeavesAlone, Ranking, Window, Without, Between, Names;
    var s := Ranking(d);
    ScoresForm(ks, ZRemRangeByRank(key, start, stop, now), d);
    RankingSize(d);
    AgreesWith(d);
    var gone := Window(s, start, stop);
    r := Without(d, gone);
    WithoutMeans(d, gone);
    if gone == [] { WithoutNone(d); }
    var a, b := WindowExactly(s, start, stop);
    RankingDistinct(d);
    forall i | 0 <= i < |d| ensures Names(gone, s[i].member) <==> a <= i < b {
      NamesSlice(s, a, b, i);
    }
  }

  lemma WithoutMeans(d: Scores, es: seq<Entry>)
    ensures var r := Without(d, es);
            forall m :: (m in r <==> m in d && !Names(es, m)) && (m in r ==> r[m] == d[m])
  {
  }

  lemma RankingDistinct(d: Scores)
    ensures UniqueMembers(Ranking(d))
  {
    AgreeUnique(d, Ranking(d));
  }

  lemma NamesSlice(s: seq<Entry>, a: nat, b: nat, i: nat)
    requires UniqueMembers(s) && a <= b <= |s| && i < |s|
    ensures Names(s[a..b], s[i].member) <==> a <= i < b
  {
    if a <= i < b { assert s[a..b][i - a] == s[i]; }
  }
}
