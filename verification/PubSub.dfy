/** Pattern subscriptions: who listens to which pattern, and what a publish delivers. */
module PubSubs {
  import opened Globs
  import opened Relations
  import opened Tries

  /** Pattern to the subscribers of it. */
  type Listeners = Relation<string, string>

  /** A pattern lies in the trie once while it has listeners, and once for every time its
    * last listener was removed without telling the trie. */
  ghost predicate Entries(held: Files, active: set<string>, stale: multiset<string>)
  {
    forall p :: Times(held, p) == (if p in active then 1 else 0) + stale[p]
  }

  /** Every active pattern has its compiled form in the cache. */
  ghost predicate Compiled(active: set<string>, cache: map<string, string>)
  {
    forall p :: p in active ==> p in cache && cache[p] == CompilePattern(p)
  }

  lemma EntriesJoin(held: Files, active: set<string>, stale: multiset<string>, p: string, held': Files)
    requires Entries(held, active, stale)
    requires forall q :: Times(held', q) == Times(held, q) + if q == p && p !in active then 1 else 0
    ensures Entries(held', active + {p}, stale)
  {
    hide Times;
  }

  lemma EntriesPart(held: Files, active: set<string>, stale: multiset<string>, p: string, held': Files)
    requires Entries(held, active, stale) && p in active
    requires forall q :: Times(held', q) == Times(held, q) - if q == p && Times(held, q) > 0 then 1 else 0
    ensures Entries(held', active - {p}, stale)
  {
    hide Times;
  }

  /** The patterns that lost their last listener, each once. */
  ghost function Leftover(active: set<string>, active': set<string>): multiset<string>
  {
    multiset(active - active')
  }

  lemma EntriesAbandon(held: Files, active: set<string>, stale: multiset<string>, active': set<string>)
    requires Entries(held, active, stale) && active' <= active
    ensures Entries(held, active', stale + Leftover(active, active'))
  {
    hide Times;
  }

  /** The deliveries for a list of candidates. */
  ghost predicate Sends(m: Listeners, channel: string, candidates: seq<string>, sent: seq<(string, string)>)
  {
    forall p, id :: multiset(sent)[(p, id)] ==
      if Related(m, p, id) && Matches(p, channel) then multiset(candidates)[p] else 0
  }

  lemma SendsNone(m: Listeners, channel: string)
    ensures Sends(m, channel, [], [])
  {
  }

  lemma SendsMore(m: Listeners, channel: string, candidates: seq<string>, sent: seq<(string, string)>, p: string,
    copies: seq<(string, string)>)
    requires Sends(m, channel, candidates, sent) && p in m && Matches(p, channel)
    requires forall q, id :: multiset(copies)[(q, id)] == if q == p && id in m[p] then 1 else 0
    ensures Sends(m, channel, candidates + [p], sent + copies)
  {
    hide Matches;
  }

  lemma SendsSkip(m: Listeners, channel: string, candidates: seq<string>, sent: seq<(string, string)>, p: string)
    requires Sends(m, channel, candidates, sent) && !(p in m && Matches(p, channel))
    ensures Sends(m, channel, candidates + [p], sent)
  {
    hide Matches;
  }

  lemma MatchesCompiled(p: string, channel: string)
    ensures Matches(p, channel) == MatchTokens(Parse(CompilePattern(p)), channel)
  {
  }

  /** The trie's candidates leave out no matching pattern. */
  lemma Complete(held: Files, m: Listeners, stale: multiset<string>, channel: string, candidates: seq<string>,
    sent: seq<(string, string)>)
    requires Entries(held, m.Keys, stale) && Sends(m, channel, candidates, sent)
    requires forall p :: multiset(candidates)[p] == if Prefix(p) <= channel then Times(held, p) else 0
    ensures forall p, id ::
              multiset(sent)[(p, id)] == if Related(m, p, id) && Matches(p, channel) then 1 + stale[p] else 0
  {
    hide Matches, Times, Prefix;
    forall p | Matches(p, channel) ensures Prefix(p) <= channel {
      CompiledRight(p, channel);
      PrefixNeeded(p, channel);
    }
  }

  /** One message per listener, in any order. */
  method Fan(p: string, ids: set<string>) returns (copies: seq<(string, string)>)
    ensures forall q, id :: multiset(copies)[(q, id)] == if q == p && id in ids then 1 else 0
  {
    copies := [];
    var todo := ids;
    while todo != {}
      invariant todo <= ids
      invariant forall q, id :: multiset(copies)[(q, id)] == if q == p && id in ids && id !in todo then 1 else 0
      decreases |todo|
    {
      var id :| id in todo;
      copies := copies + [(p, id)];
      todo := todo - {id};
    }
  }

  // ---------- whole runs ----------

  datatype Event =
    | Subscribing(id: string, ps: seq<string>)
    | Unsubscribing(id: string, ps: seq<string>)
    | Disconnecting(id: string)

  /** Who listens to what, and how many entries each pattern has left behind in the trie. */
  datatype Reference = Reference(listeners: Listeners, stale: multiset<string>)

  ghost function Step(r: Reference, e: Event): Reference
  {
    match e
    case Subscribing(id, ps) => r.(listeners := Joined(r.listeners, (set p | p in ps), id))
    case Unsubscribing(id, ps) =>
      r.(listeners := Parted(r.listeners, if ps == [] then r.listeners.Keys else (set p | p in ps), id))
    case Disconnecting(id) =>
      var left := Parted(r.listeners, r.listeners.Keys, id);
      Reference(left, r.stale + Leftover(r.listeners.Keys, left.Keys))
  }

  ghost function Run(r: Reference, events: seq<Event>): Reference
  {
    if events == [] then r else Step(Run(r, events[..|events| - 1]), events[|events| - 1])
  }

  const EMPTY := Reference(map[], multiset{})

  /** The event makes the subscriber leave the pattern. */
  ghost predicate Leaves(e: Event, id: string, p: string)
  {
    e == Disconnecting(id) || (e.Unsubscribing? && e.id == id && (e.ps == [] || p in e.ps))
  }

  ghost predicate LeftBetween(events: seq<Event>, id: string, p: string, t: nat)
  {
    exists x :: t < x < |events| && Leaves(events[x], id, p)
  }

  /** The subscriber asked for the pattern at time `t` and has not left it since. */
  ghost predicate ListensSince(events: seq<Event>, id: string, p: string, t: nat)
  {
    && t < |events| && events[t].Subscribing? && events[t].id == id && p in events[t].ps
    && !LeftBetween(events, id, p, t)
  }

  lemma LeftLater(events: seq<Event>, e: Event, id: string, p: string, t: nat)
    requires t < |events|
    ensures LeftBetween(events + [e], id, p, t) <==> LeftBetween(events, id, p, t) || Leaves(e, id, p)
  {
    var all := events + [e];
    if LeftBetween(events, id, p, t) {
      var x :| t < x < |events| && Leaves(events[x], id, p);
      assert Leaves(all[x], id, p);
    }
    if Leaves(e, id, p) { assert Leaves(all[|events|], id, p); }
    if LeftBetween(all, id, p, t) && !Leaves(e, id, p) {
      var x :| t < x < |all| && Leaves(all[x], id, p);
      assert Leaves(events[x], id, p);
    }
  }

  lemma ListensLater(events: seq<Event>, e: Event, id: string, p: string, t: nat)
    ensures ListensSince(events + [e], id, p, t) <==>
            if t < |events| then ListensSince(events, id, p, t) && !Leaves(e, id, p)
            else t == |events| && e.Subscribing? && e.id == id && p in e.ps
  {
    hide LeftBetween;
    if t < |events| {
      LeftLater(events, e, id, p, t);
    } else if t == |events| {
      NobodyLeft(events + [e], id, p);
    }
  }

  lemma NobodyLeft(events: seq<Event>, id: string, p: string)
    requires events != []
    ensures !LeftBetween(events, id, p, |events| - 1)
  {
  }

  lemma StepListens(r: Reference, e: Event, id: string, p: string)
    ensures Related(Step(r, e).listeners, p, id) <==>
            (Related(r.listeners, p, id) && !Leaves(e, id, p)) || (e.Subscribing? && e.id == id && p in e.ps)
  {
  }

  /** Over every run, the listeners of a pattern are exactly those who asked for it and have not
    * left it since. */
  lemma {:induction false} ListensExactly(events: seq<Event>, id: string, p: string)
    ensures Related(Run(EMPTY, events).listeners, p, id) <==> exists t: nat :: ListensSince(events, id, p, t)
  {
    hide Step, Leaves, ListensSince;
    if events == [] {
      forall t: nat ensures !ListensSince([], id, p, t) { NotYet(id, p, t); }
    } else {
      var n := |events| - 1;
      var before, e := events[..n], events[n];
      assert events == before + [e];
      ListensExactly(before, id, p);
      StepListens(Run(EMPTY, before), e, id, p);
      ListensLater(before, e, id, p, n);
      forall t: nat | t != n ensures ListensSince(events, id, p, t) <==>
                                     t < n && ListensSince(before, id, p, t) && !Leaves(e, id, p)
      {
        ListensLater(before, e, id, p, t);
      }
      if t: nat :| ListensSince(before, id, p, t) { Bounded(before, id, p, t); }
    }
  }

  lemma NotYet(id: string, p: string, t: nat)
    ensures !ListensSince([], id, p, t)
  {
  }

  lemma Bounded(events: seq<Event>, id: string, p: string, t: nat)
    requires ListensSince(events, id, p, t)
    ensures t < |events|
  {
  }

  /** A disconnect takes the pattern's only listener. */
  ghost predicate Abandons(r: Reference, e: Event, p: string)
  {
    e.Disconnecting? && p in r.listeners && r.listeners[p] == {e.id}
  }

  lemma {:induction false} RunNonempty(events: seq<Event>)
    ensures forall p :: p in Run(EMPTY, events).listeners ==> Run(EMPTY, events).listeners[p] != {}
  {
    if events != [] { RunNonempty(events[..|events| - 1]); }
  }

  ghost predicate AbandonedAt(events: seq<Event>, t: nat, p: string)
  {
    t < |events| && Abandons(Run(EMPTY, events[..t]), events[t], p)
  }

  /** Nothing but a disconnect of a pattern's only listener leaves a trie entry behind: a
    * publish delivers each match exactly once if and only if that never happened. */
  lemma {:induction false} OnceUnlessAbandoned(events: seq<Event>, p: string)
    ensures Run(EMPTY, events).stale[p] == 0 <==> forall t :: !AbandonedAt(events, t, p)
  {
    hide AbandonedAt, Step;
    if events == [] {
      forall t ensures !AbandonedAt(events, t, p) { AbandonedLater(events, t, p); }
    } else {
      var n := |events| - 1;
      OnceUnlessAbandoned(events[..n], p);
      RunNonempty(events[..n]);
      StepStale(Run(EMPTY, events[..n]), events[n], p);
      forall t ensures AbandonedAt(events, t, p) <==>
                       AbandonedAt(events[..n], t, p) || (t == n && Abandons(Run(EMPTY, events[..n]), events[n], p))
      {
        AbandonedLater(events, t, p);
      }
      assert AbandonedAt(events, n, p) ==>
               Abandons(Run(EMPTY, events[..n]), events[n], p) || AbandonedAt(events[..n], n, p);
    }
  }

  lemma AbandonedLater(events: seq<Event>, t: nat, p: string)
    ensures events == [] ==> !AbandonedAt(events, t, p)
    ensures events != [] ==>
      var n := |events| - 1;
      (AbandonedAt(events, t, p) <==>
       AbandonedAt(events[..n], t, p) || (t == n && Abandons(Run(EMPTY, events[..n]), events[n], p)))
  {
    hide Run, Abandons;
    if events != [] && t < |events| - 1 {
      assert events[..|events| - 1][..t] == events[..t];
    }
  }

  lemma StepStale(r: Reference, e: Event, p: string)
    requires forall p :: p in r.listeners ==> r.listeners[p] != {}
    ensures Step(r, e).stale[p] == r.stale[p] + if Abandons(r, e, p) then 1 else 0
  {
  }

  /** A subscriber that disconnects and returns gets every message twice. */
  lemma DeliveredTwice(id: string, p: string)
    ensures var r := Run(EMPTY, [Subscribing(id, [p]), Disconnecting(id), Subscribing(id, [p])]);
            Related(r.listeners, p, id) && r.stale[p] == 1
  {
    var e1, e2 := Subscribing(id, [p]), Disconnecting(id);
    assert [e1, e2, e1][..2] == [e1, e2] && [e1, e2][..1] == [e1] && [e1][..0] == [];
    var r1 := Step(EMPTY, e1);
    assert r1 == Run(EMPTY, [e1]);
    assert p in [p];
    assert r1.listeners[p] == {id};
    var r2 := Step(r1, e2);
    assert r2 == Run(EMPTY, [e1, e2]);
    StepStale(r1, e2, p);
  }

  class PubSub {
    var patterns: Listeners
    var subscriberPatterns: Listeners
    var compiledPatterns: map<string, string>
    const trie: PatternTrie
    ghost var stale: multiset<string>

    ghost predicate Valid()
      reads this, trie, trie.index.Values
    {
      && Inverse(patterns, subscriberPatterns) && Compiled(patterns.Keys, compiledPatterns)
      && trie.Valid() && Entries(trie.held, patterns.Keys, stale)
    }

    constructor ()
      ensures Valid() && patterns == map[] && stale == multiset{} && fresh(trie) && fresh(trie.index.Values)
    {
      patterns, subscriberPatterns, compiledPatterns, stale := map[], map[], map[], multiset{};
      trie := new PatternTrie();
    }

    method PSubscribe(id: string, ps: seq<string>)
      requires Valid()
      modifies this, trie, trie.index.Values
      ensures Valid() && fresh(trie.index.Values - old(trie.index.Values))
      ensures patterns == Joined(old(patterns), (set p | p in ps), id) && stale == old(stale)
    {
      hide Inverse, Entries, Joined, Compiled, PatternTrie.Valid;
      ghost var done: set<string> := {};
      JoinedNone(patterns, id);
      for i := 0 to |ps|
        invariant Valid() && fresh(trie.index.Values - old(trie.index.Values)) && stale == old(stale)
        invariant done == (set p | p in ps[..i]) && patterns == Joined(old(patterns), done, id)
      {
        Join(id, ps[i]);
        JoinedMore(old(patterns), done, ps[i], id);
        done := done + {ps[i]};
        assert ps[..i + 1] == ps[..i] + [ps[i]];
      }
      assert ps[..|ps|] == ps;
    }

    method Join(id: string, p: string)
      requires Valid()
      modifies this, trie, trie.index.Values
      ensures Valid() && fresh(trie.index.Values - old(trie.index.Values))
      ensures patterns == Joined(old(patterns), {p}, id) && stale == old(stale)
    {
      hide Inverse, Entries, Joined, Compiled, PatternTrie.Valid, Times;
      JoinedOne(patterns, p, id);
      InverseJoin(patterns, subscriberPatterns, p, id);
      if p !in patterns {
        Open(p);
      }
      patterns := patterns[p := patterns[p] + {id}];
      subscriberPatterns :=
        subscriberPatterns[id := (if id in subscriberPatterns then subscriberPatterns[id] else {}) + {p}];
      assert patterns == Joined(old(patterns), {p}, id);
    }

    /** The first listener of a pattern puts it into the trie and the cache. */
    method Open(p: string)
      requires p !in patterns && Compiled(patterns.Keys, compiledPatterns) && trie.Valid() &&
               Entries(trie.held, patterns.Keys, stale)
      modifies `patterns, `compiledPatterns, trie, trie.index.Values
      ensures patterns == old(patterns)[p := {}] && Compiled(old(patterns.Keys) + {p}, compiledPatterns)
      ensures trie.Valid() && fresh(trie.index.Values - old(trie.index.Values))
      ensures Entries(trie.held, old(patterns.Keys) + {p}, stale)
    {
      hide Entries, PatternTrie.Valid, Times, CompilePattern;
      ghost var held0 := trie.held;
      patterns := patterns[p := {}];
      trie.Insert(p);
      compiledPatterns := compiledPatterns[p := CompilePattern(p)];
      EntriesJoin(held0, old(patterns.Keys), stale, p, trie.held);
    }

    /** Without arguments, everything `id` listens to. */
    method PUnsubscribe(id: string, ps: seq<string>)
      requires Valid()
      modifies this, trie, trie.index.Values
      ensures Valid() && trie.index == old(trie.index) && stale == old(stale)
      ensures patterns == Parted(old(patterns), (if ps == [] then old(patterns.Keys) else (set p | p in ps)), id)
    {
      hide Inverse, Entries, Parted, Compiled, PatternTrie.Valid;
      var list := ps;
      if ps == [] && id in subscriberPatterns {
        list := Members(subscriberPatterns[id]);
      }
      PartedOwn(patterns, subscriberPatterns, id);
      ghost var done: set<string> := {};
      PartedNone(patterns, id);
      for i := 0 to |list|
        invariant Valid() && trie.index == old(trie.index) && stale == old(stale)
        invariant done == (set p | p in list[..i]) && patterns == Parted(old(patterns), done, id)
      {
        Part(id, list[i]);
        Nonempty(old(patterns), old(subscriberPatterns));
        PartedMore(old(patterns), done, list[i], id);
        done := done + {list[i]};
        assert list[..i + 1] == list[..i] + [list[i]];
      }
      assert list[..|list|] == list;
    }

    method Part(id: string, p: string)
      requires Valid()
      modifies this, trie, trie.index.Values
      ensures Valid() && trie.index == old(trie.index) && stale == old(stale)
      ensures patterns == Parted(old(patterns), {p}, id)
    {
      hide Inverse, Entries, Parted, Compiled, PatternTrie.Valid;
      PartedOne(patterns, p, id);
      InversePart(patterns, subscriberPatterns, p, id);
      if p in patterns {
        patterns := patterns[p := patterns[p] - {id}];
        if patterns[p] == {} {
          Drop(p);
        }
      }
      if id in subscriberPatterns {
        subscriberPatterns := subscriberPatterns[id := subscriberPatterns[id] - {p}];
      }
    }

    /** The last listener of a pattern takes it out of the trie and the cache. */
    method Drop(p: string)
      requires p in patterns && Compiled(patterns.Keys, compiledPatterns) && trie.Valid()
      requires Entries(trie.held, patterns.Keys, stale)
      modifies `patterns, `compiledPatterns, trie, trie.index.Values
      ensures patterns == old(patterns) - {p} && Compiled(patterns.Keys, compiledPatterns)
      ensures trie.Valid() && trie.index == old(trie.index) && Entries(trie.held, patterns.Keys, stale)
    {
      hide Entries, PatternTrie.Valid, Times;
      ghost var held0 := trie.held;
      patterns := patterns - {p};
      trie.Remove(p);
      compiledPatterns := compiledPatterns - {p};
      EntriesPart(held0, old(patterns.Keys), stale, p, trie.held);
      assert patterns.Keys == old(patterns.Keys) - {p};
    }

    /** A disconnect leaves the trie and the cache alone. */
    method RemoveSubscriber(id: string)
      requires Valid()
      modifies this
      ensures Valid() && patterns == Parted(old(patterns), old(patterns.Keys), id)
      ensures stale == old(stale) + Leftover(old(patterns.Keys), patterns.Keys)
    {
      hide Inverse, Entries, Parted, Compiled, PatternTrie.Valid, Leftover;
      ghost var active := patterns.Keys;
      PartedOwn(patterns, subscriberPatterns, id);
      InverseGone(patterns, subscriberPatterns, id);
      Nonempty(patterns, subscriberPatterns);
      LeaveAll(id, if id in subscriberPatterns then subscriberPatterns[id] else {});
      subscriberPatterns := subscriberPatterns - {id};
      EntriesAbandon(trie.held, active, stale, patterns.Keys);
      StillCompiled(active, patterns.Keys);
      stale := stale + Leftover(active, patterns.Keys);
    }

    /** What a publish sends to pattern subscribers: each listener of a matching pattern, as
      * often as the pattern lies in the trie, and nobody else. */
    method Publish(channel: string) returns (sent: seq<(string, string)>)
      requires Valid()
      ensures forall p, id :: multiset(sent)[(p, id)] ==
                if Related(patterns, p, id) && Matches(p, channel) then 1 + stale[p] else 0
    {
      hide Inverse, Entries, PatternTrie.Valid, Times, Matches, Parse, MatchTokens, Sends;
      var candidates := trie.GetMatchingPatterns(channel);
      sent := [];
      SendsNone(patterns, channel);
      for i := 0 to |candidates|
        invariant Sends(patterns, channel, candidates[..i], sent)
      {
        var p := candidates[i];
        assert candidates[..i + 1] == candidates[..i] + [p];
        if p in patterns && p in compiledPatterns && MatchTokens(Parse(compiledPatterns[p]), channel) {
          MatchesCompiled(p, channel);
          var copies := Fan(p, patterns[p]);
          SendsMore(patterns, channel, candidates[..i], sent, p, copies);
          sent := sent + copies;
        } else {
          MatchesCompiled(p, channel);
          SendsSkip(patterns, channel, candidates[..i], sent, p);
        }
      }
      assert candidates[..|candidates|] == candidates;
      Complete(trie.held, patterns, stale, channel, candidates, sent);
    }

    ghost function State(): Reference
      reads this
    {
      Reference(patterns, stale)
    }

    method Perform(e: Event)
      requires Valid()
      modifies this, trie, trie.index.Values
      ensures Valid() && fresh(trie.index.Values - old(trie.index.Values))
      ensures State() == Step(old(State()), e)
    {
      hide Inverse, Entries, Joined, Parted, Compiled, PatternTrie.Valid;
      match e {
        case Subscribing(id, ps) => PSubscribe(id, ps);
        case Unsubscribing(id, ps) => PUnsubscribe(id, ps);
        case Disconnecting(id) => RemoveSubscriber(id);
      }
    }

    /** Over every run the two indexes, the cache and the trie stay in step with who listens
      * to what. */
    method PerformAll(events: seq<Event>)
      requires Valid()
      modifies this, trie, trie.index.Values
      ensures Valid() && fresh(trie.index.Values - old(trie.index.Values))
      ensures State() == Run(old(State()), events)
    {
      hide Inverse, Entries, Joined, Parted, Compiled, PatternTrie.Valid, Step;
      for i := 0 to |events|
        invariant Valid() && fresh(trie.index.Values - old(trie.index.Values))
        invariant State() == Run(old(State()), events[..i])
      {
        Perform(events[i]);
        assert events[..i + 1][..i] == events[..i];
      }
      assert events[..|events|] == events;
    }

    method LeaveAll(id: string, own: set<string>)
      requires forall p :: p in patterns ==> patterns[p] != {}
      modifies `patterns
      ensures patterns == Parted(old(patterns), own, id) && patterns.Keys <= old(patterns.Keys)
    {
      hide Parted;
      ghost var done: set<string> := {};
      var todo := own;
      PartedNone(patterns, id);
      while todo != {}
        invariant done + todo == own && patterns == Parted(old(patterns), done, id) &&
                  patterns.Keys <= old(patterns.Keys)
        decreases |todo|
      {
        var p :| p in todo;
        PartedOne(patterns, p, id);
        PartedMore(old(patterns), done, p, id);
        if p in patterns {
          patterns := patterns[p := patterns[p] - {id}];
          if patterns[p] == {} {
            patterns := patterns - {p};
          }
        }
        todo, done := todo - {p}, done + {p};
      }
    }

    lemma StillCompiled(active: set<string>, active': set<string>)
      requires Compiled(active, compiledPatterns) && active' <= active
      ensures Compiled(active', compiledPatterns)
    {
    }
  }

  /** The elements of a set in some order. */
  method Members(s: set<string>) returns (r: seq<string>)
    ensures (set x | x in r) == s
  {
    r := [];
    var todo := s;
    while todo != {}
      invariant todo <= s && forall x :: x in r <==> x in s && x !in todo
      decreases |todo|
    {
      var x :| x in todo;
      r := r + [x];
      todo := todo - {x};
    }
  }
}
