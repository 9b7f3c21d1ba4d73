/** Elections succeed: a candidate that nobody opposes gets the vote of every peer that sees its
  * master down. */
module LoneCandidates {
  import opened Options
  import opened Elections
  import opened ElectionRuns

  /** Nothing but campaign k moves a ballot, and no view changes. */
  ghost predicate Lone(step: Step, k: nat)
  {
    !step.Stand? && !step.Observe? && (step.Deliver? ==> step.k == k)
  }

  /** A sentinel that sees the campaign's master down and is not bound to anybody else in its epoch. */
  ghost predicate Willing(camp: Campaign, id: string, b: Ballot, v: View)
  {
    && v == View(camp.host, camp.port, true)
    && b.currentEpoch <= camp.epoch
    && (b.currentEpoch == camp.epoch && b.votedEpoch == camp.epoch ==> b.votedFor == id)
  }

  /** All peers are willing, and all replies so far were taken for a yes. */
  ghost predicate Unopposed(c: Config, s: State, k: nat)
  {
    && |s.ballots| == |s.views| == |c.ids| && k < |s.campaigns|
    && var camp := s.campaigns[k];
       && camp.candidate < |c.ids| && camp.epoch >= 1
       && (forall j :: j in camp.peers ==>
             j < |c.ids| && Willing(camp, c.ids[camp.candidate], s.ballots[j], s.views[j]))
       && (forall r :: r in camp.replies ==> r.0 in camp.peers && Read(c.decoder, r.1) == 1)
       && camp.counted.Keys <= camp.peers && camp.votes == 1 + |camp.counted|
  }

  lemma YesReads(d: Decoder, r: Reply)
    requires r.vote == 1
    ensures Read(d, Encode(r)) == 1
  {
    hide Encode, HasColonOne;
    match d
    case VoteField => VoteFieldReads(r);
    case Substring => SubstringReads(r);
  }

  lemma DeliverUnopposed(c: Config, s: State, k: nat, j: nat) returns (text: string)
    requires Unopposed(c, s, k) && Enabled(c, s, Deliver(k, j))
    ensures Unopposed(c, Next(c, s, Deliver(k, j)), k)
    ensures var camp := s.campaigns[k];
            Next(c, s, Deliver(k, j)).campaigns == s.campaigns[k := camp.(replies := camp.replies + {(j, text)})]
  {
    hide Encode, Read;
    var camp := s.campaigns[k];
    var reply := Answer(s.ballots[j], Asked(c, camp), s.views[j]).1;
    GrantExactly(s.ballots[j], Asked(c, camp), s.views[j]);
    YesReads(c.decoder, reply);
    text := Encode(reply);
  }

  lemma CountUnopposed(c: Config, s: State, k: nat, j: nat, text: string)
    requires Unopposed(c, s, k) && Enabled(c, s, Count(k, j, text))
    ensures Unopposed(c, Next(c, s, Count(k, j, text)), k)
  {
    hide Read;
    var camp := s.campaigns[k];
    assert (j, text) in camp.replies;
    assert camp.counted[j := text].Keys == camp.counted.Keys + {j};
  }

  /** The campaign stays unopposed whatever else is read or closed. */
  lemma NextUnopposed(c: Config, s: State, step: Step, k: nat)
    requires Unopposed(c, s, k) && Enabled(c, s, step) && Lone(step, k)
    ensures Unopposed(c, Next(c, s, step), k)
    ensures Next(c, s, step).campaigns[k].peers == s.campaigns[k].peers
    ensures SameCall(Next(c, s, step).campaigns[k], s.campaigns[k])
  {
    hide Read;
    match step
    case Deliver(_, j) => var _ := DeliverUnopposed(c, s, k, j);
    case Count(l, j, text) => if l == k { CountUnopposed(c, s, k, j, text); }
    case Close(l) =>
  }

  /** The candidate stands in its turn: free to, and with peers that have not passed its epoch
    * and see the master it asks about down. */
  ghost predicate StandsAlone(c: Config, s: State, step: Step)
  {
    && step.Stand? && Enabled(c, s, step) && s.ballots[step.who].currentEpoch >= 0
    && (s.ballots[step.who].votedFor == "" || s.ballots[step.who].votedFor == c.ids[step.who])
    && forall j :: j in step.peers ==>
         && s.ballots[j].currentEpoch <= s.ballots[step.who].currentEpoch
         && s.views[j] == View(step.host, step.port, true)
  }

  lemma StandUnopposed(c: Config, s: State, step: Step)
    requires StandsAlone(c, s, step)
    ensures var t, k := Next(c, s, step), |s.campaigns|;
            && Unopposed(c, t, k) && t.campaigns[k].peers == step.peers && t.campaigns[k].open
            && t.campaigns[k].candidate == step.who && t.campaigns[k].epoch == s.ballots[step.who].currentEpoch + 1
  {
  }

  /** In a run in which nobody else stands or asks after the candidate stood, its tally is itself
    * and every peer whose reply it read: it is elected, once all peers have been heard, exactly
    * if they make a quorum with it. This holds for either way of reading replies. */
  lemma {:induction false} LoneCandidateElected(c: Config, views: seq<View>, steps: seq<Step>, t: nat)
    requires |views| == |c.ids| && t < |steps| && Run(c, views, steps).Some?
    requires Run(c, views, steps[..t]).Some? && StandsAlone(c, Run(c, views, steps[..t]).value, steps[t])
    requires forall u :: t < u < |steps| ==> Lone(steps[u], |Run(c, views, steps[..t]).value.campaigns|)
    ensures var before, s := Run(c, views, steps[..t]).value, Run(c, views, steps).value;
            var k := |before.campaigns|;
            && Unopposed(c, s, k) && s.campaigns[k].peers == steps[t].peers
            && s.campaigns[k].candidate == steps[t].who
            && s.campaigns[k].epoch == before.ballots[steps[t].who].currentEpoch + 1
            && (s.campaigns[k].counted.Keys == steps[t].peers ==>
                  (Elected(c, s, k) <==> 1 + |steps[t].peers| >= c.quorum))
    decreases |steps|
  {
    hide Next, Enabled, StandsAlone, Lone, Unopposed;
    var n := |steps| - 1;
    var before := Run(c, views, steps[..t]).value;
    var k := |before.campaigns|;
    if t == n {
      StandUnopposed(c, before, steps[t]);
    } else {
      assert steps[..n][..t] == steps[..t];
      LoneCandidateElected(c, views, steps[..n], t);
      NextUnopposed(c, Run(c, views, steps[..n]).value, steps[n], k);
    }
    Tallied(c, Run(c, views, steps).value, k);
  }

  lemma Tallied(c: Config, s: State, k: nat)
    requires Unopposed(c, s, k)
    ensures k < |s.campaigns| && s.campaigns[k].votes == 1 + |s.campaigns[k].counted|
    ensures s.campaigns[k].votes == 1 + |s.campaigns[k].counted.Keys|
  {
  }

  /** And there is such a run: each peer can be asked and its reply read. */
  lemma {:induction false} EverybodyHeard(c: Config, views: seq<View>, steps: seq<Step>, s: State, k: nat)
    returns (more: seq<Step>, e: State)
    requires |views| == |c.ids| && Run(c, views, steps) == Some(s)
    requires Unopposed(c, s, k) && s.campaigns[k].open
    ensures Run(c, views, steps + more) == Some(e) && forall u :: 0 <= u < |more| ==> Lone(more[u], k)
    ensures Unopposed(c, e, k) && e.campaigns[k].counted.Keys == e.campaigns[k].peers == s.campaigns[k].peers
    decreases |s.campaigns[k].peers - s.campaigns[k].counted.Keys|
  {
    hide Run, Next, Enabled, Unopposed, Lone;
    HeardAmong(c, s, k);
    var camp := s.campaigns[k];
    if camp.counted.Keys == camp.peers {
      more, e := [], s;
      assert steps + more == steps;
    } else {
      var j :| j in camp.peers && j !in camp.counted;
      var a, b := Heard(c, s, k, j);
      Twice(c, views, steps, s, a, b);
      var next := Next(c, Next(c, s, a), b);
      HeardAmong(c, next, k);
      assert camp.peers - next.campaigns[k].counted.Keys == camp.peers - camp.counted.Keys - {j};
      var rest;
      rest, e := EverybodyHeard(c, views, steps + [a, b], next, k);
      more := [a, b] + rest;
      assert steps + [a, b] + rest == steps + more;
    }
  }

  lemma HeardAmong(c: Config, s: State, k: nat)
    requires Unopposed(c, s, k)
    ensures k < |s.campaigns| && s.campaigns[k].counted.Keys <= s.campaigns[k].peers
  {
  }

  /** Asking one peer and reading its reply. */
  lemma Heard(c: Config, s: State, k: nat, j: nat) returns (a: Step, b: Step)
    requires Unopposed(c, s, k) && s.campaigns[k].open && j in s.campaigns[k].peers && j !in s.campaigns[k].counted
    ensures Lone(a, k) && Lone(b, k) && Enabled(c, s, a) && Enabled(c, Next(c, s, a), b)
    ensures var e := Next(c, Next(c, s, a), b);
            && Unopposed(c, e, k) && e.campaigns[k].open && e.campaigns[k].peers == s.campaigns[k].peers
            && e.campaigns[k].counted.Keys == s.campaigns[k].counted.Keys + {j}
  {
    hide Read, Encode;
    var text := DeliverUnopposed(c, s, k, j);
    a, b := Deliver(k, j), Count(k, j, text);
    CountUnopposed(c, Next(c, s, a), k, j, text);
  }

  lemma Twice(c: Config, views: seq<View>, steps: seq<Step>, s: State, a: Step, b: Step)
    requires |views| == |c.ids| && Run(c, views, steps) == Some(s)
    requires Enabled(c, s, a) && Enabled(c, Next(c, s, a), b)
    ensures Run(c, views, steps + [a, b]) == Some(Next(c, Next(c, s, a), b))
  {
    hide Enabled, Next;
    assert (steps + [a, b])[..|steps| + 1] == steps + [a] && (steps + [a])[..|steps|] == steps;
    assert Run(c, views, steps + [a]) == Some(Next(c, s, a));
  }
}
