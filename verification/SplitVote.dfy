/** Taking any ":1" in a reply for a yes breaks election safety: rejections are counted as
  * votes as soon as their epoch begins with a 1. */
module SplitVotes {
  import opened Options
  import opened Decimals
  import opened Elections
  import opened ElectionRuns

  /** How many of a sentinel's campaigns are under way. */
  ghost function OpenOf(campaigns: seq<Campaign>, i: nat): nat
  {
    if campaigns == [] then 0
    else
      var n := |campaigns| - 1;
      OpenOf(campaigns[..n], i) + if campaigns[n].open && campaigns[n].candidate == i then 1 else 0
  }

  lemma OpenMore(campaigns: seq<Campaign>, camp: Campaign, i: nat)
    ensures OpenOf(campaigns + [camp], i) ==
            OpenOf(campaigns, i) + if camp.open && camp.candidate == i then 1 else 0
  {
    assert (campaigns + [camp])[..|campaigns|] == campaigns;
  }

  /** A sentinel stands only while it sees its master down, asks about that master, and has a
    * caller free: each of its `calls` callers runs one campaign at a time. The program has
    * two, the failover and the election timer. */
  ghost predicate Prompted(s: State, step: Step, calls: nat)
  {
    step.Stand? ==>
      && step.who < |s.views| && s.views[step.who] == View(step.host, step.port, true)
      && OpenOf(s.campaigns, step.who) < calls
  }

  /** A run in which every candidate was prompted. */
  ghost predicate AllPrompted(c: Config, views: seq<View>, steps: seq<Step>, calls: nat)
    requires |views| == |c.ids|
  {
    steps == [] ||
    var n := |steps| - 1;
    AllPrompted(c, views, steps[..n], calls) && Run(c, views, steps[..n]).Some? &&
      Prompted(Run(c, views, steps[..n]).value, steps[n], calls)
  }

  ghost predicate Reaches(c: Config, views: seq<View>, s: State, calls: nat)
    requires |views| == |c.ids|
  {
    exists steps :: Run(c, views, steps) == Some(s) && AllPrompted(c, views, steps, calls)
  }

  lemma Extend(c: Config, views: seq<View>, s: State, step: Step, calls: nat)
    requires |views| == |c.ids| && Reaches(c, views, s, calls) && Enabled(c, s, step) && Prompted(s, step, calls)
    ensures Reaches(c, views, Next(c, s, step), calls)
  {
    hide Enabled, Next, Prompted;
    var steps :| Run(c, views, steps) == Some(s) && AllPrompted(c, views, steps, calls);
    assert (steps + [step])[..|steps + [step]| - 1] == steps;
    assert Run(c, views, steps + [step]) == Some(Next(c, s, step)) && AllPrompted(c, views, steps + [step], calls);
  }

  ghost function Indices(n: nat): (r: set<nat>)
    ensures forall j: nat :: j in r <==> j < n
  {
    if n == 0 then {} else Indices(n - 1) + {n - 1}
  }

  ghost function Peers(c: Config, i: nat): set<nat>
  {
    Indices(|c.ids|) - {i}
  }

  /** A campaign that asked everybody and has heard nothing yet. */
  ghost function Started(c: Config, i: nat, epoch: int, v: View): Campaign
  {
    Campaign(i, epoch, v.host, v.port, Peers(c, i), {}, map[], 1, true)
  }

  ghost predicate Ready(c: Config, s: State, i: nat, epoch: int)
  {
    && i < |s.ballots| == |s.views| == |c.ids| && s.views[i].down
    && MayStand(s.ballots[i], c.ids[i]) && s.ballots[i].currentEpoch < epoch
  }

  /** The state after a sentinel stood and, unless it is to stay open, its campaign closed. */
  ghost function AfterCampaign(c: Config, s: State, i: nat, open: bool): State
    requires i < |s.ballots| == |s.views| == |c.ids|
  {
    var b := Stood(s.ballots[i], c.ids[i]);
    State(s.ballots[i := b], s.views,
          s.campaigns + [Started(c, i, b.currentEpoch, s.views[i]).(open := open)],
          s.cast + {Vote(i, b.votedEpoch, b.votedFor)})
  }

  lemma Campaigned(c: Config, views: seq<View>, s: State, i: nat, epoch: int, open: bool, calls: nat)
    requires |views| == |c.ids| && Reaches(c, views, s, calls)
    requires Ready(c, s, i, epoch) && OpenOf(s.campaigns, i) < calls
    ensures Reaches(c, views, AfterCampaign(c, s, i, open), calls)
  {
    hide Reaches, OpenOf;
    var step := Stand(i, Peers(c, i), s.views[i].host, s.views[i].port);
    Extend(c, views, s, step, calls);
    var u := Next(c, s, step);
    if !open {
      Extend(c, views, u, Close(|s.campaigns|), calls);
      assert u.campaigns[|s.campaigns| := u.campaigns[|s.campaigns|].(open := false)] ==
             AfterCampaign(c, s, i, false).campaigns;
    }
  }

  /** A sentinel that nobody else has won over can campaign its way up to any epoch, one
    * campaign after the other. */
  lemma {:induction false} Climb(c: Config, views: seq<View>, s: State, i: nat, epoch: int, calls: nat)
    returns (t: State)
    requires |views| == |c.ids| && Reaches(c, views, s, calls)
    requires Ready(c, s, i, epoch) && OpenOf(s.campaigns, i) < calls
    ensures Reaches(c, views, t, calls) && t.views == s.views
    ensures t.ballots == s.ballots[i := Ballot(epoch, epoch, c.ids[i])]
    ensures |s.campaigns| < |t.campaigns| && t.campaigns[..|s.campaigns|] == s.campaigns
    ensures t.campaigns[|t.campaigns| - 1] == Started(c, i, epoch, s.views[i])
    ensures forall j :: OpenOf(t.campaigns, j) == OpenOf(s.campaigns, j) + if j == i then 1 else 0
    decreases epoch - s.ballots[i].currentEpoch
  {
    hide Reaches, OpenOf, Peers;
    var last := s.ballots[i].currentEpoch + 1 == epoch;
    Campaigned(c, views, s, i, epoch, last, calls);
    var u := AfterCampaign(c, s, i, last);
    forall j ensures OpenOf(u.campaigns, j) == OpenOf(s.campaigns, j) + if last && j == i then 1 else 0 {
      OpenMore(s.campaigns, u.campaigns[|s.campaigns|], j);
    }
    assert u.campaigns[..|s.campaigns|] == s.campaigns;
    if last {
      t := u;
    } else {
      t := Climb(c, views, u, i, epoch, calls);
      assert t.campaigns[..|s.campaigns|] == t.campaigns[..|u.campaigns|][..|s.campaigns|];
    }
  }

  /** Everybody sits in `epoch`, bound to itself. */
  ghost predicate AllAlone(c: Config, s: State, epoch: int)
  {
    && |s.ballots| == |s.views| == |c.ids|
    && forall i :: 0 <= i < |c.ids| ==> s.ballots[i] == Ballot(epoch, epoch, c.ids[i])
  }

  lemma {:induction false} ClimbAll(c: Config, views: seq<View>, s: State, i: nat, epoch: int, calls: nat)
    returns (t: State)
    requires |views| == |c.ids| && Reaches(c, views, s, calls) && i <= |c.ids| == |s.ballots| == |s.views|
    requires forall j :: 0 <= j < i ==> s.ballots[j] == Ballot(epoch, epoch, c.ids[j])
    requires forall j :: i <= j < |c.ids| ==> Ready(c, s, j, epoch) && OpenOf(s.campaigns, j) < calls
    ensures Reaches(c, views, t, calls) && AllAlone(c, t, epoch)
    ensures |s.campaigns| <= |t.campaigns| && t.campaigns[..|s.campaigns|] == s.campaigns
    decreases |c.ids| - i
  {
    hide Reaches, OpenOf;
    if i == |c.ids| {
      t := s;
    } else {
      var u := Climb(c, views, s, i, epoch, calls);
      forall j | i + 1 <= j < |c.ids| ensures Ready(c, u, j, epoch) && OpenOf(u.campaigns, j) < calls {
        assert Ready(c, s, j, epoch);
      }
      t := ClimbAll(c, views, u, i + 1, epoch, calls);
      assert t.campaigns[..|s.campaigns|] == t.campaigns[..|u.campaigns|][..|s.campaigns|];
    }
  }

  // ---------- a campaign that counts rejections ----------

  ghost predicate Polling(c: Config, s: State, k: nat, i: nat, epoch: int, n: nat)
  {
    && k < |s.campaigns| && n <= |c.ids|
    && var camp := s.campaigns[k];
       && camp.candidate == i < |c.ids| && camp.epoch <= epoch && camp.open && camp.peers == Peers(c, i)
       && (forall j :: j in camp.counted ==> j < n) && camp.votes == 1 + (if i < n then n - 1 else n)
  }

  /** A peer that is bound to itself in an epoch that begins with 1 answers a request of that or
    * an earlier epoch, and whatever it answers is counted as a vote. */
  lemma AnyReplyCounts(c: Config, views: seq<View>, s: State, k: nat, i: nat, epoch: int, n: nat, calls: nat)
    returns (t: State)
    requires c.decoder == Substring && |views| == |c.ids| && Reaches(c, views, s, calls) && AllAlone(c, s, epoch)
    requires n < |c.ids| && n != i && Polling(c, s, k, i, epoch, n) && epoch > 0 && Decimal(epoch)[0] == '1'
    ensures Reaches(c, views, t, calls) && AllAlone(c, t, epoch) && Polling(c, t, k, i, epoch, n + 1)
    ensures |t.campaigns| == |s.campaigns|
    ensures forall l :: 0 <= l < |s.campaigns| && l != k ==> t.campaigns[l] == s.campaigns[l]
    ensures SameCall(t.campaigns[k], s.campaigns[k])
  {
    hide Reaches, Encode, Read, OpenOf;
    var reply := Answered(c, s, k, n, epoch);
    SubstringReads(reply);
    Extend(c, views, s, Deliver(k, n), calls);
    var u := Next(c, s, Deliver(k, n));
    Extend(c, views, u, Count(k, n, Encode(reply)), calls);
    t := Next(c, u, Count(k, n, Encode(reply)));
  }

  lemma Answered(c: Config, s: State, k: nat, n: nat, epoch: int) returns (reply: Reply)
    requires AllAlone(c, s, epoch) && n < |c.ids| && Enabled(c, s, Deliver(k, n)) && s.campaigns[k].epoch <= epoch
    ensures reply.epoch == epoch && (reply.vote == 0 || reply.vote == 1)
    ensures var u := Next(c, s, Deliver(k, n));
            var camp := s.campaigns[k];
            && u.ballots == s.ballots && u.views == s.views
            && u.campaigns == s.campaigns[k := camp.(replies := camp.replies + {(n, Encode(reply))})]
  {
    hide Encode;
    reply := Answer(s.ballots[n], Asked(c, s.campaigns[k]), s.views[n]).1;
    assert s.ballots[n := s.ballots[n]] == s.ballots;
  }

  lemma {:induction false} Poll(c: Config, views: seq<View>, s: State, k: nat, i: nat, epoch: int, n: nat, calls: nat)
    returns (t: State)
    requires c.decoder == Substring && |views| == |c.ids| && Reaches(c, views, s, calls) && AllAlone(c, s, epoch)
    requires Polling(c, s, k, i, epoch, n) && epoch > 0 && Decimal(epoch)[0] == '1'
    ensures Reaches(c, views, t, calls) && AllAlone(c, t, epoch) && Polling(c, t, k, i, epoch, |c.ids|)
    ensures |t.campaigns| == |s.campaigns|
    ensures forall l :: 0 <= l < |s.campaigns| && l != k ==> t.campaigns[l] == s.campaigns[l]
    ensures SameCall(t.campaigns[k], s.campaigns[k])
    decreases |c.ids| - n
  {
    hide Reaches, AllAlone, Decimal;
    if n == |c.ids| {
      t := s;
    } else if n == i {
      t := Poll(c, views, s, k, i, epoch, n + 1, calls);
    } else {
      var u := AnyReplyCounts(c, views, s, k, i, epoch, n, calls);
      t := Poll(c, views, u, k, i, epoch, n + 1, calls);
    }
  }

  ghost predicate TwoLeaders(c: Config, s: State, epoch: int)
  {
    exists k: nat, l: nat ::
      && k != l && Elected(c, s, k) && Elected(c, s, l)
      && s.campaigns[k].candidate != s.campaigns[l].candidate
      && s.campaigns[k].epoch == epoch == s.campaigns[l].epoch
  }

  /** Two rivals that asked everybody in an epoch; nobody else's ballot has moved. */
  ghost predicate Rivals(c: Config, s: State, k: nat, l: nat, epoch: int)
  {
    && 2 <= |c.ids| == |s.ballots| == |s.views| && k < l < |s.campaigns|
    && s.campaigns[k] == Started(c, 0, epoch, s.views[0]) && s.campaigns[l] == Started(c, 1, epoch, s.views[1])
    && s.ballots[0] == Ballot(epoch, epoch, c.ids[0]) && s.ballots[1] == Ballot(epoch, epoch, c.ids[1])
    && (forall j :: 2 <= j < |c.ids| ==> s.ballots[j] == Ballot(0, 0, ""))
    && forall j :: 0 <= j < |c.ids| ==> s.views[j].down && OpenOf(s.campaigns, j) <= if j < 2 then 1 else 0
  }

  lemma RivalsStand(c: Config, views: seq<View>, epoch: int, calls: nat) returns (s: State, k: nat, l: nat)
    requires |views| == |c.ids| >= 2 && epoch >= 1 && calls >= 1
    requires forall i :: 0 <= i < |views| ==> views[i].down
    ensures Reaches(c, views, s, calls) && Rivals(c, s, k, l, epoch) && s.views == views
  {
    hide Reaches, Peers;
    var s0 := Initial(c, views);
    InitialReached(c, views, calls);
    var s1 := Climb(c, views, s0, 0, epoch, calls);
    s := Climb(c, views, s1, 1, epoch, calls);
    k, l := |s1.campaigns| - 1, |s.campaigns| - 1;
    assert s.campaigns[k] == s.campaigns[..|s1.campaigns|][k];
  }

  /** When all are bound to themselves in an epoch that begins with 1, both rivals win. */
  lemma BothWin(c: Config, views: seq<View>, s: State, k: nat, l: nat, epoch: int, late: int, calls: nat)
    returns (t: State)
    requires c.decoder == Substring && |views| == |c.ids| >= 2 && c.quorum <= |c.ids| && 1 <= epoch <= late
    requires Reaches(c, views, s, calls) && AllAlone(c, s, late) && Decimal(late)[0] == '1' && k < l < |s.campaigns|
    requires s.campaigns[k] == Started(c, 0, epoch, views[0]) && s.campaigns[l] == Started(c, 1, epoch, views[1])
    ensures Reaches(c, views, t, calls) && TwoLeaders(c, t, epoch)
  {
    hide Reaches, AllAlone, Decimal, Peers;
    var u := Poll(c, views, s, k, 0, late, 0, calls);
    t := Poll(c, views, u, l, 1, late, 0, calls);
    assert Elected(c, t, k) && Elected(c, t, l);
  }

  /** In every epoch of every group of two or more that sees its master down, some run elects
    * two leaders, each of which stood because it saw that. In an epoch that begins with 1 one
    * campaign of each sentinel at a time is enough, in the others two are. */
  lemma TwoLeadersElected(c: Config, views: seq<View>, epoch: int, calls: nat) returns (s: State)
    requires c.decoder == Substring && |views| == |c.ids| >= 2 && c.quorum <= |c.ids| && epoch >= 1
    requires forall i :: 0 <= i < |views| ==> views[i].down
    requires calls >= if Decimal(epoch)[0] == '1' then 1 else 2
    ensures Reaches(c, views, s, calls) && TwoLeaders(c, s, epoch)
  {
    hide Reaches, AllAlone, Decimal, Peers, OpenOf, TwoLeaders;
    var r, k, l := RivalsStand(c, views, epoch, calls);
    var late := epoch;
    var u: State;
    if Decimal(epoch)[0] == '1' {
      u := ClimbAll(c, views, r, 2, epoch, calls);
    } else {
      late := BeginsWithOne(epoch);
      u := ClimbAll(c, views, r, 0, late, calls);
    }
    assert u.campaigns[k] == u.campaigns[..|r.campaigns|][k] && u.campaigns[l] == u.campaigns[..|r.campaigns|][l];
    s := BothWin(c, views, u, k, l, epoch, late, calls);
  }

  lemma InitialReached(c: Config, views: seq<View>, calls: nat)
    requires |views| == |c.ids|
    ensures Reaches(c, views, Initial(c, views), calls)
  {
    assert Run(c, views, []) == Some(Initial(c, views));
  }

  lemma FewLeaders(c: Config, views: seq<View>, steps: seq<Step>, epoch: int)
    requires Proper(c) && |views| == |c.ids| && Run(c, views, steps).Some? && (|c.ids| == 1 || c.quorum > |c.ids|)
    ensures !TwoLeaders(c, Run(c, views, steps).value, epoch)
  {
    hide Run, CampaignOk, Backers, VotesOk;
    var s := Run(c, views, steps).value;
    RunKeeps(c, views, steps);
    forall k: nat | k < |s.campaigns|
      ensures s.campaigns[k].candidate < |c.ids| && s.campaigns[k].votes <= |c.ids|
    {
      CampaignOf(c, s.cast, s.campaigns, k);
      CandidateOk(c, s.cast, s.campaigns[k]);
      forall j | j in Backers(c, s.campaigns[k]) ensures j < |c.ids| { BackersVoted(c, s.cast, s.campaigns[k], j); }
      Small(Backers(c, s.campaigns[k]), |c.ids|);
    }
  }

  /** No run elects two leaders in one epoch. */
  ghost predicate Safe(c: Config)
  {
    forall views: seq<View>, steps, epoch :: |views| == |c.ids| && Run(c, views, steps).Some? ==>
      !TwoLeaders(c, Run(c, views, steps).value, epoch)
  }

  /** The same for the runs in which every candidate saw its master down and runs at most
    * `calls` campaigns at a time. */
  ghost predicate SafePrompted(c: Config, calls: nat)
  {
    forall views: seq<View>, s, epoch :: |views| == |c.ids| && Reaches(c, views, s, calls) ==> !TwoLeaders(c, s, epoch)
  }

  lemma SafeBoth(c: Config, calls: nat)
    requires Safe(c)
    ensures SafePrompted(c, calls)
  {
    hide TwoLeaders, Run;
    forall views: seq<View>, s, epoch | |views| == |c.ids| && Reaches(c, views, s, calls)
      ensures !TwoLeaders(c, s, epoch)
    {
      var steps :| Run(c, views, steps) == Some(s) && AllPrompted(c, views, steps, calls);
    }
  }

  /** With the code's reading of replies and a majority quorum, safety holds exactly for a
    * single sentinel and for a quorum nobody can reach, over all runs and over the prompted
    * ones, however many campaigns a sentinel may run at a time. */
  lemma SubstringSafety(c: Config, calls: nat)
    requires Proper(c) && Majority(c) && c.decoder == Substring && calls >= 1
    ensures Safe(c) <==> |c.ids| == 1 || c.quorum > |c.ids|
    ensures SafePrompted(c, calls) <==> |c.ids| == 1 || c.quorum > |c.ids|
  {
    hide TwoLeaders, Run, Reaches;
    if |c.ids| == 1 || c.quorum > |c.ids| {
      forall views: seq<View>, steps, epoch | |views| == |c.ids| && Run(c, views, steps).Some?
        ensures !TwoLeaders(c, Run(c, views, steps).value, epoch)
      {
        FewLeaders(c, views, steps, epoch);
      }
      SafeBoth(c, calls);
    } else {
      var views := seq(|c.ids|, i => View("", 0, true));
      assert Decimal(1)[0] == '1';
      var s := TwoLeadersElected(c, views, 1, calls);
      assert !SafePrompted(c, calls);
      if Safe(c) { SafeBoth(c, calls); }
    }
  }

  /** Reading the vote field makes every majority quorum safe. */
  lemma VoteFieldSafety(c: Config)
    requires Proper(c) && Majority(c) && c.decoder == VoteField
    ensures Safe(c)
  {
    hide Run;
    forall views: seq<View>, steps, epoch | |views| == |c.ids| && Run(c, views, steps).Some?
      ensures !TwoLeaders(c, Run(c, views, steps).value, epoch)
    {
      var s := Run(c, views, steps).value;
      forall k: nat, l: nat | Elected(c, s, k) && Elected(c, s, l) && s.campaigns[k].epoch == s.campaigns[l].epoch
        ensures k == l
      {
        OneLeader(c, views, steps, k, l);
      }
    }
  }
}
