/** Elections as runs: sentinels stand, requests and replies travel in any order and may be
  * repeated or lost, candidates count the replies they read. */
module ElectionRuns {
  import opened Options
  import opened Elections

  datatype Config = Config(ids: seq<string>, quorum: int, decoder: Decoder)

  ghost predicate Proper(c: Config)
  {
    && |c.ids| > 0 && (forall i :: 0 <= i < |c.ids| ==> c.ids[i] != "")
    && forall i, j :: 0 <= i < j < |c.ids| ==> c.ids[i] != c.ids[j]
  }

  ghost predicate Majority(c: Config)
  {
    2 * c.quorum > |c.ids|
  }

  /** One call of voteForFailover: whom it asked, the replies sent to it, the one reply it
    * read from each peer, and its tally. */
  datatype Campaign = Campaign(candidate: nat, epoch: int, host: string, port: int, peers: set<nat>,
                               replies: set<(nat, string)>, counted: map<nat, string>, votes: int, open: bool)

  /** A vote that was cast; kept for the proofs, no step reads it. */
  datatype Vote = Vote(voter: nat, epoch: int, candidate: string)

  datatype State = State(ballots: seq<Ballot>, views: seq<View>, campaigns: seq<Campaign>, cast: set<Vote>)

  datatype Step =
    | Observe(who: nat, view: View)                             // a sentinel's picture of the master changes
    | Stand(who: nat, peers: set<nat>, host: string, port: int)
    | Deliver(k: nat, peer: nat)                                // campaign k's request reaches a peer
    | Count(k: nat, peer: nat, text: string)                    // campaign k reads a reply
    | Close(k: nat)                                             // all replies read, or the timeout

  ghost function Initial(c: Config, views: seq<View>): State
  {
    State(seq(|c.ids|, i => Ballot(0, 0, "")), views, [], {})
  }

  ghost predicate Enabled(c: Config, s: State, step: Step)
  {
    |s.ballots| == |s.views| == |c.ids| &&
    match step
    case Observe(i, _) => i < |c.ids|
    case Stand(i, peers, _, _) => i < |c.ids| && forall j :: j in peers ==> j < |c.ids| && j != i
    case Deliver(k, j) => k < |s.campaigns| && j < |c.ids| && j in s.campaigns[k].peers &&
      s.campaigns[k].candidate < |c.ids|
    case Count(k, j, text) =>
      && k < |s.campaigns| && s.campaigns[k].open
      && (j, text) in s.campaigns[k].replies && j !in s.campaigns[k].counted
    case Close(k) => k < |s.campaigns|
  }

  ghost function Asked(c: Config, camp: Campaign): Request
    requires camp.candidate < |c.ids|
  {
    Request(camp.host, camp.port, camp.epoch, c.ids[camp.candidate])
  }

  ghost function AfterStand(c: Config, s: State, i: nat, peers: set<nat>, host: string, port: int): State
    requires i < |s.ballots| == |c.ids|
  {
    if !MayStand(s.ballots[i], c.ids[i]) then s
    else
      var b := Stood(s.ballots[i], c.ids[i]);
      State(s.ballots[i := b], s.views,
            s.campaigns + [Campaign(i, b.currentEpoch, host, port, peers, {}, map[], 1, true)],
            s.cast + {Vote(i, b.votedEpoch, b.votedFor)})
  }

  ghost function AfterDeliver(c: Config, s: State, k: nat, j: nat): State
    requires k < |s.campaigns| && j < |s.ballots| == |s.views| && s.campaigns[k].candidate < |c.ids|
  {
    var camp := s.campaigns[k];
    var (b, reply) := Answer(s.ballots[j], Asked(c, camp), s.views[j]);
    State(s.ballots[j := b], s.views,
          s.campaigns[k := camp.(replies := camp.replies + {(j, Encode(reply))})],
          s.cast + Cast(j, reply))
  }

  ghost function Next(c: Config, s: State, step: Step): State
    requires Enabled(c, s, step)
  {
    match step
    case Observe(i, view) => s.(views := s.views[i := view])
    case Stand(i, peers, host, port) => AfterStand(c, s, i, peers, host, port)
    case Deliver(k, j) => AfterDeliver(c, s, k, j)
    case Count(k, j, text) =>
      s.(campaigns := s.campaigns[k := AfterCount(c, s.campaigns[k], j, text)])
    case Close(k) => s.(campaigns := s.campaigns[k := s.campaigns[k].(open := false)])
  }

  // ---------- the invariant ----------

  /** What a sentinel's ballot says of the votes it cast: a vote binds it in its epoch, and
    * votes of earlier epochs are out of reach. */
  ghost predicate Committed(b: Ballot, cast: set<Vote>, i: nat)
  {
    && 0 <= b.votedEpoch <= b.currentEpoch
    && (b.votedEpoch > 0 ==> Vote(i, b.votedEpoch, b.votedFor) in cast)
    && forall v :: v in cast && v.voter == i ==>
         && 1 <= v.epoch <= b.currentEpoch
         && (v.epoch == b.currentEpoch ==> b.votedEpoch == v.epoch && b.votedFor == v.candidate)
  }

  /** Each sentinel votes for at most one candidate per epoch. */
  ghost predicate OneVoteEach(cast: set<Vote>)
  {
    forall v, w :: v in cast && w in cast && v.voter == w.voter && v.epoch == w.epoch ==> v == w
  }

  ghost predicate VotesOk(ballots: seq<Ballot>, cast: set<Vote>)
  {
    (forall i :: 0 <= i < |ballots| ==> Committed(ballots[i], cast, i)) && OneVoteEach(cast)
    && forall v :: v in cast ==> v.voter < |ballots|
  }

  ghost function Backers(c: Config, camp: Campaign): set<nat>
  {
    {camp.candidate} + set j | j in camp.counted && Read(c.decoder, camp.counted[j]) == 1
  }

  /** A reply comes from a peer, and a yes in it is a vote that was cast. */
  ghost predicate ReplyOk(c: Config, cast: set<Vote>, candidate: nat, epoch: int, r: (nat, string))
    requires candidate < |c.ids|
  {
    && r.0 < |c.ids| && r.0 != candidate
    && (Read(VoteField, r.1) == 1 ==> Vote(r.0, epoch, c.ids[candidate]) in cast)
  }

  ghost predicate CampaignOk(c: Config, cast: set<Vote>, camp: Campaign)
  {
    && camp.candidate < |c.ids| && camp.epoch >= 1
    && Vote(camp.candidate, camp.epoch, c.ids[camp.candidate]) in cast
    && (forall j :: j in camp.peers ==> j < |c.ids| && j != camp.candidate)
    && (forall r :: r in camp.replies ==> ReplyOk(c, cast, camp.candidate, camp.epoch, r))
    && (forall j :: j in camp.counted ==> (j, camp.counted[j]) in camp.replies)
    && camp.votes == |Backers(c, camp)|
  }

  ghost predicate CampaignsDistinct(campaigns: seq<Campaign>)
  {
    forall k, l :: 0 <= k < l < |campaigns| && campaigns[k].candidate == campaigns[l].candidate ==>
                     campaigns[k].epoch != campaigns[l].epoch
  }

  ghost predicate CampaignsOk(c: Config, cast: set<Vote>, campaigns: seq<Campaign>)
  {
    (forall k :: 0 <= k < |campaigns| ==> CampaignOk(c, cast, campaigns[k])) && CampaignsDistinct(campaigns)
  }

  ghost predicate Inv(c: Config, s: State)
  {
    |s.ballots| == |s.views| == |c.ids| && VotesOk(s.ballots, s.cast) && CampaignsOk(c, s.cast, s.campaigns)
  }

  /** One sentinel moves its ballot from b to b' and casts `added`. */
  ghost predicate Moves(i: nat, b: Ballot, b': Ballot, added: set<Vote>)
  {
    && 0 <= b'.votedEpoch <= b'.currentEpoch && b.currentEpoch <= b'.currentEpoch
    && (b.votedEpoch > 0 && b.votedEpoch == b'.currentEpoch ==> b' == b)
    && (b'.votedEpoch > 0 && b' != b ==> Vote(i, b'.votedEpoch, b'.votedFor) in added)
    && forall v :: v in added ==>
         v == Vote(i, b'.currentEpoch, b'.votedFor) && b'.votedEpoch == b'.currentEpoch >= 1
  }

  lemma VotesKept(ballots: seq<Ballot>, cast: set<Vote>, i: nat, b': Ballot, added: set<Vote>)
    requires VotesOk(ballots, cast) && i < |ballots| && Moves(i, ballots[i], b', added)
    ensures VotesOk(ballots[i := b'], cast + added)
  {
    var ballots', cast' := ballots[i := b'], cast + added;
    assert Committed(ballots[i], cast, i);
    forall j | 0 <= j < |ballots| ensures Committed(ballots'[j], cast', j) {
      assert Committed(ballots[j], cast, j);
    }
  }

  lemma CampaignKept(c: Config, cast: set<Vote>, campaigns: seq<Campaign>, added: set<Vote>)
    requires CampaignsOk(c, cast, campaigns)
    ensures CampaignsOk(c, cast + added, campaigns)
  {
    forall k | 0 <= k < |campaigns| ensures CampaignOk(c, cast + added, campaigns[k]) {
      assert CampaignOk(c, cast, campaigns[k]);
    }
  }

  lemma CampaignChanged(c: Config, cast: set<Vote>, campaigns: seq<Campaign>, k: nat, camp: Campaign)
    requires CampaignsOk(c, cast, campaigns) && k < |campaigns| && CampaignOk(c, cast, camp)
    requires camp.candidate == campaigns[k].candidate && camp.epoch == campaigns[k].epoch
    ensures CampaignsOk(c, cast, campaigns[k := camp])
  {
  }

  lemma StandKeeps(c: Config, s: State, i: nat, peers: set<nat>, host: string, port: int)
    requires Proper(c) && Inv(c, s) && Enabled(c, s, Stand(i, peers, host, port))
    ensures Inv(c, AfterStand(c, s, i, peers, host, port))
  {
    hide VotesOk;
    if MayStand(s.ballots[i], c.ids[i]) {
      var b := Stood(s.ballots[i], c.ids[i]);
      var added := {Vote(i, b.votedEpoch, b.votedFor)};
      BoundOf(s.ballots, s.cast, i);
      VotesKept(s.ballots, s.cast, i, b, added);
      CampaignKept(c, s.cast, s.campaigns, added);
      assert Backers(c, Campaign(i, b.currentEpoch, host, port, peers, {}, map[], 1, true)) == {i};
    }
  }

  lemma BoundOf(ballots: seq<Ballot>, cast: set<Vote>, i: nat)
    requires VotesOk(ballots, cast) && i < |ballots|
    ensures Committed(ballots[i], cast, i)
  {
  }

  ghost function Cast(j: nat, reply: Reply): set<Vote>
  {
    if reply.vote == 1 then {Vote(j, reply.epoch, reply.leader)} else {}
  }

  lemma AnswerMoves(j: nat, b: Ballot, cast: set<Vote>, r: Request, v: View)
    requires Committed(b, cast, j) && r.epoch >= 1
    ensures var (b', reply) := Answer(b, r, v);
            Moves(j, b, b', Cast(j, reply)) && (reply.vote == 1 ==> Cast(j, reply) == {Vote(j, r.epoch, r.candidate)})
  {
  }

  lemma ReplyAdded(c: Config, cast: set<Vote>, camp: Campaign, j: nat, text: string)
    requires CampaignOk(c, cast, camp) && ReplyOk(c, cast, camp.candidate, camp.epoch, (j, text))
    ensures CampaignOk(c, cast, camp.(replies := camp.replies + {(j, text)}))
  {
    assert Backers(c, camp.(replies := camp.replies + {(j, text)})) == Backers(c, camp);
  }

  lemma DeliverKeeps(c: Config, s: State, k: nat, j: nat)
    requires Proper(c) && Inv(c, s) && Enabled(c, s, Deliver(k, j))
    ensures Inv(c, AfterDeliver(c, s, k, j))
  {
    hide VotesOk, CampaignsOk, Encode, Read, Answer, Committed, Moves;
    var camp := s.campaigns[k];
    CampaignOf(c, s.cast, s.campaigns, k);
    BoundOf(s.ballots, s.cast, j);
    var (b, reply) := Answer(s.ballots[j], Asked(c, camp), s.views[j]);
    AnswerMoves(j, s.ballots[j], s.cast, Asked(c, camp), s.views[j]);
    YesMeansVoted(s.ballots[j], Asked(c, camp), s.views[j]);
    VoteFieldReads(reply);
    VotesKept(s.ballots, s.cast, j, b, Cast(j, reply));
    CampaignKept(c, s.cast, s.campaigns, Cast(j, reply));
    CampaignOf(c, s.cast + Cast(j, reply), s.campaigns, k);
    hide CampaignOk;
    ReplyAdded(c, s.cast + Cast(j, reply), camp, j, Encode(reply));
    CampaignChanged(c, s.cast + Cast(j, reply), s.campaigns, k, camp.(replies := camp.replies + {(j, Encode(reply))}));
  }

  lemma CampaignOf(c: Config, cast: set<Vote>, campaigns: seq<Campaign>, k: nat)
    requires CampaignsOk(c, cast, campaigns) && k < |campaigns|
    ensures CampaignOk(c, cast, campaigns[k])
  {
  }

  ghost function AfterCount(c: Config, camp: Campaign, j: nat, text: string): Campaign
  {
    camp.(counted := camp.counted[j := text], votes := camp.votes + Read(c.decoder, text))
  }

  lemma Counted(c: Config, cast: set<Vote>, camp: Campaign, j: nat, text: string)
    requires CampaignOk(c, cast, camp) && (j, text) in camp.replies && j !in camp.counted
    ensures CampaignOk(c, cast, AfterCount(c, camp, j, text))
  {
    hide Read, ReplyOk, Backers;
    ReplyFrom(c, cast, camp, j, text);
    BackersCounted(c, camp, j, text);
  }

  lemma BackersCounted(c: Config, camp: Campaign, j: nat, text: string)
    requires j != camp.candidate && j !in camp.counted
    ensures |Backers(c, AfterCount(c, camp, j, text))| == |Backers(c, camp)| + Read(c.decoder, text)
  {
    hide Read;
    ReadsBit(c.decoder, text);
    var before, after := Backers(c, camp), Backers(c, AfterCount(c, camp, j, text));
    assert forall x :: x in after <==> x in before || (x == j && Read(c.decoder, text) == 1);
    if Read(c.decoder, text) == 1 {
      assert after == before + {j} && j !in before;
    } else {
      assert after == before;
    }
  }

  lemma ReplyFrom(c: Config, cast: set<Vote>, camp: Campaign, j: nat, text: string)
    requires CampaignOk(c, cast, camp) && (j, text) in camp.replies
    ensures j != camp.candidate && j < |c.ids|
  {
    assert ReplyOk(c, cast, camp.candidate, camp.epoch, (j, text));
  }

  lemma ReadsBit(d: Decoder, text: string)
    ensures Read(d, text) == 0 || Read(d, text) == 1
  {
  }

  lemma NextKeeps(c: Config, s: State, step: Step)
    requires Proper(c) && Inv(c, s) && Enabled(c, s, step)
    ensures Inv(c, Next(c, s, step))
  {
    hide VotesOk, CampaignsOk, Read, AfterStand, AfterDeliver;
    match step
    case Stand(i, peers, host, port) => StandKeeps(c, s, i, peers, host, port);
    case Deliver(k, j) => DeliverKeeps(c, s, k, j);
    case Count(k, j, text) =>
      CampaignOf(c, s.cast, s.campaigns, k);
      Counted(c, s.cast, s.campaigns[k], j, text);
      CampaignChanged(c, s.cast, s.campaigns, k, AfterCount(c, s.campaigns[k], j, text));
    case Observe(i, view) =>
    case Close(k) =>
      CampaignOf(c, s.cast, s.campaigns, k);
      var camp' := s.campaigns[k].(open := false);
      assert Backers(c, camp') == Backers(c, s.campaigns[k]);
      CampaignChanged(c, s.cast, s.campaigns, k, camp');
  }

  // ---------- whole runs ----------

  /** The state after `steps`, if each of them was possible in its turn. */
  ghost function Run(c: Config, views: seq<View>, steps: seq<Step>): Option<State>
    requires |views| == |c.ids|
  {
    if steps == [] then Some(Initial(c, views))
    else
      match Run(c, views, steps[..|steps| - 1])
      case None => None
      case Some(s) =>
        if Enabled(c, s, steps[|steps| - 1]) then Some(Next(c, s, steps[|steps| - 1])) else None
  }

  lemma {:induction false} RunKeeps(c: Config, views: seq<View>, steps: seq<Step>)
    requires Proper(c) && |views| == |c.ids| && Run(c, views, steps).Some?
    ensures Inv(c, Run(c, views, steps).value)
  {
    hide Inv, Next, Enabled;
    if steps == [] {
      InitialOk(c, views);
    } else {
      RunKeeps(c, views, steps[..|steps| - 1]);
      NextKeeps(c, Run(c, views, steps[..|steps| - 1]).value, steps[|steps| - 1]);
    }
  }

  lemma InitialOk(c: Config, views: seq<View>)
    requires |views| == |c.ids|
    ensures Inv(c, Initial(c, views))
  {
  }

  ghost predicate Elected(c: Config, s: State, k: nat)
  {
    k < |s.campaigns| && s.campaigns[k].votes >= c.quorum
  }

  /** The campaign took each reply it read for what its vote field says. */
  ghost predicate ReadRight(c: Config, camp: Campaign)
  {
    forall j :: j in camp.counted ==> Read(c.decoder, camp.counted[j]) == Read(VoteField, camp.counted[j])
  }

  lemma {:induction false} Small(a: set<nat>, n: nat)
    requires forall x :: x in a ==> x < n
    ensures |a| <= n
  {
    if n == 0 {
      assert a == {};
    } else {
      Small(a - {n - 1}, n - 1);
      if n - 1 in a { assert a == (a - {n - 1}) + {n - 1}; } else { assert a - {n - 1} == a; }
    }
  }

  lemma BackersVoted(c: Config, cast: set<Vote>, camp: Campaign, j: nat)
    requires CampaignOk(c, cast, camp) && j in Backers(c, camp)
    ensures j < |c.ids| && (ReadRight(c, camp) ==> Vote(j, camp.epoch, c.ids[camp.candidate]) in cast)
  {
    hide Read;
    if j != camp.candidate {
      assert ReplyOk(c, cast, camp.candidate, camp.epoch, (j, camp.counted[j]));
    }
  }

  lemma BackersApart(c: Config, cast: set<Vote>, a: Campaign, b: Campaign)
    requires Proper(c) && OneVoteEach(cast) && CampaignOk(c, cast, a) && CampaignOk(c, cast, b)
    requires ReadRight(c, a) && ReadRight(c, b) && a.epoch == b.epoch && a.candidate != b.candidate
    ensures Backers(c, a) !! Backers(c, b)
    ensures |Backers(c, a)| + |Backers(c, b)| <= |c.ids|
  {
    hide CampaignOk, Backers, OneVoteEach, ReadRight;
    CandidateOk(c, cast, a);
    CandidateOk(c, cast, b);
    assert c.ids[a.candidate] != c.ids[b.candidate];
    forall j | j in Backers(c, a)
      ensures j !in Backers(c, b) && j < |c.ids|
    {
      BackersVoted(c, cast, a, j);
      if j in Backers(c, b) {
        BackersVoted(c, cast, b, j);
        TwoVotes(cast, j, a.epoch, c.ids[a.candidate], c.ids[b.candidate]);
      }
    }
    forall j | j in Backers(c, b) ensures j < |c.ids| { BackersVoted(c, cast, b, j); }
    Small(Backers(c, a) + Backers(c, b), |c.ids|);
  }

  lemma CandidateOk(c: Config, cast: set<Vote>, camp: Campaign)
    requires CampaignOk(c, cast, camp)
    ensures camp.candidate < |c.ids| && camp.votes == |Backers(c, camp)|
  {
  }

  lemma TwoVotes(cast: set<Vote>, j: nat, epoch: int, x: string, y: string)
    requires OneVoteEach(cast) && Vote(j, epoch, x) in cast && Vote(j, epoch, y) in cast
    ensures x == y
  {
  }

  /** Election safety: with a majority quorum, at most one campaign of an epoch is elected,
    * over every run in which the two campaigns read their replies right. */
  lemma OneLeader(c: Config, views: seq<View>, steps: seq<Step>, k: nat, l: nat)
    requires Proper(c) && Majority(c) && |views| == |c.ids| && Run(c, views, steps).Some?
    requires var s := Run(c, views, steps).value;
             && Elected(c, s, k) && Elected(c, s, l) && s.campaigns[k].epoch == s.campaigns[l].epoch
             && ReadRight(c, s.campaigns[k]) && ReadRight(c, s.campaigns[l])
    ensures k == l
  {
    hide Run, CampaignOk, Backers, ReadRight;
    RunKeeps(c, views, steps);
    var s := Run(c, views, steps).value;
    var a, b := s.campaigns[k], s.campaigns[l];
    CampaignOf(c, s.cast, s.campaigns, k);
    CampaignOf(c, s.cast, s.campaigns, l);
    CandidateOk(c, s.cast, a);
    CandidateOk(c, s.cast, b);
    if a.candidate != b.candidate {
      BackersApart(c, s.cast, a, b);
    }
  }

  /** Epochs never go back, and votes are never withdrawn. */
  lemma EpochsGrow(c: Config, s: State, step: Step, i: nat)
    requires Inv(c, s) && Enabled(c, s, step) && i < |c.ids|
    ensures var t := Next(c, s, step);
            && |t.ballots| == |s.ballots| && s.ballots[i].currentEpoch <= t.ballots[i].currentEpoch
            && s.cast <= t.cast
  {
    hide CampaignsOk, VotesOk, Encode, Read;
  }

  /** A sentinel that backs two candidates does so in two epochs. */
  lemma VotesBind(c: Config, views: seq<View>, steps: seq<Step>, v: Vote, w: Vote)
    requires Proper(c) && |views| == |c.ids| && Run(c, views, steps).Some?
    requires v in Run(c, views, steps).value.cast && w in Run(c, views, steps).value.cast
    requires v.voter == w.voter && v.epoch == w.epoch
    ensures v.candidate == w.candidate
  {
    RunKeeps(c, views, steps);
  }

  // ---------- every yes was earned ----------

  /** At time t campaign k's request, for v's candidate and epoch, reached v's voter while it
    * saw that master down. */
  ghost predicate Sighting(c: Config, views: seq<View>, steps: seq<Step>, v: Vote, t: nat, k: nat)
    requires |views| == |c.ids|
  {
    && t < |steps| && steps[t] == Deliver(k, v.voter) && Run(c, views, steps[..t]).Some?
    && var s := Run(c, views, steps[..t]).value;
       && k < |s.campaigns| && v.voter < |s.views| && s.campaigns[k].candidate < |c.ids|
       && var asked := Asked(c, s.campaigns[k]);
          asked.candidate == v.candidate && asked.epoch == v.epoch && SawDown(s.views[v.voter], asked)
  }

  lemma NewVoteByDeliver(c: Config, s: State, step: Step, v: Vote)
    requires Enabled(c, s, step) && v in Next(c, s, step).cast && v !in s.cast
    requires v.voter < |c.ids| && v.candidate != c.ids[v.voter]
    ensures step.Deliver?
  {
  }

  lemma CastByDeliver(c: Config, s: State, k: nat, j: nat, v: Vote)
    requires Inv(c, s) && Enabled(c, s, Deliver(k, j))
    requires v in AfterDeliver(c, s, k, j).cast && v !in s.cast
    ensures v == Vote(j, s.campaigns[k].epoch, c.ids[s.campaigns[k].candidate]) &&
            SawDown(s.views[j], Asked(c, s.campaigns[k]))
  {
    hide VotesOk, CampaignsOk, Answer;
    CampaignOf(c, s.cast, s.campaigns, k);
    BoundOf(s.ballots, s.cast, j);
    YesMeansVoted(s.ballots[j], Asked(c, s.campaigns[k]), s.views[j]);
  }

  lemma {:induction false} GrantTraced(c: Config, views: seq<View>, steps: seq<Step>, v: Vote) returns (t: nat, k: nat)
    requires Proper(c) && |views| == |c.ids| && Run(c, views, steps).Some? && v.voter < |c.ids|
    requires v in Run(c, views, steps).value.cast && v.candidate != c.ids[v.voter]
    ensures Sighting(c, views, steps, v, t, k)
  {
    hide Inv, Enabled;
    assert steps != [];
    var n := |steps| - 1;
    var s := Run(c, views, steps[..n]).value;
    RunKeeps(c, views, steps[..n]);
    if v in s.cast {
      t, k := GrantTraced(c, views, steps[..n], v);
      assert steps[..n][..t] == steps[..t];
    } else {
      NewVoteByDeliver(c, s, steps[n], v);
      t, k := n, steps[n].k;
      DeliverEnabled(c, s, k, steps[n].peer);
      CastByDeliver(c, s, k, steps[n].peer, v);
    }
  }

  lemma DeliverEnabled(c: Config, s: State, k: nat, j: nat)
    requires Enabled(c, s, Deliver(k, j))
    ensures k < |s.campaigns| && j < |c.ids| == |s.views| && s.campaigns[k].candidate < |c.ids|
  {
  }

  ghost predicate SameCall(a: Campaign, b: Campaign)
  {
    a.candidate == b.candidate && a.epoch == b.epoch && a.host == b.host && a.port == b.port
  }

  lemma {:induction false} CallsStay(c: Config, views: seq<View>, steps: seq<Step>, t: nat, k: nat)
    requires |views| == |c.ids| && t <= |steps| && Run(c, views, steps).Some? && Run(c, views, steps[..t]).Some?
    requires k < |Run(c, views, steps[..t]).value.campaigns|
    ensures var s := Run(c, views, steps).value;
            k < |s.campaigns| && SameCall(s.campaigns[k], Run(c, views, steps[..t]).value.campaigns[k])
  {
    if t == |steps| {
      assert steps[..t] == steps;
    } else {
      var n := |steps| - 1;
      assert steps[..n][..t] == steps[..t];
      CallsStay(c, views, steps[..n], t, k);
    }
  }

  /** Every peer a campaign rightly counts was reached by that campaign's own request at a
    * moment when the peer saw that very master down. */
  lemma BackerSawMasterDown(c: Config, views: seq<View>, steps: seq<Step>, k: nat, j: nat)
    requires Proper(c) && |views| == |c.ids| && Run(c, views, steps).Some?
    requires var s := Run(c, views, steps).value;
             && k < |s.campaigns| && j in Backers(c, s.campaigns[k]) && j != s.campaigns[k].candidate
             && ReadRight(c, s.campaigns[k])
    ensures var s := Run(c, views, steps).value;
            && s.campaigns[k].candidate < |c.ids| && j < |c.ids|
            && exists t ::
                 Sighting(c, views, steps, Vote(j, s.campaigns[k].epoch, c.ids[s.campaigns[k].candidate]), t, k)
  {
    hide Run, CampaignOk, Backers, ReadRight, VotesOk;
    RunKeeps(c, views, steps);
    var s := Run(c, views, steps).value;
    var camp := s.campaigns[k];
    CampaignOf(c, s.cast, s.campaigns, k);
    CandidateOk(c, s.cast, camp);
    BackersVoted(c, s.cast, camp, j);
    var v := Vote(j, camp.epoch, c.ids[camp.candidate]);
    var t, l := GrantTraced(c, views, steps, v);
    CallsStay(c, views, steps, t, l);
    CampaignOf(c, s.cast, s.campaigns, l);
    CandidateOk(c, s.cast, s.campaigns[l]);
    assert l == k;
  }
}
