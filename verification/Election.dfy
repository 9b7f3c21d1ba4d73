/** The sentinels' epoch vote: one sentinel's rules and the wire form of a vote reply. */
module Elections {
  import opened Options
  import opened Decimals

  // ---------- one sentinel ----------

  datatype Ballot = Ballot(currentEpoch: int, votedEpoch: int, votedFor: string)

  /** How a sentinel sees the master it monitors. */
  datatype View = View(host: string, port: int, down: bool)

  datatype Request = Request(host: string, port: int, epoch: int, candidate: string)

  datatype Reply = Reply(vote: int, leader: string, epoch: int)

  predicate MayStand(b: Ballot, id: string)
  {
    b.votedFor == "" || b.votedFor == id
  }

  function Stood(b: Ballot, id: string): Ballot
  {
    Ballot(b.currentEpoch + 1, b.currentEpoch + 1, id)
  }

  function Renewed(b: Ballot, epoch: int): Ballot
  {
    if epoch > b.currentEpoch then Ballot(epoch, 0, "") else b
  }

  predicate SawDown(v: View, r: Request)
  {
    v.host == r.host && v.port == r.port && v.down
  }

  function Answer(b: Ballot, r: Request, v: View): (Ballot, Reply)
  {
    if r.epoch < b.currentEpoch then (b, Reply(0, b.votedFor, b.currentEpoch))
    else
      var b := Renewed(b, r.epoch);
      if b.votedEpoch == r.epoch then
        (b, Reply(if b.votedFor == r.candidate then 1 else 0, b.votedFor, r.epoch))
      else if SawDown(v, r) then (Ballot(b.currentEpoch, r.epoch, r.candidate), Reply(1, r.candidate, r.epoch))
      else (b, Reply(0, "", r.epoch))
  }

  /** A yes is for the asked epoch and candidate; the first one in an epoch from 1 on needs
    * the master seen down. */
  lemma YesMeansVoted(b: Ballot, r: Request, v: View)
    ensures var (b', reply) := Answer(b, r, v);
            && (reply.vote == 1 <==>
                  b'.votedEpoch == r.epoch && b'.votedFor == r.candidate && r.epoch >= b.currentEpoch)
            && (reply.vote == 1 ==> reply.leader == r.candidate && reply.epoch == r.epoch)
            && (reply.vote == 1 && r.epoch >= 1 ==> b' == b || SawDown(v, r))
            && (reply.vote == 0 || reply.vote == 1)
  {
  }

  /** The voting rules, from the ballot before the request: a stale epoch is refused; in the
    * current epoch a vote already cast decides; otherwise the sentinel grants its vote exactly
    * if it sees that very master down. A grant is recorded, and the epoch is the greater one. */
  lemma GrantExactly(b: Ballot, r: Request, v: View)
    ensures var (b', reply) := Answer(b, r, v);
            var down := v == View(r.host, r.port, true);
            && (r.epoch < b.currentEpoch ==> reply == Reply(0, b.votedFor, b.currentEpoch) && b' == b)
            && (r.epoch == b.currentEpoch == b.votedEpoch ==>
                  b' == b && reply == Reply(if b.votedFor == r.candidate then 1 else 0, b.votedFor, r.epoch))
            && (r.epoch == b.currentEpoch != b.votedEpoch || (r.epoch > b.currentEpoch && r.epoch != 0) ==>
                  if down then reply == Reply(1, r.candidate, r.epoch) && b' == Ballot(r.epoch, r.epoch, r.candidate)
                  else
                    && reply == Reply(0, "", r.epoch)
                    && b' == if r.epoch > b.currentEpoch then Ballot(r.epoch, 0, "") else b)
            && b'.currentEpoch == if r.epoch > b.currentEpoch then r.epoch else b.currentEpoch
  {
  }

  /** Epoch 0, which no candidate asks for, counts as voted in: a sentinel that has not voted
    * says yes there exactly to the empty candidate, whatever it sees of the master. */
  lemma EpochZero(r: Request, v: View)
    requires r.epoch == 0
    ensures Answer(Ballot(0, 0, ""), r, v).1.vote == 1 <==> r.candidate == ""
  {
  }

  class Voter {
    const id: string
    var currentEpoch: int
    var votedEpoch: int
    var votedFor: string

    ghost function State(): Ballot
      reads this
    {
      Ballot(currentEpoch, votedEpoch, votedFor)
    }

    constructor (id: string)
      ensures this.id == id && State() == Ballot(0, 0, "")
    {
      this.id := id;
      currentEpoch, votedEpoch, votedFor := 0, 0, "";
    }

    /** The start of voteForFailover: the epoch to campaign in, unless this sentinel is
      * bound to another candidate. */
    method BecomeCandidate() returns (epoch: Option<int>)
      modifies this
      ensures epoch.Some? <==> MayStand(old(State()), id)
      ensures epoch.Some? <==> old(votedFor) == "" || old(votedFor) == id
      ensures epoch.Some? ==> State() == Stood(old(State()), id)
      ensures epoch.Some? ==> epoch.value == currentEpoch == votedEpoch == old(currentEpoch) + 1 && votedFor == id
      ensures epoch.None? ==> State() == old(State())
    {
      if votedFor != "" && votedFor != id {
        return None;
      }
      currentEpoch := currentEpoch + 1;
      var epoch0 := currentEpoch;
      votedEpoch := epoch0;
      votedFor := id;
      return Some(epoch0);
    }

    method HandleVoteRequest(host: string, port: int, requestEpoch: int, candidate: string, view: View)
      returns (reply: string)
      modifies this
      ensures var (b, r) := Answer(old(State()), Request(host, port, requestEpoch, candidate), view);
              State() == b && reply == Encode(r)
      ensures currentEpoch >= old(currentEpoch)
      ensures 0 <= old(votedEpoch) <= old(currentEpoch) ==>
        (Read(VoteField, reply) == 1 <==>
         && requestEpoch >= old(currentEpoch)
         && if old(votedEpoch) == requestEpoch then old(votedFor) == candidate else view == View(host, port, true))
    {
      hide Encode, Read;
      ghost var given := Answer(State(), Request(host, port, requestEpoch, candidate), view).1;
      GrantExactly(State(), Request(host, port, requestEpoch, candidate), view);
      VoteFieldReads(given);
      if requestEpoch < currentEpoch {
        return Encode(Reply(0, votedFor, currentEpoch));
      }
      if requestEpoch > currentEpoch {
        currentEpoch := requestEpoch;
        votedEpoch := 0;
        votedFor := "";
      }
      if votedEpoch == requestEpoch {
        if votedFor == candidate {
          return Encode(Reply(1, candidate, requestEpoch));
        } else {
          return Encode(Reply(0, votedFor, requestEpoch));
        }
      }
      if host != view.host || port != view.port {
        return Encode(Reply(0, "", requestEpoch));
      }
      if !view.down {
        return Encode(Reply(0, "", requestEpoch));
      }
      votedEpoch := requestEpoch;
      votedFor := candidate;
      return Encode(Reply(1, candidate, requestEpoch));
    }
  }

  // ---------- the reply on the wire ----------

  function Encode(r: Reply): string
  {
    "*3\r\n" + (":" + Number(r.vote) + "\r\n")
    + (if r.leader == "" then "$-1\r\n" else "$" + Decimal(|r.leader|) + "\r\n" + r.leader + "\r\n")
    + (":" + Number(r.epoch) + "\r\n")
  }

  /** Two replies as they go over the wire. */
  lemma ReplyOnTheWire()
    ensures Encode(Reply(1, "s1", 7)) == "*3\r\n:1\r\n$2\r\ns1\r\n:7\r\n"
    ensures Encode(Reply(0, "", 3)) == "*3\r\n:0\r\n$-1\r\n:3\r\n"
  {
    assert Number(1) == "1" && Number(7) == "7" && Number(0) == "0" && Number(3) == "3" && Decimal(2) == "2";
  }

  /** What the candidate looks for in a reply. */
  predicate HasColonOne(s: string)
  {
    exists i :: 0 <= i < |s| - 1 && s[i] == ':' && s[i + 1] == '1'
  }

  datatype Decoder = VoteField | Substring

  function Read(d: Decoder, text: string): int
  {
    match d
    case VoteField => if |text| > 5 && text[5] == '1' then 1 else 0
    case Substring => if HasColonOne(text) then 1 else 0
  }

  /** How many of the replies are taken for a yes. */
  ghost function Tally(replies: seq<string>): nat
  {
    if replies == [] then 0 else Tally(replies[..|replies| - 1]) + Read(Substring, replies[|replies| - 1])
  }

  /** The positions of the replies that hold ":1". */
  ghost function YesAt(replies: seq<string>): set<int>
  {
    set i | 0 <= i < |replies| && HasColonOne(replies[i])
  }

  /** Every reply with ":1" in it counts once, wherever it comes. */
  lemma {:induction false} TallyExactly(replies: seq<string>)
    ensures Tally(replies) == |YesAt(replies)|
  {
    hide HasColonOne;
    if replies == [] {
      assert YesAt(replies) == {};
    } else {
      var n := |replies| - 1;
      TallyExactly(replies[..n]);
      assert YesAt(replies) == YesAt(replies[..n]) + if HasColonOne(replies[n]) then {n} else {};
    }
  }

  /** The end of voteForFailover: the candidate's own vote and the replies that came in time. */
  method CountVotes(replies: seq<string>, quorum: int) returns (reached: bool)
    ensures reached <==> 1 + Tally(replies) >= quorum
  {
    hide HasColonOne;
    var votes := 1;
    for i := 0 to |replies|
      invariant votes == 1 + Tally(replies[..i])
    {
      votes := votes + if HasColonOne(replies[i]) then 1 else 0;
      assert replies[..i + 1][..i] == replies[..i];
    }
    assert replies[..|replies|] == replies;
    return votes >= quorum;
  }

  lemma ColonOneConcat(a: string, b: string)
    ensures HasColonOne(a + b) <==>
            HasColonOne(a) || HasColonOne(b) || (a != [] && b != [] && a[|a| - 1] == ':' && b[0] == '1')
  {
    if HasColonOne(a + b) && !HasColonOne(a) {
      var i :| 0 <= i < |a + b| - 1 && (a + b)[i] == ':' && (a + b)[i + 1] == '1';
      if i >= |a| { assert b[i - |a|] == ':' && b[i - |a| + 1] == '1'; }
    }
    if HasColonOne(a) {
      var i :| 0 <= i < |a| - 1 && a[i] == ':' && a[i + 1] == '1';
      assert (a + b)[i] == ':' && (a + b)[i + 1] == '1';
    }
    if HasColonOne(b) {
      var i :| 0 <= i < |b| - 1 && b[i] == ':' && b[i + 1] == '1';
      assert (a + b)[|a| + i] == ':' && (a + b)[|a| + i + 1] == '1';
    }
    if a != [] && b != [] && a[|a| - 1] == ':' && b[0] == '1' {
      assert (a + b)[|a| - 1] == ':' && (a + b)[|a| - 1 + 1] == '1';
    }
  }

  lemma VoteFieldReads(r: Reply)
    requires r.vote == 0 || r.vote == 1
    ensures Read(VoteField, Encode(r)) == r.vote
  {
    assert Encode(r)[5] == Number(r.vote)[0];
  }

  lemma ColonOneInNumber(n: int)
    ensures HasColonOne(":" + Number(n) + "\r\n") <==> Number(n)[0] == '1'
  {
    var t := ":" + Number(n) + "\r\n";
    assert forall i :: 1 <= i < |t| ==> t[i] != ':' ;
    if Number(n)[0] == '1' { assert t[0] == ':' && t[0 + 1] == '1'; }
  }

  lemma ColonOneInLeader(leader: string)
    ensures HasColonOne("$" + Decimal(|leader|) + "\r\n" + leader + "\r\n") <==> HasColonOne(leader)
  {
    var length := "$" + Decimal(|leader|) + "\r\n";
    assert forall i :: 0 <= i < |length| ==> length[i] != ':';
    ColonOneConcat(length, leader);
    ColonOneConcat(length + leader, "\r\n");
  }

  /** Exactly when the candidate takes a reply for a yes. */
  lemma SubstringReads(r: Reply)
    requires r.vote == 0 || r.vote == 1
    ensures Read(Substring, Encode(r)) == 1 <==>
            r.vote == 1 || HasColonOne(r.leader) || Number(r.epoch)[0] == '1'
  {
    var vote := ":" + Number(r.vote) + "\r\n";
    var leader := if r.leader == "" then "$-1\r\n" else "$" + Decimal(|r.leader|) + "\r\n" + r.leader + "\r\n";
    var epoch := ":" + Number(r.epoch) + "\r\n";
    ColonOneInNumber(r.vote);
    ColonOneInNumber(r.epoch);
    ColonOneInLeader(r.leader);
    ColonOneConcat("*3\r\n", vote);
    ColonOneConcat("*3\r\n" + vote, leader);
    ColonOneConcat("*3\r\n" + vote + leader, epoch);
  }
}
