/** Sorted sets: a score dictionary and a skip list that must tell the same story. */
module ZSets {
  import opened Backwards
  import opened Options
  import opened Order
  import opened Sequences
  import opened Towers
  import opened SkipGrids
  import opened SkipLists
  import opened Rankings

  class ZSet {
    var dict: Scores
    var skiplist: SkipList
    ghost var Repr: set<object>

    ghost predicate Valid()
      reads this, Repr
    {
      && this in Repr && skiplist in Repr
      && (forall p :: 0 <= p < |skiplist.nodes| ==> skiplist.nodes[p] in Repr)
      && skiplist.Valid()
      && Agree(dict, skiplist.Contents())
    }

    constructor ()
      ensures Valid() && dict == map[] && fresh(Repr)
    {
      dict := map[];
      skiplist := new SkipList();
      new;
      Repr := {this, skiplist} + set n | n in skiplist.nodes;
    }

    /** The skip list lists the dictionary in its one sorted order. */
    lemma Listed()
      requires Valid()
      ensures skiplist.Contents() == Ranking(dict) && |Ranking(dict)| == |dict|
      ensures UniqueMembers(Ranking(dict))
    {
      RankingUnique(dict, skiplist.Contents());
      AgreeLength(dict, skiplist.Contents());
      AgreeUnique(dict, skiplist.Contents());
    }

    method Add(member: string, score: real) returns (changed: bool)
      requires Valid()
      modifies Repr
      ensures Valid() && fresh(Repr - old(Repr))
      ensures dict == old(dict)[member := score]
      ensures changed <==> old(dict) != dict
    {
      hide SkipList.Valid, SkipList.Contents, Put, Take, Sorted, Agree;
      skiplist.ContentsSorted();
      var exists_ := member in dict;
      if exists_ {
        if dict[member] == score {
          return false;
        }
        TakeAgree(dict, skiplist.Contents(), member);
        var _ := skiplist.Delete(member, dict[member]);
      }
      ghost var d := dict - {member};
      assert dict[member := score] == d[member := score];
      assert member !in dict ==> d == dict;
      PutAgree(d, skiplist.Contents(), Entry(member, score));
      AgreeAbsent(d, skiplist.Contents(), Entry(member, score));
      dict := dict[member := score];
      var wasInserted := skiplist.Insert(member, score);
      Repr := Repr + set n | n in skiplist.nodes;
      changed := !exists_ || wasInserted;
    }

    method Remove(member: string) returns (removed: bool)
      requires Valid()
      modifies Repr
      ensures Valid() && fresh(Repr - old(Repr))
      ensures dict == old(dict) - {member} && (removed <==> member in old(dict))
    {
      hide SkipList.Valid, SkipList.Contents, Take, Sorted, Agree;
      if member !in dict {
        assert dict == dict - {member};
        return false;
      }
      var score := dict[member];
      skiplist.ContentsSorted();
      TakeAgree(dict, skiplist.Contents(), member);
      dict := dict - {member};
      var _ := skiplist.Delete(member, score);
      return true;
    }

    /** Scores add up; a missing member counts from 0. */
    method IncrBy(member: string, delta: real) returns (newScore: real)
      requires Valid()
      modifies Repr
      ensures Valid() && fresh(Repr - old(Repr))
      ensures newScore == (if member in old(dict) then old(dict)[member] else 0.0) + delta
      ensures dict == old(dict)[member := newScore]
    {
      hide SkipList.Valid, SkipList.Contents, Put, Take, Sorted, Agree;
      skiplist.ContentsSorted();
      newScore := (if member in dict then dict[member] else 0.0) + delta;
      if member in dict {
        TakeAgree(dict, skiplist.Contents(), member);
        var _ := skiplist.Delete(member, dict[member]);
      }
      ghost var d := dict - {member};
      assert dict[member := newScore] == d[member := newScore];
      assert member !in dict ==> d == dict;
      PutAgree(d, skiplist.Contents(), Entry(member, newScore));
      dict := dict[member := newScore];
      var _ := skiplist.Insert(member, newScore);
      Repr := Repr + set n | n in skiplist.nodes;
    }

    /** The dictionary answers for the skip list. */
    method Score(member: string) returns (score: Option<real>)
      requires Valid()
      ensures forall x :: score == Some(x) <==> Entry(member, x) in skiplist.Contents()
    {
      score := if member in dict then Some(dict[member]) else None;
    }

    /** When the rank search stops on the header because the member sought is ""; see
      * OverlookedPossible. */
    ghost predicate Overlooked(member: string)
      requires Valid() && member in dict
      reads this, Repr
    {
      Mistaken(Heights(skiplist.grid), skiplist.level, member, Below(Ranking(dict), Entry(member, dict[member])) + 1)
    }

    method Rank(member: string) returns (rank: int)
      requires Valid()
      ensures member !in dict ==> rank == -1
      ensures member in dict ==>
        if Overlooked(member) then rank == -1
        else 0 <= rank < |dict| == |Ranking(dict)| && Ranking(dict)[rank] == Entry(member, dict[member])
    {
      hide SkipList.Contents, SkipList.Core, Sorted, UniqueMembers, Found, Mistaken, Heights, Below;
      if member !in dict {
        return -1;
      }
      Listed();
      FoundAtBelow(Ranking(dict), Entry(member, dict[member]));
      skiplist.Present(Entry(member, dict[member]));
      rank := skiplist.GetRank(member, dict[member]);
    }

    method RevRank(member: string) returns (rank: int)
      requires Valid()
      ensures member !in dict ==> rank == -1
      ensures member in dict ==>
        if Overlooked(member) then rank == -1
        else
          && 0 <= rank < |dict| == |Ranking(dict)| == |Reverse(Ranking(dict))|
          && Reverse(Ranking(dict))[rank] == Entry(member, dict[member])
    {
      hide SkipList.Valid, Sorted, Agree, Ranking, Below, Next, Reverse;
      ReverseAt(Ranking(dict));
      var r := Rank(member);
      rank := if r == -1 then -1 else |dict| - r - 1;
    }

    method Range(min: real, max: real, offset: int, count: int) returns (result: seq<Entry>)
      requires Valid()
      ensures result == Page(InRange(Ranking(dict), min, max), offset, count)
    {
      Listed();
      result := skiplist.GetRange(min, max, offset, count, false);
    }

    /** The page is empty, or the towers never rise from the top of the score range to its end. */
    ghost predicate Mirrors(min: real, max: real, offset: int, count: int)
      reads this, skiplist
    {
      var n, b := |InRange(Ranking(dict), min, max)|, UpToScore(Ranking(dict), max);
      var e := PageEnd(n, offset, count);
      e == Bound(offset, 0, n) || (e <= b && NeverRises(Heights(skiplist.grid), b - e, b))
    }

    /** A page of what the reverse walk meets. It is the page of the mirrored score range
      * exactly when no tower rises before the page ends. */
    method RevRange(min: real, max: real, offset: int, count: int) returns (result: seq<Entry>)
      requires Valid()
      ensures |Ranking(dict)| < |skiplist.grid|
      ensures result ==
              Page(Walk(Ranking(dict), Heights(skiplist.grid), UpToScore(Ranking(dict), max), min), offset, count)
      ensures result == Page(Reverse(InRange(Ranking(dict), min, max)), offset, count) <==>
              Mirrors(min, max, offset, count)
    {
      hide Ranking, Reverse, InRange, Walk, NeverRises, Agree, Sorted, PageEnd, Page, UpToScore;
      Listed();
      skiplist.ContentsSorted();
      skiplist.Towered();
      PageExactly(Ranking(dict), Heights(skiplist.grid), min, max, offset, count);
      PageBounds(|InRange(Ranking(dict), min, max)|, offset, count);
      result := skiplist.GetRange(min, max, offset, count, true);
    }

    method RangeByRank(start: int, stop: int, reverse: bool) returns (result: seq<Entry>)
      requires Valid()
      ensures result == RankSlice(if reverse then Reverse(Ranking(dict)) else Ranking(dict), start, stop)
    {
      Listed();
      result := skiplist.GetRangeByRank(start, stop, reverse);
    }

    method Count(min: real, max: real) returns (n: nat)
      requires Valid()
      ensures n == |InRange(Ranking(dict), min, max)|
    {
      var members := Range(min, max, 0, -1);
      n := |members|;
    }

    method PopMin() returns (popped: Option<Entry>)
      requires Valid()
      modifies Repr
      ensures Valid() && fresh(Repr - old(Repr))
      ensures popped == Lowest(old(dict)) && dict == Popped(old(dict), popped)
    {
      hide SkipList.Contents, Sorted, Agree;
      Listed();
      if |dict| == 0 {
        return None;
      }
      skiplist.Ends();
      var first := skiplist.header.tower[0].next;
      popped := Some(first.Key());
      var _ := Remove(first.member);
    }

    method PopMax() returns (popped: Option<Entry>)
      requires Valid()
      modifies Repr
      ensures Valid() && fresh(Repr - old(Repr))
      ensures popped == Highest(old(dict)) && dict == Popped(old(dict), popped)
    {
      hide SkipList.Contents, Sorted, Agree;
      Listed();
      if |dict| == 0 {
        return None;
      }
      skiplist.Ends();
      var last := skiplist.tail;
      popped := Some(last.Key());
      var _ := Remove(last.member);
    }

    /** The removal loop of RemoveRangeByScore and RemoveRangeByRank. */
    method RemoveAll(members: seq<Entry>) returns (count: nat)
      requires Valid()
      modifies Repr
      ensures Valid() && fresh(Repr - old(Repr))
      ensures dict == Without(old(dict), members) && count == |old(dict)| - |dict|
    {
      hide SkipList.Valid, Without, Sorted, Agree, Valid;
      count := 0;
      var i := 0;
      WithoutNone(dict);
      while i < |members|
        invariant 0 <= i <= |members|
        invariant Valid() && fresh(Repr - old(Repr))
        invariant dict == Without(old(dict), members[..i]) && count == |old(dict)| - |dict|
      {
        WithoutStep(old(dict), members, i);
        RemovedOne(dict, members[i].member);
        var removed := Remove(members[i].member);
        if removed {
          count := count + 1;
        }
        i := i + 1;
      }
      assert members[..i] == members;
    }

    method RemoveRangeByScore(min: real, max: real) returns (count: nat)
      requires Valid()
      modifies Repr
      ensures Valid() && fresh(Repr - old(Repr))
      ensures dict == map m | m in old(dict) && !(min <= old(dict)[m] <= max) :: old(dict)[m]
      ensures count == |old(dict)| - |dict|
    {
      hide SkipList.Valid, Without, InRange, Ranking;
      WithoutRange(dict, min, max);
      var members := Range(min, max, 0, -1);
      count := RemoveAll(members);
    }

    method RemoveRangeByRank(start: int, stop: int) returns (count: nat)
      requires Valid()
      modifies Repr
      ensures Valid() && fresh(Repr - old(Repr))
      ensures dict == Without(old(dict), RankSlice(Ranking(old(dict)), start, stop))
      ensures count == |old(dict)| - |dict|
    {
      hide SkipList.Valid, Without, Ranking;
      var members := RangeByRank(start, stop, false);
      count := RemoveAll(members);
    }

    method Clone() returns (copy: ZSet)
      requires Valid()
      ensures copy.Valid() && fresh(copy.Repr) && copy.dict == dict
    {
      hide SkipList.Valid, SkipList.Contents, Agree;
      copy := new ZSet();
      copy.dict := dict;
      copy.skiplist := skiplist.Clone();
      copy.Repr := {copy, copy.skiplist} + set n | n in copy.skiplist.nodes;
    }

    // ---------- the loops of the sorted-set commands ----------

    method AddAllMembers(members: seq<Entry>) returns (added: nat)
      requires Valid()
      modifies Repr
      ensures Valid() && fresh(Repr - old(Repr))
      ensures dict == AddAll(old(dict), members) && added == Changes(old(dict), members)
    {
      hide SkipList.Valid, Agree, AddAll, Changes;
      AddAllNone(dict);
      added := 0;
      var i := 0;
      while i < |members|
        invariant 0 <= i <= |members|
        invariant Valid() && fresh(Repr - old(Repr))
        invariant dict == AddAll(old(dict), members[..i]) && added == Changes(old(dict), members[..i])
      {
        AddAllStep(old(dict), members, i);
        var changed := Add(members[i].member, members[i].score);
        if changed {
          added := added + 1;
        }
        i := i + 1;
      }
      assert members[..i] == members;
    }

    method RemoveMembers(members: seq<string>) returns (removed: nat)
      requires Valid()
      modifies Repr
      ensures Valid() && fresh(Repr - old(Repr))
      ensures dict == Dropped(old(dict), members) && removed == |old(dict)| - |dict|
    {
      hide SkipList.Valid, Agree, Dropped;
      DroppedNone(dict);
      removed := 0;
      var i := 0;
      while i < |members|
        invariant 0 <= i <= |members|
        invariant Valid() && fresh(Repr - old(Repr))
        invariant dict == Dropped(old(dict), members[..i]) && removed == |old(dict)| - |dict|
      {
        DroppedStep(old(dict), members, i);
        RemovedOne(dict, members[i]);
        var gone := Remove(members[i]);
        if gone {
          removed := removed + 1;
        }
        i := i + 1;
      }
      assert members[..i] == members;
    }
  }
}
