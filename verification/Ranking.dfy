/** A sorted set as a value: a map from members to scores, and the one ranking it has. */
module Rankings {
  import opened Options
  import opened Order
  import opened Sequences

  type Scores = map<string, real>

  /** The sequence lists exactly the entries of the map. */
  ghost predicate Agree(d: Scores, s: seq<Entry>)
  {
    forall e :: e in s <==> e.member in d && d[e.member] == e.score
  }

  lemma AgreeUnique(d: Scores, s: seq<Entry>)
    requires Agree(d, s) && Sorted(s)
    ensures UniqueMembers(s)
  {
    forall i, j | 0 <= i < j < |s| ensures s[i].member != s[j].member {
      assert s[i] in s && s[j] in s;
      LessTotal(s[i], s[j]);
      assert Less(s[i], s[j]);
    }
  }

  lemma PutMembers(s: seq<Entry>, e: Entry)
    requires forall i :: 0 <= i < |s| ==> s[i].member != e.member
    ensures forall x :: x in Put(s, e) <==> x in s || x == e
  {
    var k := Below(s, e);
    assert Put(s, e) == s[..k] + [e] + s[k..];
    assert s == s[..k] + s[k..];
  }

  lemma PutSorted(s: seq<Entry>, e: Entry)
    requires Sorted(s) && forall i :: 0 <= i < |s| ==> s[i].member != e.member
    ensures Sorted(Put(s, e))
  {
    var k := Below(s, e);
    BelowSplits(s, e);
    forall i | k <= i < |s| ensures Less(e, s[i]) { LessTotal(e, s[i]); }
    assert Put(s, e) == s[..k] + [e] + s[k..];
  }

  lemma PutAgree(d: Scores, s: seq<Entry>, e: Entry)
    requires Agree(d, s) && Sorted(s) && e.member !in d
    ensures Agree(d[e.member := e.score], Put(s, e)) && Sorted(Put(s, e))
  {
    assert forall i :: 0 <= i < |s| ==> s[i] in s;
    PutMembers(s, e);
    PutSorted(s, e);
  }

  lemma TakeForm(s: seq<Entry>, e: Entry)
    requires Sorted(s) && e in s
    ensures var k := Below(s, e); k < |s| && s[k] == e && Take(s, e) == s[..k] + s[k + 1..]
  {
    FoundAtBelow(s, e);
  }

  lemma TakeSorted(s: seq<Entry>, e: Entry)
    requires Sorted(s) && e in s
    ensures Sorted(Take(s, e)) && |Take(s, e)| == |s| - 1
  {
    TakeForm(s, e);
  }

  lemma TakeMembers(s: seq<Entry>, e: Entry)
    requires Sorted(s) && e in s
    ensures forall x :: x in Take(s, e) <==> x in s && x != e
  {
    TakeForm(s, e);
    var k := Below(s, e);
    assert s == s[..k] + [e] + s[k + 1..];
    forall i | 0 <= i < |s| && i != k ensures s[i] != e {
      LessTotal(e, e);
      assert Less(s[if i < k then i else k], s[if i < k then k else i]);
    }
  }

  lemma TakeAgree(d: Scores, s: seq<Entry>, m: string)
    requires Agree(d, s) && Sorted(s) && m in d
    ensures Agree(d - {m}, Take(s, Entry(m, d[m]))) && Sorted(Take(s, Entry(m, d[m])))
    ensures |Take(s, Entry(m, d[m]))| == |s| - 1
  {
    hide Take, Sorted;
    assert Entry(m, d[m]) in s;
    TakeSorted(s, Entry(m, d[m]));
    TakeMembers(s, Entry(m, d[m]));
  }

  lemma {:induction false} AgreeLength(d: Scores, s: seq<Entry>)
    requires Agree(d, s) && Sorted(s)
    ensures |d| == |s|
    decreases |s|
  {
    if d == map[] {
      EmptyOrInhabited(s);
    } else {
      var m :| m in d;
      TakeAgree(d, s, m);
      AgreeLength(d - {m}, Take(s, Entry(m, d[m])));
      assert |d - {m}| == |d| - 1;
    }
  }

  /** The members of a map in ascending order of score, ties by member. */
  ghost function Ranking(d: Scores): (s: seq<Entry>)
    ensures Agree(d, s) && Sorted(s)
    decreases |d|
  {
    if d == map[] then []
    else
      var m :| m in d;
      assert d == (d - {m})[m := d[m]];
      PutAgree(d - {m}, Ranking(d - {m}), Entry(m, d[m]));
      Put(Ranking(d - {m}), Entry(m, d[m]))
  }

  /** Whatever sorted sequence agrees with the map is its ranking. */
  lemma RankingUnique(d: Scores, s: seq<Entry>)
    requires Agree(d, s) && Sorted(s)
    ensures s == Ranking(d)
  {
    SortedCanonical(s, Ranking(d));
  }

  lemma AgreeAbsent(d: Scores, s: seq<Entry>, e: Entry)
    requires Agree(d, s)
    ensures e.member !in d ==> e !in s
    ensures e.member in d && d[e.member] == e.score ==> e in s
  {
  }

  /** The map without the members of some entries. */
  ghost function Without(d: Scores, es: seq<Entry>): (r: Scores)
  {
    map m | m in d && !Names(es, m) :: d[m]
  }

  ghost predicate Names(es: seq<Entry>, m: string)
  {
    exists i :: 0 <= i < |es| && es[i].member == m
  }

  lemma RemovedOne(d: Scores, m: string)
    ensures |d - {m}| == if m in d then |d| - 1 else |d|
  {
    assert m !in d ==> d - {m} == d;
    assert m in d ==> d == (d - {m})[m := d[m]];
  }

  lemma WithoutNone(d: Scores)
    ensures Without(d, []) == d
  {
  }

  lemma WithoutStep(d: Scores, es: seq<Entry>, k: nat)
    requires k < |es|
    ensures Without(d, es[..k + 1]) == Without(d, es[..k]) - {es[k].member}
  {
    assert es[..k + 1][k] == es[k];
    forall m ensures Names(es[..k + 1], m) <==> Names(es[..k], m) || m == es[k].member {
      if Names(es[..k], m) {
        var i :| 0 <= i < k && es[..k][i].member == m;
        assert es[..k + 1][i].member == m;
      }
      if Names(es[..k + 1], m) {
        var i :| 0 <= i < k + 1 && es[..k + 1][i].member == m;
        assert i < k ==> es[..k][i].member == m;
      }
    }
  }

  lemma {:induction false} InRangeMembers(s: seq<Entry>, min: real, max: real)
    ensures forall e :: e in InRange(s, min, max) <==> e in s && min <= e.score <= max
  {
    if s != [] { InRangeMembers(s[1..], min, max); }
  }

  /** Removing the members found in a score range leaves exactly the scores outside it. */
  lemma WithoutRange(d: Scores, min: real, max: real)
    ensures Without(d, InRange(Ranking(d), min, max)) == map m | m in d && !(min <= d[m] <= max) :: d[m]
  {
    var s := Ranking(d);
    var es := InRange(s, min, max);
    InRangeMembers(s, min, max);
    forall m | m in d ensures Names(es, m) <==> min <= d[m] <= max {
      var e := Entry(m, d[m]);
      assert e in s;
      if min <= d[m] <= max {
        assert e in es;
        var i :| 0 <= i < |es| && es[i] == e;
      }
      if Names(es, m) {
        var i :| 0 <= i < |es| && es[i].member == m;
        assert es[i] in es && es[i] in s;
      }
    }
  }

  /** The first of a ranking, if any. */
  ghost function Lowest(d: Scores): Option<Entry>
  {
    var s := Ranking(d);
    if s == [] then None else Some(s[0])
  }

  /** The last of a ranking, if any. */
  ghost function Highest(d: Scores): Option<Entry>
  {
    var s := Ranking(d);
    if s == [] then None else Some(s[|s| - 1])
  }

  /** The scores that are left when `e` is taken. */
  ghost function Popped(d: Scores, e: Option<Entry>): Scores
  {
    if e.None? then d else d - {e.value.member}
  }

  /** The first and last entries of a ranking are its minimum and maximum. */
  lemma RankingEnds(d: Scores)
    requires d != map[]
    ensures |Ranking(d)| == |d| > 0
    ensures Lowest(d) == Some(Ranking(d)[0]) && Highest(d) == Some(Ranking(d)[|d| - 1])
    ensures var s := Ranking(d);
            forall m :: m in d ==>
              && (s[0] == Entry(m, d[m]) || Less(s[0], Entry(m, d[m])))
              && (s[|s| - 1] == Entry(m, d[m]) || Less(Entry(m, d[m]), s[|s| - 1]))
  {
    var s := Ranking(d);
    AgreeLength(d, s);
    forall m | m in d
      ensures && (s[0] == Entry(m, d[m]) || Less(s[0], Entry(m, d[m])))
              && (s[|s| - 1] == Entry(m, d[m]) || Less(Entry(m, d[m]), s[|s| - 1]))
    {
      assert Entry(m, d[m]) in s;
      var i :| 0 <= i < |s| && s[i] == Entry(m, d[m]);
    }
  }

  /** Of any two entries the ranking puts the lower score first, and of equal scores the member
    * that comes first in the dictionary order. */
  lemma RankingOrdered(d: Scores, i: nat, j: nat)
    requires i < j < |Ranking(d)|
    ensures var a, b := Ranking(d)[i], Ranking(d)[j];
            a.score < b.score || (a.score == b.score && InDictionaryOrder(a.member, b.member))
  {
    hide InDictionaryOrder, StringLess;
    StringLessExactly(Ranking(d)[i].member, Ranking(d)[j].member);
    assert Sorted(Ranking(d));
  }

  lemma RankingSize(d: Scores)
    ensures |Ranking(d)| == |d| && (|d| == 0 <==> d == map[])
  {
    AgreeLength(d, Ranking(d));
  }

  /** ZADD: every pair in turn sets its member's score. */
  ghost function AddAll(d: Scores, es: seq<Entry>): Scores
  {
    if es == [] then d
    else var d' := AddAll(d, es[..|es| - 1]); d'[es[|es| - 1].member := es[|es| - 1].score]
  }

  /** How many of those assignments changed anything. */
  ghost function Changes(d: Scores, es: seq<Entry>): nat
  {
    if es == [] then 0
    else Changes(d, es[..|es| - 1]) + if AddAll(d, es) != AddAll(d, es[..|es| - 1]) then 1 else 0
  }

  lemma AddAllStep(d: Scores, es: seq<Entry>, i: nat)
    requires i < |es|
    ensures AddAll(d, es[..i + 1]) == AddAll(d, es[..i])[es[i].member := es[i].score]
    ensures Changes(d, es[..i + 1]) ==
            Changes(d, es[..i]) + if AddAll(d, es[..i + 1]) != AddAll(d, es[..i]) then 1 else 0
  {
    assert es[..i + 1][..i] == es[..i];
  }

  /** Another entry counts exactly if it names a new member or gives a known one another score. */
  lemma ChangesExactly(d: Scores, es: seq<Entry>, e: Entry)
    ensures Changes(d, []) == 0
    ensures var d' := AddAll(d, es);
            Changes(d, es + [e]) == Changes(d, es) + if e.member in d' && d'[e.member] == e.score then 0 else 1
  {
    var all := es + [e];
    assert all[..|es|] == es && all[|es|] == e;
    var d' := AddAll(d, es);
    assert AddAll(d, all) == d'[e.member := e.score];
    assert e.member in d'[e.member := e.score] && d'[e.member := e.score][e.member] == e.score;
  }

  lemma AddAllNone(d: Scores)
    ensures AddAll(d, []) == d && Changes(d, []) == 0
  {
  }

  /** The map without some members. */
  ghost function Dropped(d: Scores, ms: seq<string>): Scores
  {
    map m | m in d && m !in ms :: d[m]
  }

  lemma DroppedStep(d: Scores, ms: seq<string>, i: nat)
    requires i < |ms|
    ensures Dropped(d, ms[..i + 1]) == Dropped(d, ms[..i]) - {ms[i]}
  {
    assert ms[..i + 1] == ms[..i] + [ms[i]];
  }

  lemma DroppedAny(ms: seq<string>)
    ensures Dropped(map[], ms) == map[]
  {
  }

  lemma DroppedNone(d: Scores)
    ensures Dropped(d, []) == d
  {
  }

  /** The index clamping of the Z commands before they ask for a rank range. */
  lemma ClampedSlice(s: seq<Entry>, start: int, stop: int)
    ensures var low, high := if Normal(start, |s|) < 0 then 0 else Normal(start, |s|), Min(Normal(stop, |s|), |s| - 1);
            Window(s, start, stop) == if low > high then [] else RankSlice(s, low, high)
    ensures var low, high := if Normal(start, |s|) < 0 then 0 else Normal(start, |s|), Min(Normal(stop, |s|), |s| - 1);
            Window(s, start, stop) == [] <==> low > high
  {
  }

  lemma WindowOfNone(start: int, stop: int)
    ensures Ranking(map[]) == [] && Window(Ranking(map[]), start, stop) == []
    ensures Window(Reverse(Ranking(map[])), start, stop) == [] && Without(map[], []) == map[]
  {
  }
}
