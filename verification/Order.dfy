/** The total order of a sorted set: entries compare by score, ties by member. */
module Order {
  import opened Sequences

  /** A member of a sorted set together with its score (ZSetMember). */
  datatype Entry = Entry(member: string, score: real)

  /** Lexicographic order on strings, as Go's `<` compares them. */
  predicate StringLess(a: string, b: string)
  {
    |b| > 0 && (|a| == 0 || a[0] < b[0] || (a[0] == b[0] && StringLess(a[1..], b[1..])))
  }

  predicate Less(a: Entry, b: Entry)
  {
    a.score < b.score || (a.score == b.score && StringLess(a.member, b.member))
  }

  /** The strings agree up to position `k` and `a` has the smaller character there. */
  ghost predicate SmallerAt(a: string, b: string, k: nat)
  {
    k < |a| && k < |b| && a[..k] == b[..k] && a[k] < b[k]
  }

  /** The dictionary order: a proper prefix comes first, otherwise the first difference decides. */
  ghost predicate InDictionaryOrder(a: string, b: string)
  {
    a < b || exists k: nat :: SmallerAt(a, b, k)
  }

  lemma FirstAgrees(a: string, b: string, k: nat)
    requires SmallerAt(a, b, k)
    ensures k > 0 ==> a[0] == b[0]
  {
    if k > 0 { assert a[..k][0] == b[..k][0]; }
  }

  lemma {:induction false} StringLessExactly(a: string, b: string)
    ensures StringLess(a, b) <==> InDictionaryOrder(a, b)
  {
    if |a| > 0 && |b| > 0 && a[0] == b[0] {
      StringLessExactly(a[1..], b[1..]);
      assert a == [a[0]] + a[1..] && b == [b[0]] + b[1..];
      if k: nat :| SmallerAt(a[1..], b[1..], k) {
        assert a[..k + 1] == [a[0]] + a[1..][..k] && b[..k + 1] == [b[0]] + b[1..][..k];
        assert SmallerAt(a, b, k + 1);
      }
      if k: nat :| SmallerAt(a, b, k) {
        assert k > 0;
        assert a[1..][..k - 1] == a[..k][1..] && b[1..][..k - 1] == b[..k][1..];
        assert SmallerAt(a[1..], b[1..], k - 1);
      }
    } else if |a| > 0 && |b| > 0 {
      assert a[0] < b[0] ==> SmallerAt(a, b, 0);
      forall k: nat | SmallerAt(a, b, k) ensures k == 0 { FirstAgrees(a, b, k); }
    }
  }

  lemma {:induction false} StringLessTotal(a: string, b: string)
    ensures !(StringLess(a, b) && StringLess(b, a))
    ensures a == b <==> !StringLess(a, b) && !StringLess(b, a)
  {
    if |a| > 0 && |b| > 0 {
      StringLessTotal(a[1..], b[1..]);
      assert a == [a[0]] + a[1..];
      assert b == [b[0]] + b[1..];
    }
  }

  lemma {:induction false} StringLessTransitive(a: string, b: string, c: string)
    requires StringLess(a, b) && StringLess(b, c)
    ensures StringLess(a, c)
  {
    if |a| > 0 && a[0] == b[0] && b[0] == c[0] {
      StringLessTransitive(a[1..], b[1..], c[1..]);
    }
  }

  lemma LessTotal(a: Entry, b: Entry)
    ensures !(Less(a, b) && Less(b, a))
    ensures a == b <==> !Less(a, b) && !Less(b, a)
  {
    StringLessTotal(a.member, b.member);
  }

  lemma LessTransitive(a: Entry, b: Entry, c: Entry)
    requires Less(a, b) && Less(b, c)
    ensures Less(a, c)
  {
    if a.score == b.score == c.score {
      StringLessTransitive(a.member, b.member, c.member);
    }
  }

  /** Strictly ascending, hence free of duplicates. */
  ghost predicate Sorted(s: seq<Entry>)
  {
    forall i, j :: 0 <= i < j < |s| ==> Less(s[i], s[j])
  }

  /** How many entries of `s` come strictly before `e`. */
  function Below(s: seq<Entry>, e: Entry): (k: nat)
    ensures k <= |s|
  {
    if s == [] || !Less(s[0], e) then 0 else 1 + Below(s[1..], e)
  }

  /** In a sorted sequence, the entries before `e` are exactly the first `Below(s, e)`. */
  lemma {:induction false} BelowSplits(s: seq<Entry>, e: Entry)
    requires Sorted(s)
    ensures forall i :: 0 <= i < Below(s, e) ==> Less(s[i], e)
    ensures forall i :: Below(s, e) <= i < |s| ==> !Less(s[i], e)
  {
    if s != [] {
      if Less(s[0], e) {
        BelowSplits(s[1..], e);
      } else {
        forall i | 0 < i < |s| ensures !Less(s[i], e) {
          if Less(s[i], e) { LessTransitive(s[0], s[i], e); }
        }
      }
    }
  }

  /** The split point is unique. */
  lemma {:induction false} BelowUnique(s: seq<Entry>, e: Entry, k: nat)
    requires Sorted(s) && k <= |s|
    requires forall i :: 0 <= i < k ==> Less(s[i], e)
    requires k < |s| ==> !Less(s[k], e)
    ensures k == Below(s, e)
  {
    if k > 0 {
      assert Less(s[0], e);
      assert k < |s| ==> s[1..][k - 1] == s[k];
      BelowUnique(s[1..], e, k - 1);
    }
  }

  lemma EmptyOrInhabited(t: seq<Entry>)
    ensures t == [] || exists e :: e in t
  {
    assert |t| > 0 ==> t[0] in t;
  }

  /** Sorting a set of entries has one answer. */
  lemma {:induction false} SortedCanonical(s: seq<Entry>, t: seq<Entry>)
    requires Sorted(s) && Sorted(t)
    requires forall e :: e in s <==> e in t
    ensures s == t
  {
    if |s| == 0 {
      EmptyOrInhabited(t);
    } else {
      assert s[0] in t;
      assert t[0] in s;
      var i :| 0 <= i < |t| && t[i] == s[0];
      var j :| 0 <= j < |s| && s[j] == t[0];
      if s[0] != t[0] { LessTotal(s[0], t[0]); assert false; }
      forall e ensures e in s[1..] <==> e in t[1..] {
        LessTotal(s[0], s[0]);
        if e in s[1..] { assert e in s; assert e in t; }
        if e in t[1..] { assert e in t; assert e in s; }
      }
      SortedCanonical(s[1..], t[1..]);
      assert s == [s[0]] + s[1..];
      assert t == [t[0]] + t[1..];
    }
  }

  /** What skipList.insert makes of the entries: an equal entry stays, an entry of the same
    * member standing right at the insertion point is replaced, otherwise `e` is put in. */
  ghost function Put(s: seq<Entry>, e: Entry): seq<Entry>
  {
    var k := Below(s, e);
    if k < |s| && s[k] == e then s
    else if k < |s| && s[k].member == e.member then s[k := e]
    else s[..k] + [e] + s[k..]
  }

  /** What skipList.delete makes of them. */
  ghost function Take(s: seq<Entry>, e: Entry): seq<Entry>
  {
    var k := Below(s, e);
    if k < |s| && s[k] == e then s[..k] + s[k + 1..] else s
  }

  /** An entry of a sorted sequence is found at the position before which everything is less. */
  lemma FoundAtBelow(s: seq<Entry>, e: Entry)
    requires Sorted(s)
    ensures e in s <==> Below(s, e) < |s| && s[Below(s, e)] == e
  {
    BelowSplits(s, e);
    if e in s {
      var i :| 0 <= i < |s| && s[i] == e;
      LessTotal(e, e);
      BelowUnique(s, e, i);
    }
  }

  // ---------- queries on the sorted sequence ----------

  ghost predicate UniqueMembers(s: seq<Entry>)
  {
    forall i, j :: 0 <= i < j < |s| ==> s[i].member != s[j].member
  }

  /** The entries with min <= score <= max, in order. */
  function InRange(s: seq<Entry>, min: real, max: real): seq<Entry>
  {
    if s == [] then []
    else (if min <= s[0].score <= max then [s[0]] else []) + InRange(s[1..], min, max)
  }

  /** Drop `offset`, then take `count`; a count of -1 takes everything. */
  function Page(s: seq<Entry>, offset: int, count: int): seq<Entry>
  {
    var t := s[Bound(offset, 0, |s|)..];
    if count == -1 then t else t[..Bound(count, 0, |t|)]
  }

  /** Positions start..stop inclusive, empty unless 0 <= start < |s| and start <= stop. */
  function RankSlice(s: seq<Entry>, start: int, stop: int): seq<Entry>
  {
    if start < 0 || start >= |s| || stop < start then [] else s[start..Bound(stop + 1, 0, |s|)]
  }

  /** How many leading entries score below `min`. */
  function BelowScore(s: seq<Entry>, min: real): (k: nat)
    ensures k <= |s|
  {
    if s == [] || s[0].score >= min then 0 else 1 + BelowScore(s[1..], min)
  }

  lemma {:induction false} BelowScoreSplits(s: seq<Entry>, min: real)
    requires Sorted(s)
    ensures forall i :: 0 <= i < |s| ==> (s[i].score < min <==> i < BelowScore(s, min))
  {
    if s != [] && s[0].score < min {
      BelowScoreSplits(s[1..], min);
    } else if s != [] {
      assert forall i :: 0 < i < |s| ==> Less(s[0], s[i]);
    }
  }

  /** How many leading entries score at most `max`. */
  function UpToScore(s: seq<Entry>, max: real): (k: nat)
    ensures k <= |s|
  {
    if s == [] || s[0].score > max then 0 else 1 + UpToScore(s[1..], max)
  }

  lemma {:induction false} UpToScoreSplits(s: seq<Entry>, max: real)
    requires Sorted(s)
    ensures forall i :: 0 <= i < |s| ==> (s[i].score <= max <==> i < UpToScore(s, max))
  {
    if s != [] && s[0].score <= max {
      UpToScoreSplits(s[1..], max);
    } else if s != [] {
      assert forall i :: 0 < i < |s| ==> Less(s[0], s[i]);
    }
  }

  lemma {:induction false} InRangeNone(s: seq<Entry>, min: real, max: real)
    requires forall i :: 0 <= i < |s| ==> !(min <= s[i].score <= max)
    ensures InRange(s, min, max) == []
  {
    if s != [] { InRangeNone(s[1..], min, max); }
  }

  lemma {:induction false} InRangeAll(s: seq<Entry>, min: real, max: real)
    requires forall i :: 0 <= i < |s| ==> min <= s[i].score <= max
    ensures InRange(s, min, max) == s
  {
    if s != [] { InRangeAll(s[1..], min, max); }
  }

  lemma {:induction false} InRangeConcat(s: seq<Entry>, t: seq<Entry>, min: real, max: real)
    ensures InRange(s + t, min, max) == InRange(s, min, max) + InRange(t, min, max)
  {
    if s == [] {
      assert s + t == t;
    } else {
      assert (s + t)[1..] == s[1..] + t;
      InRangeConcat(s[1..], t, min, max);
    }
  }

  lemma InRangeMiddle(s: seq<Entry>, min: real, max: real, a: nat, b: nat)
    requires a <= b <= |s|
    requires forall i :: 0 <= i < a ==> s[i].score < min
    requires forall i :: a <= i < b ==> min <= s[i].score <= max
    requires forall i :: b <= i < |s| ==> s[i].score > max
    ensures InRange(s, min, max) == s[a..b]
  {
    hide InRange;
    var p, m, q := s[..a], s[a..b], s[b..];
    InRangeNone(p, min, max);
    InRangeAll(m, min, max);
    InRangeNone(q, min, max);
    InRangeConcat(p, m + q, min, max);
    InRangeConcat(m, q, min, max);
    assert s == p + (m + q);
  }

  /** In a sorted sequence the entries in a score range are contiguous: they start at the
    * first score that is not below `min` and end before the first score above `max`. */
  lemma InRangeContiguous(s: seq<Entry>, min: real, max: real, b: nat)
    requires Sorted(s) && BelowScore(s, min) <= b <= |s|
    requires forall i :: BelowScore(s, min) <= i < b ==> s[i].score <= max
    requires b < |s| ==> s[b].score > max
    ensures InRange(s, min, max) == s[BelowScore(s, min)..b]
  {
    BelowScoreSplits(s, min);
    assert forall i :: b < i < |s| ==> Less(s[b], s[i]);
    InRangeMiddle(s, min, max, BelowScore(s, min), b);
  }

  lemma {:induction false} ScoreEnd(s: seq<Entry>, max: real, a: nat) returns (b: nat)
    requires a <= |s|
    ensures a <= b <= |s| && (b < |s| ==> s[b].score > max)
    ensures forall i :: a <= i < b ==> s[i].score <= max
  {
    b := a;
    while b < |s| && s[b].score <= max
      invariant a <= b <= |s|
      invariant forall i :: a <= i < b ==> s[i].score <= max
    {
      b := b + 1;
    }
  }

  lemma PageOfMiddle(s: seq<Entry>, max: real, a: nat, b: nat, offset: int, count: int, k0: nat, k: nat)
    requires a <= b <= |s| && k0 == Bound(a + Bound(offset, 0, |s|), 0, |s|) && k0 <= k <= |s|
    requires forall i :: a <= i < |s| ==> (s[i].score <= max <==> i < b)
    requires forall i :: k0 <= i < k ==> s[i].score <= max
    requires k < |s| && s[k].score <= max ==> count != -1 && k - k0 >= count
    requires count != -1 ==> k - k0 <= Bound(count, 0, |s|)
    ensures s[k0..k] == Page(s[a..b], offset, count)
  {
    assert k0 < k ==> s[k - 1].score <= max && s[k0].score <= max;
    if k0 <= b {
      assert k <= b && (count == -1 ==> k == b);
      PageInside(s, a, b, offset, count, k0, k);
    } else {
      assert s[a..b][Bound(offset, 0, b - a)..] == [];
    }
  }

  lemma PageInside(s: seq<Entry>, a: nat, b: nat, offset: int, count: int, k0: nat, k: nat)
    requires a <= b <= |s| && k0 == a + Bound(offset, 0, b - a) && k0 <= k <= b
    requires if count == -1 then k == b else k - k0 == Bound(count, 0, b - k0)
    ensures s[k0..k] == Page(s[a..b], offset, count)
  {
    var t := s[a..b][Bound(offset, 0, b - a)..];
    assert t == s[k0..b];
    if count != -1 { assert t[..k - k0] == s[k0..k]; }
  }

  /** What getRange's three loops collect is a page of the filtered sequence. */
  lemma CollectedPage(s: seq<Entry>, min: real, max: real, offset: int, count: int, k0: nat, k: nat)
    requires Sorted(s)
    requires k0 == Bound(BelowScore(s, min) + Bound(offset, 0, |s|), 0, |s|) && k0 <= k <= |s|
    requires forall i :: k0 <= i < k ==> s[i].score <= max
    requires k < |s| && s[k].score <= max ==> count != -1 && k - k0 >= count
    requires count != -1 ==> k - k0 <= Bound(count, 0, |s|)
    ensures s[k0..k] == Page(InRange(s, min, max), offset, count)
  {
    hide InRange, Page, BelowScore;
    var a := BelowScore(s, min);
    var b := ScoreEnd(s, max, a);
    InRangeContiguous(s, min, max, b);
    assert forall i :: b < i < |s| ==> Less(s[b], s[i]);
    PageOfMiddle(s, max, a, b, offset, count, k0, k);
  }

  /** A score range holds exactly the entries with a score in it. */
  lemma {:induction false} RangeMeans(s: seq<Entry>, min: real, max: real, e: Entry)
    ensures e in InRange(s, min, max) <==> e in s && min <= e.score <= max
  {
    if s != [] {
      RangeMeans(s[1..], min, max, e);
      assert e in s <==> e == s[0] || e in s[1..];
    }
  }

  lemma {:induction false} RangeSorted(s: seq<Entry>, min: real, max: real)
    requires Sorted(s)
    ensures Sorted(InRange(s, min, max))
  {
    if s != [] {
      var rest := InRange(s[1..], min, max);
      RangeSorted(s[1..], min, max);
      forall i | 0 <= i < |rest| ensures Less(s[0], rest[i]) {
        RangeMeans(s[1..], min, max, rest[i]);
        var j :| 0 <= j < |s[1..]| && s[1..][j] == rest[i];
        assert s[j + 1] == rest[i];
      }
    }
  }

  /** Element `i` of a page is element offset + i, as far as both count and sequence reach. */
  lemma PageMeans(s: seq<Entry>, offset: int, count: int, i: nat)
    ensures var o := if offset < 0 then 0 else offset;
            && (i < |Page(s, offset, count)| <==> o + i < |s| && (count == -1 || i < count))
            && (i < |Page(s, offset, count)| ==> Page(s, offset, count)[i] == s[o + i])
  {
  }

  /** Element `i` of a rank range is element start + i, up to stop. */
  lemma SliceMeans(s: seq<Entry>, start: int, stop: int, i: nat)
    ensures i < |RankSlice(s, start, stop)| <==> 0 <= start && start + i < |s| && start + i <= stop
    ensures i < |RankSlice(s, start, stop)| ==> RankSlice(s, start, stop)[i] == s[start + i]
  {
  }

  lemma ReversedLength(s: seq<Entry>)
    ensures |Reverse(s)| == |s| && (s == [] ==> Reverse(s) == [])
  {
  }

  lemma ReversedSlice(s: seq<Entry>, start: nat, last: nat)
    requires start <= last < |s|
    ensures |Reverse(s)| == |s|
    ensures Reverse(s)[start..last + 1] == Reverse(s[|s| - 1 - last..|s| - start])
  {
    hide Reverse;
    ReverseAt(s);
    ReverseAt(s[|s| - 1 - last..|s| - start]);
  }

  lemma RankSliceNone(s: seq<Entry>, start: int, stop: int)
    requires start < 0 || start >= |s| || stop < start
    ensures RankSlice(s, start, stop) == []
  {
  }

  lemma RankSliceSome(s: seq<Entry>, start: int, stop: int, last: int)
    requires 0 <= start <= last < |s| && last == if stop >= |s| then |s| - 1 else stop
    ensures RankSlice(s, start, stop) == s[start..last + 1]
  {
  }

  /** A rank range of the mirror image as a slice of the forward sequence. */
  lemma RankSliceMirrored(s: seq<Entry>, start: int, stop: int, last: int)
    requires 0 <= start <= last < |s| && last == if stop >= |s| then |s| - 1 else stop
    ensures RankSlice(Reverse(s), start, stop) == Reverse(s[|s| - 1 - last..|s| - start])
  {
    hide Reverse, RankSlice;
    ReversedSlice(s, start, last);
    RankSliceSome(Reverse(s), start, stop, last);
  }

  lemma ReversedExtend(s: seq<Entry>, e: Entry)
    ensures Reverse(s + [e]) == [e] + Reverse(s)
  {
    ReverseConcat(s, [e]);
  }

  lemma {:induction false} BelowPrefix(s: seq<Entry>, e: Entry)
    requires forall i :: 0 <= i < |s| ==> Less(s[i], e)
    ensures Below(s, e) == |s|
  {
    if s != [] { BelowPrefix(s[1..], e); }
  }

  /** Inserting the entries of a sorted sequence in order rebuilds it. */
  lemma PutNext(s: seq<Entry>, k: nat)
    requires Sorted(s) && k < |s|
    ensures Put(s[..k], s[k]) == s[..k + 1]
  {
    BelowPrefix(s[..k], s[k]);
  }
}
