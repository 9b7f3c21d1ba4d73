/** Score ranges from the top down. A skip list has no backward pointers: the program looks
  * for a node's predecessor from the top level down and takes the first it meets, which is
  * the predecessor on the node's highest level and may lie before shorter neighbours. */
module Backwards {
  import opened Order
  import opened Sequences
  import opened Towers

  /** The last position up to `k` whose tower is at least `h` high, or the header's. */
  ghost function Last(hs: seq<nat>, k: nat, h: nat): (q: nat)
    requires k < |hs|
    ensures q <= k && (q == 0 || hs[q] >= h) && forall m :: q < m <= k ==> hs[m] < h
  {
    if k == 0 || hs[k] >= h then k else Last(hs, k - 1, h)
  }

  /** Where the search for the predecessor of `p` ends: on the header if `p` is on no level. */
  ghost function Prev(hs: seq<nat>, p: nat): (q: nat)
    requires 0 < p < |hs|
    ensures q < p
  {
    if hs[p] == 0 then 0 else Last(hs, p - 1, hs[p])
  }

  lemma PrevIs(hs: seq<nat>, p: nat, r: nat)
    requires 0 < p < |hs| && r < p && 0 < hs[p] <= hs[r] && Next(hs, r, hs[p] - 1) == p
    ensures r == Prev(hs, p)
  {
  }

  /** The entries met from position `p` back to the first score below `min`. */
  ghost function Walk(es: seq<Entry>, hs: seq<nat>, p: nat, min: real): seq<Entry>
    requires p <= |es| < |hs|
    decreases p
  {
    if p == 0 || es[p - 1].score < min then [] else [es[p - 1]] + Walk(es, hs, Prev(hs, p), min)
  }

  /** Scores only fall on the way back. */
  lemma WalkStep(es: seq<Entry>, hs: seq<nat>, p: nat, min: real)
    requires Sorted(es) && 0 < p <= |es| < |hs|
    ensures Walk(es, hs, Prev(hs, p), min) ==
            if Walk(es, hs, p, min) == [] then [] else Walk(es, hs, p, min)[1..]
  {
    var q := Prev(hs, p);
    if q > 0 { assert Less(es[q - 1], es[p - 1]); }
  }

  lemma {:induction false} WalkWithin(es: seq<Entry>, hs: seq<nat>, p: nat, min: real, e: Entry)
    requires p <= |es| < |hs|
    ensures e in Walk(es, hs, p, min) ==> e in es[..p] && e.score >= min
    decreases p
  {
    if p > 0 && es[p - 1].score >= min {
      WalkWithin(es, hs, Prev(hs, p), min, e);
    }
  }

  /** The walk meets an entry exactly when no tower between it and the start is taller. */
  lemma {:induction false} WalkMeets(es: seq<Entry>, hs: seq<nat>, b: nat, min: real, p: nat)
    requires Sorted(es) && 0 < p <= b <= |es| < |hs| && forall q :: 0 < q < |hs| ==> hs[q] > 0
    ensures es[p - 1] in Walk(es, hs, b, min) <==>
            es[p - 1].score >= min && forall q :: p < q <= b ==> hs[q] <= hs[p]
    decreases b
  {
    hide Sorted;
    if p < b { SortedPair(es, p - 1, b - 1); }
    if es[b - 1].score >= min && p < b {
      var r := Prev(hs, b);
      if p <= r {
        WalkMeets(es, hs, r, min, p);
      } else {
        WalkWithin(es, hs, r, min, es[p - 1]);
        if es[p - 1] in es[..r] {
          var i :| 0 <= i < r && es[i] == es[p - 1];
          SortedPair(es, i, p - 1);
        }
        assert hs[p] < hs[b];
      }
    }
  }

  lemma SortedPair(es: seq<Entry>, i: nat, j: nat)
    requires Sorted(es) && i < j < |es|
    ensures Less(es[i], es[j]) && es[i] != es[j] && es[i].score <= es[j].score
  {
    LessTotal(es[i], es[j]);
  }

  /** The walk goes strictly down in the order of the sorted set. */
  lemma {:induction false} WalkDescends(es: seq<Entry>, hs: seq<nat>, p: nat, min: real)
    requires Sorted(es) && p <= |es| < |hs|
    ensures forall i, j :: 0 <= i < j < |Walk(es, hs, p, min)| ==>
              Less(Walk(es, hs, p, min)[j], Walk(es, hs, p, min)[i])
    decreases p
  {
    if p > 0 && es[p - 1].score >= min {
      var w := Walk(es, hs, Prev(hs, p), min);
      WalkDescends(es, hs, Prev(hs, p), min);
      forall j | 0 <= j < |w| ensures Less(w[j], es[p - 1]) {
        WalkWithin(es, hs, Prev(hs, p), min, w[j]);
      }
    }
  }

  lemma {:induction false} WalkLength(es: seq<Entry>, hs: seq<nat>, p: nat, min: real, a: nat)
    requires p <= |es| < |hs| && forall i :: 0 <= i < a && i < |es| ==> es[i].score < min
    ensures |Walk(es, hs, p, min)| <= if p <= a then 0 else p - a
    decreases p
  {
    if p > 0 && es[p - 1].score >= min {
      WalkLength(es, hs, Prev(hs, p), min, a);
    }
  }

  lemma WalkBound(es: seq<Entry>, hs: seq<nat>, a: nat, b: nat, min: real)
    requires a <= b <= |es| < |hs| && forall i :: 0 <= i < b ==> (es[i].score < min <==> i < a)
    ensures |Walk(es, hs, b, min)| <= b - a
  {
    WalkLength(es, hs, b, min, a);
  }

  /** No tower between positions `a` and `b` is taller than its left neighbour. */
  ghost predicate NeverRises(hs: seq<nat>, a: nat, b: nat)
  {
    forall p :: a + 1 < p <= b && p < |hs| ==> hs[p - 1] >= hs[p]
  }

  lemma {:induction false} WalkAt(es: seq<Entry>, hs: seq<nat>, p: nat, min: real, k: nat)
    requires p <= |es| < |hs| && k < |Walk(es, hs, p, min)|
    ensures k < p && Walk(es, hs, p, min)[k] in es[..p - k]
    decreases p
  {
    if k > 0 { WalkAt(es, hs, Prev(hs, p), min, k - 1); }
  }

  /** After `k` steps the walk is where the mirror image is. */
  ghost predicate Abreast(w: seq<Entry>, es: seq<Entry>, b: nat, k: nat)
    requires b <= |es|
  {
    k < |w| && k < b && w[k] == es[b - 1 - k]
  }

  /** A walk that starts further down never catches up. */
  lemma WalkLags(es: seq<Entry>, hs: seq<nat>, b: nat, min: real, r: nat, i: nat)
    requires Sorted(es) && r + 1 < b <= |es| < |hs|
    ensures 0 < i ==> !Abreast([es[b - 1]] + Walk(es, hs, r, min), es, b, i)
  {
    hide Sorted, Walk;
    if 0 < i <= |Walk(es, hs, r, min)| && i < b {
      WalkAt(es, hs, r, min, i - 1);
      var k :| 0 <= k < r - (i - 1) && es[k] == Walk(es, hs, r, min)[i - 1];
      SortedPair(es, k, b - 1 - i);
    }
  }

  lemma RisesLater(hs: seq<nat>, a: nat, c: nat, b: nat)
    requires a <= c && NeverRises(hs, a, b)
    ensures NeverRises(hs, c, b)
  {
  }

  lemma RisesAt(hs: seq<nat>, b: nat, i: nat)
    requires 0 < i < b < |hs|
    ensures NeverRises(hs, b - 1 - i, b) <==> hs[b - 1] >= hs[b] && NeverRises(hs, b - 1 - i, b - 1)
  {
  }

  lemma PrevNext(hs: seq<nat>, b: nat)
    requires 1 < b < |hs| && forall q :: 0 < q < |hs| ==> hs[q] > 0
    ensures Prev(hs, b) == b - 1 <==> hs[b - 1] >= hs[b]
  {
  }

  lemma WalkFrom(es: seq<Entry>, hs: seq<nat>, b: nat, min: real)
    requires 0 < b <= |es| < |hs| && es[b - 1].score >= min
    ensures Walk(es, hs, b, min) == [es[b - 1]] + Walk(es, hs, Prev(hs, b), min)
  {
  }

  lemma AbreastFirst(es: seq<Entry>, hs: seq<nat>, b: nat, w: seq<Entry>)
    requires 0 < b <= |es|
    ensures Abreast([es[b - 1]] + w, es, b, 0) && NeverRises(hs, b - 1, b)
  {
  }

  lemma AbreastNext(es: seq<Entry>, b: nat, w: seq<Entry>, i: nat)
    requires 0 < i < b <= |es|
    ensures Abreast([es[b - 1]] + w, es, b, i) <==> Abreast(w, es, b - 1, i - 1)
  {
  }

  /** The walk is abreast of the mirror image after `i` steps exactly if no tower has risen. */
  lemma {:induction false} WalkKeepsUp(es: seq<Entry>, hs: seq<nat>, a: nat, b: nat, min: real, i: nat)
    requires Sorted(es) && a + i < b <= |es| < |hs| && forall q :: 0 < q < |hs| ==> hs[q] > 0
    requires forall k :: a <= k < b ==> es[k].score >= min
    ensures Abreast(Walk(es, hs, b, min), es, b, i) <==> NeverRises(hs, b - 1 - i, b)
    decreases b
  {
    hide Sorted, NeverRises, Prev, Walk, Abreast;
    WalkFrom(es, hs, b, min);
    if i == 0 {
      AbreastFirst(es, hs, b, Walk(es, hs, Prev(hs, b), min));
    } else {
      PrevNext(hs, b);
      RisesAt(hs, b, i);
      if hs[b - 1] >= hs[b] {
        WalkKeepsUp(es, hs, a, b - 1, min, i - 1);
        AbreastNext(es, b, Walk(es, hs, b - 1, min), i);
      } else {
        WalkLags(es, hs, b, min, Prev(hs, b), i);
      }
    }
  }

  /** Where the page of a sequence of length `n` ends. */
  function PageEnd(n: nat, offset: int, count: int): (e: nat)
    ensures Bound(offset, 0, n) <= e <= n
  {
    var o := Bound(offset, 0, n);
    if count == -1 then n else o + Bound(count, 0, n - o)
  }

  lemma PageForm(s: seq<Entry>, offset: int, count: int)
    ensures Page(s, offset, count) == s[Bound(offset, 0, |s|)..PageEnd(|s|, offset, count)]
  {
  }

  /** A page of a shorter sequence: it reaches the same end only if it starts at the same place. */
  lemma PageShorter(n: nat, m: nat, offset: int, count: int)
    requires n <= m
    ensures PageEnd(n, offset, count) - Bound(offset, 0, n) == PageEnd(m, offset, count) - Bound(offset, 0, m) > 0 ==>
              Bound(offset, 0, n) == Bound(offset, 0, m) && PageEnd(n, offset, count) == PageEnd(m, offset, count)
    ensures PageEnd(m, offset, count) <= n && Bound(offset, 0, m) < PageEnd(m, offset, count) ==>
              Bound(offset, 0, n) == Bound(offset, 0, m) && PageEnd(n, offset, count) == PageEnd(m, offset, count)
    ensures PageEnd(m, offset, count) == Bound(offset, 0, m) ==> PageEnd(n, offset, count) == Bound(offset, 0, n)
  {
  }

  /** Pages of the walk `w` and of the mirror image `r` agree exactly if the page is empty or
    * the two agree up to its end. */
  lemma PagesAgree(w: seq<Entry>, r: seq<Entry>, offset: int, count: int)
    requires |w| <= |r|
    requires forall i, k :: 0 <= i <= k < |w| && w[k] == r[k] ==> w[i] == r[i]
    ensures var o, e := Bound(offset, 0, |r|), PageEnd(|r|, offset, count);
            Page(w, offset, count) == Page(r, offset, count) <==>
            o == e || (e <= |w| && w[e - 1] == r[e - 1])
  {
    hide Page, Bound, PageEnd;
    var o, e := Bound(offset, 0, |r|), PageEnd(|r|, offset, count);
    var o', e' := Bound(offset, 0, |w|), PageEnd(|w|, offset, count);
    PageForm(w, offset, count);
    PageForm(r, offset, count);
    PageShorter(|w|, |r|, offset, count);
    PageBounds(|w|, offset, count);
    PageBounds(|r|, offset, count);
    if Page(w, offset, count) == Page(r, offset, count) && o < e {
      assert w[o..e][e - o - 1] == w[e - 1] && r[o..e][e - o - 1] == r[e - 1];
    }
    if o < e <= |w| && w[e - 1] == r[e - 1] {
      assert w[o..e] == r[o..e];
    }
  }

  lemma PageBounds(n: nat, offset: int, count: int)
    ensures 0 <= Bound(offset, 0, n) <= PageEnd(n, offset, count) <= n
  {
  }

  lemma WalkBehind(es: seq<Entry>, hs: seq<nat>, a: nat, b: nat, min: real, k: nat)
    requires Sorted(es) && a + k < b <= |es| < |hs| && forall q :: 0 < q < |hs| ==> hs[q] > 0
    requires forall i :: 0 <= i < b ==> (es[i].score < min <==> i < a)
    ensures var w, r := Walk(es, hs, b, min), Reverse(es[a..b]);
            |r| == b - a && (k < |w| && w[k] == r[k] <==> NeverRises(hs, b - 1 - k, b))
  {
    hide Sorted, Walk, Reverse, NeverRises;
    ReverseAt(es[a..b]);
    WalkKeepsUp(es, hs, a, b, min, k);
    assert es[a..b][b - a - 1 - k] == es[b - 1 - k];
  }

  lemma WalkAgrees(es: seq<Entry>, hs: seq<nat>, a: nat, b: nat, min: real, offset: int, count: int)
    requires Sorted(es) && a <= b <= |es| < |hs| && forall q :: 0 < q < |hs| ==> hs[q] > 0
    requires forall i :: 0 <= i < b ==> (es[i].score < min <==> i < a)
    ensures var e := PageEnd(b - a, offset, count);
            Page(Walk(es, hs, b, min), offset, count) == Page(Reverse(es[a..b]), offset, count) <==>
            e == Bound(offset, 0, b - a) || NeverRises(hs, b - e, b)
  {
    hide Sorted, Walk, Reverse, Page, PageEnd, Bound, NeverRises;
    var w, r, e := Walk(es, hs, b, min), Reverse(es[a..b]), PageEnd(b - a, offset, count);
    WalkBound(es, hs, a, b, min);
    ReversedLength(es[a..b]);
    forall i, k | 0 <= i <= k < |w| && w[k] == r[k] ensures w[i] == r[i] {
      WalkBehind(es, hs, a, b, min, k);
      RisesLater(hs, b - 1 - k, b - 1 - i, b);
      WalkBehind(es, hs, a, b, min, i);
    }
    PagesAgree(w, r, offset, count);
    PageBounds(b - a, offset, count);
    if e > 0 {
      WalkBehind(es, hs, a, b, min, e - 1);
      assert b - 1 - (e - 1) == b - e;
    }
  }

  /** A page of a reverse score range is the page of the mirrored score range if and only if it
    * is empty or the towers never rise from the top of the range to the end of the page. */
  lemma PageExactly(es: seq<Entry>, hs: seq<nat>, min: real, max: real, offset: int, count: int)
    requires Sorted(es) && |hs| == |es| + 1 && forall q :: 0 < q < |hs| ==> hs[q] > 0
    ensures var b, n := UpToScore(es, max), |InRange(es, min, max)|;
            var e := PageEnd(n, offset, count);
            && n <= b
            && (Page(Walk(es, hs, b, min), offset, count) == Page(Reverse(InRange(es, min, max)), offset, count) <==>
                e == Bound(offset, 0, n) || NeverRises(hs, b - e, b))
  {
    hide Reverse, Walk, InRange, BelowScore, UpToScore, Sorted, Page, PageEnd, Bound, NeverRises;
    var a, b := BelowScore(es, min), UpToScore(es, max);
    BelowScoreSplits(es, min);
    UpToScoreSplits(es, max);
    if a <= b {
      InRangeMiddle(es, min, max, a, b);
      WalkAgrees(es, hs, a, b, min, offset, count);
    } else {
      InRangeNone(es, min, max);
      ReversedLength([]);
      WalkLength(es, hs, b, min, a);
      PagesAgree(Walk(es, hs, b, min), [], offset, count);
      PageBounds(0, offset, count);
    }
  }

  /** A reverse score range is the mirror image of the score range if and only if the towers
    * of the range never rise. */
  lemma MirrorExactly(es: seq<Entry>, hs: seq<nat>, min: real, max: real)
    requires Sorted(es) && |hs| == |es| + 1 && forall q :: 0 < q < |hs| ==> hs[q] > 0
    ensures var b := UpToScore(es, max);
            && |InRange(es, min, max)| <= b
            && (Walk(es, hs, b, min) == Reverse(InRange(es, min, max)) <==>
                NeverRises(hs, b - |InRange(es, min, max)|, b))
  {
    hide Reverse, Walk, InRange, UpToScore, Sorted;
    PageExactly(es, hs, min, max, 0, -1);
  }

  /** A reverse score range can miss members: two of one score, the second in a taller tower. */
  lemma MirrorBroken()
    ensures var es, hs := [Entry("a", 0.0), Entry("b", 0.0)], [32, 1, 2];
            && Sorted(es)
            && Walk(es, hs, UpToScore(es, 0.0), 0.0) == [es[1]]
            && InRange(es, 0.0, 0.0) == es
  {
    var es, hs := [Entry("a", 0.0), Entry("b", 0.0)], [32, 1, 2];
    assert es[1..] == [es[1]] && es[1..][1..] == [];
    assert Last(hs, 1, 2) == Last(hs, 0, 2) == 0;
  }

  // ---------- the program's loops ----------

  /** Skipping `n` nodes back drops `n` entries of the walk. */
  lemma StepBack(es: seq<Entry>, hs: seq<nat>, p: nat, min: real, w: seq<Entry>, n: nat)
    requires Sorted(es) && 0 < p <= |es| < |hs| && Walk(es, hs, p, min) == w[Bound(n, 0, |w|)..]
    ensures Walk(es, hs, Prev(hs, p), min) == w[Bound(n + 1, 0, |w|)..]
  {
    hide Walk, Sorted;
    WalkStep(es, hs, p, min);
  }

  lemma WalkEnd(es: seq<Entry>, hs: seq<nat>, p: nat, min: real)
    requires p == 0 <= |es| < |hs|
    ensures Walk(es, hs, p, min) == []
  {
  }

  lemma WalkNone(es: seq<Entry>, hs: seq<nat>, max: real, min: real, offset: int, count: int)
    requires es == [] && hs != []
    ensures Page(Walk(es, hs, UpToScore(es, max), min), offset, count) == []
  {
  }

  /** What the collecting loop stops with is the page. */
  lemma Collected(w: seq<Entry>, offset: int, count: int, result: seq<Entry>, rest: seq<Entry>)
    requires w[Bound(offset, 0, |w|)..] == result + rest
    requires rest != [] ==> count != -1 && |result| >= count
    requires count != -1 && result != [] ==> |result| <= count
    ensures result == Page(w, offset, count)
  {
  }
}
