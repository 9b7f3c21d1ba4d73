/** What the list commands mean on plain sequences. */
module Sequences {

  /** Negative indices count from the end. */
  function Normal(index: int, n: nat): int
  {
    if index < 0 then n + index else index
  }

  function Bound(x: int, low: int, high: int): int
    requires low <= high
  {
    if x < low then low else if x > high then high else x
  }

  /** The elements at positions start..stop, as LRANGE counts them. */
  function Window<T>(s: seq<T>, start: int, stop: int): seq<T>
  {
    var low := Bound(Normal(start, |s|), 0, |s|);
    s[low..Bound(Normal(stop, |s|) + 1, low, |s|)]
  }

  /** Position `i` of `n` lies between start and stop, which count from the end if negative. */
  ghost predicate Between(n: nat, start: int, stop: int, i: int)
  {
    (if start < 0 then n + start else start) <= i <= (if stop < 0 then n + stop else stop)
  }

  /** A window is the slice of exactly the positions from start to stop. */
  lemma WindowExactly<T>(s: seq<T>, start: int, stop: int) returns (a: nat, b: nat)
    ensures a <= b <= |s| && Window(s, start, stop) == s[a..b]
    ensures forall i :: 0 <= i < |s| ==> (a <= i < b <==> Between(|s|, start, stop, i))
  {
    a := Bound(Normal(start, |s|), 0, |s|);
    b := Bound(Normal(stop, |s|) + 1, a, |s|);
  }

  function Occurrences<T(==)>(s: seq<T>, v: T): nat
  {
    if s == [] then 0 else (if s[0] == v then 1 else 0) + Occurrences(s[1..], v)
  }

  function Reverse<T>(s: seq<T>): (r: seq<T>)
    ensures |r| == |s|
  {
    if s == [] then [] else Reverse(s[1..]) + [s[0]]
  }

  /** `s` without the first `n` occurrences of `v`. */
  function DropFirst<T(==)>(s: seq<T>, v: T, n: nat): seq<T>
  {
    if s == [] || n == 0 then s
    else if s[0] == v then DropFirst(s[1..], v, n - 1)
    else [s[0]] + DropFirst(s[1..], v, n)
  }

  /** `s` without the last `n` occurrences of `v`. */
  function DropLast<T(==)>(s: seq<T>, v: T, n: nat): seq<T>
  {
    if s == [] || n == 0 then s
    else if s[|s| - 1] == v then DropLast(s[..|s| - 1], v, n - 1)
    else DropLast(s[..|s| - 1], v, n) + [s[|s| - 1]]
  }

  /** The elements of `s` other than `v`, in order. */
  function Others<T(==)>(s: seq<T>, v: T): seq<T>
  {
    if s == [] then [] else (if s[0] == v then [] else [s[0]]) + Others(s[1..], v)
  }

  ghost predicate Distinct<T>(s: seq<T>)
  {
    forall i, j :: 0 <= i < j < |s| ==> s[i] != s[j]
  }

  function Min(a: int, b: int): int { if a <= b then a else b }

  /** DropFirst removes exactly min(n, occurrences) copies of `v`, all before the ones it
    * keeps, and nothing else. */
  lemma {:induction false} DropFirstExact<T>(s: seq<T>, v: T, n: nat) returns (k: nat)
    ensures k <= |s| && DropFirst(s, v, n) == Others(s[..k], v) + s[k..]
    ensures Occurrences(s[..k], v) == Min(n, Occurrences(s, v))
  {
    if s == [] || n == 0 {
      k := 0;
    } else {
      var k' := DropFirstExact(s[1..], v, if s[0] == v then n - 1 else n);
      k := k' + 1;
      assert s[..k][1..] == s[1..][..k'];
      assert s[k..] == s[1..][k'..];
    }
  }

  lemma {:induction false} DropFirstKeeps<T>(s: seq<T>, v: T, n: nat)
    ensures |DropFirst(s, v, n)| == |s| - Min(n, Occurrences(s, v))
    ensures Others(DropFirst(s, v, n), v) == Others(s, v)
  {
    if s != [] && n > 0 {
      DropFirstKeeps(s[1..], v, if s[0] == v then n - 1 else n);
    }
  }

  lemma {:induction false} ReverseAt<T>(s: seq<T>)
    ensures |Reverse(s)| == |s| && forall i :: 0 <= i < |s| ==> Reverse(s)[i] == s[|s| - 1 - i]
  {
    if s != [] { ReverseAt(s[1..]); }
  }

  lemma {:induction false} ReverseConcat<T>(s: seq<T>, t: seq<T>)
    ensures Reverse(s + t) == Reverse(t) + Reverse(s)
  {
    if s == [] {
      assert s + t == t;
    } else {
      assert (s + t)[1..] == s[1..] + t;
      ReverseConcat(s[1..], t);
    }
  }

  /** Removing from the back is removing from the front of the mirror image. */
  lemma {:induction false} DropLastMirrors<T>(s: seq<T>, v: T, n: nat)
    ensures Reverse(DropLast(s, v, n)) == DropFirst(Reverse(s), v, n)
  {
    if s != [] && n > 0 {
      var init, x := s[..|s| - 1], s[|s| - 1];
      assert s == init + [x];
      ReverseConcat(init, [x]);
      assert Reverse(s) == [x] + Reverse(init);
      DropLastMirrors(init, v, if x == v then n - 1 else n);
      ReverseConcat(DropLast(init, v, n), [x]);
    }
  }

  lemma {:induction false} OccurrencesConcat<T>(s: seq<T>, t: seq<T>, v: T)
    ensures Occurrences(s + t, v) == Occurrences(s, v) + Occurrences(t, v)
  {
    if s == [] {
      assert s + t == t;
    } else {
      assert (s + t)[1..] == s[1..] + t;
      OccurrencesConcat(s[1..], t, v);
    }
  }

  lemma {:induction false} OccurrencesReverse<T>(s: seq<T>, v: T)
    ensures Occurrences(Reverse(s), v) == Occurrences(s, v) <= |s|
  {
    if s != [] {
      OccurrencesReverse(s[1..], v);
      OccurrencesConcat(Reverse(s[1..]), [s[0]], v);
    }
  }

  lemma DropLastKeeps<T>(s: seq<T>, v: T, n: nat)
    ensures |DropLast(s, v, n)| == |s| - Min(n, Occurrences(s, v))
    ensures Others(DropLast(s, v, n), v) == Others(s, v)
  {
    hide DropLast, DropFirst, Others, Occurrences;
    var r := DropLast(s, v, n);
    DropLastMirrors(s, v, n);
    OccurrencesReverse(s, v);
    DropFirstKeeps(Reverse(s), v, n);
    OthersReverse(s, v);
    OthersReverse(r, v);
    ReverseTwice(Others(s, v));
    ReverseTwice(Others(r, v));
  }

  lemma DropAll<T>(s: seq<T>, v: T)
    ensures DropFirst(s, v, |s|) == Others(s, v)
  {
    hide DropFirst, Others, Occurrences;
    var k := DropFirstExact(s, v, |s|);
    assert s == s[..k] + s[k..];
    OccurrencesReverse(s, v);
    OccurrencesConcat(s[..k], s[k..], v);
    NoOccurrence(s[k..], v);
    OthersConcat(s[..k], s[k..], v);
  }

  /** LREM: count > 0 from the head, count < 0 from the tail, 0 everywhere. */
  function Rem<T(==)>(s: seq<T>, count: int, v: T): seq<T>
  {
    if count == 0 then DropFirst(s, v, |s|)
    else if count > 0 then DropFirst(s, v, count)
    else DropLast(s, v, -count)
  }

  lemma {:induction false} OthersReverse<T>(s: seq<T>, v: T)
    ensures Others(Reverse(s), v) == Reverse(Others(s, v))
  {
    if s != [] {
      OthersReverse(s[1..], v);
      OthersConcat(Reverse(s[1..]), [s[0]], v);
      ReverseConcat(if s[0] == v then [] else [s[0]], Others(s[1..], v));
    }
  }

  lemma {:induction false} OthersConcat<T>(s: seq<T>, t: seq<T>, v: T)
    ensures Others(s + t, v) == Others(s, v) + Others(t, v)
  {
    if s == [] {
      assert s + t == t;
    } else {
      assert (s + t)[1..] == s[1..] + t;
      OthersConcat(s[1..], t, v);
    }
  }

  lemma {:induction false} ReverseTwice<T>(s: seq<T>)
    ensures Reverse(Reverse(s)) == s
  {
    if s != [] {
      ReverseTwice(s[1..]);
      ReverseConcat(Reverse(s[1..]), [s[0]]);
    }
  }

  /** `r` is `s` without any copy of `v` before position `k`, of which there are `n`. */
  ghost predicate ClearedBefore<T>(s: seq<T>, r: seq<T>, v: T, n: int, k: nat)
  {
    k <= |s| && r == Others(s[..k], v) + s[k..] && Occurrences(s[..k], v) == n
  }

  /** `r` is `s` without any copy of `v` from position `k` on, of which there are `n`. */
  ghost predicate ClearedFrom<T>(s: seq<T>, r: seq<T>, v: T, n: int, k: nat)
  {
    k <= |s| && r == s[..k] + Others(s[k..], v) && Occurrences(s[k..], v) == n
  }

  ghost predicate ClearedAtHead<T>(s: seq<T>, r: seq<T>, v: T, n: int)
  {
    exists k: nat :: ClearedBefore(s, r, v, n, k)
  }

  ghost predicate ClearedAtTail<T>(s: seq<T>, r: seq<T>, v: T, n: int)
  {
    exists k: nat :: ClearedFrom(s, r, v, n, k)
  }

  lemma {:induction false} DropLastExact<T>(s: seq<T>, v: T, n: nat) returns (k: nat)
    ensures ClearedFrom(s, DropLast(s, v, n), v, Min(n, Occurrences(s, v)), k)
  {
    if s == [] || n == 0 {
      k := |s|;
      assert s[..k] + [] == s;
    } else {
      var init, x := s[..|s| - 1], s[|s| - 1];
      var m := if x == v then n - 1 else n;
      k := DropLastExact(init, v, m);
      assert s == init + [x];
      ClearedMore(init, DropLast(init, v, m), v, Min(m, Occurrences(init, v)), k, x);
      OccurrencesConcat(init, [x], v);
    }
  }

  lemma ClearedMore<T>(s: seq<T>, r: seq<T>, v: T, n: int, k: nat, x: T)
    requires ClearedFrom(s, r, v, n, k)
    ensures x == v ==> ClearedFrom(s + [x], r, v, n + 1, k)
    ensures x != v ==> ClearedFrom(s + [x], r + [x], v, n, k)
  {
    hide Others, Occurrences;
    OccurrencesConcat(s[k..], [x], v);
    OthersConcat(s[k..], [x], v);
    OnlyOthers(x, v);
    assert (s + [x])[..k] == s[..k] && (s + [x])[k..] == s[k..] + [x];
    assert Others(s[k..], v) + [] == Others(s[k..], v);
  }

  lemma OnlyOthers<T>(x: T, v: T)
    ensures Others([x], v) == (if x == v then [] else [x]) && Occurrences([x], v) == if x == v then 1 else 0
  {
  }

  /** LREM takes away min(|count|, occurrences) copies of the value and leaves the other
    * elements as they were: the foremost copies for a positive count, the hindmost for a
    * negative one, and all of them for 0. */
  lemma RemExact<T>(s: seq<T>, count: int, v: T)
    ensures |s| - |Rem(s, count, v)| ==
            if count == 0 then Occurrences(s, v)
            else Min(if count < 0 then -count else count, Occurrences(s, v))
    ensures Others(Rem(s, count, v), v) == Others(s, v)
    ensures count == 0 ==> Rem(s, count, v) == Others(s, v)
    ensures count > 0 ==> ClearedAtHead(s, Rem(s, count, v), v, Min(count, Occurrences(s, v)))
    ensures count < 0 ==> ClearedAtTail(s, Rem(s, count, v), v, Min(-count, Occurrences(s, v)))
  {
    hide Rem, Others, Occurrences, Min, ClearedAtHead, ClearedAtTail;
    RemDirected(s, count, v);
    RemKeeps(s, count, v);
  }

  lemma RemDirected<T>(s: seq<T>, count: int, v: T)
    ensures count > 0 ==> ClearedAtHead(s, Rem(s, count, v), v, Min(count, Occurrences(s, v)))
    ensures count < 0 ==> ClearedAtTail(s, Rem(s, count, v), v, Min(-count, Occurrences(s, v)))
  {
    hide DropFirst, DropLast, Others, Occurrences, Min, ClearedFrom;
    if count > 0 {
      var k := DropFirstExact(s, v, count);
      assert ClearedBefore(s, Rem(s, count, v), v, Min(count, Occurrences(s, v)), k);
    } else if count < 0 {
      var k := DropLastExact(s, v, -count);
    }
  }

  /** Occurrences are what a multiset counts, and the others are what is left of it. */
  lemma {:induction false} OthersExact<T>(s: seq<T>, v: T, x: T)
    ensures Occurrences(s, v) == multiset(s)[v]
    ensures multiset(Others(s, v))[x] == if x == v then 0 else multiset(s)[x]
  {
    if s != [] {
      OthersExact(s[1..], v, x);
      assert s == [s[0]] + s[1..];
      if s[0] != v { assert Others(s, v) == [s[0]] + Others(s[1..], v); }
    }
  }

  lemma RemKeeps<T>(s: seq<T>, count: int, v: T)
    ensures |s| - |Rem(s, count, v)| ==
            if count == 0 then Occurrences(s, v)
            else Min(if count < 0 then -count else count, Occurrences(s, v))
    ensures Others(Rem(s, count, v), v) == Others(s, v)
    ensures count == 0 ==> Rem(s, count, v) == Others(s, v)
  {
    hide DropFirst, DropLast, Others, Occurrences;
    OccurrencesReverse(s, v);
    if count < 0 {
      DropLastKeeps(s, v, -count);
    } else {
      DropFirstKeeps(s, v, if count == 0 then |s| else count);
      DropAll(s, v);
    }
  }

  lemma {:induction false} NoOccurrence<T>(s: seq<T>, v: T)
    requires Occurrences(s, v) == 0
    ensures Others(s, v) == s
  {
    if s != [] { NoOccurrence(s[1..], v); }
  }

  // The two loops of LREM, seen from the outside: what is still to be done at position `i`.

  ghost predicate HeadGoal<T>(goal: seq<T>, s: seq<T>, v: T, i: int, n: nat)
  {
    0 <= i <= |s| && goal == s[..i] + DropFirst(s[i..], v, n)
  }

  ghost predicate TailGoal<T>(goal: seq<T>, s: seq<T>, v: T, i: int, n: nat)
  {
    -1 <= i < |s| && goal == DropLast(s[..i + 1], v, n) + s[i + 1..]
  }

  lemma GoalStart<T>(s: seq<T>, v: T, n: nat)
    ensures HeadGoal(DropFirst(s, v, n), s, v, 0, n)
    ensures TailGoal(DropLast(s, v, n), s, v, |s| - 1, n)
  {
    assert s[..|s|] == s;
  }

  lemma GoalEnd<T>(goal: seq<T>, s: seq<T>, v: T, i: int, n: nat)
    ensures HeadGoal(goal, s, v, i, n) && (i == |s| || n == 0) ==> goal == s
    ensures TailGoal(goal, s, v, i, n) && (i == -1 || n == 0) ==> goal == s
  {
  }

  /** One turn of the forward loop: the element at `i` is dropped or passed over. */
  lemma HeadStep<T>(goal: seq<T>, s: seq<T>, v: T, i: nat, n: nat)
    requires HeadGoal(goal, s, v, i, n) && i < |s| && n > 0
    ensures s[i] == v ==> HeadGoal(goal, s[..i] + s[i + 1..], v, i, n - 1)
    ensures s[i] != v ==> HeadGoal(goal, s, v, i + 1, n)
  {
    assert s[i..][1..] == s[i + 1..];
    assert (s[..i] + s[i + 1..])[i..] == s[i + 1..];
  }

  /** One turn of the backward loop. */
  lemma TailStep<T>(goal: seq<T>, s: seq<T>, v: T, i: nat, n: nat)
    requires TailGoal(goal, s, v, i, n) && n > 0
    ensures s[i] == v ==> TailGoal(goal, s[..i] + s[i + 1..], v, i - 1, n - 1)
    ensures s[i] != v ==> TailGoal(goal, s, v, i - 1, n)
  {
    assert s[..i + 1][..i] == s[..i];
    assert (s[..i] + s[i + 1..])[..i] == s[..i];
    assert s[i..] == [s[i]] + s[i + 1..];
  }

  // ---------- pushes and pops ----------

  /** LPUSH pushes one value after the other, so the last one ends up first. */
  function PushLeft<T>(s: seq<T>, vs: seq<T>): seq<T>
  {
    Reverse(vs) + s
  }

  lemma PushLeftNone<T>(s: seq<T>)
    ensures PushLeft(s, []) == s
  {
  }

  lemma ReverseNone<T>()
    ensures Reverse<T>([]) == []
  {
  }

  lemma PushLeftStep<T>(s: seq<T>, vs: seq<T>, i: nat)
    requires i < |vs|
    ensures PushLeft(s, vs[..i + 1]) == [vs[i]] + PushLeft(s, vs[..i])
  {
    assert vs[..i + 1] == vs[..i] + [vs[i]];
    ReverseConcat(vs[..i], [vs[i]]);
  }

  /** How many elements a pop takes: at least one, at most all. */
  function PopCount(count: int, n: nat): nat
  {
    if n == 0 then 0 else Bound(count, 1, n)
  }

  lemma ReverseSuffix<T>(s: seq<T>, i: nat)
    requires i < |s|
    ensures Reverse(s[|s| - i - 1..]) == Reverse(s[|s| - i..]) + [s[|s| - 1 - i]]
  {
    assert s[|s| - i - 1..][1..] == s[|s| - i..];
  }

  lemma ShorterPrefix<T>(s: seq<T>, i: nat)
    requires i < |s|
    ensures s[..|s| - i][..|s| - i - 1] == s[..|s| - i - 1] && s[..|s| - i][|s| - i - 1] == s[|s| - 1 - i]
  {
  }

  /** The first position of `v`, or |s|. */
  function IndexOf<T(==)>(s: seq<T>, v: T): (k: nat)
    ensures k <= |s| && v !in s[..k] && (k < |s| ==> s[k] == v)
  {
    if s == [] || s[0] == v then 0 else
      var k := 1 + IndexOf(s[1..], v);
      assert s[..k] == [s[0]] + s[1..][..k - 1];
      k
  }

  /** LINSERT: `v` right before or right after the first pivot. */
  function Splice<T(==)>(s: seq<T>, before: bool, pivot: T, v: T): seq<T>
  {
    var k := IndexOf(s, pivot);
    if k == |s| then s
    else if before then s[..k] + [v] + s[k..]
    else s[..k + 1] + [v] + s[k + 1..]
  }

  lemma IndexOfMissing<T>(s: seq<T>, v: T)
    ensures IndexOf(s, v) <= |s| && (IndexOf(s, v) == |s| <==> v !in s)
  {
    assert s[..|s|] == s;
  }

  lemma SpliceForm<T>(s: seq<T>, before: bool, pivot: T, v: T)
    ensures var k := IndexOf(s, pivot);
            && k <= |s| && (k == |s| <==> pivot !in s)
            && Splice(s, before, pivot, v) ==
                 if k == |s| then s else if before then s[..k] + [v] + s[k..] else s[..k + 1] + [v] + s[k + 1..]
  {
    hide IndexOf;
    IndexOfMissing(s, pivot);
  }

  lemma IndexOfUnique<T>(s: seq<T>, v: T, k: nat)
    requires k <= |s| && v !in s[..k] && (k < |s| ==> s[k] == v)
    ensures k == IndexOf(s, v)
  {
    if k > 0 {
      assert s[..k][0] == s[0];
      assert s[1..][..k - 1] == s[..k][1..];
      IndexOfUnique(s[1..], v, k - 1);
    }
  }
}
