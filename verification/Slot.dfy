/** Hash slots of keys, and lists of slots as ranges. */
module Slots {
  import opened Crc16s
  import opened Sequences

  const NUM_SLOTS := 16384

  const OPEN: bv8 := 0x7B    // {
  const CLOSE: bv8 := 0x7D   // }

  /** The part of a key that is hashed: between the first { and the next }, if not empty. */
  function HashTag(key: Bytes): Bytes
  {
    var start := IndexOf(key, OPEN);
    if start == |key| then key
    else
      var inside := key[start + 1..];
      var end := IndexOf(inside, CLOSE);
      if end == |inside| || end == 0 then key else inside[..end]
  }

  function Slot(key: Bytes): nat
  {
    Serial(HashTag(key)) as int % NUM_SLOTS
  }

  /** A tagged key goes where its tag goes. */
  lemma TagDecides(a: Bytes, t: Bytes, b: Bytes)
    requires OPEN !in a && CLOSE !in t && t != []
    ensures HashTag(a + [OPEN] + t + [CLOSE] + b) == t
    ensures Slot(a + [OPEN] + t + [CLOSE] + b) == Slot(t)
  {
    var key := a + [OPEN] + t + [CLOSE] + b;
    assert key[..|a|] == a && key[|a|] == OPEN;
    IndexOfUnique(key, OPEN, |a|);
    var inside := key[|a| + 1..];
    assert inside == t + [CLOSE] + b;
    assert inside[..|t|] == t && inside[|t|] == CLOSE;
    IndexOfUnique(inside, CLOSE, |t|);
    NoTag(t);
  }

  lemma NoTag(key: Bytes)
    requires CLOSE !in key
    ensures HashTag(key) == key
  {
    var start := IndexOf(key, OPEN);
    if start < |key| {
      var inside := key[start + 1..];
      IndexOfMissing(inside, CLOSE);
    }
  }

  /** The slot is the bit-by-bit checksum modulo 16384 of the tag, and of the whole key if it has
    * no opening brace, none that is closed, or nothing between the first one and its closing. */
  lemma SlotExactly(a: Bytes, t: Bytes, b: Bytes)
    ensures OPEN !in a ==> Slot(a) == Serial(a) as int % 16384
    ensures OPEN !in a && CLOSE !in b ==> Slot(a + [OPEN] + b) == Serial(a + [OPEN] + b) as int % 16384
    ensures OPEN !in a ==> Slot(a + [OPEN, CLOSE] + b) == Serial(a + [OPEN, CLOSE] + b) as int % 16384
    ensures OPEN !in a && CLOSE !in t && t != [] ==>
              Slot(a + [OPEN] + t + [CLOSE] + b) == Serial(t) as int % 16384
  {
    hide Serial;
    if OPEN !in a {
      IndexOfMissing(a, OPEN);
      if CLOSE !in b { NotClosed(a, b); }
      EmptyTag(a, b);
      if CLOSE !in t && t != [] { TagDecides(a, t, b); }
    }
  }

  lemma NotClosed(a: Bytes, b: Bytes)
    requires OPEN !in a && CLOSE !in b
    ensures HashTag(a + [OPEN] + b) == a + [OPEN] + b
  {
    var key := a + [OPEN] + b;
    assert key[..|a|] == a && key[|a|] == OPEN && key[|a| + 1..] == b;
    IndexOfUnique(key, OPEN, |a|);
    IndexOfMissing(b, CLOSE);
  }

  lemma EmptyTag(a: Bytes, b: Bytes)
    requires OPEN !in a
    ensures HashTag(a + [OPEN, CLOSE] + b) == a + [OPEN, CLOSE] + b
  {
    var key := a + [OPEN, CLOSE] + b;
    assert key[..|a|] == a && key[|a|] == OPEN;
    IndexOfUnique(key, OPEN, |a|);
    var inside := key[|a| + 1..];
    assert inside == [CLOSE] + b && inside[..0] == [];
    IndexOfUnique(inside, CLOSE, 0);
  }

  /** Tags of tags change nothing. */
  lemma TagOnce(key: Bytes)
    ensures HashTag(HashTag(key)) == HashTag(key)
  {
    if HashTag(key) != key { NoTag(HashTag(key)); }
  }

  method KeyHashSlot(key: Bytes) returns (slot: nat)
    ensures slot == Slot(key) < NUM_SLOTS
    ensures slot == Serial(HashTag(key)) as int % 16384
  {
    var crc := Crc16(HashTag(key));
    return crc as int % NUM_SLOTS;
  }

  method KeysInSameSlot(keys: seq<Bytes>) returns (same: bool)
    ensures same <==> forall i, j :: 0 <= i < j < |keys| ==> Slot(keys[i]) == Slot(keys[j])
  {
    hide Slot;
    if |keys| <= 1 {
      return true;
    }
    var first := KeyHashSlot(keys[0]);
    for i := 1 to |keys|
      invariant forall j :: 0 <= j < i ==> Slot(keys[j]) == first
    {
      var slot := KeyHashSlot(keys[i]);
      if slot != first {
        return false;
      }
    }
    return true;
  }

  // ---------- ranges ----------

  datatype Range = Range(start: int, end: int)

  ghost predicate Sorted(s: seq<int>)
  {
    forall i, j :: 0 <= i < j < |s| ==> s[i] <= s[j]
  }

  ghost predicate Covers(rs: seq<Range>, x: int)
  {
    exists i :: 0 <= i < |rs| && rs[i].start <= x <= rs[i].end
  }

  /** Ascending, and no two touch or overlap. */
  ghost predicate Separate(rs: seq<Range>)
  {
    && (forall i :: 0 <= i < |rs| ==> rs[i].start <= rs[i].end)
    && forall i, j :: 0 <= i < j < |rs| ==> rs[i].end + 1 < rs[j].start
  }

  ghost predicate CoversExactly(rs: seq<Range>, s: seq<int>)
  {
    forall x :: Covers(rs, x) <==> x in s
  }

  /** Groups a sorted list; the ranges cover exactly the listed slots, and they are separate
    * exactly when no slot is listed twice. */
  method GroupSlots(s: seq<int>) returns (ranges: seq<Range>)
    requires Sorted(s)
    ensures CoversExactly(ranges, s)
    ensures Separate(ranges) <==> Distinct(s)
  {
    hide Distinct, Separate, Covers, CoversExactly;
    if |s| == 0 {
      Nothing();
      return [];
    }
    ranges := [];
    var start, end := s[0], s[0];
    OneSlot(s[0]);
    assert s[..1] == [s[0]] && [] + [Range(start, end)] == [Range(start, end)];
    for i := 1 to |s|
      invariant end == s[i - 1] && start <= end
      invariant CoversExactly(ranges + [Range(start, end)], s[..i])
      invariant Separate(ranges + [Range(start, end)]) <==> Distinct(s[..i])
    {
      TwiceNext(s, i);
      if s[i] == end + 1 {
        Extended(ranges, start, end);
        CoversNext(ranges + [Range(start, end)], ranges + [Range(start, s[i])], s, i);
        end := s[i];
      } else {
        Opened(ranges, start, end, s[i]);
        CoversNext(ranges + [Range(start, end)], ranges + [Range(start, end)] + [Range(s[i], s[i])], s, i);
        ranges := ranges + [Range(start, end)];
        start := s[i];
        end := s[i];
      }
    }
    assert s[..|s|] == s;
    ranges := ranges + [Range(start, end)];
  }

  lemma CoversNext(rs: seq<Range>, rs': seq<Range>, s: seq<int>, i: nat)
    requires i < |s| && CoversExactly(rs, s[..i]) && forall x :: Covers(rs', x) <==> Covers(rs, x) || x == s[i]
    ensures CoversExactly(rs', s[..i + 1])
  {
    hide Covers;
    assert s[..i + 1] == s[..i] + [s[i]];
    forall x ensures Covers(rs', x) <==> x in s[..i + 1] { assert Covers(rs, x) <==> x in s[..i]; }
  }

  lemma Nothing()
    ensures CoversExactly([], []) && Separate([]) && Distinct<int>([])
  {
  }

  lemma OneSlot(x: int)
    ensures CoversExactly([Range(x, x)], [x]) && Separate([Range(x, x)]) && Distinct([x])
  {
    forall y ensures Covers([Range(x, x)], y) <==> y in [x] {
      if y == x { assert [Range(x, x)][0].start <= y <= [Range(x, x)][0].end; }
    }
  }

  lemma TwiceNext(s: seq<int>, i: nat)
    requires Sorted(s) && 0 < i < |s|
    ensures Distinct(s[..i + 1]) <==> Distinct(s[..i]) && s[i - 1] != s[i]
  {
    var a, b := s[..i], s[..i + 1];
    if Distinct(b) {
      assert b[i - 1] != b[i];
      forall j, k | 0 <= j < k < |a| ensures a[j] != a[k] { assert b[j] != b[k]; }
    }
    if Distinct(a) && s[i - 1] != s[i] {
      forall j, k | 0 <= j < k < |b| ensures b[j] != b[k] {
        if k < i { assert a[j] != a[k]; } else { assert s[j] <= s[i - 1] < s[i]; }
      }
    }
  }

  lemma CoversSnoc(rs: seq<Range>, r: Range, x: int)
    ensures Covers(rs + [r], x) <==> Covers(rs, x) || r.start <= x <= r.end
  {
    var all := rs + [r];
    if Covers(rs, x) {
      var i :| 0 <= i < |rs| && rs[i].start <= x <= rs[i].end;
      assert all[i].start <= x <= all[i].end;
    }
    if r.start <= x <= r.end { assert all[|rs|].start <= x <= all[|rs|].end; }
  }

  lemma Extended(rs: seq<Range>, start: int, end: int)
    requires start <= end
    ensures forall x :: Covers(rs + [Range(start, end + 1)], x) <==> Covers(rs + [Range(start, end)], x) || x == end + 1
    ensures Separate(rs + [Range(start, end + 1)]) <==> Separate(rs + [Range(start, end)])
  {
    forall x ensures Covers(rs + [Range(start, end + 1)], x) <==> Covers(rs + [Range(start, end)], x) || x == end + 1 {
      CoversSnoc(rs, Range(start, end + 1), x);
      CoversSnoc(rs, Range(start, end), x);
    }
    SeparateSnoc(rs, Range(start, end));
    SeparateSnoc(rs, Range(start, end + 1));
  }

  lemma SeparateSnoc(rs: seq<Range>, r: Range)
    requires r.start <= r.end
    ensures Separate(rs + [r]) <==> Separate(rs) && forall i :: 0 <= i < |rs| ==> rs[i].end + 1 < r.start
  {
    var all := rs + [r];
    assert all[|rs|] == r && forall i :: 0 <= i < |rs| ==> all[i] == rs[i];
  }

  lemma Opened(rs: seq<Range>, start: int, end: int, x: int)
    requires start <= end <= x && x != end + 1
    ensures forall y :: Covers(rs + [Range(start, end)] + [Range(x, x)], y) <==>
            Covers(rs + [Range(start, end)], y) || y == x
    ensures Separate(rs + [Range(start, end)] + [Range(x, x)]) <==> Separate(rs + [Range(start, end)]) && end != x
  {
    var all := rs + [Range(start, end)];
    forall y ensures Covers(all + [Range(x, x)], y) <==> Covers(all, y) || y == x { CoversSnoc(all, Range(x, x), y); }
    SeparateSnoc(all, Range(x, x));
    SeparateSnoc(rs, Range(start, end));
    assert all[|rs|] == Range(start, end) && forall i :: 0 <= i < |rs| ==> all[i] == rs[i];
  }

  // ---------- sorting first ----------

  method SortInts(s: seq<int>) returns (r: seq<int>)
    ensures Sorted(r) && multiset(r) == multiset(s)
  {
    hide Sorted;
    r := [];
    SortedNone();
    for i := 0 to |s|
      invariant Sorted(r) && multiset(r) == multiset(s[..i])
    {
      var k := 0;
      while k < |r| && r[k] < s[i]
        invariant k <= |r| && forall j :: 0 <= j < k ==> r[j] < s[i]
      {
        k := k + 1;
      }
      SortedInsert(r, k, s[i]);
      CountInsert(r, k, s[i]);
      assert s[..i + 1] == s[..i] + [s[i]];
      r := r[..k] + [s[i]] + r[k..];
    }
    assert s[..|s|] == s;
  }

  lemma SortedNone()
    ensures Sorted([])
  {
  }

  lemma SortedInsert(r: seq<int>, k: nat, x: int)
    requires Sorted(r) && k <= |r| && (forall j :: 0 <= j < k ==> r[j] < x) && (k < |r| ==> r[k] >= x)
    ensures Sorted(r[..k] + [x] + r[k..])
  {
    SortedParts(r, k, x);
    hide Sorted;
    SortedJoin(r[..k], x, r[k..]);
  }

  lemma SortedParts(r: seq<int>, k: nat, x: int)
    requires Sorted(r) && k <= |r| && (k < |r| ==> r[k] >= x)
    ensures Sorted(r[..k]) && Sorted(r[k..]) && forall i :: 0 <= i < |r[k..]| ==> x <= r[k..][i]
  {
    forall i | 0 <= i < |r[k..]| ensures x <= r[k..][i] { assert r[k..][i] == r[k + i] && r[k] <= r[k + i]; }
  }

  lemma CountInsert(r: seq<int>, k: nat, x: int)
    requires k <= |r|
    ensures multiset(r[..k] + [x] + r[k..]) == multiset(r) + multiset{x}
  {
    assert r == r[..k] + r[k..];
  }

  lemma SortedJoin(a: seq<int>, x: int, b: seq<int>)
    requires Sorted(a) && Sorted(b)
    requires (forall i :: 0 <= i < |a| ==> a[i] <= x) && forall i :: 0 <= i < |b| ==> x <= b[i]
    ensures Sorted(a + [x] + b)
  {
    var t := a + [x] + b;
    forall i, j | 0 <= i < j < |t| ensures t[i] <= t[j] {
      var u := if i < |a| then a[i] else if i == |a| then x else b[i - |a| - 1];
      var v := if j < |a| then a[j] else if j == |a| then x else b[j - |a| - 1];
      assert t[i] == u && t[j] == v;
    }
  }

  lemma {:induction false} TwiceByCount(s: seq<int>)
    ensures Distinct(s) <==> forall x :: multiset(s)[x] <= 1
  {
    if s != [] {
      var a, x := s[..|s| - 1], s[|s| - 1];
      assert s == a + [x];
      TwiceByCount(a);
      TwiceSnoc(a, x);
      hide Distinct;
      assert forall y :: multiset(s)[y] == multiset(a)[y] + if y == x then 1 else 0;
      assert x in a <==> multiset(a)[x] > 0;
      if x in a { assert multiset(s)[x] > 1; }
    }
  }

  lemma TwiceSnoc(a: seq<int>, x: int)
    ensures Distinct(a + [x]) <==> Distinct(a) && x !in a
  {
    var s := a + [x];
    assert s[|a|] == x && forall i :: 0 <= i < |a| ==> s[i] == a[i];
    if Distinct(s) {
      forall i | 0 <= i < |a| ensures a[i] != x { assert s[i] != s[|a|]; }
    }
  }

  /** A list of slots in any order as ranges. */
  method BuildSlotRanges(slots: seq<int>) returns (ranges: seq<Range>)
    ensures CoversExactly(ranges, slots)
    ensures Separate(ranges) <==> Distinct(slots)
  {
    hide Distinct, Separate, Covers, Sorted, CoversExactly;
    var sorted := SortInts(slots);
    ranges := GroupSlots(sorted);
    TwiceByCount(slots);
    TwiceByCount(sorted);
    SameSlots(ranges, sorted, slots);
  }

  lemma SameSlots(rs: seq<Range>, a: seq<int>, b: seq<int>)
    requires CoversExactly(rs, a) && multiset(a) == multiset(b)
    ensures CoversExactly(rs, b)
  {
    hide Covers;
    forall x ensures x in a <==> x in b { assert x in multiset(a) <==> x in multiset(b); }
  }
}
