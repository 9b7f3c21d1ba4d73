/** HyperLogLog registers: what they say of a set of hashes, however they came about. */
module HyperLogLogs {
  import opened Options
  import opened Powers
  import Sequences

  function BitLength(n: nat): nat
  {
    if n == 0 then 0 else 1 + BitLength(n / 2)
  }

  /** A 64-bit word shifted left; what leaves at the top is gone. */
  function ShiftLeft(w: nat, n: nat): nat
    decreases n
  {
    if n == 0 then w else ShiftLeft(2 * w % Pow2(64), n - 1)
  }

  function ShiftRight(w: nat, n: nat): nat
    decreases n
  {
    if n == 0 then w else ShiftRight(w / 2, n - 1)
  }

  predicate Word(h: nat)
  {
    h < Pow2(64)
  }

  predicate Precision(p: nat)
  {
    4 <= p <= 16
  }

  /** The top p bits of a hash. */
  function Index(h: nat, p: nat): nat
    requires Precision(p)
  {
    ShiftRight(h, 64 - p)
  }

  /** One more than the zeros in front of the rest, 64 - p of them at most. */
  function Rank(h: nat, p: nat): int
    requires Precision(p)
  {
    Sequences.Min(64 - BitLength(ShiftLeft(h, p)), 64 - p) + 1
  }

  // ---------- arithmetic ----------

  lemma {:induction false} ShiftRightBound(w: nat, a: nat, n: nat)
    requires w < Pow2(a + n)
    ensures ShiftRight(w, n) < Pow2(a)
    decreases n
  {
    if n > 0 { ShiftRightBound(w / 2, a, n - 1); }
  }

  lemma {:induction false} ShiftLeftBound(w: nat, n: nat)
    requires Word(w)
    ensures Word(ShiftLeft(w, n))
    decreases n
  {
    if n > 0 { ShiftLeftBound(2 * w % Pow2(64), n - 1); }
  }

  lemma IndexInRange(h: nat, p: nat)
    requires Precision(p) && Word(h)
    ensures Index(h, p) < Pow2(p)
  {
    ShiftRightBound(h, p, 64 - p);
  }

  lemma {:induction false} BitLengthBound(n: nat, k: nat)
    requires n < Pow2(k)
    ensures BitLength(n) <= k
  {
    if n > 0 { BitLengthBound(n / 2, k - 1); }
  }

  lemma RankInRange(h: nat, p: nat)
    requires Precision(p) && Word(h)
    ensures 1 <= Rank(h, p) <= 65 - p
  {
    hide Pow2, ShiftLeft, BitLength;
    ShiftLeftBound(h, p);
    BitLengthBound(ShiftLeft(h, p), 64);
  }

  // ---------- what index and rank are ----------

  lemma {:induction false} PowerSum(a: nat, b: nat)
    ensures Pow2(a + b) == Pow2(a) * Pow2(b)
  {
    if a > 0 { PowerSum(a - 1, b); }
  }

  /** A word of `q` on top of `n` low bits `r`. */
  lemma {:induction false} ShiftRightParts(q: nat, r: nat, n: nat)
    requires r < Pow2(n)
    ensures ShiftRight(q * Pow2(n) + r, n) == q
    decreases n
  {
    if n > 0 {
      var w := q * Pow2(n) + r;
      Doubled(q, Pow2(n - 1), r);
      ShiftRightParts(q, r / 2, n - 1);
    }
  }

  lemma Doubled(q: nat, m: nat, r: nat)
    ensures (q * (2 * m) + r) / 2 == q * m + r / 2
  {
    assert q * (2 * m) == 2 * (q * m);
  }

  const WORDS := 0x1_0000_0000_0000_0000

  lemma WordsArePower()
    ensures Pow2(64) == WORDS
  {
    hide Pow2;
    EightBits();
    PowerSum(8, 8);
    PowerSum(16, 16);
    PowerSum(32, 32);
  }

  lemma EightBits()
    ensures Pow2(8) == 256
  {
    assert Pow2(4) == 16;
    PowerSum(4, 4);
  }

  lemma PowerNext(n: nat)
    ensures Pow2(n + 1) == 2 * Pow2(n)
  {
  }

  lemma ShiftLeftOne(w: nat, n: nat)
    requires n > 0
    ensures ShiftLeft(w, n) == ShiftLeft(2 * w % WORDS, n - 1)
  {
    WordsArePower();
  }

  lemma {:induction false} ShiftLeftParts(q: nat, r: nat, n: nat)
    requires n <= 64 && r < Pow2(64 - n) && q < Pow2(n)
    ensures ShiftLeft(q * Pow2(64 - n) + r, n) == r * Pow2(n)
    decreases n
  {
    if n > 0 {
      hide Pow2, ShiftLeft;
      var m, half := Pow2(64 - n), Pow2(n - 1);
      var low := if q < half then q else q - half;
      PowerNext(64 - n);
      PowerNext(n - 1);
      PowerSum(n - 1, 65 - n);
      WordsArePower();
      TopLost(q, low, half, m, r);
      ShiftLeftOne(q * m + r, n);
      ShiftLeftParts(low, 2 * r, n - 1);
      Twice(r, half);
    }
  }

  lemma Twice(r: nat, half: nat)
    ensures 2 * r * half == r * (2 * half)
  {
  }

  lemma TopLost(q: nat, low: nat, half: nat, m: nat, r: nat)
    requires half * (2 * m) == WORDS && q < 2 * half && r < m && low == if q < half then q else q - half
    ensures 2 * (q * m + r) % WORDS == low * (2 * m) + 2 * r
  {
    Products(q, low, half, m);
    BitLost(q * m, low * m, half * m, m, r);
  }

  lemma Products(q: nat, low: nat, half: nat, m: nat)
    requires low < half && (q == low || q == low + half)
    ensures half * (2 * m) == 2 * (half * m) && low * (2 * m) == 2 * (low * m)
    ensures q == low + half ==> q * m == low * m + half * m
    ensures low * m + m <= half * m
  {
    assert (low + half) * m == low * m + half * m;
    Grows(low + 1, half, m);
    assert (low + 1) * m == low * m + m;
  }

  lemma Grows(a: nat, b: nat, m: nat)
    requires a <= b
    ensures a * m <= b * m
  {
  }

  lemma BitLost(x: nat, y: nat, h: nat, m: nat, r: nat)
    requires 2 * h == WORDS && (x == y || x == y + h) && y + m <= h && r < m
    ensures 2 * (x + r) % WORDS == 2 * y + 2 * r
  {
  }

  lemma {:induction false} BitLengthExactly(n: nat)
    ensures n > 0 ==> BitLength(n) > 0 && Pow2(BitLength(n) - 1) <= n < Pow2(BitLength(n))
  {
    if n > 1 { BitLengthExactly(n / 2); }
  }

  lemma BitLengthTwice(n: nat)
    requires n > 0
    ensures BitLength(2 * n) == BitLength(n) + 1
  {
  }

  lemma {:induction false} BitLengthShifted(n: nat, k: nat)
    requires n > 0
    ensures BitLength(n * Pow2(k)) == BitLength(n) + k
  {
    hide BitLength, Pow2;
    if k == 0 {
      Unshifted(n);
    } else {
      BitLengthShifted(n, k - 1);
      ShiftedOnce(n, k - 1);
      BitLengthTwice(n * Pow2(k - 1));
    }
  }

  lemma Unshifted(n: nat)
    ensures n * Pow2(0) == n
  {
  }

  lemma ShiftedOnce(n: nat, k: nat)
    requires n > 0
    ensures n * Pow2(k + 1) == 2 * (n * Pow2(k)) && n * Pow2(k) > 0
  {
    var m := Pow2(k);
    assert n * (2 * m) == 2 * (n * m);
    Positive(n, m);
  }

  lemma Positive(n: nat, m: nat)
    requires n > 0 && m > 0
    ensures n * m > 0
  {
  }

  /** For a hash of p top bits `q` and 64 - p low bits `r`: the index is q, and the rank is one
    * more than the number of zeros in front of r, all of its 64 - p bits if r is 0. */
  lemma IndexAndRank(q: nat, r: nat, p: nat)
    requires Precision(p) && q < Pow2(p) && r < Pow2(64 - p)
    ensures var h := q * Pow2(64 - p) + r;
            && Index(h, p) == q
            && (r == 0 ==> Rank(h, p) == 65 - p)
            && (r > 0 ==> 1 <= Rank(h, p) <= 64 - p && Pow2(64 - p - Rank(h, p)) <= r < Pow2(65 - p - Rank(h, p)))
  {
    hide Pow2, ShiftLeft, ShiftRight, BitLength;
    ShiftRightParts(q, r, 64 - p);
    ShiftLeftParts(q, r, p);
    if r > 0 {
      BitLengthShifted(r, p);
      BitLengthExactly(r);
      BitLengthBound(r, 64 - p);
    } else {
      NoBits(p);
    }
  }

  lemma NoBits(p: nat)
    ensures BitLength(0 * Pow2(p)) == 0
  {
  }

  // ---------- what registers mean ----------

  /** r is the greatest rank among the hashes of register i, 0 without any. */
  ghost predicate Greatest(r: int, hs: set<nat>, i: nat, p: nat)
    requires Precision(p)
  {
    && (forall h :: h in hs && Index(h, p) == i ==> Rank(h, p) <= r)
    && (r == 0 || exists h :: h in hs && Index(h, p) == i && Rank(h, p) == r)
    && (r == 0 ==> forall h :: h in hs ==> Index(h, p) != i)
  }

  ghost predicate Sketches(regs: seq<int>, p: nat, hs: set<nat>)
  {
    && Precision(p) && |regs| == Pow2(p) && (forall h :: h in hs ==> Word(h))
    && forall i :: 0 <= i < |regs| ==> Greatest(regs[i], hs, i, p)
  }

  /** The registers depend on the set of hashes alone: not on order, repetition or the way
    * they were merged. */
  lemma SketchUnique(a: seq<int>, b: seq<int>, p: nat, hs: set<nat>)
    requires Sketches(a, p, hs) && Sketches(b, p, hs)
    ensures a == b
  {
    hide Index, Rank;
    forall i | 0 <= i < |a| ensures a[i] == b[i] {
      GreatestUnique(a[i], b[i], hs, i, p);
    }
  }

  lemma GreatestUnique(r: int, q: int, hs: set<nat>, i: nat, p: nat)
    requires Precision(p) && Greatest(r, hs, i, p) && Greatest(q, hs, i, p)
    ensures r == q
  {
    hide Index, Rank;
    if r != 0 {
      var h :| h in hs && Index(h, p) == i && Rank(h, p) == r;
      assert q != 0 && Rank(h, p) <= q;
    }
    if q != 0 {
      var h :| h in hs && Index(h, p) == i && Rank(h, p) == q;
      assert Rank(h, p) <= r;
    }
  }

  lemma RegistersInRange(regs: seq<int>, p: nat, hs: set<nat>)
    requires Sketches(regs, p, hs)
    ensures forall i :: 0 <= i < |regs| ==> 0 <= regs[i] <= 65 - p
  {
    forall i | 0 <= i < |regs| ensures 0 <= regs[i] <= 65 - p {
      assert Greatest(regs[i], hs, i, p);
      if regs[i] != 0 {
        var h :| h in hs && Index(h, p) == i && Rank(h, p) == regs[i];
        RankInRange(h, p);
      }
    }
  }

  ghost function Larger(a: int, b: int): int
  {
    if b > a then b else a
  }

  lemma GreatestJoin(r: int, q: int, hs: set<nat>, gs: set<nat>, i: nat, p: nat)
    requires Precision(p) && 0 <= r && 0 <= q && Greatest(r, hs, i, p) && Greatest(q, gs, i, p)
    ensures Greatest(Larger(r, q), hs + gs, i, p)
  {
    hide Index, Rank;
  }

  lemma GreatestOne(h: nat, i: nat, p: nat)
    requires Precision(p) && Word(h)
    ensures Greatest(if Index(h, p) == i then Rank(h, p) else 0, {h}, i, p)
  {
    RankInRange(h, p);
    hide Index, Rank;
    assert h in {h};
  }

  // ---------- the structure ----------

  class HyperLogLog {
    const precision: nat
    const registers: array<int>
    ghost var seen: set<nat>

    ghost predicate Valid()
      reads this, registers
    {
      Sketches(registers[..], precision, seen)
    }

    constructor (precision: nat)
      ensures Valid() && seen == {} && fresh(registers)
      ensures this.precision == if precision < 4 then 4 else if precision > 16 then 16 else precision
    {
      var p := if precision < 4 then 4 else if precision > 16 then 16 else precision;
      this.precision := p;
      registers := new int[Pow2(p)](_ => 0);
      seen := {};
    }

    /** Adds an element by its hash; says whether a register changed. */
    method Add(hash: nat) returns (updated: bool)
      requires Valid() && Word(hash)
      modifies this, registers
      ensures Valid() && seen == old(seen) + {hash}
      ensures updated <==> registers[..] != old(registers[..])
    {
      hide Index, Rank, Greatest;
      IndexInRange(hash, precision);
      RegistersInRange(registers[..], precision, seen);
      var index := Index(hash, precision);
      var rank := Rank(hash, precision);
      updated := false;
      if rank > registers[index] {
        registers[index] := rank;
        updated := true;
        assert registers[..][index] != old(registers[..])[index];
      }
      forall i | 0 <= i < |registers[..]| ensures Greatest(registers[..][i], seen + {hash}, i, precision) {
        var r := old(registers[..])[i];
        GreatestOne(hash, i, precision);
        RankInRange(hash, precision);
        GreatestJoin(r, if index == i then rank else 0, seen, {hash}, i, precision);
      }
      seen := seen + {hash};
    }

    method MergeOne(other: HyperLogLog)
      requires Valid() && other.Valid() && other.precision == precision
      modifies this, registers
      ensures Valid() && seen == old(seen) + old(other.seen)
    {
      hide Index, Rank, Greatest;
      RegistersInRange(registers[..], precision, seen);
      RegistersInRange(other.registers[..], precision, other.seen);
      ghost var mine, theirs, hs := registers[..], other.registers[..], other.seen;
      for i := 0 to registers.Length
        invariant seen == old(seen)
        invariant forall j :: 0 <= j < i ==> registers[j] == Larger(mine[j], theirs[j])
        invariant forall j :: i <= j < registers.Length ==> registers[j] == mine[j]
        invariant other.registers == registers || other.registers[..] == theirs
      {
        if other.registers[i] > registers[i] {
          registers[i] := other.registers[i];
        }
      }
      forall i | 0 <= i < |registers[..]| ensures Greatest(registers[..][i], seen + hs, i, precision) {
        GreatestJoin(mine[i], theirs[i], seen, hs, i, precision);
      }
      seen := seen + hs;
    }

    method Clone() returns (copy: HyperLogLog)
      requires Valid()
      ensures copy.Valid() && copy.precision == precision && copy.seen == seen && fresh(copy) && fresh(copy.registers)
      ensures copy.registers[..] == registers[..]
    {
      copy := new HyperLogLog(precision);
      for i := 0 to registers.Length
        invariant copy.registers[..i] == registers[..i]
      {
        copy.registers[i] := registers[i];
      }
      copy.seen := seen;
      assert copy.registers[..] == registers[..];
    }

    /** Merges until a sketch of another precision turns up; this sketch may be among them. */
    method Merge(others: seq<HyperLogLog>) returns (ok: bool)
      requires Valid() && Mergeable(others)
      modifies this, registers
      ensures Valid() && (ok <==> forall i :: 0 <= i < |others| ==> others[i].precision == precision)
      ensures ok ==> seen == old(seen) + old(Union(others))
    {
      hide Sketches;
      for i := 0 to |others|
        invariant Valid() && Mergeable(others) && forall j :: 0 <= j < i ==> others[j].precision == precision
        invariant seen == old(seen) + old(Union(others[..i]))
        invariant forall j :: 0 <= j < |others| && others[j] != this ==> others[j].seen == old(others[j].seen)
      {
        if others[i].precision != precision {
          return false;
        }
        MergeOne(others[i]);
        assert others[..i + 1][..i] == others[..i];
      }
      assert others[..|others|] == others;
      return true;
    }

    /** Valid sketches; none but this one uses its registers. */
    ghost predicate Mergeable(others: seq<HyperLogLog>)
      reads this, others, set o | o in others :: o.registers
    {
      forall i :: 0 <= i < |others| ==> (others[i] == this || others[i].registers != registers) && others[i].Valid()
    }
  }

  /** All hashes the sketches have seen. */
  ghost function Union(hlls: seq<HyperLogLog>): set<nat>
    reads hlls
  {
    if hlls == [] then {} else Union(hlls[..|hlls| - 1]) + hlls[|hlls| - 1].seen
  }

  ghost predicate AllValid(hlls: seq<HyperLogLog>)
    reads hlls, set o | o in hlls :: o.registers
  {
    forall i :: 0 <= i < |hlls| ==> hlls[i].Valid()
  }

  ghost predicate SamePrecision(hlls: seq<HyperLogLog>)
  {
    forall i :: 0 <= i < |hlls| ==> hlls[i].precision == hlls[0].precision
  }

  const DEFAULT_PRECISION := 14

  /** PFMERGE: a new sketch of everything the sources, possibly none, have seen. */
  method MergeSources(sources: seq<HyperLogLog>) returns (dest: HyperLogLog, ok: bool)
    requires AllValid(sources)
    ensures fresh(dest) && (ok <==> SamePrecision(sources))
    ensures ok ==> dest.Valid() && dest.seen == Union(sources)
    ensures ok ==> dest.precision == if sources == [] then DEFAULT_PRECISION else sources[0].precision
  {
    hide Sketches;
    if |sources| == 0 {
      dest := new HyperLogLog(DEFAULT_PRECISION);
      return dest, true;
    }
    Precise(sources[0]);
    dest := new HyperLogLog(sources[0].precision);
    ok := dest.Merge(sources);
    assert {} + Union(sources) == Union(sources);
  }

  lemma Precise(h: HyperLogLog)
    requires h.Valid()
    ensures Precision(h.precision)
  {
  }

  /** PFCOUNT: the registers its estimate is made from, or none when no key exists and the
    * answer is 0. */
  method CountSources(sources: seq<HyperLogLog>) returns (registers: Option<seq<int>>, ok: bool)
    requires AllValid(sources)
    ensures ok <==> SamePrecision(sources)
    ensures registers.None? <==> sources == [] || !ok
    ensures registers.Some? ==> Sketches(registers.value, sources[0].precision, Union(sources))
  {
    hide Sketches;
    if |sources| == 0 {
      return None, true;
    }
    if |sources| == 1 {
      assert sources[..0] == [] && Union(sources) == sources[0].seen;
      return Some(sources[0].registers[..]), true;
    }
    var merged;
    merged, ok := MergeSources(sources);
    registers := if ok then Some(merged.registers[..]) else None;
  }

  /** PFCOUNT on several keys estimates from the very registers PFMERGE would store; with no
    * key at all it answers 0, and PFMERGE stores registers that are all 0. */
  method CountsLikeMerge(sources: seq<HyperLogLog>) returns (counted: Option<seq<int>>, stored: seq<int>, ok: bool)
    requires AllValid(sources)
    ensures ok <==> SamePrecision(sources)
    ensures ok && sources != [] ==> counted == Some(stored)
    ensures sources == [] ==> counted == None && forall i :: 0 <= i < |stored| ==> stored[i] == 0
  {
    hide Sketches;
    counted, ok := CountSources(sources);
    var dest, ok2 := MergeSources(sources);
    stored := dest.registers[..];
    if ok && sources != [] {
      SketchUnique(counted.value, stored, dest.precision, dest.seen);
    }
    if sources == [] {
      NothingSeen(stored, dest.precision);
    }
  }

  lemma NothingSeen(regs: seq<int>, p: nat)
    requires Sketches(regs, p, {})
    ensures forall i :: 0 <= i < |regs| ==> regs[i] == 0
  {
    forall i | 0 <= i < |regs| ensures regs[i] == 0 { assert Greatest(regs[i], {}, i, p); }
  }
}
