/** The full-resync payload: what a master writes for its string keys and what a replica
  * makes of the bytes. */
module Rdbs {
  import opened Options

  type Byte = b: int | 0 <= b < 256

  type Bytes = seq<Byte>

  // ---------- lengths ----------

  /** 6, 14 or 32 bits, told apart by the two top bits of the first byte. */
  function LengthBytes(n: nat): Bytes
  {
    if n < 64 then [n]
    else if n < 16384 then [0x40 + n / 256, n % 256]
    else [0x80, n / 0x100_0000 % 256, n / 0x1_0000 % 256, n / 0x100 % 256, n % 256]
  }

  /** The length and the bytes it took; (0, 0) when there is none. */
  function ReadLength(s: Bytes): (r: (nat, nat))
    ensures r.1 <= |s|
  {
    if s == [] then (0, 0)
    else if s[0] / 64 == 0 then (s[0] % 64, 1)
    else if s[0] / 64 == 1 then if |s| < 2 then (0, 0) else ((s[0] as int) % 64 * 256 + s[1], 2)
    else if s[0] / 64 == 2 then
      if |s| < 5 then (0, 0)
      else ((s[1] as int) * 0x100_0000 + (s[2] as int) * 0x1_0000 + (s[3] as int) * 0x100 + s[4], 5)
    else (0, 0)
  }

  /** Reading inverts writing exactly for the lengths below 2^32. */
  lemma LengthReadsBack(n: nat, rest: Bytes)
    ensures ReadLength(LengthBytes(n) + rest).1 == |LengthBytes(n)|
    ensures ReadLength(LengthBytes(n) + rest).0 == n <==> n < 0x1_0000_0000
  {
    var s := LengthBytes(n) + rest;
    assert forall i :: 0 <= i < |LengthBytes(n)| ==> s[i] == LengthBytes(n)[i];
    if n >= 16384 {
      FourBytes(n);
    }
  }

  lemma FourBytes(n: nat)
    ensures n / 0x100_0000 % 256 * 0x100_0000 + n / 0x1_0000 % 256 * 0x1_0000 + n / 0x100 % 256 * 0x100 + n % 256
            == n % 0x1_0000_0000
  {
    assert n / 0x1_0000 == n / 0x100 / 0x100;
    assert n / 0x100_0000 == n / 0x1_0000 / 0x100;
    assert n % 0x1_0000_0000 == n - n / 0x1_0000_0000 * 0x1_0000_0000;
    assert n / 0x1_0000_0000 == n / 0x100_0000 / 0x100;
  }

  // ---------- strings and times ----------

  function StringBytes(x: Bytes): Bytes
  {
    LengthBytes(|x|) + x
  }

  /** The string and the bytes it took. */
  function ReadString(s: Bytes): (r: Option<(Bytes, nat)>)
    ensures r.Some? ==> r.value.1 <= |s|
  {
    var (length, n) := ReadLength(s);
    if n + length > |s| then None else Some((s[n..n + length], n + length))
  }

  lemma StringReadsBack(x: Bytes, rest: Bytes)
    requires |x| < 0x1_0000_0000
    ensures ReadString(StringBytes(x) + rest) == Some((x, |StringBytes(x)|))
  {
    hide LengthBytes, ReadLength;
    assert StringBytes(x) + rest == LengthBytes(|x|) + (x + rest);
    LengthReadsBack(|x|, x + rest);
    var s, n := StringBytes(x) + rest, |LengthBytes(|x|)|;
    assert s[n..n + |x|] == x;
  }

  /** `k` bytes, the lowest first. */
  function LittleEndian(n: nat, k: nat): (r: Bytes)
    ensures |r| == k
  {
    if k == 0 then [] else [n % 256] + LittleEndian(n / 256, k - 1)
  }

  function ReadLittleEndian(s: Bytes): nat
  {
    if s == [] then 0 else s[0] + 256 * ReadLittleEndian(s[1..])
  }

  function Pow256(k: nat): nat
  {
    if k == 0 then 1 else 256 * Pow256(k - 1)
  }

  lemma {:induction false} TimeReadsBack(n: nat, k: nat)
    requires n < Pow256(k)
    ensures ReadLittleEndian(LittleEndian(n, k)) == n
  {
    if k > 0 {
      TimeReadsBack(n / 256, k - 1);
      assert LittleEndian(n, k)[1..] == LittleEndian(n / 256, k - 1);
    }
  }

  // ---------- the payload ----------

  /** A string value, with its expiry in milliseconds. */
  datatype Stored = Stored(value: Bytes, expiry: Option<nat>)

  datatype Pair = Pair(key: Bytes, stored: Stored)

  const MAGIC: Bytes := [82, 69, 68, 73, 83, 48, 48, 48, 57]   // REDIS0009

  function ExpiryBytes(e: Option<nat>, now: int): Bytes
  {
    if e.Some? && e.value > now then [0xFC] + LittleEndian(e.value, 8) else []
  }

  function PairBytes(p: Pair, now: int): Bytes
  {
    ExpiryBytes(p.stored.expiry, now) + [0] + StringBytes(p.key) + StringBytes(p.stored.value)
  }

  function PairsBytes(ps: seq<Pair>, now: int): Bytes
  {
    if ps == [] then [] else PairBytes(ps[0], now) + PairsBytes(ps[1..], now)
  }

  /** The payload for the pairs in some order; the checksum is whatever it is. */
  function Payload(ps: seq<Pair>, now: int, checksum: Bytes): Bytes
  {
    if ps == [] then MAGIC + [0xFF] + [0, 0, 0, 0, 0, 0, 0, 0]
    else MAGIC + [0xFE, 0] + ([0xFB] + LengthBytes(|ps|) + LengthBytes(0)) + PairsBytes(ps, now) + [0xFF] + checksum
  }

  lemma LengthsOnTheWire()
    ensures LengthBytes(63) == [63] && LengthBytes(300) == [0x41, 0x2C]
    ensures LengthBytes(100000) == [0x80, 0x00, 0x01, 0x86, 0xA0]
  {
  }

  lemma PairOnTheWire()
    ensures PairBytes(Pair([107], Stored([118], Some(258))), 0) ==
            [0xFC] + [2, 1, 0, 0, 0, 0, 0, 0] + [0] + [1, 107] + [1, 118]
  {
    hide LittleEndian;
    TimeOnTheWire();
    assert StringBytes([107]) == [1, 107] && StringBytes([118]) == [1, 118];
  }

  /** A payload as it goes over the wire: the magic text, database 0, the sizes, a key with its
    * time in milliseconds, and the end mark. */
  lemma PayloadOnTheWire(checksum: Bytes)
    ensures Payload([Pair([107], Stored([118], Some(258)))], 0, checksum) ==
            [82, 69, 68, 73, 83, 48, 48, 48, 57] + [0xFE, 0] + [0xFB, 1, 0] +
            ([0xFC] + [2, 1, 0, 0, 0, 0, 0, 0] + [0] + [1, 107] + [1, 118]) + [0xFF] + checksum
  {
    hide PairBytes;
    var p := Pair([107], Stored([118], Some(258)));
    PairOnTheWire();
    assert PairsBytes([p], 0) == PairBytes(p, 0) + PairsBytes([], 0);
    assert [0xFB] + LengthBytes(1) + LengthBytes(0) == [0xFB, 1, 0];
  }

  lemma TimeOnTheWire()
    ensures LittleEndian(258, 8) == [2, 1, 0, 0, 0, 0, 0, 0]
  {
    assert LittleEndian(0, 3) == [0, 0, 0];
    assert LittleEndian(0, 6) == [0, 0, 0] + LittleEndian(0, 3);
    assert LittleEndian(1, 7) == [1] + LittleEndian(0, 6);
  }

  // ---------- loading ----------

  /** The SET a replica issues. */
  datatype SetCommand = SetCommand(key: Bytes, value: Bytes, px: Option<int>)

  datatype Outcome = Done | TooSmall | BadMagic | Truncated | UnknownOpcode | OtherType

  function Entry(kind: Byte, s: Bytes, expiryMs: int, now: int): (r: (Outcome, Option<SetCommand>, nat))
    ensures r.2 <= |s|
  {
    match ReadString(s)
    case None => (Truncated, None, 0)
    case Some((key, n)) =>
      if kind != 0 then (OtherType, None, n)
      else
        match ReadString(s[n..])
        case None => (Truncated, None, n)
        case Some((value, m)) =>
          (Done, Some(SetCommand(key, value, if expiryMs > 0 && expiryMs > now then Some(expiryMs - now) else None)),
            n + m)
  }

  function LoadEntry(kind: Byte, s: Bytes, expiryMs: int, now: int): (Outcome, seq<SetCommand>)
    decreases |s|, 2
  {
    match Entry(kind, s, expiryMs, now)
    case (Done, Some(c), n) => (var (o, cs) := Load(s[n..], now); (o, [c] + cs))
    case (o, _, _) => (o, [])
  }

  /** What the opcode loop does with the bytes from here on. */
  function Load(s: Bytes, now: int): (Outcome, seq<SetCommand>)
    decreases |s|, 1
  {
    if s == [] then (Done, [])
    else if s[0] == 0xFE then if |s| < 2 then (Truncated, []) else Load(s[2..], now)
    else if s[0] == 0xFB then
      var n := ReadLength(s[1..]).1;
      var m := ReadLength(s[1 + n..]).1;
      Load(s[1 + n + m..], now)
    else if s[0] == 0xFC then
      if |s| < 10 then (Truncated, []) else LoadEntry(s[9], s[10..], ReadLittleEndian(s[1..9]), now)
    else if s[0] == 0xFD then
      if |s| < 6 then (Truncated, []) else LoadEntry(s[5], s[6..], 1000 * ReadLittleEndian(s[1..5]), now)
    else if s[0] == 0xFF then (Done, [])
    else if s[0] > 14 then (UnknownOpcode, [])
    else LoadEntry(s[0], s[1..], 0, now)
  }

  function LoadPayload(s: Bytes, now: int): (Outcome, seq<SetCommand>)
  {
    if |s| < 18 then (TooSmall, [])
    else if s[..5] != MAGIC[..5] then (BadMagic, [])
    else Load(s[9..], now)
  }

  // ---------- what is written is loaded ----------

  /** The command a pair turns into, written at `now` and loaded at `later`. */
  function Restored(p: Pair, now: int, later: int): SetCommand
  {
    var e := p.stored.expiry;
    SetCommand(p.key, p.stored.value,
               if e.Some? && e.value > now && e.value > later && e.value > 0 then Some(e.value - later) else None)
  }

  /** A key's deadline survives exactly if it is still to come both when the payload is written
    * and when it is loaded; otherwise the key comes back and never expires. */
  lemma DeadlineKept(p: Pair, now: nat, later: nat)
    requires p.stored.expiry.Some?
    ensures var e, c := p.stored.expiry.value, Restored(p, now, later);
            && (c.px.Some? && later + c.px.value == e <==> e > now && e > later)
            && (c.px.None? <==> e <= now || e <= later)
  {
  }

  function RestoredAll(ps: seq<Pair>, now: int, later: int): seq<SetCommand>
  {
    if ps == [] then [] else [Restored(ps[0], now, later)] + RestoredAll(ps[1..], now, later)
  }

  /** Sizes the 32-bit form can hold, and times the 64-bit field can. */
  predicate Fits(p: Pair)
  {
    && |p.key| < 0x1_0000_0000 && |p.stored.value| < 0x1_0000_0000
    && (p.stored.expiry.Some? ==> p.stored.expiry.value < 0x8000_0000_0000_0000)
  }

  lemma EntryReadsBack(p: Pair, rest: Bytes, expiryMs: int, later: int)
    requires Fits(p)
    ensures Entry(0, StringBytes(p.key) + StringBytes(p.stored.value) + rest, expiryMs, later) ==
            (Done, Some(SetCommand(p.key, p.stored.value,
                                   if expiryMs > 0 && expiryMs > later then Some(expiryMs - later) else None)),
             |StringBytes(p.key)| + |StringBytes(p.stored.value)|)
  {
    hide StringBytes, ReadString;
    var k, v := StringBytes(p.key), StringBytes(p.stored.value);
    var s := k + v + rest;
    assert s == k + (v + rest);
    StringReadsBack(p.key, v + rest);
    StringReadsBack(p.stored.value, rest);
    assert s[|k|..] == v + rest;
  }

  /** An entry behind its opcode is issued and loading goes on behind it. */
  lemma EntryLoads(p: Pair, expiryMs: int, later: int, rest: Bytes)
    requires Fits(p)
    ensures LoadEntry(0, StringBytes(p.key) + StringBytes(p.stored.value) + rest, expiryMs, later) ==
            (var (o, cs) := Load(rest, later);
             (o, [SetCommand(p.key, p.stored.value,
                             if expiryMs > 0 && expiryMs > later then Some(expiryMs - later) else None)] + cs))
  {
    hide StringBytes, Entry, Load;
    var kv := StringBytes(p.key) + StringBytes(p.stored.value);
    EntryReadsBack(p, rest, expiryMs, later);
    assert (kv + rest)[|kv|..] == rest;
  }

  /** A time in seconds, which this master does not write, counts as that many thousands of milliseconds. */
  lemma SecondsLoad(p: Pair, seconds: nat, later: int, rest: Bytes)
    requires Fits(p) && seconds < 0x1_0000_0000
    ensures var ms, kv := 1000 * seconds, StringBytes(p.key) + StringBytes(p.stored.value);
            Load([0xFD] + LittleEndian(seconds, 4) + [0] + (kv + rest), later)
            == (var (o, cs) := Load(rest, later);
                (o, [SetCommand(p.key, p.stored.value, if ms > 0 && ms > later then Some(ms - later) else None)] + cs))
  {
    hide StringBytes, LoadEntry, ReadLittleEndian, LittleEndian, ReadLength;
    var kv := StringBytes(p.key) + StringBytes(p.stored.value);
    var time := LittleEndian(seconds, 4);
    FourByteTime(seconds);
    var s := [0xFD] + time + [0] + (kv + rest);
    assert s[1..5] == time && s[5] == 0 && s[6..] == kv + rest;
    EntryLoads(p, 1000 * seconds, later, rest);
  }

  lemma FourByteTime(n: nat)
    requires n < 0x1_0000_0000
    ensures |LittleEndian(n, 4)| == 4 && ReadLittleEndian(LittleEndian(n, 4)) == n
  {
    TimeReadsBack(n, 4) by { assert Pow256(4) == 0x1_0000_0000; }
  }

  lemma PairReadsBack(p: Pair, now: int, later: int, rest: Bytes)
    requires Fits(p)
    ensures Load(PairBytes(p, now) + rest, later) ==
            (var (o, cs) := Load(rest, later); (o, [Restored(p, now, later)] + cs))
  {
    hide StringBytes, LoadEntry, ReadLittleEndian, LittleEndian, ReadLength;
    var kv := StringBytes(p.key) + StringBytes(p.stored.value);
    var e := p.stored.expiry;
    var s := PairBytes(p, now) + rest;
    if e.Some? && e.value > now {
      var time := LittleEndian(e.value, 8);
      TimeReadsBack(e.value, 8) by { assert Pow256(8) == 0x1_0000_0000_0000_0000; }
      TimeSize(e.value);
      assert s == [0xFC] + time + [0] + (kv + rest);
      assert s[1..9] == time && s[9] == 0 && s[10..] == kv + rest;
      EntryLoads(p, e.value, later, rest);
    } else {
      assert s == [0] + (kv + rest);
      assert s[1..] == kv + rest;
      EntryLoads(p, 0, later, rest);
    }
  }

  lemma TimeSize(n: nat)
    ensures |LittleEndian(n, 8)| == 8
  {
  }

  lemma {:induction false} PairsReadBack(ps: seq<Pair>, now: int, later: int, rest: Bytes)
    requires forall i :: 0 <= i < |ps| ==> Fits(ps[i])
    ensures Load(PairsBytes(ps, now) + rest, later) ==
            (var (o, cs) := Load(rest, later); (o, RestoredAll(ps, now, later) + cs))
    decreases |ps|
  {
    hide PairBytes, Load, Restored;
    var (o, cs) := Load(rest, later);
    if ps == [] {
      assert PairsBytes(ps, now) + rest == rest;
      assert [] + cs == cs;
    } else {
      assert PairsBytes(ps, now) + rest == PairBytes(ps[0], now) + (PairsBytes(ps[1..], now) + rest);
      PairReadsBack(ps[0], now, later, PairsBytes(ps[1..], now) + rest);
      PairsReadBack(ps[1..], now, later, rest);
      assert [Restored(ps[0], now, later)] + (RestoredAll(ps[1..], now, later) + cs) ==
             RestoredAll(ps, now, later) + cs;
    }
  }

  lemma LoadSelect(t: Bytes, now: int)
    ensures Load([0xFE, 0] + t, now) == Load(t, now)
  {
    assert ([0xFE, 0] + t)[2..] == t;
  }

  lemma LoadResize(a: nat, b: nat, t: Bytes, now: int)
    ensures Load([0xFB] + LengthBytes(a) + LengthBytes(b) + t, now) == Load(t, now)
  {
    hide LengthBytes, ReadLength;
    var x, y := LengthBytes(a), LengthBytes(b);
    var s := [0xFB] + x + y + t;
    LengthReadsBack(a, y + t);
    LengthReadsBack(b, t);
    assert s[1..] == x + (y + t);
    assert s[1 + |x|..] == y + t;
    assert s[1 + |x| + |y|..] == t;
  }

  lemma LoadEnd(t: Bytes, now: int)
    ensures Load([0xFF] + t, now) == (Done, [])
  {
  }

  /** A payload loads as one SET per pair, in the order written, whatever its checksum. */
  lemma PayloadLoads(ps: seq<Pair>, now: int, later: int, checksum: Bytes)
    requires |checksum| == 8 && forall i :: 0 <= i < |ps| ==> Fits(ps[i])
    ensures LoadPayload(Payload(ps, now, checksum), later) == (Done, RestoredAll(ps, now, later))
  {
    hide PairsBytes, LengthBytes, ReadLength, RestoredAll, Load, Fits;
    var s := Payload(ps, now, checksum);
    if ps == [] {
      var zeros: Bytes := [0, 0, 0, 0, 0, 0, 0, 0];
      assert s == MAGIC + ([0xFF] + zeros);
      LoadBehindMagic([0xFF] + zeros, later);
      LoadEnd(zeros, later);
      RestoredNone(now, later);
    } else {
      var end := [0xFF] + checksum;
      var body := PairsBytes(ps, now) + end;
      var t := [0xFB] + LengthBytes(|ps|) + LengthBytes(0) + body;
      assert s == MAGIC + ([0xFE, 0] + t);
      LoadBehindMagic([0xFE, 0] + t, later);
      LoadSelect(t, later);
      LoadResize(|ps|, 0, body, later);
      PairsReadBack(ps, now, later, end);
      LoadEnd(checksum, later);
      assert RestoredAll(ps, now, later) + [] == RestoredAll(ps, now, later);
    }
  }

  lemma LoadBehindMagic(t: Bytes, now: int)
    requires |t| >= 9
    ensures LoadPayload(MAGIC + t, now) == Load(t, now)
  {
    hide Load;
    var s := MAGIC + t;
    assert s[..5] == MAGIC[..5] && s[9..] == t;
  }

  lemma RestoredNone(now: int, later: int)
    ensures RestoredAll([], now, later) == []
  {
  }

  // ---------- the writer ----------

  class Buffer {
    var bytes: Bytes

    constructor (bytes: Bytes)
      ensures this.bytes == bytes
    {
      this.bytes := bytes;
    }

    method Write(more: Bytes)
      modifies this
      ensures bytes == old(bytes) + more
    {
      bytes := bytes + more;
    }

    method WriteLength(n: nat)
      modifies this
      ensures bytes == old(bytes) + LengthBytes(n)
    {
      if n < 64 {
        bytes := bytes + [n];
      } else if n < 16384 {
        bytes := bytes + [0x40 + n / 256];
        bytes := bytes + [n % 256];
      } else {
        bytes := bytes + [0x80];
        bytes := bytes + [n / 0x100_0000 % 256, n / 0x1_0000 % 256, n / 0x100 % 256, n % 256];
      }
    }

    method WriteString(x: Bytes)
      modifies this
      ensures bytes == old(bytes) + StringBytes(x)
    {
      WriteLength(|x|);
      bytes := bytes + x;
    }

    method WritePair(key: Bytes, stored: Stored, now: int)
      modifies this
      ensures bytes == old(bytes) + PairBytes(Pair(key, stored), now)
    {
      hide LengthBytes;
      if stored.expiry.Some? && stored.expiry.value > now {
        Write([0xFC]);
        Write(LittleEndian(stored.expiry.value, 8));
      }
      assert bytes == old(bytes) + ExpiryBytes(stored.expiry, now);
      Write([0]);
      WriteString(key);
      WriteString(stored.value);
    }
  }

  /** The pairs of a map, each once, in some order. */
  ghost predicate Lists(ps: seq<Pair>, data: map<Bytes, Stored>)
  {
    && |ps| == |data|
    && (forall i :: 0 <= i < |ps| ==> ps[i].key in data && data[ps[i].key] == ps[i].stored)
    && forall k :: k in data ==> Pair(k, data[k]) in ps
  }

  lemma {:induction false} PairsSnoc(ps: seq<Pair>, p: Pair, now: int)
    ensures PairsBytes(ps + [p], now) == PairsBytes(ps, now) + PairBytes(p, now)
    decreases |ps|
  {
    hide PairBytes;
    if ps == [] {
      assert [] + [p] == [p] && [p][1..] == [];
      assert PairsBytes([], now) == [];
    } else {
      assert (ps + [p])[1..] == ps[1..] + [p];
      PairsSnoc(ps[1..], p, now);
    }
  }

  /** The payload for a store of strings, in the iteration order of its map. */
  method GenerateRdb(data: map<Bytes, Stored>, now: int, checksum: Bytes) returns (rdb: Bytes, ghost order: seq<Pair>)
    ensures rdb == Payload(order, now, checksum) && Lists(order, data)
  {
    hide LengthBytes, PairBytes, PairsBytes, Lists;
    if |data| == 0 {
      ListsNone(data);
      return MAGIC + [0xFF] + [0, 0, 0, 0, 0, 0, 0, 0], [];
    }
    var buf := new Buffer(MAGIC);
    buf.Write([0xFE, 0]);
    buf.Write([0xFB]);
    buf.WriteLength(|data|);
    buf.WriteLength(0);
    ghost var head := MAGIC + [0xFE, 0] + ([0xFB] + LengthBytes(|data|) + LengthBytes(0));
    assert buf.bytes == head;
    order := WritePairs(buf, data, now);
    ListsSize(order, data);
    buf.Write([0xFF]);
    buf.Write(checksum);
    assert buf.bytes == head + PairsBytes(order, now) + [0xFF] + checksum;
    return buf.bytes, order;
  }

  lemma ListsNone(data: map<Bytes, Stored>)
    requires |data| == 0
    ensures Lists([], data)
  {
  }

  lemma ListsSize(ps: seq<Pair>, data: map<Bytes, Stored>)
    requires Lists(ps, data)
    ensures |ps| == |data|
  {
  }

  method WritePairs(buf: Buffer, data: map<Bytes, Stored>, now: int) returns (ghost order: seq<Pair>)
    modifies buf
    ensures buf.bytes == old(buf.bytes) + PairsBytes(order, now) && Lists(order, data)
  {
    hide PairBytes, PairsBytes;
    order := [];
    NoPairs(now);
    var todo := data;
    while |todo| > 0
      invariant forall k :: k in todo ==> k in data && todo[k] == data[k]
      invariant |order| + |todo| == |data|
      invariant forall i :: 0 <= i < |order| ==> order[i].key in data && data[order[i].key] == order[i].stored
      invariant forall k :: k in data && k !in todo ==> Pair(k, data[k]) in order
      invariant buf.bytes == old(buf.bytes) + PairsBytes(order, now)
      decreases |todo|
    {
      ghost var _ := SomeKey(todo);
      var k :| k in todo;
      buf.WritePair(k, todo[k], now);
      PairsSnoc(order, Pair(k, todo[k]), now);
      SmallerBy(todo, k);
      order := order + [Pair(k, todo[k])];
      todo := todo - {k};
    }
    NoKeys(todo);
  }

  lemma NoPairs(now: int)
    ensures PairsBytes([], now) == []
  {
  }

  lemma SomeKey(m: map<Bytes, Stored>) returns (k: Bytes)
    requires |m| > 0
    ensures k in m
  {
    assert m.Keys != {};
    k :| k in m.Keys;
  }

  lemma NoKeys(m: map<Bytes, Stored>)
    requires |m| == 0
    ensures forall k :: k !in m
  {
    assert |m.Keys| == 0;
  }

  lemma SmallerBy(m: map<Bytes, Stored>, k: Bytes)
    requires k in m
    ensures |m - {k}| == |m| - 1
  {
    assert (m - {k}).Keys == m.Keys - {k};
    assert |m.Keys| == |m| && |(m - {k}).Keys| == |m - {k}|;
  }

  // ---------- the loader ----------

  /** The opcode loop with a position into the data. */
  method LoadRdb(data: Bytes, now: int) returns (o: Outcome, commands: seq<SetCommand>)
    ensures (o, commands) == LoadPayload(data, now)
  {
    hide Entry, ReadLength, ReadLittleEndian, Load;
    commands := [];
    if |data| < 18 {
      return TooSmall, [];
    }
    if data[..5] != MAGIC[..5] {
      return BadMagic, [];
    }
    var pos := 9;
    JoinedNothing(Load(data[9..], now));
    while pos < |data|
      invariant 9 <= pos <= |data| && Load(data[9..], now) == Joined(commands, Load(data[pos..], now))
      decreases |data| - pos
    {
      var rest := data[pos..];
      var step := Opcode(rest, now);
      OpcodeStep(rest, now, commands);
      match step {
        case Stop(end) => return end, commands;
        case Skip(n) => assert rest[n..] == data[pos + n..]; pos := pos + n;
        case Issue(c, n) => assert rest[n..] == data[pos + n..]; commands := commands + [c]; pos := pos + n;
      }
    }
    LoadNothing(now);
    assert data[pos..] == [] && commands + [] == commands;
    return Done, commands;
  }

  /** What one round of the loop does: stop, move on, or issue a command and move on. */
  datatype Round = Stop(end: Outcome) | Skip(n: nat) | Issue(c: SetCommand, n: nat)

  function FromEntry(kind: Byte, s: Bytes, expiryMs: int, now: int, before: nat): Round
  {
    match Entry(kind, s, expiryMs, now)
    case (Done, Some(c), n) => Issue(c, before + n)
    case (o, _, _) => Stop(o)
  }

  function Opcode(s: Bytes, now: int): (r: Round)
    requires s != []
    ensures (r.Skip? || r.Issue?) ==> 0 < r.n <= |s|
  {
    if s[0] == 0xFE then if |s| < 2 then Stop(Truncated) else Skip(2)
    else if s[0] == 0xFB then
      var n := ReadLength(s[1..]).1;
      Skip(1 + n + ReadLength(s[1 + n..]).1)
    else if s[0] == 0xFC then
      if |s| < 10 then Stop(Truncated) else FromEntry(s[9], s[10..], ReadLittleEndian(s[1..9]), now, 10)
    else if s[0] == 0xFD then
      if |s| < 6 then Stop(Truncated) else FromEntry(s[5], s[6..], 1000 * ReadLittleEndian(s[1..5]), now, 6)
    else if s[0] == 0xFF then Stop(Done)
    else if s[0] > 14 then Stop(UnknownOpcode)
    else FromEntry(s[0], s[1..], 0, now, 1)
  }

  ghost function Joined(cs: seq<SetCommand>, r: (Outcome, seq<SetCommand>)): (Outcome, seq<SetCommand>)
  {
    (r.0, cs + r.1)
  }

  lemma JoinedNothing(r: (Outcome, seq<SetCommand>))
    ensures Joined([], r) == r
  {
    assert [] + r.1 == r.1;
  }

  lemma LoadNothing(now: int)
    ensures Load([], now) == (Done, [])
  {
  }

  lemma EntryStep(kind: Byte, s: Bytes, expiryMs: int, now: int, before: nat, all: Bytes, cs: seq<SetCommand>)
    requires before <= |all| && all[before..] == s
    ensures var r := FromEntry(kind, s, expiryMs, now, before);
            && (r.Stop? ==> Joined(cs, LoadEntry(kind, s, expiryMs, now)) == (r.end, cs))
            && (r.Issue? ==>
                  && r.n <= |all|
                  && Joined(cs, LoadEntry(kind, s, expiryMs, now)) == Joined(cs + [r.c], Load(all[r.n..], now)))
            && !r.Skip?
  {
    hide Load;
    var r := FromEntry(kind, s, expiryMs, now, before);
    if r.Issue? {
      var tail := s[r.n - before..];
      assert tail == all[r.n..];
      assert cs + ([r.c] + Load(tail, now).1) == cs + [r.c] + Load(tail, now).1;
    } else {
      assert cs + [] == cs;
    }
  }

  lemma OpcodeStep(s: Bytes, now: int, cs: seq<SetCommand>)
    requires s != []
    ensures var r := Opcode(s, now);
            && (r.Stop? ==> Joined(cs, Load(s, now)) == (r.end, cs))
            && (r.Skip? ==> Load(s, now) == Load(s[r.n..], now))
            && (r.Issue? ==> Joined(cs, Load(s, now)) == Joined(cs + [r.c], Load(s[r.n..], now)))
  {
    hide Entry, ReadLength, ReadLittleEndian, LoadEntry;
    assert cs + [] == cs;
    if s[0] == 0xFC && |s| >= 10 {
      EntryStep(s[9], s[10..], ReadLittleEndian(s[1..9]), now, 10, s, cs);
    } else if s[0] == 0xFD && |s| >= 6 {
      EntryStep(s[5], s[6..], 1000 * ReadLittleEndian(s[1..5]), now, 6, s, cs);
    } else if s[0] <= 14 {
      EntryStep(s[0], s[1..], 0, now, 1, s, cs);
    }
  }

  // ---------- a full resync ----------

  lemma {:induction false} RestoredAt(ps: seq<Pair>, now: int, later: int)
    ensures |RestoredAll(ps, now, later)| == |ps|
    ensures forall i :: 0 <= i < |ps| ==> RestoredAll(ps, now, later)[i] == Restored(ps[i], now, later)
  {
    if ps != [] { RestoredAt(ps[1..], now, later); }
  }

  /** A key that expired at 5 is written at 10, loaded at 11, and stays for ever. */
  lemma ExpiredLivesOn(key: Bytes, value: Bytes, checksum: Bytes)
    requires |key| < 0x1_0000_0000 && |value| < 0x1_0000_0000 && |checksum| == 8
    ensures LoadPayload(Payload([Pair(key, Stored(value, Some(5)))], 10, checksum), 11) ==
            (Done, [SetCommand(key, value, None)])
  {
    hide Payload, LoadPayload, RestoredAll;
    var ps := [Pair(key, Stored(value, Some(5)))];
    PayloadLoads(ps, 10, 11, checksum);
    RestoredAt(ps, 10, 11);
    assert RestoredAll(ps, 10, 11) == [SetCommand(key, value, None)];
  }

  /** Master to replica: one SET for every key with its value, and nothing else, whatever the
    * iteration order. The SET carries what is left of the key's time exactly if the deadline
    * lies after both moments; a key already expired at either is set without any. */
  method FullResync(data: map<Bytes, Stored>, now: nat, later: nat, checksum: Bytes)
    returns (o: Outcome, commands: seq<SetCommand>)
    requires |checksum| == 8 && forall k :: k in data ==> Fits(Pair(k, data[k]))
    ensures o == Done && |commands| == |data|
    ensures forall k :: k in data ==> Restored(Pair(k, data[k]), now, later) in commands
    ensures forall i :: 0 <= i < |commands| ==>
              commands[i].key in data && commands[i] ==
                Restored(Pair(commands[i].key, data[commands[i].key]), now, later)
    ensures forall i :: 0 <= i < |commands| && commands[i].key in data ==>
              var e := data[commands[i].key].expiry;
              && (commands[i].px.Some? <==> e.Some? && e.value > now && e.value > later)
              && (commands[i].px.Some? ==> later + commands[i].px.value == e.value)
  {
    hide Payload, LoadPayload, RestoredAll;
    var rdb, order := GenerateRdb(data, now, checksum);
    o, commands := LoadRdb(rdb, later);
    PayloadLoads(order, now, later, checksum);
    RestoredAt(order, now, later);
    forall k | k in data ensures Restored(Pair(k, data[k]), now, later) in commands {
      var i :| 0 <= i < |order| && order[i] == Pair(k, data[k]);
      assert commands[i] == Restored(order[i], now, later);
    }
  }
}
