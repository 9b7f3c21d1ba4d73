/** The key checksum: the table-driven loop computes CRC-16/XMODEM. */
module Crc16s {
  type Bytes = seq<bv8>

  // ---------- bit by bit: polynomial 0x1021, initial value 0 ----------

  function Xor(a: bv16, b: bv16): bv16
  {
    a ^ b
  }

  predicate Top(c: bv16)
  {
    c & 0x8000 != 0
  }

  function Up(c: bv16): bv16
  {
    c << 1
  }

  function Up8(c: bv16): bv16
  {
    c << 8
  }

  function Shifted(c: bv16): bv16
  {
    if Top(c) then Xor(Up(c), 0x1021) else Up(c)
  }

  function Shifted8(c: bv16): bv16
  {
    Shifted(Shifted(Shifted(Shifted(Shifted(Shifted(Shifted(Shifted(c))))))))
  }

  function Serial(data: Bytes): bv16
  {
    if data == [] then 0
    else Shifted8(Xor(Serial(data[..|data| - 1]), Up8(data[|data| - 1] as bv16)))
  }

  // ---------- with the table ----------

  const TABLE: seq<seq<bv16>> := [
    [0x0000, 0x1021, 0x2042, 0x3063, 0x4084, 0x50a5, 0x60c6, 0x70e7, 0x8108, 0x9129, 0xa14a, 0xb16b, 0xc18c, 0xd1ad, 0xe1ce, 0xf1ef],
    [0x1231, 0x0210, 0x3273, 0x2252, 0x52b5, 0x4294, 0x72f7, 0x62d6, 0x9339, 0x8318, 0xb37b, 0xa35a, 0xd3bd, 0xc39c, 0xf3ff, 0xe3de],
    [0x2462, 0x3443, 0x0420, 0x1401, 0x64e6, 0x74c7, 0x44a4, 0x5485, 0xa56a, 0xb54b, 0x8528, 0x9509, 0xe5ee, 0xf5cf, 0xc5ac, 0xd58d],
    [0x3653, 0x2672, 0x1611, 0x0630, 0x76d7, 0x66f6, 0x5695, 0x46b4, 0xb75b, 0xa77a, 0x9719, 0x8738, 0xf7df, 0xe7fe, 0xd79d, 0xc7bc],
    [0x48c4, 0x58e5, 0x6886, 0x78a7, 0x0840, 0x1861, 0x2802, 0x3823, 0xc9cc, 0xd9ed, 0xe98e, 0xf9af, 0x8948, 0x9969, 0xa90a, 0xb92b],
    [0x5af5, 0x4ad4, 0x7ab7, 0x6a96, 0x1a71, 0x0a50, 0x3a33, 0x2a12, 0xdbfd, 0xcbdc, 0xfbbf, 0xeb9e, 0x9b79, 0x8b58, 0xbb3b, 0xab1a],
    [0x6ca6, 0x7c87, 0x4ce4, 0x5cc5, 0x2c22, 0x3c03, 0x0c60, 0x1c41, 0xedae, 0xfd8f, 0xcdec, 0xddcd, 0xad2a, 0xbd0b, 0x8d68, 0x9d49],
    [0x7e97, 0x6eb6, 0x5ed5, 0x4ef4, 0x3e13, 0x2e32, 0x1e51, 0x0e70, 0xff9f, 0xefbe, 0xdfdd, 0xcffc, 0xbf1b, 0xaf3a, 0x9f59, 0x8f78],
    [0x9188, 0x81a9, 0xb1ca, 0xa1eb, 0xd10c, 0xc12d, 0xf14e, 0xe16f, 0x1080, 0x00a1, 0x30c2, 0x20e3, 0x5004, 0x4025, 0x7046, 0x6067],
    [0x83b9, 0x9398, 0xa3fb, 0xb3da, 0xc33d, 0xd31c, 0xe37f, 0xf35e, 0x02b1, 0x1290, 0x22f3, 0x32d2, 0x4235, 0x5214, 0x6277, 0x7256],
    [0xb5ea, 0xa5cb, 0x95a8, 0x8589, 0xf56e, 0xe54f, 0xd52c, 0xc50d, 0x34e2, 0x24c3, 0x14a0, 0x0481, 0x7466, 0x6447, 0x5424, 0x4405],
    [0xa7db, 0xb7fa, 0x8799, 0x97b8, 0xe75f, 0xf77e, 0xc71d, 0xd73c, 0x26d3, 0x36f2, 0x0691, 0x16b0, 0x6657, 0x7676, 0x4615, 0x5634],
    [0xd94c, 0xc96d, 0xf90e, 0xe92f, 0x99c8, 0x89e9, 0xb98a, 0xa9ab, 0x5844, 0x4865, 0x7806, 0x6827, 0x18c0, 0x08e1, 0x3882, 0x28a3],
    [0xcb7d, 0xdb5c, 0xeb3f, 0xfb1e, 0x8bf9, 0x9bd8, 0xabbb, 0xbb9a, 0x4a75, 0x5a54, 0x6a37, 0x7a16, 0x0af1, 0x1ad0, 0x2ab3, 0x3a92],
    [0xfd2e, 0xed0f, 0xdd6c, 0xcd4d, 0xbdaa, 0xad8b, 0x9de8, 0x8dc9, 0x7c26, 0x6c07, 0x5c64, 0x4c45, 0x3ca2, 0x2c83, 0x1ce0, 0x0cc1],
    [0xef1f, 0xff3e, 0xcf5d, 0xdf7c, 0xaf9b, 0xbfba, 0x8fd9, 0x9ff8, 0x6e17, 0x7e36, 0x4e55, 0x5e74, 0x2e93, 0x3eb2, 0x0ed1, 0x1ef0]
  ]

  function Entry(i: nat): bv16
    requires i < 256
  {
    TABLE[i / 16][i % 16]
  }

  // ---------- the table is right ----------

  lemma Entries0(b: bv16)
    requires b < 16
    ensures (b as int) < 256 && Entry(b as int) == Shifted8(Up8(b))
  {
  }

  lemma Entries16(b: bv16)
    requires 16 <= b < 32
    ensures (b as int) < 256 && Entry(b as int) == Shifted8(Up8(b))
  {
  }

  lemma Entries32(b: bv16)
    requires 32 <= b < 48
    ensures (b as int) < 256 && Entry(b as int) == Shifted8(Up8(b))
  {
  }

  lemma Entries48(b: bv16)
    requires 48 <= b < 64
    ensures (b as int) < 256 && Entry(b as int) == Shifted8(Up8(b))
  {
  }

  lemma Entries64(b: bv16)
    requires 64 <= b < 80
    ensures (b as int) < 256 && Entry(b as int) == Shifted8(Up8(b))
  {
  }

  lemma Entries80(b: bv16)
    requires 80 <= b < 96
    ensures (b as int) < 256 && Entry(b as int) == Shifted8(Up8(b))
  {
  }

  lemma Entries96(b: bv16)
    requires 96 <= b < 112
    ensures (b as int) < 256 && Entry(b as int) == Shifted8(Up8(b))
  {
  }

  lemma Entries112(b: bv16)
    requires 112 <= b < 128
    ensures (b as int) < 256 && Entry(b as int) == Shifted8(Up8(b))
  {
  }

  lemma Entries128(b: bv16)
    requires 128 <= b < 144
    ensures (b as int) < 256 && Entry(b as int) == Shifted8(Up8(b))
  {
  }

  lemma Entries144(b: bv16)
    requires 144 <= b < 160
    ensures (b as int) < 256 && Entry(b as int) == Shifted8(Up8(b))
  {
  }

  lemma Entries160(b: bv16)
    requires 160 <= b < 176
    ensures (b as int) < 256 && Entry(b as int) == Shifted8(Up8(b))
  {
  }

  lemma Entries176(b: bv16)
    requires 176 <= b < 192
    ensures (b as int) < 256 && Entry(b as int) == Shifted8(Up8(b))
  {
  }

  lemma Entries192(b: bv16)
    requires 192 <= b < 208
    ensures (b as int) < 256 && Entry(b as int) == Shifted8(Up8(b))
  {
  }

  lemma Entries208(b: bv16)
    requires 208 <= b < 224
    ensures (b as int) < 256 && Entry(b as int) == Shifted8(Up8(b))
  {
  }

  lemma Entries224(b: bv16)
    requires 224 <= b < 240
    ensures (b as int) < 256 && Entry(b as int) == Shifted8(Up8(b))
  {
  }

  lemma Entries240(b: bv16)
    requires 240 <= b < 256
    ensures (b as int) < 256 && Entry(b as int) == Shifted8(Up8(b))
  {
  }

  lemma EntryRight(b: bv16)
    requires b < 256
    ensures (b as int) < 256 && Entry(b as int) == Shifted8(Up8(b))
  {
    hide Entry, Shifted8, Up8;
    if b < 16 { Entries0(b); } else if b < 32 { Entries16(b); }
    else if b < 48 { Entries32(b); } else if b < 64 { Entries48(b); }
    else if b < 80 { Entries64(b); } else if b < 96 { Entries80(b); }
    else if b < 112 { Entries96(b); } else if b < 128 { Entries112(b); }
    else if b < 144 { Entries128(b); } else if b < 160 { Entries144(b); }
    else if b < 176 { Entries160(b); } else if b < 192 { Entries176(b); }
    else if b < 208 { Entries192(b); } else if b < 224 { Entries208(b); }
    else if b < 240 { Entries224(b); } else { Entries240(b); }
  }

  // ---------- and one lookup does the work of eight shifts ----------

  lemma XorSwaps(a: bv16, b: bv16)
    ensures Xor(a, b) == Xor(b, a)
  {
  }

  lemma XorMoves(a: bv16, b: bv16, k: bv16)
    ensures Xor(Xor(a, b), k) == Xor(a, Xor(b, k))
  {
  }

  lemma XorUndoes(a: bv16, k: bv16)
    ensures Xor(k, Xor(a, k)) == a
  {
  }

  lemma XorLaws(a: bv16, b: bv16, k: bv16)
    ensures Xor(Xor(a, k), b) == Xor(Xor(a, b), k) == Xor(a, Xor(b, k))
    ensures Xor(Xor(a, k), Xor(b, k)) == Xor(a, b)
  {
    hide Xor;
    XorMoves(a, b, k);
    XorMoves(a, k, b);
    XorSwaps(k, b);
    XorMoves(a, k, Xor(b, k));
    XorUndoes(b, k);
  }

  lemma UpXor(x: bv16, y: bv16)
    ensures Up(Xor(x, y)) == Xor(Up(x), Up(y))
  {
  }

  lemma TopXor(x: bv16, y: bv16)
    ensures Top(Xor(x, y)) <==> Top(x) != Top(y)
  {
  }

  lemma ShiftedXor(x: bv16, y: bv16)
    ensures Shifted(Xor(x, y)) == Xor(Shifted(x), Shifted(y))
  {
    hide Top, Up, Xor;
    UpXor(x, y);
    TopXor(x, y);
    XorLaws(Up(x), Up(y), 0x1021);
  }

  lemma Shifted8Xor(x: bv16, y: bv16)
    ensures Shifted8(Xor(x, y)) == Xor(Shifted8(x), Shifted8(y))
  {
    hide Shifted, Xor;
    var x1, y1 := Shifted(x), Shifted(y);
    var x2, y2 := Shifted(x1), Shifted(y1);
    var x3, y3 := Shifted(x2), Shifted(y2);
    var x4, y4 := Shifted(x3), Shifted(y3);
    var x5, y5 := Shifted(x4), Shifted(y4);
    var x6, y6 := Shifted(x5), Shifted(y5);
    var x7, y7 := Shifted(x6), Shifted(y6);
    ShiftedXor(x, y);
    ShiftedXor(x1, y1);
    ShiftedXor(x2, y2);
    ShiftedXor(x3, y3);
    ShiftedXor(x4, y4);
    ShiftedXor(x5, y5);
    ShiftedXor(x6, y6);
    ShiftedXor(x7, y7);
  }

  lemma LowByte(l: bv16)
    requires l < 256
    ensures Shifted8(l) == Up8(l)
  {
  }

  /** The table index for a byte, and what is left of the register. */
  function Index(c: bv16, b: bv16): bv16
  {
    ((c >> 8) ^ b) & 0xFF
  }

  function Low(c: bv16): bv16
  {
    c & 0xFF
  }

  lemma Split(c: bv16, b: bv16)
    requires b < 256
    ensures Xor(c, Up8(b)) == Xor(Up8(Index(c, b)), Low(c))
  {
    hide Xor, Up8, Index, Low;
    var h := c >> 8;
    Halves(c);
    IndexForm(c, b);
    Up8Xor(h, b);
    XorLaws(Up8(h), Up8(b), Low(c));
  }

  lemma Halves(c: bv16)
    ensures c == Xor(Up8(c >> 8), Low(c))
  {
  }

  lemma IndexForm(c: bv16, b: bv16)
    requires b < 256
    ensures Index(c, b) == Xor(c >> 8, b)
  {
  }

  lemma Up8Xor(x: bv16, y: bv16)
    ensures Up8(Xor(x, y)) == Xor(Up8(x), Up8(y))
  {
  }

  lemma SplitSizes(c: bv16, b: bv16)
    ensures Up8(Low(c)) == Up8(c) && Low(c) < 256 && Index(c, b) < 256
  {
  }

  lemma OneLookup(c: bv16, b: bv16)
    requires b < 256
    ensures Shifted8(Xor(c, Up8(b))) == Xor(Up8(c), Shifted8(Up8(Index(c, b))))
  {
    hide Shifted8, Xor, Up8, Index, Low;
    Split(c, b);
    SplitSizes(c, b);
    Shifted8Xor(Up8(Index(c, b)), Low(c));
    LowByte(Low(c));
    XorSwaps(Shifted8(Up8(Index(c, b))), Up8(c));
  }

  /** The table-driven loop computes the bit-by-bit checksum of every byte string. */
  method Crc16(data: Bytes) returns (crc: bv16)
    ensures crc == Serial(data)
  {
    hide Entry, Shifted8, Xor, Index, Up8;
    crc := 0;
    for i := 0 to |data|
      invariant crc == Serial(data[..i])
    {
      var b := data[i] as bv16;
      OneLookup(crc, b);
      SplitSizes(crc, b);
      EntryRight(Index(crc, b));
      assert data[..i + 1][..i] == data[..i];
      crc := Xor(Up8(crc), Entry(Index(crc, b) as int));
    }
    assert data[..|data|] == data;
  }
}
