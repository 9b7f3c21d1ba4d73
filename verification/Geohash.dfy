/** Geohashes: longitude and latitude as interleaved 26-bit fractions, over exact reals. */
module Geohashes {
  import opened Powers

  const STEP: nat := 26

  function Pow4(n: nat): nat
  {
    if n == 0 then 1 else 4 * Pow4(n - 1)
  }

  /** Bit i of a number. */
  function Bit(a: nat, i: nat): nat
  {
    if i == 0 then a % 2 else Bit(a / 2, i - 1)
  }

  /** x shifted left i places. */
  function Place(x: nat, i: nat): nat
  {
    if i == 0 then x else 2 * Place(x, i - 1)
  }

  // ---------- the bits ----------

  /** The n low bits of a in the even places and those of b in the odd ones. */
  function Interleave(a: nat, b: nat, n: nat): nat
    decreases n
  {
    if n == 0 then 0 else a % 2 + 2 * (b % 2) + 4 * Interleave(a / 2, b / 2, n - 1)
  }

  function Evens(h: nat, n: nat): nat
    decreases n
  {
    if n == 0 then 0 else h % 2 + 2 * Evens(h / 4, n - 1)
  }

  lemma PairParts(x: nat, y: nat, rest: nat)
    requires x < 2 && y < 2
    ensures var h := x + 2 * y + 4 * rest;
            h % 2 == x && h / 4 == rest && h / 2 % 2 == y && h / 2 / 4 == rest / 2
  {
  }

  lemma {:induction false} Separates(a: nat, b: nat, n: nat)
    requires a < Pow2(n) && b < Pow2(n)
    ensures Evens(Interleave(a, b, n), n) == a && Evens(Interleave(a, b, n) / 2, n) == b &&
            Interleave(a, b, n) < Pow4(n)
    decreases n
  {
    if n > 0 {
      Separates(a / 2, b / 2, n - 1);
      PairParts(a % 2, b % 2, Interleave(a / 2, b / 2, n - 1));
    }
  }

  lemma Quarter(h: nat)
    ensures h / 2 / 2 == h / 4
  {
    assert h == 2 * (h / 2) + h % 2 && h / 2 == 2 * (h / 2 / 2) + h / 2 % 2;
  }

  lemma HashParts(h: nat)
    ensures h == h % 2 + 2 * (h / 2 % 2) + 4 * (h / 4) && h / 2 / 4 == h / 4 / 2
  {
    Quarter(h);
    Quarter(h / 2);
  }

  /** The other way round: every hash comes from the two numbers it separates into. */
  lemma {:induction false} Rejoins(h: nat, n: nat)
    requires h < Pow4(n)
    ensures Interleave(Evens(h, n), Evens(h / 2, n), n) == h && Evens(h, n) < Pow2(n) && Evens(h / 2, n) < Pow2(n)
    decreases n
  {
    if n > 0 {
      Rejoins(h / 4, n - 1);
      HashParts(h);
      Halved(h % 2, Evens(h / 4, n - 1));
      Halved(h / 2 % 2, Evens(h / 4 / 2, n - 1));
    }
  }

  lemma Halved(x: nat, rest: nat)
    requires x < 2
    ensures (x + 2 * rest) % 2 == x && (x + 2 * rest) / 2 == rest
  {
  }

  /** Bits above the n lowest do not take part. */
  lemma {:induction false} Overflow(a: nat, b: nat, n: nat)
    ensures Interleave(a + Pow2(n), b, n) == Interleave(a, b, n) && Interleave(a, b + Pow2(n), n) == Interleave(a, b, n)
    decreases n
  {
    if n > 0 {
      Overflow(a / 2, b / 2, n - 1);
      assert (a + Pow2(n)) / 2 == a / 2 + Pow2(n - 1) && (a + Pow2(n)) % 2 == a % 2;
      assert (b + Pow2(n)) / 2 == b / 2 + Pow2(n - 1) && (b + Pow2(n)) % 2 == b % 2;
    }
  }

  lemma {:induction false} NextPair(a: nat, b: nat, n: nat)
    ensures Interleave(a, b, n + 1) == Interleave(a, b, n) + Place(Bit(a, n), 2 * n) + Place(Bit(b, n), 2 * n + 1)
    decreases n
  {
    if n > 0 {
      NextPair(a / 2, b / 2, n - 1);
      assert Place(Bit(a, n), 2 * n) == 4 * Place(Bit(a / 2, n - 1), 2 * (n - 1));
      assert Place(Bit(b, n), 2 * n + 1) == 4 * Place(Bit(b / 2, n - 1), 2 * (n - 1) + 1);
    }
  }

  lemma {:induction false} NextEven(h: nat, n: nat)
    ensures Evens(h, n + 1) == Evens(h, n) + Place(Bit(h, 2 * n), n)
    decreases n
  {
    if n > 0 {
      NextEven(h / 4, n - 1);
      assert Bit(h, 2 * n) == Bit(h / 2, 2 * n - 1) == Bit(h / 2 / 2, 2 * (n - 1));
      assert h / 2 / 2 == h / 4;
    }
  }

  lemma BitHalf(h: nat, i: nat)
    ensures Bit(h / 2, i) == Bit(h, i + 1)
  {
  }

  /** The encoder's loop. */
  method InterleaveBits(lon: nat, lat: nat) returns (hash: nat)
    ensures hash == Interleave(lon, lat, STEP)
  {
    hash := 0;
    for i := 0 to STEP
      invariant hash == Interleave(lon, lat, i)
    {
      NextPair(lon, lat, i);
      hash := hash + Place(Bit(lon, i), 2 * i);
      hash := hash + Place(Bit(lat, i), 2 * i + 1);
    }
  }

  /** The decoder's loop. */
  method SeparateBits(hash: nat) returns (lon: nat, lat: nat)
    ensures lon == Evens(hash, STEP) && lat == Evens(hash / 2, STEP)
  {
    lon, lat := 0, 0;
    for i := 0 to STEP
      invariant lon == Evens(hash, i) && lat == Evens(hash / 2, i)
    {
      NextEven(hash, i);
      NextEven(hash / 2, i);
      BitHalf(hash, 2 * i);
      lon := lon + Place(Bit(hash, 2 * i), i);
      lat := lat + Place(Bit(hash, 2 * i + 1), i);
    }
  }

  // ---------- the coordinates ----------

  const SIDE := 67108864   // 2^26

  lemma SideIs()
    ensures Pow2(STEP) == SIDE && Pow4(STEP) == 0x10_0000_0000_0000
  {
    assert Pow2(13) == 8192 && Pow4(13) == 67108864;
    assert Pow2(26) == 67108864 && Pow4(26) == 0x10_0000_0000_0000;
  }

  function ScaleLatitude(x: real): int
  {
    ((x + 90.0) / 180.0 * SIDE as real).Floor
  }

  function ScaleLongitude(x: real): int
  {
    ((x + 180.0) / 360.0 * SIDE as real).Floor
  }

  /** Even bits come from the first number and odd ones from the second. */
  lemma {:induction false} InterleavedBits(a: nat, b: nat, n: nat, i: nat)
    requires i < n
    ensures Bit(Interleave(a, b, n), 2 * i) == Bit(a, i) && Bit(Interleave(a, b, n), 2 * i + 1) == Bit(b, i)
    decreases n
  {
    var rest := Interleave(a / 2, b / 2, n - 1);
    PairParts(a % 2, b % 2, rest);
    var h := a % 2 + 2 * (b % 2) + 4 * rest;
    if i > 0 {
      InterleavedBits(a / 2, b / 2, n - 1, i - 1);
      Quarter(h);
    }
  }

  /** The longitude's fraction in the even bits of the hash, the latitude's in the odd ones. */
  method Encode(latitude: real, longitude: real) returns (hash: nat)
    requires -90.0 <= latitude <= 90.0 && -180.0 <= longitude <= 180.0
    ensures hash == Interleave(ScaleLongitude(longitude), ScaleLatitude(latitude), STEP)
    ensures var lon, lat := (longitude + 180.0) / 360.0 * 67108864.0, (latitude + 90.0) / 180.0 * 67108864.0;
            forall i :: 0 <= i < 26 ==>
              Bit(hash, 2 * i) == Bit(lon.Floor, i) && Bit(hash, 2 * i + 1) == Bit(lat.Floor, i)
  {
    hide Bit, Interleave;
    SideIs();
    hash := InterleaveBits(ScaleLongitude(longitude), ScaleLatitude(latitude));
    forall i | 0 <= i < 26
      ensures Bit(hash, 2 * i) == Bit(ScaleLongitude(longitude), i)
      ensures Bit(hash, 2 * i + 1) == Bit(ScaleLatitude(latitude), i)
    {
      InterleavedBits(ScaleLongitude(longitude), ScaleLatitude(latitude), STEP, i);
    }
  }

  method Decode(hash: nat) returns (latitude: real, longitude: real)
    ensures latitude == Evens(hash / 2, STEP) as real / SIDE as real * 180.0 - 90.0
    ensures longitude == Evens(hash, STEP) as real / SIDE as real * 360.0 - 180.0
  {
    var lon, lat := SeparateBits(hash);
    longitude := lon as real / SIDE as real;
    var l := lat as real / SIDE as real;
    latitude := l * 180.0 - 90.0;
    longitude := longitude * 360.0 - 180.0;
  }

  /** Not above x, and less than `unit` below it. */
  predicate Near(y: real, x: real, unit: real)
  {
    y <= x < y + unit
  }

  lemma {:induction false} Wraps(n: nat)
    requires n <= SIDE
    ensures n % SIDE == if n == SIDE then 0 else n
  {
  }

  /** The fractions come back, but for the end of the range, which comes back as its start. */
  lemma FractionsReturn(lon: nat, lat: nat)
    requires lon <= SIDE && lat <= SIDE
    ensures var h := Interleave(lon, lat, STEP);
            Evens(h, STEP) == lon % SIDE && Evens(h / 2, STEP) == lat % SIDE && h < 0x10_0000_0000_0000
  {
    hide Interleave, Evens, Pow2, Pow4;
    SideIs();
    var a, b := lon % SIDE, lat % SIDE;
    Wraps(lon);
    Wraps(lat);
    if lon == SIDE { Overflow(0, lat, STEP); }
    if lat == SIDE { Overflow(a, 0, STEP); }
    assert Interleave(lon, lat, STEP) == Interleave(a, b, STEP);
    Separates(a, b, STEP);
  }

  /** Going through a hash is accurate to one unit in each direction exactly for coordinates
    * below the ends of their ranges. */
  method RoundTrip(latitude: real, longitude: real) returns (lat: real, lon: real)
    requires -90.0 <= latitude <= 90.0 && -180.0 <= longitude <= 180.0
    ensures Near(lat, latitude, 180.0 / SIDE as real) <==> latitude < 90.0
    ensures Near(lon, longitude, 360.0 / SIDE as real) <==> longitude < 180.0
  {
    hide Interleave, Evens;
    var hash := Encode(latitude, longitude);
    lat, lon := Decode(hash);
    FractionsReturn(ScaleLongitude(longitude), ScaleLatitude(latitude));
    Wraps(ScaleLongitude(longitude));
    Wraps(ScaleLatitude(latitude));
  }
}
