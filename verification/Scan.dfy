/** The scan that tells whether a whole command has arrived, in the machine's arithmetic: what
  * it makes of a length whose end lies beyond the largest integer. */
module Scans {
  import opened Completeness
  import opened Decimals
  import opened Options
  import opened Resps

  datatype Verdict = Complete | Incomplete | Panics

  function Judged(complete: bool): Verdict
  {
    if complete then Complete else Incomplete
  }

  /** No buffer comes near the largest integer. */
  predicate Sized(s: string)
  {
    |s| <= MAX_INT - 4
  }

  /** How far the scan thinks the bulk string at the start reaches. */
  function ScanEnd(s: string): (end: Option<int>)
    ensures end.Some? ==> end.value <= |s|
  {
    if s == "" || s[0] != '$' then None
    else
      var c := CrLf(s);
      if c == -1 then None
      else
        assert c != 0;
        var (length, ok) := Atoi(s[1..c]);
        if !ok then None
        else if length < 0 then Some(c + 2)
        else
          var needed := Wrapped(c + 2 + length + 2);
          if |s| < needed then None else Some(needed)
  }

  /** The end of the bulk string at the start does not fit an integer. */
  predicate Overlong(s: string)
  {
    && s != "" && s[0] == '$' && CrLf(s) >= 1
    && var (length, ok) := Atoi(s[1..CrLf(s)]); ok && length > MAX_INT - CrLf(s) - 4
  }

  lemma WrappedWithin(n: int)
    ensures -MAX_INT - 1 <= n <= MAX_INT ==> Wrapped(n) == n
    ensures MAX_INT < n <= 2 * MAX_INT ==> Wrapped(n) == n - 2 * MAX_INT - 2
  {
  }

  lemma AtoiWithin(t: string)
    ensures Atoi(t).1 ==> -MAX_INT - 1 <= Atoi(t).0 <= MAX_INT
  {
  }

  /** The scan is right about a bulk string unless it is overlong; then it steps back. */
  lemma ScanEndExactly(s: string)
    requires Sized(s)
    ensures !Overlong(s) ==> ScanEnd(s) == if BulkEnd(s) == -1 then None else Some(BulkEnd(s))
    ensures Overlong(s) ==> BulkEnd(s) == -1 && ScanEnd(s).Some? && ScanEnd(s).value <= |s| - MAX_INT
  {
    hide CrLf, Atoi, Wrapped;
    CrLfBound(s);
    if s != "" && s[0] == '$' && CrLf(s) >= 1 {
      AtoiWithin(s[1..CrLf(s)]);
      WrappedWithin(CrLf(s) + 2 + Atoi(s[1..CrLf(s)]).0 + 2);
    }
  }

  lemma CrLfBound(s: string)
    ensures CrLf(s) == -1 || 0 <= CrLf(s) <= |s| - 2
    ensures s != "" && s[0] != '\r' ==> CrLf(s) != 0
  {
  }

  /** The verdict on `count` elements. Behind an overlong one the index is negative. */
  function Scan(s: string, count: nat): Verdict
    decreases count
  {
    if count == 0 then Complete
    else if s == "" then Incomplete
    else if s[0] == '$' then
      match ScanEnd(s)
      case None => Incomplete
      case Some(n) =>
        if n >= 0 then Scan(s[n..], count - 1) else if count == 1 then Complete else Panics
    else if s[0] in ":+-" then
      if CrLf(s) == -1 then Incomplete else Scan(s[CrLf(s) + 2..], count - 1)
    else Incomplete
  }

  function ArrayScan(s: string): Verdict
    requires s != "" && s[0] == '*'
  {
    var c := CrLf(s);
    if c == -1 then Incomplete
    else
      assert c != 0;
      var (count, ok) := Atoi(s[1..c]);
      if !ok || count <= 0 then Judged(count == 0) else Scan(s[c + 2..], count)
  }

  /** Which element the scan meets first that is overlong; `count` stands for none. */
  function OverlongAt(s: string, count: nat): (i: nat)
    ensures i <= count
    decreases count
  {
    if count == 0 || Overlong(s) then 0
    else if ElementEnd(s) == -1 then count
    else 1 + OverlongAt(s[ElementEnd(s)..], count - 1)
  }

  /** The scan is right if and only if it meets no overlong element. If it meets one, the array
    * is not complete: the scan takes it for complete if that element is the last, and panics
    * at the next one otherwise. */
  lemma {:induction false} ScanExactly(s: string, count: nat)
    requires Sized(s)
    ensures var i := OverlongAt(s, count);
            && (i < count ==> !Elements(s, count))
            && Scan(s, count) ==
               if i == count then Judged(Elements(s, count)) else if i + 1 == count then Complete else Panics
    decreases count
  {
    hide Scan, Elements, OverlongAt, Overlong, ElementEnd;
    NoElements(s);
    ScanNone(s);
    OverlongNone(s);
    if count > 0 {
      OverlongStep(s, count);
      ElementsStep(s, count);
      ScanElement(s, count);
      if !Overlong(s) && ElementEnd(s) != -1 {
        ScanExactly(s[ElementEnd(s)..], count - 1);
      }
    }
  }

  lemma OverlongNone(s: string)
    ensures OverlongAt(s, 0) == 0
  {
  }

  lemma OverlongStep(s: string, count: nat)
    requires count > 0
    ensures ElementEnd(s) == -1 || 0 < ElementEnd(s) <= |s|
    ensures OverlongAt(s, count) == if Overlong(s) then 0 else if ElementEnd(s) == -1 then count
                                    else 1 + OverlongAt(s[ElementEnd(s)..], count - 1)
  {
  }

  /** One element: an overlong one is none of the reference's, any other is scanned like there. */
  lemma ScanElement(s: string, count: nat)
    requires Sized(s) && count > 0
    ensures ElementEnd(s) == -1 || 0 < ElementEnd(s) <= |s|
    ensures Overlong(s) ==> ElementEnd(s) == -1 && Scan(s, count) == if count == 1 then Complete else Panics
    ensures !Overlong(s) && ElementEnd(s) == -1 ==> Scan(s, count) == Incomplete
    ensures !Overlong(s) && ElementEnd(s) != -1 ==> Scan(s, count) == Scan(s[ElementEnd(s)..], count - 1)
  {
    hide Scan, Overlong, ScanEnd, BulkEnd, CrLf;
    NotOverlong(s);
    ScanEndExactly(s);
    EndBound(s);
    CrLfBound(s);
    ScanStep(s, count);
  }

  lemma NotOverlong(s: string)
    ensures s == "" || s[0] != '$' ==> !Overlong(s)
  {
  }

  /** The element the scan meets first in a whole buffer that is overlong, if any. */
  predicate MeetsOverlong(s: string)
  {
    if s == "" then false
    else if s[0] == '*' then
      CrLf(s) >= 1 &&
      var (count, ok) := Atoi(s[1..CrLf(s)]);
      ok && count > 0 && OverlongAt(s[CrLf(s) + 2..], count) < count
    else Overlong(s)
  }

  /** hasCompleteRESP. */
  function Judge(s: string): Verdict
  {
    if s == "" then Incomplete
    else if s[0] == '*' then ArrayScan(s)
    else if s[0] == '$' then Judged(ScanEnd(s).Some?)
    else if s[0] in "+-:" then Judged(CrLf(s) != -1)
    else Judged('\n' in s)
  }

  /** The verdict on a buffer is right if and only if the scan meets no overlong element. */
  lemma VerdictExactly(s: string)
    requires Sized(s)
    ensures Judge(s) == Judged(HasComplete(s)) <==> !MeetsOverlong(s)
  {
    hide BulkEnd, ScanEnd, Overlong, CrLf, Atoi, Scan, Elements, OverlongAt;
    CrLfBound(s);
    if s != "" {
      ScanEndExactly(s);
      NotOverlong(s);
      if s[0] == '*' {
        ArrayHeader(s);
        if CrLf(s) != -1 {
          var (count, ok) := Atoi(s[1..CrLf(s)]);
          if ok && count > 0 { ScanExactly(s[CrLf(s) + 2..], count); }
        }
      }
    }
  }

  // ---------- the loop ----------

  /** hasCompleteBulkStringAt: an index, or -1. */
  method BulkStringAt(buf: string, idx: nat) returns (end: int)
    requires Sized(buf)
    ensures idx >= |buf| || ScanEnd(buf[idx..]).None? ==> end == -1
    ensures idx < |buf| && ScanEnd(buf[idx..]).Some? ==>
              end == idx + ScanEnd(buf[idx..]).value != -1 && end <= |buf|
  {
    hide CrLf, Atoi, Wrapped;
    if idx >= |buf| {
      return -1;
    }
    var remaining := buf[idx..];
    CrLfBound(remaining);
    ScanEndExactly(remaining);
    EndBound(remaining);
    if buf[idx] != '$' {
      return -1;
    }
    var crlf := CrLf(remaining);
    if crlf == -1 {
      return -1;
    }
    var (length, ok) := Atoi(remaining[1..crlf]);
    if !ok {
      return -1;
    }
    if length < 0 {
      return idx + crlf + 2;
    }
    var needed := Wrapped(crlf + 2 + length + 2);
    if |remaining| < needed {
      return -1;
    }
    return idx + needed;
  }

  /** The scan with an index into the buffer, which panics at a negative one. */
  method HasCompleteArray(buf: string) returns (verdict: Verdict)
    requires buf != "" && buf[0] == '*' && Sized(buf)
    ensures verdict == ArrayScan(buf)
  {
    hide CrLf, Atoi, ScanEnd, Scan;
    CrLfBound(buf);
    var crlf := CrLf(buf);
    if crlf == -1 {
      return Incomplete;
    }
    var (count, ok) := Atoi(buf[1..crlf]);
    if !ok || count <= 0 {
      return Judged(count == 0);
    }
    var idx: int := crlf + 2;
    for i := 0 to count
      invariant idx <= |buf|
      invariant idx >= 0 ==> ArrayScan(buf) == Scan(buf[idx..], count - i)
      invariant idx < 0 ==> ArrayScan(buf) == if i == count then Complete else Panics
    {
      if idx < 0 {
        return Panics;
      }
      ScanStep(buf[idx..], count - i);
      if idx >= |buf| {
        return Incomplete;
      }
      CrLfBound(buf[idx..]);
      if buf[idx] == '$' {
        var end := BulkStringAt(buf, idx);
        if end == -1 {
          return Incomplete;
        }
        if end >= idx { assert buf[idx..][end - idx..] == buf[end..]; }
        StepsBack(buf, idx);
        idx := end;
      } else if buf[idx] in ":+-" {
        var next := CrLf(buf[idx..]);
        if next == -1 {
          return Incomplete;
        }
        assert buf[idx..][next + 2..] == buf[idx + next + 2..];
        idx := idx + next + 2;
      } else {
        return Incomplete;
      }
    }
    if idx >= 0 { ScanNone(buf[idx..]); }
    return Complete;
  }

  lemma ScanNone(s: string)
    ensures Scan(s, 0) == Complete
  {
  }

  lemma ScanStep(s: string, count: nat)
    requires count > 0
    ensures s == "" ==> Scan(s, count) == Incomplete
    ensures s != "" && s[0] == '$' ==>
              && (ScanEnd(s).None? ==> Scan(s, count) == Incomplete)
              && (ScanEnd(s).Some? && ScanEnd(s).value >= 0 ==>
                    ScanEnd(s).value <= |s| && Scan(s, count) == Scan(s[ScanEnd(s).value..], count - 1))
              && (ScanEnd(s).Some? && ScanEnd(s).value < 0 ==>
                    Scan(s, count) == if count == 1 then Complete else Panics)
    ensures s != "" && s[0] in ":+-" && CrLf(s) == -1 ==> Scan(s, count) == Incomplete
    ensures s != "" && s[0] in ":+-" && CrLf(s) != -1 ==>
              0 <= CrLf(s) <= |s| - 2 && Scan(s, count) == Scan(s[CrLf(s) + 2..], count - 1)
    ensures s != "" && s[0] !in "$:+-" ==> Scan(s, count) == Incomplete
  {
    hide CrLf, ScanEnd;
    CrLfBound(s);
    if ScanEnd(s).Some? { ScanEndBound(s); }
  }

  lemma ScanEndBound(s: string)
    requires ScanEnd(s).Some?
    ensures ScanEnd(s).value <= |s|
  {
  }

  /** An end before the element lies before the buffer. */
  lemma StepsBack(buf: string, idx: nat)
    requires Sized(buf) && idx < |buf| && ScanEnd(buf[idx..]).Some?
    ensures ScanEnd(buf[idx..]).value < 0 ==> idx + ScanEnd(buf[idx..]).value < 0
  {
    ScanEndExactly(buf[idx..]);
    EndBound(buf[idx..]);
  }

  // ---------- commands as they are encoded ----------

  lemma EncodedFits(x: string, tail: string, n: nat)
    requires Sized(Bulk(x)) && n <= |Bulk(x)|
    ensures !Overlong(Bulk(x) + tail) && !Overlong(Bulk(x)[..n])
  {
    hide CrLf, Atoi;
    var head := "$" + Decimal(|x|);
    AtoiOfDecimal(|x|);
    assert Bulk(x) + tail == head + "\r\n" + (x + "\r\n" + tail);
    CrLfOf(head, x + "\r\n" + tail);
    assert (Bulk(x) + tail)[1..|head|] == Decimal(|x|);
    if n < |head| + 2 {
      CrLfMissing(head, n);
      assert Bulk(x)[..n] == (head + "\r\n")[..n];
    } else {
      var body := (x + "\r\n")[..n - |head| - 2];
      assert Bulk(x)[..n] == head + "\r\n" + body;
      CrLfOf(head, body);
      assert (Bulk(x)[..n])[1..|head|] == Decimal(|x|);
    }
  }

  lemma {:induction false} EncodedScans(xs: seq<string>, tail: string, n: nat)
    requires Sized(Bulks(xs)) && n <= |Bulks(xs)|
    ensures OverlongAt(Bulks(xs) + tail, |xs|) == |xs| && OverlongAt(Bulks(xs)[..n], |xs|) == |xs|
    decreases |xs|
  {
    hide OverlongAt, Overlong, ElementEnd, Bulk, Bulks;
    OverlongNone(Bulks(xs) + tail);
    OverlongNone(Bulks(xs)[..n]);
    if xs != [] {
      BulksFront(xs);
      var b, rest := Bulk(xs[0]), Bulks(xs[1..]);
      var s := b + (rest + tail);
      assert Bulks(xs) + tail == s;
      BulkElement(xs[0], rest + tail, 0);
      OverlongStep(s, |xs|);
      assert s[|b|..] == rest + tail;
      if n < |b| {
        assert Bulks(xs)[..n] == b[..n];
        EncodedScans(xs[1..], tail, 0);
        BulkElement(xs[0], "", n);
        OverlongStep(b[..n], |xs|);
      } else {
        var m := n - |b|;
        assert Bulks(xs)[..n] == b + rest[..m];
        EncodedScans(xs[1..], tail, m);
        BulkElement(xs[0], rest[..m], 0);
        OverlongStep(b + rest[..m], |xs|);
        assert (b + rest[..m])[|b|..] == rest[..m];
      }
    }
  }

  lemma BulkElement(x: string, tail: string, n: nat)
    requires Sized(Bulk(x)) && n <= |Bulk(x)|
    ensures !Overlong(Bulk(x) + tail) && ElementEnd(Bulk(x) + tail) == |Bulk(x)|
    ensures !Overlong(Bulk(x)[..n]) && (n < |Bulk(x)| ==> ElementEnd(Bulk(x)[..n]) == -1)
  {
    hide Overlong, BulkEnd, CrLf;
    EncodedFits(x, tail, n);
    assert |x| <= |Bulk(x)|;
    BulkEndOf(x, tail, n);
    BulkStarts(x);
    if 0 < n { assert Bulk(x)[..n][0] == '$'; }
  }

  /** In the machine's arithmetic too, an encoded command is complete with its last byte,
    * whatever follows, and no strict prefix of it is. */
  lemma CompleteInTime(xs: seq<string>, tail: string, n: nat)
    requires Sized(Array(xs) + tail) && n < |Array(xs)| && |xs| <= MAX_INT
    ensures Judge(Array(xs) + tail) == Complete && Judge(Array(xs)[..n]) == Incomplete
  {
    hide Judge, HasComplete, MeetsOverlong, Bulks;
    BulksLength(xs);
    CompleteExactly(xs, tail, n);
    VerdictExactly(Array(xs) + tail);
    VerdictExactly(Array(xs)[..n]);
    EncodedMeets(xs, tail, n);
  }

  lemma {:induction false} BulksLength(xs: seq<string>)
    ensures forall i :: 0 <= i < |xs| ==> |xs[i]| <= |Bulks(xs)|
  {
    if xs != [] { BulksLength(xs[..|xs| - 1]); }
  }

  lemma EncodedMeets(xs: seq<string>, tail: string, n: nat)
    requires Sized(Array(xs)) && n <= |Array(xs)| && |xs| <= MAX_INT
    ensures !MeetsOverlong(Array(xs) + tail) && !MeetsOverlong(Array(xs)[..n])
  {
    hide CrLf, Atoi, OverlongAt, Bulks, Overlong;
    var head := "*" + Decimal(|xs|);
    AtoiOfDecimal(|xs|);
    var s := Array(xs) + tail;
    assert s == head + "\r\n" + (Bulks(xs) + tail);
    CrLfOf(head, Bulks(xs) + tail);
    assert s[1..|head|] == Decimal(|xs|) && s[|head| + 2..] == Bulks(xs) + tail;
    EncodedScans(xs, tail, 0);
    if n < |head| + 2 {
      CrLfMissing(head, n);
      assert Array(xs)[..n] == (head + "\r\n")[..n];
      if 0 < n { assert Array(xs)[..n][0] == '*'; }
    } else {
      var m := n - |head| - 2;
      var p := Array(xs)[..n];
      assert p == head + "\r\n" + Bulks(xs)[..m];
      CrLfOf(head, Bulks(xs)[..m]);
      assert p[1..|head|] == Decimal(|xs|) && p[|head| + 2..] == Bulks(xs)[..m];
      EncodedScans(xs, tail, m);
    }
  }

  // ---------- an overlong element ----------

  /** The header of a bulk string of the greatest length. */
  function Largest(): string
  {
    "$" + Decimal(MAX_INT) + "\r\n"
  }

  lemma LargestOverlong()
    ensures Overlong(Largest()) && '\r' !in "$" + Decimal(MAX_INT)
  {
    hide CrLf, Atoi, Decimal;
    var head := "$" + Decimal(MAX_INT);
    DecimalClean(MAX_INT);
    assert Largest() == head + "\r\n" + "";
    CrLfOf(head, "");
    AtoiOfDecimal(MAX_INT);
    assert Largest()[1..|head|] == Decimal(MAX_INT);
  }

  lemma DecimalClean(n: nat)
    ensures '\r' !in Decimal(n) && Decimal(n) != ""
  {
  }

  lemma {:induction false} DecimalShort(n: nat)
    ensures |Decimal(n)| <= n / 3 + 1
  {
    if n >= 10 { DecimalShort(n / 10); }
  }

  lemma LargestSized()
    ensures Sized(Largest())
  {
    hide Decimal;
    DecimalShort(MAX_INT);
  }

  /** The header of a bulk string of the greatest length, alone, passes for the last element of
    * a command; if more elements are announced, the scan panics. */
  lemma OverlongMisjudged(count: nat)
    requires 0 < count <= MAX_INT
    ensures var s := "*" + Decimal(count) + "\r\n" + Largest();
            !HasComplete(s) && Judge(s) == if count == 1 then Complete else Panics
  {
    hide CrLf, Atoi, Overlong, Scan, Elements, OverlongAt, Largest, Decimal;
    var head := "*" + Decimal(count);
    var s := head + "\r\n" + Largest();
    DecimalClean(count);
    CrLfOf(head, Largest());
    AtoiOfDecimal(count);
    assert s[1..|head|] == Decimal(count) && s[|head| + 2..] == Largest();
    LargestOverlong();
    LargestSized();
    OverlongStep(Largest(), count);
    ScanExactly(Largest(), count);
  }
}
