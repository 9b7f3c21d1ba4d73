/** Which buffered bytes hold a whole command. */
module Completeness {
  import opened Decimals
  import opened Options
  import opened Resps
  import opened Sequences

  /** The first line end, or -1. */
  function CrLf(s: string): (i: int)
    ensures -1 <= i <= |s| - 2 || i == -1
    ensures i >= 0 ==> s[i] == '\r' && s[i + 1] == '\n'
    ensures forall j :: 0 <= j < (if i >= 0 then i else |s| - 1) ==> !(s[j] == '\r' && s[j + 1] == '\n')
  {
    if |s| < 2 then -1
    else if s[0] == '\r' && s[1] == '\n' then 0
    else
      var i := CrLf(s[1..]);
      assert s == [s[0]] + s[1..];
      if i == -1 then -1 else i + 1
  }

  /** Where the bulk string at the start ends, or -1. */
  function BulkEnd(s: string): (end: int)
    ensures end == -1 || 0 < end <= |s|
  {
    if s == "" || s[0] != '$' then -1
    else
      var c := CrLf(s);
      if c == -1 then -1
      else
        assert c != 0;
        var (length, ok) := Atoi(s[1..c]);
        if !ok then -1
        else if length < 0 then c + 2
        else if |s| < c + 2 + length + 2 then -1
        else c + 2 + length + 2
  }

  predicate Elements(s: string, count: nat)
    decreases count
  {
    if count == 0 then true
    else if s == "" then false
    else if s[0] == '$' then BulkEnd(s) != -1 && Elements(s[BulkEnd(s)..], count - 1)
    else if s[0] in ":+-" then CrLf(s) != -1 && Elements(s[CrLf(s) + 2..], count - 1)
    else false
  }

  predicate ArrayDone(s: string)
    requires s != "" && s[0] == '*'
  {
    var c := CrLf(s);
    if c == -1 then false
    else
      assert c != 0;
      var (count, ok) := Atoi(s[1..c]);
      if !ok || count <= 0 then count == 0 else Elements(s[c + 2..], count)
  }

  predicate HasComplete(s: string)
  {
    if s == "" then false
    else if s[0] == '*' then ArrayDone(s)
    else if s[0] == '$' then BulkEnd(s) != -1
    else if s[0] in "+-:" then CrLf(s) != -1
    else '\n' in s
  }

  /** How far one element reaches, or -1. */
  function ElementEnd(s: string): (end: int)
    ensures end == -1 || 0 < end <= |s|
  {
    if s == "" then -1
    else if s[0] == '$' then BulkEnd(s)
    else if s[0] in ":+-" then if CrLf(s) == -1 then -1 else CrLf(s) + 2
    else -1
  }

  lemma ElementsStep(s: string, count: nat)
    requires count > 0
    ensures ElementEnd(s) == -1 || 0 < ElementEnd(s) <= |s|
    ensures Elements(s, count) == (ElementEnd(s) != -1 && Elements(s[ElementEnd(s)..], count - 1))
  {
  }

  lemma ArrayHeader(s: string)
    requires s != "" && s[0] == '*'
    ensures CrLf(s) == -1 ==> !ArrayDone(s)
    ensures CrLf(s) != -1 ==>
      && 1 <= CrLf(s) <= |s| - 2
      && var (count, ok) := Atoi(s[1..CrLf(s)]);
         ArrayDone(s) == if !ok || count <= 0 then count == 0 else Elements(s[CrLf(s) + 2..], count)
  {
  }

  lemma NoElements(s: string)
    ensures Elements(s, 0)
  {
  }

  // ---------- it is right about encoded commands ----------

  lemma CrLfOf(a: string, rest: string)
    requires '\r' !in a
    ensures CrLf(a + "\r\n" + rest) == |a|
  {
    var s := a + "\r\n" + rest;
    assert s[|a|] == '\r' && s[|a| + 1] == '\n';
    assert forall j :: 0 <= j < |a| ==> s[j] == a[j];
  }

  lemma CrLfMissing(a: string, n: nat)
    requires '\r' !in a && n < |a| + 2
    ensures CrLf((a + "\r\n")[..n]) == -1
  {
    var s := (a + "\r\n")[..n];
    assert forall j :: 0 <= j < |a| && j < n ==> s[j] == a[j];
  }

  lemma BulkEndOf(x: string, tail: string, n: nat)
    requires |x| <= MAX_INT && n <= |Bulk(x)|
    ensures BulkEnd(Bulk(x) + tail) == |Bulk(x)|
    ensures n < |Bulk(x)| ==> BulkEnd(Bulk(x)[..n]) == -1
  {
    hide CrLf, Atoi;
    var head := "$" + Decimal(|x|);
    AtoiOfDecimal(|x|);
    assert Bulk(x) + tail == head + "\r\n" + (x + "\r\n" + tail);
    CrLfOf(head, x + "\r\n" + tail);
    assert (Bulk(x) + tail)[1..|head|] == Decimal(|x|);
    if n < |head| + 2 {
      CrLfMissing(head, n);
      assert Bulk(x)[..n] == (head + "\r\n")[..n];
    } else {
      var body := (x + "\r\n")[..n - |head| - 2];
      assert Bulk(x)[..n] == head + "\r\n" + body;
      CrLfOf(head, body);
      assert (Bulk(x)[..n])[1..|head|] == Decimal(|x|);
    }
  }

  lemma {:induction false} ElementsOf(xs: seq<string>, tail: string)
    requires Fits(xs)
    ensures Elements(Bulks(xs) + tail, |xs|)
    decreases |xs|
  {
    hide BulkEnd, Bulk;
    if xs != [] {
      BulkStarts(xs[0]);
      BulksFront(xs);
      var s := Bulk(xs[0]) + (Bulks(xs[1..]) + tail);
      assert Bulks(xs) + tail == s;
      BulkEndOf(xs[0], Bulks(xs[1..]) + tail, 0);
      assert s[|Bulk(xs[0])|..] == Bulks(xs[1..]) + tail;
      ElementsOf(xs[1..], tail);
    }
  }

  lemma BulkStarts(x: string)
    ensures Bulk(x) != "" && Bulk(x)[0] == '$'
  {
  }

  lemma {:induction false} ElementsMissing(xs: seq<string>, n: nat)
    requires Fits(xs) && n < |Bulks(xs)|
    ensures !Elements(Bulks(xs)[..n], |xs|)
    decreases |xs|
  {
    hide BulkEnd, Bulk;
    BulkStarts(xs[0]);
    BulksFront(xs);
    var b, rest := Bulk(xs[0]), Bulks(xs[1..]);
    var s := Bulks(xs)[..n];
    if n < |b| {
      BulkEndOf(xs[0], "", n);
      assert s == b[..n];
    } else {
      assert s == b + rest[..n - |b|];
      BulkEndOf(xs[0], rest[..n - |b|], 0);
      assert s[|b|..] == rest[..n - |b|];
      ElementsMissing(xs[1..], n - |b|);
    }
  }

  /** A command is seen as complete as soon as its last byte is there, and not before. */
  lemma CompleteExactly(xs: seq<string>, tail: string, n: nat)
    requires Fits(xs) && n < |Array(xs)|
    ensures HasComplete(Array(xs) + tail) && !HasComplete(Array(xs)[..n])
  {
    hide CrLf, Atoi, Elements, Bulks;
    var head := "*" + Decimal(|xs|);
    AtoiOfDecimal(|xs|);
    var s := Array(xs) + tail;
    assert s == head + "\r\n" + (Bulks(xs) + tail);
    CrLfOf(head, Bulks(xs) + tail);
    assert s[1..|head|] == Decimal(|xs|) && s[|head| + 2..] == Bulks(xs) + tail;
    ElementsOf(xs, tail);
    if n < |head| + 2 {
      CrLfMissing(head, n);
      assert Array(xs)[..n] == (head + "\r\n")[..n];
    } else {
      var body := Bulks(xs)[..n - |head| - 2];
      var p := Array(xs)[..n];
      assert p == head + "\r\n" + body;
      CrLfOf(head, body);
      assert p[1..|head|] == Decimal(|xs|) && p[|head| + 2..] == body;
      NonemptyBulks(xs);
      ElementsMissing(xs, |body|);
    }
  }

  lemma NonemptyBulks(xs: seq<string>)
    requires Bulks(xs) != ""
    ensures xs != []
  {
  }

  // ---------- complete is not always readable ----------

  /** Where the data of the bulk string at the start begins, and how long it is. */
  function DataStart(s: string): nat
    requires BulkEnd(s) != -1
  {
    CrLf(s) + 2
  }

  function DataLength(s: string): int
    requires BulkEnd(s) != -1
  {
    Atoi(s[1..CrLf(s)]).0
  }

  /** A null, or data followed by one byte and the end of the line. */
  predicate Neat(s: string)
  {
    && s != "" && s[0] == '$' && BulkEnd(s) != -1
    && (DataLength(s) < 0 || (s[BulkEnd(s) - 2] != '\n' && s[BulkEnd(s) - 1] == '\n'))
  }

  lemma AtoiClean(t: string)
    requires Atoi(t).1
    ensures '\n' !in t && '\r' !in t
  {
    var digits := if t != "" && (t[0] == '-' || t[0] == '+') then t[1..] else t;
    forall i | 0 <= i < |t| ensures t[i] != '\n' && t[i] != '\r' {
      if |digits| == |t| { assert IsDigit(digits[i]); }
      else if i > 0 { assert IsDigit(digits[i - 1]); }
    }
  }

  /** The line of a bulk header is what the scan takes for it. */
  lemma HeaderLine(s: string, c: nat)
    requires 1 <= c <= |s| - 2 && c == CrLf(s) && s[0] != '\n' && s[0] != '\r' && Atoi(s[1..c]).1
    ensures Line(s) == (Some(s[..c]), s[c + 2..]) && s[..c][1..] == s[1..c] && s[..c] != "" && s[..c][0] == s[0]
  {
    hide Line, Atoi, CrLf;
    AtoiClean(s[1..c]);
    CrLfSplits(s, c);
    var head := s[..c];
    assert head == [s[0]] + s[1..c];
    assert '\n' !in head && head[c - 1] != '\r';
    LineOf(head, s[c + 2..]);
  }

  lemma CrLfSplits(s: string, c: nat)
    requires c <= |s| - 2 && c == CrLf(s)
    ensures s == s[..c] + "\r\n" + s[c + 2..]
  {
  }

  /** For a bulk string the scan finds complete: the reader takes the same bytes exactly if it
    * is neat, and runs out of input exactly if no line ends behind its data. */
  lemma ItemOfScanned(s: string)
    requires s != "" && s[0] == '$' && BulkEnd(s) != -1
    ensures Item(s).0.Ok? && Item(s).1 == s[BulkEnd(s)..] <==> Neat(s)
    ensures Item(s).0 == Eof <==> DataLength(s) >= 0 && '\n' !in s[DataStart(s) + DataLength(s)..]
  {
    hide Atoi, CrLf, Line, IndexOf;
    BulkBounds(s);
    var c := CrLf(s);
    HeaderLine(s, c);
    var n := DataLength(s);
    if n >= 0 {
      var t := s[c + 2..][n..];
      assert t == s[c + 2 + n..];
      LineStops(t);
      assert |s[BulkEnd(s)..]| == |t| - 2 && t[2..] == s[BulkEnd(s)..];
      assert t[0] == s[BulkEnd(s) - 2] && t[1] == s[BulkEnd(s) - 1];
    }
  }

  lemma BulkBounds(s: string)
    requires s != "" && s[0] == '$' && BulkEnd(s) != -1
    ensures 1 <= CrLf(s) <= |s| - 2 && Atoi(s[1..CrLf(s)]).1
    ensures BulkEnd(s) == if DataLength(s) < 0 then CrLf(s) + 2 else CrLf(s) + 2 + DataLength(s) + 2
    ensures BulkEnd(s) <= |s|
  {
  }

  /** Reading a line takes two bytes exactly if the second is the first line end. */
  lemma LineStops(t: string)
    requires |t| >= 2
    ensures Line(t).0.None? <==> '\n' !in t
    ensures Line(t).0.Some? ==> (|Line(t).1| == |t| - 2 <==> t[0] != '\n' && t[1] == '\n')
    ensures Line(t).0.Some? && |Line(t).1| == |t| - 2 ==> Line(t).1 == t[2..]
  {
    IndexOfMissing(t, '\n');
    var i := IndexOf(t, '\n');
    if i < |t| {
      if i >= 1 { assert t[..i][0] == t[0]; }
      if i >= 2 { assert t[..i][1] == t[1]; }
    }
  }

  /** All elements the scan delimits are neat. */
  predicate AllNeat(s: string, count: nat)
    decreases count
  {
    count == 0 || (Neat(s) && AllNeat(s[BulkEnd(s)..], count - 1))
  }

  /** Item by item the reader takes the very bytes the scan delimits. */
  predicate InStep(s: string, count: nat)
    decreases count
  {
    count == 0 ||
    (ElementEnd(s) != -1 && Item(s).0.Ok? && Item(s).1 == s[ElementEnd(s)..] && InStep(s[ElementEnd(s)..], count - 1))
  }

  lemma {:induction false} InStepExactly(s: string, count: nat)
    requires Elements(s, count)
    ensures InStep(s, count) <==> AllNeat(s, count)
    decreases count
  {
    hide BulkEnd, Item, Neat, CrLf;
    if count > 0 {
      EndBound(s);
      if s[0] == '$' {
        ItemOfScanned(s);
        InStepExactly(s[BulkEnd(s)..], count - 1);
      } else {
        NotNeat(s);
        OtherElement(s);
      }
    }
  }

  lemma EndBound(s: string)
    ensures BulkEnd(s) == -1 || 0 < BulkEnd(s) <= |s|
  {
  }

  lemma NotNeat(s: string)
    requires s == "" || s[0] != '$'
    ensures !Neat(s)
  {
  }

  /** The reader refuses elements that are no bulk strings. */
  lemma OtherElement(s: string)
    requires s != "" && s[0] != '$'
    ensures !Item(s).0.Ok?
  {
    hide IndexOf;
    var i := IndexOf(s, '\n');
    IndexOfMissing(s, '\n');
    if i < |s| { TrimFirst(s[..i + 1]); }
  }

  lemma {:induction false} TrimFirst(t: string)
    ensures TrimRight(t) == "" || (t != "" && TrimRight(t)[0] == t[0])
  {
    if t != "" && t[|t| - 1] in "\r\n" { TrimFirst(t[..|t| - 1]); }
  }

  lemma {:induction false} InStepReads(s: string, count: nat)
    requires InStep(s, count)
    ensures Items(s, count).0.Ok?
    decreases count
  {
    hide Item, ElementEnd;
    if count > 0 { InStepReads(s[ElementEnd(s)..], count - 1); }
  }

  /** An array the scan finds complete is read in step with it, and so without running out of
    * input, exactly if each element is a null or data with its line end. */
  lemma ReadableExactly(s: string, count: nat)
    requires s != "" && s[0] == '*' && CrLf(s) != -1 && count > 0
    requires CrLf(s) >= 1 && Atoi(s[1..CrLf(s)]) == (count, true) && HasComplete(s)
    ensures Elements(s[CrLf(s) + 2..], count)
    ensures InStep(s[CrLf(s) + 2..], count) <==> AllNeat(s[CrLf(s) + 2..], count)
    ensures AllNeat(s[CrLf(s) + 2..], count) ==> Command(s).0.Ok?
  {
    hide Atoi, CrLf, Elements, InStep, AllNeat, Items, Line;
    ArrayHeader(s);
    HeaderLine(s, CrLf(s));
    InStepExactly(s[CrLf(s) + 2..], count);
    if InStep(s[CrLf(s) + 2..], count) { InStepReads(s[CrLf(s) + 2..], count); }
  }

  /** A complete command of one word runs out of input exactly if no line ends behind the word. */
  lemma ReadableWord(s: string)
    requires s != "" && s[0] == '*' && CrLf(s) >= 1 && Atoi(s[1..CrLf(s)]) == (1, true) && HasComplete(s)
    requires CrLf(s) + 2 < |s| && s[CrLf(s) + 2] == '$'
    ensures var t := s[CrLf(s) + 2..];
            && BulkEnd(t) != -1
            && (Command(s).0 == Eof <==> DataLength(t) >= 0 && '\n' !in t[DataStart(t) + DataLength(t)..])
  {
    hide Atoi, CrLf, Line, Item, BulkEnd, DataLength, DataStart;
    var t := s[CrLf(s) + 2..];
    ArrayHeader(s);
    HeaderLine(s, CrLf(s));
    assert Elements(t, 1) && t[0] == '$';
    ItemOfScanned(t);
  }

  lemma UnreadableItem()
    ensures var t := "$1\r\naXY"; BulkEnd(t) == |t| && Item(t).0 == Eof
  {
    hide CrLf, Atoi, Item;
    var t := "$1\r\naXY";
    AtoiOfDecimal(1);
    assert t == "$1" + "\r\n" + "aXY";
    CrLfOf("$1", "aXY");
    assert t[1..2] == "1" == Decimal(1) && t[5..] == "XY";
    ItemOfScanned(t);
  }

  /** The scan counts two bytes behind the data without looking at them, so a buffer can pass
    * for complete while the reader still waits for the end of a line. */
  lemma CompleteButUnreadable()
    ensures HasComplete("*1\r\n$1\r\naXY") && Command("*1\r\n$1\r\naXY").0 == Eof
  {
    hide CrLf, Atoi, Line, Item, BulkEnd;
    var s, t := "*1\r\n$1\r\naXY", "$1\r\naXY";
    AtoiOfDecimal(1);
    assert s == "*1" + "\r\n" + t;
    CrLfOf("*1", t);
    assert s[1..2] == "1" == Decimal(1) && s[4..] == t && t[7..] == "";
    UnreadableItem();
    HeaderLine(s, 2);
  }
}
