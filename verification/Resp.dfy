/** The wire protocol: reading commands and writing them. */
module Resps {
  import opened Options
  import opened Decimals
  import opened Sequences

  // ---------- numbers ----------

  const MAX_INT := 0x7FFF_FFFF_FFFF_FFFF

  predicate IsDigit(c: char)
  {
    '0' <= c <= '9'
  }

  predicate Digits(s: string)
  {
    s != "" && forall i :: 0 <= i < |s| ==> IsDigit(s[i])
  }

  function Value(s: string): nat
    requires forall i :: 0 <= i < |s| ==> IsDigit(s[i])
  {
    if s == "" then 0 else
      assert IsDigit(s[|s| - 1]);
      10 * Value(s[..|s| - 1]) + (s[|s| - 1] as int - '0' as int)
  }

  /** The number and whether it was one; out of range it is the nearest bound, malformed 0. */
  function Atoi(s: string): (int, bool)
  {
    var signed := s != "" && (s[0] == '-' || s[0] == '+');
    var digits := if signed then s[1..] else s;
    if !Digits(digits) then (0, false)
    else
      var v: int := if signed && s[0] == '-' then 0 - Value(digits) else Value(digits);
      if v > MAX_INT then (MAX_INT, false) else if v < -MAX_INT - 1 then (-MAX_INT - 1, false) else (v, true)
  }

  lemma {:induction false} ValueOfDecimal(n: nat)
    ensures Digits(Decimal(n)) && Value(Decimal(n)) == n
  {
    if n >= 10 {
      ValueOfDecimal(n / 10);
      var d := Decimal(n);
      assert d[..|d| - 1] == Decimal(n / 10);
    }
  }

  lemma AtoiOfDecimal(n: nat)
    requires n <= MAX_INT
    ensures Atoi(Decimal(n)) == (n, true)
  {
    ValueOfDecimal(n);
    assert IsDigit(Decimal(n)[0]);
  }

  // ---------- reading ----------

  function TrimRight(s: string): string
  {
    if s != "" && s[|s| - 1] in "\r\n" then TrimRight(s[..|s| - 1]) else s
  }

  /** The next line without its end, and the input after it; an unfinished line is used up. */
  function Line(s: string): (Option<string>, string)
  {
    var i := IndexOf(s, '\n');
    if i == |s| then (None, "") else (Some(TrimRight(s[..i + 1])), s[i + 1..])
  }

  datatype Result<+T> = Ok(value: T) | Eof | Empty | BadArrayLength | NotBulk | BadBulkLength

  function Item(s: string): (Result<string>, string)
  {
    var (line, s1) := Line(s);
    if line.None? then (Eof, s1)
    else if line.value == "" || line.value[0] != '$' then (NotBulk, s1)
    else
      var (length, ok) := Atoi(line.value[1..]);
      if !ok then (BadBulkLength, s1)
      else if length < 0 then (Ok(""), s1)
      else if |s1| < length then (Eof, "")
      else
        var (end, s2) := Line(s1[length..]);
        if end.None? then (Eof, s2) else (Ok(s1[..length]), s2)
  }

  function Items(s: string, count: nat): (Result<seq<string>>, string)
    decreases count
  {
    if count == 0 then (Ok([]), s)
    else
      match Item(s)
      case (Ok(x), s1) => (match Items(s1, count - 1) case (Ok(xs), s2) => (Ok([x] + xs), s2) case (e, s2) => (e, s2))
      case (Eof, s1) => (Eof, s1)
      case (Empty, s1) => (Empty, s1)
      case (BadArrayLength, s1) => (BadArrayLength, s1)
      case (NotBulk, s1) => (NotBulk, s1)
      case (BadBulkLength, s1) => (BadBulkLength, s1)
  }

  predicate IsSpace(c: char)
  {
    c in "\t\n\r " || c as int == 11 || c as int == 12
  }

  /** The words of an inline command. */
  function Fields(s: string): seq<string>
  {
    if s == "" then []
    else if IsSpace(s[0]) then Fields(s[1..])
    else
      var n := WordLength(s);
      [s[..n]] + Fields(s[n..])
  }

  function WordLength(s: string): (n: nat)
    ensures n <= |s| && (s != "" && !IsSpace(s[0]) ==> n > 0)
  {
    if s == "" || IsSpace(s[0]) then 0 else 1 + WordLength(s[1..])
  }

  function Command(s: string): (Result<seq<string>>, string)
  {
    var (line, s1) := Line(s);
    if line.None? then (Eof, s1)
    else if line.value == "" then (Empty, s1)
    else if line.value[0] == '*' then
      var (count, ok) := Atoi(line.value[1..]);
      if !ok || count <= 0 then (BadArrayLength, s1) else Items(s1, count)
    else if Fields(line.value) == [] then (Empty, s1)
    else (Ok(Fields(line.value)), s1)
  }

  // ---------- writing ----------

  function Bulk(x: string): string
  {
    "$" + Decimal(|x|) + "\r\n" + x + "\r\n"
  }

  function Bulks(xs: seq<string>): string
  {
    if xs == [] then "" else Bulks(xs[..|xs| - 1]) + Bulk(xs[|xs| - 1])
  }

  function Array(xs: seq<string>): string
  {
    "*" + Decimal(|xs|) + "\r\n" + Bulks(xs)
  }

  /** A bulk string and a command as they go over the wire. */
  lemma BulkOnTheWire()
    ensures Bulk("GET") == "$3\r\nGET\r\n" && Bulk("a\r\nb") == "$4\r\na\r\nb\r\n"
  {
    assert Decimal(3) == "3" && Decimal(4) == "4";
  }

  lemma ArrayOnTheWire(x: string, y: string)
    ensures Array([x, y]) == "*2\r\n" + Bulk(x) + Bulk(y)
  {
    hide Bulk;
    assert [x, y][..1] == [x] && [x][..0] == [];
    assert Bulks([x]) == Bulks([]) + Bulk(x);
    assert Bulks([x, y]) == Bulks([x]) + Bulk(y);
    assert Decimal(2) == "2";
  }

  /** Lengths that fit the machine's integers, as every list and text in memory has. */
  predicate Fits(xs: seq<string>)
  {
    |xs| <= MAX_INT && forall i :: 0 <= i < |xs| ==> |xs[i]| <= MAX_INT
  }

  method EncodeArray(items: seq<string>) returns (result: string)
    ensures result == Array(items)
  {
    result := "*" + Decimal(|items|) + "\r\n";
    for i := 0 to |items|
      invariant result == "*" + Decimal(|items|) + "\r\n" + Bulks(items[..i])
    {
      result := result + ("$" + Decimal(|items[i]|) + "\r\n" + items[i] + "\r\n");
      assert items[..i + 1][..i] == items[..i];
    }
    assert items[..|items|] == items;
  }

  // ---------- what is written is read ----------

  lemma {:induction false} TrimNothing(a: string, end: string)
    requires (a == "" || a[|a| - 1] !in "\r\n") && forall i :: 0 <= i < |end| ==> end[i] in "\r\n"
    ensures TrimRight(a + end) == a
  {
    if end == "" {
      assert a + end == a;
    } else {
      assert (a + end)[..|a + end| - 1] == a + end[..|end| - 1];
      TrimNothing(a, end[..|end| - 1]);
    }
  }

  lemma LineOf(a: string, rest: string)
    requires '\n' !in a && (a == "" || a[|a| - 1] != '\r')
    ensures Line(a + "\r\n" + rest) == (Some(a), rest)
  {
    var s := a + "\r\n" + rest;
    var k := |a| + 1;
    assert s[..k] == a + "\r" && s[k] == '\n';
    IndexOfUnique(s, '\n', k);
    TrimNothing(a, "\r\n");
    assert s[..k + 1] == a + "\r\n" && s[k + 1..] == rest;
  }

  lemma DecimalLine(mark: char, n: nat, rest: string)
    requires mark != '\n' && mark != '\r'
    ensures Line([mark] + Decimal(n) + "\r\n" + rest) == (Some([mark] + Decimal(n)), rest)
    ensures ([mark] + Decimal(n))[1..] == Decimal(n)
  {
    LineOf([mark] + Decimal(n), rest);
  }

  lemma ItemOfBulk(x: string, rest: string)
    requires |x| <= MAX_INT
    ensures Item(Bulk(x) + rest) == (Ok(x), rest)
  {
    hide Line;
    var s1 := x + "\r\n" + rest;
    assert Bulk(x) + rest == ['$'] + Decimal(|x|) + "\r\n" + s1;
    DecimalLine('$', |x|, s1);
    AtoiOfDecimal(|x|);
    assert s1[..|x|] == x && s1[|x|..] == "" + "\r\n" + rest;
    LineOf("", rest);
  }

  lemma {:induction false} BulksFront(xs: seq<string>)
    requires xs != []
    ensures Bulks(xs) == Bulk(xs[0]) + Bulks(xs[1..])
  {
    hide Bulk;
    var n := |xs| - 1;
    if n == 0 {
      assert Bulks(xs[..0]) == "" && Bulks(xs[1..]) == "";
    } else {
      BulksFront(xs[..n]);
      var tail := xs[1..];
      assert xs[..n][1..] == tail[..n - 1];
      assert Bulks(tail) == Bulks(tail[..n - 1]) + Bulk(xs[n]);
      assert Bulks(xs) == Bulk(xs[0]) + Bulks(tail[..n - 1]) + Bulk(xs[n]);
    }
  }

  lemma {:induction false} ItemsOfBulks(xs: seq<string>, rest: string)
    requires Fits(xs)
    ensures Items(Bulks(xs) + rest, |xs|) == (Ok(xs), rest)
    decreases |xs|
  {
    hide Item, Bulk, Bulks;
    if xs == [] {
      assert Bulks(xs) + rest == rest by { BulksNone(); }
    } else {
      BulksFront(xs);
      assert Bulks(xs) + rest == Bulk(xs[0]) + (Bulks(xs[1..]) + rest);
      ItemOfBulk(xs[0], Bulks(xs[1..]) + rest);
      ItemsOfBulks(xs[1..], rest);
      assert [xs[0]] + xs[1..] == xs;
    }
  }

  lemma BulksNone()
    ensures Bulks([]) == ""
  {
  }

  /** Every non-empty list of byte strings comes back, with the following bytes untouched. */
  lemma CommandOfArray(xs: seq<string>, rest: string)
    requires xs != [] && Fits(xs)
    ensures Command(Array(xs) + rest) == (Ok(xs), rest)
  {
    hide Line, Items, Bulks;
    assert Array(xs) + rest == ['*'] + Decimal(|xs|) + "\r\n" + (Bulks(xs) + rest);
    DecimalLine('*', |xs|, Bulks(xs) + rest);
    AtoiOfDecimal(|xs|);
    ItemsOfBulks(xs, rest);
  }

  ghost function Arrays(cmds: seq<seq<string>>): string
  {
    if cmds == [] then "" else Array(cmds[0]) + Arrays(cmds[1..])
  }

  ghost function Commands(s: string, n: nat): Option<(seq<seq<string>>, string)>
    decreases n
  {
    if n == 0 then Some(([], s))
    else
      match Command(s)
      case (Ok(xs), s1) =>
        (match Commands(s1, n - 1) case Some((cmds, s2)) => Some(([xs] + cmds, s2)) case None => None)
      case _ => None
  }

  /** A pipeline of commands parses back in order. */
  lemma {:induction false} PipelineParses(cmds: seq<seq<string>>, rest: string)
    requires forall i :: 0 <= i < |cmds| ==> cmds[i] != [] && Fits(cmds[i])
    ensures Commands(Arrays(cmds) + rest, |cmds|) == Some((cmds, rest))
    decreases |cmds|
  {
    hide Command, Array;
    if cmds != [] {
      assert Arrays(cmds) + rest == Array(cmds[0]) + (Arrays(cmds[1..]) + rest);
      CommandOfArray(cmds[0], Arrays(cmds[1..]) + rest);
      PipelineParses(cmds[1..], rest);
      assert [cmds[0]] + cmds[1..] == cmds;
    } else {
      assert Arrays(cmds) + rest == rest;
    }
  }

  // ---------- the reader ----------

  /** A reader over the bytes that are still to come. */
  class Reader {
    var rest: string

    constructor (input: string)
      ensures rest == input
    {
      rest := input;
    }

    method ReadLine() returns (line: Option<string>)
      modifies this
      ensures (line, rest) == Line(old(rest))
    {
      var i := IndexOf(rest, '\n');
      if i == |rest| {
        rest := "";
        return None;
      }
      line := Some(TrimRight(rest[..i + 1]));
      rest := rest[i + 1..];
    }

    method ReadFull(n: nat) returns (data: Option<string>)
      modifies this
      ensures |old(rest)| < n ==> data == None && rest == ""
      ensures |old(rest)| >= n ==> data == Some(old(rest)[..n]) && rest == old(rest)[n..]
    {
      if |rest| < n {
        rest := "";
        return None;
      }
      data := Some(rest[..n]);
      rest := rest[n..];
    }

    /** Reads one command, or says why there is none. */
    method ParseCommand() returns (r: Result<seq<string>>)
      modifies this
      ensures (r, rest) == Command(old(rest))
    {
      hide Line, Items, Atoi, Fields;
      var line := ReadLine();
      if line.None? {
        return Eof;
      }
      if |line.value| == 0 {
        return Empty;
      }
      if line.value[0] == '*' {
        r := ParseArray(line.value);
      } else if |Fields(line.value)| == 0 {
        r := Empty;
      } else {
        r := Ok(Fields(line.value));
      }
    }

    method ParseArray(firstLine: string) returns (r: Result<seq<string>>)
      requires firstLine != ""
      modifies this
      ensures var (count, ok) := Atoi(firstLine[1..]);
              (r, rest) == if !ok || count <= 0 then (BadArrayLength, old(rest)) else Items(old(rest), count)
    {
      hide Item, Atoi;
      var (count, ok) := Atoi(firstLine[1..]);
      if !ok {
        return BadArrayLength;
      }
      if count <= 0 {
        return BadArrayLength;
      }
      var args: seq<string> := [];
      ghost var start := rest;
      PrependedEnds(args, start, count);
      for i := 0 to count
        invariant |args| == i
        invariant Items(start, count) == Prepended(args, Items(rest, count - i))
      {
        ghost var before := rest;
        var x := ParseItem();
        ItemsStep(before, count - i, args);
        match x {
          case Ok(v) => args := args + [v];
          case Eof => return Eof;
          case Empty => return Empty;
          case BadArrayLength => return BadArrayLength;
          case NotBulk => return NotBulk;
          case BadBulkLength => return BadBulkLength;
        }
      }
      PrependedEnds(args, rest, 0);
      return Ok(args);
    }

    method ParseItem() returns (x: Result<string>)
      modifies this
      ensures (x, rest) == Item(old(rest))
    {
      hide Line, Atoi;
      var line := ReadLine();
      if line.None? {
        return Eof;
      }
      if |line.value| == 0 || line.value[0] != '$' {
        return NotBulk;
      }
      var (length, ok) := Atoi(line.value[1..]);
      if !ok {
        return BadBulkLength;
      }
      if length < 0 {
        return Ok("");
      }
      var data := ReadFull(length);
      if data.None? {
        return Eof;
      }
      var end := ReadLine();
      if end.None? {
        return Eof;
      }
      return Ok(data.value);
    }
  }

  /** A result with arguments already read put in front of it. */
  ghost function Prepended(args: seq<string>, r: (Result<seq<string>>, string)): (Result<seq<string>>, string)
  {
    match r.0
    case Ok(xs) => (Ok(args + xs), r.1)
    case _ => r
  }

  lemma PrependedEnds(args: seq<string>, s: string, count: nat)
    ensures Prepended([], Items(s, count)) == Items(s, count)
    ensures Prepended(args, Items(s, 0)) == (Ok(args), s)
  {
    var (r, s1) := Items(s, count);
    if r.Ok? { assert [] + r.value == r.value; }
    assert args + [] == args;
  }

  lemma ItemsStep(s: string, count: nat, args: seq<string>)
    requires count > 0
    ensures Item(s).0.Ok? ==>
              Prepended(args, Items(s, count)) == Prepended(args + [Item(s).0.value], Items(Item(s).1, count - 1))
    ensures Item(s).0.Eof? ==> Prepended(args, Items(s, count)) == (Eof, Item(s).1)
    ensures Item(s).0.Empty? ==> Prepended(args, Items(s, count)) == (Empty, Item(s).1)
    ensures Item(s).0.BadArrayLength? ==> Prepended(args, Items(s, count)) == (BadArrayLength, Item(s).1)
    ensures Item(s).0.NotBulk? ==> Prepended(args, Items(s, count)) == (NotBulk, Item(s).1)
    ensures Item(s).0.BadBulkLength? ==> Prepended(args, Items(s, count)) == (BadBulkLength, Item(s).1)
  {
    hide Item;
    if Item(s).0.Ok? {
      var (r, s2) := Items(Item(s).1, count - 1);
      if r.Ok? { assert args + ([Item(s).0.value] + r.value) == args + [Item(s).0.value] + r.value; }
    }
  }
}
