/** Forms of input beside the array of bulk strings: inline commands, nulls and simple lines. */
module CodecLaws {
  import opened Options
  import opened Resps
  import opened Completeness

  /** Tab, newline, vertical tab, form feed, carriage return and space. */
  ghost predicate IsBlank(c: char)
  {
    9 <= c as int <= 13 || c as int == 32
  }

  lemma BlankIsSpace(c: char)
    ensures IsBlank(c) <==> IsSpace(c)
  {
  }

  /** A word of an inline command: something, and no blank in it. */
  ghost predicate IsWord(w: string)
  {
    w != "" && forall i :: 0 <= i < |w| ==> !IsBlank(w[i])
  }

  /** The words with one space behind each but the last. */
  function Spaced(ws: seq<string>): string
  {
    if ws == [] then "" else if |ws| == 1 then ws[0] else ws[0] + " " + Spaced(ws[1..])
  }

  lemma {:induction false} WordLengthOf(w: string, rest: string)
    requires (forall i :: 0 <= i < |w| ==> !IsSpace(w[i])) && (rest == "" || IsSpace(rest[0]))
    ensures WordLength(w + rest) == |w|
  {
    if w == "" {
      assert w + rest == rest;
    } else {
      assert (w + rest)[1..] == w[1..] + rest;
      WordLengthOf(w[1..], rest);
    }
  }

  lemma FieldsOfWord(w: string, rest: string)
    requires IsWord(w) && (rest == "" || IsBlank(rest[0]))
    ensures Fields(w + rest) == [w] + Fields(rest)
  {
    hide IsSpace;
    forall c: char ensures IsBlank(c) <==> IsSpace(c) { BlankIsSpace(c); }
    WordLengthOf(w, rest);
    assert (w + rest)[0] == w[0];
    assert (w + rest)[..|w|] == w && (w + rest)[|w|..] == rest;
  }

  /** The words of an inline command come back. */
  lemma {:induction false} FieldsOfSpaced(ws: seq<string>)
    requires forall i :: 0 <= i < |ws| ==> IsWord(ws[i])
    ensures Fields(Spaced(ws)) == ws
  {
    hide IsWord, IsSpace;
    BlankIsSpace(' ');
    if |ws| == 1 {
      FieldsOfWord(ws[0], "");
      assert ws[0] + "" == ws[0];
    } else if |ws| > 1 {
      var rest := " " + Spaced(ws[1..]);
      assert Spaced(ws) == ws[0] + rest;
      FieldsOfWord(ws[0], rest);
      assert rest[1..] == Spaced(ws[1..]);
      FieldsOfSpaced(ws[1..]);
    }
  }

  lemma FieldsOfBlank(c: char, s: string)
    requires IsBlank(c)
    ensures Fields([c] + s) == Fields(s)
  {
    BlankIsSpace(c);
    assert ([c] + s)[1..] == s;
  }

  lemma FieldsOfNothing()
    ensures Fields("") == []
  {
  }

  /** Any blank parts an inline command in two. */
  lemma {:induction false} FieldsSplit(a: string, c: char, b: string)
    requires IsBlank(c)
    ensures Fields(a + [c] + b) == Fields(a) + Fields(b)
    decreases |a|
  {
    hide IsSpace, IsBlank, Fields, WordLength, IsWord;
    if a == "" {
      FieldsOfNothing();
      FieldsOfBlank(c, b);
      assert a + [c] + b == [c] + b;
    } else if IsBlank(a[0]) {
      FieldsOfBlank(a[0], a[1..] + [c] + b);
      FieldsOfBlank(a[0], a[1..]);
      assert a == [a[0]] + a[1..] && a + [c] + b == [a[0]] + (a[1..] + [c] + b);
      FieldsSplit(a[1..], c, b);
    } else {
      BlankIsSpace(a[0]);
      WordOf(a);
      var w, rest := a[..WordLength(a)], a[WordLength(a)..];
      FieldsOfWord(w, rest + [c] + b);
      FieldsOfWord(w, rest);
      assert a + [c] + b == w + (rest + [c] + b) && a == w + rest;
      FieldsSplit(rest, c, b);
    }
  }

  lemma {:induction false} WordOf(a: string)
    requires a != "" && !IsSpace(a[0])
    ensures var n := WordLength(a); 0 < n <= |a| && IsWord(a[..n]) && (n < |a| ==> IsBlank(a[n]))
  {
    hide IsSpace, IsBlank;
    forall x: char ensures IsBlank(x) <==> IsSpace(x) { BlankIsSpace(x); }
    if |a| > 1 && !IsSpace(a[1]) {
      WordOf(a[1..]);
      var n := WordLength(a);
      assert a[..n] == [a[0]] + a[1..][..n - 1];
    }
  }

  lemma {:induction false} SpacedClean(ws: seq<string>)
    requires forall i :: 0 <= i < |ws| ==> IsWord(ws[i])
    ensures '\n' !in Spaced(ws) && '\r' !in Spaced(ws)
    ensures ws != [] ==> ws[0] != "" && Spaced(ws) != "" && Spaced(ws)[0] == ws[0][0]
  {
    if ws != [] {
      SpacedClean(ws[1..]);
      WordClean(ws[0]);
    }
  }

  lemma WordClean(w: string)
    requires IsWord(w)
    ensures '\n' !in w && '\r' !in w
  {
  }

  /** An inline command reads back word by word, with the following bytes untouched. */
  lemma InlineReads(ws: seq<string>, rest: string)
    requires ws != [] && (forall i :: 0 <= i < |ws| ==> IsWord(ws[i])) && !("*" <= ws[0])
    ensures Command(Spaced(ws) + "\r\n" + rest) == (Ok(ws), rest)
  {
    hide Line, Fields, Spaced, Items, Atoi, IsWord;
    SpacedClean(ws);
    LineOf(Spaced(ws), rest);
    FieldsOfSpaced(ws);
  }

  /** A null bulk string reads as an empty argument, and nothing but a bulk string is taken. */
  lemma NullItem(rest: string)
    ensures Item("$-1\r\n" + rest) == (Ok(""), rest)
    ensures Item(":1\r\n" + rest) == (NotBulk, rest) && Item("$x\r\n" + rest) == (BadBulkLength, rest)
  {
    hide Line;
    assert "$-1\r\n" + rest == "$-1" + "\r\n" + rest && ":1\r\n" + rest == ":1" + "\r\n" + rest;
    assert "$x\r\n" + rest == "$x" + "\r\n" + rest;
    LineOf("$-1", rest);
    LineOf(":1", rest);
    LineOf("$x", rest);
    assert "$-1"[1..] == "-1" && "$x"[1..] == "x" && "-1"[1..] == "1";
    assert "1"[..0] == "" && Value("1") == 1;
    assert !IsDigit("x"[0]);
  }

  lemma CountLine(t: string, rest: string)
    requires t in {"0", "-1", "x"}
    ensures Line("*" + t + "\r\n" + rest) == (Some("*" + t), rest) && CrLf("*" + t + "\r\n" + rest) == 1 + |t|
    ensures Atoi("0") == (0, true) && Atoi("-1") == (-1, true) && Atoi("x") == (0, false)
  {
    hide Line, CrLf;
    LineOf("*" + t, rest);
    CrLfOf("*" + t, rest);
    assert "-1"[1..] == "1" && "1"[..0] == "" && "0"[..0] == "" && Value("1") == 1 && Value("0") == 0;
    assert !IsDigit("x"[0]);
  }

  /** Array headers without elements: the scan lets pass a count of 0 and one that is no number,
    * but not a negative one; the reader refuses them all. */
  lemma EmptyHeader(t: string, rest: string)
    requires t in {"0", "-1", "x"}
    ensures HasComplete("*" + t + "\r\n" + rest) <==> t != "-1"
    ensures Command("*" + t + "\r\n" + rest) == (BadArrayLength, rest)
  {
    hide Line, CrLf, Atoi;
    CountLine(t, rest);
    var s := "*" + t + "\r\n" + rest;
    assert s[1..1 + |t|] == t && ("*" + t)[1..] == t && s[0] == '*';
  }

  lemma EmptyLine(rest: string)
    ensures Command("\r\n" + rest) == (Empty, rest)
  {
    hide Line;
    assert "\r\n" + rest == "" + "\r\n" + rest;
    LineOf("", rest);
  }

  /** A simple line is an element that ends with its line. */
  lemma LineElement(a: string, rest: string, count: nat)
    requires a != "" && a[0] in ":+-" && '\r' !in a
    ensures Elements(a + "\r\n" + rest, count + 1) <==> Elements(rest, count)
  {
    hide CrLf;
    var s := a + "\r\n" + rest;
    CrLfOf(a, rest);
    assert s[0] == a[0] && s[|a| + 2..] == rest;
  }
}
