/** Glob patterns: what they mean, and the regular expression the server compiles them to. */
module Globs {
  /** `*` stands for any text and `?` for any one character. */
  ghost predicate Glob(p: string, s: string)
    decreases |p|
  {
    if p == "" then s == ""
    else if p[0] == '*' then exists k :: 0 <= k <= |s| && Glob(p[1..], s[k..])
    else s != "" && (p[0] == '?' || p[0] == s[0]) && Glob(p[1..], s[1..])
  }

  /** The same, with wildcards that never stand for a newline. */
  ghost predicate LineGlob(p: string, s: string)
    decreases |p|
  {
    if p == "" then s == ""
    else if p[0] == '*' then exists k :: 0 <= k <= |s| && '\n' !in s[..k] && LineGlob(p[1..], s[k..])
    else s != "" && (if p[0] == '?' then s[0] != '\n' else p[0] == s[0]) && LineGlob(p[1..], s[1..])
  }

  /** Text without wildcards matches itself alone. */
  lemma {:induction false} PlainGlob(p: string, s: string)
    requires '*' !in p && '?' !in p
    ensures Glob(p, s) <==> p == s
  {
    if p != "" && s != "" {
      PlainGlob(p[1..], s[1..]);
      assert p == [p[0]] + p[1..] && s == [s[0]] + s[1..];
    }
  }

  /** A question mark takes one character, and a star any number of them. */
  lemma WildGlob(p: string, s: string)
    ensures Glob("?" + p, s) <==> s != "" && Glob(p, s[1..])
    ensures Glob("*" + p, s) <==> Glob(p, s) || (s != "" && Glob("*" + p, s[1..]))
  {
    assert ("?" + p)[1..] == p && ("*" + p)[1..] == p && s[0..] == s;
    if k :| 0 <= k <= |s| && Glob(p, s[k..]) {
      if k > 0 { assert s[1..][k - 1..] == s[k..]; }
    }
    if s != "" {
      if k :| 0 <= k <= |s[1..]| && Glob(p, s[1..][k..]) { assert s[1..][k..] == s[k + 1..]; }
    }
  }

  // ---------- the compiler ----------

  predicate Meta(c: char)
  {
    c in "\\.+*?()|[]{}^$"
  }

  function Quoted(c: char): string
  {
    if Meta(c) then ['\\', c] else [c]
  }

  function QuoteMeta(s: string): string
  {
    if s == "" then "" else Quoted(s[0]) + QuoteMeta(s[1..])
  }

  /** Replaces the occurrences of a two-character text, from the left, without overlap. */
  function ReplaceAll(s: string, from: string, to: string): string
    requires |from| == 2
  {
    if |s| < 2 then s
    else if s[..2] == from then to + ReplaceAll(s[2..], from, to)
    else [s[0]] + ReplaceAll(s[1..], from, to)
  }

  /** The regular expression between its anchors. */
  function CompilePattern(p: string): string
  {
    ReplaceAll(ReplaceAll(QuoteMeta(p), "\\*", ".*"), "\\?", ".")
  }

  // ---------- the regular expressions it produces ----------

  datatype Token = Literal(c: char) | AnyOne | AnyRun

  function Parse(r: string): seq<Token>
  {
    if r == "" then []
    else if r[0] == '\\' && |r| > 1 then [Literal(r[1])] + Parse(r[2..])
    else if r[0] == '.' && |r| > 1 && r[1] == '*' then [AnyRun] + Parse(r[2..])
    else if r[0] == '.' then [AnyOne] + Parse(r[1..])
    else [Literal(r[0])] + Parse(r[1..])
  }

  /** Anchored matching; a dot stands for any character but a newline. */
  predicate MatchTokens(r: seq<Token>, s: string)
    decreases |r|
  {
    if r == [] then s == ""
    else match r[0]
      case Literal(c) => s != "" && s[0] == c && MatchTokens(r[1..], s[1..])
      case AnyOne => s != "" && s[0] != '\n' && MatchTokens(r[1..], s[1..])
      case AnyRun => exists k :: 0 <= k <= |s| && '\n' !in s[..k] && MatchTokens(r[1..], s[k..])
  }

  /** compilePattern(p).MatchString(s). */
  predicate Matches(p: string, s: string)
  {
    MatchTokens(Parse(CompilePattern(p)), s)
  }

  // ---------- it is right ----------

  /** The text after one or both replacements, character by character. */
  function Rewritten(p: string, questions: bool): string
  {
    if p == "" then ""
    else
      (if p[0] == '*' then ".*" else if questions && p[0] == '?' then "." else Quoted(p[0])) +
      Rewritten(p[1..], questions)
  }

  lemma HeadQuoted(p: string)
    ensures QuoteMeta(p) != "" ==> QuoteMeta(p)[0] != '*'
  {
  }

  lemma HeadRewritten(p: string, questions: bool)
    ensures Rewritten(p, questions) != "" ==> Rewritten(p, questions)[0] != '*' && Rewritten(p, questions)[0] != '?'
  {
  }

  /** A copied character that starts no occurrence. */
  lemma Copies(c: char, rest: string, from: string, to: string)
    requires |from| == 2 && (c != from[0] || rest == "" || rest[0] != from[1])
    ensures ReplaceAll([c] + rest, from, to) == [c] + ReplaceAll(rest, from, to)
  {
    assert ([c] + rest)[1..] == rest;
  }

  lemma Replaces(rest: string, from: string, to: string)
    requires |from| == 2
    ensures ReplaceAll(from + rest, from, to) == to + ReplaceAll(rest, from, to)
  {
    assert (from + rest)[..2] == from && (from + rest)[2..] == rest;
  }

  /** A quoted character other than the one looked for stays. */
  lemma CopiesQuoted(c: char, rest: string, from: string, to: string)
    requires |from| == 2 && from[0] == '\\' && from[1] != c && from[1] != '\\' && (rest == "" || rest[0] != from[1])
    ensures ReplaceAll(Quoted(c) + rest, from, to) == Quoted(c) + ReplaceAll(rest, from, to)
  {
    Copies(c, rest, from, to);
    if Meta(c) {
      Copies('\\', [c] + rest, from, to);
      assert Quoted(c) + rest == ['\\'] + ([c] + rest);
    }
  }

  lemma {:induction false} StarsReplaced(p: string)
    ensures ReplaceAll(QuoteMeta(p), "\\*", ".*") == Rewritten(p, false)
  {
    if p != "" {
      var rest := QuoteMeta(p[1..]);
      StarsReplaced(p[1..]);
      HeadQuoted(p[1..]);
      if p[0] == '*' {
        assert Quoted('*') == "\\*";
        Replaces(rest, "\\*", ".*");
      } else {
        CopiesQuoted(p[0], rest, "\\*", ".*");
      }
    }
  }

  lemma {:induction false} QuestionsReplaced(p: string)
    ensures ReplaceAll(Rewritten(p, false), "\\?", ".") == Rewritten(p, true)
  {
    if p != "" {
      var rest := Rewritten(p[1..], false);
      QuestionsReplaced(p[1..]);
      HeadRewritten(p[1..], false);
      if p[0] == '*' {
        Copies('*', rest, "\\?", ".");
        Copies('.', ['*'] + rest, "\\?", ".");
        assert ".*" + rest == ['.'] + (['*'] + rest);
      } else if p[0] == '?' {
        assert Quoted('?') == "\\?";
        Replaces(rest, "\\?", ".");
      } else {
        CopiesQuoted(p[0], rest, "\\?", ".");
      }
    }
  }

  function Tokens(p: string): seq<Token>
  {
    if p == "" then []
    else [if p[0] == '*' then AnyRun else if p[0] == '?' then AnyOne else Literal(p[0])] + Tokens(p[1..])
  }

  lemma {:induction false} ParsesBack(p: string)
    ensures Parse(Rewritten(p, true)) == Tokens(p)
  {
    if p != "" {
      var rest := Rewritten(p[1..], true);
      ParsesBack(p[1..]);
      HeadRewritten(p[1..], true);
      var r := Rewritten(p, true);
      if p[0] == '*' || (p[0] != '?' && Meta(p[0])) {
        assert r[2..] == rest;
      } else {
        assert r[1..] == rest;
      }
    }
  }

  lemma {:induction false} TokensMatch(p: string, s: string)
    ensures MatchTokens(Tokens(p), s) <==> LineGlob(p, s)
    decreases |p|
  {
    if p != "" {
      assert Tokens(p)[1..] == Tokens(p[1..]);
      if p[0] == '*' {
        forall k | 0 <= k <= |s| ensures MatchTokens(Tokens(p[1..]), s[k..]) <==> LineGlob(p[1..], s[k..]) {
          TokensMatch(p[1..], s[k..]);
        }
      } else if s != "" {
        TokensMatch(p[1..], s[1..]);
      }
    }
  }

  /** Quoting, the two replacements and the regular expression amount to the glob. */
  lemma CompiledRight(p: string, s: string)
    ensures Matches(p, s) <==> LineGlob(p, s)
  {
    StarsReplaced(p);
    QuestionsReplaced(p);
    ParsesBack(p);
    TokensMatch(p, s);
  }

  lemma {:induction false} OneLine(p: string, s: string)
    requires '\n' !in s
    ensures LineGlob(p, s) <==> Glob(p, s)
    decreases |p|
  {
    if p != "" {
      if p[0] == '*' {
        forall k | 0 <= k <= |s| ensures LineGlob(p[1..], s[k..]) <==> Glob(p[1..], s[k..]) && '\n' !in s[..k] {
          OneLine(p[1..], s[k..]);
        }
      } else if s != "" {
        OneLine(p[1..], s[1..]);
      }
    }
  }

  /** The compiled patterns are globs exactly on the channels without a newline. */
  lemma GlobExactly(s: string)
    ensures (forall p :: Matches(p, s) <==> Glob(p, s)) <==> '\n' !in s
  {
    if '\n' !in s {
      forall p ensures Matches(p, s) <==> Glob(p, s) {
        CompiledRight(p, s);
        OneLine(p, s);
      }
    } else {
      CompiledRight("*", s);
      assert s[|s|..] == "" && s[..|s|] == s;
      assert Glob("*", s) by { assert Glob("*"[1..], s[|s|..]); }
      assert !LineGlob("*", s);
    }
  }
}
