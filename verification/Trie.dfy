/** The pattern trie: patterns are filed under their text up to the first wildcard. */
module Tries {
  import opened Globs

  predicate Wild(c: char)
  {
    c == '*' || c == '?'
  }

  function Prefix(p: string): string
  {
    if p == "" || Wild(p[0]) then "" else [p[0]] + Prefix(p[1..])
  }

  /** The text up to the first wildcard. */
  lemma {:induction false} PrefixExactly(p: string)
    ensures Prefix(p) <= p && '*' !in Prefix(p) && '?' !in Prefix(p)
    ensures |Prefix(p)| < |p| ==> p[|Prefix(p)|] == '*' || p[|Prefix(p)|] == '?'
  {
    if p != "" && !Wild(p[0]) { PrefixExactly(p[1..]); }
  }

  /** A pattern can only match channels that start with its prefix. */
  lemma {:induction false} PrefixNeeded(p: string, s: string)
    requires LineGlob(p, s)
    ensures Prefix(p) <= s
  {
    if p != "" && !Wild(p[0]) {
      PrefixNeeded(p[1..], s[1..]);
      assert s == [p[0]] + s[1..];
    }
  }

  lemma {:induction false} PrefixIs(p: string, n: nat)
    requires n <= |p| && (forall k :: 0 <= k < n ==> !Wild(p[k])) && (n < |p| ==> Wild(p[n]))
    ensures Prefix(p) == p[..n]
  {
    if n > 0 {
      PrefixIs(p[1..], n - 1);
      assert p[..n] == [p[0]] + p[1..][..n - 1];
    }
  }

  method LiteralPrefix(p: string) returns (prefix: string)
    ensures prefix == Prefix(p)
  {
    var n := 0;
    while n < |p| && !Wild(p[n])
      invariant n <= |p| && forall k :: 0 <= k < n ==> !Wild(p[k])
    {
      n := n + 1;
    }
    PrefixIs(p, n);
    return p[..n];
  }

  class TrieNode {
    var children: map<char, TrieNode>
    var patterns: seq<string>
    ghost const path: string

    constructor (ghost path: string)
      ensures children == map[] && patterns == [] && this.path == path
    {
      children, patterns := map[], [];
      this.path := path;
    }
  }

  /** The patterns filed under each prefix. */
  type Files = map<string, seq<string>>

  ghost function Times(held: Files, p: string): nat
  {
    if Prefix(p) in held then multiset(held[Prefix(p)])[p] else 0
  }

  /** Every initial part of a prefix has its node, and patterns lie under their own prefix. */
  ghost predicate Filed(held: Files)
  {
    && "" in held && (forall q, n :: q in held && 0 <= n <= |q| ==> q[..n] in held)
    && forall q, p :: q in held && p in held[q] ==> Prefix(p) == q
  }

  type Links = map<string, map<char, TrieNode>>

  /** The children of a prefix's node are the nodes of the prefixes one longer. */
  ghost predicate Linked(index: map<string, TrieNode>, links: Links)
  {
    && links.Keys == index.Keys
    && (forall q, c :: q in links ==> (c in links[q] <==> q + [c] in index))
    && forall q, c :: q in links && c in links[q] ==> links[q][c] == index[q + [c]]
  }

  lemma SnocInjective(q: string, c: char, r: string, d: char)
    ensures q + [c] == r + [d] <==> q == r && c == d
  {
    if q + [c] == r + [d] {
      assert q == (q + [c])[..|q|] && r == (r + [d])[..|r|];
      assert c == (q + [c])[|q|];
    }
  }

  lemma FiledGrows(held: Files, q: string, c: char)
    requires Filed(held) && q in held && q + [c] !in held
    ensures Filed(held[q + [c] := []]) && (forall d :: q + [c] + [d] !in held)
    ensures forall p :: Times(held[q + [c] := []], p) == Times(held, p)
  {
    var held' := held[q + [c] := []];
    forall r, n | r in held' && 0 <= n <= |r| ensures r[..n] in held' {
      if r == q + [c] && n <= |q| { assert r[..n] == q[..n]; }
      if r == q + [c] && n > |q| { assert r[..n] == r; }
    }
    forall d ensures q + [c] + [d] !in held {
      assert (q + [c] + [d])[..|q| + 1] == q + [c];
    }
  }

  lemma LinkedGrows(index: map<string, TrieNode>, links: Links, q: string, c: char, child: TrieNode)
    requires Linked(index, links) && q in links && q + [c] !in index && forall d :: q + [c] + [d] !in index
    ensures Linked(index[q + [c] := child], links[q := links[q][c := child]][q + [c] := map[]])
  {
    assert q != q + [c];
    var index', links' := index[q + [c] := child], links[q := links[q][c := child]][q + [c] := map[]];
    forall r, d | r in links'
      ensures d in links'[r] <==> r + [d] in index'
      ensures d in links'[r] ==> links'[r][d] == index'[r + [d]]
    {
      SnocInjective(q, c, r, d);
    }
  }

  lemma LinkedAt(index: map<string, TrieNode>, links: Links, q: string, c: char)
    requires Linked(index, links) && q in links
    ensures c in links[q] <==> q + [c] in index
    ensures c in links[q] ==> links[q][c] == index[q + [c]]
  {
  }

  lemma FiledAppend(held: Files, p: string)
    requires Filed(held) && Prefix(p) in held
    ensures var held' := held[Prefix(p) := held[Prefix(p)] + [p]];
            Filed(held') && forall r :: Times(held', r) == Times(held, r) + if r == p then 1 else 0
  {
  }

  lemma FiledCut(held: Files, p: string, i: nat)
    requires Filed(held) && Prefix(p) in held && i < |held[Prefix(p)]| && held[Prefix(p)][i] == p
    ensures var held' := held[Prefix(p) := held[Prefix(p)][..i] + held[Prefix(p)][i + 1..]];
            Filed(held') && forall r :: Times(held', r) == Times(held, r) - if r == p then 1 else 0
  {
    var s := held[Prefix(p)];
    assert s == s[..i] + [p] + s[i + 1..];
  }

  lemma TimesIn(held: Files, p: string)
    ensures Times(held, p) > 0 <==> Prefix(p) in held && p in held[Prefix(p)]
  {
  }

  /** `r` holds, as often as they are filed, the patterns whose prefix starts channel[..n]. */
  ghost predicate Gathered(held: Files, channel: string, n: nat, r: seq<string>)
    requires n <= |channel|
  {
    forall p :: multiset(r)[p] == if Prefix(p) <= channel[..n] then Times(held, p) else 0
  }

  lemma GatheredRoot(held: Files, channel: string)
    requires Filed(held)
    ensures Gathered(held, channel, 0, held[""])
  {
  }

  lemma GatheredStep(held: Files, channel: string, n: nat, r: seq<string>)
    requires Filed(held) && n < |channel| && Gathered(held, channel, n, r) && channel[..n + 1] in held
    ensures Gathered(held, channel, n + 1, r + held[channel[..n + 1]])
  {
    var q := channel[..n + 1];
    forall p ensures multiset(r + held[q])[p] == if Prefix(p) <= q then Times(held, p) else 0 {
      assert q[..n] == channel[..n];
      assert Prefix(p) <= q <==> Prefix(p) <= channel[..n] || Prefix(p) == q;
    }
  }

  lemma GatheredAll(held: Files, channel: string, n: nat, r: seq<string>)
    requires Filed(held) && n <= |channel| && Gathered(held, channel, n, r)
    requires n < |channel| ==> channel[..n + 1] !in held
    ensures Gathered(held, channel, |channel|, r)
  {
    forall p ensures Prefix(p) <= channel && !(Prefix(p) <= channel[..n]) ==> Times(held, p) == 0 {
      if Prefix(p) <= channel && |Prefix(p)| > n {
        assert Prefix(p)[..n + 1] == channel[..n + 1];
      }
    }
    assert channel[..|channel|] == channel;
  }

  class PatternTrie {
    var root: TrieNode
    ghost var index: map<string, TrieNode>
    ghost var links: Links
    ghost var held: Files

    /** The heap nodes hold exactly `links` and `held`. */
    ghost predicate Coupled()
      reads this, index.Values
    {
      forall q :: q in index ==>
        && q in links && q in held && index[q].path == q
        && index[q].children == links[q] && index[q].patterns == held[q]
    }

    ghost predicate Valid()
      reads this, index.Values
    {
      && index.Keys == held.Keys && Filed(held) && Linked(index, links) && index[""] == root && Coupled()
    }

    constructor ()
      ensures Valid() && (forall p :: Times(held, p) == 0) && fresh(index.Values)
    {
      var node := new TrieNode("");
      root := node;
      index := map["" := node];
      links := map["" := map[]];
      held := map["" := []];
    }

    lemma NodeAt(q: string)
      requires Valid() && q in index
      ensures index[q] in index.Values && q in links && q in held
      ensures index[q].children == links[q] && index[q].patterns == held[q]
    {
    }

    /** The node for a prefix, created along with the way to it where it is missing. */
    method Ensure(prefix: string) returns (node: TrieNode)
      requires Valid()
      modifies this, index.Values
      ensures Valid() && prefix in index && node == index[prefix] && fresh(index.Values - old(index.Values))
      ensures forall p :: Times(held, p) == Times(old(held), p)
    {
      hide Filed, Linked, Coupled, Times;
      node := root;
      var i := 0;
      RootHeld();
      while i < |prefix|
        invariant i <= |prefix| && Valid() && prefix[..i] in index && node == index[prefix[..i]]
        invariant fresh(index.Values - old(index.Values))
        invariant forall p :: Times(held, p) == Times(old(held), p)
      {
        var c := prefix[i];
        assert prefix[..i + 1] == prefix[..i] + [c];
        NodeAt(prefix[..i]);
        LinkedAt(index, links, prefix[..i], c);
        if c !in node.children {
          AddChild(node, prefix[..i], c);
        }
        node := node.children[c];
        i := i + 1;
      }
      assert prefix[..i] == prefix;
    }

    lemma RootHeld()
      requires Valid()
      ensures "" in index
    {
    }

    method AddChild(node: TrieNode, ghost q: string, c: char)
      requires Valid() && q in index && node == index[q] && q + [c] !in index
      modifies this, node
      ensures Valid() && q + [c] in index && c in node.children && node.children[c] == index[q + [c]]
      ensures fresh(index.Values - old(index.Values))
      ensures forall p :: Times(held, p) == Times(old(held), p)
    {
      hide Filed, Linked, Times, Coupled;
      NodeAt(q);
      RootHeld();
      FiledGrows(held, q, c);
      var child := new TrieNode(q + [c]);
      LinkedGrows(index, links, q, c, child);
      SetChildren(node, q, node.children[c := child]);
      Enlist(q + [c], child);
    }

    method SetChildren(node: TrieNode, ghost q: string, children: map<char, TrieNode>)
      requires Coupled() && q in index && node == index[q]
      modifies `links, node`children
      ensures Coupled() && links == old(links)[q := children] && node.children == children
    {
      node.children := children;
      links := links[q := children];
    }

    ghost method Enlist(q: string, child: TrieNode)
      requires Coupled() && q !in index && child.path == q && child.children == map[] && child.patterns == []
      modifies `index, `links, `held
      ensures Coupled() && index == old(index)[q := child] && index.Values <= old(index.Values) + {child}
      ensures links == old(links)[q := map[]] && held == old(held)[q := []]
    {
      index := index[q := child];
      links := links[q := map[]];
      held := held[q := []];
    }

    method Insert(pattern: string)
      requires Valid()
      modifies this, index.Values
      ensures Valid() && fresh(index.Values - old(index.Values))
      ensures forall p :: Times(held, p) == Times(old(held), p) + if p == pattern then 1 else 0
    {
      hide Filed, Linked, Times, Coupled;
      var prefix := LiteralPrefix(pattern);
      var node := Ensure(prefix);
      NodeAt(prefix);
      Append(node, pattern);
    }

    method Append(node: TrieNode, pattern: string)
      requires Valid() && Prefix(pattern) in index && node == index[Prefix(pattern)]
      modifies `held, node`patterns
      ensures Valid()
      ensures forall p :: Times(held, p) == Times(old(held), p) + if p == pattern then 1 else 0
    {
      hide Filed, Linked, Times;
      NodeAt(Prefix(pattern));
      RootHeld();
      FiledAppend(held, pattern);
      node.patterns := node.patterns + [pattern];
      held := held[Prefix(pattern) := held[Prefix(pattern)] + [pattern]];
    }

    /** The node for a prefix, if it exists. */
    method Locate(prefix: string) returns (node: TrieNode?)
      requires Valid()
      ensures prefix in index <==> node != null
      ensures prefix in index ==> node == index[prefix]
    {
      hide Filed, Linked, Coupled;
      node := root;
      RootHeld();
      var i := 0;
      while i < |prefix|
        invariant i <= |prefix| && prefix[..i] in index && node == index[prefix[..i]]
      {
        NodeAt(prefix[..i]);
        LinkedAt(index, links, prefix[..i], prefix[i]);
        assert prefix[..i + 1] == prefix[..i] + [prefix[i]];
        if prefix[i] !in node.children {
          NoLonger(prefix, i + 1);
          return null;
        }
        node := node.children[prefix[i]];
        i := i + 1;
      }
      assert prefix[..i] == prefix;
    }

    lemma NoLonger(prefix: string, n: nat)
      requires Valid() && n <= |prefix| && prefix[..n] !in index
      ensures prefix !in index
    {
    }

    /** Takes one copy of the pattern out, if there is one. */
    method Remove(pattern: string)
      requires Valid()
      modifies this, index.Values
      ensures Valid() && index == old(index)
      ensures forall p ::
                Times(held, p) == Times(old(held), p) - if p == pattern && Times(old(held), p) > 0 then 1 else 0
    {
      hide Filed, Linked, Coupled, Times;
      var prefix := LiteralPrefix(pattern);
      var node := Locate(prefix);
      TimesIn(held, pattern);
      if node == null {
        return;
      }
      NodeAt(prefix);
      var k := 0;
      while k < |node.patterns| && node.patterns[k] != pattern
        invariant k <= |node.patterns| && forall j :: 0 <= j < k ==> node.patterns[j] != pattern
      {
        k := k + 1;
      }
      if k < |node.patterns| {
        CutAt(node, pattern, k);
      }
    }

    method CutAt(node: TrieNode, ghost pattern: string, k: nat)
      requires Valid() && Prefix(pattern) in index && node == index[Prefix(pattern)]
      requires k < |node.patterns| && node.patterns[k] == pattern
      modifies `held, node`patterns
      ensures Valid()
      ensures forall p :: Times(held, p) == Times(old(held), p) - if p == pattern then 1 else 0
    {
      hide Filed, Linked, Times;
      NodeAt(Prefix(pattern));
      RootHeld();
      FiledCut(held, pattern, k);
      node.patterns := node.patterns[..k] + node.patterns[k + 1..];
      held := held[Prefix(pattern) := held[Prefix(pattern)][..k] + held[Prefix(pattern)][k + 1..]];
    }

    /** The candidates for a channel: every filed pattern whose prefix starts the channel. */
    method GetMatchingPatterns(channel: string) returns (result: seq<string>)
      requires Valid()
      ensures forall p :: multiset(result)[p] == if Prefix(p) <= channel then Times(held, p) else 0
    {
      hide Filed, Linked, Coupled, Gathered;
      RootHeld();
      NodeAt("");
      result := root.patterns;
      GatheredRoot(held, channel);
      var node := root;
      var i := 0;
      while i < |channel|
        invariant i <= |channel| && channel[..i] in index && node == index[channel[..i]]
        invariant Gathered(held, channel, i, result)
        invariant index.Keys == held.Keys
      {
        var c := channel[i];
        NodeAt(channel[..i]);
        LinkedAt(index, links, channel[..i], c);
        assert channel[..i + 1] == channel[..i] + [c];
        if c !in node.children {
          break;
        }
        node := node.children[c];
        NodeAt(channel[..i + 1]);
        result := result + node.patterns;
        GatheredStep(held, channel, i, result[..|result| - |node.patterns|]);
        i := i + 1;
      }
      GatheredAll(held, channel, i, result);
      GatheredMeans(held, channel, result);
    }

    lemma GatheredMeans(held: Files, channel: string, r: seq<string>)
      requires Gathered(held, channel, |channel|, r)
      ensures forall p :: multiset(r)[p] == if Prefix(p) <= channel then Times(held, p) else 0
    {
      assert channel[..|channel|] == channel;
    }
  }
}
