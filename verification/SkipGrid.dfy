/** The pointer grid of a skip list as a value, and what linking and unlinking do to it. */
module SkipGrids {
  import opened Order
  import opened Towers

  const MAX_LEVEL := 32

  /** One level of a tower: the forward pointer and the span counter beside it. */
  datatype Link = Link(next: SkipNode?, span: int)

  class SkipNode {
    const member: string
    const score: real
    var tower: seq<Link>
    ghost var pos: nat  // position in the list, the header being 0

    constructor (member: string, score: real, height: nat)
      ensures this.member == member && this.score == score
      ensures tower == seq(height, _ => Link(null, 0))
    {
      this.member, this.score := member, score;
      tower := seq(height, _ => Link(null, 0));
    }

    function Key(): Entry { Entry(member, score) }
  }

  /** The towers of all nodes, by position. */
  type Grid = seq<seq<Link>>

  ghost function Heights(grid: Grid): (hs: seq<nat>)
    ensures |hs| == |grid|
    ensures forall p :: 0 <= p < |grid| ==> hs[p] == |grid[p]|
  {
    seq(|grid|, p requires 0 <= p < |grid| => |grid[p]|)
  }

  ghost function NodeAt(nodes: seq<SkipNode>, q: nat): SkipNode?
  {
    if q < |nodes| then nodes[q] else null
  }

  ghost predicate LinkOk(nodes: seq<SkipNode>, hs: seq<nat>, level: nat, p: nat, i: nat, c: Link)
    requires p < |hs|
  {
    c.next == NodeAt(nodes, Next(hs, p, i)) && (i < level ==> c.span == Gap(hs, p, i))
  }

  /** Every pointer leads to the next taller tower, and every span in use is exact. */
  ghost predicate Linked(nodes: seq<SkipNode>, grid: Grid, level: nat)
  {
    && |nodes| == |grid|
    && forall p, i {:trigger LinkOk(nodes, Heights(grid), level, p, i, grid[p][i])} ::
         0 <= p < |grid| && 0 <= i < |grid[p]| ==> LinkOk(nodes, Heights(grid), level, p, i, grid[p][i])
  }

  /** What the descent finds: `rank[i]` is the position of the last tower taller than
    * `i` among positions 0..below. */
  ghost predicate IsPath(grid: Grid, level: nat, rank: seq<nat>, below: nat, from: int)
    requires 0 <= from
  {
    && |rank| == MAX_LEVEL && level <= MAX_LEVEL && below < |grid|
    && forall i :: from <= i < level ==>
         rank[i] <= below && i < |grid[rank[i]]| && Next(Heights(grid), rank[i], i) > below
  }

  /** A path cell after a node `x` of height `h` is inserted behind position `below`. */
  ghost function Bent(c: Link, i: nat, h: nat, d: int, x: SkipNode): Link
  {
    if i < h then Link(x, d + 1) else Link(c.next, c.span + 1)
  }

  /** The cell the new node takes over from the path. */
  ghost function Taken(c: Link, d: int): Link
  {
    Link(c.next, c.span - d)
  }

  /** `grid'` is `grid` with the path cells below level `n` bent. */
  ghost predicate Spliced(grid: Grid, grid': Grid, rank: seq<nat>, below: nat, x: SkipNode, h: nat, n: nat)
    requires n <= |rank|
  {
    && |grid'| == |grid|
    && (forall p :: 0 <= p < |grid| ==> |grid'[p]| == |grid[p]|)
    && (forall p, j {:trigger grid'[p][j]} :: 0 <= p < |grid| && 0 <= j < |grid[p]| ==>
         grid'[p][j] == if j < n && rank[j] == p then Bent(grid[p][j], j, h, below - p, x) else grid[p][j])
  }

  ghost predicate TowerTaken(grid: Grid, rank: seq<nat>, below: nat, tower: seq<Link>, n: nat)
    requires n <= |rank| && n <= |tower|
    requires forall j :: 0 <= j < n ==> rank[j] < |grid| && j < |grid[rank[j]]|
  {
    forall j :: 0 <= j < n ==> tower[j] == Taken(grid[rank[j]][j], below - rank[j])
  }

  /** Of the towers taller than `i` up to position `below`, only the one on the path
    * has its pointer crossing the insertion point. */
  lemma SplicedCell(grid: Grid, level: nat, rank: seq<nat>, below: nat, x: SkipNode, h: nat, grid': Grid, p: nat,
    i: nat)
    requires IsPath(grid, level, rank, below, 0) && Spliced(grid, grid', rank, below, x, h, level)
    requires p < |grid| && i < |grid[p]|
    ensures grid'[p][i] ==
            if i < level && p <= below < Next(Heights(grid), p, i) then Bent(grid[p][i], i, h, below - p, x)
            else grid[p][i]
  {
    assert i < level ==> rank[i] <= below && Next(Heights(grid), rank[i], i) > below;
  }

  // Each lemma below moves one pointer cell from the old geometry (nodes, hs) to the
  // new one (nodes', hs'), obtained by inserting or removing position k.

  lemma LinkBefore(nodes: seq<SkipNode>, hs: seq<nat>, nodes': seq<SkipNode>, hs': seq<nat>, level: nat, k: nat,
    h: nat, x: SkipNode, p: nat, i: nat, c: Link)
    requires |nodes| == |hs| && p < k && h <= level
    requires Inserted(nodes, k, x, nodes') && Inserted<nat>(hs, k, h, hs')
    requires LinkOk(nodes, hs, level, p, i, c)
    ensures LinkOk(nodes', hs', level, p, i, if Next(hs, p, i) < k then c else Bent(c, i, h, k - 1 - p, x))
  {
    NextInsertBefore(hs, k, h, hs', p, i);
  }

  lemma LinkAt(nodes: seq<SkipNode>, hs: seq<nat>, nodes': seq<SkipNode>, hs': seq<nat>, level: nat, k: nat, h: nat,
    x: SkipNode, r: nat, i: nat, c: Link)
    requires |nodes| == |hs| && r < k && h <= level && i < h
    requires Inserted(nodes, k, x, nodes') && Inserted<nat>(hs, k, h, hs')
    requires Next(hs, r, i) >= k && LinkOk(nodes, hs, level, r, i, c)
    ensures LinkOk(nodes', hs', level, k, i, Taken(c, k - 1 - r))
  {
    NextInsertAt(hs, k, h, hs', r, i);
  }

  lemma LinkAfter(nodes: seq<SkipNode>, hs: seq<nat>, nodes': seq<SkipNode>, hs': seq<nat>, level: nat, k: nat,
    h: nat, x: SkipNode, p: nat, i: nat, c: Link)
    requires |nodes| == |hs| && k <= p < |hs|
    requires Inserted(nodes, k, x, nodes') && Inserted<nat>(hs, k, h, hs')
    requires LinkOk(nodes, hs, level, p, i, c)
    ensures LinkOk(nodes', hs', level, p + 1, i, c)
  {
    NextInsertAfter(hs, k, h, hs', p, i);
  }

  lemma UnlinkBefore(nodes: seq<SkipNode>, hs: seq<nat>, nodes': seq<SkipNode>, hs': seq<nat>, level: nat, k: nat,
    p: nat, i: nat, c: Link, xt: seq<Link>)
    requires |nodes| == |hs| && p < k < |hs| && |xt| == hs[k] <= level
    requires Removed(nodes, k, nodes') && Removed<nat>(hs, k, hs')
    requires LinkOk(nodes, hs, level, p, i, c)
    requires i < |xt| ==> LinkOk(nodes, hs, level, k, i, xt[i])
    ensures LinkOk(nodes', hs', level, p, i, if Next(hs, p, i) < k then c else Bypass(c, xt, i))
  {
    NextRemoveBefore(hs, k, hs', p, i);
  }

  lemma UnlinkAfter(nodes: seq<SkipNode>, hs: seq<nat>, nodes': seq<SkipNode>, hs': seq<nat>, level: nat, k: nat,
    p: nat, i: nat, c: Link)
    requires |nodes| == |hs| && k < p < |hs|
    requires Removed(nodes, k, nodes') && Removed<nat>(hs, k, hs')
    requires LinkOk(nodes, hs, level, p, i, c)
    ensures LinkOk(nodes', hs', level, p - 1, i, c)
  {
    NextRemoveAfter(hs, k, hs', p, i);
  }

  lemma LinkedAt(nodes: seq<SkipNode>, grid: Grid, level: nat, p: nat, i: nat)
    requires Linked(nodes, grid, level) && p < |grid| && i < |grid[p]|
    ensures LinkOk(nodes, Heights(grid), level, p, i, grid[p][i])
  {
    assert LinkOk(nodes, Heights(grid), level, p, i, grid[p][i]);
  }

  /** Heights of inner towers are bounded by the current level; the header's is not. */
  ghost predicate Capped(grid: Grid, level: nat)
  {
    && 1 <= level <= MAX_LEVEL && |grid| >= 1 && |grid[0]| == MAX_LEVEL
    && forall p :: 0 < p < |grid| ==> 1 <= |grid[p]| <= level
  }

  lemma CappedHeader(grid: Grid, level: nat)
    requires Capped(grid, level)
    ensures |grid| >= 1 && |grid[0]| == MAX_LEVEL && 1 <= level <= MAX_LEVEL
  {
  }

  lemma NilAboveLevel(grid: Grid, level: nat, p: nat, i: nat)
    requires Capped(grid, level) && p < |grid| && level <= i < |grid[p]|
    ensures p == 0 && Next(Heights(grid), 0, i) == |grid|
  {
  }

  /** One old cell after the splice, whatever its position. */
  lemma SpliceCell(nodes: seq<SkipNode>, grid: Grid, nodes': seq<SkipNode>, hs': seq<nat>, level: nat, rank: seq<nat>,
    below: nat, x: SkipNode, h: nat, grid1: Grid, p: nat, i: nat)
    requires IsPath(grid, level, rank, below, 0) && Capped(grid, level) && h <= level
    requires Spliced(grid, grid1, rank, below, x, h, level)
    requires |nodes| == |grid| && Inserted(nodes, below + 1, x, nodes') &&
             Inserted<nat>(Heights(grid), below + 1, h, hs')
    requires p < |grid| && i < |grid[p]| && LinkOk(nodes, Heights(grid), level, p, i, grid[p][i])
    ensures LinkOk(nodes', hs', level, if p <= below then p else p + 1, i, grid1[p][i])
  {
    var hs, c := Heights(grid), grid[p][i];
    SplicedCell(grid, level, rank, below, x, h, grid1, p, i);
    if p <= below {
      LinkBefore(nodes, hs, nodes', hs', level, below + 1, h, x, p, i, c);
      if i >= level { NilAboveLevel(grid, level, p, i); }
    } else {
      LinkAfter(nodes, hs, nodes', hs', level, below + 1, h, x, p, i, c);
    }
  }

  lemma SplicedHeights(grid: Grid, grid1: Grid, rank: seq<nat>, below: nat, x: SkipNode, tower: seq<Link>, level: nat,
    grid': Grid)
    requires level <= |rank| && Spliced(grid, grid1, rank, below, x, |tower|, level)
    requires Inserted(grid1, below + 1, tower, grid')
    ensures Inserted<nat>(Heights(grid), below + 1, |tower|, Heights(grid'))
  {
  }

  /** One cell of the new node's tower. */
  lemma SplicedNew(nodes: seq<SkipNode>, grid: Grid, level: nat, rank: seq<nat>, below: nat, x: SkipNode,
    tower: seq<Link>, nodes': seq<SkipNode>, hs': seq<nat>, i: nat)
    requires Linked(nodes, grid, level) && IsPath(grid, level, rank, below, 0) && |tower| <= level
    requires TowerTaken(grid, rank, below, tower, |tower|)
    requires Inserted(nodes, below + 1, x, nodes') && Inserted<nat>(Heights(grid), below + 1, |tower|, hs')
    requires i < |tower|
    ensures LinkOk(nodes', hs', level, below + 1, i, tower[i])
  {
    LinkedAt(nodes, grid, level, rank[i], i);
    LinkAt(nodes, Heights(grid), nodes', hs', level, below + 1, |tower|, x, rank[i], i, grid[rank[i]][i]);
  }

  /** Splicing in a node keeps every pointer and span exact. */
  lemma SpliceLinked(nodes: seq<SkipNode>, grid: Grid, level: nat, rank: seq<nat>, below: nat, x: SkipNode,
    grid1: Grid, tower: seq<Link>, nodes': seq<SkipNode>, grid': Grid)
    requires Linked(nodes, grid, level) && IsPath(grid, level, rank, below, 0) && Capped(grid, level)
    requires |tower| <= level && Spliced(grid, grid1, rank, below, x, |tower|, level)
    requires TowerTaken(grid, rank, below, tower, |tower|)
    requires Inserted(nodes, below + 1, x, nodes') && Inserted(grid1, below + 1, tower, grid')
    ensures Linked(nodes', grid', level)
  {
    var hs' := Heights(grid');
    SplicedHeights(grid, grid1, rank, below, x, tower, level, grid');
    forall p, i | 0 <= p < |grid'| && 0 <= i < |grid'[p]| ensures LinkOk(nodes', hs', level, p, i, grid'[p][i]) {
      if p <= below {
        assert grid'[p] == grid1[p];
        LinkedAt(nodes, grid, level, p, i);
        SpliceCell(nodes, grid, nodes', hs', level, rank, below, x, |tower|, grid1, p, i);
      } else if p == below + 1 {
        SplicedNew(nodes, grid, level, rank, below, x, tower, nodes', hs', i);
      } else {
        assert grid'[p] == grid1[p - 1];
        LinkedAt(nodes, grid, level, p - 1, i);
        SpliceCell(nodes, grid, nodes', hs', level, rank, below, x, |tower|, grid1, p - 1, i);
      }
    }
  }

  /** A path cell after the node with tower `xt` behind it is taken out. */
  ghost function Bypass(c: Link, xt: seq<Link>, i: nat): Link
  {
    if i < |xt| then Link(xt[i].next, c.span + xt[i].span - 1) else Link(c.next, c.span - 1)
  }

  /** `grid'` is `grid` with the path cells below level `n` led past position `k`. */
  ghost predicate Unlinked(grid: Grid, grid': Grid, rank: seq<nat>, k: nat, n: nat)
    requires n <= |rank| && k < |grid|
  {
    && |grid'| == |grid|
    && (forall p :: 0 <= p < |grid| ==> |grid'[p]| == |grid[p]|)
    && (forall p, j {:trigger grid'[p][j]} :: 0 <= p < |grid| && 0 <= j < |grid[p]| ==>
         grid'[p][j] == if j < n && rank[j] == p then Bypass(grid[p][j], grid[k], j) else grid[p][j])
  }

  lemma UnlinkedCell(grid: Grid, level: nat, rank: seq<nat>, below: nat, grid': Grid, p: nat, i: nat)
    requires IsPath(grid, level, rank, below, 0) && below + 1 < |grid| && Unlinked(grid, grid', rank, below + 1, level)
    requires p < |grid| && i < |grid[p]|
    ensures grid'[p][i] ==
            if i < level && p <= below < Next(Heights(grid), p, i) then Bypass(grid[p][i], grid[below + 1], i)
            else grid[p][i]
  {
    assert i < level ==> rank[i] <= below && Next(Heights(grid), rank[i], i) > below;
  }

  lemma UnlinkCell(nodes: seq<SkipNode>, grid: Grid, nodes': seq<SkipNode>, hs': seq<nat>, level: nat, rank: seq<nat>,
    below: nat, grid1: Grid, p: nat, i: nat)
    requires Linked(nodes, grid, level) && IsPath(grid, level, rank, below, 0) && Capped(grid, level) &&
             below + 1 < |grid|
    requires Unlinked(grid, grid1, rank, below + 1, level)
    requires Removed(nodes, below + 1, nodes') && Removed<nat>(Heights(grid), below + 1, hs')
    requires p < |grid| && i < |grid[p]| && p != below + 1
    ensures LinkOk(nodes', hs', level, if p <= below then p else p - 1, i, grid1[p][i])
  {
    var hs, k := Heights(grid), below + 1;
    assert |grid[k]| <= level;
    LinkedAt(nodes, grid, level, p, i);
    hide Linked, LinkOk;
    UnlinkedCell(grid, level, rank, below, grid1, p, i);
    if p <= below {
      if i < |grid[k]| { LinkedAt(nodes, grid, level, k, i); }
      UnlinkBefore(nodes, hs, nodes', hs', level, k, p, i, grid[p][i], grid[k]);
      if i >= level { NilAboveLevel(grid, level, p, i); }
    } else {
      UnlinkAfter(nodes, hs, nodes', hs', level, k, p, i, grid[p][i]);
    }
  }

  lemma UnlinkedHeights(grid: Grid, grid1: Grid, rank: seq<nat>, k: nat, level: nat, grid': Grid)
    requires level <= |rank| && k < |grid| && Unlinked(grid, grid1, rank, k, level) && Removed(grid1, k, grid')
    ensures Removed<nat>(Heights(grid), k, Heights(grid'))
  {
  }

  /** Taking out a node keeps every pointer and span exact. */
  lemma UnlinkLinked(nodes: seq<SkipNode>, grid: Grid, level: nat, rank: seq<nat>, below: nat, grid1: Grid,
    nodes': seq<SkipNode>, grid': Grid)
    requires Linked(nodes, grid, level) && IsPath(grid, level, rank, below, 0) && Capped(grid, level) &&
             below + 1 < |grid|
    requires Unlinked(grid, grid1, rank, below + 1, level)
    requires Removed(nodes, below + 1, nodes') && Removed(grid1, below + 1, grid')
    ensures Linked(nodes', grid', level)
  {
    var hs' := Heights(grid');
    UnlinkedHeights(grid, grid1, rank, below + 1, level, grid');
    assert |grid1| == |grid| && forall p :: 0 <= p < |grid| ==> |grid1[p]| == |grid[p]|;
    hide IsPath, Capped, Unlinked, LinkOk;
    forall p, i | 0 <= p < |grid'| && 0 <= i < |grid'[p]| ensures LinkOk(nodes', hs', level, p, i, grid'[p][i]) {
      if p <= below {
        assert grid'[p] == grid1[p];
        UnlinkCell(nodes, grid, nodes', hs', level, rank, below, grid1, p, i);
      } else {
        assert grid'[p] == grid1[p + 1];
        UnlinkCell(nodes, grid, nodes', hs', level, rank, below, grid1, p + 1, i);
      }
    }
  }

  /** The path survives the removal of the node behind it. */
  lemma UnlinkPath(grid: Grid, level: nat, rank: seq<nat>, below: nat, grid1: Grid, grid': Grid, level': nat)
    requires IsPath(grid, level, rank, below, 0) && below + 1 < |grid| && level' <= level
    requires Unlinked(grid, grid1, rank, below + 1, level) && Removed(grid1, below + 1, grid')
    ensures IsPath(grid', level', rank, below, 0)
  {
    var hs, hs' := Heights(grid), Heights(grid');
    UnlinkedHeights(grid, grid1, rank, below + 1, level, grid');
    forall i | 0 <= i < level' ensures Next(hs', rank[i], i) > below {
      NextRemoveBefore(hs, below + 1, hs', rank[i], i);
    }
  }

  /** One turn of deleteNode's loop. */
  lemma UnlinkStep(grid: Grid, g: Grid, rank: seq<nat>, k: nat, i: nat)
    requires i < |rank| && k < |grid| && rank[i] < |grid| && i < |grid[rank[i]]|
    requires Unlinked(grid, g, rank, k, i)
    ensures g[rank[i]][i] == grid[rank[i]][i]
    ensures rank[i] < k ==> i < |grid[k]| ==> (forall j :: 0 <= j < i ==> rank[j] < k) ==> g[k][i] == grid[k][i]
    ensures Unlinked(grid, g[rank[i] := g[rank[i]][i := Bypass(grid[rank[i]][i], grid[k], i)]], rank, k, i + 1)
  {
  }

  /** The stored entries in list order; the header holds none. */
  ghost function Entries(nodes: seq<SkipNode>): (es: seq<Entry>)
    requires |nodes| >= 1
    ensures |es| == |nodes| - 1
    ensures forall p {:trigger nodes[p].Key()} :: 1 <= p < |nodes| ==> es[p - 1] == nodes[p].Key()
    ensures forall p {:trigger es[p]} :: 0 <= p < |es| ==> es[p] == nodes[p + 1].Key()
  {
    seq(|nodes| - 1, p requires 0 <= p < |nodes| - 1 => nodes[p + 1].Key())
  }

  /** The nodes with keys before `e` are those at positions 1..below. */
  ghost predicate Splits(nodes: seq<SkipNode>, e: Entry, below: nat)
  {
    && below < |nodes|
    && forall p {:trigger nodes[p].Key()} :: 1 <= p < |nodes| ==> (Less(nodes[p].Key(), e) <==> p <= below)
  }

  /** A test that holds of exactly the nodes at positions 1..below. */
  ghost predicate SplitBy(nodes: seq<SkipNode>, ahead: SkipNode -> bool, below: nat)
  {
    below < |nodes| && forall p :: 1 <= p < |nodes| ==> (ahead(nodes[p]) <==> p <= below)
  }

  lemma SplitsBelow(nodes: seq<SkipNode>, e: Entry)
    requires |nodes| >= 1 && Sorted(Entries(nodes))
    ensures Splits(nodes, e, Below(Entries(nodes), e)) && Below(Entries(nodes), e) < |nodes|
  {
    BelowSplits(Entries(nodes), e);
  }

  lemma RemovedEntries(nodes: seq<SkipNode>, k: nat, nodes': seq<SkipNode>)
    requires 1 <= k && Removed(nodes, k, nodes') && Sorted(Entries(nodes))
    ensures Removed(Entries(nodes), k - 1, Entries(nodes')) && Sorted(Entries(nodes'))
  {
    var es, es' := Entries(nodes), Entries(nodes');
    assert Removed(es, k - 1, es');
    forall i, j | 0 <= i < j < |es'| ensures Less(es'[i], es'[j]) {
      assert Less(es[if i < k - 1 then i else i + 1], es[if j < k - 1 then j else j + 1]);
    }
  }

  lemma InsertedFrame(s: seq<SkipNode>, k: nat, x: SkipNode, r: seq<SkipNode>)
    requires Inserted(s, k, x, r)
    ensures forall p :: 0 <= p < |r| ==> r[p] in s || r[p] == x
  {
  }

  lemma RemovedFrame(s: seq<SkipNode>, k: nat, r: seq<SkipNode>)
    requires Removed(s, k, r)
    ensures forall p :: 0 <= p < |r| ==> r[p] in s
    ensures forall p :: 0 <= p < k ==> r[p] == s[p]
  {
  }

  lemma RemovedLast<T>(s: seq<T>, k: nat, r: seq<T>)
    requires 1 <= k && Removed(s, k, r)
    ensures |r| == |s| - 1 && r[|r| - 1] == if k == |s| - 1 then s[k - 1] else s[|s| - 1]
  {
  }

  lemma LowerPath(grid: Grid, level: nat, rank: seq<nat>, below: nat, level': nat)
    requires IsPath(grid, level, rank, below, 0) && level' <= level
    ensures IsPath(grid, level', rank, below, 0)
  {
  }

  lemma UnlinkedCapped(grid: Grid, level: nat, rank: seq<nat>, k: nat, grid1: Grid, grid': Grid)
    requires Capped(grid, level) && level <= |rank| && 1 <= k < |grid|
    requires Unlinked(grid, grid1, rank, k, level) && Removed(grid1, k, grid')
    ensures Capped(grid', level)
  {
  }

  /** On the path, exactly the levels below the height of the node behind it point to it. */
  lemma PathHits(nodes: seq<SkipNode>, grid: Grid, level: nat, rank: seq<nat>, below: nat, i: nat)
    requires Linked(nodes, grid, level) && IsPath(grid, level, rank, below, 0) && below + 1 < |grid| && i < level
    requires forall q :: 0 <= q < |nodes| && nodes[q] == nodes[below + 1] ==> q == below + 1
    ensures grid[rank[i]][i].next == nodes[below + 1] <==> i < |grid[below + 1]|
  {
    LinkedAt(nodes, grid, level, rank[i], i);
  }

  /** An unused top level may be dropped. */
  lemma LowerLevel(nodes: seq<SkipNode>, grid: Grid, level: nat)
    requires Capped(grid, level) && Linked(nodes, grid, level) && level > 1 && grid[0][level - 1].next == null
    ensures Capped(grid, level - 1) && Linked(nodes, grid, level - 1)
  {
    LinkedAt(nodes, grid, level, 0, level - 1);
    assert forall p :: 0 < p < |grid| ==> Heights(grid)[p] <= level - 1;
    forall p, i | 0 <= p < |grid| && 0 <= i < |grid[p]|
      ensures LinkOk(nodes, Heights(grid), level - 1, p, i, grid[p][i])
    {
      LinkedAt(nodes, grid, level, p, i);
    }
  }

  /** One turn of insert's linking loops. */
  lemma SpliceStep(grid: Grid, g: Grid, rank: seq<nat>, below: nat, x: SkipNode, h: nat, i: nat)
    requires i < |rank| && rank[i] < |grid| && i < |grid[rank[i]]|
    requires Spliced(grid, g, rank, below, x, h, i)
    ensures g[rank[i]][i] == grid[rank[i]][i]
    ensures Spliced(grid, g[rank[i] := g[rank[i]][i := Bent(grid[rank[i]][i], i, h, below - rank[i], x)]], rank,
            below, x, h, i + 1)
  {
  }

  lemma SpliceStart(grid: Grid, rank: seq<nat>, below: nat, x: SkipNode, h: nat, tower: seq<Link>)
    ensures Spliced(grid, grid, rank, below, x, h, 0) && TowerTaken(grid, rank, below, tower, 0)
  {
  }

  lemma SplicedWidths(grid: Grid, g: Grid, rank: seq<nat>, below: nat, x: SkipNode, h: nat, n: nat)
    requires n <= |rank| && Spliced(grid, g, rank, below, x, h, n)
    ensures |g| == |grid| && forall p :: 0 <= p < |grid| ==> |g[p]| == |grid[p]|
  {
  }

  lemma TakeStep(grid: Grid, rank: seq<nat>, below: nat, tower: seq<Link>, i: nat)
    requires i < |rank| && i < |tower| && rank[i] < |grid| && i < |grid[rank[i]]|
    requires forall j :: 0 <= j < i ==> rank[j] < |grid| && j < |grid[rank[j]]|
    requires TowerTaken(grid, rank, below, tower, i)
    ensures TowerTaken(grid, rank, below, tower[i := Taken(grid[rank[i]][i], below - rank[i])], i + 1)
  {
  }

  /** `grid'` is `grid` with the header's spans from `level` up to `n` set to `length`. */
  ghost predicate HeaderRaised(grid: Grid, grid': Grid, level: nat, n: nat, length: int)
  {
    && |grid'| == |grid| >= 1 && |grid'[0]| == |grid[0]|
    && (forall p :: 1 <= p < |grid| ==> grid'[p] == grid[p])
    && (forall i {:trigger grid'[0][i]} :: 0 <= i < |grid[0]| ==>
         grid'[0][i] == if level <= i < n then Link(grid[0][i].next, length) else grid[0][i])
  }

  lemma RaisedHeights(grid: Grid, grid': Grid, level: nat, n: nat, length: int)
    requires HeaderRaised(grid, grid', level, n, length)
    ensures Heights(grid') == Heights(grid)
  {
  }

  lemma RaisedCell(nodes: seq<SkipNode>, grid: Grid, grid': Grid, level: nat, n: nat, p: nat, i: nat)
    requires Linked(nodes, grid, level) && Capped(grid, level) && level <= n <= MAX_LEVEL
    requires HeaderRaised(grid, grid', level, n, |nodes| - 1)
    requires p < |grid'| && i < |grid'[p]|
    ensures LinkOk(nodes, Heights(grid), n, p, i, grid'[p][i])
  {
    LinkedAt(nodes, grid, level, p, i);
    if i >= level { NilAboveLevel(grid, level, p, i); }
  }

  /** Opening new levels in the header keeps the list linked, and the path extends into them. */
  lemma RaiseLinked(nodes: seq<SkipNode>, grid: Grid, grid': Grid, level: nat, n: nat)
    requires Linked(nodes, grid, level) && Capped(grid, level) && level <= n <= MAX_LEVEL
    requires HeaderRaised(grid, grid', level, n, |nodes| - 1)
    ensures Linked(nodes, grid', n) && Capped(grid', n)
  {
    RaisedHeights(grid, grid', level, n, |nodes| - 1);
    forall p, i | 0 <= p < |grid'| && 0 <= i < |grid'[p]| ensures LinkOk(nodes, Heights(grid'), n, p, i, grid'[p][i]) {
      RaisedCell(nodes, grid, grid', level, n, p, i);
    }
  }

  lemma RaisePath(grid: Grid, grid': Grid, level: nat, n: nat, length: int, rank: seq<nat>, rank': seq<nat>, below: nat)
    requires IsPath(grid, level, rank, below, 0) && Capped(grid, level) && level <= n <= MAX_LEVEL
    requires HeaderRaised(grid, grid', level, n, length)
    requires |rank'| == MAX_LEVEL && forall i :: 0 <= i < n ==> rank'[i] == if i < level then rank[i] else 0
    ensures IsPath(grid', n, rank', below, 0)
  {
    RaisedHeights(grid, grid', level, n, length);
    forall i | 0 <= i < n ensures i < |grid'[rank'[i]]| && Next(Heights(grid'), rank'[i], i) > below {
      if i >= level { NilAboveLevel(grid, level, 0, i); }
    }
  }

  lemma InsertedEntries(nodes: seq<SkipNode>, below: nat, x: SkipNode, nodes': seq<SkipNode>)
    requires |nodes| >= 1 && Sorted(Entries(nodes)) && Splits(nodes, x.Key(), below)
    requires below + 1 < |nodes| ==> nodes[below + 1].Key() != x.Key()
    requires Inserted(nodes, below + 1, x, nodes')
    ensures Inserted(Entries(nodes), below, x.Key(), Entries(nodes')) && Sorted(Entries(nodes'))
  {
    var es, es', e := Entries(nodes), Entries(nodes'), x.Key();
    assert Inserted(es, below, e, es');
    forall i | below <= i < |es| ensures Less(e, es[i]) {
      assert es[i] == nodes[i + 1].Key();
      LessTotal(e, es[i]);
      LessTotal(e, es[below]);
      if i > below { LessTransitive(e, es[below], es[i]); }
    }
    forall i, j | 0 <= i < j < |es'| ensures Less(es'[i], es'[j]) {
      if i == below {
        assert es'[j] == es[j - 1];
      } else if j == below {
        assert es'[i] == nodes[i + 1].Key();
      } else {
        assert Less(es[if i < below then i else i - 1], es[if j < below then j else j - 1]);
      }
    }
  }

  lemma PathBounds(grid: Grid, level: nat, rank: seq<nat>, below: nat)
    requires IsPath(grid, level, rank, below, 0)
    ensures level <= MAX_LEVEL && below < |grid|
    ensures forall i :: 0 <= i < level ==> rank[i] <= below && i < |grid[rank[i]]|
  {
  }

  lemma SplicedCapped(grid: Grid, level: nat, rank: seq<nat>, below: nat, x: SkipNode, grid1: Grid, tower: seq<Link>,
    grid': Grid)
    requires Capped(grid, level) && level <= |rank| && Spliced(grid, grid1, rank, below, x, |tower|, level)
    requires Inserted(grid1, below + 1, tower, grid') && 1 <= |tower| <= level
    ensures Capped(grid', level)
  {
  }

  /** The header's pointer at the top level is set exactly when some tower reaches it. */
  lemma TopUsed(nodes: seq<SkipNode>, grid: Grid, level: nat)
    requires Capped(grid, level) && Linked(nodes, grid, level)
    ensures grid[0][level - 1].next != null <==> exists p :: 1 <= p < |grid| && Heights(grid)[p] >= level
  {
    LinkedAt(nodes, grid, level, 0, level - 1);
    var q := Next(Heights(grid), 0, level - 1);
    assert q < |grid| ==> Heights(grid)[q] >= level;
  }

  lemma TopKept(hs: seq<nat>, k: nat, h: nat, hs': seq<nat>, level: nat)
    requires 1 <= k && Inserted<nat>(hs, k, h, hs')
    ensures (exists p :: 1 <= p < |hs| && hs[p] >= level) ==> exists p :: 1 <= p < |hs'| && hs'[p] >= level
    ensures h >= level ==> exists p :: 1 <= p < |hs'| && hs'[p] >= level
  {
    if p :| 1 <= p < |hs| && hs[p] >= level {
      assert hs'[if p < k then p else p + 1] >= level;
    }
    assert hs'[k] == h;
  }

  lemma InsertedLast<T>(s: seq<T>, k: nat, x: T, r: seq<T>)
    requires Inserted(s, k, x, r)
    ensures |r| == |s| + 1 && r[k] == x && r[|r| - 1] == if k == |s| then x else s[|s| - 1]
  {
  }

  lemma PathStart(nodes: seq<SkipNode>, grid: Grid, level: nat, rank: seq<nat>, ahead: SkipNode -> bool, below: nat)
    requires Capped(grid, level) && |nodes| == |grid| && SplitBy(nodes, ahead, below) && |rank| == MAX_LEVEL
    ensures 1 <= level <= |grid[0]| && level <= MAX_LEVEL && below < |grid| && IsPath(grid, level, rank, below, level)
  {
  }

  lemma PathExtend(grid: Grid, level: nat, rank: seq<nat>, below: nat, i: nat, r: nat)
    requires i < level && IsPath(grid, level, rank, below, i + 1)
    requires r <= below && i < |grid[r]| && Next(Heights(grid), r, i) > below
    ensures IsPath(grid, level, rank[i := r], below, i)
  {
  }

  lemma PathEnd(grid: Grid, level: nat, rank: seq<nat>, below: nat)
    requires Capped(grid, level) && IsPath(grid, level, rank, below, 0)
    ensures rank[0] == below
  {
    assert Next(Heights(grid), rank[0], 0) == rank[0] + 1;
  }

  lemma PutTakeAbsent(s: seq<Entry>, e: Entry)
    requires Sorted(s)
    ensures e in s ==> Put(s, e) == s
    ensures e !in s ==> Take(s, e) == s
  {
    FoundAtBelow(s, e);
  }

  lemma PutInserted(s: seq<Entry>, e: Entry, r: seq<Entry>)
    requires var k := Below(s, e); Inserted(s, k, e, r) && (k < |s| ==> s[k] != e && s[k].member != e.member)
    ensures r == Put(s, e)
  {
  }

  lemma PutReplaced(s: seq<Entry>, e: Entry, m: seq<Entry>, r: seq<Entry>)
    requires var k := Below(s, e);
             k < |s| && s[k] != e && s[k].member == e.member && Removed(s, k, m) && Inserted(m, k, e, r)
    ensures r == Put(s, e)
  {
  }

  lemma TakeRemoved(s: seq<Entry>, e: Entry, r: seq<Entry>)
    requires var k := Below(s, e); k < |s| && s[k] == e && Removed(s, k, r)
    ensures r == Take(s, e)
  {
  }

  /** Taking out the entry at the split point leaves the split in place. */
  lemma SplitsRemoved(nodes: seq<SkipNode>, e: Entry, below: nat, nodes': seq<SkipNode>)
    requires |nodes| >= 1 && Sorted(Entries(nodes)) && Splits(nodes, e, below) && Removed(nodes, below + 1, nodes')
    requires nodes[below + 1].Key() != e
    ensures Splits(nodes', e, below) && (below + 1 < |nodes'| ==> nodes'[below + 1].Key() != e)
  {
    assert !Less(nodes[below + 1].Key(), e);
    forall p | 1 <= p < |nodes'| ensures Less(nodes'[p].Key(), e) <==> p <= below {
      assert nodes'[p].Key() == nodes[if p < below + 1 then p else p + 1].Key();
    }
    if below + 1 < |nodes'| {
      var es := Entries(nodes);
      assert es[below] == nodes[below + 1].Key() && es[below + 1] == nodes[below + 2].Key();
      LessTotal(e, es[below]);
      LessTransitive(e, es[below], es[below + 1]);
      LessTotal(e, es[below + 1]);
    }
  }

  /** The position of a member, or |es|. */
  ghost function PlaceOf(es: seq<Entry>, member: string): (k: nat)
    ensures k <= |es| && (forall i :: 0 <= i < k ==> es[i].member != member) && (k < |es| ==> es[k].member == member)
  {
    if es == [] || es[0].member == member then 0
    else
      var k := PlaceOf(es[1..], member);
      assert es == [es[0]] + es[1..];
      1 + k
  }

  /** How many entries come before `e` or are `e`. */
  ghost function UpTo(es: seq<Entry>, e: Entry): nat
  {
    Below(es, e) + if e in es then 1 else 0
  }

  /** A descent towards `upto` stands on p at some level: nobody from p to there is as tall. */
  ghost predicate OnPath(hs: seq<nat>, p: nat, upto: nat)
  {
    p <= upto < |hs| && forall q :: p < q <= upto ==> hs[q] < hs[p]
  }

  /** The one position on which the descent stands at level j, against any other. */
  lemma StandsOn(hs: seq<nat>, at: nat, upto: nat, r: nat, j: nat)
    requires at <= upto < |hs| && r <= upto && hs[r] > j && Next(hs, r, j) > upto
    ensures r == at ==> OnPath(hs, at, upto)
    ensures hs[at] == j + 1 && OnPath(hs, at, upto) ==> r == at
  {
  }

  lemma SplitUpTo(nodes: seq<SkipNode>, e: Entry, ahead: SkipNode -> bool)
    requires |nodes| >= 1 && Sorted(Entries(nodes))
    requires forall n: SkipNode :: ahead(n) <==> Less(n.Key(), e) || n.Key() == e
    ensures UpTo(Entries(nodes), e) < |nodes| && SplitBy(nodes, ahead, UpTo(Entries(nodes), e))
  {
    var es, b := Entries(nodes), Below(Entries(nodes), e);
    BelowSplits(es, e);
    if e in es {
      FoundAtBelow(es, e);
    }
    forall p | 1 <= p < |nodes| ensures ahead(nodes[p]) <==> p <= UpTo(es, e) {
      assert es[p - 1] == nodes[p].Key();
      if e in es && p > b + 1 { LessTotal(es[b], es[p - 1]); }
    }
  }

  /** A member's place is its only one. */
  lemma OnlyOne(nodes: seq<SkipNode>, member: string)
    requires |nodes| >= 1 && UniqueMembers(Entries(nodes))
    ensures var k := PlaceOf(Entries(nodes), member);
            forall r :: 1 <= r < |nodes| ==> (nodes[r].member == member <==> k < |Entries(nodes)| && r == k + 1)
  {
    var es := Entries(nodes);
    var k := PlaceOf(es, member);
    forall r | 1 <= r < |nodes| ensures nodes[r].member == member <==> k < |es| && r == k + 1 {
      assert es[r - 1] == nodes[r].Key();
    }
  }

  /** The header, whose member is "", is taken for the empty member when the first node of
    * the top level already lies past it. */
  ghost predicate Mistaken(hs: seq<nat>, level: nat, member: string, upto: nat)
    requires hs != [] && level >= 1
  {
    member == "" && Next(hs, 0, level - 1) > upto
  }

  /** What a search for an entry by rank comes back with: the place of its member, if the
    * descent stands on it. */
  ghost function Found(es: seq<Entry>, hs: seq<nat>, level: nat, e: Entry): int
    requires hs != [] && level >= 1
  {
    var k := PlaceOf(es, e.member);
    if k < |es| && OnPath(hs, k + 1, UpTo(es, e)) && !Mistaken(hs, level, e.member, UpTo(es, e)) then k else -1
  }

  /** A present entry is found at its index in the sorted sequence. */
  lemma FoundPresent(es: seq<Entry>, hs: seq<nat>, level: nat, e: Entry)
    requires Sorted(es) && UniqueMembers(es) && e in es && |hs| == |es| + 1 && level >= 1
    ensures Found(es, hs, level, e) == if Mistaken(hs, level, e.member, Below(es, e) + 1) then -1 else Below(es, e)
  {
    hide Next;
    FoundAtBelow(es, e);
    assert PlaceOf(es, e.member) == Below(es, e);
  }

  /** An absent entry is not found if its member is missing or stored under a higher score. */
  lemma FoundAbsent(es: seq<Entry>, hs: seq<nat>, level: nat, e: Entry)
    requires Sorted(es) && |hs| == |es| + 1 && level >= 1 && e !in es
    requires forall x :: x in es && x.member == e.member ==> x.score > e.score
    ensures Found(es, hs, level, e) == -1
  {
    hide Next;
    BelowSplits(es, e);
  }

  /** The empty member can be overlooked: low at position 1, with a taller node behind it. */
  lemma OverlookedPossible()
    ensures var es, hs := [Entry("", 0.0), Entry("a", 0.0)], [MAX_LEVEL, 1, 2];
            Sorted(es) && UniqueMembers(es) && Mistaken(hs, 2, "", UpTo(es, es[0]))
  {
    var es := [Entry("", 0.0), Entry("a", 0.0)];
    assert StringLess("", "a");
    assert es[0] in es && Below(es, es[0]) == 0;
  }

  lemma NextGround(grid: Grid, level: nat, r: nat)
    requires Capped(grid, level) && r < |grid|
    ensures Next(Heights(grid), r, 0) == r + 1
  {
  }

  lemma SplitByScore(nodes: seq<SkipNode>, min: real, ahead: SkipNode -> bool)
    requires |nodes| >= 1 && Sorted(Entries(nodes))
    requires forall n: SkipNode :: ahead(n) <==> n.score < min
    ensures BelowScore(Entries(nodes), min) < |nodes| && SplitBy(nodes, ahead, BelowScore(Entries(nodes), min))
  {
    var es := Entries(nodes);
    BelowScoreSplits(es, min);
    forall p | 1 <= p < |nodes| ensures ahead(nodes[p]) <==> p <= BelowScore(es, min) {
      assert es[p - 1] == nodes[p].Key();
    }
  }

  lemma SplitUpToScore(nodes: seq<SkipNode>, max: real, ahead: SkipNode -> bool)
    requires |nodes| >= 1 && Sorted(Entries(nodes))
    requires forall n: SkipNode :: ahead(n) <==> n.score <= max
    ensures UpToScore(Entries(nodes), max) < |nodes| && SplitBy(nodes, ahead, UpToScore(Entries(nodes), max))
  {
    var es := Entries(nodes);
    UpToScoreSplits(es, max);
    forall p | 1 <= p < |nodes| ensures ahead(nodes[p]) <==> p <= UpToScore(es, max) {
      assert es[p - 1] == nodes[p].Key();
    }
  }

  lemma SplitBefore(nodes: seq<SkipNode>, p: nat, ahead: SkipNode -> bool)
    requires 0 < p < |nodes| && Sorted(Entries(nodes))
    requires forall n: SkipNode :: ahead(n) <==> n != nodes[p] && !Less(nodes[p].Key(), n.Key())
    ensures SplitBy(nodes, ahead, p - 1)
  {
    var es := Entries(nodes);
    forall q | 1 <= q < |nodes| ensures ahead(nodes[q]) <==> q <= p - 1 {
      assert es[q - 1] == nodes[q].Key() && es[p - 1] == nodes[p].Key();
      LessTotal(es[q - 1], es[p - 1]);
      LessTotal(es[p - 1], es[p - 1]);
    }
  }

  lemma TowerWithin(grid: Grid, level: nat, p: nat)
    requires Capped(grid, level) && 0 < p < |grid|
    ensures |grid[p]| <= level
  {
  }

  lemma NextReaches(hs: seq<nat>, r: nat, i: nat, p: nat)
    requires r < p < |hs| && Next(hs, r, i) >= p
    ensures Next(hs, r, i) == p <==> hs[p] > i
  {
  }

  /** Following one pointer: where it leads and how far it is. */
  lemma Hop(nodes: seq<SkipNode>, grid: Grid, level: nat, r: nat, i: nat)
    requires Linked(nodes, grid, level) && r < |grid| && i < |grid[r]| && i < level
    ensures var c, q := grid[r][i], Next(Heights(grid), r, i);
            if c.next == null then q == |grid|
            else r < q < |grid| && c.next == nodes[q] && c.span == q - r && i < |grid[q]|
  {
    LinkedAt(nodes, grid, level, r, i);
  }
}
