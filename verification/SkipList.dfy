/** The skip list behind sorted sets: towers of forward pointers with span counters. */
module SkipLists {
  import opened Backwards
  import opened Order
  import opened Sequences
  import opened Towers
  import opened SkipGrids

  class SkipList {
    const header: SkipNode
    var tail: SkipNode?
    var length: nat
    var level: nat
    ghost var nodes: seq<SkipNode>
    ghost var grid: Grid

    /** The heap cells hold exactly `grid`. */
    ghost predicate Coupled()
      reads `nodes, `grid, nodes
    {
      && |nodes| == |grid| >= 1 && nodes[0] == header && header.member == ""
      && forall p :: 0 <= p < |nodes| ==> nodes[p].tower == grid[p] && nodes[p].pos == p
    }

    ghost predicate Core()
      reads this, nodes
    {
      Coupled() && length == |nodes| - 1 && Capped(grid, level) && Linked(nodes, grid, level)
    }

    ghost predicate Valid()
      reads this, nodes
    {
      && Core()
      && Sorted(Entries(nodes))
      && (level > 1 ==> grid[0][level - 1].next != null)
      && (length > 0 ==> tail == nodes[length])
    }

    ghost function Contents(): seq<Entry>
      reads `nodes
    {
      if |nodes| == 0 then [] else Entries(nodes)
    }

    lemma ContentsSorted()
      requires Valid()
      ensures Sorted(Contents())
    {
    }

    lemma Towered()
      requires Valid()
      ensures |Contents()| + 1 == |grid| && forall p :: 0 < p < |grid| ==> Heights(grid)[p] > 0
    {
    }

    constructor ()
      ensures Valid() && Contents() == [] && fresh(nodes)
    {
      header := new SkipNode("", 0.0, MAX_LEVEL);
      tail, length, level := null, 0, 1;
      nodes := [header];
      new;
      header.pos := 0;
      grid := [header.tower];
    }

    /** Runs along level `i` as long as the next node passes the test. */
    method Advance(ahead: SkipNode -> bool, i: nat, from: SkipNode, fromRank: nat, ghost below: nat)
      returns (x: SkipNode, r: nat)
      requires Core() && i < level && SplitBy(nodes, ahead, below)
      requires fromRank <= below && from == nodes[fromRank] && i < |grid[fromRank]|
      ensures fromRank <= r <= below && x == nodes[r] && i < |grid[r]|
      ensures Next(Heights(grid), r, i) > below
      ensures r > fromRank ==> Next(Heights(grid), fromRank, i) <= below
    {
      hide Linked, Capped, Next, Heights;
      x, r := from, fromRank;
      Hop(nodes, grid, level, r, i);
      while x.tower[i].next != null && ahead(x.tower[i].next)
        invariant fromRank <= r <= below && x == nodes[r] && i < |grid[r]|
        invariant r > fromRank ==> Next(Heights(grid), fromRank, i) <= below
        decreases |nodes| - r
      {
        Hop(nodes, grid, level, r, i);
        r := r + x.tower[i].span;
        x := x.tower[i].next;
      }
      Hop(nodes, grid, level, r, i);
    }

    /** The descent of insert and delete, which records the path. */
    method Search(ahead: SkipNode -> bool, ghost below: nat) returns (update: seq<SkipNode>, rank: seq<nat>)
      requires Core() && SplitBy(nodes, ahead, below)
      ensures |rank| == MAX_LEVEL && IsPath(grid, level, rank, below, 0) && rank[0] == below
      ensures |update| == MAX_LEVEL && forall i :: 0 <= i < level ==> update[i] == nodes[rank[i]]
    {
      hide Capped, Linked, LinkOk, IsPath, SplitBy, Next, Heights;
      update, rank := seq(MAX_LEVEL, _ => header), seq(MAX_LEVEL, _ => 0);
      var x: SkipNode := header;
      var r: nat := 0;
      var i := level - 1;
      PathStart(nodes, grid, level, rank, ahead, below);
      while i >= 0
        invariant -1 <= i < level
        invariant r <= below && x == nodes[r] && i < |grid[r]|
        invariant IsPath(grid, level, rank, below, i + 1) && |rank| == MAX_LEVEL
        invariant |update| == MAX_LEVEL
        invariant forall j :: i < j < level ==> rank[j] < |nodes| && update[j] == nodes[rank[j]]
        invariant i < level - 1 ==> rank[i + 1] == r
      {
        x, r := Advance(ahead, i, x, r, below);
        PathExtend(grid, level, rank, below, i, r);
        update, rank := update[i := x], rank[i := r];
        i := i - 1;
      }
      PathEnd(grid, level, rank, below);
    }

    /** deleteNode's loop: lead every level past `x`. */
    method Unlink(x: SkipNode, update: seq<SkipNode>, ghost rank: seq<nat>, ghost k: nat)
      requires Coupled() && k < |nodes| && x == nodes[k] && level <= |rank| && level <= |update|
      requires forall i :: 0 <= i < level ==> rank[i] < k && update[i] == nodes[rank[i]] && i < |grid[rank[i]]|
      requires forall i :: 0 <= i < level ==> (grid[rank[i]][i].next == x <==> i < |grid[k]|)
      modifies this`grid, nodes
      ensures Coupled() && Unlinked(old(grid), grid, rank, k, level) && x.tower == old(x.tower)
    {
      ghost var g0 := grid;
      var i := 0;
      while i < level
        invariant 0 <= i <= level
        invariant Coupled() && Unlinked(g0, grid, rank, k, i)
        invariant grid[k] == g0[k]
      {
        UnlinkStep(g0, grid, rank, k, i);
        var u := update[i];
        var c := u.tower[i];
        assert c == g0[rank[i]][i];
        if c.next == x {
          u.tower := u.tower[i := Link(x.tower[i].next, c.span + x.tower[i].span - 1)];
        } else {
          u.tower := u.tower[i := Link(c.next, c.span - 1)];
        }
        grid := grid[rank[i] := u.tower];
        i := i + 1;
      }
    }

    method ShrinkLevel()
      requires Coupled() && Capped(grid, level) && Linked(nodes, grid, level)
      modifies `level
      ensures 1 <= level <= old(level) && Capped(grid, level) && Linked(nodes, grid, level)
      ensures level > 1 ==> grid[0][level - 1].next != null
    {
      while level > 1 && header.tower[level - 1].next == null
        invariant Capped(grid, level) && Linked(nodes, grid, level) && level <= old(level)
        decreases level
      {
        LowerLevel(nodes, grid, level);
        level := level - 1;
      }
    }

    /** Renumbers the positions once the node at `k` is no longer linked. */
    ghost method Forget(k: nat)
      requires Coupled() && 1 <= k < |nodes|
      modifies this`nodes, this`grid, nodes`pos
      ensures Coupled() && Removed(old(nodes), k, nodes) && Removed(old(grid), k, grid)
    {
      forall p | k < p < |nodes| { nodes[p].pos := p - 1; }
      nodes := Removal(nodes, k);
      grid := Removal(grid, k);
    }

    /** Takes the node right behind the search path out of the structure. */
    method Detach(x: SkipNode, update: seq<SkipNode>, ghost rank: seq<nat>, ghost below: nat)
      requires Coupled() && Capped(grid, level) && Linked(nodes, grid, level)
      requires IsPath(grid, level, rank, below, 0) && |update| == MAX_LEVEL
      requires forall i :: 0 <= i < level ==> update[i] == nodes[rank[i]]
      requires below + 1 < |nodes| && x == nodes[below + 1]
      modifies this`nodes, this`grid, nodes
      ensures Coupled() && Capped(grid, level) && Linked(nodes, grid, level)
      ensures Removed(old(nodes), below + 1, nodes) && x.tower == old(x.tower)
      ensures IsPath(grid, level, rank, below, 0)
    {
      ghost var k := below + 1;
      ghost var nodes0, g0 := nodes, grid;
      forall i | 0 <= i < level ensures grid[rank[i]][i].next == x <==> i < |grid[k]| {
        PathHits(nodes, grid, level, rank, below, i);
      }
      assert level <= |rank| && forall i :: 0 <= i < level ==> rank[i] < k && i < |grid[rank[i]]|;
      hide Capped, Linked, LinkOk, IsPath;
      Unlink(x, update, rank, k);
      hide Unlinked;
      ghost var g1 := grid;
      Forget(k);
      UnlinkLinked(nodes0, g0, level, rank, below, g1, nodes, grid);
      UnlinkedCapped(g0, level, rank, k, g1, grid);
      UnlinkPath(g0, level, rank, below, g1, grid, level);
    }

    lemma LastIffNil(k: nat)
      requires Core() && 1 <= k < |nodes|
      ensures level >= 1 && |nodes[k].tower| > 0 && (nodes[k].tower[0].next == null <==> k == length)
    {
      LinkedAt(nodes, grid, level, k, 0);
    }

    /** deleteNode, for the node right behind the search path. */
    method DeleteNode(x: SkipNode, update: seq<SkipNode>, ghost rank: seq<nat>, ghost below: nat)
      requires Valid() && IsPath(grid, level, rank, below, 0) && |update| == MAX_LEVEL
      requires forall i :: 0 <= i < level ==> update[i] == nodes[rank[i]]
      requires rank[0] == below && below + 1 < |nodes| && x == nodes[below + 1]
      modifies this, nodes
      ensures Valid() && Removed(old(nodes), below + 1, nodes)
      ensures level <= old(level) && IsPath(grid, level, rank, below, 0)
      ensures forall i :: 0 <= i < level ==> update[i] == nodes[rank[i]]
    {
      hide Capped, Linked, LinkOk, Sorted, Coupled, IsPath, Removed, Next, Heights, Entries;
      ghost var nodes0, level0 := nodes, level;
      LastIffNil(below + 1);
      PathBounds(grid, level, rank, below);
      Detach(x, update, rank, below);
      RemovedFrame(nodes0, below + 1, nodes);
      RemovedEntries(nodes0, below + 1, nodes);
      RemovedLast(nodes0, below + 1, nodes);
      if x.tower[0].next == null {
        tail := update[0];
      }
      ShrinkLevel();
      LowerPath(grid, level0, rank, below, level);
      length := length - 1;
    }

    /** insert's first adjustment: open the header's levels up to `h`. */
    method RaiseLevel(h: nat, update: seq<SkipNode>, rank: seq<nat>) returns (update': seq<SkipNode>, rank': seq<nat>)
      requires Coupled() && level <= h <= MAX_LEVEL == |grid[0]| && |update| == |rank| == MAX_LEVEL
      modifies `grid, header`tower
      ensures Coupled() && HeaderRaised(old(grid), grid, level, h, length)
      ensures |update'| == |rank'| == MAX_LEVEL
      ensures forall i :: 0 <= i < h ==> rank'[i] == if i < level then rank[i] else 0
      ensures forall i :: 0 <= i < h ==> update'[i] == if i < level then update[i] else header
    {
      ghost var g0 := grid;
      update', rank' := update, rank;
      var i := level;
      while i < h
        invariant level <= i <= h
        invariant Coupled() && HeaderRaised(g0, grid, level, i, length)
        invariant |update'| == |rank'| == MAX_LEVEL
        invariant forall j :: 0 <= j < i ==> rank'[j] == if j < level then rank[j] else 0
        invariant forall j :: 0 <= j < i ==> update'[j] == if j < level then update[j] else header
      {
        rank' := rank'[i := 0];
        update' := update'[i := header];
        header.tower := header.tower[i := Link(header.tower[i].next, length)];
        grid := grid[0 := header.tower];
        i := i + 1;
      }
    }

    /** insert's first linking loop, over the levels of the new tower. */
    method SpliceTower(x: SkipNode, h: nat, update: seq<SkipNode>, rank: seq<nat>)
      requires Coupled() && x !in nodes && |x.tower| == h && 1 <= h <= |rank| && h <= |update|
      requires forall i :: 0 <= i < h ==>
                 rank[i] <= rank[0] && rank[i] < |nodes| && update[i] == nodes[rank[i]] && i < |grid[rank[i]]|
      modifies `grid, nodes, x`tower
      ensures Coupled() && |x.tower| == h
      ensures Spliced(old(grid), grid, rank, rank[0], x, h, h)
      ensures TowerTaken(old(grid), rank, rank[0], x.tower, h)
    {
      hide Spliced, TowerTaken;
      ghost var g0 := grid;
      SpliceStart(grid, rank, rank[0], x, h, x.tower);
      var i := 0;
      while i < h
        invariant 0 <= i <= h && |x.tower| == h
        invariant Coupled() && Spliced(g0, grid, rank, rank[0], x, h, i)
        invariant TowerTaken(g0, rank, rank[0], x.tower, i)
      {
        SplicedWidths(g0, grid, rank, rank[0], x, h, i);
        SpliceStep(g0, grid, rank, rank[0], x, h, i);
        TakeStep(g0, rank, rank[0], x.tower, i);
        var u := update[i];
        var c := u.tower[i];
        x.tower := x.tower[i := Link(c.next, c.span - (rank[0] - rank[i]))];
        u.tower := u.tower[i := Link(x, rank[0] - rank[i] + 1)];
        grid := grid[rank[i] := u.tower];
        i := i + 1;
      }
    }

    /** insert's second linking loop, over the levels above the new tower. */
    method SpliceAbove(ghost x: SkipNode, h: nat, update: seq<SkipNode>, ghost rank: seq<nat>, ghost g0: Grid)
      requires Coupled() && 1 <= h <= level <= |rank| && level <= |update|
      requires Spliced(g0, grid, rank, rank[0], x, h, h)
      requires forall i :: 0 <= i < level ==> rank[i] < |nodes| && update[i] == nodes[rank[i]] && i < |grid[rank[i]]|
      modifies `grid, nodes
      ensures Coupled() && Spliced(g0, grid, rank, rank[0], x, h, level)
      ensures x !in nodes ==> x.tower == old(x.tower)
    {
      hide Spliced;
      var i := h;
      SplicedWidths(g0, grid, rank, rank[0], x, h, i);
      while i < level
        invariant h <= i <= level
        invariant Coupled() && Spliced(g0, grid, rank, rank[0], x, h, i)
        invariant x !in nodes ==> x.tower == old(x.tower)
      {
        SplicedWidths(g0, grid, rank, rank[0], x, h, i);
        SpliceStep(g0, grid, rank, rank[0], x, h, i);
        var u := update[i];
        u.tower := u.tower[i := Link(u.tower[i].next, u.tower[i].span + 1)];
        grid := grid[rank[i] := u.tower];
        i := i + 1;
      }
    }

    /** Renumbers the positions once `x` is linked in at `k`. */
    ghost method Adopt(x: SkipNode, k: nat)
      requires Coupled() && 1 <= k <= |nodes| && x !in nodes
      modifies `nodes, `grid, nodes`pos, x`pos
      ensures Coupled() && Inserted(old(nodes), k, x, nodes) && Inserted(old(grid), k, x.tower, grid)
    {
      forall p | k <= p < |nodes| { nodes[p].pos := p + 1; }
      x.pos := k;
      nodes := Insertion(nodes, k, x);
      grid := Insertion(grid, k, x.tower);
    }

    /** Links a new node in right behind the search path. */
    method Attach(x: SkipNode, h: nat, update: seq<SkipNode>, rank: seq<nat>)
      requires Coupled() && Capped(grid, level) && Linked(nodes, grid, level)
      requires x !in nodes && |x.tower| == h && 1 <= h <= level && |update| == MAX_LEVEL
      requires |rank| == MAX_LEVEL && IsPath(grid, level, rank, rank[0], 0)
      requires forall i :: 0 <= i < level ==> update[i] == nodes[rank[i]]
      modifies `nodes, `grid, nodes, x
      ensures Coupled() && Capped(grid, level) && Linked(nodes, grid, level)
      ensures Inserted(old(nodes), rank[0] + 1, x, nodes)
      ensures Inserted<nat>(Heights(old(grid)), rank[0] + 1, h, Heights(grid))
    {
      hide Capped, Linked, IsPath, Spliced, TowerTaken, Inserted, Next, Heights, LinkOk;
      ghost var nodes0, g0, below := nodes, grid, rank[0];
      PathBounds(grid, level, rank, below);
      SpliceTower(x, h, update, rank);
      SplicedWidths(g0, grid, rank, below, x, h, h);
      SpliceAbove(x, h, update, rank, g0);
      ghost var g1 := grid;
      Adopt(x, below + 1);
      SpliceLinked(nodes0, g0, level, rank, below, x, g1, x.tower, nodes, grid);
      SplicedCapped(g0, level, rank, below, x, g1, x.tower, grid);
      SplicedHeights(g0, g1, rank, below, x, x.tower, level, grid);
    }

    /** Creates the new node, opens its levels if they are new, and links it in. */
    method Grow(member: string, score: real, h: nat, update: seq<SkipNode>, rank: seq<nat>) returns (x: SkipNode)
      requires Core() && (level > 1 ==> grid[0][level - 1].next != null)
      requires |rank| == |update| == MAX_LEVEL && IsPath(grid, level, rank, rank[0], 0)
      requires forall i :: 0 <= i < level ==> update[i] == nodes[rank[i]]
      requires 1 <= h <= MAX_LEVEL
      modifies `level, `grid, `nodes, nodes
      ensures Coupled() && Capped(grid, level) && Linked(nodes, grid, level)
      ensures level > 1 ==> grid[0][level - 1].next != null
      ensures Inserted(old(nodes), rank[0] + 1, x, nodes) && fresh(x) && x.Key() == Entry(member, score)
    {
      hide Capped, Linked, LinkOk, IsPath, Inserted, Next, Heights;
      ghost var k := rank[0] + 1;
      var up, rk := update, rank;
      TopUsed(nodes, grid, level);
      PathBounds(grid, level, rank, rank[0]);
      if h > level {
        up, rk := OpenLevels(h, update, rank);
      }
      ghost var g0 := grid;
      x := new SkipNode(member, score, h);
      Attach(x, h, up, rk);
      TopKept(Heights(g0), k, h, Heights(grid), level);
      TopUsed(nodes, grid, level);
    }

    /** The second half of insert: a new node of arbitrary height behind the search path. */
    method InsertNode(member: string, score: real, update: seq<SkipNode>, rank: seq<nat>) returns (ghost x: SkipNode)
      requires Valid() && |rank| == |update| == MAX_LEVEL && IsPath(grid, level, rank, rank[0], 0)
      requires forall i :: 0 <= i < level ==> update[i] == nodes[rank[i]]
      requires Splits(nodes, Entry(member, score), rank[0])
      requires rank[0] + 1 < |nodes| ==> nodes[rank[0] + 1].Key() != Entry(member, score)
      modifies this, nodes
      ensures Valid() && fresh(x) && x.Key() == Entry(member, score)
      ensures Inserted(old(nodes), rank[0] + 1, x, nodes)
    {
      hide Capped, Linked, LinkOk, IsPath, Inserted, Next, Heights, Entries, Sorted, Splits, Coupled;
      ghost var nodes0, k := nodes, rank[0] + 1;
      var h :| 1 <= h <= MAX_LEVEL;
      var y := Grow(member, score, h, update, rank);
      x := y;
      InsertedEntries(nodes0, rank[0], y, nodes);
      InsertedLast(nodes0, k, y, nodes);
      length := length + 1;
      LastIffNil(k);
      if y.tower[0].next == null {
        tail := y;
      }
    }

    method OpenLevels(h: nat, update: seq<SkipNode>, rank: seq<nat>) returns (update': seq<SkipNode>, rank': seq<nat>)
      requires Core() && |rank| == |update| == MAX_LEVEL && IsPath(grid, level, rank, rank[0], 0)
      requires forall i :: 0 <= i < level ==> rank[i] < |nodes| && update[i] == nodes[rank[i]]
      requires level < h <= MAX_LEVEL
      modifies `level, `grid, nodes
      ensures Core() && level == h && Heights(grid) == Heights(old(grid))
      ensures |rank'| == |update'| == MAX_LEVEL && rank'[0] == rank[0] && IsPath(grid, level, rank', rank[0], 0)
      ensures forall i :: 0 <= i < level ==> rank'[i] < |nodes| && update'[i] == nodes[rank'[i]]
    {
      hide Capped, Linked, LinkOk, IsPath, Next, Heights, HeaderRaised;
      ghost var g0, level0 := grid, level;
      CappedHeader(grid, level);
      update', rank' := RaiseLevel(h, update, rank);
      RaiseLinked(nodes, g0, grid, level, h);
      RaisePath(g0, grid, level, h, length, rank, rank', rank[0]);
      RaisedHeights(g0, grid, level, h, length);
      level := h;
    }

    lemma Successor(p: nat)
      requires Core() && p < |nodes|
      ensures |nodes[p].tower| > 0 && nodes[p].tower[0].next == NodeAt(nodes, p + 1)
    {
      LinkedAt(nodes, grid, level, p, 0);
      assert Next(Heights(grid), p, 0) == p + 1;
    }

    /** The descent shared by insert and delete, up to the node it stops in front of. */
    method Locate(e: Entry) returns (update: seq<SkipNode>, rank: seq<nat>, x: SkipNode?, ghost below: nat)
      requires Valid()
      ensures below == Below(Contents(), e) && Splits(nodes, e, below) && below <= |Contents()|
      ensures |rank| == |update| == MAX_LEVEL && rank[0] == below && IsPath(grid, level, rank, below, 0)
      ensures forall i :: 0 <= i < level ==> update[i] == nodes[rank[i]]
      ensures if x == null then below + 1 == |nodes|
              else below + 1 < |nodes| && x == nodes[below + 1] && x.Key() == Contents()[below]
      ensures e in Contents() <==> x != null && x.Key() == e
    {
      hide Linked, LinkOk, IsPath, Next, Heights, Sorted, Coupled, Below;
      below := Below(Contents(), e);
      FoundAtBelow(Contents(), e);
      SplitsBelow(nodes, e);
      var ahead := (n: SkipNode) => Less(n.Key(), e);
      assert SplitBy(nodes, ahead, below);
      update, rank := Search(ahead, below);
      Successor(below);
      x := update[0].tower[0].next;
    }

    method Insert(member: string, score: real) returns (inserted: bool)
      requires Valid()
      modifies this, nodes
      ensures Valid() && Contents() == Put(old(Contents()), Entry(member, score))
      ensures inserted <==> Entry(member, score) !in old(Contents())
      ensures forall p :: 0 <= p < |nodes| ==> nodes[p] in old(nodes) || fresh(nodes[p])
    {
      hide Core, IsPath, Heights, Sorted, Splits, Put, Below, Entries, Inserted, Removed;
      var e := Entry(member, score);
      ghost var s0 := Contents();
      PutTakeAbsent(s0, e);
      var update, rank, x, below := Locate(e);
      if x != null && x.score == score && x.member == member {
        return false;
      }
      if x != null && x.member == member {
        Replace(e, x, update, rank, below);
      } else {
        ghost var nodes0 := nodes;
        ghost var y := InsertNode(member, score, update, rank);
        InsertedEntries(nodes0, below, y, nodes);
        PutInserted(s0, e, Contents());
        InsertedFrame(nodes0, below + 1, y, nodes);
      }
      return true;
    }

    /** insert's branch for a member that already stands right behind the path with another score. */
    method Replace(e: Entry, x: SkipNode, update: seq<SkipNode>, rank: seq<nat>, ghost below: nat)
      requires Valid() && below == Below(Contents(), e) && Splits(nodes, e, below)
      requires |rank| == |update| == MAX_LEVEL && rank[0] == below && IsPath(grid, level, rank, below, 0)
      requires forall i :: 0 <= i < level ==> update[i] == nodes[rank[i]]
      requires below + 1 < |nodes| && x == nodes[below + 1] && x.Key() == Contents()[below] != e && x.member == e.member
      modifies this, nodes
      ensures Valid() && Contents() == Put(old(Contents()), e)
      ensures forall p :: 0 <= p < |nodes| ==> nodes[p] in old(nodes) || fresh(nodes[p])
    {
      hide Core, Sorted, Splits, Put, Below, Entries, Inserted, Removed;
      ghost var s0, nodes0 := Contents(), nodes;
      DeleteNode(x, update, rank, below);
      RemovedEntries(nodes0, below + 1, nodes);
      RemovedFrame(nodes0, below + 1, nodes);
      SplitsRemoved(nodes0, e, below, nodes);
      ghost var s1, nodes1 := Contents(), nodes;
      ghost var y := InsertNode(e.member, e.score, update, rank);
      InsertedEntries(nodes1, below, y, nodes);
      InsertedFrame(nodes1, below + 1, y, nodes);
      PutReplaced(s0, e, s1, Contents());
    }

    method Delete(member: string, score: real) returns (deleted: bool)
      requires Valid()
      modifies this, nodes
      ensures Valid() && Contents() == Take(old(Contents()), Entry(member, score))
      ensures deleted <==> Entry(member, score) in old(Contents())
      ensures forall p :: 0 <= p < |nodes| ==> nodes[p] in old(nodes)
    {
      hide Core, IsPath, Heights, Sorted, Splits, Below, Entries, Removed;
      var e := Entry(member, score);
      ghost var s0, nodes0 := Contents(), nodes;
      PutTakeAbsent(s0, e);
      var update, rank, x, below := Locate(e);
      if x != null && x.score == score && x.member == member {
        DeleteNode(x, update, rank, below);
        RemovedEntries(nodes0, below + 1, nodes);
        RemovedFrame(nodes0, below + 1, nodes);
        TakeRemoved(s0, e, Contents());
        return true;
      }
      return false;
    }

    // ---------- queries ----------

    /** The descent of getRank: it stops at the first level on which it stands on `member`,
      * which sits at position `at`, or nowhere when that is 0. */
    method RankWalk(member: string, ahead: SkipNode -> bool, ghost upto: nat, ghost at: nat) returns (rank: int)
      requires Core() && SplitBy(nodes, ahead, upto) && upto < |nodes| == |grid| && at < |nodes|
      requires nodes[0] == header && header.member == ""
      requires forall p :: 1 <= p < |nodes| ==> (nodes[p].member == member <==> p == at)
      ensures rank == if at > 0 && OnPath(Heights(grid), at, upto) && !Mistaken(Heights(grid), level, member, upto)
                      then at - 1 else -1
    {
      hide Coupled, Linked, SplitBy, Next, OnPath;
      CappedHeader(grid, level);
      var r, x := 0, header;
      var i := level - 1;
      while i >= 0
        invariant -1 <= i < level
        invariant 0 <= r <= upto && x == nodes[r] && i < |grid[r]|
        invariant i < level - 1 ==> member != "" || (r > 0 && Next(Heights(grid), 0, level - 1) <= upto)
        invariant at > 0 && OnPath(Heights(grid), at, upto) ==> |grid[at]| <= i + 1
      {
        ghost var from := r;
        x, r := Advance(ahead, i, x, r, upto);
        if at <= upto {
          StandsOn(Heights(grid), at, upto, r, i);
        }
        if x.member == member {
          return r - 1;
        }
        OnPathWithin(Heights(grid), at, upto);
        i := i - 1;
      }
      return -1;
    }

    lemma OnPathWithin(hs: seq<nat>, p: nat, upto: nat)
      ensures OnPath(hs, p, upto) ==> p <= upto
    {
    }

    /** The rank of an entry read off the spans, for members that occur once. */
    method GetRank(member: string, score: real) returns (rank: int)
      requires Valid() && UniqueMembers(Contents())
      ensures rank == Found(Contents(), Heights(grid), level, Entry(member, score))
    {
      hide Capped, Linked, Next, Sorted, Below, UniqueMembers, SplitBy, OnPath, UpTo, PlaceOf, Mistaken;
      var e := Entry(member, score);
      Lengths();
      PlaceBound(Contents(), member);
      ghost var k := PlaceOf(Contents(), member);
      var ahead := (n: SkipNode) => Less(n.Key(), e) || n.Key() == e;
      SplitUpTo(nodes, e, ahead);
      OnlyOne(nodes, member);
      rank := RankWalk(member, ahead, UpTo(Contents(), e), if k < |Contents()| then k + 1 else 0);
    }

    lemma Present(e: Entry)
      requires Valid() && UniqueMembers(Contents()) && e in Contents()
      ensures |grid| > 0 && level >= 1 && Found(Contents(), Heights(grid), level, e) ==
              if Mistaken(Heights(grid), level, e.member, Below(Contents(), e) + 1) then -1 else Below(Contents(), e)
    {
      Lengths();
      FoundPresent(Contents(), Heights(grid), level, e);
    }

    lemma PlaceBound(es: seq<Entry>, member: string)
      ensures PlaceOf(es, member) <= |es|
    {
    }

    /** A descent that only wants the node it ends on. */
    method Descend(ahead: SkipNode -> bool, ghost below: nat) returns (x: SkipNode)
      requires Core() && SplitBy(nodes, ahead, below) && below < |nodes|
      ensures x == nodes[below]
    {
      hide Capped, Linked, SplitBy, Next;
      CappedHeader(grid, level);
      var r: nat := 0;
      x := header;
      var i := level - 1;
      while i >= 0
        invariant -1 <= i < level
        invariant r <= below && x == nodes[r] && i < |grid[r]|
        invariant i < level - 1 ==> Next(Heights(grid), r, i + 1) > below
      {
        x, r := Advance(ahead, i, x, r, below);
        i := i - 1;
      }
      NextGround(grid, level, r);
    }

    /** Steps `offset` nodes forward along the bottom level. */
    method Skip(from: SkipNode?, offset: int, ghost at: nat) returns (x: SkipNode?, ghost k: nat)
      requires Core() && at <= |Contents()| && from == NodeAt(nodes, at + 1)
      ensures k == Bound(at + Bound(offset, 0, |Contents()|), 0, |Contents()|) && x == NodeAt(nodes, k + 1)
    {
      hide Capped, Linked, LinkOk, Coupled, Entries;
      Lengths();
      x, k := from, at;
      var left := offset;
      while left > 0 && x != null
        invariant at <= k <= |Contents()| && x == NodeAt(nodes, k + 1)
        invariant left <= offset && (offset <= 0 ==> left == offset && k == at)
        invariant offset > 0 ==> 0 <= left && k == at + offset - left
      {
        Successor(k + 1);
        x := x.tower[0].next;
        k := k + 1;
        left := left - 1;
      }
    }

    lemma KeyAt(k: nat)
      requires Core() && k < |Contents()|
      ensures k + 1 < |nodes| && nodes[k + 1].Key() == Contents()[k]
    {
    }

    lemma Lengths()
      requires Core()
      ensures |Contents()| == |nodes| - 1 && nodes[0] == header
    {
    }

    /** Score ranges: filter by score, drop `offset`, take `count`. */
    method GetRange(min: real, max: real, offset: int, count: int, reverse: bool) returns (result: seq<Entry>)
      requires Valid()
      ensures !reverse ==> result == Page(InRange(Contents(), min, max), offset, count)
      ensures |Contents()| < |grid|
      ensures reverse ==>
                result == Page(Walk(Contents(), Heights(grid), UpToScore(Contents(), max), min), offset, count)
    {
      hide Capped, Linked, LinkOk, Coupled, Sorted, InRange, Page, SplitBy, Entries, Walk;
      Lengths();
      Headed(0);
      if length == 0 {
        CollectedPage(Contents(), min, max, offset, count, 0, 0);
        WalkNone(Contents(), Heights(grid), max, min, offset, count);
        return [];
      }
      if reverse {
        result := GetRangeReverse(min, max, offset, count);
      } else {
        result := GetRangeForward(min, max, offset, count);
      }
    }

    method GetRangeForward(min: real, max: real, offset: int, count: int) returns (result: seq<Entry>)
      requires Valid()
      ensures result == Page(InRange(Contents(), min, max), offset, count)
    {
      hide Capped, Linked, LinkOk, Coupled, Sorted, InRange, Page, SplitBy, Entries;
      Lengths();
      ghost var es := Contents();
      var ahead := (n: SkipNode) => n.score < min;
      SplitByScore(nodes, min, ahead);
      ghost var a := BelowScore(es, min);
      var x := Descend(ahead, a);
      Successor(a);
      var y, k0 := Skip(x.tower[0].next, offset, a);
      ghost var k;
      result, k := Collect(y, max, count, k0);
      CollectedPage(es, min, max, offset, count, k0, k);
    }

    /** getRange's last loop. */
    method Collect(from: SkipNode?, max: real, count: int, ghost k0: nat) returns (result: seq<Entry>, ghost k: nat)
      requires Core() && k0 <= |Contents()| && from == NodeAt(nodes, k0 + 1)
      ensures k0 <= k <= |Contents()| && result == Contents()[k0..k]
      ensures forall i :: k0 <= i < k ==> Contents()[i].score <= max
      ensures k < |Contents()| && Contents()[k].score <= max ==> count != -1 && k - k0 >= count
      ensures count != -1 ==> k - k0 <= Bound(count, 0, |Contents()|)
    {
      hide Capped, Linked, Coupled, Entries;
      Lengths();
      var x := from;
      result, k := [], k0;
      if k0 < |Contents()| { KeyAt(k0); }
      while x != null && x.score <= max && (count == -1 || |result| < count)
        invariant k0 <= k <= |Contents()| && result == Contents()[k0..k] && x == NodeAt(nodes, k + 1)
        invariant forall i :: k0 <= i < k ==> Contents()[i].score <= max
        invariant count != -1 ==> k - k0 <= Bound(count, 0, |Contents()|)
        invariant x != null ==> x.Key() == Contents()[k]
        decreases |Contents()| - k
      {
        Successor(k + 1);
        KeyAt(k);
        result := result + [x.Key()];
        x := x.tower[0].next;
        k := k + 1;
        if k < |Contents()| { KeyAt(k); }
      }
    }

    /** The predecessor on the node's highest level, found from the top level down. */
    method FindPredecessor(node: SkipNode, ghost p: nat) returns (x: SkipNode)
      requires Core() && Sorted(Entries(nodes)) && 0 < p < |nodes| && node == nodes[p]
      ensures x == nodes[Prev(Heights(grid), p)]
    {
      hide Linked, SplitBy, Next, Sorted, Entries, Capped;
      CappedHeader(grid, level);
      TowerWithin(grid, level, p);
      var ahead := (n: SkipNode) => n != node && !Less(node.Key(), n.Key());
      SplitBefore(nodes, p, ahead);
      var r: nat := 0;
      x := header;
      var i := level - 1;
      while i >= 0
        invariant -1 <= i < level
        invariant r < p && x == nodes[r] && i < |grid[r]|
        invariant |grid[p]| <= i + 1
      {
        x, r := Advance(ahead, i, x, r, p - 1);
        NextReaches(Heights(grid), r, i, p);
        Hop(nodes, grid, level, r, i);
        if x.tower[i].next == node {
          assert nodes[p].pos == p;
          PrevIs(Heights(grid), p, r);
          return;
        }
        i := i - 1;
      }
      x := header;
    }

    /** Score ranges from the top down, by way of predecessors. */
    method GetRangeReverse(min: real, max: real, offset: int, count: int) returns (result: seq<Entry>)
      requires Valid()
      ensures |Contents()| < |grid|
      ensures result == Page(Walk(Contents(), Heights(grid), UpToScore(Contents(), max), min), offset, count)
    {
      hide Capped, Linked, LinkOk, Coupled, Sorted, Page, SplitBy, Entries, Walk, Prev, Heights;
      Lengths();
      ghost var es, hs := Contents(), Heights(grid);
      var ahead := (n: SkipNode) => n.score <= max;
      SplitUpToScore(nodes, max, ahead);
      ghost var k := UpToScore(es, max);
      Headed(k);
      ghost var w := Walk(es, hs, k, min);
      var x := Descend(ahead, k);
      var left := offset;
      if x == header {
        WalkEnd(es, hs, k, min);
        Collected(w, offset, count, [], []);
        return [];
      }
      while left > 0
        invariant 0 < k <= |es| && x == nodes[k]
        invariant left <= offset && (offset <= 0 ==> left == offset)
        invariant offset > 0 ==> 0 <= left && Walk(es, hs, k, min) == w[Bound(offset - left, 0, |w|)..]
        invariant offset <= 0 ==> Walk(es, hs, k, min) == w
      {
        StepBack(es, hs, k, min, w, offset - left);
        x := FindPredecessor(x, k);
        k := Prev(hs, k);
        Headed(k);
        if x == header {
          WalkEnd(es, hs, k, min);
          Collected(w, offset, count, [], []);
          return [];
        }
        left := left - 1;
      }
      result, k := CollectBack(x, min, count, k);
      Collected(w, offset, count, result, Walk(es, hs, k, min));
    }

    /** getRangeReverse's last loop. */
    method CollectBack(from: SkipNode, min: real, count: int, ghost k0: nat) returns (result: seq<Entry>, ghost k: nat)
      requires Valid() && 0 < k0 <= |Contents()| && from == nodes[k0]
      ensures k <= |Contents()| < |grid|
      ensures Walk(Contents(), Heights(grid), k0, min) == result + Walk(Contents(), Heights(grid), k, min)
      ensures Walk(Contents(), Heights(grid), k, min) != [] ==> count != -1 && |result| >= count
      ensures count != -1 && result != [] ==> |result| <= count
    {
      hide Capped, Linked, LinkOk, Coupled, Sorted, Entries, Prev, Heights;
      Lengths();
      ghost var es, hs := Contents(), Heights(grid);
      var x := from;
      result, k := [], k0;
      Headed(k);
      while x != header && x.score >= min && (count == -1 || |result| < count)
        invariant k <= |es| && x == nodes[k]
        invariant Walk(es, hs, k0, min) == result + Walk(es, hs, k, min)
        invariant count != -1 && result != [] ==> |result| <= count
        invariant x == header <==> k == 0
        decreases k
      {
        KeyAt(k - 1);
        result := result + [x.Key()];
        x := FindPredecessor(x, k);
        k := Prev(hs, k);
        Headed(k);
      }
      if k > 0 { KeyAt(k - 1); }
    }

    /** Only position 0 is the header's. */
    lemma Headed(k: nat)
      requires Core() && k < |nodes|
      ensures nodes[k] == header <==> k == 0
      ensures |Heights(grid)| == |nodes|
    {
    }

    /** The descent of getRangeByRank: hop over spans as long as they stay within `start`. */
    method Seek(start: nat) returns (x: SkipNode)
      requires Core() && start < |nodes|
      ensures x == nodes[start]
    {
      hide Capped, Linked, Next;
      CappedHeader(grid, level);
      var rank: nat := 0;
      x := header;
      var i := level - 1;
      while i >= 0
        invariant -1 <= i < level
        invariant rank <= start && x == nodes[rank] && i < |grid[rank]|
        invariant i < level - 1 ==> Next(Heights(grid), rank, i + 1) > start
      {
        x, rank := SeekLevel(start, i, x, rank);
        i := i - 1;
      }
      NextGround(grid, level, rank);
    }

    method SeekLevel(start: nat, i: nat, from: SkipNode, fromRank: nat) returns (x: SkipNode, rank: nat)
      requires Core() && i < level && start < |nodes|
      requires fromRank <= start && from == nodes[fromRank] && i < |grid[fromRank]|
      ensures rank <= start && x == nodes[rank] && i < |grid[rank]|
      ensures Next(Heights(grid), rank, i) > start
    {
      hide Linked, Capped, Next, Heights;
      x, rank := from, fromRank;
      while x.tower[i].next != null && rank + x.tower[i].span <= start
        invariant rank <= start && x == nodes[rank] && i < |grid[rank]|
        decreases |nodes| - rank
      {
        Hop(nodes, grid, level, rank, i);
        rank := rank + x.tower[i].span;
        x := x.tower[i].next;
      }
      Hop(nodes, grid, level, rank, i);
    }

    /** Rank ranges: positions start..stop of the sequence, or of the reversed sequence. */
    method GetRangeByRank(start: int, stop: int, reverse: bool) returns (result: seq<Entry>)
      requires Valid()
      ensures result == RankSlice(if reverse then Reverse(Contents()) else Contents(), start, stop)
    {
      hide Capped, Linked, Coupled, Sorted, Entries, Reverse, RankSlice;
      Lengths();
      ReversedLength(Contents());
      if start < 0 || start >= length || stop < start {
        RankSliceNone(Contents(), start, stop);
        RankSliceNone(Reverse(Contents()), start, stop);
        return [];
      }
      var last := if stop >= length then length - 1 else stop;
      RankSliceSome(Contents(), start, stop, last);
      RankSliceMirrored(Contents(), start, stop, last);
      var count := last - start + 1;
      var first := if reverse then length - 1 - last else start;
      var x := Seek(first);
      Successor(first);
      result := Gather(x.tower[0].next, first, count, reverse);
    }

    /** getRangeByRank's collecting loop; in reverse it prepends. */
    method Gather(from: SkipNode?, ghost first: nat, count: nat, reverse: bool) returns (result: seq<Entry>)
      requires Core() && first + count <= |Contents()| && from == NodeAt(nodes, first + 1)
      ensures var s := Contents()[first..first + count]; result == if reverse then Reverse(s) else s
    {
      hide Capped, Linked, Coupled, Entries, Reverse;
      Lengths();
      ReversedLength([]);
      ghost var es := Contents();
      var x := from;
      result := [];
      var n := 0;
      while n < count && x != null
        invariant 0 <= n <= count && x == NodeAt(nodes, first + n + 1)
        invariant result == if reverse then Reverse(es[first..first + n]) else es[first..first + n]
        decreases count - n
      {
        Successor(first + n + 1);
        KeyAt(first + n);
        ReversedExtend(es[first..first + n], x.Key());
        assert es[first..first + n + 1] == es[first..first + n] + [x.Key()];
        result := if reverse then [x.Key()] + result else result + [x.Key()];
        x := x.tower[0].next;
        n := n + 1;
      }
    }

    /** A deep copy: the same entries in fresh nodes, whatever the new tower heights. */
    method Clone() returns (copy: SkipList)
      requires Valid()
      ensures copy.Valid() && copy.Contents() == Contents()
      ensures fresh(copy) && fresh(copy.nodes)
    {
      hide Capped, Linked, Coupled, Sorted, Put, Entries;
      Lengths();
      copy := new SkipList();
      Successor(0);
      var x := header.tower[0].next;
      ghost var k := 0;
      while x != null
        invariant 0 <= k <= |Contents()| && x == NodeAt(nodes, k + 1)
        invariant copy.Valid() && copy.Contents() == Contents()[..k]
        invariant fresh(copy) && fresh(copy.nodes)
        decreases |Contents()| - k
      {
        PutNext(Contents(), k);
        KeyAt(k);
        var _ := copy.Insert(x.member, x.score);
        Successor(k + 1);
        x := x.tower[0].next;
        k := k + 1;
      }
    }

    /** The first node and the tail hold the first and last entries. */
    lemma Ends()
      requires Valid() && |Contents()| > 0
      ensures |header.tower| > 0 && header.tower[0].next != null && header.tower[0].next.Key() == Contents()[0]
      ensures tail != null && tail.Key() == Contents()[|Contents()| - 1]
    {
      Successor(0);
      KeyAt(0);
      KeyAt(|Contents()| - 1);
    }
  }
}
