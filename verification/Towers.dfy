/** The geometry of a skip list, apart from its heap cells.
  *
  * The nodes sit at positions 0 (the header), 1, 2, ... and `hs` lists the heights
  * of their towers. At level `i` the node at position `p` must point to the next
  * position whose tower is taller than `i`. */
module Towers {

  /** The position the node at `p` must point to at level `i`; `|hs|` stands for nil. */
  ghost function Next(hs: seq<nat>, p: nat, i: nat): (q: nat)
    requires p < |hs|
    ensures p < q <= |hs|
    ensures q < |hs| ==> hs[q] > i
    ensures forall m :: p < m < q ==> hs[m] <= i
    decreases |hs| - p
  {
    if p + 1 == |hs| || hs[p + 1] > i then p + 1 else Next(hs, p + 1, i)
  }

  /** The span stored beside that pointer: the distance travelled, where a nil
    * pointer is taken to reach the last node. */
  ghost function Gap(hs: seq<nat>, p: nat, i: nat): nat
    requires p < |hs|
  {
    var q := Next(hs, p, i);
    if q < |hs| then q - p else q - 1 - p
  }

  /** `r` is `s` with `x` put in at position `k`. */
  ghost predicate Inserted<T>(s: seq<T>, k: nat, x: T, r: seq<T>)
  {
    && k <= |s| && |r| == |s| + 1
    && forall m {:trigger r[m]} :: 0 <= m < |r| ==> r[m] == if m < k then s[m] else if m == k then x else s[m - 1]
  }

  /** `r` is `s` with position `k` taken out. */
  ghost predicate Removed<T>(s: seq<T>, k: nat, r: seq<T>)
  {
    && k < |s| && |r| == |s| - 1
    && forall m {:trigger r[m]} :: 0 <= m < |r| ==> r[m] == if m < k then s[m] else s[m + 1]
  }

  lemma Insertion<T>(s: seq<T>, k: nat, x: T) returns (r: seq<T>)
    requires k <= |s|
    ensures Inserted(s, k, x, r)
  {
    r := s[..k] + [x] + s[k..];
  }

  lemma Removal<T>(s: seq<T>, k: nat) returns (r: seq<T>)
    requires k < |s|
    ensures Removed(s, k, r)
  {
    r := s[..k] + s[k + 1..];
  }

  lemma NextUnique(hs: seq<nat>, p: nat, i: nat, q: nat)
    requires p < q <= |hs|
    requires q < |hs| ==> hs[q] > i
    requires forall m :: p < m < q ==> hs[m] <= i
    ensures q == Next(hs, p, i)
  {
  }

  /** Pointers that stay short of the insertion point are untouched; the pointer that
    * crosses it is bent to the new node, or stretched over it when the tower is low. */
  lemma NextInsertBefore(hs: seq<nat>, k: nat, h: nat, hs': seq<nat>, p: nat, i: nat)
    requires p < k && Inserted<nat>(hs, k, h, hs')
    ensures var q := Next(hs, p, i);
            Next(hs', p, i) == if q < k then q else if i < h then k else q + 1
  {
    var q := Next(hs, p, i);
    NextUnique(hs', p, i, if q < k then q else if i < h then k else q + 1);
  }

  /** Pointers past the insertion point shift by one. */
  lemma NextInsertAfter(hs: seq<nat>, k: nat, h: nat, hs': seq<nat>, p: nat, i: nat)
    requires k <= p < |hs| && Inserted<nat>(hs, k, h, hs')
    ensures Next(hs', p + 1, i) == Next(hs, p, i) + 1
  {
    NextUnique(hs', p + 1, i, Next(hs, p, i) + 1);
  }

  /** The new node takes over the target of the pointer that crossed it. */
  lemma NextInsertAt(hs: seq<nat>, k: nat, h: nat, hs': seq<nat>, r: nat, i: nat)
    requires r < k && Inserted<nat>(hs, k, h, hs')
    requires Next(hs, r, i) >= k
    ensures Next(hs', k, i) == Next(hs, r, i) + 1
  {
    NextUnique(hs', k, i, Next(hs, r, i) + 1);
  }

  /** On removal a pointer to the removed node takes over the node's own target. */
  lemma NextRemoveBefore(hs: seq<nat>, k: nat, hs': seq<nat>, p: nat, i: nat)
    requires p < k && Removed<nat>(hs, k, hs')
    ensures var q := Next(hs, p, i);
            Next(hs', p, i) == if q < k then q else if q == k then Next(hs, k, i) - 1 else q - 1
  {
    var q := Next(hs, p, i);
    NextUnique(hs', p, i, if q < k then q else if q == k then Next(hs, k, i) - 1 else q - 1);
  }

  lemma NextRemoveAfter(hs: seq<nat>, k: nat, hs': seq<nat>, p: nat, i: nat)
    requires k < p < |hs| && Removed<nat>(hs, k, hs')
    ensures Next(hs', p - 1, i) == Next(hs, p, i) - 1
  {
    NextUnique(hs', p - 1, i, Next(hs, p, i) - 1);
  }
}
