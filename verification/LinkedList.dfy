/** The doubly linked list behind Redis lists, refined to the sequence of its values. */
module LinkedLists {
  import opened Options
  import opened Towers
  import opened Sequences

  /** The contents of a node, as a value. */
  datatype Cell = Cell(value: string, prev: ListNode?, next: ListNode?)

  class ListNode {
    var value: string
    var prev: ListNode?
    var next: ListNode?
    ghost var pos: nat  // position in the list

    constructor (value: string)
      ensures Contents() == Cell(value, null, null)
    {
      this.value, prev, next := value, null, null;
    }

    ghost function Contents(): Cell
      reads `value, `prev, `next
    {
      Cell(value, prev, next)
    }
  }

  // ---------- chains as values ----------

  ghost function At(nodes: seq<ListNode>, i: int): ListNode?
  {
    if 0 <= i < |nodes| then nodes[i] else null
  }

  /** prev and next are mutual inverses along `nodes`. */
  ghost predicate Chain(nodes: seq<ListNode>, cells: seq<Cell>)
  {
    && |nodes| == |cells|
    && forall i :: 0 <= i < |cells| ==> cells[i].prev == At(nodes, i - 1) && cells[i].next == At(nodes, i + 1)
  }

  lemma ValuesNone()
    ensures Values([]) == []
  {
  }

  ghost function Values(cells: seq<Cell>): (vs: seq<string>)
    ensures |vs| == |cells|
    ensures forall i :: 0 <= i < |cells| ==> vs[i] == cells[i].value
  {
    seq(|cells|, i requires 0 <= i < |cells| => cells[i].value)
  }

  /** The cell at `i` once `x` is linked in at `k`. */
  ghost function OpenedCell(c: Cell, i: int, k: int, x: ListNode): Cell
  {
    Cell(c.value, if i == k then x else c.prev, if i == k - 1 then x else c.next)
  }

  ghost predicate Opened(cells: seq<Cell>, k: nat, x: ListNode, cells1: seq<Cell>)
  {
    && |cells1| == |cells|
    && forall i :: 0 <= i < |cells| ==> cells1[i] == OpenedCell(cells[i], i, k, x)
  }

  lemma OpenChain(nodes: seq<ListNode>, cells: seq<Cell>, k: nat, x: ListNode, v: string, cells1: seq<Cell>,
    nodes': seq<ListNode>, cells': seq<Cell>)
    requires Chain(nodes, cells) && Opened(cells, k, x, cells1)
    requires Inserted(nodes, k, x, nodes') && Inserted(cells1, k, Cell(v, At(nodes, k - 1), At(nodes, k)), cells')
    ensures Chain(nodes', cells') && Inserted(Values(cells), k, v, Values(cells'))
  {
    forall i | 0 <= i < |cells'| ensures cells'[i].prev == At(nodes', i - 1) && cells'[i].next == At(nodes', i + 1) {
      if i < k {
        assert cells'[i] == OpenedCell(cells[i], i, k, x);
      } else if i > k {
        assert cells'[i] == OpenedCell(cells[i - 1], i - 1, k, x);
      }
    }
  }

  /** Linking in writes the next pointer before `k` and the prev pointer at `k`. */
  lemma OpenedBy(cells: seq<Cell>, k: nat, x: ListNode, cells1: seq<Cell>)
    requires k <= |cells|
    requires var c := if k > 0 then cells[k - 1 := cells[k - 1].(next := x)] else cells;
             cells1 == if k < |cells| then c[k := c[k].(prev := x)] else c
    ensures Opened(cells, k, x, cells1)
  {
  }

  lemma EndsInserted(nodes: seq<ListNode>, k: nat, x: ListNode, nodes': seq<ListNode>)
    requires Inserted(nodes, k, x, nodes')
    ensures At(nodes', 0) == (if k == 0 then x else At(nodes, 0))
    ensures At(nodes', |nodes'| - 1) == (if k == |nodes| then x else At(nodes, |nodes| - 1))
    ensures |nodes'| == |nodes| + 1 && forall i :: 0 <= i < |nodes'| ==> nodes'[i] in nodes || nodes'[i] == x
  {
  }

  /** The cell at `i` once the links lead past `k`. */
  ghost function ClosedCell(c: Cell, i: int, k: int, x: Cell): Cell
  {
    Cell(c.value, if i == k + 1 then x.prev else c.prev, if i == k - 1 then x.next else c.next)
  }

  ghost predicate Closed(cells: seq<Cell>, k: nat, cells1: seq<Cell>)
  {
    && |cells1| == |cells| && k < |cells|
    && forall i :: 0 <= i < |cells| && i != k ==> cells1[i] == ClosedCell(cells[i], i, k, cells[k])
  }

  lemma CloseChain(nodes: seq<ListNode>, cells: seq<Cell>, k: nat, cells1: seq<Cell>, nodes': seq<ListNode>,
    cells': seq<Cell>)
    requires Chain(nodes, cells) && Closed(cells, k, cells1)
    requires Removed(nodes, k, nodes') && Removed(cells1, k, cells')
    ensures Chain(nodes', cells') && Removed(Values(cells), k, Values(cells'))
  {
    forall i | 0 <= i < |cells'| ensures cells'[i].prev == At(nodes', i - 1) && cells'[i].next == At(nodes', i + 1) {
      var j := if i < k then i else i + 1;
      assert cells'[i] == ClosedCell(cells[j], j, k, cells[k]);
    }
  }

  /** Closing writes the next pointer before `k` and the prev pointer after it. */
  lemma ClosedBy(cells: seq<Cell>, k: nat, cells1: seq<Cell>)
    requires k < |cells|
    requires var c := if k > 0 then cells[k - 1 := cells[k - 1].(next := cells[k].next)] else cells;
             cells1 == if k + 1 < |cells| then c[k + 1 := c[k + 1].(prev := cells[k].prev)] else c
    ensures Closed(cells, k, cells1)
  {
  }

  lemma EndsRemoved(nodes: seq<ListNode>, k: nat, nodes': seq<ListNode>)
    requires Removed(nodes, k, nodes')
    ensures At(nodes', 0) == if k == 0 then At(nodes, 1) else At(nodes, 0)
    ensures At(nodes', |nodes'| - 1) == if k == |nodes| - 1 then At(nodes, k - 1) else At(nodes, |nodes| - 1)
    ensures |nodes'| == |nodes| - 1 && forall i :: 0 <= i < |nodes'| ==> nodes'[i] in nodes
  {
  }

  lemma ChainAt(nodes: seq<ListNode>, cells: seq<Cell>, i: nat)
    requires Chain(nodes, cells) && i < |cells|
    ensures |nodes| == |cells| && cells[i].prev == At(nodes, i - 1) && cells[i].next == At(nodes, i + 1)
  {
  }

  lemma InsertedForm(s: seq<string>, k: nat, v: string, r: seq<string>)
    requires Inserted(s, k, v, r)
    ensures r == s[..k] + [v] + s[k..]
    ensures k == 0 ==> r == [v] + s
    ensures k == |s| ==> r == s + [v]
  {
  }

  lemma RemovedForm(s: seq<string>, k: nat, r: seq<string>)
    requires Removed(s, k, r)
    ensures r == s[..k] + s[k + 1..]
  {
  }

  lemma RemovedEnd(s: seq<string>, k: nat, r: seq<string>)
    requires Removed(s, k, r)
    ensures k == 0 ==> r == s[1..]
    ensures k == |s| - 1 ==> r == s[..|s| - 1]
  {
  }

  lemma ValueSet(nodes: seq<ListNode>, cells: seq<Cell>, i: nat, v: string)
    requires Chain(nodes, cells) && i < |cells|
    ensures |Values(cells)| == |cells|
    ensures var cells' := cells[i := cells[i].(value := v)];
            Chain(nodes, cells') && Values(cells') == Values(cells)[i := v]
  {
  }

  /** The cells of positions low..high once both ends are cut off. */
  ghost predicate Cut(cells: seq<Cell>, low: nat, high: nat, cells': seq<Cell>)
  {
    && low < high <= |cells| && |cells'| == high - low
    && forall i :: 0 <= i < |cells'| ==>
         cells'[i] == Cell(cells[low + i].value, if i == 0 then null else cells[low + i].prev,
                           if i == |cells'| - 1 then null else cells[low + i].next)
  }

  /** `r` is the segment low..high of `s`. */
  ghost predicate Kept<T>(s: seq<T>, low: nat, high: nat, r: seq<T>)
  {
    low <= high <= |s| && |r| == high - low && forall i {:trigger r[i]} :: 0 <= i < |r| ==> r[i] == s[low + i]
  }

  lemma Segment<T>(s: seq<T>, low: nat, high: nat) returns (r: seq<T>)
    requires low <= high <= |s|
    ensures Kept(s, low, high, r)
  {
    r := s[low..high];
  }

  lemma KeptEnds(s: seq<ListNode>, low: nat, high: nat, r: seq<ListNode>)
    requires low < high && Kept(s, low, high, r)
    ensures |r| == high - low && r[0] == s[low] && r[|r| - 1] == s[high - 1]
    ensures forall i :: 0 <= i < |r| ==> r[i] in s
  {
  }

  lemma CutChain(nodes: seq<ListNode>, cells: seq<Cell>, low: nat, high: nat, nodes': seq<ListNode>, cells': seq<Cell>)
    requires Chain(nodes, cells) && Kept(nodes, low, high, nodes') && Cut(cells, low, high, cells')
    ensures Chain(nodes', cells') && Values(cells') == Values(cells)[low..high]
  {
  }

  ghost function Severed(cells: seq<Cell>, low: nat, high: nat): seq<Cell>
    requires low <= high < |cells|
  {
    var c := cells[low := cells[low].(prev := null)];
    c[high := c[high].(next := null)]
  }

  lemma CutBy(cells: seq<Cell>, low: nat, high: nat, cells1: seq<Cell>, cells': seq<Cell>)
    requires low < high <= |cells| && cells1 == Severed(cells, low, high - 1)
    requires Kept(cells1, low, high, cells')
    ensures Cut(cells, low, high, cells')
  {
  }

  lemma WindowForm<T>(s: seq<T>, start: int, stop: int)
    ensures var low, high := Bound(Normal(start, |s|), 0, |s|), Normal(stop, |s|);
            Window(s, start, stop) == if low > high || low >= |s| then [] else s[low..Min(high, |s| - 1) + 1]
  {
  }

  lemma RemovedNext(nodes: seq<ListNode>, k: nat, nodes': seq<ListNode>)
    requires Removed(nodes, k, nodes')
    ensures |nodes'| == |nodes| - 1 && At(nodes', k) == At(nodes, k + 1) && At(nodes', k - 1) == At(nodes, k - 1)
  {
  }

  // ---------- the list itself ----------

  class List {
    var head: ListNode?
    var tail: ListNode?
    var length: nat
    ghost var nodes: seq<ListNode>
    ghost var cells: seq<Cell>
    ghost var Repr: set<object>

    /** The heap nodes hold exactly `cells`. */
    ghost predicate Coupled()
      reads `nodes, `cells, nodes
    {
      |nodes| == |cells| && forall i :: 0 <= i < |nodes| ==> nodes[i].pos == i && nodes[i].Contents() == cells[i]
    }

    ghost predicate Valid()
      reads this, Repr
    {
      && this in Repr && (forall i :: 0 <= i < |nodes| ==> nodes[i] in Repr)
      && Coupled() && Chain(nodes, cells)
      && length == |nodes| && head == At(nodes, 0) && tail == At(nodes, |nodes| - 1)
    }

    ghost function Contents(): seq<string>
      reads `cells
    {
      Values(cells)
    }

    constructor ()
      ensures Valid() && Contents() == [] && fresh(Repr)
    {
      head, tail, length := null, null, 0;
      nodes, cells, Repr := [], [], {this};
    }

    ghost method Adopt(x: ListNode, k: nat)
      requires Coupled() && k <= |nodes| && x !in nodes
      modifies `nodes, `cells, nodes`pos, x`pos
      ensures Coupled() && Inserted(old(nodes), k, x, nodes) && Inserted(old(cells), k, x.Contents(), cells)
    {
      forall i | k <= i < |nodes| { nodes[i].pos := i + 1; }
      x.pos := k;
      nodes := Insertion(nodes, k, x);
      cells := Insertion(cells, k, x.Contents());
    }

    ghost method Forget(k: nat)
      requires Coupled() && k < |nodes|
      modifies `nodes, `cells, nodes`pos
      ensures Coupled() && Removed(old(nodes), k, nodes) && Removed(old(cells), k, cells)
    {
      forall i | k < i < |nodes| { nodes[i].pos := i - 1; }
      nodes := Removal(nodes, k);
      cells := Removal(cells, k);
    }

    method SetNext(n: ListNode, x: ListNode?, ghost i: nat)
      requires Coupled() && i < |nodes| && n == nodes[i]
      modifies `cells, n`next
      ensures Coupled() && cells == old(cells)[i := old(cells)[i].(next := x)]
    {
      n.next := x;
      cells := cells[i := cells[i].(next := x)];
    }

    method SetPrev(n: ListNode, x: ListNode?, ghost i: nat)
      requires Coupled() && i < |nodes| && n == nodes[i]
      modifies `cells, n`prev
      ensures Coupled() && cells == old(cells)[i := old(cells)[i].(prev := x)]
    {
      n.prev := x;
      cells := cells[i := cells[i].(prev := x)];
    }

    /** Takes a node whose neighbours already point to it into the list. */
    ghost method Settle(x: ListNode, k: nat, nodes0: seq<ListNode>, cells0: seq<Cell>)
      requires Coupled() && nodes == nodes0 && Chain(nodes0, cells0) && k <= |nodes| && x !in nodes
      requires Opened(cells0, k, x, cells)
      requires x.prev == At(nodes, k - 1) && x.next == At(nodes, k)
      requires forall i :: 0 <= i < |nodes| ==> nodes[i] in Repr
      modifies `nodes, `cells, `Repr, nodes`pos, x`pos
      ensures Coupled() && Chain(nodes, cells)
      ensures Inserted(Values(cells0), k, x.value, Contents())
      ensures |nodes| == |nodes0| + 1 && Repr == old(Repr) + {x} && forall i :: 0 <= i < |nodes| ==> nodes[i] in Repr
      ensures At(nodes, 0) == if k == 0 then x else At(nodes0, 0)
      ensures At(nodes, |nodes| - 1) == if k == |nodes0| then x else At(nodes0, |nodes0| - 1)
    {
      hide Chain, Opened, At, Values, Coupled, Inserted;
      ghost var cells1 := cells;
      Adopt(x, k);
      OpenChain(nodes0, cells0, k, x, x.value, cells1, nodes, cells);
      EndsInserted(nodes0, k, x, nodes);
      Repr := Repr + {x};
    }

    method SetValue(n: ListNode, v: string, ghost i: nat)
      requires Coupled() && i < |nodes| && n == nodes[i]
      modifies `cells, n`value
      ensures Coupled() && cells == old(cells)[i := old(cells)[i].(value := v)]
    {
      n.value := v;
      cells := cells[i := cells[i].(value := v)];
    }

    method PushFront(value: string)
      requires Valid()
      modifies Repr
      ensures Valid() && fresh(Repr - old(Repr)) && Contents() == [value] + old(Contents())
    {
      hide Chain, Opened, Values, Inserted, Coupled;
      Sizes();
      ghost var nodes0, cells0 := nodes, cells;
      var node := new ListNode(value);
      if head == null {
        head := node;
        tail := node;
      } else {
        node.next := head;
        SetPrev(head, node, 0);
        head := node;
      }
      length := length + 1;
      OpenedBy(cells0, 0, node, cells);
      Settle(node, 0, nodes0, cells0);
      InsertedForm(Values(cells0), 0, value, Contents());
    }

    method PushBack(value: string)
      requires Valid()
      modifies Repr
      ensures Valid() && fresh(Repr - old(Repr)) && Contents() == old(Contents()) + [value]
    {
      hide Chain, Opened, Values, Inserted, Coupled;
      Sizes();
      ghost var nodes0, cells0 := nodes, cells;
      var node := new ListNode(value);
      if tail == null {
        head := node;
        tail := node;
      } else {
        node.prev := tail;
        SetNext(tail, node, |nodes| - 1);
        tail := node;
      }
      length := length + 1;
      OpenedBy(cells0, |cells0|, node, cells);
      Settle(node, |nodes0|, nodes0, cells0);
      InsertedForm(Values(cells0), |cells0|, value, Contents());
    }

    /** Drops a node that its neighbours already point past. */
    ghost method Release(k: nat, nodes0: seq<ListNode>, cells0: seq<Cell>)
      requires Coupled() && nodes == nodes0 && Chain(nodes0, cells0) && k < |nodes|
      requires Closed(cells0, k, cells)
      requires forall i :: 0 <= i < |nodes| ==> nodes[i] in Repr
      modifies `nodes, `cells, nodes`pos
      ensures Coupled() && Chain(nodes, cells)
      ensures Removed(Values(cells0), k, Contents())
      ensures |nodes| == |nodes0| - 1 && forall i :: 0 <= i < |nodes| ==> nodes[i] in Repr
      ensures At(nodes, 0) == if k == 0 then At(nodes0, 1) else At(nodes0, 0)
      ensures At(nodes, |nodes| - 1) == if k == |nodes0| - 1 then At(nodes0, k - 1) else At(nodes0, |nodes0| - 1)
      ensures Removed(nodes0, k, nodes)
    {
      hide Chain, Closed, At, Values, Coupled, Removed;
      ghost var cells1 := cells;
      Forget(k);
      CloseChain(nodes0, cells0, k, cells1, nodes, cells);
      EndsRemoved(nodes0, k, nodes);
    }

    lemma Neighbours(i: nat)
      requires Valid() && i < |nodes|
      ensures nodes[i].prev == At(nodes, i - 1) && nodes[i].next == At(nodes, i + 1)
      ensures |Contents()| == |nodes| == |cells| && nodes[i].value == Contents()[i]
      ensures nodes[i].prev == cells[i].prev && nodes[i].next == cells[i].next
    {
      ChainAt(nodes, cells, i);
    }

    lemma Sizes()
      requires Valid()
      ensures |Contents()| == |nodes| == |cells| == length
    {
    }

    /** RemoveNode, for a node of this list or nil, which is ignored. */
    method RemoveNode(node: ListNode?, ghost k: nat)
      requires Valid() && (node != null ==> k < |nodes| && node == nodes[k])
      modifies Repr
      ensures Valid() && Repr == old(Repr)
      ensures node == null ==> Contents() == old(Contents()) && nodes == old(nodes)
      ensures node != null ==> Removed(old(Contents()), k, Contents()) && Removed(old(nodes), k, nodes)
    {
      hide Chain, Closed, Values, Removed, Coupled;
      if node == null {
        return;
      }
      ghost var nodes0, cells0 := nodes, cells;
      Sizes();
      LeadPast(node, k);
      length := length - 1;
      Release(k, nodes0, cells0);
    }

    /** Leads both neighbours, or the ends of the list, past a node. */
    method LeadPast(node: ListNode, ghost k: nat)
      requires Valid() && k < |nodes| && node == nodes[k]
      modifies `cells, `head, `tail, nodes
      ensures Coupled() && Closed(old(cells), k, cells)
      ensures head == if k == 0 then At(nodes, 1) else old(head)
      ensures tail == if k == |nodes| - 1 then At(nodes, k - 1) else old(tail)
    {
      hide Chain, Closed, Values, Coupled;
      Neighbours(k);
      var prev, next := node.prev, node.next;
      if prev != null {
        SetNext(prev, next, k - 1);
      } else {
        head := next;
      }
      if next != null {
        SetPrev(next, prev, k + 1);
      } else {
        tail := prev;
      }
      ClosedBy(old(cells), k, cells);
    }

    method PopFront() returns (popped: Option<string>)
      requires Valid()
      modifies Repr
      ensures Valid() && Repr == old(Repr)
      ensures old(Contents()) == [] ==> popped == None && Contents() == []
      ensures old(Contents()) != [] ==> popped == Some(old(Contents())[0]) && Contents() == old(Contents())[1..]
    {
      hide Chain, Closed, Values, Removed, Coupled;
      Sizes();
      if head == null {
        return None;
      }
      ghost var nodes0, cells0 := nodes, cells;
      Neighbours(0);
      popped := Some(head.value);
      head := head.next;
      if head != null {
        SetPrev(head, null, 1);
      } else {
        tail := null;
      }
      length := length - 1;
      ClosedBy(cells0, 0, cells);
      Release(0, nodes0, cells0);
      RemovedEnd(Values(cells0), 0, Contents());
    }

    method PopBack() returns (popped: Option<string>)
      requires Valid()
      modifies Repr
      ensures Valid() && Repr == old(Repr)
      ensures old(Contents()) == [] ==> popped == None && Contents() == []
      ensures old(Contents()) != [] ==> popped == Some(old(Contents())[|old(Contents())| - 1]) &&
                                        Contents() == old(Contents())[..|old(Contents())| - 1]
    {
      hide Chain, Closed, Values, Removed, Coupled;
      Sizes();
      if tail == null {
        return None;
      }
      ghost var nodes0, cells0, k := nodes, cells, |nodes| - 1;
      Neighbours(k);
      popped := Some(tail.value);
      tail := tail.prev;
      if tail != null {
        SetNext(tail, null, k - 1);
      } else {
        head := null;
      }
      length := length - 1;
      ClosedBy(cells0, k, cells);
      Release(k, nodes0, cells0);
      RemovedEnd(Values(cells0), k, Contents());
    }

    /** Lookup from the nearer end equals indexing. */
    method GetNodeAt(index: int) returns (node: ListNode?)
      requires Valid()
      ensures node == At(nodes, Normal(index, length))
    {
      hide Chain, Values, Coupled;
      if length == 0 {
        return null;
      }
      var target := if index < 0 then length + index else index;
      if target < 0 || target >= length {
        return null;
      }
      if target < length / 2 {
        node := head;
        var i := 0;
        while i < target
          invariant 0 <= i <= target && node == nodes[i]
        {
          Neighbours(i);
          node := node.next;
          i := i + 1;
        }
      } else {
        node := tail;
        var i := length - 1;
        while i > target
          invariant target <= i < length && node == nodes[i]
        {
          Neighbours(i);
          node := node.prev;
          i := i - 1;
        }
      }
    }

    method GetAt(index: int) returns (value: Option<string>)
      requires Valid()
      ensures var s := Contents();
              value == if 0 <= index < |s| then Some(s[index])
                       else if -|s| <= index < 0 then Some(s[|s| + index])
                       else None
    {
      hide Chain, Values;
      Sizes();
      var node := GetNodeAt(index);
      if node == null {
        return None;
      }
      Neighbours(Normal(index, length));
      return Some(node.value);
    }

    /** The write of SetAt, once GetNodeAt has found the node. */
    method Overwrite(node: ListNode, value: string, ghost i: nat)
      requires Valid() && i < |nodes| && node == nodes[i]
      modifies Repr
      ensures Valid() && Repr == old(Repr)
      ensures i < |old(Contents())| && Contents() == old(Contents())[i := value]
    {
      hide Chain, Values, Coupled;
      Sizes();
      ValueSet(nodes, cells, i, value);
      SetValue(node, value, i);
    }

    method Range(start: int, stop: int) returns (result: seq<string>)
      requires Valid()
      ensures result == Window(Contents(), start, stop)
    {
      hide Chain, Values, Coupled, Window;
      Sizes();
      WindowForm(Contents(), start, stop);
      if length == 0 {
        return [];
      }
      var low, high := Limits(start, stop);
      if low > high || low >= length {
        return [];
      }
      var node := GetNodeAt(low);
      result := [];
      var i := low;
      while i <= high && node != null
        invariant low <= i <= high + 1 && node == At(nodes, i)
        invariant result == Contents()[low..i]
      {
        Neighbours(i);
        result := result + [node.value];
        node := node.next;
        i := i + 1;
      }
    }

    /** The index adjustment shared by Range and Trim. */
    method Limits(start: int, stop: int) returns (low: int, high: int)
      requires length > 0
      ensures 0 <= low && high < length
      ensures low == (if Normal(start, length) < 0 then 0 else Normal(start, length))
      ensures high == Min(Normal(stop, length), length - 1)
    {
      low, high := start, stop;
      if low < 0 {
        low := length + low;
      }
      if high < 0 {
        high := length + high;
      }
      if low < 0 {
        low := 0;
      }
      if high >= length {
        high := length - 1;
      }
    }

    /** Points the neighbours of `x` to it. */
    method Join(x: ListNode, ghost k: nat)
      requires Coupled() && Chain(nodes, cells) && k <= |nodes| && x !in nodes
      requires head == At(nodes, 0) && tail == At(nodes, |nodes| - 1)
      requires x.prev == At(nodes, k - 1) && x.next == At(nodes, k)
      modifies `cells, `head, `tail, nodes`prev, nodes`next
      ensures Coupled() && Opened(old(cells), k, x, cells)
      ensures head == (if k == 0 then x else At(nodes, 0)) &&
              tail == (if k == |nodes| then x else At(nodes, |nodes| - 1))
    {
      hide Chain, Opened, Coupled;
      ghost var cells0 := cells;
      CoupledSize();
      if x.prev != null {
        SetNext(x.prev, x, k - 1);
      } else {
        head := x;
      }
      if x.next != null {
        SetPrev(x.next, x, k);
      } else {
        tail := x;
      }
      OpenedBy(cells0, k, x, cells);
    }

    lemma CoupledSize()
      requires Coupled()
      ensures |nodes| == |cells|
    {
    }

    method InsertBefore(node: ListNode?, value: string, ghost k: nat)
      requires Valid() && (node != null ==> k < |nodes| && node == nodes[k])
      modifies Repr
      ensures Valid() && fresh(Repr - old(Repr))
      ensures node == null ==> Contents() == old(Contents())
      ensures node != null ==>
        k < |old(Contents())| && Contents() == old(Contents())[..k] + [value] + old(Contents())[k..]
    {
      hide Chain, Opened, Values, Inserted, Coupled;
      if node == null {
        return;
      }
      Sizes();
      Neighbours(k);
      ghost var nodes0, cells0 := nodes, cells;
      var newNode := new ListNode(value);
      newNode.next := node;
      newNode.prev := node.prev;
      Join(newNode, k);
      length := length + 1;
      Settle(newNode, k, nodes0, cells0);
      InsertedForm(Values(cells0), k, value, Contents());
    }

    method InsertAfter(node: ListNode?, value: string, ghost k: nat)
      requires Valid() && (node != null ==> k < |nodes| && node == nodes[k])
      modifies Repr
      ensures Valid() && fresh(Repr - old(Repr))
      ensures node == null ==> Contents() == old(Contents())
      ensures node != null ==>
        k < |old(Contents())| && Contents() == old(Contents())[..k + 1] + [value] + old(Contents())[k + 1..]
    {
      hide Chain, Opened, Values, Inserted, Coupled;
      if node == null {
        return;
      }
      Sizes();
      Neighbours(k);
      ghost var nodes0, cells0 := nodes, cells;
      var newNode := new ListNode(value);
      newNode.prev := node;
      newNode.next := node.next;
      Join(newNode, k + 1);
      length := length + 1;
      Settle(newNode, k + 1, nodes0, cells0);
      InsertedForm(Values(cells0), k + 1, value, Contents());
    }

    method InsertBeside(node: ListNode, before: bool, value: string, ghost k: nat)
      requires Valid() && k < |nodes| && node == nodes[k]
      modifies Repr
      ensures Valid() && fresh(Repr - old(Repr))
      ensures var s := old(Contents());
              k < |s| && Contents() == if before then s[..k] + [value] + s[k..] else s[..k + 1] + [value] + s[k + 1..]
    {
      hide Chain, Values, Coupled;
      Sizes();
      if before {
        InsertBefore(node, value, k);
      } else {
        InsertAfter(node, value, k);
      }
    }

    /** The first node from the head, or from the tail, that holds `value`. */
    method FindNode(value: string, fromHead: bool) returns (node: ListNode?, ghost k: nat)
      requires Valid()
      ensures node == null <==> value !in Contents()
      ensures node != null ==> k < |Contents()| == |nodes| && node == nodes[k] && Contents()[k] == value
      ensures node != null ==> value !in if fromHead then Contents()[..k] else Contents()[k + 1..]
    {
      hide Chain, Values, Coupled;
      Sizes();
      if fromHead {
        node, k := head, 0;
        while node != null
          invariant 0 <= k <= |nodes| && node == At(nodes, k) && value !in Contents()[..k]
          decreases |nodes| - k
        {
          Neighbours(k);
          if node.value == value {
            return;
          }
          node := node.next;
          k := k + 1;
        }
        assert Contents()[..k] == Contents();
      } else {
        node, k := FindFromTail(value);
      }
    }

    method FindFromTail(value: string) returns (node: ListNode?, ghost k: nat)
      requires Valid()
      ensures node == null <==> value !in Contents()
      ensures node != null ==> k < |Contents()| == |nodes| && node == nodes[k] && Contents()[k] == value
      ensures node != null ==> value !in Contents()[k + 1..]
    {
      hide Chain, Values, Coupled;
      Sizes();
      node := tail;
      ghost var i: int := |nodes| - 1;
      while node != null
        invariant -1 <= i < |nodes| && node == At(nodes, i) && value !in Contents()[i + 1..]
        decreases i
      {
        Neighbours(i);
        if node.value == value {
          return node, i;
        }
        node := node.prev;
        i := i - 1;
      }
      k := 0;
      assert Contents()[0..] == Contents();
    }

    /** Forgets the nodes outside a severed segment. */
    ghost method Keep(low: nat, high: nat, cells0: seq<Cell>)
      requires Coupled() && low < high <= |nodes| == |cells| == |cells0| && cells == Severed(cells0, low, high - 1)
      modifies `nodes, `cells, nodes`pos
      ensures Coupled() && Kept(old(nodes), low, high, nodes) && Cut(cells0, low, high, cells)
    {
      hide Severed, Cut;
      ghost var cells1 := cells;
      forall i | low <= i < high { nodes[i].pos := i - low; }
      nodes := Segment(nodes, low, high);
      cells := Segment(cells, low, high);
      CutBy(cells0, low, high, cells1, cells);
    }

    method Trim(start: int, stop: int)
      requires Valid()
      modifies Repr
      ensures Valid() && Repr == old(Repr)
      ensures Contents() == Window(old(Contents()), start, stop)
    {
      hide Chain, Values, Coupled, Window, Cut;
      Sizes();
      WindowForm(Contents(), start, stop);
      if length == 0 {
        return;
      }
      var low, high := Limits(start, stop);
      if low > high || low >= length {
        Clear();
        return;
      }
      KeepOnly(low, high);
    }

    method KeepOnly(low: nat, high: nat)
      requires Valid() && low <= high < length == |Contents()|
      modifies Repr
      ensures Valid() && Repr == old(Repr)
      ensures Contents() == old(Contents())[low..high + 1]
    {
      hide Chain, Values, Coupled, Cut, Kept, Severed;
      ghost var nodes0, cells0 := nodes, cells;
      Sizes();
      var newHead := GetNodeAt(low);
      var newTail := GetNodeAt(high);
      Sever(newHead, newTail, low, high);
      Keep(low, high + 1, cells0);
      KeptEnds(nodes0, low, high + 1, nodes);
      head := newHead;
      tail := newTail;
      length := high - low + 1;
      CutChain(nodes0, cells0, low, high + 1, nodes, cells);
    }

    /** Cuts the links at both ends of a segment. */
    method Sever(newHead: ListNode, newTail: ListNode, ghost low: nat, ghost high: nat)
      requires Coupled() && low <= high < |nodes| == |cells| && newHead == nodes[low] && newTail == nodes[high]
      modifies `cells, newHead`prev, newTail`next
      ensures Coupled() && |cells| == |old(cells)| == |old(nodes)| && cells == Severed(old(cells), low, high)
    {
      hide Coupled;
      SetPrev(newHead, null, low);
      SetNext(newTail, null, high);
    }

    method Clear()
      requires Valid()
      modifies this
      ensures Valid() && Repr == old(Repr) && Contents() == []
    {
      hide Values;
      ValuesNone();
      head, tail, length := null, null, 0;
      nodes, cells := [], [];
    }

    method Clone() returns (copy: List)
      requires Valid()
      ensures copy.Valid() && fresh(copy.Repr) && copy.Contents() == Contents()
    {
      hide Chain, Values, Coupled;
      Sizes();
      copy := new List();
      if length == 0 {
        return;
      }
      var current := head;
      ghost var k := 0;
      while current != null
        invariant 0 <= k <= |nodes| && current == At(nodes, k)
        invariant copy.Valid() && fresh(copy.Repr) && copy.Contents() == Contents()[..k]
        decreases |nodes| - k
      {
        Neighbours(k);
        copy.PushBack(current.value);
        current := current.next;
        k := k + 1;
      }
    }

    /** LREM's loop from head to tail. */
    method RemoveFromHead(value: string, toRemove: nat) returns (removed: nat)
      requires Valid()
      modifies Repr
      ensures Valid() && Repr == old(Repr)
      ensures Contents() == DropFirst(old(Contents()), value, toRemove)
      ensures removed == |old(Contents())| - |Contents()|
    {
      hide Chain, Values, Coupled, Removed, DropFirst, HeadGoal;
      Sizes();
      var node := head;
      removed := 0;
      ghost var i, goal := 0, DropFirst(Contents(), value, toRemove);
      GoalStart(Contents(), value, toRemove);
      while node != null && removed < toRemove
        invariant Valid() && Repr == old(Repr) && |Contents()| == |nodes|
        invariant 0 <= i <= |nodes| && node == At(nodes, i)
        invariant removed <= toRemove && removed == |old(Contents())| - |Contents()|
        invariant HeadGoal(goal, Contents(), value, i, toRemove - removed)
        decreases |nodes| - i
      {
        Neighbours(i);
        HeadStep(goal, Contents(), value, i, toRemove - removed);
        var next := node.next;
        if node.value == value {
          Excise(node, i);
          removed := removed + 1;
        } else {
          i := i + 1;
        }
        node := next;
      }
      GoalEnd(goal, Contents(), value, i, toRemove - removed);
    }

    /** LREM's loop from tail to head. */
    method RemoveFromTail(value: string, toRemove: nat) returns (removed: nat)
      requires Valid()
      modifies Repr
      ensures Valid() && Repr == old(Repr)
      ensures Contents() == DropLast(old(Contents()), value, toRemove)
      ensures removed == |old(Contents())| - |Contents()|
    {
      hide Chain, Values, Coupled, Removed, DropLast, TailGoal;
      Sizes();
      var node := tail;
      removed := 0;
      ghost var i, goal := |nodes| - 1, DropLast(Contents(), value, toRemove);
      GoalStart(Contents(), value, toRemove);
      while node != null && removed < toRemove
        invariant Valid() && Repr == old(Repr) && |Contents()| == |nodes|
        invariant -1 <= i < |nodes| && node == At(nodes, i)
        invariant removed <= toRemove && removed == |old(Contents())| - |Contents()|
        invariant TailGoal(goal, Contents(), value, i, toRemove - removed)
        decreases i
      {
        Neighbours(i);
        TailStep(goal, Contents(), value, i, toRemove - removed);
        var prev := node.prev;
        if node.value == value {
          Excise(node, i);
          removed := removed + 1;
        }
        i := i - 1;
        node := prev;
      }
      GoalEnd(goal, Contents(), value, i, toRemove - removed);
    }

    /** RemoveNode, with the neighbours it leaves at the gap. */
    method Excise(node: ListNode, ghost k: nat)
      requires Valid() && k < |nodes| && node == nodes[k]
      modifies Repr
      ensures Valid() && Repr == old(Repr) && |Contents()| == |nodes| == |old(nodes)| - 1 == |old(Contents())| - 1
      ensures Contents() == old(Contents())[..k] + old(Contents())[k + 1..]
      ensures At(nodes, k) == At(old(nodes), k + 1) && At(nodes, k - 1) == At(old(nodes), k - 1)
    {
      hide Chain, Values, Coupled, Removed;
      ghost var s, nodes0 := Contents(), nodes;
      Sizes();
      RemoveNode(node, k);
      Sizes();
      RemovedForm(s, k, Contents());
      RemovedNext(nodes0, k, nodes);
    }

    // ---------- the loops of the list commands ----------

    method PushAllFront(values: seq<string>)
      requires Valid()
      modifies Repr
      ensures Valid() && fresh(Repr - old(Repr)) && Contents() == PushLeft(old(Contents()), values)
    {
      hide Chain, Values, Coupled, PushLeft, Reverse;
      PushLeftNone(Contents());
      var i := 0;
      while i < |values|
        invariant 0 <= i <= |values|
        invariant Valid() && fresh(Repr - old(Repr)) && Contents() == PushLeft(old(Contents()), values[..i])
      {
        PushLeftStep(old(Contents()), values, i);
        PushFront(values[i]);
        i := i + 1;
      }
      assert values[..i] == values;
    }

    method PushAllBack(values: seq<string>)
      requires Valid()
      modifies Repr
      ensures Valid() && fresh(Repr - old(Repr)) && Contents() == old(Contents()) + values
    {
      hide Chain, Values, Coupled;
      var i := 0;
      while i < |values|
        invariant 0 <= i <= |values|
        invariant Valid() && fresh(Repr - old(Repr)) && Contents() == old(Contents()) + values[..i]
      {
        PushBack(values[i]);
        i := i + 1;
      }
    }

    method PopManyFront(count: int) returns (result: seq<string>)
      requires Valid() && length > 0
      modifies Repr
      ensures Valid() && Repr == old(Repr)
      ensures var n := PopCount(count, |old(Contents())|);
              result == old(Contents())[..n] && Contents() == old(Contents())[n..]
    {
      hide Chain, Values, Coupled;
      Sizes();
      var n := if count <= 0 then 1 else count;
      if n > length {
        n := length;
      }
      result := [];
      var i := 0;
      while i < n
        invariant 0 <= i <= n
        invariant Valid() && Repr == old(Repr)
        invariant result == old(Contents())[..i] && Contents() == old(Contents())[i..]
      {
        var val := PopFront();
        if val.Some? {
          result := result + [val.value];
        }
        i := i + 1;
      }
    }

    method PopManyBack(count: int) returns (result: seq<string>)
      requires Valid() && length > 0
      modifies Repr
      ensures Valid() && Repr == old(Repr)
      ensures var s, n := old(Contents()), PopCount(count, |old(Contents())|);
              result == Reverse(s[|s| - n..]) && Contents() == s[..|s| - n]
    {
      hide Chain, Values, Coupled, Reverse, Valid, Contents;
      Sizes();
      ghost var s := Contents();
      var n := if count <= 0 then 1 else count;
      if n > length {
        n := length;
      }
      result := [];
      ReverseNone<string>();
      assert s[|s|..] == [];
      var i := 0;
      while i < n
        invariant 0 <= i <= n
        invariant Valid() && Repr == old(Repr)
        invariant result == Reverse(s[|s| - i..]) && Contents() == s[..|s| - i]
      {
        ReverseSuffix(s, i);
        ShorterPrefix(s, i);
        var val := PopBack();
        if val.Some? {
          result := result + [val.value];
        }
        i := i + 1;
      }
    }
  }
}
