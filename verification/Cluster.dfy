/** The cluster map: who owns which slot, how many are assigned, and where keys are sent. */
module Clusters {
  import opened Crc16s
  import opened Slots

  class Node {
    const id: string
    const address: string
    const port: int
    var slots: seq<int>

    constructor (id: string, address: string, port: int, slots: seq<int>)
      ensures this.id == id && this.address == address && this.port == port && this.slots == slots
    {
      this.id, this.address, this.port, this.slots := id, address, port, slots;
    }
  }

  // ---------- counting ----------

  ghost function Assigned(m: seq<string>): nat
  {
    if m == [] then 0 else Assigned(m[..|m| - 1]) + if m[|m| - 1] != "" then 1 else 0
  }

  ghost function One(owner: string): nat
  {
    if owner != "" then 1 else 0
  }

  lemma {:induction false} AssignedUpdate(m: seq<string>, i: nat, v: string)
    requires i < |m|
    ensures Assigned(m[i := v]) == Assigned(m) - One(m[i]) + One(v)
  {
    var n := |m| - 1;
    if i == n {
      assert m[i := v][..n] == m[..n];
    } else {
      assert m[i := v][..n] == m[..n][i := v];
      AssignedUpdate(m[..n], i, v);
    }
  }

  /** The count tells whether everything is covered. */
  lemma {:induction false} AssignedAll(m: seq<string>)
    ensures Assigned(m) <= |m| && (Assigned(m) == |m| <==> forall i :: 0 <= i < |m| ==> m[i] != "")
  {
    if m != [] {
      var n := |m| - 1;
      AssignedAll(m[..n]);
      assert forall i :: 0 <= i < n ==> m[..n][i] == m[i];
    }
  }

  lemma {:induction false} AssignedNone(m: seq<string>)
    requires forall i :: 0 <= i < |m| ==> m[i] == ""
    ensures Assigned(m) == 0
  {
    if m != [] { AssignedNone(m[..|m| - 1]); }
  }

  // ---------- the cluster ----------

  datatype Decision = Allowed | Moved(slot: nat, to: Node) | ClusterDown | CrossSlot

  ghost predicate InRange(slots: seq<int>)
  {
    forall i :: 0 <= i < |slots| ==> 0 <= slots[i] < NUM_SLOTS
  }

  /** How many entries of a list name a slot. */
  ghost function Hits(slots: seq<int>): nat
  {
    if slots == [] then 0
    else Hits(slots[..|slots| - 1]) + if 0 <= slots[|slots| - 1] < NUM_SLOTS then 1 else 0
  }

  class Cluster {
    const mySelf: Node
    const slotMap: array<string>
    var nodes: map<string, Node>
    var stateOk: bool
    var enabled: bool
    var assignedSlots: int

    /** The cached count and the state agree with the map. */
    ghost predicate Counted()
      reads this, slotMap
    {
      && slotMap.Length == NUM_SLOTS && assignedSlots == Assigned(slotMap[..])
      && (stateOk <==> assignedSlots == NUM_SLOTS)
    }

    ghost predicate Known()
      reads this, nodes.Values
    {
      && mySelf.id in nodes && nodes[mySelf.id] == mySelf
      && forall id :: id in nodes ==> id != "" && nodes[id].id == id && InRange(nodes[id].slots)
    }

    /** Every owner is a known node that lists the slot. */
    ghost predicate Owned()
      reads this, slotMap, nodes.Values
    {
      slotMap.Length == NUM_SLOTS &&
      forall s :: 0 <= s < NUM_SLOTS && slotMap[s] != "" ==> slotMap[s] in nodes && s in nodes[slotMap[s]].slots
    }

    ghost predicate Valid()
      reads this, slotMap, nodes.Values
    {
      Counted() && Known() && Owned()
    }

    constructor (id: string, address: string, port: int)
      requires id != ""
      ensures Valid() && mySelf.id == id && !stateOk && !enabled && fresh(slotMap) && fresh(mySelf)
      ensures forall s :: 0 <= s < NUM_SLOTS ==> slotMap[s] == ""
    {
      var me := new Node(id, address, port, []);
      mySelf := me;
      nodes := map[id := me];
      stateOk, enabled, assignedSlots := false, false, 0;
      slotMap := new string[NUM_SLOTS](_ => "");
      new;
      AssignedNone(slotMap[..]);
    }

    method UpdateState()
      modifies `stateOk
      ensures stateOk <==> assignedSlots == NUM_SLOTS
    {
      stateOk := assignedSlots == NUM_SLOTS;
    }

    /** Writes an owner and counts a slot that had none; a nameless owner leaves the count one
      * too high. */
    method Claim(s: int, owner: string)
      requires slotMap.Length == NUM_SLOTS && 0 <= s < NUM_SLOTS
      modifies `assignedSlots, slotMap
      ensures slotMap[..] == old(slotMap[..])[s := owner]
      ensures assignedSlots - Assigned(slotMap[..]) ==
              old(assignedSlots) - Assigned(old(slotMap[..])) + if owner == "" then 1 else 0
    {
      AssignedUpdate(slotMap[..], s, owner);
      if slotMap[s] == "" {
        assignedSlots := assignedSlots + 1;
      }
      slotMap[s] := owner;
    }

    method Clear(s: int)
      requires slotMap.Length == NUM_SLOTS && 0 <= s < NUM_SLOTS && slotMap[s] != ""
      requires assignedSlots == Assigned(slotMap[..])
      modifies `assignedSlots, slotMap
      ensures slotMap[..] == old(slotMap[..])[s := ""] && assignedSlots == Assigned(slotMap[..])
    {
      AssignedUpdate(slotMap[..], s, "");
      slotMap[s] := "";
      assignedSlots := assignedSlots - 1;
    }

    method AssignSlots(slots: seq<int>)
      requires Valid()
      modifies this, slotMap, mySelf
      ensures Valid() && nodes == old(nodes) && enabled == old(enabled)
      ensures forall s :: 0 <= s < NUM_SLOTS ==> slotMap[s] == if s in slots then mySelf.id else old(slotMap[s])
      ensures stateOk <==> forall s :: 0 <= s < NUM_SLOTS ==> slotMap[s] != ""
    {
      hide Assigned;
      for i := 0 to |slots|
        invariant slotMap.Length == NUM_SLOTS && assignedSlots == Assigned(slotMap[..]) && Known() && Owned()
        invariant nodes == old(nodes) && enabled == old(enabled)
        invariant forall s :: 0 <= s < NUM_SLOTS ==>
                  slotMap[s] == if s in slots[..i] then mySelf.id else old(slotMap[s])
      {
        var slot := slots[i];
        assert slots[..i + 1] == slots[..i] + [slot];
        if 0 <= slot < NUM_SLOTS {
          AssignOne(slot);
        }
      }
      assert slots[..|slots|] == slots;
      UpdateState();
      AssignedAll(slotMap[..]);
      assert forall s :: 0 <= s < NUM_SLOTS ==> slotMap[..][s] == slotMap[s];
    }

    method AssignOne(slot: int)
      requires 0 <= slot < NUM_SLOTS && Known() && Owned() && assignedSlots == Assigned(slotMap[..])
      modifies `assignedSlots, slotMap, mySelf
      ensures Known() && Owned() && assignedSlots == Assigned(slotMap[..])
      ensures forall s :: 0 <= s < NUM_SLOTS ==> slotMap[s] == if s == slot then mySelf.id else old(slotMap[s])
    {
      hide Assigned;
      Claim(slot, mySelf.id);
      assert forall s :: 0 <= s < NUM_SLOTS ==> slotMap[s] == slotMap[..][s];
      mySelf.slots := mySelf.slots + [slot];
    }

    /** What keeps the owners right when a node is added under an id that may be taken. */
    ghost predicate Replaces(node: Node)
      reads this, slotMap, node
    {
      && slotMap.Length == NUM_SLOTS && InRange(node.slots) && (node.id == mySelf.id ==> node == mySelf)
      && forall s :: 0 <= s < NUM_SLOTS && slotMap[s] == node.id ==> s in node.slots
    }

    /** A node with an id is always counted right; without one, each of its slots puts the count
      * one too high. The owners stay right exactly when the node's slots take over all that its
      * id already owns, and the whole invariant survives if it has an id and slots in range too. */
    method AddNode(node: Node)
      requires Valid()
      modifies this, slotMap
      ensures nodes == old(nodes)[node.id := node] && enabled == old(enabled) && slotMap.Length == NUM_SLOTS
      ensures forall s :: 0 <= s < NUM_SLOTS ==> slotMap[s] == if s in node.slots then node.id else old(slotMap[s])
      ensures assignedSlots == Assigned(slotMap[..]) + if node.id == "" then Hits(node.slots) else 0
      ensures Counted() <==> node.id != "" || Hits(node.slots) == 0
      ensures Owned() <==>
              forall s :: 0 <= s < NUM_SLOTS && old(slotMap[s]) == node.id != "" ==> s in node.slots
      ensures Valid() <==> node.id != "" && old(Replaces(node))
      ensures Counted() ==> (stateOk <==> forall s :: 0 <= s < NUM_SLOTS ==> slotMap[s] != "")
    {
      hide Assigned;
      nodes := nodes[node.id := node];
      for i := 0 to |node.slots|
        invariant slotMap.Length == NUM_SLOTS
        invariant assignedSlots == Assigned(slotMap[..]) + if node.id == "" then Hits(node.slots[..i]) else 0
        invariant nodes == old(nodes)[node.id := node] && enabled == old(enabled)
        invariant forall s :: 0 <= s < NUM_SLOTS ==>
                  slotMap[s] == if s in node.slots[..i] then node.id else old(slotMap[s])
      {
        var slot := node.slots[i];
        assert node.slots[..i + 1] == node.slots[..i] + [slot];
        assert node.slots[..i + 1][..i] == node.slots[..i];
        if 0 <= slot < NUM_SLOTS {
          Claim(slot, node.id);
          assert forall s :: 0 <= s < NUM_SLOTS ==> slotMap[s] == slotMap[..][s];
        }
      }
      assert node.slots[..|node.slots|] == node.slots;
      UpdateState();
      AssignedAll(slotMap[..]);
      assert forall s :: 0 <= s < NUM_SLOTS ==> slotMap[..][s] == slotMap[s];
      if node.id != "" && old(Replaces(node)) {
        assert Known();
        forall s | 0 <= s < NUM_SLOTS && slotMap[s] != "" ensures slotMap[s] in nodes && s in nodes[slotMap[s]].slots {
          if s !in node.slots { assert slotMap[s] == old(slotMap[s]); }
        }
      }
      if Valid() {
        assert nodes[node.id] == node;
        forall s | 0 <= s < NUM_SLOTS && old(slotMap[s]) == node.id
          ensures s in node.slots
        {
          assert slotMap[s] == node.id;
        }
      }
    }

    /** Clears what the node owns; everything stays right exactly when it is not this node. */
    method RemoveNode(id: string)
      requires Valid()
      modifies this, slotMap
      ensures Counted() && nodes == old(nodes) - {id} && enabled == old(enabled)
      ensures forall s :: 0 <= s < NUM_SLOTS ==> slotMap[s] == if old(slotMap[s]) == id then "" else old(slotMap[s])
      ensures Valid() <==> id != mySelf.id
    {
      hide Assigned;
      if id !in nodes {
        assert nodes - {id} == nodes;
        return;
      }
      var node := nodes[id];
      for i := 0 to |node.slots|
        invariant slotMap.Length == NUM_SLOTS && assignedSlots == Assigned(slotMap[..])
        invariant nodes == old(nodes) && enabled == old(enabled)
        invariant forall s :: 0 <= s < NUM_SLOTS ==>
                    slotMap[s] == if s in node.slots[..i] && old(slotMap[s]) == id then "" else old(slotMap[s])
      {
        var slot := node.slots[i];
        assert node.slots[..i + 1] == node.slots[..i] + [slot];
        if slotMap[slot] == id {
          Clear(slot);
          assert forall s :: 0 <= s < NUM_SLOTS ==> slotMap[s] == slotMap[..][s];
        }
      }
      assert node.slots[..|node.slots|] == node.slots;
      nodes := nodes - {id};
      UpdateState();
    }

    /** Served here, sent to the true owner, or down exactly when nobody owns the slot. */
    ghost predicate Routes(d: Decision, slot: nat)
      requires slot < NUM_SLOTS == slotMap.Length
      reads this, slotMap
    {
      var owner := slotMap[slot];
      && (d == Allowed <==> owner == mySelf.id)
      && (d == ClusterDown <==> owner == "")
      && (owner != mySelf.id && owner != "" ==>
            owner in nodes && d == Moved(slot, nodes[owner]) && nodes[owner].id == owner)
    }

    method CheckKeyOwnership(key: Bytes) returns (d: Decision)
      requires Valid()
      ensures !enabled ==> d == Allowed
      ensures enabled ==> Routes(d, Slot(key))
    {
      hide Assigned;
      if !enabled {
        return Allowed;
      }
      var slot := KeyHashSlot(key);
      if slotMap[slot] == mySelf.id {
        return Allowed;
      }
      if slotMap[slot] !in nodes {
        return ClusterDown;
      }
      return Moved(slot, nodes[slotMap[slot]]);
    }

    /** Keys of different slots are refused, keys of one slot go where each of them goes. */
    method CheckMultiKeyOwnership(keys: seq<Bytes>) returns (d: Decision)
      requires Valid()
      ensures !enabled || keys == [] ==> d == Allowed
      ensures enabled && (exists i, j :: 0 <= i < j < |keys| && Slot(keys[i]) != Slot(keys[j])) ==> d == CrossSlot
      ensures enabled && (forall i, j :: 0 <= i < j < |keys| ==> Slot(keys[i]) == Slot(keys[j])) ==>
                forall i :: 0 <= i < |keys| ==> Routes(d, Slot(keys[i]))
    {
      hide Assigned, Owned;
      if !enabled {
        return Allowed;
      }
      if |keys| == 0 {
        return Allowed;
      }
      var same := KeysInSameSlot(keys);
      if !same {
        return CrossSlot;
      }
      d := CheckKeyOwnership(keys[0]);
    }
  }
}
