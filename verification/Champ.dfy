/**
The persistent hash map behind the key-value store: a compressed hash-array mapped prefix tree
with collision nodes under its deepest level.

Nodes are immutable values; the source's `put_mut` and `remove_mut` work on a copy of a node, so
here they are functions from the node to the changed copy.
*/
module Champ {
  import opened Options
  import opened KeyValue
  import opened ChampBits

  type Hash = h: nat | h < 0x1_0000_0000

  /** Levels of branching nodes, five bits of the hash each; below them the two bits that are left
      choose one of four collision bins. */
  const COLLISION_DEPTH: nat := 6
  const COLLISION_BINS: nat := 4

  function Shift(depth: nat): (p: nat)
    requires depth <= COLLISION_DEPTH
    ensures p > 0
  {
    if depth == 0 then 1 else 32 * Shift(depth - 1)
  }

  /** The part of a hash that chooses the branch at `depth`. */
  function Mask(hash: Hash, depth: nat): (i: nat)
    requires depth <= COLLISION_DEPTH
    ensures i < 32
    ensures depth == COLLISION_DEPTH ==> i < COLLISION_BINS
  {
    assert depth == 6 ==> Shift(depth) == 0x4000_0000 by {
      assert Shift(2) == 1024 && Shift(4) == 1024 * Shift(2) && Shift(6) == 1024 * Shift(4);
    }
    hash / Shift(depth) % 32
  }

  datatype Node<+K, +V> =
    | Leaf(entry: Entry<K, V>)
    | Inner(sub: SubNodes<K, V>)
    | Bins(bins: seq<seq<Entry<K, V>>>)

  datatype SubNodes<+K, +V> = SubNodes(nodes: seq<Node<K, V>>, nodeMap: Bitmap, dataMap: Bitmap)

  const NO_INDEX: int := -1

  function CompressedIdx<K, V>(sn: SubNodes<K, V>, idx: nat): int
    requires idx < WORD
  {
    if !Check(sn.nodeMap, idx) && !Check(sn.dataMap, idx) then NO_INDEX
    else if Check(sn.dataMap, idx) then Pop(And(sn.dataMap, LowMask(idx)))
    else Pop(sn.dataMap) + Pop(And(sn.nodeMap, LowMask(idx)))
  }

  // ----- A node as 32 slots

  /** The vector has one node for every bit of the two disjoint maps. */
  ghost predicate Shape<K, V>(sn: SubNodes<K, V>) {
    && |sn.nodes| == Pop(sn.dataMap) + Pop(sn.nodeMap)
    && (forall i :: 0 <= i < WORD ==> !(sn.dataMap[i] && sn.nodeMap[i]))
  }

  lemma CompressedBounds<K, V>(sn: SubNodes<K, V>, idx: nat)
    requires Shape(sn) && idx < WORD
    ensures CompressedIdx(sn, idx) ==
      if sn.dataMap[idx] then Count(sn.dataMap, idx)
      else if sn.nodeMap[idx] then Pop(sn.dataMap) + Count(sn.nodeMap, idx)
      else NO_INDEX
    ensures CompressedIdx(sn, idx) < |sn.nodes|
    ensures sn.dataMap[idx] ==> CompressedIdx(sn, idx) < Pop(sn.dataMap)
  {
    CountLow(sn.dataMap, idx, WORD);
    CountLow(sn.nodeMap, idx, WORD);
    CountMonotone(sn.dataMap, idx, WORD);
    CountMonotone(sn.nodeMap, idx, WORD);
  }

  /** What the compressed index addresses. */
  ghost function Slot<K, V>(sn: SubNodes<K, V>, idx: nat): Option<Node<K, V>>
    requires Shape(sn) && idx < WORD
  {
    CompressedBounds(sn, idx);
    var c := CompressedIdx(sn, idx);
    if c == NO_INDEX then None else Some(sn.nodes[c])
  }

  /** Adding an entry where there was nothing fills that slot and moves no other. */
  lemma InsertSlot<K, V>(sn: SubNodes<K, V>, idx: nat, x: Node<K, V>)
    requires Shape(sn) && idx < WORD && !sn.dataMap[idx] && !sn.nodeMap[idx]
    ensures Count(sn.dataMap, idx) <= |sn.nodes|
    ensures var sn' := SubNodes(InsertAt(sn.nodes, Count(sn.dataMap, idx), x), sn.nodeMap, Set(sn.dataMap, idx));
      && CompressedIdx(sn', idx) == Count(sn.dataMap, idx)
      && Shape(sn')
      && forall i :: 0 <= i < WORD ==> Slot(sn', i) == if i == idx then Some(x) else Slot(sn, i)
  {
    CountMonotone(sn.dataMap, idx, WORD);
    var c := Count(sn.dataMap, idx);
    var sn' := SubNodes(InsertAt(sn.nodes, c, x), sn.nodeMap, Set(sn.dataMap, idx));
    CountSet(sn.dataMap, idx, WORD);
    CountSet(sn.dataMap, idx, idx);
    assert Shape(sn');
    CompressedBounds(sn', idx);
    forall i | 0 <= i < WORD && i != idx
      ensures Slot(sn', i) == Slot(sn, i)
    {
      InsertShift(sn, idx, x, i);
    }
  }

  lemma InsertShift<K, V>(sn: SubNodes<K, V>, idx: nat, x: Node<K, V>, i: nat)
    requires Shape(sn) && idx < WORD && !sn.dataMap[idx] && !sn.nodeMap[idx] && i < WORD && i != idx
    requires Count(sn.dataMap, idx) <= |sn.nodes|
    requires Shape(SubNodes(InsertAt(sn.nodes, Count(sn.dataMap, idx), x), sn.nodeMap, Set(sn.dataMap, idx)))
    ensures var sn' := SubNodes(InsertAt(sn.nodes, Count(sn.dataMap, idx), x), sn.nodeMap, Set(sn.dataMap, idx));
      Slot(sn', i) == Slot(sn, i)
  {
    var c := Count(sn.dataMap, idx);
    var sn' := SubNodes(InsertAt(sn.nodes, c, x), sn.nodeMap, Set(sn.dataMap, idx));
    CompressedBounds(sn', i);
    CompressedBounds(sn, i);
    CountSet(sn.dataMap, idx, i);
    CountSet(sn.dataMap, idx, WORD);
    CountMonotone(sn.dataMap, idx, WORD);
    if i < idx {
      CountMonotone(sn.dataMap, i, idx);
    } else {
      CountMonotone(sn.dataMap, idx, i);
    }
  }

  /** Replacing the node of an occupied slot leaves the other slots alone. */
  lemma ReplaceSlot<K, V>(sn: SubNodes<K, V>, idx: nat, x: Node<K, V>)
    requires Shape(sn) && idx < WORD && (sn.dataMap[idx] || sn.nodeMap[idx])
    ensures 0 <= CompressedIdx(sn, idx) < |sn.nodes|
    ensures var sn' := sn.(nodes := sn.nodes[CompressedIdx(sn, idx) := x]);
      && Shape(sn')
      && forall i :: 0 <= i < WORD ==> Slot(sn', i) == if i == idx then Some(x) else Slot(sn, i)
  {
    CompressedBounds(sn, idx);
    var sn' := sn.(nodes := sn.nodes[CompressedIdx(sn, idx) := x]);
    forall i | 0 <= i < WORD
      ensures Slot(sn', i) == if i == idx then Some(x) else Slot(sn, i)
    {
      CompressedBounds(sn, i);
      if i != idx {
        CompressedInjective(sn, i, idx);
      }
    }
  }

  lemma CompressedInjective<K, V>(sn: SubNodes<K, V>, i: nat, j: nat)
    requires Shape(sn) && i < WORD && j < WORD && i != j && CompressedIdx(sn, j) != NO_INDEX
    ensures CompressedIdx(sn, i) != CompressedIdx(sn, j)
  {
    CompressedBounds(sn, i);
    CompressedBounds(sn, j);
    var lo, hi := if i < j then i else j, if i < j then j else i;
    CountMonotone(sn.dataMap, lo, hi);
    CountMonotone(sn.nodeMap, lo, hi);
  }

  /** Removing an entry empties its slot and moves no other. */
  lemma EraseSlot<K, V>(sn: SubNodes<K, V>, idx: nat)
    requires Shape(sn) && idx < WORD && sn.dataMap[idx]
    ensures 0 <= CompressedIdx(sn, idx) < |sn.nodes|
    ensures var sn' := SubNodes(EraseAt(sn.nodes, CompressedIdx(sn, idx)), sn.nodeMap, Clear(sn.dataMap, idx));
      && Shape(sn')
      && forall i :: 0 <= i < WORD ==> Slot(sn', i) == if i == idx then None else Slot(sn, i)
  {
    CompressedBounds(sn, idx);
    CountClear(sn.dataMap, idx, WORD);
    var sn' := SubNodes(EraseAt(sn.nodes, CompressedIdx(sn, idx)), sn.nodeMap, Clear(sn.dataMap, idx));
    assert Shape(sn');
    forall i | 0 <= i < WORD
      ensures Slot(sn', i) == if i == idx then None else Slot(sn, i)
    {
      EraseShift(sn, idx, i);
    }
  }

  lemma EraseShift<K, V>(sn: SubNodes<K, V>, idx: nat, i: nat)
    requires Shape(sn) && idx < WORD && sn.dataMap[idx] && i < WORD
    requires 0 <= CompressedIdx(sn, idx) < |sn.nodes|
    requires Shape(SubNodes(EraseAt(sn.nodes, CompressedIdx(sn, idx)), sn.nodeMap, Clear(sn.dataMap, idx)))
    ensures var sn' := SubNodes(EraseAt(sn.nodes, CompressedIdx(sn, idx)), sn.nodeMap, Clear(sn.dataMap, idx));
      Slot(sn', i) == if i == idx then None else Slot(sn, i)
  {
    var c := CompressedIdx(sn, idx);
    var sn' := SubNodes(EraseAt(sn.nodes, c), sn.nodeMap, Clear(sn.dataMap, idx));
    CompressedBounds(sn, idx);
    CompressedBounds(sn, i);
    CompressedBounds(sn', i);
    CountClear(sn.dataMap, idx, i);
    CountClear(sn.dataMap, idx, WORD);
    if i < idx {
      CountMonotone(sn.dataMap, i, idx);
    } else {
      CountMonotone(sn.dataMap, idx, i);
    }
  }

  /** An entry makes way for a node: taken out of the front of the vector, put into the back. */
  lemma BranchSlot<K, V>(sn: SubNodes<K, V>, idx: nat, x: Node<K, V>)
    requires Shape(sn) && idx < WORD && sn.dataMap[idx]
    ensures 0 <= CompressedIdx(sn, idx) < |sn.nodes|
    ensures var nodes := EraseAt(sn.nodes, CompressedIdx(sn, idx));
      var c' := CompressedIdx(SubNodes(nodes, Set(sn.nodeMap, idx), Clear(sn.dataMap, idx)), idx);
      && 0 <= c' <= |nodes|
      && var sn' := SubNodes(InsertAt(nodes, c', x), Set(sn.nodeMap, idx), Clear(sn.dataMap, idx));
      && Shape(sn')
      && forall i :: 0 <= i < WORD ==> Slot(sn', i) == if i == idx then Some(x) else Slot(sn, i)
  {
    EraseSlot(sn, idx);
    var mid := SubNodes(EraseAt(sn.nodes, CompressedIdx(sn, idx)), sn.nodeMap, Clear(sn.dataMap, idx));
    InsertNode(mid, idx, x);
  }

  /** Adding a node where there was nothing. */
  lemma InsertNode<K, V>(sn: SubNodes<K, V>, idx: nat, x: Node<K, V>)
    requires Shape(sn) && idx < WORD && !sn.dataMap[idx] && !sn.nodeMap[idx]
    ensures var c := CompressedIdx(sn.(nodeMap := Set(sn.nodeMap, idx)), idx);
      && 0 <= c <= |sn.nodes|
      && var sn' := SubNodes(InsertAt(sn.nodes, c, x), Set(sn.nodeMap, idx), sn.dataMap);
      && Shape(sn')
      && forall i :: 0 <= i < WORD ==> Slot(sn', i) == if i == idx then Some(x) else Slot(sn, i)
  {
    var c := Pop(sn.dataMap) + Count(sn.nodeMap, idx);
    CountMonotone(sn.nodeMap, idx, WORD);
    CountSet(sn.nodeMap, idx, WORD);
    CountSet(sn.nodeMap, idx, idx);
    CountLow(Set(sn.nodeMap, idx), idx, WORD);
    var sn' := SubNodes(InsertAt(sn.nodes, c, x), Set(sn.nodeMap, idx), sn.dataMap);
    assert Shape(sn');
    CompressedBounds(sn', idx);
    forall i | 0 <= i < WORD && i != idx
      ensures Slot(sn', i) == Slot(sn, i)
    {
      NodeShift(sn, idx, x, i);
    }
  }

  lemma NodeShift<K, V>(sn: SubNodes<K, V>, idx: nat, x: Node<K, V>, i: nat)
    requires Shape(sn) && idx < WORD && !sn.dataMap[idx] && !sn.nodeMap[idx] && i < WORD && i != idx
    requires Pop(sn.dataMap) + Count(sn.nodeMap, idx) <= |sn.nodes|
    requires Shape(SubNodes(InsertAt(sn.nodes, Pop(sn.dataMap) + Count(sn.nodeMap, idx), x),
                            Set(sn.nodeMap, idx), sn.dataMap))
    ensures var sn' := SubNodes(InsertAt(sn.nodes, Pop(sn.dataMap) + Count(sn.nodeMap, idx), x),
                                Set(sn.nodeMap, idx), sn.dataMap);
      Slot(sn', i) == Slot(sn, i)
  {
    hide CompressedIdx, And, LowMask, Count;
    var c := Pop(sn.dataMap) + Count(sn.nodeMap, idx);
    var sn' := SubNodes(InsertAt(sn.nodes, c, x), Set(sn.nodeMap, idx), sn.dataMap);
    CompressedBounds(sn', i);
    CompressedBounds(sn, i);
    CountSet(sn.nodeMap, idx, i);
    if i < idx {
      CountMonotone(sn.nodeMap, i, idx);
    } else {
      CountMonotone(sn.nodeMap, idx, i);
    }
  }

  lemma InsertBounds<K, V>(sn: SubNodes<K, V>, idx: nat)
    requires Shape(sn) && idx < WORD && !sn.dataMap[idx] && !sn.nodeMap[idx]
    ensures 0 <= CompressedIdx(sn.(dataMap := Set(sn.dataMap, idx)), idx) <= |sn.nodes|
    ensures CompressedIdx(sn.(dataMap := Set(sn.dataMap, idx)), idx) == Count(sn.dataMap, idx)
  {
    CountMonotone(sn.dataMap, idx, WORD);
    CountSet(sn.dataMap, idx, idx);
    CountLow(Set(sn.dataMap, idx), idx, WORD);
  }

  lemma BranchBounds<K, V>(sn: SubNodes<K, V>, idx: nat)
    requires Shape(sn) && idx < WORD && sn.dataMap[idx]
    ensures 0 <= CompressedIdx(sn, idx) < |sn.nodes|
    ensures 0 <= CompressedIdx(sn.(dataMap := Clear(sn.dataMap, idx), nodeMap := Set(sn.nodeMap, idx)), idx) < |sn.nodes|
  {
    EraseSlot(sn, idx);
    InsertNode(SubNodes(EraseAt(sn.nodes, CompressedIdx(sn, idx)), sn.nodeMap, Clear(sn.dataMap, idx)), idx,
               sn.nodes[0]);
  }
}
