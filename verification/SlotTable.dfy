/**
 The hash slot table of cluster.c: for each slot the node that serves it, and redundantly for
 each node the bitmap of its slots and their number. All three are updated in place, and agree.
 */
module SlotTable {
  import opened Options
  import opened ByteMasks

  const CLUSTER_SLOTS: nat := 16384

  type NodeId = int

  // ---------------------------------------------------------------- bitmaps

  type Bitmap = b: seq<bv8> | |b| == CLUSTER_SLOTS / 8 witness seq(CLUSTER_SLOTS / 8, _ => 0)

  predicate ByteBit(b: bv8, bit: nat)
    requires bit < 8
  {
    b & Mask(bit) != 0
  }

  /** bitmapTestBit */
  predicate TestBit(bitmap: Bitmap, pos: nat)
    requires pos < CLUSTER_SLOTS
  {
    ByteBit(bitmap[pos / 8], pos % 8)
  }

  /** bitmapSetBit */
  function SetBit(bitmap: Bitmap, pos: nat): (r: Bitmap)
    requires pos < CLUSTER_SLOTS
  {
    bitmap[pos / 8 := bitmap[pos / 8] | Mask(pos % 8)]
  }

  /** bitmapClearBit */
  function ClearBit(bitmap: Bitmap, pos: nat): (r: Bitmap)
    requires pos < CLUSTER_SLOTS
  {
    bitmap[pos / 8 := bitmap[pos / 8] & !Mask(pos % 8)]
  }

  /** Setting a bit sets that bit and no other. */
  lemma SetBitEffect(bitmap: Bitmap, pos: nat, p: nat)
    requires pos < CLUSTER_SLOTS && p < CLUSTER_SLOTS
    ensures TestBit(SetBit(bitmap, pos), p) == (p == pos || TestBit(bitmap, p))
  {
    hide ByteBit, Mask;
    SetByte(bitmap[pos / 8], pos % 8, p % 8);
    SamePlace(p, pos);
  }

  lemma ClearBitEffect(bitmap: Bitmap, pos: nat, p: nat)
    requires pos < CLUSTER_SLOTS && p < CLUSTER_SLOTS
    ensures TestBit(ClearBit(bitmap, pos), p) == (p != pos && TestBit(bitmap, p))
  {
    hide ByteBit, Mask;
    ClearByte(bitmap[pos / 8], pos % 8, p % 8);
    SamePlace(p, pos);
  }

  lemma SetByte(b: bv8, bit: nat, i: nat)
    requires bit < 8 && i < 8
    ensures ByteBit(b | Mask(bit), i) == (i == bit || ByteBit(b, i))
  {
    hide Mask;
    MasksApart(bit, i);
    MaskFacts(b, Mask(bit), Mask(i));
  }

  lemma ClearByte(b: bv8, bit: nat, i: nat)
    requires bit < 8 && i < 8
    ensures ByteBit(b & !Mask(bit), i) == (i != bit && ByteBit(b, i))
  {
    hide Mask;
    MasksApart(bit, i);
    MaskFacts(b, Mask(bit), Mask(i));
  }

  /** The bits set among the first `n`. */
  function Population(bitmap: Bitmap, n: nat): (c: nat)
    requires n <= CLUSTER_SLOTS
  {
    if n == 0 then 0 else Population(bitmap, n - 1) + (if TestBit(bitmap, n - 1) then 1 else 0)
  }

  lemma {:induction false} PopulationUpdate(bitmap: Bitmap, bitmap': Bitmap, pos: nat, n: nat)
    requires pos < CLUSTER_SLOTS && n <= CLUSTER_SLOTS
    requires forall p :: 0 <= p < CLUSTER_SLOTS && p != pos ==> TestBit(bitmap', p) == TestBit(bitmap, p)
    ensures Population(bitmap', n) == Population(bitmap, n) +
              (if pos < n then (if TestBit(bitmap', pos) then 1 else 0) - (if TestBit(bitmap, pos) then 1 else 0) else 0)
  {
    hide TestBit;
    if n > 0 {
      PopulationUpdate(bitmap, bitmap', pos, n - 1);
    }
  }

  // ---------------------------------------------------------------- the table

  /** A node as the table sees it. */
  datatype NodeSlots = NodeSlots(bitmap: Bitmap, numslots: int)

  ghost predicate NodeAgrees(slots: seq<Option<NodeId>>, n: NodeId, node: NodeSlots)
    requires |slots| == CLUSTER_SLOTS
  {
    && (forall j :: 0 <= j < CLUSTER_SLOTS ==> (TestBit(node.bitmap, j) <==> slots[j] == Some(n)))
    && node.numslots == Population(node.bitmap, CLUSTER_SLOTS)
  }

  ghost predicate Agrees(slots: seq<Option<NodeId>>, nodes: map<NodeId, NodeSlots>) {
    && |slots| == CLUSTER_SLOTS
    && (forall j :: 0 <= j < CLUSTER_SLOTS && slots[j].Some? ==> slots[j].value in nodes)
    && (forall n :: n in nodes ==> NodeAgrees(slots, n, nodes[n]))
  }

  /** The bit is set and counted together with the change of owner. */
  lemma AddAgrees(slots: seq<Option<NodeId>>, nodes: map<NodeId, NodeSlots>, n: NodeId, j: nat)
    requires Agrees(slots, nodes) && n in nodes && j < CLUSTER_SLOTS && slots[j] == None
    ensures !TestBit(nodes[n].bitmap, j)
    ensures Agrees(slots[j := Some(n)], nodes[n := NodeSlots(SetBit(nodes[n].bitmap, j), nodes[n].numslots + 1)])
  {
    hide TestBit, Population, SetBit;
    var b, b' := nodes[n].bitmap, SetBit(nodes[n].bitmap, j);
    forall p | 0 <= p < CLUSTER_SLOTS
      ensures TestBit(b', p) == (p == j || TestBit(b, p))
    {
      SetBitEffect(b, j, p);
    }
    PopulationUpdate(b, b', j, CLUSTER_SLOTS);
    assert NodeAgrees(slots, n, nodes[n]);
    forall m | m in nodes && m != n
      ensures NodeAgrees(slots[j := Some(n)], m, nodes[m])
    {
      assert NodeAgrees(slots, m, nodes[m]);
    }
  }

  lemma DelAgrees(slots: seq<Option<NodeId>>, nodes: map<NodeId, NodeSlots>, n: NodeId, j: nat)
    requires Agrees(slots, nodes) && j < CLUSTER_SLOTS && slots[j] == Some(n)
    ensures n in nodes && TestBit(nodes[n].bitmap, j)
    ensures Agrees(slots[j := None], nodes[n := NodeSlots(ClearBit(nodes[n].bitmap, j), nodes[n].numslots - 1)])
  {
    hide TestBit, Population, ClearBit;
    var b, b' := nodes[n].bitmap, ClearBit(nodes[n].bitmap, j);
    forall p | 0 <= p < CLUSTER_SLOTS
      ensures TestBit(b', p) == (p != j && TestBit(b, p))
    {
      ClearBitEffect(b, j, p);
    }
    PopulationUpdate(b, b', j, CLUSTER_SLOTS);
    assert NodeAgrees(slots, n, nodes[n]);
    forall m | m in nodes && m != n
      ensures NodeAgrees(slots[j := None], m, nodes[m])
    {
      assert NodeAgrees(slots, m, nodes[m]);
    }
  }

  /** The owner after a claim by `sender` at `epoch` for the slots of `claim`: clusterUpdateSlotsConfigWith
      for one slot. */
  function Rebound(owner: Option<NodeId>, epochs: map<NodeId, nat>, importing: bool, sender: NodeId, epoch: nat, claimed: bool): (r: Option<NodeId>)
    requires owner.Some? ==> owner.value in epochs
  {
    if claimed && owner != Some(sender) && !importing && (owner == None || epochs[owner.value] < epoch) then Some(sender)
    else owner
  }

  /** Every entry names a known node. */
  ghost predicate Refers(x: seq<Option<NodeId>>, ids: set<NodeId>) {
    |x| == CLUSTER_SLOTS && forall j :: 0 <= j < |x| && x[j].Some? ==> x[j].value in ids
  }

  /** The entries among the first `k` that name `n` are gone. */
  function Cleared(x: seq<Option<NodeId>>, n: NodeId, k: nat): (r: seq<Option<NodeId>>) {
    seq(|x|, j requires 0 <= j < |x| => if j < k && x[j] == Some(n) then None else x[j])
  }

  class Table {
    /** server.cluster->slots */
    var slots: seq<Option<NodeId>>
    var nodes: map<NodeId, NodeSlots>
    /** importing_slots_from and migrating_slots_to */
    var importing: seq<Option<NodeId>>
    var migrating: seq<Option<NodeId>>

    ghost predicate Valid()
      reads this
    {
      Agrees(slots, nodes) && Refers(importing, nodes.Keys) && Refers(migrating, nodes.Keys)
    }

    /** A table without nodes. */
    constructor ()
      ensures Valid() && nodes == map[]
      ensures forall j :: 0 <= j < CLUSTER_SLOTS ==> slots[j] == importing[j] == migrating[j] == None
    {
      slots := seq(CLUSTER_SLOTS, _ => None);
      importing := seq(CLUSTER_SLOTS, _ => None);
      migrating := seq(CLUSTER_SLOTS, _ => None);
      nodes := map[];
    }

    /** clusterAddNode of a node from createClusterNode, which serves no slots. */
    method AddNode(n: NodeId) returns (ok: bool)
      requires Valid()
      modifies this`nodes
      ensures Valid() && (ok <==> n !in old(nodes))
      ensures nodes.Keys == old(nodes.Keys) + {n}
      ensures forall m :: m in old(nodes) ==> nodes[m] == old(nodes)[m]
      ensures ok ==> nodes[n].numslots == 0
    {
      hide Agrees, Refers;
      if n in nodes {
        return false;
      }
      var empty: Bitmap := seq(CLUSTER_SLOTS / 8, _ => 0);
      NewAgrees(slots, nodes, n, empty);
      RefersMore(importing, nodes.Keys, nodes.Keys + {n});
      RefersMore(migrating, nodes.Keys, nodes.Keys + {n});
      nodes := nodes[n := NodeSlots(empty, 0)];
      assert nodes.Keys == old(nodes.Keys) + {n};
      return true;
    }

    /** clusterDelNode: the slots of the node become free, slots that are moved from or to it are no longer
        moved, and the node is gone; nothing refers to it any more. */
    method DelNode(n: NodeId)
      requires Valid() && n in nodes
      modifies this
      ensures Valid() && nodes.Keys == old(nodes.Keys) - {n}
      ensures |slots| == |old(slots)| && |importing| == |old(importing)| && |migrating| == |old(migrating)|
      ensures forall j :: 0 <= j < |slots| ==> slots[j] == if old(slots)[j] == Some(n) then None else old(slots)[j]
      ensures forall j :: 0 <= j < |importing| ==>
        importing[j] == if old(importing)[j] == Some(n) then None else old(importing)[j]
      ensures forall j :: 0 <= j < |migrating| ==>
        migrating[j] == if old(migrating)[j] == Some(n) then None else old(migrating)[j]
    {
      hide Agrees, Refers, Cleared;
      SlotsLength(slots, nodes);
      RefersLength(importing, nodes.Keys);
      RefersLength(migrating, nodes.Keys);
      ClearedNone(slots, n);
      ClearedNone(importing, n);
      ClearedNone(migrating, n);
      var j := 0;
      while j < CLUSTER_SLOTS
        invariant j <= CLUSTER_SLOTS && Valid() && nodes.Keys == old(nodes.Keys)
        invariant |slots| == |importing| == |migrating| == CLUSTER_SLOTS
        invariant slots == Cleared(old(slots), n, j)
        invariant importing == Cleared(old(importing), n, j) && migrating == Cleared(old(migrating), n, j)
      {
        ClearedStep(old(slots), n, j);
        ClearedStep(old(importing), n, j);
        ClearedStep(old(migrating), n, j);
        if importing[j] == Some(n) {
          RefersClear(importing, nodes.Keys, j);
          importing := importing[j := None];
        }
        if migrating[j] == Some(n) {
          RefersClear(migrating, nodes.Keys, j);
          migrating := migrating[j := None];
        }
        if slots[j] == Some(n) {
          var _ := DelSlot(j);
        }
        j := j + 1;
      }
      ClearedAll(old(slots), n);
      ClearedAll(old(importing), n);
      ClearedAll(old(migrating), n);
      DropAgrees(slots, nodes, n);
      RefersLess(importing, nodes.Keys, n);
      RefersLess(migrating, nodes.Keys, n);
      nodes := nodes - {n};
      assert nodes.Keys == old(nodes.Keys) - {n};
    }

    /** CLUSTER SETSLOT IMPORTING: refused for a slot this node owns, and for an unknown node. */
    method SetImporting(slot: nat, n: NodeId, myself: NodeId) returns (ok: bool)
      requires Valid() && slot < CLUSTER_SLOTS
      modifies this`importing
      ensures Valid() && |slots| == |old(importing)| == CLUSTER_SLOTS
      ensures ok <==> slots[slot] != Some(myself) && n in nodes
      ensures importing == if ok then old(importing)[slot := Some(n)] else old(importing)
    {
      if slots[slot] == Some(myself) { return false; }
      if n !in nodes { return false; }
      importing := importing[slot := Some(n)];
      return true;
    }

    /** CLUSTER SETSLOT MIGRATING: refused for a slot this node does not own, and for an unknown node. */
    method SetMigrating(slot: nat, n: NodeId, myself: NodeId) returns (ok: bool)
      requires Valid() && slot < CLUSTER_SLOTS
      modifies this`migrating
      ensures Valid() && |slots| == |old(migrating)| == CLUSTER_SLOTS
      ensures ok <==> slots[slot] == Some(myself) && n in nodes
      ensures migrating == if ok then old(migrating)[slot := Some(n)] else old(migrating)
    {
      if slots[slot] != Some(myself) { return false; }
      if n !in nodes { return false; }
      migrating := migrating[slot := Some(n)];
      return true;
    }

    /** clusterNodeSetSlotBit: the old value of the bit. */
    method NodeSetSlotBit(n: NodeId, slot: nat) returns (was: bool)
      requires n in nodes && slot < CLUSTER_SLOTS
      modifies this`nodes
      ensures was == TestBit(old(nodes)[n].bitmap, slot)
      ensures nodes == old(nodes)[n := NodeSlots(SetBit(old(nodes)[n].bitmap, slot), old(nodes)[n].numslots + if was then 0 else 1)]
    {
      was := TestBit(nodes[n].bitmap, slot);
      nodes := nodes[n := nodes[n].(bitmap := SetBit(nodes[n].bitmap, slot))];
      if !was {
        nodes := nodes[n := nodes[n].(numslots := nodes[n].numslots + 1)];
      }
    }

    /** clusterNodeClearSlotBit */
    method NodeClearSlotBit(n: NodeId, slot: nat) returns (was: bool)
      requires n in nodes && slot < CLUSTER_SLOTS
      modifies this`nodes
      ensures was == TestBit(old(nodes)[n].bitmap, slot)
      ensures nodes == old(nodes)[n := NodeSlots(ClearBit(old(nodes)[n].bitmap, slot), old(nodes)[n].numslots - if was then 1 else 0)]
    {
      was := TestBit(nodes[n].bitmap, slot);
      nodes := nodes[n := nodes[n].(bitmap := ClearBit(nodes[n].bitmap, slot))];
      if was {
        nodes := nodes[n := nodes[n].(numslots := nodes[n].numslots - 1)];
      }
    }

    /** clusterAddSlot */
    method AddSlot(n: NodeId, slot: nat) returns (ok: bool)
      requires Valid() && n in nodes && slot < CLUSTER_SLOTS
      modifies this`slots, this`nodes
      ensures Valid() && nodes.Keys == old(nodes.Keys)
      ensures ok <==> old(slots)[slot] == None
      ensures slots == if ok then old(slots)[slot := Some(n)] else old(slots)
    {
      hide TestBit, SetBit, Agrees;
      SlotsLength(slots, nodes);
      if slots[slot].Some? {
        return false;
      }
      AddAgrees(slots, nodes, n, slot);
      var _ := NodeSetSlotBit(n, slot);
      slots := slots[slot := Some(n)];
      return true;
    }

    /** clusterDelSlot: the assertion in it holds. */
    method DelSlot(slot: nat) returns (ok: bool)
      requires Valid() && slot < CLUSTER_SLOTS
      modifies this`slots, this`nodes
      ensures Valid() && nodes.Keys == old(nodes.Keys)
      ensures ok <==> old(slots)[slot].Some?
      ensures slots == old(slots)[slot := None]
    {
      hide TestBit, ClearBit, Agrees;
      SlotsLength(slots, nodes);
      if slots[slot] == None {
        assert slots[slot := None] == slots;
        return false;
      }
      var n := slots[slot].value;
      DelAgrees(slots, nodes, n, slot);
      var was := NodeClearSlotBit(n, slot);
      assert was;
      slots := slots[slot := None];
      return true;
    }

    /** clusterDelNodeSlots: how many were deleted. */
    method DelNodeSlots(n: NodeId) returns (deleted: nat)
      requires Valid() && n in nodes
      modifies this`slots, this`nodes
      ensures Valid() && nodes.Keys == old(nodes.Keys)
      ensures |slots| == |old(slots)| == CLUSTER_SLOTS
      ensures forall j :: 0 <= j < CLUSTER_SLOTS ==> slots[j] == if old(slots)[j] == Some(n) then None else old(slots)[j]
      ensures deleted == old(nodes)[n].numslots && nodes[n].numslots == 0
    {
      hide TestBit, Agrees, Population;
      SlotsLength(slots, nodes);
      deleted := 0;
      var j := 0;
      ghost var b := nodes[n].bitmap;
      PopulationZero(b);
      while j < CLUSTER_SLOTS
        invariant j <= CLUSTER_SLOTS && Valid() && nodes.Keys == old(nodes.Keys) && |slots| == CLUSTER_SLOTS
        invariant forall i :: 0 <= i < CLUSTER_SLOTS ==>
                    slots[i] == if i < j && old(slots)[i] == Some(n) then None else old(slots)[i]
        invariant deleted == Population(b, j)
      {
        BitIsOwner(slots, nodes, n, j);
        BitIsOwner(old(slots), old(nodes), n, j);
        PopulationStep(b, j);
        if TestBit(nodes[n].bitmap, j) {
          var _ := DelSlot(j);
          deleted := deleted + 1;
        }
        j := j + 1;
      }
      CountIsPopulation(old(slots), old(nodes), n);
      NothingLeft(slots, nodes, n);
    }

    /** The loop of clusterFailoverReplaceYourMaster: claim all the slots of the old master. */
    method ClaimSlots(old_: NodeId, me: NodeId)
      requires Valid() && old_ in nodes && me in nodes && old_ != me
      modifies this`slots, this`nodes
      ensures Valid() && nodes.Keys == old(nodes.Keys)
      ensures |slots| == |old(slots)| == CLUSTER_SLOTS
      ensures forall j :: 0 <= j < CLUSTER_SLOTS ==> slots[j] == if old(slots)[j] == Some(old_) then Some(me) else old(slots)[j]
    {
      hide TestBit, Agrees;
      SlotsLength(slots, nodes);
      var j := 0;
      while j < CLUSTER_SLOTS
        invariant j <= CLUSTER_SLOTS && Valid() && nodes.Keys == old(nodes.Keys) && |slots| == CLUSTER_SLOTS
        invariant forall i :: 0 <= i < CLUSTER_SLOTS ==>
                    slots[i] == if i < j && old(slots)[i] == Some(old_) then Some(me) else old(slots)[i]
      {
        BitIsOwner(slots, nodes, old_, j);
        if TestBit(nodes[old_].bitmap, j) {
          var _ := DelSlot(j);
          var _ := AddSlot(me, j);
        }
        j := j + 1;
      }
    }

    /** The loop of clusterUpdateSlotsConfigWith. */
    method RebindSlots(sender: NodeId, epoch: nat, claim: Bitmap, epochs: map<NodeId, nat>,
                       myself: NodeId, curmaster: NodeId, withKeys: set<nat>)
      returns (newmaster: bool, dirty: seq<nat>)
      requires Valid() && sender in nodes && epochs.Keys == nodes.Keys
      modifies this`slots, this`nodes
      ensures Valid() && nodes.Keys == old(nodes.Keys)
      ensures |slots| == |old(slots)| == |importing| == CLUSTER_SLOTS
      ensures forall j :: 0 <= j < CLUSTER_SLOTS ==>
                && (old(slots)[j].Some? ==> old(slots)[j].value in epochs)
                && slots[j] == Rebound(old(slots)[j], epochs, importing[j].Some?, sender, epoch, TestBit(claim, j))
      ensures newmaster <==> exists j :: 0 <= j < CLUSTER_SLOTS && old(slots)[j] == Some(curmaster) && slots[j] != old(slots)[j]
      ensures forall j :: j in dirty <==> 0 <= j < CLUSTER_SLOTS && old(slots)[j] == Some(myself) && slots[j] != old(slots)[j] && j in withKeys
    {
      hide TestBit, Agrees, Refers;
      SlotsLength(slots, nodes);
      OwnersKnown(slots, nodes);
      RefersLength(importing, nodes.Keys);
      newmaster, dirty := false, [];
      ghost var was := slots;
      var j := 0;
      while j < CLUSTER_SLOTS
        invariant j <= CLUSTER_SLOTS && Valid() && nodes.Keys == old(nodes.Keys) && |slots| == CLUSTER_SLOTS
        invariant forall i :: 0 <= i < CLUSTER_SLOTS ==>
                    slots[i] == if i < j then Rebound(was[i], epochs, importing[i].Some?, sender, epoch, TestBit(claim, i)) else was[i]
        invariant newmaster <==> exists i :: 0 <= i < j && was[i] == Some(curmaster) && slots[i] != was[i]
        invariant forall i :: i in dirty <==> 0 <= i < j && was[i] == Some(myself) && slots[i] != was[i] && i in withKeys
      {
        if TestBit(claim, j) && slots[j] != Some(sender) && importing[j] == None
           && (slots[j] == None || epochs[slots[j].value] < epoch) {
          if slots[j] == Some(myself) && j in withKeys {
            dirty := dirty + [j];
          }
          if slots[j] == Some(curmaster) {
            newmaster := true;
          }
          var _ := DelSlot(j);
          var _ := AddSlot(sender, j);
        }
        j := j + 1;
      }
    }

    /** clusterUpdateSlotsConfigWith: a claimed slot goes to the sender if it is free or its owner is known at an
        earlier epoch, unless it is being imported. An update about this node itself is discarded. */
    method UpdateSlotsConfigWith(sender: NodeId, epoch: nat, claim: Bitmap, epochs: map<NodeId, nat>,
                                 myself: NodeId, curmaster: NodeId, withKeys: set<nat>)
      returns (newmaster: bool, dirty: seq<nat>)
      requires Valid() && sender in nodes && epochs.Keys == nodes.Keys
      modifies this`slots, this`nodes
      ensures Valid() && nodes.Keys == old(nodes.Keys)
      ensures |slots| == |old(slots)| == |importing| == CLUSTER_SLOTS
      ensures forall j :: 0 <= j < CLUSTER_SLOTS && old(slots)[j].Some? ==> old(slots)[j].value in epochs
      ensures forall j :: 0 <= j < CLUSTER_SLOTS ==>
        slots[j] == if sender != myself && TestBit(claim, j) && importing[j] == None
                       && (old(slots)[j].Some? ==> epochs[old(slots)[j].value] < epoch)
                    then Some(sender) else old(slots)[j]
      ensures sender != myself ==> forall j :: 0 <= j < CLUSTER_SLOTS ==>
        slots[j] == Rebound(old(slots)[j], epochs, importing[j].Some?, sender, epoch, TestBit(claim, j))
      ensures newmaster <==> exists j :: 0 <= j < CLUSTER_SLOTS && old(slots)[j] == Some(curmaster) && slots[j] != old(slots)[j]
      ensures forall j :: j in dirty <==> 0 <= j < CLUSTER_SLOTS && old(slots)[j] == Some(myself) && slots[j] != old(slots)[j] && j in withKeys
    {
      hide TestBit, Agrees, Refers;
      SlotsLength(slots, nodes);
      OwnersKnown(slots, nodes);
      RefersLength(importing, nodes.Keys);
      if sender == myself {
        return false, [];
      }
      newmaster, dirty := RebindSlots(sender, epoch, claim, epochs, myself, curmaster, withKeys);
    }
  }

  // ---------------------------------------------------------------- nodes that come and go

  lemma RefersLength(x: seq<Option<NodeId>>, ids: set<NodeId>)
    requires Refers(x, ids)
    ensures |x| == CLUSTER_SLOTS
  {
  }

  lemma RefersMore(x: seq<Option<NodeId>>, ids: set<NodeId>, more: set<NodeId>)
    requires Refers(x, ids) && ids <= more
    ensures Refers(x, more)
  {
  }

  lemma RefersLess(x: seq<Option<NodeId>>, ids: set<NodeId>, n: NodeId)
    requires Refers(x, ids) && forall j :: 0 <= j < |x| ==> x[j] != Some(n)
    ensures Refers(x, ids - {n})
  {
  }

  lemma RefersClear(x: seq<Option<NodeId>>, ids: set<NodeId>, j: nat)
    requires Refers(x, ids) && j < |x|
    ensures Refers(x[j := None], ids)
  {
  }

  lemma ClearedNone(x: seq<Option<NodeId>>, n: NodeId)
    ensures Cleared(x, n, 0) == x
  {
  }

  lemma ClearedStep(x: seq<Option<NodeId>>, n: NodeId, k: nat)
    requires k < |x|
    ensures |Cleared(x, n, k)| == |x| && Cleared(x, n, k)[k] == x[k]
    ensures Cleared(x, n, k + 1) == if x[k] == Some(n) then Cleared(x, n, k)[k := None] else Cleared(x, n, k)
  {
  }

  lemma ClearedAll(x: seq<Option<NodeId>>, n: NodeId)
    ensures |Cleared(x, n, |x|)| == |x| && forall j :: 0 <= j < |x| ==> Cleared(x, n, |x|)[j] != Some(n)
    ensures forall j :: 0 <= j < |x| ==> Cleared(x, n, |x|)[j] == if x[j] == Some(n) then None else x[j]
  {
  }

  lemma NewAgrees(slots: seq<Option<NodeId>>, nodes: map<NodeId, NodeSlots>, n: NodeId, empty: Bitmap)
    requires Agrees(slots, nodes) && n !in nodes && forall i :: 0 <= i < |empty| ==> empty[i] == 0
    ensures Agrees(slots, nodes[n := NodeSlots(empty, 0)])
  {
    hide TestBit, Population;
    EmptyBitmap(empty);
    assert NodeAgrees(slots, n, NodeSlots(empty, 0));
  }

  lemma DropAgrees(slots: seq<Option<NodeId>>, nodes: map<NodeId, NodeSlots>, n: NodeId)
    requires Agrees(slots, nodes) && forall j :: 0 <= j < |slots| ==> slots[j] != Some(n)
    ensures Agrees(slots, nodes - {n})
  {
    hide NodeAgrees;
  }

  // ---------------------------------------------------------------- facts about agreement

  lemma SlotsLength(slots: seq<Option<NodeId>>, nodes: map<NodeId, NodeSlots>)
    requires Agrees(slots, nodes)
    ensures |slots| == CLUSTER_SLOTS
  {
  }

  lemma OwnersKnown(slots: seq<Option<NodeId>>, nodes: map<NodeId, NodeSlots>)
    requires Agrees(slots, nodes)
    ensures forall j :: 0 <= j < CLUSTER_SLOTS && slots[j].Some? ==> slots[j].value in nodes
  {
  }

  lemma BitIsOwner(slots: seq<Option<NodeId>>, nodes: map<NodeId, NodeSlots>, n: NodeId, j: nat)
    requires Agrees(slots, nodes) && n in nodes && j < CLUSTER_SLOTS
    ensures TestBit(nodes[n].bitmap, j) <==> slots[j] == Some(n)
  {
    assert NodeAgrees(slots, n, nodes[n]);
  }

  lemma CountIsPopulation(slots: seq<Option<NodeId>>, nodes: map<NodeId, NodeSlots>, n: NodeId)
    requires Agrees(slots, nodes) && n in nodes
    ensures nodes[n].numslots == Population(nodes[n].bitmap, CLUSTER_SLOTS)
  {
    assert NodeAgrees(slots, n, nodes[n]);
  }

  lemma PopulationZero(b: Bitmap)
    ensures Population(b, 0) == 0
  {
  }

  lemma PopulationStep(b: Bitmap, j: nat)
    requires j < CLUSTER_SLOTS
    ensures Population(b, j + 1) == Population(b, j) + if TestBit(b, j) then 1 else 0
  {
  }

  lemma {:induction false} NoBits(b: Bitmap, n: nat)
    requires n <= CLUSTER_SLOTS && forall j :: 0 <= j < n ==> !TestBit(b, j)
    ensures Population(b, n) == 0
  {
    if n > 0 {
      NoBits(b, n - 1);
    }
  }

  lemma EmptyBitmap(b: Bitmap)
    requires forall i :: 0 <= i < |b| ==> b[i] == 0
    ensures (forall j :: 0 <= j < CLUSTER_SLOTS ==> !TestBit(b, j)) && Population(b, CLUSTER_SLOTS) == 0
  {
    forall j | 0 <= j < CLUSTER_SLOTS
      ensures !TestBit(b, j)
    {
      ZeroByte(j % 8);
    }
    NoBits(b, CLUSTER_SLOTS);
  }

  lemma ZeroByte(bit: nat)
    requires bit < 8
    ensures !ByteBit(0, bit)
  {
    hide Mask;
  }

  lemma NothingLeft(slots: seq<Option<NodeId>>, nodes: map<NodeId, NodeSlots>, n: NodeId)
    requires Agrees(slots, nodes) && n in nodes
    requires forall j :: 0 <= j < |slots| ==> slots[j] != Some(n)
    ensures nodes[n].numslots == 0
  {
    assert NodeAgrees(slots, n, nodes[n]);
    NoBits(nodes[n].bitmap, CLUSTER_SLOTS);
  }

  // ---------------------------------------------------------------- the counts add up

  /** The slots among the first `k` that have an owner. */
  function Assigned(slots: seq<Option<NodeId>>, k: nat): (c: nat)
    requires k <= |slots|
  {
    if k == 0 then 0 else Assigned(slots, k - 1) + if slots[k - 1].Some? then 1 else 0
  }

  /** Those of `n`. */
  function Owned(slots: seq<Option<NodeId>>, n: NodeId, k: nat): (c: nat)
    requires k <= |slots|
  {
    if k == 0 then 0 else Owned(slots, n, k - 1) + if slots[k - 1] == Some(n) then 1 else 0
  }

  ghost function Pick<T>(ns: set<T>): (n: T)
    requires ns != {}
    ensures n in ns
  {
    var m :| m in ns;
    m
  }

  ghost function SumOwned(slots: seq<Option<NodeId>>, ns: set<NodeId>, k: nat): (c: nat)
    requires k <= |slots|
  {
    if ns == {} then 0
    else
      var n := Pick(ns);
      Owned(slots, n, k) + SumOwned(slots, ns - {n}, k)
  }

  ghost function SumCounts(nodes: map<NodeId, NodeSlots>, ns: set<NodeId>): (c: int)
    requires ns <= nodes.Keys
  {
    if ns == {} then 0
    else
      var n := Pick(ns);
      nodes[n].numslots + SumCounts(nodes, ns - {n})
  }

  lemma {:induction false} SumStep(slots: seq<Option<NodeId>>, ns: set<NodeId>, k: nat)
    requires k < |slots|
    ensures SumOwned(slots, ns, k + 1) == SumOwned(slots, ns, k) + if slots[k].Some? && slots[k].value in ns then 1 else 0
  {
    if ns != {} {
      var n := Pick(ns);
      SumPick(slots, ns, k + 1, n);
      SumStep(slots, ns - {n}, k);
    }
  }

  /** The sum does not depend on which node is taken out first. */
  lemma {:induction false} SumPick(slots: seq<Option<NodeId>>, ns: set<NodeId>, k: nat, n: NodeId)
    requires k <= |slots| && n in ns
    ensures SumOwned(slots, ns, k) == Owned(slots, n, k) + SumOwned(slots, ns - {n}, k)
  {
    var m := Pick(ns);
    if m != n {
      SumPick(slots, ns - {m}, k, n);
      SumPick(slots, ns - {n}, k, m);
      assert ns - {m} - {n} == ns - {n} - {m};
    }
  }

  lemma {:induction false} SumIsAssigned(slots: seq<Option<NodeId>>, ns: set<NodeId>, k: nat)
    requires k <= |slots|
    requires forall j :: 0 <= j < k && slots[j].Some? ==> slots[j].value in ns
    ensures SumOwned(slots, ns, k) == Assigned(slots, k)
  {
    if k == 0 {
      SumNone(slots, ns);
    } else {
      SumIsAssigned(slots, ns, k - 1);
      SumStep(slots, ns, k - 1);
    }
  }

  lemma {:induction false} SumNone(slots: seq<Option<NodeId>>, ns: set<NodeId>)
    ensures SumOwned(slots, ns, 0) == 0
  {
    if ns != {} {
      var n := Pick(ns);
      SumNone(slots, ns - {n});
    }
  }

  lemma {:induction false} OwnedIsPopulation(slots: seq<Option<NodeId>>, n: NodeId, b: Bitmap, k: nat)
    requires k <= |slots| == CLUSTER_SLOTS
    requires forall j :: 0 <= j < CLUSTER_SLOTS ==> (TestBit(b, j) <==> slots[j] == Some(n))
    ensures Owned(slots, n, k) == Population(b, k)
  {
    hide TestBit;
    if k > 0 {
      OwnedIsPopulation(slots, n, b, k - 1);
    }
  }

  lemma {:induction false} CountsAreOwned(slots: seq<Option<NodeId>>, nodes: map<NodeId, NodeSlots>, ns: set<NodeId>)
    requires Agrees(slots, nodes) && ns <= nodes.Keys
    ensures SumCounts(nodes, ns) == SumOwned(slots, ns, CLUSTER_SLOTS)
  {
    hide TestBit, Population, Owned;
    if ns != {} {
      var n := Pick(ns);
      assert NodeAgrees(slots, n, nodes[n]);
      OwnedIsPopulation(slots, n, nodes[n].bitmap, CLUSTER_SLOTS);
      SumPick(slots, ns, CLUSTER_SLOTS, n);
      CountsAreOwned(slots, nodes, ns - {n});
    }
  }

  /** The numbers of slots of all nodes add up to the number of assigned slots. */
  lemma CountsAddUp(slots: seq<Option<NodeId>>, nodes: map<NodeId, NodeSlots>)
    requires Agrees(slots, nodes)
    ensures SumCounts(nodes, nodes.Keys) == Assigned(slots, CLUSTER_SLOTS)
  {
    hide NodeAgrees;
    CountsAreOwned(slots, nodes, nodes.Keys);
    SumIsAssigned(slots, nodes.Keys, CLUSTER_SLOTS);
  }
}
