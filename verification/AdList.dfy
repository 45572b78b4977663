/** The generic doubly linked list (`adlist.c`): head, tail and length over nodes linked both ways,
    refining the sequence of its nodes.

    The proofs hide the definitions: each method first says where every node's pointers lead, and a
    lemma turns that into the links of the new sequence. */
module AdList {
  class ListNode<T> {
    var prev: ListNode?<T>
    var next: ListNode?<T>
    const value: T

    constructor (value: T)
      ensures this.value == value
    {
      this.value := value;
    }
  }

  // ---------------------------------------------------------------- sequences of nodes

  /** Node `i` of the sequence, or null outside it. */
  ghost function NodeAt<T>(nodes: seq<ListNode<T>>, i: int): ListNode?<T> {
    if 0 <= i < |nodes| then nodes[i] else null
  }

  ghost predicate Distinct<T>(nodes: seq<ListNode<T>>) {
    forall i, j :: 0 <= i < j < |nodes| ==> nodes[i] != nodes[j]
  }

  ghost predicate LinkedAt<T>(nodes: seq<ListNode<T>>, i: int)
    requires 0 <= i < |nodes|
    reads nodes
  {
    nodes[i].prev == NodeAt(nodes, i - 1) && nodes[i].next == NodeAt(nodes, i + 1)
  }

  /** Every node points to its neighbours. */
  ghost predicate Linked<T>(nodes: seq<ListNode<T>>)
    reads nodes
  {
    forall i :: 0 <= i < |nodes| ==> LinkedAt(nodes, i)
  }

  lemma NodeAtIs<T>(ns: seq<ListNode<T>>, i: int)
    ensures NodeAt(ns, i) == null <==> !(0 <= i < |ns|)
    ensures 0 <= i < |ns| ==> NodeAt(ns, i) == ns[i]
  {
  }

  lemma Apart<T>(ns: seq<ListNode<T>>, i: int, j: int)
    requires Distinct(ns) && 0 <= i < |ns| && 0 <= j < |ns| && i != j
    ensures ns[i] != ns[j]
  {
  }

  // ---------------------------------------------------------------- insertion

  ghost function Inserted<T>(ns: seq<ListNode<T>>, at: nat, node: ListNode<T>): seq<ListNode<T>>
    requires at <= |ns|
  {
    ns[..at] + [node] + ns[at..]
  }

  lemma InsertedIs<T>(ns: seq<ListNode<T>>, at: nat, node: ListNode<T>)
    requires at <= |ns|
    ensures Inserted(ns, at, node) == ns[..at] + [node] + ns[at..]
  {
  }

  lemma InsertedEnds<T>(ns: seq<ListNode<T>>, node: ListNode<T>)
    ensures Inserted(ns, 0, node) == [node] + ns && Inserted(ns, |ns|, node) == ns + [node]
  {
  }

  lemma InsertedAt<T>(ns: seq<ListNode<T>>, at: nat, node: ListNode<T>, i: int)
    requires at <= |ns|
    ensures |Inserted(ns, at, node)| == |ns| + 1
    ensures NodeAt(Inserted(ns, at, node), i) ==
      if i == at then node else NodeAt(ns, if i < at then i else i - 1)
  {
  }

  lemma InsertedDistinct<T>(ns: seq<ListNode<T>>, at: nat, node: ListNode<T>)
    requires at <= |ns| && Distinct(ns) && node !in ns
    ensures Distinct(Inserted(ns, at, node))
  {
  }

  lemma RelinkInserted<T>(ns: seq<ListNode<T>>, at: nat, node: ListNode<T>)
    requires at <= |ns| && node.prev == NodeAt(ns, at - 1) && node.next == NodeAt(ns, at)
    requires forall j :: 0 <= j < |ns| ==>
      && ns[j].prev == (if j == at then node else NodeAt(ns, j - 1))
      && ns[j].next == (if j == at - 1 then node else NodeAt(ns, j + 1))
    ensures Linked(Inserted(ns, at, node))
  {
    hide NodeAt, Inserted;
    var t := Inserted(ns, at, node);
    InsertedAt(ns, at, node, 0);
    forall i | 0 <= i < |t| ensures LinkedAt(t, i) {
      InsertedAt(ns, at, node, i - 1);
      InsertedAt(ns, at, node, i);
      InsertedAt(ns, at, node, i + 1);
      NodeAtIs(t, i);
      if i != at { NodeAtIs(ns, if i < at then i else i - 1); }
    }
  }

  // ---------------------------------------------------------------- removal

  ghost function Without<T>(ns: seq<ListNode<T>>, k: nat): seq<ListNode<T>>
    requires k < |ns|
  {
    ns[..k] + ns[k + 1..]
  }

  lemma WithoutIs<T>(ns: seq<ListNode<T>>, k: nat)
    requires k < |ns|
    ensures Without(ns, k) == ns[..k] + ns[k + 1..]
  {
  }

  lemma WithoutAt<T>(ns: seq<ListNode<T>>, k: nat, i: int)
    requires k < |ns|
    ensures |Without(ns, k)| == |ns| - 1
    ensures NodeAt(Without(ns, k), i) == NodeAt(ns, if i < k then i else i + 1)
  {
  }

  lemma WithoutDistinct<T>(ns: seq<ListNode<T>>, k: nat)
    requires k < |ns| && Distinct(ns)
    ensures Distinct(Without(ns, k))
  {
  }

  lemma RelinkWithout<T>(ns: seq<ListNode<T>>, k: nat)
    requires k < |ns|
    requires forall j :: 0 <= j < |ns| && j != k ==>
      && ns[j].prev == NodeAt(ns, if j == k + 1 then k - 1 else j - 1)
      && ns[j].next == NodeAt(ns, if j == k - 1 then k + 1 else j + 1)
    ensures Linked(Without(ns, k))
  {
    hide NodeAt, Without;
    var t := Without(ns, k);
    WithoutAt(ns, k, 0);
    forall i | 0 <= i < |t| ensures LinkedAt(t, i) {
      WithoutAt(ns, k, i - 1);
      WithoutAt(ns, k, i);
      WithoutAt(ns, k, i + 1);
      NodeAtIs(t, i);
      NodeAtIs(ns, if i < k then i else i + 1);
    }
  }

  // ---------------------------------------------------------------- rotation and concatenation

  ghost function Rotated<T>(ns: seq<ListNode<T>>): seq<ListNode<T>> {
    if |ns| <= 1 then ns else [ns[|ns| - 1]] + ns[..|ns| - 1]
  }

  lemma RotatedIs<T>(ns: seq<ListNode<T>>)
    ensures |Rotated(ns)| == |ns|
    ensures ns != [] ==> Rotated(ns) == [ns[|ns| - 1]] + ns[..|ns| - 1]
  {
  }

  lemma RotatedAt<T>(ns: seq<ListNode<T>>, i: int)
    requires |ns| > 1
    ensures |Rotated(ns)| == |ns|
    ensures NodeAt(Rotated(ns), i) ==
      if i == 0 then ns[|ns| - 1] else if i < |ns| then NodeAt(ns, i - 1) else null
  {
  }

  lemma RotatedDistinct<T>(ns: seq<ListNode<T>>)
    requires Distinct(ns)
    ensures Distinct(Rotated(ns))
  {
  }

  lemma RelinkRotated<T>(ns: seq<ListNode<T>>)
    requires |ns| > 1 && ns[|ns| - 1].prev == null && ns[|ns| - 1].next == ns[0]
    requires forall j :: 0 <= j < |ns| - 1 ==>
      && ns[j].prev == (if j == 0 then ns[|ns| - 1] else NodeAt(ns, j - 1))
      && ns[j].next == (if j == |ns| - 2 then null else NodeAt(ns, j + 1))
    ensures Linked(Rotated(ns))
  {
    hide NodeAt, Rotated;
    var t := Rotated(ns);
    RotatedAt(ns, 0);
    forall i | 0 <= i < |t| ensures LinkedAt(t, i) {
      RotatedAt(ns, i - 1);
      RotatedAt(ns, i);
      RotatedAt(ns, i + 1);
      NodeAtIs(t, i);
      NodeAtIs(t, i - 1);
      NodeAtIs(ns, i - 1);
      NodeAtIs(ns, i);
    }
  }

  ghost predicate NoneShared<T>(a: seq<ListNode<T>>, b: seq<ListNode<T>>) {
    forall i, j :: 0 <= i < |a| && 0 <= j < |b| ==> a[i] != b[j]
  }

  lemma NotShared<T>(a: seq<ListNode<T>>, b: seq<ListNode<T>>, i: nat, j: nat)
    requires NoneShared(a, b) && i < |a| && j < |b|
    ensures a[i] != b[j]
  {
  }

  lemma JoinedAt<T>(a: seq<ListNode<T>>, b: seq<ListNode<T>>, i: int)
    ensures NodeAt(a + b, i) == if i < |a| then NodeAt(a, i) else NodeAt(b, i - |a|)
  {
  }

  lemma JoinedDistinct<T>(a: seq<ListNode<T>>, b: seq<ListNode<T>>)
    requires Distinct(a) && Distinct(b)
    requires NoneShared(a, b)
    ensures Distinct(a + b)
  {
  }

  lemma RelinkJoined<T>(a: seq<ListNode<T>>, b: seq<ListNode<T>>)
    requires forall j :: 0 <= j < |a| ==>
      a[j].prev == NodeAt(a, j - 1) && a[j].next == (if j == |a| - 1 then NodeAt(b, 0) else NodeAt(a, j + 1))
    requires forall j :: 0 <= j < |b| ==>
      b[j].prev == (if j == 0 then NodeAt(a, |a| - 1) else NodeAt(b, j - 1)) && b[j].next == NodeAt(b, j + 1)
    ensures Linked(a + b)
  {
    hide NodeAt;
    var t := a + b;
    forall i | 0 <= i < |t| ensures LinkedAt(t, i) {
      JoinedAt(a, b, i - 1);
      JoinedAt(a, b, i);
      JoinedAt(a, b, i + 1);
      NodeAtIs(a, i - 1);
    }
  }

  // ---------------------------------------------------------------- the list

  class List<T> {
    var head: ListNode?<T>
    var tail: ListNode?<T>
    var len: nat
    /** The nodes from head to tail. */
    ghost var nodes: seq<ListNode<T>>

    ghost predicate Valid()
      reads this, nodes
    {
      && Distinct(nodes) && Linked(nodes) && len == |nodes|
      && head == NodeAt(nodes, 0) && tail == NodeAt(nodes, |nodes| - 1)
    }

    lemma Unfold()
      requires Valid()
      ensures Distinct(nodes) && len == |nodes| && head == NodeAt(nodes, 0) && tail == NodeAt(nodes, |nodes| - 1)
      ensures forall j :: 0 <= j < |nodes| ==>
        nodes[j].prev == NodeAt(nodes, j - 1) && nodes[j].next == NodeAt(nodes, j + 1)
    {
      forall j | 0 <= j < |nodes|
        ensures nodes[j].prev == NodeAt(nodes, j - 1) && nodes[j].next == NodeAt(nodes, j + 1)
      {
        assert LinkedAt(nodes, j);
      }
    }

    lemma LinksAt(k: nat)
      requires Valid() && k < |nodes|
      ensures nodes[k].prev == NodeAt(nodes, k - 1) && nodes[k].next == NodeAt(nodes, k + 1)
    {
      assert LinkedAt(nodes, k);
    }

    lemma Ends()
      requires Valid()
      ensures head == NodeAt(nodes, 0) && tail == NodeAt(nodes, |nodes| - 1)
    {
    }

    lemma Fold()
      requires Distinct(nodes) && Linked(nodes) && len == |nodes|
      requires head == NodeAt(nodes, 0) && tail == NodeAt(nodes, |nodes| - 1)
      ensures Valid()
    {
    }

    /** listCreate. */
    constructor ()
      ensures Valid() && nodes == []
    {
      head, tail, len, nodes := null, null, 0, [];
    }

    /** listAddNodeHead. */
    method AddNodeHead(value: T) returns (ghost node: ListNode<T>)
      requires Valid()
      modifies this, nodes
      ensures Valid() && nodes == [node] + old(nodes) && fresh(node) && node.value == value
    {
      hide *;
      ghost var ns := nodes;
      Unfold();
      NodeAtIs(ns, 0);
      NodeAtIs(ns, -1);
      var x := new ListNode(value);
      node := x;
      assert x !in ns;
      if len == 0 {
        head, tail := x, x;
        x.prev, x.next := null, null;
      } else {
        x.prev := null;
        x.next := head;
        head.prev := x;
        head := x;
      }
      len := len + 1;
      nodes := Inserted(ns, 0, x);
      forall j | 0 <= j < |ns|
        ensures ns[j].prev == (if j == 0 then x else NodeAt(ns, j - 1)) && ns[j].next == NodeAt(ns, j + 1)
      {
        if j != 0 { Apart(ns, j, 0); }
      }
      RelinkInserted(ns, 0, x);
      InsertedDistinct(ns, 0, x);
      InsertedAt(ns, 0, x, 0);
      InsertedAt(ns, 0, x, |ns|);
      InsertedEnds(ns, x);
      Fold();
    }

    /** listAddNodeTail. */
    method AddNodeTail(value: T) returns (ghost node: ListNode<T>)
      requires Valid()
      modifies this, nodes
      ensures Valid() && nodes == old(nodes) + [node] && fresh(node) && node.value == value
    {
      hide *;
      ghost var ns, last := nodes, |nodes| - 1;
      Unfold();
      NodeAtIs(ns, last);
      NodeAtIs(ns, |ns|);
      NodeAtIs(ns, 0);
      var x := new ListNode(value);
      node := x;
      assert x !in ns;
      if len == 0 {
        head, tail := x, x;
        x.prev, x.next := null, null;
      } else {
        x.prev := tail;
        x.next := null;
        tail.next := x;
        tail := x;
      }
      len := len + 1;
      nodes := Inserted(ns, |ns|, x);
      forall j | 0 <= j < |ns|
        ensures ns[j].prev == NodeAt(ns, j - 1) && ns[j].next == (if j == last then x else NodeAt(ns, j + 1))
      {
        if j != last { Apart(ns, j, last); }
      }
      RelinkInserted(ns, |ns|, x);
      InsertedDistinct(ns, |ns|, x);
      InsertedAt(ns, |ns|, x, 0);
      InsertedAt(ns, |ns|, x, |ns|);
      InsertedEnds(ns, x);
      Fold();
    }

    /** listInsertNode: next to a node of the list, on the side asked for. */
    method InsertNode(oldNode: ListNode<T>, ghost k: nat, value: T, after: bool) returns (ghost node: ListNode<T>)
      requires Valid() && k < |nodes| && nodes[k] == oldNode
      modifies this, nodes
      ensures Valid() && nodes == (if after then old(nodes)[..k + 1] + [node] + old(nodes)[k + 1..]
                                   else old(nodes)[..k] + [node] + old(nodes)[k..])
      ensures fresh(node) && node.value == value
    {
      hide *;
      ghost var ns, at := nodes, if after then k + 1 else k;
      Unfold();
      NodeAtIs(ns, at - 1);
      NodeAtIs(ns, at);
      NodeAtIs(ns, 0);
      NodeAtIs(ns, |ns| - 1);
      if k != 0 { Apart(ns, k, 0); }
      if k != |ns| - 1 { Apart(ns, k, |ns| - 1); }
      var x := new ListNode(value);
      node := x;
      assert x !in ns;
      if after {
        x.prev := oldNode;
        x.next := oldNode.next;
        if tail == oldNode { tail := x; }
      } else {
        x.next := oldNode;
        x.prev := oldNode.prev;
        if head == oldNode { head := x; }
      }
      Splice(x, at);
      InsertedIs(ns, at, x);
    }

    /** The end of listInsertNode: the new node already points to its neighbours. */
    method Splice(x: ListNode<T>, ghost at: nat)
      requires at <= |nodes| && Distinct(nodes) && len == |nodes| && x !in nodes
      requires forall j :: 0 <= j < |nodes| ==>
        nodes[j].prev == NodeAt(nodes, j - 1) && nodes[j].next == NodeAt(nodes, j + 1)
      requires x.prev == NodeAt(nodes, at - 1) && x.next == NodeAt(nodes, at)
      requires head == (if at == 0 then x else NodeAt(nodes, 0))
      requires tail == (if at == |nodes| then x else NodeAt(nodes, |nodes| - 1))
      modifies this, nodes
      ensures Valid() && nodes == Inserted(old(nodes), at, x)
    {
      hide *;
      ghost var ns := nodes;
      NodeAtIs(ns, at - 1);
      NodeAtIs(ns, at);
      if x.prev != null { x.prev.next := x; }
      if x.next != null { x.next.prev := x; }
      len := len + 1;
      nodes := Inserted(ns, at, x);
      forall j | 0 <= j < |ns|
        ensures ns[j].prev == (if j == at then x else NodeAt(ns, j - 1))
        ensures ns[j].next == (if j == at - 1 then x else NodeAt(ns, j + 1))
      {
        if at < |ns| && j != at { Apart(ns, j, at); }
        if 0 < at && j != at - 1 { Apart(ns, j, at - 1); }
      }
      RelinkInserted(ns, at, x);
      InsertedDistinct(ns, at, x);
      InsertedAt(ns, at, x, 0);
      InsertedAt(ns, at, x, |ns|);
      Fold();
    }

    /** listDelNode. */
    method DelNode(node: ListNode<T>, ghost k: nat)
      requires Valid() && k < |nodes| && nodes[k] == node
      modifies this, nodes
      ensures Valid() && nodes == old(nodes)[..k] + old(nodes)[k + 1..]
      ensures nodes == Without(old(nodes), k)
    {
      hide *;
      ghost var ns := nodes;
      Unfold();
      NodeAtIs(ns, k - 1);
      NodeAtIs(ns, k + 1);
      if node.prev != null { node.prev.next := node.next; } else { head := node.next; }
      if node.next != null { node.next.prev := node.prev; } else { tail := node.prev; }
      len := len - 1;
      nodes := Without(ns, k);
      forall j | 0 <= j < |ns| && j != k
        ensures ns[j].prev == NodeAt(ns, if j == k + 1 then k - 1 else j - 1)
        ensures ns[j].next == NodeAt(ns, if j == k - 1 then k + 1 else j + 1)
      {
        if 0 < k && j != k - 1 { Apart(ns, j, k - 1); }
        if k + 1 < |ns| && j != k + 1 { Apart(ns, j, k + 1); }
      }
      RelinkWithout(ns, k);
      WithoutDistinct(ns, k);
      WithoutAt(ns, k, 0);
      WithoutAt(ns, k, |ns| - 2);
      WithoutIs(ns, k);
      Fold();
    }

    /** listIndex: negative indexes count from the tail; out of range gives null. */
    method Index(index: int) returns (n: ListNode?<T>)
      requires Valid()
      ensures n == NodeAt(nodes, if index < 0 then |nodes| + index else index)
    {
      hide Distinct, Linked, Valid;
      Unfold();
      if index < 0 {
        var i := -index - 1;
        n := tail;
        ghost var at := |nodes| - 1;
        while i != 0 && n != null
          invariant 0 <= i && -1 <= at < |nodes| && n == NodeAt(nodes, at)
          invariant at - i == |nodes| + index
          decreases i
        {
          n := n.prev;
          i, at := i - 1, at - 1;
        }
      } else {
        var i := index;
        n := head;
        ghost var at := 0;
        while i != 0 && n != null
          invariant 0 <= i && 0 <= at <= |nodes| && n == NodeAt(nodes, at)
          invariant at + i == index
          decreases i
        {
          n := n.next;
          i, at := i - 1, at + 1;
        }
      }
    }

    /** listRotate: the tail becomes the head. */
    method Rotate()
      requires Valid()
      modifies this, nodes
      ensures Valid() && |nodes| == |old(nodes)| && (old(nodes) == [] ==> nodes == [])
      ensures old(nodes) != [] ==> nodes == [old(nodes)[|old(nodes)| - 1]] + old(nodes)[..|old(nodes)| - 1]
    {
      hide *;
      ghost var ns, n := nodes, |nodes|;
      Unfold();
      if len <= 1 {
        RotatedShort(ns);
        RotatedIs(ns);
        return;
      }
      NodeAtIs(ns, 0);
      NodeAtIs(ns, n - 1);
      NodeAtIs(ns, n - 2);
      Apart(ns, 0, n - 1);
      var last := tail;
      tail := last.prev;
      tail.next := null;
      head.prev := last;
      last.prev := null;
      last.next := head;
      head := last;
      nodes := Rotated(ns);
      forall j | 0 <= j < n - 1
        ensures ns[j].prev == (if j == 0 then ns[n - 1] else NodeAt(ns, j - 1))
        ensures ns[j].next == (if j == n - 2 then null else NodeAt(ns, j + 1))
      {
        Apart(ns, j, n - 1);
        if j != 0 { Apart(ns, j, 0); }
        if j != n - 2 { Apart(ns, j, n - 2); }
      }
      RelinkRotated(ns);
      RotatedDistinct(ns);
      RotatedAt(ns, 0);
      RotatedAt(ns, n - 1);
      RotatedIs(ns);
      Fold();
    }

    /** listJoin: everything of the other list goes to the end of this one, and the other is left empty. */
    method Join(o: List<T>)
      requires Valid() && o.Valid() && o != this
      requires NoneShared(nodes, o.nodes)
      modifies this, nodes, o, o.nodes
      ensures Valid() && o.Valid() && nodes == old(nodes) + old(o.nodes) && o.nodes == []
    {
      hide *;
      ghost var a, b := nodes, o.nodes;
      Unfold();
      o.Unfold();
      NodeAtIs(a, |a| - 1);
      NodeAtIs(b, 0);
      NodeAtIs(b, |b| - 1);
      NodeAtIs(a, 0);
      if o.head != null { o.head.prev := tail; }
      if tail != null { tail.next := o.head; } else { head := o.head; }
      if o.tail != null { tail := o.tail; }
      len := len + o.len;
      nodes := a + b;
      forall j | 0 <= j < |a|
        ensures a[j].prev == NodeAt(a, j - 1)
        ensures a[j].next == (if j == |a| - 1 then NodeAt(b, 0) else NodeAt(a, j + 1))
      {
        if j != |a| - 1 { Apart(a, j, |a| - 1); }
        if b != [] { NotShared(a, b, j, 0); }
      }
      forall j | 0 <= j < |b|
        ensures b[j].prev == (if j == 0 then NodeAt(a, |a| - 1) else NodeAt(b, j - 1))
        ensures b[j].next == NodeAt(b, j + 1)
      {
        if j != 0 { Apart(b, j, 0); }
        if a != [] { NotShared(a, b, |a| - 1, j); }
      }
      RelinkJoined(a, b);
      JoinedDistinct(a, b);
      JoinedAt(a, b, 0);
      JoinedAt(a, b, |a| + |b| - 1);
      Fold();
      o.head, o.tail, o.len, o.nodes := null, null, 0, [];
      EmptyIsValid(o);
    }
  }

  lemma RotatedShort<T>(ns: seq<ListNode<T>>)
    requires |ns| <= 1
    ensures Rotated(ns) == ns
  {
  }

  lemma EmptyIsValid<T>(l: List<T>)
    requires l.nodes == [] && l.head == null && l.tail == null && l.len == 0
    ensures l.Valid()
  {
  }

  // ---------------------------------------------------------------- iteration

  class Iter<T> {
    var next: ListNode?<T>
    const fromHead: bool

    /** listGetIterator. */
    constructor (l: List<T>, fromHead: bool)
      ensures this.fromHead == fromHead && next == if fromHead then l.head else l.tail
    {
      this.fromHead := fromHead;
      next := if fromHead then l.head else l.tail;
    }

    /** listNext: the next node is remembered before the current one is given out. */
    method Next() returns (current: ListNode?<T>)
      modifies this
      ensures current == old(next)
      ensures next == if old(next) == null then null else if fromHead then old(next.next) else old(next.prev)
    {
      current := next;
      if current != null {
        next := if fromHead then current.next else current.prev;
      }
    }
  }

  ghost function Kept<T>(ns: seq<ListNode<T>>, drop: set<ListNode<T>>): seq<ListNode<T>> {
    if ns == [] then []
    else Kept(ns[..|ns| - 1], drop) + (if ns[|ns| - 1] in drop then [] else [ns[|ns| - 1]])
  }

  lemma KeptStep<T>(ns: seq<ListNode<T>>, i: nat, drop: set<ListNode<T>>)
    requires i < |ns|
    ensures Kept(ns[..i + 1], drop) == Kept(ns[..i], drop) + (if ns[i] in drop then [] else [ns[i]])
  {
    assert ns[..i + 1][..i] == ns[..i];
  }

  lemma {:induction false} KeptSubset<T>(ns: seq<ListNode<T>>, drop: set<ListNode<T>>)
    ensures forall j :: 0 <= j < |Kept(ns, drop)| ==> Kept(ns, drop)[j] in ns
  {
    if ns != [] {
      KeptSubset(ns[..|ns| - 1], drop);
    }
  }

  /** Where a traversal from the head stands after `i` nodes. */
  ghost function Progress<T>(ns: seq<ListNode<T>>, i: nat, drop: set<ListNode<T>>): seq<ListNode<T>>
    requires i <= |ns|
  {
    Kept(ns[..i], drop) + ns[i..]
  }

  /** The next node to visit is where the kept ones end. */
  lemma ProgressAt<T>(ns: seq<ListNode<T>>, i: nat, drop: set<ListNode<T>>)
    requires i <= |ns|
    ensures var t, k := Progress(ns, i, drop), |Kept(ns[..i], drop)|;
      NodeAt(t, k) == NodeAt(ns, i) && NodeAt(t, k + 1) == NodeAt(ns, i + 1)
  {
    hide Kept;
  }

  lemma ProgressStep<T>(ns: seq<ListNode<T>>, i: nat, drop: set<ListNode<T>>)
    requires i < |ns|
    ensures var t, k := Progress(ns, i, drop), |Kept(ns[..i], drop)|;
      && k < |t| && t[k] == ns[i]
      && Progress(ns, i + 1, drop) == if ns[i] in drop then Without(t, k) else t
  {
    hide Kept;
    var kept := Kept(ns[..i], drop);
    KeptStep(ns, i, drop);
    if ns[i] in drop {
      assert Without(kept + ns[i..], |kept|) == kept + ns[i + 1..];
    } else {
      assert kept + ns[i..] == (kept + [ns[i]]) + ns[i + 1..];
    }
  }

  lemma ProgressSubset<T>(ns: seq<ListNode<T>>, i: nat, drop: set<ListNode<T>>)
    requires i <= |ns|
    ensures forall j :: 0 <= j < |Progress(ns, i, drop)| ==> Progress(ns, i, drop)[j] in ns
  {
    hide Kept;
    KeptSubset(ns[..i], drop);
  }

  lemma ProgressEnds<T>(ns: seq<ListNode<T>>, drop: set<ListNode<T>>)
    ensures Progress(ns, 0, drop) == ns && Progress(ns, |ns|, drop) == Kept(ns, drop)
  {
    assert ns[..|ns|] == ns;
  }

  /** One round of a traversal from the head: the returned node may be deleted, then the next is asked for. */
  method VisitForward<T>(l: List<T>, it: Iter<T>, node: ListNode<T>, drop: set<ListNode<T>>,
                         ghost ns: seq<ListNode<T>>, ghost i: nat) returns (next: ListNode?<T>)
    requires l.Valid() && i < |ns| && l.nodes == Progress(ns, i, drop) && node == ns[i]
    requires it.fromHead && it.next == NodeAt(ns, i + 1)
    modifies l, l.nodes, it
    ensures l.Valid() && l.nodes == Progress(ns, i + 1, drop)
    ensures next == NodeAt(ns, i + 1) && (next != null ==> it.next == NodeAt(ns, i + 2))
  {
    hide *;
    ProgressStep(ns, i, drop);
    if node in drop {
      l.DelNode(node, |Kept(ns[..i], drop)|);
    }
    ghost var k := |Kept(ns[..i + 1], drop)|;
    ProgressAt(ns, i + 1, drop);
    NodeAtIs(l.nodes, k);
    if it.next != null { l.LinksAt(k); }
    next := it.Next();
  }

  /** A traversal that deletes some of the nodes just returned visits every original node once, in order,
      and leaves exactly the others. */
  method TraverseFromHead<T>(l: List<T>, drop: set<ListNode<T>>) returns (visited: seq<ListNode<T>>)
    requires l.Valid()
    modifies l, l.nodes
    ensures l.Valid() && visited == old(l.nodes) && l.nodes == Kept(old(l.nodes), drop)
  {
    hide *;
    ghost var ns := l.nodes;
    ghost var i := 0;
    visited := [];
    var it := new Iter(l, true);
    l.Ends();
    NodeAtIs(ns, 0);
    if l.head != null { l.LinksAt(0); }
    ProgressEnds(ns, drop);
    var node := it.Next();
    while node != null
      invariant 0 <= i <= |ns| && visited == ns[..i] && node == NodeAt(ns, i)
      invariant fresh(it) && it.fromHead && (node != null ==> it.next == NodeAt(ns, i + 1))
      invariant l.Valid() && l.nodes == Progress(ns, i, drop)
      decreases |ns| - i
    {
      NodeAtIs(ns, i);
      visited := visited + [node];
      ProgressSubset(ns, i, drop);
      node := VisitForward(l, it, node, drop, ns, i);
      i := i + 1;
    }
    NodeAtIs(ns, i);
  }

  lemma {:induction false} KeptConcat<T>(a: seq<ListNode<T>>, b: seq<ListNode<T>>, drop: set<ListNode<T>>)
    ensures Kept(a + b, drop) == Kept(a, drop) + Kept(b, drop)
  {
    if b == [] {
      assert a + b == a;
    } else {
      var init := b[..|b| - 1];
      assert (a + b)[..|a + b| - 1] == a + init;
      KeptConcat(a, init, drop);
    }
  }

  /** Where a traversal from the tail stands when `m` nodes are left. */
  ghost function ProgressBack<T>(ns: seq<ListNode<T>>, m: nat, drop: set<ListNode<T>>): seq<ListNode<T>>
    requires m <= |ns|
  {
    ns[..m] + Kept(ns[m..], drop)
  }

  lemma ProgressBackAt<T>(ns: seq<ListNode<T>>, m: nat, drop: set<ListNode<T>>)
    requires m <= |ns|
    ensures var t := ProgressBack(ns, m, drop);
      |t| >= m && NodeAt(t, m - 1) == NodeAt(ns, m - 1) && NodeAt(t, m - 2) == NodeAt(ns, m - 2)
  {
    hide Kept;
  }

  lemma ProgressBackStep<T>(ns: seq<ListNode<T>>, m: nat, drop: set<ListNode<T>>)
    requires 0 < m <= |ns|
    ensures var t := ProgressBack(ns, m, drop);
      && |t| >= m && t[m - 1] == ns[m - 1]
      && ProgressBack(ns, m - 1, drop) == if ns[m - 1] in drop then Without(t, m - 1) else t
  {
    hide Kept;
    assert ns[m - 1..] == [ns[m - 1]] + ns[m..];
    KeptConcat([ns[m - 1]], ns[m..], drop);
    KeptOne(ns[m - 1], drop);
    var kept := Kept(ns[m..], drop);
    if ns[m - 1] in drop {
      assert Without(ns[..m] + kept, m - 1) == ns[..m - 1] + kept;
    } else {
      assert ns[..m] + kept == ns[..m - 1] + ([ns[m - 1]] + kept);
    }
  }

  lemma ProgressBackSubset<T>(ns: seq<ListNode<T>>, m: nat, drop: set<ListNode<T>>)
    requires m <= |ns|
    ensures forall j :: 0 <= j < |ProgressBack(ns, m, drop)| ==> ProgressBack(ns, m, drop)[j] in ns
  {
    hide Kept;
    KeptSubset(ns[m..], drop);
  }

  lemma KeptOne<T>(n: ListNode<T>, drop: set<ListNode<T>>)
    ensures Kept([n], drop) == if n in drop then [] else [n]
  {
    assert [n][..0] == [];
  }

  lemma ProgressBackEnds<T>(ns: seq<ListNode<T>>, drop: set<ListNode<T>>)
    ensures ProgressBack(ns, |ns|, drop) == ns && ProgressBack(ns, 0, drop) == Kept(ns, drop)
  {
    assert ns[0..] == ns && ns[..|ns|] == ns;
  }

  ghost function Backwards<T>(ns: seq<ListNode<T>>): seq<ListNode<T>> {
    if ns == [] then [] else Backwards(ns[1..]) + [ns[0]]
  }

  lemma BackwardsStep<T>(ns: seq<ListNode<T>>, m: nat)
    requires 0 < m <= |ns|
    ensures Backwards(ns[m - 1..]) == Backwards(ns[m..]) + [ns[m - 1]]
  {
    assert ns[m - 1..][1..] == ns[m..];
  }

  lemma BackwardsEnds<T>(ns: seq<ListNode<T>>)
    ensures Backwards(ns[|ns|..]) == [] && ns[0..] == ns
  {
  }

  method VisitBackward<T>(l: List<T>, it: Iter<T>, node: ListNode<T>, drop: set<ListNode<T>>,
                          ghost ns: seq<ListNode<T>>, ghost m: nat) returns (next: ListNode?<T>)
    requires l.Valid() && 0 < m <= |ns| && l.nodes == ProgressBack(ns, m, drop) && node == ns[m - 1]
    requires !it.fromHead && it.next == NodeAt(ns, m - 2)
    modifies l, l.nodes, it
    ensures l.Valid() && l.nodes == ProgressBack(ns, m - 1, drop)
    ensures next == NodeAt(ns, m - 2) && (next != null ==> it.next == NodeAt(ns, m - 3))
  {
    hide *;
    ProgressBackStep(ns, m, drop);
    if node in drop {
      l.DelNode(node, m - 1);
    }
    ProgressBackAt(ns, m - 1, drop);
    NodeAtIs(l.nodes, m - 2);
    if it.next != null { l.LinksAt(m - 2); }
    next := it.Next();
  }

  /** The same from the tail, in the opposite order. */
  method TraverseFromTail<T>(l: List<T>, drop: set<ListNode<T>>) returns (visited: seq<ListNode<T>>)
    requires l.Valid()
    modifies l, l.nodes
    ensures l.Valid() && visited == Backwards(old(l.nodes)) && l.nodes == Kept(old(l.nodes), drop)
  {
    hide *;
    ghost var ns := l.nodes;
    ghost var m := |ns|;
    visited := [];
    var it := new Iter(l, false);
    l.Ends();
    NodeAtIs(ns, m - 1);
    if l.tail != null { l.LinksAt(m - 1); }
    ProgressBackEnds(ns, drop);
    BackwardsEnds(ns);
    var node := it.Next();
    while node != null
      invariant 0 <= m <= |ns| && visited == Backwards(ns[m..]) && node == NodeAt(ns, m - 1)
      invariant fresh(it) && !it.fromHead && (node != null ==> it.next == NodeAt(ns, m - 2))
      invariant l.Valid() && l.nodes == ProgressBack(ns, m, drop)
      decreases m
    {
      NodeAtIs(ns, m - 1);
      visited := visited + [node];
      BackwardsStep(ns, m);
      ProgressBackSubset(ns, m, drop);
      node := VisitBackward(l, it, node, drop, ns, m);
      m := m - 1;
    }
    NodeAtIs(ns, m - 1);
  }
}
