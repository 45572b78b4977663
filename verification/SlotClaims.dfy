/**
 Slot claims: when the order in which the claims of the masters arrive does not matter. Every node then
 ends up with the same slot table, each slot with the highest epoch.
 */
module SlotClaims {
  import opened Options
  import opened SlotTable

  /** A PING or PONG: the slots `sender` claims at `epoch`. An UPDATE that reports a later epoch than the one
      known acts the same; one that does not is dropped by the receiver. */
  datatype Claim = Claim(sender: NodeId, epoch: nat, slots: set<nat>)

  /** What a receiver knows: the owners of the slots and the config epochs of the nodes. */
  datatype View = View(slots: seq<Option<NodeId>>, epochs: map<NodeId, nat>)

  ghost predicate ValidView(v: View) {
    forall j :: 0 <= j < |v.slots| && v.slots[j].Some? ==> v.slots[j].value in v.epochs
  }

  /** The receiver first raises the sender's epoch, then rebinds slots with the epochs it then has. */
  function Raised(v: View, c: Claim): (epochs: map<NodeId, nat>)
    requires c.sender in v.epochs
  {
    if c.epoch > v.epochs[c.sender] then v.epochs[c.sender := c.epoch] else v.epochs
  }

  ghost function Process(v: View, c: Claim): (r: View)
    requires ValidView(v) && c.sender in v.epochs
    ensures ValidView(r) && r.epochs.Keys == v.epochs.Keys && |r.slots| == |v.slots|
  {
    View(seq(|v.slots|, j requires 0 <= j < |v.slots| => Rebound(v.slots[j], Raised(v, c), false, c.sender, c.epoch, j in c.slots)),
         Raised(v, c))
  }

  ghost function ProcessAll(v: View, cs: seq<Claim>): (r: View)
    requires ValidView(v) && forall i :: 0 <= i < |cs| ==> cs[i].sender in v.epochs
    ensures ValidView(r) && r.epochs.Keys == v.epochs.Keys && |r.slots| == |v.slots|
    decreases |cs|
  {
    if cs == [] then v else Process(ProcessAll(v, cs[..|cs| - 1]), cs[|cs| - 1])
  }

  /** The epoch a claimant's slots are defended with: the later of its claim's and the one already known. */
  function Defended(v: View, c: Claim): nat
    requires c.sender in v.epochs
  {
    if c.epoch > v.epochs[c.sender] then c.epoch else v.epochs[c.sender]
  }

  /** Slot `j` is claimed above the epoch of its prior owner. */
  ghost predicate Above(v: View, c: Claim, j: nat)
    requires ValidView(v) && j < |v.slots|
  {
    j in c.slots && (v.slots[j] == None || v.epochs[v.slots[j].value] < c.epoch)
  }

  ghost predicate Known(v: View, cs: seq<Claim>) {
    ValidView(v) && forall i :: 0 <= i < |cs| ==> cs[i].sender in v.epochs
  }

  /** Claims of known masters, one of each. */
  ghost predicate OneEach(v: View, cs: seq<Claim>) {
    && ValidView(v)
    && (forall c :: c in cs ==> c.sender in v.epochs)
    && (forall c, d :: c in cs && d in cs && c.sender == d.sender ==> c == d)
  }

  lemma OneEachKnown(v: View, cs: seq<Claim>)
    requires OneEach(v, cs)
    ensures Known(v, cs)
  {
    forall i | 0 <= i < |cs| ensures cs[i].sender in v.epochs { assert cs[i] in cs; }
  }

  /** What a claim to slot `j` may have to beat: another claim above the prior owner, or whatever the prior owner
      says, even if it does not claim the slot any more. */
  ghost predicate Contests(v: View, c: Claim, j: nat)
    requires ValidView(v) && j < |v.slots|
  {
    Above(v, c, j) || v.slots[j] == Some(c.sender)
  }

  /** `w` wins slot `j` in any order: it is claimed above the prior epoch, and after everything any other claim
      that contests the slot is defended with. */
  ghost predicate Leads(v: View, cs: seq<Claim>, j: nat, w: Claim)
    requires ValidView(v) && j < |v.slots|
  {
    && w in cs && Above(v, w, j)
    && forall x :: x in cs && x != w && Contests(v, x, j) ==> x.sender in v.epochs && Defended(v, x) < w.epoch
  }

  /** Nobody else claims slot `j` above its prior owner. */
  ghost predicate Unchallenged(v: View, cs: seq<Claim>, j: nat)
    requires ValidView(v) && j < |v.slots|
  {
    forall c :: c in cs && Above(v, c, j) ==> v.slots[j] == Some(c.sender)
  }

  ghost predicate Decided(v: View, cs: seq<Claim>, j: nat)
    requires ValidView(v) && j < |v.slots|
  {
    Unchallenged(v, cs, j) || exists w :: Leads(v, cs, j, w)
  }

  /** The owner after the claims: the prior one, or the claimant that leads. */
  ghost predicate Settled(v: View, cs: seq<Claim>, j: nat, owner: Option<NodeId>)
    requires ValidView(v) && j < |v.slots|
  {
    || (Unchallenged(v, cs, j) && owner == v.slots[j])
    || (exists w :: Leads(v, cs, j, w) && owner == Some(w.sender))
  }

  /** Whoever leads claims with the highest epoch. */
  lemma LeaderIsHighest(v: View, cs: seq<Claim>, j: nat, w: Claim)
    requires OneEach(v, cs) && j < |v.slots| && Leads(v, cs, j, w)
    ensures v.slots[j].Some? ==> v.epochs[v.slots[j].value] < w.epoch
    ensures forall d :: d in cs && j in d.slots ==> d.epoch <= w.epoch
  {
  }

  // ---------------------------------------------------------------- one claim more

  lemma InInit(cs: seq<Claim>, init: seq<Claim>, c: Claim)
    requires cs == init + [c]
    ensures forall d :: d in cs <==> d in init || d == c
  {
  }

  lemma ProcessNone(v: View)
    requires ValidView(v)
    ensures ProcessAll(v, []) == v
  {
  }

  lemma ProcessAllStep(v: View, cs: seq<Claim>, init: seq<Claim>, c: Claim)
    requires OneEach(v, cs) && cs == init + [c]
    ensures OneEach(v, init) && Known(v, init) && Known(v, cs) && c.sender in v.epochs
    ensures ProcessAll(v, cs) == Process(ProcessAll(v, init), c)
    ensures forall d :: d in cs <==> d in init || d == c
  {
    hide Process;
    InInit(cs, init, c);
    OneEachKnown(v, cs);
    OneEachKnown(v, init);
    assert cs[..|cs| - 1] == init && cs[|cs| - 1] == c;
    assert c in cs;
  }

  /** The epochs known after the claims: a claimant is known at what it defends with, others as before. */
  lemma {:induction false} EpochsAfter(v: View, cs: seq<Claim>, n: NodeId)
    requires OneEach(v, cs) && n in v.epochs
    ensures Known(v, cs)
    ensures forall c :: c in cs && c.sender == n ==> ProcessAll(v, cs).epochs[n] == Defended(v, c)
    ensures (forall c :: c in cs ==> c.sender != n) ==> ProcessAll(v, cs).epochs[n] == v.epochs[n]
    decreases |cs|
  {
    hide ProcessAll;
    OneEachKnown(v, cs);
    if cs == [] {
      ProcessNone(v);
    } else {
      var init, c := cs[..|cs| - 1], cs[|cs| - 1];
      ProcessAllStep(v, cs, init, c);
      EpochsAfter(v, init, n);
    }
  }

  /** The slot after one more claim: it moves if it is claimed after the epoch of its owner. */
  lemma OneMore(v: View, cs: seq<Claim>, init: seq<Claim>, c: Claim, j: nat)
    requires OneEach(v, cs) && cs == init + [c] && j < |v.slots|
    ensures OneEach(v, init) && Known(v, init) && Known(v, cs) && c.sender in v.epochs
    ensures var owner := ProcessAll(v, init).slots[j];
      ProcessAll(v, cs).slots[j] ==
        if owner != Some(c.sender) && j in c.slots && (owner.Some? ==> ProcessAll(v, init).epochs[owner.value] < c.epoch)
        then Some(c.sender) else owner
  {
    hide ProcessAll;
    ProcessAllStep(v, cs, init, c);
    var u := ProcessAll(v, init);
    assert ProcessAll(v, cs).slots[j] == Rebound(u.slots[j], Raised(u, c), false, c.sender, c.epoch, j in c.slots);
  }

  /** The epoch of the owner, in terms of the claims so far. */
  lemma OwnerEpoch(v: View, cs: seq<Claim>, n: NodeId)
    requires OneEach(v, cs) && n in v.epochs
    ensures Known(v, cs) && ProcessAll(v, cs).epochs[n] >= v.epochs[n]
    ensures forall x :: x in cs && x.sender == n ==> ProcessAll(v, cs).epochs[n] == Defended(v, x)
    ensures ProcessAll(v, cs).epochs[n] == v.epochs[n] || exists x :: x in cs && x.sender == n
  {
    hide ProcessAll;
    EpochsAfter(v, cs, n);
  }

  // ---------------------------------------------------------------- who can own a slot

  /** The prior owner, or a claimant above it. */
  ghost predicate MayOwn(v: View, cs: seq<Claim>, j: nat, owner: Option<NodeId>)
    requires ValidView(v) && j < |v.slots|
  {
    owner == v.slots[j] || exists x :: x in cs && Above(v, x, j) && owner == Some(x.sender)
  }

  lemma {:induction false} OwnerAfter(v: View, cs: seq<Claim>, j: nat)
    requires OneEach(v, cs) && j < |v.slots|
    ensures Known(v, cs) && MayOwn(v, cs, j, ProcessAll(v, cs).slots[j])
    ensures Unchallenged(v, cs, j) ==> ProcessAll(v, cs).slots[j] == v.slots[j]
    decreases |cs|
  {
    hide ProcessAll, OneEach;
    OneEachKnown(v, cs);
    if cs == [] {
      ProcessNone(v);
    } else {
      var init, c := cs[..|cs| - 1], cs[|cs| - 1];
      assert cs == init + [c];
      InInit(cs, init, c);
      OneMore(v, cs, init, c, j);
      OwnerAfter(v, init, j);
      if v.slots[j].Some? { OwnerEpoch(v, init, v.slots[j].value); }
      var owner := ProcessAll(v, init).slots[j];
      if owner != v.slots[j] {
        var x :| x in init && Above(v, x, j) && owner == Some(x.sender);
        TakenAbove(v, init, x, c, j);
      }
    }
  }

  /** A claim that takes a slot from a claimant above the prior owner is above it itself. */
  lemma TakenAbove(v: View, init: seq<Claim>, x: Claim, c: Claim, j: nat)
    requires OneEach(v, init) && j < |v.slots| && x in init && Above(v, x, j)
    ensures Known(v, init) && x.sender in v.epochs
    ensures j in c.slots && ProcessAll(v, init).epochs[x.sender] < c.epoch ==> Above(v, c, j)
  {
    hide ProcessAll;
    OwnerEpoch(v, init, x.sender);
  }

  /** Once the leading claim has arrived, its sender owns the slot for good. */
  lemma {:induction false} LeaderOwns(v: View, all: seq<Claim>, cs: seq<Claim>, j: nat, w: Claim)
    requires OneEach(v, all) && OneEach(v, cs) && (forall c :: c in cs ==> c in all) && j < |v.slots|
    requires Leads(v, all, j, w) && w in cs
    ensures Known(v, cs) && ProcessAll(v, cs).slots[j] == Some(w.sender)
    decreases |cs|
  {
    hide ProcessAll, OneEach, Defended, Leads, Above;
    OneEachKnown(v, cs);
    var init, c := cs[..|cs| - 1], cs[|cs| - 1];
    assert cs == init + [c];
    InInit(cs, init, c);
    OneMore(v, cs, init, c, j);
    if w in init {
      LeaderOwns(v, all, init, j, w);
      LeaderStays(v, all, init, j, w, c);
    } else {
      LeaderTakes(v, all, init, j, w);
    }
  }

  /** No claim comes after the one that leads. */
  lemma LeaderStays(v: View, all: seq<Claim>, init: seq<Claim>, j: nat, w: Claim, c: Claim)
    requires OneEach(v, all) && OneEach(v, init) && j < |v.slots| && Leads(v, all, j, w) && w in init && c in all
    ensures Known(v, init) && w.sender in v.epochs
    ensures !(j in c.slots && ProcessAll(v, init).epochs[w.sender] < c.epoch)
  {
    hide ProcessAll;
    OwnerEpoch(v, init, w.sender);
  }

  /** The one that leads comes after whatever is found. */
  lemma LeaderTakes(v: View, all: seq<Claim>, init: seq<Claim>, j: nat, w: Claim)
    requires OneEach(v, all) && OneEach(v, init) && (forall c :: c in init ==> c in all) && w !in init
    requires j < |v.slots| && Leads(v, all, j, w)
    ensures Known(v, init) && j in w.slots
    ensures var owner := ProcessAll(v, init).slots[j];
      owner.Some? && owner != Some(w.sender) ==> ProcessAll(v, init).epochs[owner.value] < w.epoch
  {
    hide ProcessAll;
    OwnerAfter(v, init, j);
    var owner := ProcessAll(v, init).slots[j];
    if owner.Some? && owner != Some(w.sender) {
      OwnerEpoch(v, init, owner.value);
      if ProcessAll(v, init).epochs[owner.value] != v.epochs[owner.value] || owner != v.slots[j] {
        var x :| x in init && x.sender == owner.value;
        assert x in all && x != w && Contests(v, x, j);
      }
    }
  }

  // ---------------------------------------------------------------- any order

  ghost predicate SameClaims(cs: seq<Claim>, ds: seq<Claim>) {
    forall c :: c in cs <==> c in ds
  }

  lemma SameOneEach(v: View, cs: seq<Claim>, ds: seq<Claim>)
    requires OneEach(v, cs) && SameClaims(cs, ds)
    ensures OneEach(v, ds) && Known(v, ds) && Known(v, cs)
  {
    OneEachKnown(v, cs);
    OneEachKnown(v, ds);
  }

  /** A slot that is decided ends with the same owner in every order, with any repeats: the prior one, or the
      one that leads, which has the highest epoch. */
  lemma SlotSettles(v: View, cs: seq<Claim>, ds: seq<Claim>, j: nat)
    requires OneEach(v, cs) && SameClaims(cs, ds) && j < |v.slots| && Decided(v, cs, j)
    ensures Known(v, cs) && Known(v, ds) && ProcessAll(v, ds).slots[j] == ProcessAll(v, cs).slots[j]
    ensures Settled(v, cs, j, ProcessAll(v, ds).slots[j])
  {
    hide ProcessAll, OneEach, Known;
    SameOneEach(v, cs, ds);
    if Unchallenged(v, cs, j) {
      OwnerAfter(v, cs, j);
      OwnerAfter(v, ds, j);
    } else {
      var w :| Leads(v, cs, j, w);
      LeaderOwns(v, cs, cs, j, w);
      LeaderOwns(v, cs, ds, j, w);
    }
  }

  /** There is one way to settle a slot. */
  lemma SettledUnique(v: View, cs: seq<Claim>, j: nat, a: Option<NodeId>, b: Option<NodeId>)
    requires OneEach(v, cs) && j < |v.slots| && Settled(v, cs, j, a) && Settled(v, cs, j, b)
    ensures a == b
  {
    if exists w :: Leads(v, cs, j, w) && a == Some(w.sender) {
      var w :| Leads(v, cs, j, w) && a == Some(w.sender);
      if exists x :: Leads(v, cs, j, x) && b == Some(x.sender) {
        var x :| Leads(v, cs, j, x) && b == Some(x.sender);
        assert x != w ==> Defended(v, x) < w.epoch && Defended(v, w) < x.epoch;
      }
    }
  }

  /** The claims other than `w`, in order. */
  function Others(cs: seq<Claim>, w: Claim): (r: seq<Claim>)
    ensures forall c :: c in r <==> c in cs && c != w
  {
    if cs == [] then []
    else Others(cs[..|cs| - 1], w) + if cs[|cs| - 1] == w then [] else [cs[|cs| - 1]]
  }

  /** Claims of others never give a slot to a node, nor do any leave it without an owner. */
  lemma {:induction false} NeverGiven(v: View, pre: seq<Claim>, rest: seq<Claim>, j: nat, o: Option<NodeId>)
    requires OneEach(v, pre + rest) && j < |v.slots| && (forall c :: c in rest ==> Some(c.sender) != o)
    requires Known(v, pre) && ProcessAll(v, pre).slots[j] != o
    ensures Known(v, pre + rest) && ProcessAll(v, pre + rest).slots[j] != o
    decreases |rest|
  {
    hide ProcessAll, OneEach;
    OneEachKnown(v, pre + rest);
    if rest == [] {
      assert pre + rest == pre;
    } else {
      var init, c := rest[..|rest| - 1], rest[|rest| - 1];
      assert pre + rest == (pre + init) + [c];
      OneMore(v, pre + rest, pre + init, c, j);
      NeverGiven(v, pre, init, j, o);
      assert c in rest;
    }
  }

  /** A claimant loses the slot when a claim that contests it, and that it does not come after, arrives first. */
  lemma CanLose(v: View, cs: seq<Claim>, j: nat, w: Claim, x: Claim) returns (ds: seq<Claim>)
    requires OneEach(v, cs) && j < |v.slots| && w in cs && x in cs && x != w && Contests(v, x, j)
    requires j in w.slots ==> x.sender in v.epochs && Defended(v, x) >= w.epoch
    ensures SameClaims(cs, ds) && Known(v, ds) && ProcessAll(v, ds).slots[j] != Some(w.sender)
  {
    hide ProcessAll;
    ds := [x, w] + Others(cs, w);
    SameOneEach(v, cs, ds);
    assert OneEach(v, [x, w]);
    TwoFirst(v, x, w, j);
    NeverGiven(v, [x, w], Others(cs, w), j, Some(w.sender));
  }

  /** The first claim that contests a slot has it. */
  lemma OneFirst(v: View, x: Claim, j: nat)
    requires ValidView(v) && x.sender in v.epochs && j < |v.slots| && Contests(v, x, j)
    ensures ProcessAll(v, [x]).slots[j] == Some(x.sender)
  {
    hide ProcessAll;
    OneMore(v, [x], [], x, j);
    ProcessNone(v);
  }

  lemma TwoFirst(v: View, x: Claim, w: Claim, j: nat)
    requires OneEach(v, [x, w]) && x.sender != w.sender && j < |v.slots| && Contests(v, x, j)
    requires j in w.slots ==> x.sender in v.epochs && Defended(v, x) >= w.epoch
    ensures Known(v, [x, w]) && ProcessAll(v, [x, w]).slots[j] == Some(x.sender)
  {
    hide ProcessAll, Contests;
    assert x in [x, w] && w in [x, w];
    OneFirst(v, x, j);
    assert [x, w] == [x] + [w];
    OneMore(v, [x, w], [x], w, j);
    OwnerEpoch(v, [x], x.sender);
    assert x in [x];
  }

  /** A prior owner that does not claim the slot above its own epoch loses it when a challenger arrives first. */
  lemma PriorCanLose(v: View, cs: seq<Claim>, j: nat, x: Claim) returns (ds: seq<Claim>)
    requires OneEach(v, cs) && j < |v.slots| && x in cs && Above(v, x, j) && v.slots[j] != Some(x.sender)
    requires forall c :: c in cs && v.slots[j] == Some(c.sender) ==> !Above(v, c, j)
    ensures SameClaims(cs, ds) && Known(v, ds) && ProcessAll(v, ds).slots[j] != v.slots[j]
  {
    hide ProcessAll;
    if w :| w in cs && v.slots[j] == Some(w.sender) {
      ds := CanLose(v, cs, j, w, x);
    } else {
      ds := [x] + cs;
      SameOneEach(v, cs, ds);
      OneFirst(v, x, j);
      OneEachKnown(v, [x]);
      NeverGiven(v, [x], cs, j, v.slots[j]);
    }
  }

  /** The two sequences end in the same table. */
  ghost predicate SameOutcome(v: View, cs: seq<Claim>, ds: seq<Claim>) {
    Known(v, cs) && Known(v, ds) && ProcessAll(v, ds).slots == ProcessAll(v, cs).slots
  }

  /** Convergence, exactly: all sequences of the same claims, in any order and with any repeats, end in the same
      table if and only if every slot is decided. */
  lemma ClaimsConverge(v: View, cs: seq<Claim>)
    requires OneEach(v, cs)
    ensures (forall ds :: SameClaims(cs, ds) ==> SameOutcome(v, cs, ds)) <==> (forall j :: 0 <= j < |v.slots| ==> Decided(v, cs, j))
  {
    hide ProcessAll, OneEach, Decided;
    OneEachKnown(v, cs);
    if forall j :: 0 <= j < |v.slots| ==> Decided(v, cs, j) {
      forall ds | SameClaims(cs, ds) ensures SameOutcome(v, cs, ds) {
        SameOneEach(v, cs, ds);
        forall j | 0 <= j < |v.slots| ensures ProcessAll(v, ds).slots[j] == ProcessAll(v, cs).slots[j] {
          SlotSettles(v, cs, ds, j);
        }
      }
    }
    if forall ds :: SameClaims(cs, ds) ==> SameOutcome(v, cs, ds) {
      forall j | 0 <= j < |v.slots| ensures Decided(v, cs, j) {
        MustBeDecided(v, cs, j);
      }
    }
  }

  lemma MustBeDecided(v: View, cs: seq<Claim>, j: nat)
    requires OneEach(v, cs) && j < |v.slots|
    requires forall ds :: SameClaims(cs, ds) ==> SameOutcome(v, cs, ds)
    ensures Decided(v, cs, j)
  {
    hide ProcessAll, OneEach, Above;
    OwnerAfter(v, cs, j);
    if !Unchallenged(v, cs, j) {
      if w :| w in cs && Above(v, w, j) && ProcessAll(v, cs).slots[j] == Some(w.sender) {
        MustLead(v, cs, j, w);
      } else {
        var x :| x in cs && Above(v, x, j) && v.slots[j] != Some(x.sender);
        var ds := PriorCanLose(v, cs, j, x);
        assert false;
      }
    }
  }

  lemma MustLead(v: View, cs: seq<Claim>, j: nat, w: Claim)
    requires OneEach(v, cs) && j < |v.slots| && w in cs && Above(v, w, j)
    requires forall ds :: SameClaims(cs, ds) ==> SameOutcome(v, cs, ds)
    requires Known(v, cs) && ProcessAll(v, cs).slots[j] == Some(w.sender)
    ensures Leads(v, cs, j, w)
  {
    hide ProcessAll, Above;
    if !Leads(v, cs, j, w) {
      var x :| x in cs && x != w && Contests(v, x, j) && Defended(v, x) >= w.epoch;
      var ds := CanLose(v, cs, j, w, x);
      assert false;
    }
  }

  // ---------------------------------------------------------------- when every slot is decided

  lemma {:induction false} HighestAbove(v: View, cs: seq<Claim>, j: nat) returns (w: Claim)
    requires ValidView(v) && j < |v.slots| && exists x :: x in cs && Above(v, x, j)
    ensures w in cs && Above(v, w, j) && forall x :: x in cs && Above(v, x, j) ==> x.epoch <= w.epoch
    decreases |cs|
  {
    hide Above;
    var init, c := cs[..|cs| - 1], cs[|cs| - 1];
    assert cs == init + [c];
    InInit(cs, init, c);
    if exists x :: x in init && Above(v, x, j) {
      w := HighestAbove(v, init, j);
      if Above(v, c, j) && w.epoch < c.epoch { w := c; }
    } else {
      w := c;
    }
  }

  /** Claims with different epochs, from masters not known at a later epoch than they claim with, decide every
      slot that its prior owner, if it says anything, still claims. */
  lemma FreshClaimsDecide(v: View, cs: seq<Claim>, j: nat)
    requires OneEach(v, cs) && j < |v.slots|
    requires forall c :: c in cs ==> c.sender in v.epochs && v.epochs[c.sender] <= c.epoch
    requires forall c, d :: c in cs && d in cs && c.epoch == d.epoch ==> c == d
    requires forall c :: c in cs && v.slots[j] == Some(c.sender) ==> j in c.slots
    ensures Decided(v, cs, j)
  {
    if !Unchallenged(v, cs, j) {
      var w := HighestAbove(v, cs, j);
      assert Leads(v, cs, j, w);
    }
  }

  /** The last condition is needed: a master that has given up a slot, and says so at an epoch as late as the claim
      of its successor, keeps the slot if its message arrives first. */
  lemma SilentOwnerBlocks(v: View, a: Claim, b: Claim, j: nat)
    requires OneEach(v, [a, b]) && a.sender != b.sender && j < |v.slots| && v.slots[j] == Some(a.sender) && j !in a.slots
    requires Above(v, b, j) && a.sender in v.epochs && Defended(v, a) >= b.epoch
    ensures Known(v, [a, b]) && ProcessAll(v, [a, b]).slots[j] == Some(a.sender)
    ensures Known(v, [b, a]) && ProcessAll(v, [b, a]).slots[j] == Some(b.sender)
  {
    hide ProcessAll;
    SameOneEach(v, [a, b], [b, a]);
    TwoFirst(v, a, b, j);
    TwoFirst(v, b, a, j);
  }

  /** Two claims already show it: they give the same table in both orders if and only if every slot is
      decided. */
  lemma OrderMatters(v: View, a: Claim, b: Claim)
    requires OneEach(v, [a, b]) && a.sender != b.sender
    ensures SameOutcome(v, [a, b], [b, a]) <==> forall j :: 0 <= j < |v.slots| ==> Decided(v, [a, b], j)
  {
    hide ProcessAll, OneEach, Decided;
    assert SameClaims([a, b], [b, a]);
    SameOneEach(v, [a, b], [b, a]);
    if forall j :: 0 <= j < |v.slots| ==> Decided(v, [a, b], j) {
      ClaimsConverge(v, [a, b]);
    }
    if SameOutcome(v, [a, b], [b, a]) {
      forall j | 0 <= j < |v.slots| ensures Decided(v, [a, b], j) {
        TwoDecide(v, a, b, j);
      }
    }
  }

  lemma TwoDecide(v: View, a: Claim, b: Claim, j: nat)
    requires OneEach(v, [a, b]) && a.sender != b.sender && j < |v.slots| && SameOutcome(v, [a, b], [b, a])
    ensures Decided(v, [a, b], j)
  {
    hide ProcessAll;
    assert a in [a, b] && b in [a, b];
    SameOneEach(v, [a, b], [b, a]);
    if !Decided(v, [a, b], j) {
      assert !Leads(v, [a, b], j, a) && !Leads(v, [a, b], j, b);
      TwoFirst(v, a, b, j);
      TwoFirst(v, b, a, j);
      assert false;
    }
  }

  /** A slot that is not decided although the epochs differ: a master known at epoch 10 claims it with a message
      of epoch 5, and another one with epoch 7. */
  lemma StaleClaimDiverges()
    ensures var v := View([None], map[1 := 10, 2 := 0]);
      var a, b := Claim(1, 5, {0}), Claim(2, 7, {0});
      ValidView(v) && ProcessAll(v, [a, b]).slots != ProcessAll(v, [b, a]).slots
  {
    hide ProcessAll;
    var v := View([None], map[1 := 10, 2 := 0]);
    var a, b := Claim(1, 5, {0}), Claim(2, 7, {0});
    assert Above(v, a, 0) && Above(v, b, 0);
    assert OneEach(v, [a, b]) && OneEach(v, [b, a]);
    TwoFirst(v, a, b, 0);
    TwoFirst(v, b, a, 0);
  }
}
