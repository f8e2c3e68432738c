/** How far the routing table can grow, and which bit positions it clears on the way. */
module RoutingBounds {
  import opened NodeIds
  import opened Sequences
  import opened RoutingSpec
  import opened RoutingInvariants

  /** `cpl` counts the bits shared with the id of this node. */
  ghost predicate SharedWith(cpl: Id -> nat, self: Id) {
    forall id {:trigger CommonPrefix(self, id)} :: cpl(id) == CommonPrefix(self, id)
  }

  lemma SharedBounded(cpl: Id -> nat, self: Id)
    requires SharedWith(cpl, self)
    ensures Bounded(cpl)
  {
    forall id ensures cpl(id) <= BITS {
      assert cpl(id) == CommonPrefix(self, id);
    }
  }

  // ------------------------------------------------------------------------------------------
  // What it takes to exceed n buckets

  ghost predicate Allowed(ok: NodeContact -> bool, ops: seq<Op>) {
    forall op :: op in ops ==> ok(op.contact)
  }

  ghost predicate Crowd(cpl: Id -> nat, ok: NodeContact -> bool, s: set<NodeContact>, k: nat) {
    forall c :: c in s ==> ok(c) && cpl(c.id) >= k
  }

  ghost predicate SomeCrowd(cpl: Id -> nat, ok: NodeContact -> bool, k: nat) {
    exists s :: |s| > BUCKET_SIZE && Crowd(cpl, ok, s, k)
  }

  ghost predicate SomeAt(cpl: Id -> nat, ok: NodeContact -> bool, i: nat) {
    exists c :: ok(c) && cpl(c.id) == i
  }

  ghost predicate SomeBeyond(cpl: Id -> nat, ok: NodeContact -> bool, n: nat) {
    exists c :: ok(c) && cpl(c.id) >= n
  }

  /** Among the allowed contacts there are nine that share n - 1 bits with this node, one for every
      shorter prefix and for that one, and one that shares more. */
  ghost predicate CanExceed(cpl: Id -> nat, ok: NodeContact -> bool, n: nat)
    requires n > 0
  {
    && SomeCrowd(cpl, ok, n - 1)
    && (forall i :: 0 <= i < n ==> SomeAt(cpl, ok, i))
    && SomeBeyond(cpl, ok, n)
  }

  // ------------------------------------------------------------------------------------------
  // It is necessary

  lemma {:induction false} ContactsCount(s: seq<RoutingNode>)
    requires NoDup(s)
    ensures |Contacts(s)| == |s|
  {
    if s == [] {
    } else {
      ContactsCount(s[1..]);
    }
  }

  /** The nine nodes of a bucket that is about to split. */
  ghost predicate SplitNodes(cpl: Id -> nat, ok: NodeContact -> bool, s: seq<RoutingNode>, n: nat)
    requires n > 0
  {
    && |s| == BUCKET_SIZE + 1 && NoDup(s) && Crowd(cpl, ok, Contacts(s), n - 1)
    && Near(cpl, s, n) != [] && Far(cpl, s, n) != []
  }

  lemma SplitNodesSuffice(cpl: Id -> nat, ok: NodeContact -> bool, s: seq<RoutingNode>, n: nat)
    requires n > 0 && SplitNodes(cpl, ok, s, n)
    ensures SomeCrowd(cpl, ok, n - 1) && SomeAt(cpl, ok, n - 1) && SomeBeyond(cpl, ok, n)
  {
    ContactsCount(s);
    HalvesFacts(cpl, s, n);
    var near, far := Near(cpl, s, n)[0].contact, Far(cpl, s, n)[0].contact;
    ContactsMember(Near(cpl, s, n), 0);
    ContactsMember(Far(cpl, s, n), 0);
    assert near in Contacts(s) && far in Contacts(s);
  }

  /** A call that adds a bucket splits the last one. */
  lemma GrowthSplits(cpl: Id -> nat, ok: NodeContact -> bool, clock: nat -> int, t: Table, c: NodeContact,
                     verified: bool)
    returns (s: seq<RoutingNode>)
    requires Bounded(cpl) && Monotone(clock) && TableInv(cpl, ok, clock, t) && ok(c)
    requires |TryAdd(cpl, clock, t, c, verified).buckets| > |t.buckets|
    ensures SplitNodes(cpl, ok, s, |t.buckets|)
    ensures |TryAdd(cpl, clock, t, c, verified).buckets| == |t.buckets| + 1
  {
    var i := BucketOf(cpl, c.id, |t.buckets|);
    var b := t.buckets[i];
    assert BucketOk(b, clock(t.tick)) && Placed(cpl, ok, b, i, |t.buckets|);
    NotKnown(b.nodes, c);
    SplitsOnlyLast(cpl, ok, clock, t, i, c.id);
    var n := Fresh(c, clock(t.tick));
    s := b.nodes + [n];
    SplitHalves(cpl, b.nodes, i, n);
    AppendFacts(b.nodes, n);
    assert Contacts(b.nodes) <= AllContacts(b);
    forall x | x in Contacts(s) ensures ok(x) && cpl(x.id) >= i {
      assert BucketOf(cpl, x.id, |t.buckets|) == i;
    }
  }

  /** A table that exceeds n buckets has seen such contacts. */
  lemma {:induction false} ExceedingNeeds(cpl: Id -> nat, ok: NodeContact -> bool, clock: nat -> int, ops: seq<Op>,
                                          n: nat)
    requires Bounded(cpl) && Monotone(clock) && Allowed(ok, ops) && 0 < n < |Run(cpl, clock, ops).buckets|
    ensures CanExceed(cpl, ok, n)
  {
    hide TryAdd;
    hide Fail;
    if ops == [] {
    } else {
      var before, op := ops[..|ops| - 1], ops[|ops| - 1];
      var t := Run(cpl, clock, before);
      RunInv(cpl, ok, clock, before);
      if |t.buckets| > n {
        ExceedingNeeds(cpl, ok, clock, before, n);
      } else {
        FailAddsNone(cpl, clock, t, op.contact);
        var s := GrowthSplits(cpl, ok, clock, t, op.contact, op.verified);
        SplitNodesSuffice(cpl, ok, s, n);
        if n > 1 {
          ExceedingNeeds(cpl, ok, clock, before, n - 1);
        }
      }
    }
  }

  lemma FailAddsNone(cpl: Id -> nat, clock: nat -> int, t: Table, c: NodeContact)
    requires t.buckets != []
    ensures |Fail(cpl, clock, t, c).buckets| == |t.buckets|
  {
  }

  // ------------------------------------------------------------------------------------------
  // It is sufficient

  /** Verified contacts, added one after the other. */
  ghost function Adds(cs: seq<NodeContact>): (r: seq<Op>)
    ensures |r| == |cs|
    ensures forall op :: op in r ==> op.contact in cs
  {
    if cs == [] then [] else Adds(cs[..|cs| - 1]) + [TryAddNode(cs[|cs| - 1], true)]
  }

  lemma RunAdds(cpl: Id -> nat, clock: nat -> int, cs: seq<NodeContact>, c: NodeContact)
    ensures Run(cpl, clock, Adds(cs + [c])) == TryAdd(cpl, clock, Run(cpl, clock, Adds(cs)), c, true)
  {
    hide TryAdd;
    assert (cs + [c])[..|cs|] == cs;
    assert (Adds(cs) + [TryAddNode(c, true)])[..|cs|] == Adds(cs);
  }

  /** The last of n buckets holds these contacts and no candidates. */
  ghost predicate LastHolds(t: Table, n: nat, cs: seq<NodeContact>) {
    && |t.buckets| == n > 0
    && var b := t.buckets[n - 1];
       && |b.nodes| == |cs| && (forall j :: 0 <= j < |cs| ==> b.nodes[j].contact == cs[j])
       && b.verified == [] && b.unverified == []
  }

  lemma UnknownContact(s: seq<RoutingNode>, c: NodeContact)
    requires forall j :: 0 <= j < |s| ==> s[j].contact != c
    ensures IndexOf(s, c) == |s|
  {
  }

  /** An unknown contact meets a bucket without candidates. */
  lemma TryAddUnknown(cpl: Id -> nat, clock: nat -> int, t: Table, i: nat, c: NodeContact)
    requires t.buckets != [] && i == BucketOf(cpl, c.id, |t.buckets|)
    requires IndexOf(t.buckets[i].nodes, c) == |t.buckets[i].nodes|
    requires t.buckets[i].verified == [] && t.buckets[i].unverified == []
    ensures TryAdd(cpl, clock, t, c, true) == AddNew(cpl, clock, t, i, c, true)
  {
    hide AddNew;
    assert Forgotten(t.buckets[i], c) == t.buckets[i];
    assert t.buckets[i := Forgotten(t.buckets[i], c)] == t.buckets;
  }

  lemma FillStep(cpl: Id -> nat, clock: nat -> int, t: Table, cs: seq<NodeContact>, c: NodeContact)
    requires LastHolds(t, 1, cs) && |cs| < BUCKET_SIZE && c !in cs
    ensures LastHolds(TryAdd(cpl, clock, t, c, true), 1, cs + [c])
  {
    hide TryAdd;
    UnknownContact(t.buckets[0].nodes, c);
    TryAddUnknown(cpl, clock, t, 0, c);
  }

  lemma {:induction false} FillRun(cpl: Id -> nat, clock: nat -> int, cs: seq<NodeContact>)
    requires |cs| <= BUCKET_SIZE && Distinct(cs)
    ensures LastHolds(Run(cpl, clock, Adds(cs)), 1, cs)
  {
    hide TryAdd;
    if cs == [] {
    } else {
      var before, c := cs[..|cs| - 1], cs[|cs| - 1];
      assert before + [c] == cs;
      FillRun(cpl, clock, before);
      RunAdds(cpl, clock, before, c);
      FillStep(cpl, clock, Run(cpl, clock, Adds(before)), before, c);
    }
  }

  lemma {:induction false} NodesContacts(s: seq<RoutingNode>, cs: seq<NodeContact>)
    requires |s| == |cs| && forall j :: 0 <= j < |cs| ==> s[j].contact == cs[j]
    ensures forall c :: c in Contacts(s) <==> c in cs
  {
    if s == [] {
    } else {
      NodesContacts(s[1..], cs[1..]);
      assert cs == [cs[0]] + cs[1..];
    }
  }

  /** The last bucket splits for a contact that shares fewer bits than all of its eight nodes. */
  lemma GrowStep(cpl: Id -> nat, clock: nat -> int, t: Table, cs: seq<NodeContact>, c: NodeContact)
    requires |cs| == BUCKET_SIZE && t.buckets != [] && LastHolds(t, |t.buckets|, cs)
    requires cpl(c.id) == |t.buckets| - 1 < BITS && forall x :: x in cs ==> cpl(x.id) >= |t.buckets|
    ensures LastHolds(TryAdd(cpl, clock, t, c, true), |t.buckets| + 1, cs)
  {
    var i := |t.buckets| - 1;
    var b, n := t.buckets[i], Fresh(c, clock(t.tick));
    NodesContacts(b.nodes, cs);
    AllNear(cpl, b.nodes, SplitBit(i));
    NearAppend(cpl, b.nodes, n, SplitBit(i));
    assert b.nodes + [] == b.nodes;
    assert forall j :: 0 <= j < |cs| ==> cs[j] in cs;
    UnknownContact(b.nodes, c);
    TryAddUnknown(cpl, clock, t, i, c);
    hide TryAdd;
    SplitOff(cpl, clock, t, c, b);
  }

  lemma SplitOff(cpl: Id -> nat, clock: nat -> int, t: Table, c: NodeContact, b: Bucket)
    requires t.buckets != [] && b == t.buckets[|t.buckets| - 1] && |b.nodes| == BUCKET_SIZE
    requires b.verified == [] && b.unverified == []
    requires var k := SplitBit(|t.buckets| - 1);
             && WouldSplit(cpl, b.nodes, |t.buckets| - 1, c.id)
             && Near(cpl, b.nodes + [Fresh(c, clock(t.tick))], k) == b.nodes
    ensures var r := AddNew(cpl, clock, t, |t.buckets| - 1, c, true);
            |r.buckets| == |t.buckets| + 1 && r.buckets[|t.buckets|] == b
  {
    hide WouldSplit;
  }

  lemma {:induction false} GrowRun(cpl: Id -> nat, clock: nat -> int, cs: seq<NodeContact>, xs: seq<NodeContact>)
    requires |cs| == BUCKET_SIZE && Distinct(cs) && |xs| <= BITS
    requires forall x :: x in cs ==> cpl(x.id) >= |xs|
    requires forall i :: 0 <= i < |xs| ==> cpl(xs[i].id) == i
    ensures LastHolds(Run(cpl, clock, Adds(cs + xs)), |xs| + 1, cs)
  {
    hide TryAdd;
    if xs == [] {
      assert cs + xs == cs;
      FillRun(cpl, clock, cs);
    } else {
      var before, x := xs[..|xs| - 1], xs[|xs| - 1];
      assert cs + before + [x] == cs + xs;
      GrowRun(cpl, clock, cs, before);
      RunAdds(cpl, clock, cs + before, x);
      GrowStep(cpl, clock, Run(cpl, clock, Adds(cs + before)), cs, x);
    }
  }

  /** The last bucket splits for a contact that shares more bits than one of its eight nodes. */
  lemma LastSplit(cpl: Id -> nat, clock: nat -> int, t: Table, cs: seq<NodeContact>, y: NodeContact)
    requires |cs| == BUCKET_SIZE && t.buckets != [] && LastHolds(t, |t.buckets|, cs) && |t.buckets| <= BITS
    requires y !in cs && cpl(y.id) >= |t.buckets| && cpl(cs[0].id) == |t.buckets| - 1
    ensures |TryAdd(cpl, clock, t, y, true).buckets| == |t.buckets| + 1
  {
    var i := |t.buckets| - 1;
    var nodes := t.buckets[i].nodes;
    assert forall j :: 0 <= j < |cs| ==> cs[j] in cs;
    UnknownContact(nodes, y);
    TryAddUnknown(cpl, clock, t, i, y);
    hide TryAdd;
    assert nodes[0].contact == cs[0];
    HalvesFacts(cpl, nodes, SplitBit(i));
    assert Far(cpl, nodes, SplitBit(i)) != [];
    assert WouldSplit(cpl, nodes, i, y.id);
    hide WouldSplit;
  }

  lemma DistinctCons(c: NodeContact, cs: seq<NodeContact>)
    requires Distinct(cs) && c !in cs
    ensures Distinct([c] + cs)
  {
    assert forall j :: 0 <= j < |cs| ==> cs[j] in cs && ([c] + cs)[j + 1] == cs[j];
  }

  /** Any k members of a set that is large enough, in some order. */
  lemma {:induction false} Pick(s: set<NodeContact>, k: nat) returns (r: seq<NodeContact>)
    requires k <= |s|
    ensures |r| == k && Distinct(r) && forall c :: c in r ==> c in s
  {
    if k == 0 {
      r := [];
    } else {
      var c :| c in s;
      var rest := Pick(s - {c}, k - 1);
      DistinctCons(c, rest);
      r := [c] + rest;
    }
  }

  lemma {:induction false} OneEach(cpl: Id -> nat, ok: NodeContact -> bool, n: nat) returns (xs: seq<NodeContact>)
    requires forall i :: 0 <= i < n ==> SomeAt(cpl, ok, i)
    ensures |xs| == n && forall i :: 0 <= i < n ==> ok(xs[i]) && cpl(xs[i].id) == i
  {
    if n == 0 {
      xs := [];
    } else {
      var before := OneEach(cpl, ok, n - 1);
      assert SomeAt(cpl, ok, n - 1);
      var x :| ok(x) && cpl(x.id) == n - 1;
      xs := before + [x];
    }
  }

  /** Eight contacts that share n - 1 bits, the first of them no more, without a given one. */
  lemma EightOfThem(cpl: Id -> nat, ok: NodeContact -> bool, n: nat, y: NodeContact) returns (cs: seq<NodeContact>)
    requires n > 0 && SomeCrowd(cpl, ok, n - 1) && SomeAt(cpl, ok, n - 1) && cpl(y.id) >= n
    ensures |cs| == BUCKET_SIZE && Distinct(cs) && y !in cs && cpl(cs[0].id) == n - 1
    ensures forall c :: c in cs ==> ok(c) && cpl(c.id) >= n - 1
  {
    var s :| |s| > BUCKET_SIZE && Crowd(cpl, ok, s, n - 1);
    var f :| ok(f) && cpl(f.id) == n - 1;
    var rest := s - {f} - {y};
    assert |rest| >= 7;
    var seven := Pick(rest, 7);
    DistinctCons(f, seven);
    hide Distinct;
    cs := [f] + seven;
  }

  /** Such contacts take the table beyond n buckets, whatever the clock says. */
  lemma ExceedingRun(cpl: Id -> nat, ok: NodeContact -> bool, clock: nat -> int, n: nat) returns (ops: seq<Op>)
    requires 0 < n <= BITS && CanExceed(cpl, ok, n)
    ensures Allowed(ok, ops) && |Run(cpl, clock, ops).buckets| == n + 1
  {
    var y :| ok(y) && cpl(y.id) >= n;
    assert SomeAt(cpl, ok, n - 1);
    hide Run;
    hide Distinct;
    hide TryAdd;
    var cs := EightOfThem(cpl, ok, n, y);
    var xs := OneEach(cpl, ok, n - 1);
    GrowRun(cpl, clock, cs, xs);
    RunAdds(cpl, clock, cs + xs, y);
    LastSplit(cpl, clock, Run(cpl, clock, Adds(cs + xs)), cs, y);
    ops := Adds(cs + xs + [y]);
    assert forall i :: 0 <= i < |xs| ==> ok(xs[i]);
  }

  // ------------------------------------------------------------------------------------------
  // The theorems

  /** Some run of calls with allowed contacts exceeds n buckets. */
  ghost predicate Exceeds(cpl: Id -> nat, ok: NodeContact -> bool, clock: nat -> int, n: nat) {
    exists ops :: Allowed(ok, ops) && |Run(cpl, clock, ops).buckets| > n
  }

  /** Exactly which contacts take the table beyond n buckets. */
  lemma ExceedsIff(cpl: Id -> nat, ok: NodeContact -> bool, clock: nat -> int, n: nat)
    requires Bounded(cpl) && Monotone(clock) && n > 0
    ensures Exceeds(cpl, ok, clock, n) <==> CanExceed(cpl, ok, n)
  {
    if Exceeds(cpl, ok, clock, n) {
      var ops :| Allowed(ok, ops) && |Run(cpl, clock, ops).buckets| > n;
      ExceedingNeeds(cpl, ok, clock, ops, n);
    }
    if CanExceed(cpl, ok, n) {
      var ops := ExceedingRun(cpl, ok, clock, n);
    }
  }

  /** How many bit positions, from the first one on, a call for this id clears.  The greatest one is
      `Touched - 1`, and there are positions 0 to 159. */
  ghost function Touched(cpl: Id -> nat, t: Table, id: Id): nat
    requires t.buckets != []
  {
    BucketOf(cpl, id, |t.buckets|) + 1
  }

  ghost predicate InRange(cpl: Id -> nat, clock: nat -> int, ops: seq<Op>, id: Id) {
    Touched(cpl, Run(cpl, clock, ops), id) <= BITS
  }

  /** Calls with allowed contacts clear no position beyond the id, over all runs, if and only if the
      allowed contacts cannot make 161 buckets; then neither does a search for any target. */
  lemma PositionsInRange(cpl: Id -> nat, ok: NodeContact -> bool, clock: nat -> int)
    requires Bounded(cpl) && Monotone(clock)
    ensures (forall ops, c :: Allowed(ok, ops) && ok(c) ==> InRange(cpl, clock, ops, c.id)) <==>
            !CanExceed(cpl, ok, BITS)
    ensures (forall ops, id :: Allowed(ok, ops) ==> InRange(cpl, clock, ops, id)) <==> !CanExceed(cpl, ok, BITS)
  {
    if CanExceed(cpl, ok, BITS) {
      var ops := ExceedingRun(cpl, ok, clock, BITS);
      var c :| ok(c) && cpl(c.id) >= BITS;
      assert !InRange(cpl, clock, ops, c.id);
    } else {
      forall ops, id | Allowed(ok, ops) ensures InRange(cpl, clock, ops, id) {
        if |Run(cpl, clock, ops).buckets| > BITS {
          ExceedingNeeds(cpl, ok, clock, ops, BITS);
        }
      }
    }
  }

  // ------------------------------------------------------------------------------------------
  // With one endpoint per id, no more than 158 buckets

  ghost predicate OneEndpoint(endpointOf: Id -> nat, c: NodeContact) {
    c.endpoint == endpointOf(c.id)
  }

  ghost function IdsOf(s: set<NodeContact>): set<Id> {
    set c | c in s :: c.id
  }

  lemma {:induction false} IdsCount(s: set<NodeContact>, endpointOf: Id -> nat)
    requires forall c :: c in s ==> OneEndpoint(endpointOf, c)
    ensures |IdsOf(s)| == |s|
  {
    if s == {} {
    } else {
      var c :| c in s;
      IdsCount(s - {c}, endpointOf);
      assert IdsOf(s) == IdsOf(s - {c}) + {c.id};
      assert forall x :: x in s && x.id == c.id ==> x == c;
    }
  }

  /** More than eight ids cannot share more than 156 bits. */
  lemma NineNeedFourBits(self: Id, ids: set<Id>, k: nat)
    requires k <= BITS && |ids| > BUCKET_SIZE && forall id :: id in ids ==> SharePrefix(self, id, k)
    ensures k <= 156
  {
    PrefixCrowd(self, ids, k);
    assert Pow2(3) == 8;
    if k > 156 {
      Pow2Monotone(BITS - k, 3);
    }
  }

  /** If an id always comes with the same endpoint, the table never exceeds 158 buckets. */
  lemma BucketBound(self: Id, cpl: Id -> nat, endpointOf: Id -> nat, clock: nat -> int, ops: seq<Op>)
    requires SharedWith(cpl, self) && Monotone(clock)
    requires forall op :: op in ops ==> OneEndpoint(endpointOf, op.contact)
    ensures |Run(cpl, clock, ops).buckets| <= 158
  {
    SharedBounded(cpl, self);
    var ok := x => OneEndpoint(endpointOf, x);
    if |Run(cpl, clock, ops).buckets| > 158 {
      ExceedingNeeds(cpl, ok, clock, ops, 158);
      var s :| |s| > BUCKET_SIZE && Crowd(cpl, ok, s, 157);
      IdsCount(s, endpointOf);
      forall id | id in IdsOf(s) ensures SharePrefix(self, id, 157) {
        assert cpl(id) == CommonPrefix(self, id);
      }
      NineNeedFourBits(self, IdsOf(s), 157);
    }
  }

  // ------------------------------------------------------------------------------------------
  // Without that, position 160

  /** The id that differs from `self` first at bit k. */
  ghost function Sibling(self: Id, k: nat): Id {
    if k < BITS then SetBit(self, k, !Bit(self, k)) else self
  }

  lemma SiblingPrefix(self: Id, k: nat)
    requires k <= BITS
    ensures CommonPrefix(self, Sibling(self, k)) == k
  {
  }

  lemma {:induction false} ManySelves(self: Id, k: nat) returns (s: set<NodeContact>)
    ensures |s| == k && forall c :: c in s ==> c.id == self && c.endpoint < k
  {
    if k == 0 {
      s := {};
    } else {
      s := ManySelves(self, k - 1);
      s := s + {NodeContact(self, k - 1)};
    }
  }

  /** If any contact is allowed, also ones that reuse this node's own id with different endpoints, then
      some run clears position 160, one beyond the last. */
  lemma PositionBeyond(self: Id, cpl: Id -> nat, clock: nat -> int) returns (ops: seq<Op>, c: NodeContact)
    requires SharedWith(cpl, self) && Monotone(clock)
    ensures |Run(cpl, clock, ops).buckets| == BITS + 1 && Touched(cpl, Run(cpl, clock, ops), c.id) == BITS + 1
  {
    var ok := (_: NodeContact) => true;
    var s := ManySelves(self, 9);
    forall i | 0 <= i <= BITS ensures SomeAt(cpl, ok, i) {
      SiblingPrefix(self, i);
      assert cpl(Sibling(self, i)) == CommonPrefix(self, Sibling(self, i));
      assert ok(NodeContact(Sibling(self, i), 0)) && cpl(NodeContact(Sibling(self, i), 0).id) == i;
    }
    SiblingPrefix(self, BITS);
    assert cpl(self) == CommonPrefix(self, self) == BITS;
    assert Crowd(cpl, ok, s, BITS - 1);
    c := NodeContact(self, 0);
    assert ok(c) && cpl(c.id) >= BITS;
    ops := ExceedingRun(cpl, ok, clock, BITS);
  }
}
