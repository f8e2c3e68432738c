/** The routing table as the source runs it: loops over buckets, node vectors and candidate queues
    that change in place.  Every method is proved to do what `RoutingSpec` says, and every method
    keeps the invariant of `RoutingInvariants`. */
module RoutingTables {
  import opened NodeIds
  import opened Options
  import opened Sequences
  import opened RoutingSpec
  import opened RoutingInvariants
  import opened RoutingEffects
  import opened RoutingBounds
  import opened RoutingClosest

  ghost function AnyContact(): NodeContact -> bool {
    _ => true
  }

  /** `set_bit(n, false)`.  A position beyond the last one is outside the buffer; the id stays as it is,
      and only the count of positions tells. */
  function Cleared(id: Id, n: nat): (r: Id)
    ensures forall m :: 0 <= m < BITS ==> Bit(r, m) == (m != n && Bit(id, m))
  {
    if n < BITS then SetBit(id, n, false) else id
  }

  /** `RoutingTable::max_distance`: k zero bits followed by ones.  `touched` counts the positions, from
      the first one on, that have been cleared. */
  method MaxDistance(k: nat) returns (r: Id, ghost touched: nat)
    ensures forall n :: 0 <= n < BITS ==> Bit(r, n) == (n >= k)
    ensures touched == k
  {
    r, touched := MaxId(), 0;
    for i := 0 to k
      invariant forall n :: 0 <= n < BITS ==> Bit(r, n) == (n >= i)
      invariant touched == i
    {
      r, touched := Cleared(r, i), i + 1;
    }
  }

  /** `(id ^ self) <= max`, where `max` is the largest distance of bucket k. */
  method WithinDistance(self: Id, id: Id, max: Id, ghost k: nat, ghost cpl: Id -> nat) returns (r: bool)
    requires SharedWith(cpl, self) && forall n :: 0 <= n < BITS ==> Bit(max, n) == (n >= k)
    ensures r <==> cpl(id) >= Min(k, BITS)
  {
    DistanceSymmetric(self, id);
    MaxDistanceMeaning(self, id, max, Min(k, BITS));
    assert cpl(id) == CommonPrefix(self, id);
    var less := Less(max, Xor(id, self));
    r := !less;
  }

  /** `move_elements` with the predicate of `split_bucket`. */
  method MoveElements(self: Id, from: seq<RoutingNode>, max: Id, ghost k: nat, ghost cpl: Id -> nat)
    returns (kept: seq<RoutingNode>, moved: seq<RoutingNode>)
    requires SharedWith(cpl, self) && k <= BITS && forall n :: 0 <= n < BITS ==> Bit(max, n) == (n >= k)
    ensures kept == Far(cpl, from, k) && moved == Near(cpl, from, k)
  {
    kept, moved := from, [];
    var i := 0;
    while i < |kept|
      invariant 0 <= i <= |kept|
      invariant kept[..i] + Far(cpl, kept[i..], k) == Far(cpl, from, k)
      invariant moved + Near(cpl, kept[i..], k) == Near(cpl, from, k)
      decreases |kept| - i
    {
      var near := WithinDistance(self, kept[i].contact.id, max, k, cpl);
      HalvesStep(cpl, kept, i, k);
      hide Near;
      hide Far;
      Assoc(moved, [kept[i]], Near(cpl, kept[i + 1..], k));
      Assoc(kept[..i], [kept[i]], Far(cpl, kept[i + 1..], k));
      if near {
        moved := moved + [kept[i]];
        kept := kept[..i] + kept[i + 1..];
      } else {
        i := i + 1;
      }
    }
    assert kept[i..] == [] && kept[..i] == kept;
  }

  lemma HalvesStep(cpl: Id -> nat, s: seq<RoutingNode>, i: nat, k: nat)
    requires i < |s|
    ensures var near := cpl(s[i].contact.id) >= k;
            && Near(cpl, s[i..], k) == (if near then [s[i]] + Near(cpl, s[i + 1..], k) else Near(cpl, s[i + 1..], k))
            && Far(cpl, s[i..], k) == (if near then Far(cpl, s[i + 1..], k) else [s[i]] + Far(cpl, s[i + 1..], k))
    ensures (s[..i] + s[i + 1..])[i..] == s[i + 1..] && (s[..i] + s[i + 1..])[..i] == s[..i]
    ensures s[..i + 1] == s[..i] + [s[i]]
  {
  }

  /** `erase_if` by contact. */
  method EraseContact(s: seq<RoutingNode>, c: NodeContact) returns (r: seq<RoutingNode>)
    ensures r == Without(s, c)
  {
    r := [];
    for i := 0 to |s|
      invariant r + Without(s[i..], c) == Without(s, c)
    {
      assert s[i..][1..] == s[i + 1..];
      if s[i].contact != c {
        r := r + [s[i]];
      }
    }
    assert s[|s|..] == [];
  }

  method FindContact(s: seq<RoutingNode>, c: NodeContact) returns (i: nat)
    ensures i == IndexOf(s, c)
  {
    i := 0;
    while i < |s| && s[i].contact != c
      invariant i <= |s|
      invariant i + IndexOf(s[i..], c) == IndexOf(s, c)
    {
      assert s[i..][1..] == s[i + 1..];
      i := i + 1;
    }
  }

  /** The two loops that trim the queues; neither ever pops from an empty queue. */
  method TrimCandidates(b: Bucket, questionable: nat) returns (r: Bucket)
    ensures r == Trim(b, questionable)
  {
    var v, u := b.verified, b.unverified;
    while |v| > questionable
      invariant DropTo(v, questionable) == DropTo(b.verified, questionable)
    {
      v := v[1..];
    }
    while |v| + |u| > questionable
      invariant |v| <= questionable
      invariant DropTo(u, questionable - |v|) == DropTo(b.unverified, questionable - |v|)
    {
      u := u[1..];
    }
    r := b.(verified := v, unverified := u);
  }

  /** Insertion of a promoted candidate by time; it is lost if no node was heard from later. */
  method PromoteInto(s: seq<RoutingNode>, n: RoutingNode) returns (r: seq<RoutingNode>)
    ensures r == Promote(s, n)
  {
    for i := 0 to |s|
      invariant s[..i] + Promote(s[i..], n) == Promote(s, n)
    {
      Assoc(s[..i], [n], s[i..]);
      if s[i].recvTime > n.recvTime {
        return s[..i] + [n] + s[i..];
      }
      assert s[i..][1..] == s[i + 1..] && s[..i + 1] == s[..i] + [s[i]];
      Assoc(s[..i], [s[i]], Promote(s[i + 1..], n));
    }
    assert s[..|s|] == s;
    return s;
  }

  lemma PingStep(nodes: seq<RoutingNode>, i: nat, clock: nat -> int, tick: nat)
    requires i < |nodes|
    ensures var q := IsQuestionable(nodes[i], clock(tick));
            && CountQuestionable(nodes[i..], clock, tick) ==
               (if q then 1 else 0) + CountQuestionable(nodes[i + 1..], clock, tick + 1)
            && Marked(nodes[i..], clock, tick) ==
               [if q then nodes[i].(pingOngoing := true) else nodes[i]] + Marked(nodes[i + 1..], clock, tick + 1)
            && Pinged(nodes[i..], clock, tick) ==
               (if q && !nodes[i].pingOngoing then [nodes[i].contact] + Pinged(nodes[i + 1..], clock, tick + 1)
                else Pinged(nodes[i + 1..], clock, tick + 1))
  {
  }

  /** Marks every questionable node as being pinged, and pings those that were not; the i-th node is
      asked at the i-th clock reading from `tick` on. */
  method PingLoop(nodes: seq<RoutingNode>, clock: nat -> int, tick: nat)
    returns (r: seq<RoutingNode>, count: nat, sent: seq<NodeContact>)
    ensures r == Marked(nodes, clock, tick) && count == CountQuestionable(nodes, clock, tick)
    ensures sent == Pinged(nodes, clock, tick)
  {
    hide Marked;
    hide CountQuestionable;
    hide Pinged;
    hide IsQuestionable;
    PingEnd(nodes, clock, tick);
    r, count, sent := [], 0, [];
    Assoc(Marked(nodes, clock, tick), [], []);
    Assoc(Pinged(nodes, clock, tick), [], []);
    for i := 0 to |nodes|
      invariant r + Marked(nodes[i..], clock, tick + i) == Marked(nodes, clock, tick)
      invariant count + CountQuestionable(nodes[i..], clock, tick + i) == CountQuestionable(nodes, clock, tick)
      invariant sent + Pinged(nodes[i..], clock, tick + i) == Pinged(nodes, clock, tick)
    {
      PingStep(nodes, i, clock, tick + i);
      var n := nodes[i];
      if IsQuestionable(n, clock(tick + i)) {
        count := count + 1;
        if !n.pingOngoing {
          Assoc(sent, [n.contact], Pinged(nodes[i + 1..], clock, tick + i + 1));
          sent := sent + [n.contact];
          n := n.(pingOngoing := true);
        }
      }
      Assoc(r, [n], Marked(nodes[i + 1..], clock, tick + i + 1));
      r := r + [n];
    }
    PingEnd(nodes, clock, tick + |nodes|);
    Assoc(r, [], []);
    Assoc(sent, [], []);
  }

  lemma PingEnd(nodes: seq<RoutingNode>, clock: nat -> int, tick: nat)
    ensures nodes[0..] == nodes && nodes[|nodes|..] == []
    ensures Marked([], clock, tick) == [] && CountQuestionable([], clock, tick) == 0 && Pinged([], clock, tick) == []
  {
  }

  /** So far `output` has been taken from `all`, and `rest` is still to come unless it is done. */
  ghost predicate Progress(all: seq<NodeContact>, output: seq<NodeContact>, rest: seq<NodeContact>, count: nat,
                           done: bool) {
    if done then output == FirstOf(all, count) else |output| < count && all == output + rest
  }

  lemma ProgressStep(all: seq<NodeContact>, output: seq<NodeContact>, next: seq<NodeContact>, rest: seq<NodeContact>,
                     count: nat)
    requires Progress(all, output, next + rest, count, false)
    ensures var r := FirstOf(output + next, count); Progress(all, r, rest, count, |r| == count)
  {
  }

  /** Appends the contacts of one bucket until there are `count` of them. */
  method AppendNodes(output: seq<NodeContact>, nodes: seq<RoutingNode>, count: nat)
    returns (r: seq<NodeContact>, done: bool)
    requires |output| < count
    ensures r == FirstOf(output + ContactList(nodes), count) && (done <==> |r| == count)
  {
    hide FirstOf;
    hide ContactList;
    r, done := output, false;
    ghost var all := output + ContactList(nodes);
    for i := 0 to |nodes|
      invariant |r| == |output| + i < count && forall j :: 0 <= j < |r| ==> r[j] == all[j]
    {
      r := r + [nodes[i].contact];
      if |r| >= count {
        FirstOfMeaning(all, r, count);
        return r, true;
      }
    }
    FirstOfMeaning(all, r, count);
  }

  class RoutingTable {
    const nodeId: Id
    const clock: nat -> int
    ghost const cpl: Id -> nat
    var buckets: seq<Bucket>
    var tick: nat
    var pings: seq<NodeContact>

    ghost function State(): Table
      reads this
    {
      Table(buckets, tick, pings)
    }

    ghost predicate Valid()
      reads this
    {
      SharedWith(cpl, nodeId) && Monotone(clock) && TableInv(cpl, AnyContact(), clock, State())
    }

    constructor (nodeId: Id, clock: nat -> int)
      requires Monotone(clock)
      ensures Valid() && this.nodeId == nodeId && this.clock == clock && State() == Empty(0)
    {
      this.nodeId, this.clock := nodeId, clock;
      this.cpl := id => CommonPrefix(nodeId, id);
      buckets, tick, pings := [EMPTY_BUCKET], 0, [];
      new;
      RunInv(cpl, AnyContact(), clock, []);
    }

    method Now() returns (t: int)
      modifies this`tick
      ensures t == clock(old(tick)) && tick == old(tick) + 1
    {
      t := clock(tick);
      tick := tick + 1;
    }

    method SendPing(c: NodeContact)
      modifies this`pings
      ensures pings == old(pings) + [c]
    {
      pings := pings + [c];
    }

    method WouldSplitBucket(i: nat, id: Id) returns (r: bool, ghost touched: nat)
      requires SharedWith(cpl, nodeId) && i < |buckets|
      ensures r <==> WouldSplit(cpl, buckets[i].nodes, i, id)
      ensures i <= touched <= i + 1
    {
      var max;
      max, touched := MaxDistance(i);
      var within := WithinDistance(nodeId, id, max, i, cpl);
      if !within {
        return false, touched;
      }
      var nodes := buckets[i].nodes;
      if |nodes| < BUCKET_SIZE {
        return false, touched;
      }
      var half;
      half, touched := MaxDistance(i + 1);
      var cnt := 0;
      within := WithinDistance(nodeId, id, half, i + 1, cpl);
      if within {
        cnt := cnt + 1;
      }
      ghost var base := cnt;
      ghost var k := SplitBit(i);
      for j := 0 to |nodes|
        invariant cnt + |Near(cpl, nodes[j..], k)| == base + |Near(cpl, nodes, k)|
      {
        assert nodes[j..][1..] == nodes[j + 1..];
        within := WithinDistance(nodeId, nodes[j].contact.id, half, i + 1, cpl);
        if within {
          cnt := cnt + 1;
        }
      }
      return 0 < cnt <= BUCKET_SIZE, touched;
    }

    method FindBucketId(id: Id) returns (r: nat, ghost touched: nat)
      requires SharedWith(cpl, nodeId) && 0 < |buckets| <= BITS + 1
      ensures r == BucketOf(cpl, id, |buckets|)
      ensures touched == Touched(cpl, State(), id)
    {
      assert cpl(id) == CommonPrefix(nodeId, id);
      var max := MaxId();
      r, touched := 0, 0;
      for i := 0 to |buckets|
        invariant forall n :: 0 <= n < BITS ==> Bit(max, n) == (n >= i)
        invariant r == (if i == 0 then 0 else i - 1) && r <= cpl(id) && touched == i
      {
        var within := WithinDistance(nodeId, id, max, i, cpl);
        if !within {
          return;
        }
        max, touched := Cleared(max, i), i + 1;
        r := i;
      }
    }

    method SplitBucket(i: nat) returns (ghost touched: nat)
      requires SharedWith(cpl, nodeId) && i + 1 == |buckets|
      modifies this`buckets
      ensures touched == i + 1
      ensures Table(buckets, tick, pings) == SplitTable(cpl, old(State()), i, old(buckets[i]))
    {
      var max;
      max, touched := MaxDistance(i + 1);
      ghost var k := SplitBit(i);
      var nodes, newNodes := MoveElements(nodeId, buckets[i].nodes, max, k, cpl);
      var verified, newVerified := MoveElements(nodeId, buckets[i].verified, max, k, cpl);
      var unverified, newUnverified := MoveElements(nodeId, buckets[i].unverified, max, k, cpl);
      buckets := buckets[i := Bucket(nodes, verified, unverified)] + [Bucket(newNodes, newVerified, newUnverified)];
    }

    method FindClosest(target: Id, count: nat) returns (output: seq<NodeContact>, ghost touched: nat)
      requires Valid()
      ensures output == Closest(cpl, buckets, target, count)
      ensures touched == if count == 0 then 0 else Touched(cpl, State(), target)
    {
      if count == 0 {
        return [], 0;
      }
      var b;
      b, touched := FindBucketId(target);
      output := CollectFrom(b, count);
    }

    method CollectFrom(b: nat, count: nat) returns (output: seq<NodeContact>)
      requires b < |buckets| && count > 0
      ensures output == FirstOf(Visited(buckets, b), count)
    {
      output := [];
      ghost var all, below := Visited(buckets, b), Downward(buckets, b);
      var done := false;
      var i := b;
      while i < |buckets| && !done
        invariant b <= i <= |buckets|
        invariant Progress(all, output, Upward(buckets, i) + below, count, done)
      {
        assert Upward(buckets, i) + below == ContactList(buckets[i].nodes) + (Upward(buckets, i + 1) + below);
        ProgressStep(all, output, ContactList(buckets[i].nodes), Upward(buckets, i + 1) + below, count);
        output, done := AppendNodes(output, buckets[i].nodes, count);
        i := i + 1;
      }
      assert i == |buckets| ==> Upward(buckets, i) + below == below;
      var j := b;
      while j > 0 && !done
        invariant 0 <= j <= b
        invariant Progress(all, output, Downward(buckets, j), count, done)
      {
        j := j - 1;
        ProgressStep(all, output, ContactList(buckets[j].nodes), Downward(buckets, j), count);
        output, done := AppendNodes(output, buckets[j].nodes, count);
      }
      assert j == 0 ==> Downward(buckets, j) == [] && output + [] == output;
    }

    // ----------------------------------------------------------------------------------------
    // Loops that ask the clock

    method FirstBadNode(nodes: seq<RoutingNode>) returns (i: nat)
      modifies this`tick
      ensures i == FirstBad(nodes, clock, old(tick))
      ensures tick == old(tick) + if i < |nodes| then i + 1 else i
    {
      i := 0;
      while i < |nodes|
        invariant i <= |nodes| && tick == old(tick) + i
        invariant i + FirstBad(nodes[i..], clock, tick) == FirstBad(nodes, clock, old(tick))
      {
        assert nodes[i..][1..] == nodes[i + 1..];
        var now := Now();
        if !IsGood(nodes[i], now) {
          return;
        }
        i := i + 1;
      }
    }

    method PingQuestionable(nodes: seq<RoutingNode>) returns (r: seq<RoutingNode>, count: nat)
      modifies this`tick, this`pings
      ensures r == Marked(nodes, clock, old(tick)) && count == CountQuestionable(nodes, clock, old(tick))
      ensures tick == old(tick) + |nodes| && pings == old(pings) + Pinged(nodes, clock, old(tick))
    {
      var sent;
      r, count, sent := PingLoop(nodes, clock, tick);
      tick, pings := tick + |nodes|, pings + sent;
    }

    method CountQuestionableNodes(nodes: seq<RoutingNode>) returns (count: nat)
      modifies this`tick
      ensures count == CountQuestionable(nodes, clock, old(tick)) && tick == old(tick) + |nodes|
    {
      count := 0;
      for i := 0 to |nodes|
        invariant tick == old(tick) + i
        invariant count + CountQuestionable(nodes[i..], clock, tick) == CountQuestionable(nodes, clock, old(tick))
      {
        assert nodes[i..][1..] == nodes[i + 1..];
        var now := Now();
        if IsQuestionable(nodes[i], now) {
          count := count + 1;
        }
      }
    }

    method EraseFrontQuestionables(q: seq<RoutingNode>) returns (r: seq<RoutingNode>)
      modifies this`tick
      ensures r == q[QuestionableFront(q, clock, old(tick))..]
      ensures tick == old(tick) + FrontReadings(q, clock, old(tick))
    {
      r := q;
      ghost var n := 0;
      while r != []
        invariant n <= |q| && r == q[n..] && tick == old(tick) + n
        invariant n + QuestionableFront(r, clock, tick) == QuestionableFront(q, clock, old(tick))
        decreases |r|
      {
        var now := Now();
        if !IsQuestionable(r[0], now) {
          return;
        }
        r := r[1..];
        n := n + 1;
      }
    }

    // ----------------------------------------------------------------------------------------
    // try_add_node

    /** The end of `try_add_node`: every node is good, so the contact can only be queued. */
    method QueueCandidate(b: Bucket, c: NodeContact, isVerified: bool, now: int) returns (r: Bucket)
      modifies this`tick, this`pings
      ensures var e := Enqueue(clock, b, old(tick), c, isVerified, now);
              r == e.bucket && tick == e.tick && pings == old(pings) + e.pings
    {
      var nodes, questionable := PingQuestionable(b.nodes);
      r := b.(nodes := nodes);
      if isVerified {
        if questionable > 0 {
          r := r.(verified := r.verified + [Fresh(c, now)]);
        }
      } else {
        var candidate := RoutingNode(c, now, 0, 0, false);
        var verified := EraseFrontQuestionables(r.verified);
        r := r.(verified := verified);
        if |r.verified| < questionable {
          r := r.(unverified := r.unverified + [candidate]);
        }
      }
      r := TrimCandidates(r, questionable);
    }

    /** The part of `try_add_node` for a full bucket that is not split. */
    method ReplaceOrQueue(i: nat, c: NodeContact, isVerified: bool, now: int)
      requires i < |buckets|
      modifies this
      ensures State() == Installed(old(State()), i,
                           ReplaceOrEnqueue(clock, old(buckets[i]), old(tick), c, isVerified, now))
    {
      hide Enqueue;
      hide FirstBad;
      var b := buckets[i];
      var bad := FirstBadNode(b.nodes);
      if bad == |b.nodes| {
        b := QueueCandidate(b, c, isVerified, now);
      } else if isVerified {
        b := b.(nodes := b.nodes[..bad] + b.nodes[bad + 1..] + [Fresh(c, now)]);
      } else {
        SendPing(c);
      }
      buckets := buckets[i := b];
    }

    method TryAddNode(c: NodeContact, isVerified: bool) returns (ghost touched: nat)
      requires Valid()
      modifies this
      ensures Valid() && touched == Touched(cpl, old(State()), c.id)
      ensures State() == TryAdd(cpl, clock, old(State()), c, isVerified)
      ensures AddEffect(cpl, clock, old(State()), c, isVerified, State())
    {
      TryAddMeaning(cpl, clock, State(), c, isVerified);
      hide AddEffect;
      SharedBounded(cpl, nodeId);
      TryAddInv(cpl, AnyContact(), clock, State(), c, isVerified);
      SplitOnlyAtEnd(c);
      hide TableInv;
      hide TryAdd;
      touched := PlaceContact(c, isVerified);
    }

    method PlaceContact(c: NodeContact, isVerified: bool) returns (ghost touched: nat)
      requires SharedWith(cpl, nodeId) && 0 < |buckets| <= BITS + 1
      requires var i := BucketOf(cpl, c.id, |buckets|);
               WouldSplit(cpl, buckets[i].nodes, i, c.id) ==> i + 1 == |buckets|
      modifies this
      ensures touched == Touched(cpl, old(State()), c.id)
      ensures State() == TryAdd(cpl, clock, old(State()), c, isVerified)
    {
      hide AddNew;
      hide WouldSplit;
      hide WithBumped;
      var i;
      i, touched := FindBucketId(c.id);
      var now := Now();
      var known := FindContact(buckets[i].nodes, c);
      if known < |buckets[i].nodes| {
        BumpNode(i, known, isVerified, now);
      } else {
        ForgetCandidate(i, c);
        ghost var more := AddUnknown(i, c, isVerified, now);
        touched := Max(touched, more);
      }
    }

    lemma SplitOnlyAtEnd(c: NodeContact)
      requires Valid()
      ensures var i := BucketOf(cpl, c.id, |buckets|);
              0 < |buckets| <= BITS + 1 && (WouldSplit(cpl, buckets[i].nodes, i, c.id) ==> i + 1 == |buckets|)
    {
      var i := BucketOf(cpl, c.id, |buckets|);
      SharedBounded(cpl, nodeId);
      if WouldSplit(cpl, buckets[i].nodes, i, c.id) {
        SplitsOnlyLast(cpl, AnyContact(), clock, State(), i, c.id);
      }
    }

    method BumpNode(i: nat, known: nat, isVerified: bool, now: int)
      requires i < |buckets| && known < |buckets[i].nodes|
      modifies this`buckets
      ensures buckets == old(buckets)[i := WithBumped(old(buckets[i]), known, now, isVerified)]
    {
      var nodes := buckets[i].nodes;
      var node := nodes[known].(recvTime := now);
      if isVerified {
        node := node.(replyTime := now, queriesFailed := 0, pingOngoing := false);
      }
      buckets := buckets[i := buckets[i].(nodes := nodes[..known] + nodes[known + 1..] + [node])];
    }

    method ForgetCandidate(i: nat, c: NodeContact)
      requires i < |buckets|
      modifies this`buckets
      ensures buckets == old(buckets)[i := Forgotten(old(buckets[i]), c)]
      ensures buckets[i].nodes == old(buckets[i].nodes)
    {
      var verified := EraseContact(buckets[i].verified, c);
      var unverified := EraseContact(buckets[i].unverified, c);
      buckets := buckets[i := buckets[i].(verified := verified, unverified := unverified)];
    }

    /** The rest of `try_add_node`, once the contact is known to be in neither nodes nor queues. */
    method AddUnknown(i: nat, c: NodeContact, isVerified: bool, now: int) returns (ghost touched: nat)
      requires SharedWith(cpl, nodeId) && i < |buckets|
      requires tick > 0 && now == clock(tick - 1)
      requires |buckets[i].nodes| >= BUCKET_SIZE && WouldSplit(cpl, buckets[i].nodes, i, c.id) ==> i + 1 == |buckets|
      modifies this
      ensures touched <= i + 1
      ensures State() == AddNew(cpl, clock, old(State()).(tick := old(tick) - 1), i, c, isVerified)
    {
      hide AddToFull;
      if |buckets[i].nodes| < BUCKET_SIZE {
        AddOrSendPing(i, c, isVerified, now);
        touched := 0;
      } else {
        touched := AddToFullBucket(i, c, isVerified, now);
      }
    }

    method AddToFullBucket(i: nat, c: NodeContact, isVerified: bool, now: int) returns (ghost touched: nat)
      requires SharedWith(cpl, nodeId) && i < |buckets|
      requires tick > 0 && now == clock(tick - 1)
      requires WouldSplit(cpl, buckets[i].nodes, i, c.id) ==> i + 1 == |buckets|
      modifies this
      ensures touched <= i + 1
      ensures State() == AddToFull(cpl, clock, old(State()).(tick := old(tick) - 1), i, c, isVerified)
    {
      hide ReplaceOrEnqueue;
      hide WouldSplit;
      var split;
      split, touched := WouldSplitBucket(i, c.id);
      if !split {
        ReplaceOrQueue(i, c, isVerified, now);
        return;
      }
      AddOrSendPing(i, c, isVerified, now);
      if isVerified {
        ghost var more := SplitBucket(i);
        touched := Max(touched, more);
      }
    }

    method AddOrSendPing(i: nat, c: NodeContact, isVerified: bool, now: int)
      requires i < |buckets|
      modifies this
      ensures State() == Installed(old(State()), i,
                           AddOrPing(old(buckets[i]), WithNode(old(buckets[i]), c, now), c, isVerified, old(tick)))
    {
      if isVerified {
        buckets := buckets[i := buckets[i].(nodes := buckets[i].nodes + [Fresh(c, now)])];
      } else {
        SendPing(c);
        assert buckets[i := buckets[i]] == buckets;
      }
    }

    // ----------------------------------------------------------------------------------------
    // fail_node

    /** Promotes a verified candidate, or takes an unverified one from its queue and pings it. */
    method TakeReplacement(b: Bucket, failed: nat) returns (r: Bucket)
      requires failed < |b.nodes|
      modifies this`pings
      ensures r == Replacement(b, failed)
      ensures pings == old(pings) + if b.verified == [] && b.unverified != [] then [b.unverified[0].contact] else []
    {
      r := b;
      if b.verified != [] {
        var c := b.verified[0].(queriesFailed := 0, pingOngoing := false);
        var nodes := PromoteInto(b.nodes[..failed] + b.nodes[failed + 1..], c);
        r := b.(nodes := nodes, verified := b.verified[1..]);
      } else if b.unverified != [] {
        r := b.(unverified := b.unverified[1..]);
        SendPing(b.unverified[0].contact);
      }
    }

    method AgeQueues(b: Bucket) returns (r: Bucket)
      modifies this`tick
      ensures r == Aged(clock, b, old(tick)).bucket && tick == Aged(clock, b, old(tick)).tick
    {
      var verified := EraseFrontQuestionables(b.verified);
      var unverified := EraseFrontQuestionables(b.unverified);
      r := b.(verified := verified, unverified := unverified);
    }

    /** The part of `fail_node` for a node that has become bad. */
    method ReplaceBad(b: Bucket, failed: nat) returns (r: Bucket)
      requires failed < |b.nodes|
      modifies this`tick, this`pings
      ensures var e := ReplaceFailed(clock, b, failed, old(tick));
              r == e.bucket && tick == e.tick && pings == old(pings) + e.pings
    {
      hide Aged;
      hide Trim;
      hide Replacement;
      hide CountQuestionable;
      r := AgeQueues(b);
      r := TakeReplacement(r, failed);
      var questionable := CountQuestionableNodes(r.nodes);
      r := TrimCandidates(r, questionable);
    }

    method FailNode(c: NodeContact) returns (ghost touched: nat)
      requires Valid()
      modifies this
      ensures Valid() && touched == Touched(cpl, old(State()), c.id)
      ensures State() == Fail(cpl, clock, old(State()), c)
      ensures FailEffect(cpl, clock, old(State()), c, State())
    {
      FailMeaning(cpl, clock, State(), c);
      hide FailEffect;
      FailInv(cpl, AnyContact(), clock, State(), c);
      var i;
      i, touched := FindBucketId(c.id);
      var b := buckets[i];
      var n := FindContact(b.nodes, c);
      if n == |b.nodes| {
        return;
      }
      var node := b.nodes[n].(queriesFailed := b.nodes[n].queriesFailed + 1);
      b := FailedBucket(b, n, node);
      buckets := buckets[i := b];
    }

    /** `fail_node` on the bucket, for a node that was found at index `n`. */
    method FailedBucket(b: Bucket, n: nat, node: RoutingNode) returns (r: Bucket)
      requires n < |b.nodes| && node == b.nodes[n].(queriesFailed := b.nodes[n].queriesFailed + 1)
      modifies this`tick, this`pings
      ensures var e := FailBucket(clock, b, n, old(tick));
              r == e.bucket && tick == e.tick && pings == old(pings) + e.pings
    {
      r := b.(nodes := b.nodes[n := node]);
      var now := Now();
      if IsGood(node, now) {
        now := Now();
        if IsQuestionable(node, now) {
          r := b.(nodes := b.nodes[n := node.(pingOngoing := true)]);
          SendPing(node.contact);
        }
      } else {
        r := ReplaceBad(r, n);
      }
    }
  }
}
