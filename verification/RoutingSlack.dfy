/** The bound on the number of candidates that the comment on `Bucket` states
    (src/bittorrent/routing_table.h), and the one that holds. */
module RoutingSlack {
  import opened NodeIds
  import opened RoutingSpec
  import opened RoutingInvariants
  import opened RoutingCandidates

  ghost function Held(b: Bucket): nat {
    |b.verified| + |b.unverified|
  }

  /** The documented bound: nodes and candidates together do not exceed eight and the questionable nodes. */
  ghost predicate WithinBound(b: Bucket, now: int) {
    |b.nodes| + Held(b) <= BUCKET_SIZE + Questionables(b.nodes, now)
  }

  /** How far the bucket is from the bound. */
  ghost function Slack(b: Bucket, now: int): int {
    BUCKET_SIZE + Questionables(b.nodes, now) - |b.nodes| - Held(b)
  }

  ghost function One(p: bool): int {
    if p then 1 else 0
  }

  /** 1 if a quarter of an hour has passed from one time to the other. */
  ghost function Late(since: int, now: int): int {
    One(since < now - 15 * MINUTE)
  }

  // ------------------------------------------------------------------------------------------
  // Counting questionable nodes

  lemma {:induction false} CountAppended(s: seq<RoutingNode>, n: RoutingNode, now: int)
    ensures Questionables(s + [n], now) == Questionables(s, now) + Late(n.recvTime, now)
  {
    if s == [] {
      assert s + [n] == [n];
    } else {
      CountAppended(s[1..], n, now);
      assert (s + [n])[1..] == s[1..] + [n];
    }
  }

  lemma {:induction false} CountRemoved(s: seq<RoutingNode>, k: nat, now: int)
    requires k < |s|
    ensures Questionables(Remove(s, k), now) == Questionables(s, now) - Late(s[k].recvTime, now)
  {
    if k == 0 {
      assert Remove(s, 0) == s[1..];
    } else {
      CountRemoved(s[1..], k - 1, now);
      assert Remove(s, k)[1..] == Remove(s[1..], k - 1);
    }
  }

  lemma {:induction false} CountLater(s: seq<RoutingNode>, now: int, later: int)
    requires now <= later
    ensures Questionables(s, now) <= Questionables(s, later)
  {
    if s == [] {
    } else {
      CountLater(s[1..], now, later);
    }
  }

  lemma {:induction false} FarAppend(cpl: Id -> nat, s: seq<RoutingNode>, n: RoutingNode, k: nat)
    ensures Far(cpl, s + [n], k) == Far(cpl, s, k) + if cpl(n.contact.id) < k then [n] else []
  {
    if s == [] {
      assert s + [n] == [n];
    } else {
      FarAppend(cpl, s[1..], n, k);
      assert (s + [n])[1..] == s[1..] + [n];
    }
  }

  // ------------------------------------------------------------------------------------------
  // What is left of the slack

  /** After a call with a contact that the bucket does not know, by what the bucket was before. */
  ghost function LeftOfNew(cpl: Id -> nat, clock: nat -> int, b: Bucket, i: nat, tick: nat, op: Op, now: int): int
    requires op.TryAddNode?
  {
    var late := Late(clock(tick), now);
    var bad := FirstBad(b.nodes, clock, tick + 1);
    if !op.verified then Slack(b, now)
    else if |b.nodes| < BUCKET_SIZE then Slack(b, now) - 1 + late
    else if WouldSplit(cpl, b.nodes, i, op.contact.id) then LeftFar(cpl, b, SplitBit(i), op.contact, late, now)
    else if bad < |b.nodes| then Slack(b, now) - Late(b.nodes[bad].recvTime, now) + late
    else Slack(b, now)
  }

  /** The half that stays, with the contact if that is where it belongs. */
  ghost function LeftFar(cpl: Id -> nat, b: Bucket, k: nat, c: NodeContact, late: int, now: int): int {
    Slack(FarHalf(cpl, b, k), now) - if cpl(c.id) < k then 1 - late else 0
  }

  /** The half that becomes a bucket of its own. */
  ghost function LeftNear(cpl: Id -> nat, b: Bucket, k: nat, c: NodeContact, late: int, now: int): int {
    Slack(NearHalf(cpl, b, k), now) - if cpl(c.id) >= k then 1 - late else 0
  }

  /** What a call that does not trim leaves of the slack of its bucket, at a time `now` after it: a
      failure or a ping takes nothing, an added node takes one, and a questionable node that is heard
      from again or replaced takes one; the node then added gives one back once it is questionable. */
  ghost function Left(cpl: Id -> nat, clock: nat -> int, t: Table, op: Op, now: int): int
    requires t.buckets != []
  {
    var i := BucketOf(cpl, op.contact.id, |t.buckets|);
    var b := t.buckets[i];
    var known := IndexOf(b.nodes, op.contact);
    if op.FailNode? then Slack(b, now)
    else if known < |b.nodes| then Slack(b, now) - Late(b.nodes[known].recvTime, now) + Late(clock(t.tick), now)
    else LeftOfNew(cpl, clock, Forgotten(b, op.contact), i, t.tick, op, now)
  }

  /** The call splits the bucket. */
  ghost predicate Splits(cpl: Id -> nat, t: Table, op: Op)
    requires t.buckets != []
  {
    var i := BucketOf(cpl, op.contact.id, |t.buckets|);
    var nodes := t.buckets[i].nodes;
    && op.TryAddNode? && op.verified && IndexOf(nodes, op.contact) == |nodes| >= BUCKET_SIZE
    && WouldSplit(cpl, nodes, i, op.contact.id)
  }

  /** The slack of the bucket that a split adds. */
  ghost function LeftBeyond(cpl: Id -> nat, clock: nat -> int, t: Table, op: Op, now: int): int
    requires t.buckets != []
  {
    var i := BucketOf(cpl, op.contact.id, |t.buckets|);
    LeftNear(cpl, Forgotten(t.buckets[i], op.contact), SplitBit(i), op.contact, Late(clock(t.tick), now), now)
  }

  // ------------------------------------------------------------------------------------------
  // One bucket

  lemma AddedSlack(b: Bucket, c: NodeContact, since: int, now: int)
    ensures Slack(WithNode(b, c, since), now) == Slack(b, now) - 1 + Late(since, now)
  {
    CountAppended(b.nodes, Fresh(c, since), now);
  }

  lemma ExchangedSlack(b: Bucket, k: nat, n: RoutingNode, now: int)
    requires k < |b.nodes|
    ensures Slack(b.(nodes := Remove(b.nodes, k) + [n]), now) ==
            Slack(b, now) - Late(b.nodes[k].recvTime, now) + Late(n.recvTime, now)
  {
    CountRemoved(b.nodes, k, now);
    CountAppended(Remove(b.nodes, k), n, now);
  }

  lemma SplitSlack(cpl: Id -> nat, b: Bucket, k: nat, c: NodeContact, since: int, now: int)
    ensures Slack(FarHalf(cpl, WithNode(b, c, since), k), now) == LeftFar(cpl, b, k, c, Late(since, now), now)
    ensures Slack(NearHalf(cpl, WithNode(b, c, since), k), now) == LeftNear(cpl, b, k, c, Late(since, now), now)
  {
    var n := Fresh(c, since);
    FarAppend(cpl, b.nodes, n, k);
    NearAppend(cpl, b.nodes, n, k);
    CountAppended(Far(cpl, b.nodes, k), n, now);
    CountAppended(Near(cpl, b.nodes, k), n, now);
    assert Far(cpl, b.nodes, k) + [] == Far(cpl, b.nodes, k) && Near(cpl, b.nodes, k) + [] == Near(cpl, b.nodes, k);
  }

  // ------------------------------------------------------------------------------------------
  // One call

  /** The other buckets stay as they are. */
  ghost predicate Elsewhere(t: Table, r: Table, i: nat) {
    |t.buckets| <= |r.buckets| && forall j :: 0 <= j < |t.buckets| && j != i ==> r.buckets[j] == t.buckets[j]
  }

  /** What becomes of the slack when the bucket does not know the contact. */
  ghost predicate Leaves(cpl: Id -> nat, clock: nat -> int, f: Table, r: Table, i: nat, op: Op, now: int)
    requires op.TryAddNode? && i < |f.buckets|
  {
    var b, c := f.buckets[i], op.contact;
    var full, split := |b.nodes| >= BUCKET_SIZE, WouldSplit(cpl, b.nodes, i, c.id);
    var added := full && split && op.verified;
    && Elsewhere(f, r, i) && |r.buckets| == |f.buckets| + (if added then 1 else 0)
    && (!full || split || FirstBad(b.nodes, clock, f.tick + 1) < |b.nodes| ==>
          Slack(r.buckets[i], now) == LeftOfNew(cpl, clock, b, i, f.tick, op, now))
    && (added ==>
          Slack(r.buckets[|f.buckets|], now) == LeftNear(cpl, b, SplitBit(i), c, Late(clock(f.tick), now), now))
  }

  lemma SplittingSlack(cpl: Id -> nat, clock: nat -> int, f: Table, i: nat, op: Op, now: int)
    requires op.TryAddNode? && i < |f.buckets| && |f.buckets[i].nodes| >= BUCKET_SIZE
    requires WouldSplit(cpl, f.buckets[i].nodes, i, op.contact.id)
    ensures Leaves(cpl, clock, f, AddToFull(cpl, clock, f, i, op.contact, op.verified), i, op, now)
  {
    SplitSlack(cpl, f.buckets[i], SplitBit(i), op.contact, clock(f.tick), now);
    hide WouldSplit;
    hide FirstBad;
    hide Slack;
    hide ReplaceOrEnqueue;
    hide FarHalf;
    hide NearHalf;
    hide LeftFar;
    hide LeftNear;
    hide WithNode;
  }

  lemma ReplacingSlack(cpl: Id -> nat, clock: nat -> int, f: Table, i: nat, op: Op, now: int)
    requires op.TryAddNode? && i < |f.buckets| && |f.buckets[i].nodes| >= BUCKET_SIZE
    requires !WouldSplit(cpl, f.buckets[i].nodes, i, op.contact.id)
    ensures Leaves(cpl, clock, f, AddToFull(cpl, clock, f, i, op.contact, op.verified), i, op, now)
  {
    var b := f.buckets[i];
    var bad := FirstBad(b.nodes, clock, f.tick + 1);
    if bad < |b.nodes| {
      ExchangedSlack(b, bad, Fresh(op.contact, clock(f.tick)), now);
    }
    hide WouldSplit;
    hide FirstBad;
    hide Slack;
    hide Enqueue;
    hide SplitTable;
    hide LeftFar;
    hide LeftNear;
    hide Remove;
  }

  lemma AddNewSlack(cpl: Id -> nat, clock: nat -> int, f: Table, i: nat, op: Op, now: int)
    requires op.TryAddNode? && i < |f.buckets|
    ensures Leaves(cpl, clock, f, AddNew(cpl, clock, f, i, op.contact, op.verified), i, op, now)
  {
    var b := f.buckets[i];
    hide WouldSplit;
    hide FirstBad;
    hide AddToFull;
    hide LeftFar;
    hide LeftNear;
    if |b.nodes| < BUCKET_SIZE {
      AddedSlack(b, op.contact, clock(f.tick), now);
    } else if WouldSplit(cpl, b.nodes, i, op.contact.id) {
      SplittingSlack(cpl, clock, f, i, op, now);
    } else {
      ReplacingSlack(cpl, clock, f, i, op, now);
    }
    hide Slack;
    hide WithNode;
  }

  lemma TryAddSlack(cpl: Id -> nat, clock: nat -> int, t: Table, op: Op, now: int)
    requires t.buckets != [] && op.TryAddNode?
    ensures var i, r := BucketOf(cpl, op.contact.id, |t.buckets|), TryAdd(cpl, clock, t, op.contact, op.verified);
            && Elsewhere(t, r, i)
            && (!Trims(cpl, clock, t, op) ==> Slack(r.buckets[i], now) == Left(cpl, clock, t, op, now))
            && |r.buckets| == |t.buckets| + (if Splits(cpl, t, op) then 1 else 0)
            && (Splits(cpl, t, op) ==> Slack(r.buckets[|t.buckets|], now) == LeftBeyond(cpl, clock, t, op, now))
  {
    var i := BucketOf(cpl, op.contact.id, |t.buckets|);
    var b := t.buckets[i];
    var known := IndexOf(b.nodes, op.contact);
    hide WouldSplit;
    hide FirstBad;
    hide AddNew;
    hide LeftOfNew;
    hide LeftNear;
    if known < |b.nodes| {
      ExchangedSlack(b, known, Bumped(b.nodes[known], clock(t.tick), op.verified), now);
    } else {
      var f := t.(buckets := t.buckets[i := Forgotten(b, op.contact)]);
      assert f.buckets[i].nodes == b.nodes;
      AddNewSlack(cpl, clock, f, i, op, now);
    }
    hide Slack;
  }

  lemma FailSlack(cpl: Id -> nat, clock: nat -> int, t: Table, op: Op, now: int)
    requires t.buckets != [] && op.FailNode?
    ensures var i, r := BucketOf(cpl, op.contact.id, |t.buckets|), Fail(cpl, clock, t, op.contact);
            && Elsewhere(t, r, i) && |r.buckets| == |t.buckets|
            && (!Trims(cpl, clock, t, op) ==> Slack(r.buckets[i], now) == Left(cpl, clock, t, op, now))
  {
    var i := BucketOf(cpl, op.contact.id, |t.buckets|);
    var b := t.buckets[i];
    var known := IndexOf(b.nodes, op.contact);
    if known < |b.nodes| {
      SameQuestionables(b.nodes, WithFailed(b, known, false).nodes, now);
      SameQuestionables(b.nodes, WithFailed(b, known, true).nodes, now);
    }
    hide Questionables;
    hide ReplaceFailed;
    hide IsGood;
    hide IsQuestionable;
  }

  /** A call that does not trim leaves exactly `Left` of the slack, and `LeftBeyond` in a bucket that it
      adds; it touches no other bucket. */
  lemma SlackAfter(cpl: Id -> nat, clock: nat -> int, t: Table, op: Op, now: int)
    requires t.buckets != []
    ensures var i, r := BucketOf(cpl, op.contact.id, |t.buckets|), Step(cpl, clock, t, op);
            && Elsewhere(t, r, i)
            && (!Trims(cpl, clock, t, op) ==> Slack(r.buckets[i], now) == Left(cpl, clock, t, op, now))
            && |r.buckets| == |t.buckets| + (if Splits(cpl, t, op) then 1 else 0)
            && (Splits(cpl, t, op) ==> Slack(r.buckets[|t.buckets|], now) == LeftBeyond(cpl, clock, t, op, now))
  {
    hide Trims;
    hide Slack;
    hide Left;
    hide LeftBeyond;
    hide TryAdd;
    hide Fail;
    if op.TryAddNode? {
      TryAddSlack(cpl, clock, t, op, now);
    } else {
      FailSlack(cpl, clock, t, op, now);
    }
  }

  /** The bound after a call, read off the table before it: the bucket is within the bound if and only
      if the call trims or leaves some slack, and so is a bucket that a split adds. */
  lemma WithinBoundIff(cpl: Id -> nat, clock: nat -> int, t: Table, op: Op)
    requires t.buckets != [] && Monotone(clock)
    requires |t.buckets[BucketOf(cpl, op.contact.id, |t.buckets|)].nodes| <= BUCKET_SIZE
    ensures var i, r := BucketOf(cpl, op.contact.id, |t.buckets|), Step(cpl, clock, t, op);
            var now := clock(r.tick);
            && Elsewhere(t, r, i) && |r.buckets| == |t.buckets| + (if Splits(cpl, t, op) then 1 else 0)
            && (WithinBound(r.buckets[i], now) <==> Trims(cpl, clock, t, op) || Left(cpl, clock, t, op, now) >= 0)
            && (Splits(cpl, t, op) ==>
                  (WithinBound(r.buckets[|t.buckets|], now) <==> LeftBeyond(cpl, clock, t, op, now) >= 0))
  {
    hide Trims;
    hide Splits;
    hide Left;
    hide LeftBeyond;
    hide Step;
    SlackAfter(cpl, clock, t, op, clock(Step(cpl, clock, t, op).tick));
    if Trims(cpl, clock, t, op) {
      TrimmingTrims(cpl, clock, t, op);
    }
  }

  // ------------------------------------------------------------------------------------------
  // Every run

  ghost predicate AllWithin(t: Table, now: int) {
    forall i :: 0 <= i < |t.buckets| ==> WithinBound(t.buckets[i], now)
  }

  /** The call leaves its bucket, or the one that it adds, beyond the bound. */
  ghost predicate Overdraws(cpl: Id -> nat, clock: nat -> int, t: Table, op: Op)
    requires t.buckets != []
  {
    var now := clock(Step(cpl, clock, t, op).tick);
    || (!Trims(cpl, clock, t, op) && Left(cpl, clock, t, op, now) < 0)
    || (Splits(cpl, t, op) && LeftBeyond(cpl, clock, t, op, now) < 0)
  }

  lemma WithinLater(b: Bucket, now: int, later: int)
    requires WithinBound(b, now) && now <= later
    ensures WithinBound(b, later)
  {
    CountLater(b.nodes, now, later);
  }

  lemma StepTicks(cpl: Id -> nat, clock: nat -> int, t: Table, op: Op)
    requires t.buckets != []
    ensures t.tick <= Step(cpl, clock, t, op).tick
  {
    hide WouldSplit;
    hide IsGood;
    hide IsQuestionable;
  }

  /** From a table within the bound, a call leads beyond it if and only if it overdraws. */
  lemma StepWithinIff(cpl: Id -> nat, clock: nat -> int, t: Table, op: Op)
    requires t.buckets != [] && Monotone(clock) && AllWithin(t, clock(t.tick))
    requires |t.buckets[BucketOf(cpl, op.contact.id, |t.buckets|)].nodes| <= BUCKET_SIZE
    ensures AllWithin(Step(cpl, clock, t, op), clock(Step(cpl, clock, t, op).tick)) <==> !Overdraws(cpl, clock, t, op)
  {
    hide Step;
    hide WithinBound;
    hide Trims;
    hide Splits;
    hide Left;
    hide LeftBeyond;
    var i, r := BucketOf(cpl, op.contact.id, |t.buckets|), Step(cpl, clock, t, op);
    WithinBoundIff(cpl, clock, t, op);
    StepTicks(cpl, clock, t, op);
    forall j | 0 <= j < |t.buckets| && j != i ensures WithinBound(r.buckets[j], clock(r.tick)) {
      WithinLater(t.buckets[j], clock(t.tick), clock(r.tick));
    }
  }

  ghost predicate StaysWithin(cpl: Id -> nat, clock: nat -> int, ops: seq<Op>) {
    var t := Run(cpl, clock, ops);
    AllWithin(t, clock(t.tick)) && (ops == [] || StaysWithin(cpl, clock, ops[..|ops| - 1]))
  }

  ghost predicate NeverOverdraws(cpl: Id -> nat, clock: nat -> int, ops: seq<Op>) {
    ops == [] ||
    (NeverOverdraws(cpl, clock, ops[..|ops| - 1]) &&
     !Overdraws(cpl, clock, Run(cpl, clock, ops[..|ops| - 1]), ops[|ops| - 1]))
  }

  /** A run stays within the bound if and only if no call of it overdraws. */
  lemma {:induction false} StaysWithinIff(cpl: Id -> nat, clock: nat -> int, ops: seq<Op>)
    requires Bounded(cpl) && Monotone(clock)
    ensures StaysWithin(cpl, clock, ops) <==> NeverOverdraws(cpl, clock, ops)
  {
    hide Overdraws;
    hide Step;
    if ops == [] {
    } else {
      var before, op := ops[..|ops| - 1], ops[|ops| - 1];
      StaysWithinIff(cpl, clock, before);
      if StaysWithin(cpl, clock, before) {
        RunInv(cpl, _ => true, clock, before);
        StepWithinIff(cpl, clock, Run(cpl, clock, before), op);
      }
    }
  }

  // ------------------------------------------------------------------------------------------
  // The bound that holds

  lemma {:induction false} WithoutShorter(s: seq<RoutingNode>, c: NodeContact)
    ensures |Without(s, c)| <= |s|
  {
    if s == [] {
    } else {
      WithoutShorter(s[1..], c);
    }
  }

  lemma HalvesHeld(cpl: Id -> nat, b: Bucket, k: nat)
    ensures Held(FarHalf(cpl, b, k)) <= Held(b) && Held(NearHalf(cpl, b, k)) <= Held(b)
  {
    HalvesFacts(cpl, b.verified, k);
    HalvesFacts(cpl, b.unverified, k);
  }

  /** The bucket, and one that was added, hold no more than n candidates. */
  ghost predicate HoldsAt(t: Table, r: Table, i: nat, n: nat) {
    && i < |t.buckets| <= |r.buckets| <= |t.buckets| + 1 && Held(r.buckets[i]) <= n
    && (|r.buckets| > |t.buckets| ==> Held(r.buckets[|t.buckets|]) <= n)
  }

  lemma AddNewHeld(cpl: Id -> nat, clock: nat -> int, f: Table, i: nat, c: NodeContact, verified: bool, n: nat)
    requires i < |f.buckets| && Held(f.buckets[i]) <= n
    requires || |f.buckets[i].nodes| < BUCKET_SIZE || WouldSplit(cpl, f.buckets[i].nodes, i, c.id)
             || FirstBad(f.buckets[i].nodes, clock, f.tick + 1) < |f.buckets[i].nodes|
    ensures HoldsAt(f, AddNew(cpl, clock, f, i, c, verified), i, n)
  {
    HalvesHeld(cpl, WithNode(f.buckets[i], c, clock(f.tick)), SplitBit(i));
    hide WouldSplit;
    hide FirstBad;
    hide Enqueue;
    hide FarHalf;
    hide NearHalf;
  }

  lemma TryAddHeld(cpl: Id -> nat, clock: nat -> int, t: Table, op: Op, n: nat)
    requires t.buckets != [] && op.TryAddNode? && !Trims(cpl, clock, t, op)
    requires Held(t.buckets[BucketOf(cpl, op.contact.id, |t.buckets|)]) <= n
    ensures HoldsAt(t, Step(cpl, clock, t, op), BucketOf(cpl, op.contact.id, |t.buckets|), n)
  {
    var i := BucketOf(cpl, op.contact.id, |t.buckets|);
    var b := t.buckets[i];
    hide WouldSplit;
    hide FirstBad;
    hide AddNew;
    if IndexOf(b.nodes, op.contact) == |b.nodes| {
      WithoutShorter(b.verified, op.contact);
      WithoutShorter(b.unverified, op.contact);
      var f := t.(buckets := t.buckets[i := Forgotten(b, op.contact)]);
      AddNewHeld(cpl, clock, f, i, op.contact, op.verified, n);
    }
  }

  lemma FailHeld(cpl: Id -> nat, clock: nat -> int, t: Table, op: Op, n: nat)
    requires t.buckets != [] && op.FailNode? && !Trims(cpl, clock, t, op)
    requires Held(t.buckets[BucketOf(cpl, op.contact.id, |t.buckets|)]) <= n
    ensures HoldsAt(t, Step(cpl, clock, t, op), BucketOf(cpl, op.contact.id, |t.buckets|), n)
  {
    hide ReplaceFailed;
    hide IsGood;
    hide IsQuestionable;
  }

  lemma StepHeld(cpl: Id -> nat, clock: nat -> int, t: Table, op: Op)
    requires t.buckets != [] && Monotone(clock)
    requires var b := t.buckets[BucketOf(cpl, op.contact.id, |t.buckets|)];
             |b.nodes| <= BUCKET_SIZE && Held(b) <= BUCKET_SIZE
    ensures HoldsAt(t, Step(cpl, clock, t, op), BucketOf(cpl, op.contact.id, |t.buckets|), BUCKET_SIZE)
  {
    hide Step;
    hide Trims;
    if Trims(cpl, clock, t, op) {
      TrimmingTrims(cpl, clock, t, op);
    } else if op.TryAddNode? {
      TryAddHeld(cpl, clock, t, op, BUCKET_SIZE);
    } else {
      FailHeld(cpl, clock, t, op, BUCKET_SIZE);
    }
  }

  /** After every run each bucket has at most eight candidates, and so at most sixteen contacts. */
  lemma {:induction false} EightCandidates(cpl: Id -> nat, clock: nat -> int, ops: seq<Op>, i: nat)
    requires Bounded(cpl) && Monotone(clock) && i < |Run(cpl, clock, ops).buckets|
    ensures var b := Run(cpl, clock, ops).buckets[i]; |b.nodes| <= BUCKET_SIZE && Held(b) <= BUCKET_SIZE
  {
    hide Step;
    RunInv(cpl, _ => true, clock, ops);
    if ops == [] {
    } else {
      var before, op := ops[..|ops| - 1], ops[|ops| - 1];
      var t := Run(cpl, clock, before);
      var k := BucketOf(cpl, op.contact.id, |t.buckets|);
      EightCandidates(cpl, clock, before, k);
      StepHeld(cpl, clock, t, op);
      SlackAfter(cpl, clock, t, op, 0);
      if i < |t.buckets| {
        EightCandidates(cpl, clock, before, i);
      }
    }
  }
}
