/** What one call of `try_add_node` or `fail_node` does to the table, told case by case: which nodes and
    candidates there are afterwards, with which times, and who is pinged, in which order.  Loops are
    told by what holds at each place, not by how they run. */
module RoutingEffects {
  import opened NodeIds
  import opened Options
  import opened Sequences
  import opened RoutingSpec

  // ------------------------------------------------------------------------------------------
  // Which nodes of a sequence

  ghost function NearMask(cpl: Id -> nat, s: seq<RoutingNode>, k: nat): seq<bool> {
    seq(|s|, j requires 0 <= j < |s| => cpl(s[j].contact.id) >= k)
  }

  ghost function FarMask(cpl: Id -> nat, s: seq<RoutingNode>, k: nat): seq<bool> {
    seq(|s|, j requires 0 <= j < |s| => cpl(s[j].contact.id) < k)
  }

  ghost function OtherMask(s: seq<RoutingNode>, c: NodeContact): seq<bool> {
    seq(|s|, j requires 0 <= j < |s| => s[j].contact != c)
  }

  /** The nodes that are questionable, each at its own clock reading. */
  ghost function QuestionableMask(s: seq<RoutingNode>, clock: nat -> int, tick: nat): seq<bool> {
    seq(|s|, j requires 0 <= j < |s| => IsQuestionable(s[j], clock(tick + j)))
  }

  /** Those of them that no ping is under way for. */
  ghost function DueMask(s: seq<RoutingNode>, clock: nat -> int, tick: nat): seq<bool> {
    seq(|s|, j requires 0 <= j < |s| => IsQuestionable(s[j], clock(tick + j)) && !s[j].pingOngoing)
  }

  ghost function ContactsOf(s: seq<RoutingNode>): seq<NodeContact> {
    seq(|s|, j requires 0 <= j < |s| => s[j].contact)
  }

  ghost function Questionable(s: seq<RoutingNode>, clock: nat -> int, tick: nat): nat {
    |Kept(s, QuestionableMask(s, clock, tick))|
  }

  lemma {:induction false} HalvesMeaning(cpl: Id -> nat, s: seq<RoutingNode>, k: nat)
    ensures Near(cpl, s, k) == Kept(s, NearMask(cpl, s, k))
    ensures Far(cpl, s, k) == Kept(s, FarMask(cpl, s, k))
  {
    if s == [] {
    } else {
      HalvesMeaning(cpl, s[1..], k);
      assert NearMask(cpl, s, k)[1..] == NearMask(cpl, s[1..], k);
      assert FarMask(cpl, s, k)[1..] == FarMask(cpl, s[1..], k);
    }
  }

  lemma {:induction false} WithoutMeaning(s: seq<RoutingNode>, c: NodeContact)
    ensures Without(s, c) == Kept(s, OtherMask(s, c))
  {
    if s == [] {
    } else {
      WithoutMeaning(s[1..], c);
      assert OtherMask(s, c)[1..] == OtherMask(s[1..], c);
    }
  }

  lemma {:induction false} CountMeaning(s: seq<RoutingNode>, clock: nat -> int, tick: nat)
    ensures CountQuestionable(s, clock, tick) == Questionable(s, clock, tick)
  {
    if s == [] {
    } else {
      CountMeaning(s[1..], clock, tick + 1);
      assert QuestionableMask(s, clock, tick)[1..] == QuestionableMask(s[1..], clock, tick + 1);
    }
  }

  lemma {:induction false} PingedMeaning(s: seq<RoutingNode>, clock: nat -> int, tick: nat)
    ensures Pinged(s, clock, tick) == Kept(ContactsOf(s), DueMask(s, clock, tick))
  {
    if s == [] {
    } else {
      PingedMeaning(s[1..], clock, tick + 1);
      assert DueMask(s, clock, tick)[1..] == DueMask(s[1..], clock, tick + 1);
      assert ContactsOf(s)[1..] == ContactsOf(s[1..]);
    }
  }

  /** The questionable nodes are those with a ping under way afterwards; nothing else changes. */
  ghost predicate AllPinged(s: seq<RoutingNode>, clock: nat -> int, tick: nat, r: seq<RoutingNode>) {
    && |r| == |s|
    && forall j :: 0 <= j < |s| ==>
         r[j] == if IsQuestionable(s[j], clock(tick + j)) then s[j].(pingOngoing := true) else s[j]
  }

  lemma {:induction false} MarkedMeaning(s: seq<RoutingNode>, clock: nat -> int, tick: nat)
    ensures AllPinged(s, clock, tick, Marked(s, clock, tick))
  {
    hide IsQuestionable;
    if s == [] {
    } else {
      MarkedMeaning(s[1..], clock, tick + 1);
      var r := Marked(s[1..], clock, tick + 1);
      forall j | 0 < j < |s|
        ensures Marked(s, clock, tick)[j] ==
                if IsQuestionable(s[j], clock(tick + j)) then s[j].(pingOngoing := true) else s[j]
      {
        assert s[1..][j - 1] == s[j] && tick + 1 + (j - 1) == tick + j;
        assert Marked(s, clock, tick)[j] == r[j - 1];
      }
    }
  }

  /** `v` is what is left of a queue when questionable entries are taken from its front. */
  ghost predicate LeftOfQueue(s: seq<RoutingNode>, clock: nat -> int, tick: nat, v: seq<RoutingNode>) {
    && |v| <= |s| && v == s[|s| - |v|..]
    && (forall j :: 0 <= j < |s| - |v| ==> IsQuestionable(s[j], clock(tick + j)))
    && (v != [] ==> !IsQuestionable(v[0], clock(tick + |s| - |v|)))
  }

  /** The clock readings that it takes. */
  ghost function Asked(s: seq<RoutingNode>, v: seq<RoutingNode>): int {
    |s| - |v| + if v == [] then 0 else 1
  }

  lemma {:induction false} FrontMeaning(s: seq<RoutingNode>, clock: nat -> int, tick: nat)
    ensures var v := s[QuestionableFront(s, clock, tick)..];
            LeftOfQueue(s, clock, tick, v) && FrontReadings(s, clock, tick) == Asked(s, v)
  {
    hide IsQuestionable;
    if s == [] || !IsQuestionable(s[0], clock(tick)) {
    } else {
      FrontMeaning(s[1..], clock, tick + 1);
      var n := QuestionableFront(s[1..], clock, tick + 1);
      assert s[1..][n..] == s[n + 1..];
      forall j | 0 <= j < n + 1 ensures IsQuestionable(s[j], clock(tick + j)) {
        if j > 0 {
          assert s[1..][j - 1] == s[j] && tick + 1 + (j - 1) == tick + j;
        }
      }
    }
  }

  ghost predicate LastOf(s: seq<RoutingNode>, n: nat, r: seq<RoutingNode>) {
    |r| == Min(|s|, n) && r == s[|s| - |r|..]
  }

  /** Both queues after trimming to `n` candidates: the newest verified ones, then the newest others. */
  ghost predicate TrimmedTo(v: seq<RoutingNode>, u: seq<RoutingNode>, n: nat, r: Bucket) {
    LastOf(v, n, r.verified) && LastOf(u, n - |r.verified|, r.unverified)
  }

  // ------------------------------------------------------------------------------------------
  // try_add_node

  ghost predicate KnownAt(s: seq<RoutingNode>, c: NodeContact, k: nat) {
    k < |s| && s[k].contact == c && forall j :: 0 <= j < k ==> s[j].contact != c
  }

  /** The first node that is not good when it is asked. */
  ghost predicate BadAt(s: seq<RoutingNode>, clock: nat -> int, tick: nat, k: nat) {
    && k < |s| && !IsGood(s[k], clock(tick + k))
    && forall j :: 0 <= j < k ==> IsGood(s[j], clock(tick + j))
  }

  ghost predicate SomeBad(s: seq<RoutingNode>, clock: nat -> int, tick: nat) {
    exists k :: 0 <= k < |s| && !IsGood(s[k], clock(tick + k))
  }

  lemma {:induction false} FirstBadMeaning(s: seq<RoutingNode>, clock: nat -> int, tick: nat)
    ensures var k := FirstBad(s, clock, tick);
            && (forall j :: 0 <= j < k ==> IsGood(s[j], clock(tick + j)))
            && (k < |s| ==> !IsGood(s[k], clock(tick + k)))
  {
    hide IsGood;
    if s == [] || !IsGood(s[0], clock(tick)) {
    } else {
      FirstBadMeaning(s[1..], clock, tick + 1);
      var k := FirstBad(s[1..], clock, tick + 1);
      forall j | 0 <= j < k + 1 ensures IsGood(s[j], clock(tick + j)) {
        if j > 0 {
          assert s[1..][j - 1] == s[j] && tick + 1 + (j - 1) == tick + j;
        }
      }
    }
  }

  /** The contact is on record: it moves to the end, as heard from now, and as replying if it did. */
  ghost predicate Refreshes(b: Bucket, k: nat, verified: bool, now: int, r: Bucket)
    requires k < |b.nodes|
  {
    var n := b.nodes[k];
    var refreshed := if verified then RoutingNode(n.contact, now, now, 0, false)
                     else RoutingNode(n.contact, now, n.replyTime, n.queriesFailed, n.pingOngoing);
    r == Bucket(b.nodes[..k] + b.nodes[k + 1..] + [refreshed], b.verified, b.unverified)
  }

  /** The bucket once the contact is no candidate any more. */
  ghost function Freed(b: Bucket, c: NodeContact): Bucket {
    Bucket(b.nodes, Kept(b.verified, OtherMask(b.verified, c)), Kept(b.unverified, OtherMask(b.unverified, c)))
  }

  ghost function NearPart(cpl: Id -> nat, b: Bucket, k: nat): Bucket {
    Bucket(Kept(b.nodes, NearMask(cpl, b.nodes, k)), Kept(b.verified, NearMask(cpl, b.verified, k)),
           Kept(b.unverified, NearMask(cpl, b.unverified, k)))
  }

  ghost function FarPart(cpl: Id -> nat, b: Bucket, k: nat): Bucket {
    Bucket(Kept(b.nodes, FarMask(cpl, b.nodes, k)), Kept(b.verified, FarMask(cpl, b.verified, k)),
           Kept(b.unverified, FarMask(cpl, b.unverified, k)))
  }

  /** All nodes are good.  The questionable ones are pinged unless a ping is under way, and the contact
      joins its queue if that leaves it within the number of questionable nodes. */
  ghost predicate Queues(clock: nat -> int, b: Bucket, tick: nat, c: NodeContact, verified: bool, now: int, e: Effect) {
    var q, later := Questionable(b.nodes, clock, tick), tick + |b.nodes|;
    && AllPinged(b.nodes, clock, tick, e.bucket.nodes)
    && e.pings == Kept(ContactsOf(b.nodes), DueMask(b.nodes, clock, tick))
    && if verified then
         TrimmedTo(b.verified + [RoutingNode(c, now, now, 0, false)], b.unverified, q, e.bucket) && e.tick == later
       else
         exists v :: QueuesUnverified(clock, b, later, c, now, q, v, e)
  }

  /** `v` are the verified candidates that have not aged. */
  ghost predicate QueuesUnverified(clock: nat -> int, b: Bucket, tick: nat, c: NodeContact, now: int, q: nat,
                                   v: seq<RoutingNode>, e: Effect) {
    var u := if |v| < q then b.unverified + [RoutingNode(c, now, 0, 0, false)] else b.unverified;
    LeftOfQueue(b.verified, clock, tick, v) && TrimmedTo(v, u, q, e.bucket) && e.tick == tick + Asked(b.verified, v)
  }

  lemma EnqueueMeaning(clock: nat -> int, b: Bucket, tick: nat, c: NodeContact, verified: bool, now: int)
    ensures Queues(clock, b, tick, c, verified, now, Enqueue(clock, b, tick, c, verified, now))
  {
    hide Kept;
    hide AllPinged;
    hide LeftOfQueue;
    hide QuestionableFront;
    hide FrontReadings;
    hide CountQuestionable;
    hide Marked;
    hide Pinged;
    var later := tick + |b.nodes|;
    MarkedMeaning(b.nodes, clock, tick);
    PingedMeaning(b.nodes, clock, tick);
    CountMeaning(b.nodes, clock, tick);
    FrontMeaning(b.verified, clock, later);
    var e := Enqueue(clock, b, tick, c, verified, now);
    if !verified {
      var v := b.verified[QuestionableFront(b.verified, clock, later)..];
      assert QueuesUnverified(clock, b, later, c, now, Questionable(b.nodes, clock, tick), v, e);
    }
  }

  /** A contact on record is refreshed.  Any other leaves the queues; then a contact that has not replied
      is pinged and changes nothing else, and one that has becomes a node, if there is room, a split, or
      a node that is not good; otherwise it may join a queue. */
  ghost predicate AddEffect(cpl: Id -> nat, clock: nat -> int, t: Table, c: NodeContact, verified: bool, r: Table)
    requires t.buckets != []
  {
    var i := BucketOf(cpl, c.id, |t.buckets|);
    var b, now := t.buckets[i], clock(t.tick);
    if exists k :: KnownAt(b.nodes, c, k) then
      exists k, b' :: KnownAt(b.nodes, c, k) && Refreshes(b, k, verified, now, b') &&
        r == Table(t.buckets[i := b'], t.tick + 1, t.pings)
    else
      NewEffect(cpl, clock, t, i, Freed(b, c), c, verified, r)
  }

  ghost predicate NewEffect(cpl: Id -> nat, clock: nat -> int, t: Table, i: nat, b: Bucket, c: NodeContact,
                            verified: bool, r: Table)
    requires i < |t.buckets|
  {
    var now, tick := clock(t.tick), t.tick + 1;
    var node := RoutingNode(c, now, now, 0, false);
    var g := Bucket(b.nodes + [node], b.verified, b.unverified);
    if |b.nodes| < BUCKET_SIZE then
      r == if verified then Table(t.buckets[i := g], tick, t.pings) else Table(t.buckets[i := b], tick, t.pings + [c])
    else if WouldSplit(cpl, b.nodes, i, c.id) then
      r == if verified then
             Table(t.buckets[i := FarPart(cpl, g, SplitBit(i))] + [NearPart(cpl, g, SplitBit(i))], tick, t.pings)
           else Table(t.buckets[i := b], tick, t.pings + [c])
    else if SomeBad(b.nodes, clock, tick) then
      exists k: nat :: BadAt(b.nodes, clock, tick, k) &&
        r == if verified then
               Table(t.buckets[i := g.(nodes := b.nodes[..k] + b.nodes[k + 1..] + [node])], tick + k + 1, t.pings)
             else Table(t.buckets[i := b], tick + k + 1, t.pings + [c])
    else
      exists e :: Queues(clock, b, tick + |b.nodes|, c, verified, now, e) &&
        r == Table(t.buckets[i := e.bucket], e.tick, t.pings + e.pings)
  }

  lemma KnownMeaning(s: seq<RoutingNode>, c: NodeContact)
    ensures IndexOf(s, c) < |s| ==> KnownAt(s, c, IndexOf(s, c))
    ensures IndexOf(s, c) == |s| ==> forall k :: !KnownAt(s, c, k)
  {
  }

  lemma BadMeaning(s: seq<RoutingNode>, clock: nat -> int, tick: nat)
    ensures var k := FirstBad(s, clock, tick);
            (SomeBad(s, clock, tick) <==> k < |s|) && (k < |s| ==> BadAt(s, clock, tick, k))
  {
    hide IsGood;
    hide FirstBad;
    FirstBadMeaning(s, clock, tick);
  }

  lemma PartsMeaning(cpl: Id -> nat, b: Bucket, k: nat)
    ensures NearHalf(cpl, b, k) == NearPart(cpl, b, k) && FarHalf(cpl, b, k) == FarPart(cpl, b, k)
  {
    HalvesMeaning(cpl, b.nodes, k);
    HalvesMeaning(cpl, b.verified, k);
    HalvesMeaning(cpl, b.unverified, k);
  }

  lemma FreedMeaning(b: Bucket, c: NodeContact)
    ensures Forgotten(b, c) == Freed(b, c)
  {
    WithoutMeaning(b.verified, c);
    WithoutMeaning(b.unverified, c);
  }

  lemma ReplaceOrEnqueueMeaning(cpl: Id -> nat, clock: nat -> int, t: Table, i: nat, b: Bucket, c: NodeContact,
                                verified: bool)
    requires i < |t.buckets| && |b.nodes| >= BUCKET_SIZE && !WouldSplit(cpl, b.nodes, i, c.id)
    ensures NewEffect(cpl, clock, t, i, b, c, verified,
              Installed(t, i, ReplaceOrEnqueue(clock, b, t.tick + 1, c, verified, clock(t.tick))))
  {
    hide WouldSplit;
    hide Queues;
    hide Enqueue;
    hide FirstBad;
    hide SomeBad;
    hide BadAt;
    var tick := t.tick + 1;
    BadMeaning(b.nodes, clock, tick);
    EnqueueMeaning(clock, b, tick + |b.nodes|, c, verified, clock(t.tick));
  }

  lemma UpdatedTwice(s: seq<Bucket>, i: nat, a: Bucket, b: Bucket)
    requires i < |s|
    ensures s[i := a][i] == a && s[i := a][i := b] == s[i := b]
  {
  }

  lemma RoomMeaning(cpl: Id -> nat, clock: nat -> int, t: Table, i: nat, b: Bucket, c: NodeContact, verified: bool)
    requires i < |t.buckets| && |b.nodes| < BUCKET_SIZE
    ensures NewEffect(cpl, clock, t, i, b, c, verified,
              AddNew(cpl, clock, t.(buckets := t.buckets[i := b]), i, c, verified))
  {
    hide AddToFull;
    UpdatedTwice(t.buckets, i, b, b);
    UpdatedTwice(t.buckets, i, b, WithNode(b, c, clock(t.tick)));
    Assoc(t.pings, [], []);
  }

  lemma SplitMeaning(cpl: Id -> nat, clock: nat -> int, t: Table, i: nat, b: Bucket, c: NodeContact, verified: bool)
    requires i < |t.buckets| && |b.nodes| >= BUCKET_SIZE && WouldSplit(cpl, b.nodes, i, c.id)
    ensures NewEffect(cpl, clock, t, i, b, c, verified,
              AddToFull(cpl, clock, t.(buckets := t.buckets[i := b]), i, c, verified))
  {
    hide WouldSplit;
    hide NearPart;
    hide FarPart;
    var g := WithNode(b, c, clock(t.tick));
    UpdatedTwice(t.buckets, i, b, b);
    UpdatedTwice(t.buckets, i, b, FarHalf(cpl, g, SplitBit(i)));
    PartsMeaning(cpl, g, SplitBit(i));
    hide NearHalf;
    hide FarHalf;
  }

  lemma AddNewMeaning(cpl: Id -> nat, clock: nat -> int, t: Table, i: nat, b: Bucket, c: NodeContact, verified: bool)
    requires i < |t.buckets|
    ensures NewEffect(cpl, clock, t, i, b, c, verified,
              AddNew(cpl, clock, t.(buckets := t.buckets[i := b]), i, c, verified))
  {
    hide NewEffect;
    hide WouldSplit;
    hide ReplaceOrEnqueue;
    if |b.nodes| < BUCKET_SIZE {
      RoomMeaning(cpl, clock, t, i, b, c, verified);
    } else if WouldSplit(cpl, b.nodes, i, c.id) {
      SplitMeaning(cpl, clock, t, i, b, c, verified);
      hide AddToFull;
    } else {
      var e := ReplaceOrEnqueue(clock, b, t.tick + 1, c, verified, clock(t.tick));
      UpdatedTwice(t.buckets, i, b, e.bucket);
      ReplaceOrEnqueueMeaning(cpl, clock, t, i, b, c, verified);
    }
  }

  lemma TryAddMeaning(cpl: Id -> nat, clock: nat -> int, t: Table, c: NodeContact, verified: bool)
    requires t.buckets != []
    ensures AddEffect(cpl, clock, t, c, verified, TryAdd(cpl, clock, t, c, verified))
  {
    hide AddNew;
    hide NewEffect;
    hide KnownAt;
    hide Freed;
    hide Forgotten;
    var i := BucketOf(cpl, c.id, |t.buckets|);
    var b := t.buckets[i];
    var k := IndexOf(b.nodes, c);
    KnownMeaning(b.nodes, c);
    if k < |b.nodes| {
      assert Refreshes(b, k, verified, clock(t.tick), WithBumped(b, k, clock(t.tick), verified));
      Assoc(t.pings, [], []);
    } else {
      FreedMeaning(b, c);
      AddNewMeaning(cpl, clock, t, i, Freed(b, c), c, verified);
    }
  }

  // ------------------------------------------------------------------------------------------
  // fail_node

  ghost predicate EarliestLater(s: seq<RoutingNode>, n: RoutingNode, j: nat) {
    j < |s| && s[j].recvTime > n.recvTime && forall m :: 0 <= m < j ==> s[m].recvTime <= n.recvTime
  }

  /** The node goes before the first one heard from later; without such a node it is lost. */
  ghost predicate Promoted(s: seq<RoutingNode>, n: RoutingNode, r: seq<RoutingNode>) {
    if exists j :: EarliestLater(s, n, j) then exists j: nat :: EarliestLater(s, n, j) && r == s[..j] + [n] + s[j..]
    else r == s
  }

  lemma {:induction false} PromoteAt(s: seq<RoutingNode>, n: RoutingNode) returns (j: nat)
    ensures j <= |s| && forall m :: 0 <= m < j ==> s[m].recvTime <= n.recvTime
    ensures if j < |s| then s[j].recvTime > n.recvTime && Promote(s, n) == s[..j] + [n] + s[j..] else Promote(s, n) == s
  {
    if s == [] || s[0].recvTime > n.recvTime {
      j := 0;
      Assoc([n], s, []);
    } else {
      var k := PromoteAt(s[1..], n);
      j := k + 1;
      assert s == [s[0]] + s[1..];
      if j < |s| {
        assert s[1..][k..] == s[j..] && s[..j] == [s[0]] + s[1..][..k];
        Assoc([s[0]], s[1..][..k], [n]);
        Assoc([s[0]], s[1..][..k] + [n], s[j..]);
      }
    }
  }

  lemma PromoteMeaning(s: seq<RoutingNode>, n: RoutingNode)
    ensures Promoted(s, n, Promote(s, n))
  {
    hide Promote;
    var j := PromoteAt(s, n);
    assert j < |s| ==> EarliestLater(s, n, j);
  }

  /** The first verified candidate takes the place of the bad node; if there is none, the first other
      candidate is pinged, and leaves its queue.  `v` and `u` are the candidates that have not aged. */
  ghost predicate Replaces(s: seq<RoutingNode>, k: nat, v: seq<RoutingNode>, u: seq<RoutingNode>, q: nat, e: Effect)
    requires k < |s|
  {
    if v != [] then
      var n := RoutingNode(v[0].contact, v[0].recvTime, v[0].replyTime, 0, false);
      && Promoted(s[..k] + s[k + 1..], n, e.bucket.nodes)
      && TrimmedTo(v[1..], u, q, e.bucket) && e.pings == []
    else if u != [] then
      e.bucket.nodes == s && TrimmedTo([], u[1..], q, e.bucket) && e.pings == [u[0].contact]
    else
      e.bucket.nodes == s && TrimmedTo([], [], q, e.bucket) && e.pings == []
  }

  ghost predicate BadEffect(clock: nat -> int, b: Bucket, s: seq<RoutingNode>, k: nat, tick: nat,
                            v: seq<RoutingNode>, u: seq<RoutingNode>, e: Effect)
    requires k < |s|
  {
    var tick1 := tick + Asked(b.verified, v);
    && LeftOfQueue(b.verified, clock, tick, v)
    && tick1 >= 0 && LeftOfQueue(b.unverified, clock, tick1, u)
    && var tick2 := tick1 + Asked(b.unverified, u);
    && tick2 >= 0 && Replaces(s, k, v, u, Questionable(e.bucket.nodes, clock, tick2), e)
    && e.tick == tick2 + |e.bucket.nodes|
  }

  ghost predicate BadFails(clock: nat -> int, b: Bucket, s: seq<RoutingNode>, k: nat, tick: nat, e: Effect)
    requires k < |s|
  {
    exists v, u :: BadEffect(clock, b, s, k, tick, v, u, e)
  }

  /** A failure of an unknown node does nothing.  A known one has failed once more; if it is still good,
      it is pinged when it is questionable, and otherwise it is replaced if it can be. */
  ghost predicate FailEffect(cpl: Id -> nat, clock: nat -> int, t: Table, c: NodeContact, r: Table)
    requires t.buckets != []
  {
    var i := BucketOf(cpl, c.id, |t.buckets|);
    if exists k :: KnownAt(t.buckets[i].nodes, c, k) then
      exists k :: KnownAt(t.buckets[i].nodes, c, k) && KnownFails(clock, t, i, k, r)
    else r == t
  }

  ghost predicate KnownFails(clock: nat -> int, t: Table, i: nat, k: nat, r: Table)
    requires i < |t.buckets| && k < |t.buckets[i].nodes|
  {
    var b, tick := t.buckets[i], t.tick;
    var n := b.nodes[k].(queriesFailed := b.nodes[k].queriesFailed + 1);
    if !IsGood(n, clock(tick)) then
      exists e :: BadFails(clock, b, b.nodes[k := n], k, tick + 1, e) &&
        r == Table(t.buckets[i := e.bucket], e.tick, t.pings + e.pings)
    else if IsQuestionable(n, clock(tick + 1)) then
      r == Table(t.buckets[i := b.(nodes := b.nodes[k := n.(pingOngoing := true)])], tick + 2, t.pings + [n.contact])
    else
      r == Table(t.buckets[i := b.(nodes := b.nodes[k := n])], tick + 2, t.pings)
  }

  lemma ReplacementMeaning(b: Bucket, k: nat, q: nat, e: Effect)
    requires k < |b.nodes|
    requires e.bucket == Trim(Replacement(b, k), q)
    requires e.pings == if b.verified == [] && b.unverified != [] then [b.unverified[0].contact] else []
    ensures Replaces(b.nodes, k, b.verified, b.unverified, q, e)
  {
    hide Promoted;
    hide Promote;
    if b.verified != [] {
      var c := b.verified[0];
      PromoteMeaning(Remove(b.nodes, k), c.(queriesFailed := 0, pingOngoing := false));
    }
  }

  lemma BadMeans(clock: nat -> int, b: Bucket, k: nat, n: RoutingNode, tick: nat)
    requires k < |b.nodes|
    ensures var b1 := b.(nodes := b.nodes[k := n]);
            BadFails(clock, b, b1.nodes, k, tick, ReplaceFailed(clock, b1, k, tick))
  {
    hide Replaces;
    hide LeftOfQueue;
    hide Trim;
    hide Replacement;
    hide QuestionableFront;
    hide FrontReadings;
    hide CountQuestionable;
    hide Questionable;
    var b1 := b.(nodes := b.nodes[k := n]);
    var a := Aged(clock, b1, tick);
    var tick1 := tick + FrontReadings(b.verified, clock, tick);
    FrontMeaning(b.verified, clock, tick);
    FrontMeaning(b.unverified, clock, tick1);
    var e := ReplaceFailed(clock, b1, k, tick);
    var nodes := Replacement(a.bucket, k).nodes;
    assert e.bucket.nodes == nodes;
    CountMeaning(nodes, clock, a.tick);
    ReplacementMeaning(a.bucket, k, CountQuestionable(nodes, clock, a.tick), e);
    assert BadEffect(clock, b, b1.nodes, k, tick, a.bucket.verified, a.bucket.unverified, e);
  }

  lemma FailMeaning(cpl: Id -> nat, clock: nat -> int, t: Table, c: NodeContact)
    requires t.buckets != []
    ensures FailEffect(cpl, clock, t, c, Fail(cpl, clock, t, c))
  {
    hide KnownAt;
    hide IsGood;
    hide IsQuestionable;
    hide BadFails;
    hide ReplaceFailed;
    var i := BucketOf(cpl, c.id, |t.buckets|);
    var b := t.buckets[i];
    var k := IndexOf(b.nodes, c);
    KnownMeaning(b.nodes, c);
    if k < |b.nodes| {
      var n := b.nodes[k].(queriesFailed := b.nodes[k].queriesFailed + 1);
      Assoc(t.pings, [], []);
      BadMeans(clock, b, k, n, t.tick + 1);
      assert KnownFails(clock, t, i, k, Fail(cpl, clock, t, c));
    }
  }
}
