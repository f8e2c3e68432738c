/** What every sequence of `try_add_node` and `fail_node` keeps true of the routing table. */
module RoutingInvariants {
  import opened NodeIds
  import opened RoutingSpec

  // ------------------------------------------------------------------------------------------
  // Sequences of nodes

  ghost function Contacts(s: seq<RoutingNode>): set<NodeContact> {
    if s == [] then {} else {s[0].contact} + Contacts(s[1..])
  }

  ghost predicate NoDup(s: seq<RoutingNode>) {
    s == [] || (s[0].contact !in Contacts(s[1..]) && NoDup(s[1..]))
  }

  ghost predicate HeardBy(s: seq<RoutingNode>, now: int) {
    s == [] || (s[0].recvTime <= now && HeardBy(s[1..], now))
  }

  /** Least recently heard from first. */
  ghost predicate ByRecvTime(s: seq<RoutingNode>) {
    |s| <= 1 || (s[0].recvTime <= s[1].recvTime && ByRecvTime(s[1..]))
  }

  lemma {:induction false} ContactsMember(s: seq<RoutingNode>, i: nat)
    requires i < |s|
    ensures s[i].contact in Contacts(s)
  {
    if i == 0 {
    } else {
      ContactsMember(s[1..], i - 1);
    }
  }

  /** What the recursive definitions say, index by index. */
  lemma {:induction false} OrderMeaning(s: seq<RoutingNode>, i: nat, j: nat)
    requires i < j < |s|
    ensures ByRecvTime(s) ==> s[i].recvTime <= s[j].recvTime
    ensures NoDup(s) ==> s[i].contact != s[j].contact
  {
    if i > 0 {
      OrderMeaning(s[1..], i - 1, j - 1);
    } else {
      ContactsMember(s[1..], j - 1);
      if j > 1 {
        OrderMeaning(s[1..], 0, j - 1);
      }
    }
  }

  lemma {:induction false} NotKnown(s: seq<RoutingNode>, c: NodeContact)
    requires IndexOf(s, c) == |s|
    ensures c !in Contacts(s)
  {
    if s == [] {
    } else {
      NotKnown(s[1..], c);
    }
  }

  lemma {:induction false} HeardLater(s: seq<RoutingNode>, now: int, later: int)
    requires HeardBy(s, now) && now <= later
    ensures HeardBy(s, later)
  {
    if s == [] {
    } else {
      HeardLater(s[1..], now, later);
    }
  }

  lemma {:induction false} RemoveFacts(s: seq<RoutingNode>, i: nat)
    requires i < |s| && NoDup(s)
    ensures NoDup(Remove(s, i)) && Contacts(Remove(s, i)) == Contacts(s) - {s[i].contact}
  {
    if i == 0 {
      assert Remove(s, 0) == s[1..];
    } else {
      ContactsMember(s[1..], i - 1);
      RemoveFacts(s[1..], i - 1);
      assert Remove(s, i) == [s[0]] + Remove(s[1..], i - 1);
    }
  }

  lemma {:induction false} RemoveOrder(s: seq<RoutingNode>, i: nat, now: int)
    requires i < |s| && ByRecvTime(s) && HeardBy(s, now)
    ensures ByRecvTime(Remove(s, i)) && HeardBy(Remove(s, i), now)
  {
    if i == 0 {
      assert Remove(s, 0) == s[1..];
    } else {
      RemoveOrder(s[1..], i - 1, now);
      assert Remove(s, i) == [s[0]] + Remove(s[1..], i - 1);
      if i == 1 && |s| > 2 {
        assert s[1..][1..][0] == s[2] && s[1].recvTime <= s[2].recvTime;
      }
    }
  }

  lemma {:induction false} AppendFacts(s: seq<RoutingNode>, n: RoutingNode)
    requires NoDup(s) && n.contact !in Contacts(s)
    ensures NoDup(s + [n]) && Contacts(s + [n]) == Contacts(s) + {n.contact}
  {
    if s == [] {
      assert s + [n] == [n];
    } else {
      AppendFacts(s[1..], n);
      assert (s + [n])[1..] == s[1..] + [n];
    }
  }

  lemma {:induction false} AppendOrder(s: seq<RoutingNode>, n: RoutingNode)
    requires ByRecvTime(s) && HeardBy(s, n.recvTime)
    ensures ByRecvTime(s + [n]) && HeardBy(s + [n], n.recvTime)
  {
    if s == [] {
      assert s + [n] == [n];
    } else {
      AppendOrder(s[1..], n);
      assert (s + [n])[1..] == s[1..] + [n];
    }
  }

  lemma {:induction false} SuffixFacts(s: seq<RoutingNode>, k: nat)
    requires k <= |s| && NoDup(s)
    ensures NoDup(s[k..]) && Contacts(s[k..]) <= Contacts(s)
  {
    if k == 0 {
      assert s[0..] == s;
    } else {
      SuffixFacts(s[1..], k - 1);
      assert s[1..][k - 1..] == s[k..];
    }
  }

  lemma {:induction false} WithoutFacts(s: seq<RoutingNode>, c: NodeContact)
    requires NoDup(s)
    ensures NoDup(Without(s, c)) && Contacts(Without(s, c)) == Contacts(s) - {c}
  {
    if s == [] {
    } else {
      WithoutFacts(s[1..], c);
    }
  }

  lemma {:induction false} PromoteFacts(s: seq<RoutingNode>, n: RoutingNode)
    requires NoDup(s) && n.contact !in Contacts(s)
    ensures NoDup(Promote(s, n)) && Contacts(Promote(s, n)) <= Contacts(s) + {n.contact}
    ensures |Promote(s, n)| <= |s| + 1
  {
    if s == [] {
    } else {
      PromoteFacts(s[1..], n);
    }
  }

  lemma {:induction false} PromoteOrder(s: seq<RoutingNode>, n: RoutingNode, now: int)
    requires ByRecvTime(s) && HeardBy(s, now)
    ensures ByRecvTime(Promote(s, n)) && HeardBy(Promote(s, n), now)
    ensures s != [] ==> Promote(s, n) != []
    ensures s != [] ==> s[0].recvTime <= Promote(s, n)[0].recvTime || n.recvTime <= Promote(s, n)[0].recvTime
  {
    if s == [] {
    } else {
      PromoteOrder(s[1..], n, now);
      if |s| == 1 {
        assert Promote(s[1..], n) == [];
      }
    }
  }

  /** Neither contacts nor times changed. */
  ghost predicate SameTimes(s: seq<RoutingNode>, r: seq<RoutingNode>) {
    |s| == |r| && forall j :: 0 <= j < |s| ==> r[j].contact == s[j].contact && r[j].recvTime == s[j].recvTime
  }

  lemma {:induction false} MarkedSameTimes(s: seq<RoutingNode>, clock: nat -> int, tick: nat)
    ensures SameTimes(s, Marked(s, clock, tick))
  {
    if s == [] {
    } else {
      MarkedSameTimes(s[1..], clock, tick + 1);
    }
  }

  lemma {:induction false} SameTimesFacts(s: seq<RoutingNode>, r: seq<RoutingNode>, now: int)
    requires SameTimes(s, r)
    ensures Contacts(r) == Contacts(s) && NoDup(r) == NoDup(s)
    ensures ByRecvTime(r) == ByRecvTime(s) && HeardBy(r, now) == HeardBy(s, now)
  {
    if s == [] {
    } else {
      SameTimesFacts(s[1..], r[1..], now);
    }
  }

  /** The two halves share out the nodes and their contacts. */
  lemma {:induction false} HalvesFacts(cpl: Id -> nat, s: seq<RoutingNode>, k: nat)
    ensures |Near(cpl, s, k)| + |Far(cpl, s, k)| == |s|
    ensures Contacts(Near(cpl, s, k)) == set c | c in Contacts(s) && cpl(c.id) >= k
    ensures Contacts(Far(cpl, s, k)) == set c | c in Contacts(s) && cpl(c.id) < k
  {
    if s == [] {
    } else {
      HalvesFacts(cpl, s[1..], k);
    }
  }

  lemma {:induction false} HalvesNoDup(cpl: Id -> nat, s: seq<RoutingNode>, k: nat)
    requires NoDup(s)
    ensures NoDup(Near(cpl, s, k)) && NoDup(Far(cpl, s, k))
  {
    if s == [] {
    } else {
      HalvesNoDup(cpl, s[1..], k);
      HalvesFacts(cpl, s[1..], k);
    }
  }

  lemma {:induction false} HalvesOrder(cpl: Id -> nat, s: seq<RoutingNode>, k: nat, now: int)
    requires ByRecvTime(s) && HeardBy(s, now)
    ensures ByRecvTime(Near(cpl, s, k)) && HeardBy(Near(cpl, s, k), now)
    ensures ByRecvTime(Far(cpl, s, k)) && HeardBy(Far(cpl, s, k), now)
    ensures Near(cpl, s, k) != [] ==> s != [] && s[0].recvTime <= Near(cpl, s, k)[0].recvTime
    ensures Far(cpl, s, k) != [] ==> s != [] && s[0].recvTime <= Far(cpl, s, k)[0].recvTime
  {
    if s == [] {
    } else {
      HalvesOrder(cpl, s[1..], k, now);
    }
  }

  // ------------------------------------------------------------------------------------------
  // One bucket

  ghost function AllContacts(b: Bucket): set<NodeContact> {
    Contacts(b.nodes) + Contacts(b.verified) + Contacts(b.unverified)
  }

  /** At most eight nodes, in the order in which they were last heard from, and no contact twice
      among the nodes and both queues. */
  ghost predicate BucketOk(b: Bucket, now: int) {
    && |b.nodes| <= BUCKET_SIZE
    && NoDup(b.nodes) && NoDup(b.verified) && NoDup(b.unverified)
    && Contacts(b.nodes) !! Contacts(b.verified) !! Contacts(b.unverified)
    && ByRecvTime(b.nodes) && HeardBy(b.nodes, now)
  }

  /** What an operation may do to a bucket: keep it in order, and add no contact but `extra`. */
  ghost predicate Keeps(b: Bucket, r: Bucket, extra: set<NodeContact>, now: int) {
    BucketOk(b, now) ==> BucketOk(r, now) && AllContacts(r) <= AllContacts(b) + extra
  }

  lemma BumpOk(b: Bucket, i: nat, now: int, verified: bool)
    requires i < |b.nodes|
    ensures Keeps(b, WithBumped(b, i, now, verified), {}, now)
  {
    if BucketOk(b, now) {
      RemoveFacts(b.nodes, i);
      RemoveOrder(b.nodes, i, now);
      AppendFacts(Remove(b.nodes, i), Bumped(b.nodes[i], now, verified));
      AppendOrder(Remove(b.nodes, i), Bumped(b.nodes[i], now, verified));
      ContactsMember(b.nodes, i);
    }
  }

  lemma ForgottenOk(b: Bucket, c: NodeContact, now: int)
    requires BucketOk(b, now) && c !in Contacts(b.nodes)
    ensures BucketOk(Forgotten(b, c), now) && AllContacts(Forgotten(b, c)) == AllContacts(b) - {c}
  {
    WithoutFacts(b.verified, c);
    WithoutFacts(b.unverified, c);
  }

  lemma WithNodeOk(b: Bucket, c: NodeContact, now: int)
    requires c !in AllContacts(b) && |b.nodes| < BUCKET_SIZE
    ensures Keeps(b, WithNode(b, c, now), {c}, now)
  {
    if BucketOk(b, now) {
      AppendFacts(b.nodes, Fresh(c, now));
      AppendOrder(b.nodes, Fresh(c, now));
    }
  }

  lemma WithReplacedOk(b: Bucket, i: nat, c: NodeContact, now: int)
    requires i < |b.nodes| && c !in AllContacts(b)
    ensures Keeps(b, WithReplaced(b, i, c, now), {c}, now)
  {
    if BucketOk(b, now) {
      RemoveFacts(b.nodes, i);
      RemoveOrder(b.nodes, i, now);
      AppendFacts(Remove(b.nodes, i), Fresh(c, now));
      AppendOrder(Remove(b.nodes, i), Fresh(c, now));
    }
  }

  lemma SameContacts(b: Bucket, nodes: seq<RoutingNode>, now: int)
    requires SameTimes(b.nodes, nodes)
    ensures Keeps(b, b.(nodes := nodes), {}, now) && AllContacts(b.(nodes := nodes)) == AllContacts(b)
  {
    SameTimesFacts(b.nodes, nodes, now);
  }

  lemma DropToFacts(s: seq<RoutingNode>, n: nat)
    requires NoDup(s)
    ensures NoDup(DropTo(s, n)) && Contacts(DropTo(s, n)) <= Contacts(s)
  {
    if |s| > n {
      SuffixFacts(s, |s| - n);
    }
  }

  lemma TrimOk(b: Bucket, questionable: nat, now: int)
    ensures Keeps(b, Trim(b, questionable), {}, now)
  {
    if BucketOk(b, now) {
      var v := DropTo(b.verified, questionable);
      DropToFacts(b.verified, questionable);
      DropToFacts(b.unverified, questionable - |v|);
    }
  }

  lemma QueueVerifiedOk(b: Bucket, c: NodeContact, q: nat, now: int)
    requires c !in AllContacts(b)
    ensures Keeps(b, QueueVerified(b, c, q, now), {c}, now)
  {
    if BucketOk(b, now) {
      AppendFacts(b.verified, Fresh(c, now));
    }
  }

  lemma QueueUnverifiedOk(clock: nat -> int, b: Bucket, tick: nat, c: NodeContact, q: nat, now: int)
    requires c !in AllContacts(b)
    ensures Keeps(b, QueueUnverified(clock, b, tick, c, q, now), {c}, now)
  {
    if BucketOk(b, now) {
      SuffixFacts(b.verified, QuestionableFront(b.verified, clock, tick));
      AppendFacts(b.unverified, RoutingNode(c, now, 0, 0, false));
    }
  }

  lemma KeepsSelf(b: Bucket, extra: set<NodeContact>, now: int)
    ensures Keeps(b, b, extra, now)
  {
  }

  lemma KeepsTrans(a: Bucket, b: Bucket, c: Bucket, d: Bucket, extra: set<NodeContact>, now: int)
    requires Keeps(a, b, {}, now) && Keeps(b, c, extra, now) && Keeps(c, d, {}, now)
    ensures Keeps(a, d, extra, now)
  {
  }

  lemma EnqueueOk(clock: nat -> int, b: Bucket, tick: nat, c: NodeContact, verified: bool, now: int)
    requires c !in AllContacts(b)
    ensures Keeps(b, Enqueue(clock, b, tick, c, verified, now).bucket, {c}, now)
  {
    hide Keeps;
    hide AllContacts;
    var q, tick1 := CountQuestionable(b.nodes, clock, tick), tick + |b.nodes|;
    var b1 := PingingAll(clock, b, tick);
    MarkedSameTimes(b.nodes, clock, tick);
    SameContacts(b, Marked(b.nodes, clock, tick), now);
    QueueVerifiedOk(b1, c, q, now);
    QueueUnverifiedOk(clock, b1, tick1, c, q, now);
    var b2 := if verified then QueueVerified(b1, c, q, now) else QueueUnverified(clock, b1, tick1, c, q, now);
    TrimOk(b2, q, now);
    KeepsTrans(b, b1, b2, Trim(b2, q), {c}, now);
  }

  lemma PromoteCandidateOk(b: Bucket, failed: nat, now: int)
    requires failed < |b.nodes| && b.verified != []
    ensures Keeps(b, PromoteCandidate(b, failed), {}, now)
  {
    if BucketOk(b, now) {
      var n := b.verified[0].(queriesFailed := 0, pingOngoing := false);
      RemoveFacts(b.nodes, failed);
      RemoveOrder(b.nodes, failed, now);
      PromoteFacts(Remove(b.nodes, failed), n);
      PromoteOrder(Remove(b.nodes, failed), n, now);
    }
  }

  lemma ReplacementOk(b: Bucket, failed: nat, now: int)
    requires failed < |b.nodes|
    ensures Keeps(b, Replacement(b, failed), {}, now)
  {
    if b.verified != [] {
      PromoteCandidateOk(b, failed, now);
    } else if b.unverified != [] && BucketOk(b, now) {
      SuffixFacts(b.unverified, 1);
    }
  }

  lemma AgedOk(clock: nat -> int, b: Bucket, tick: nat, now: int)
    ensures Keeps(b, Aged(clock, b, tick).bucket, {}, now)
  {
    if BucketOk(b, now) {
      SuffixFacts(b.verified, QuestionableFront(b.verified, clock, tick));
      var tick1 := tick + FrontReadings(b.verified, clock, tick);
      SuffixFacts(b.unverified, QuestionableFront(b.unverified, clock, tick1));
    }
  }

  lemma ReplaceFailedOk(clock: nat -> int, b: Bucket, failed: nat, tick: nat, now: int)
    requires failed < |b.nodes|
    ensures Keeps(b, ReplaceFailed(clock, b, failed, tick).bucket, {}, now)
  {
    var e := Aged(clock, b, tick);
    var b1 := Replacement(e.bucket, failed);
    var q := CountQuestionable(b1.nodes, clock, e.tick);
    AgedOk(clock, b, tick, now);
    ReplacementOk(e.bucket, failed, now);
    TrimOk(b1, q, now);
    KeepsTrans(b, e.bucket, b1, Trim(b1, q), {}, now);
  }

  lemma WithFailedOk(b: Bucket, i: nat, pinged: bool, now: int)
    requires i < |b.nodes|
    ensures Keeps(b, WithFailed(b, i, pinged), {}, now)
  {
    SameContacts(b, WithFailed(b, i, pinged).nodes, now);
  }

  lemma FailBucketOk(clock: nat -> int, b: Bucket, i: nat, tick: nat, now: int)
    requires i < |b.nodes|
    ensures Keeps(b, FailBucket(clock, b, i, tick).bucket, {}, now)
  {
    var b1 := WithFailed(b, i, false);
    WithFailedOk(b, i, false, now);
    WithFailedOk(b, i, true, now);
    ReplaceFailedOk(clock, b1, i, tick + 1, now);
    var r := FailBucket(clock, b, i, tick).bucket;
    if !IsGood(b1.nodes[i], clock(tick)) {
      KeepsTrans(b, b1, r, r, {}, now);
    }
  }

  // ------------------------------------------------------------------------------------------
  // The whole table

  ghost predicate Monotone(clock: nat -> int) {
    forall i, j :: i <= j ==> clock(i) <= clock(j)
  }

  ghost predicate Bounded(cpl: Id -> nat) {
    forall id :: cpl(id) <= BITS
  }

  /** Every contact is an allowed one and lies in the bucket that `find_bucket_id` picks for its id. */
  ghost predicate Placed(cpl: Id -> nat, ok: NodeContact -> bool, b: Bucket, i: nat, size: nat)
    requires size > 0
  {
    forall c :: c in AllContacts(b) ==> ok(c) && BucketOf(cpl, c.id, size) == i
  }

  /** The invariant, for any property `ok` that the contacts handed to the table may have. */
  ghost predicate TableInv(cpl: Id -> nat, ok: NodeContact -> bool, clock: nat -> int, t: Table) {
    && 0 < |t.buckets| <= BITS + 1
    && forall i :: 0 <= i < |t.buckets| ==>
         BucketOk(t.buckets[i], clock(t.tick)) && Placed(cpl, ok, t.buckets[i], i, |t.buckets|)
  }

  /** Hence no contact occurs twice anywhere in the table. */
  lemma NoContactTwice(cpl: Id -> nat, ok: NodeContact -> bool, clock: nat -> int, t: Table, i: nat, j: nat)
    requires TableInv(cpl, ok, clock, t) && i < j < |t.buckets|
    ensures AllContacts(t.buckets[i]) !! AllContacts(t.buckets[j])
  {
  }

  lemma Later(b: Bucket, now: int, later: int)
    requires BucketOk(b, now) && now <= later
    ensures BucketOk(b, later)
  {
    HeardLater(b.nodes, now, later);
  }

  lemma InstalledInv(cpl: Id -> nat, ok: NodeContact -> bool, clock: nat -> int, t: Table, i: nat, e: Effect,
                     extra: set<NodeContact>)
    requires Monotone(clock) && TableInv(cpl, ok, clock, t) && i < |t.buckets| && t.tick <= e.tick
    requires Keeps(t.buckets[i], e.bucket, extra, clock(t.tick))
    requires forall c :: c in extra ==> ok(c) && BucketOf(cpl, c.id, |t.buckets|) == i
    ensures TableInv(cpl, ok, clock, Installed(t, i, e))
  {
    var r := Installed(t, i, e);
    forall j | 0 <= j < |r.buckets|
      ensures BucketOk(r.buckets[j], clock(r.tick)) && Placed(cpl, ok, r.buckets[j], j, |r.buckets|)
    {
      assert BucketOk(t.buckets[j], clock(t.tick));
      Later(r.buckets[j], clock(t.tick), clock(r.tick));
    }
  }

  // ------------------------------------------------------------------------------------------
  // Splitting

  lemma {:induction false} AllNear(cpl: Id -> nat, s: seq<RoutingNode>, k: nat)
    ensures (forall c :: c in Contacts(s) ==> cpl(c.id) >= k) ==> Near(cpl, s, k) == s
    ensures (forall c :: c in Contacts(s) ==> cpl(c.id) < k) ==> Near(cpl, s, k) == []
  {
    if s == [] {
    } else {
      AllNear(cpl, s[1..], k);
      assert s[0].contact in Contacts(s);
    }
  }

  lemma {:induction false} NearAppend(cpl: Id -> nat, s: seq<RoutingNode>, n: RoutingNode, k: nat)
    ensures Near(cpl, s + [n], k) == Near(cpl, s, k) + if cpl(n.contact.id) >= k then [n] else []
  {
    if s == [] {
      assert s + [n] == [n];
    } else {
      NearAppend(cpl, s[1..], n, k);
      assert (s + [n])[1..] == s[1..] + [n];
    }
  }

  /** A bucket splits only if it is the last one and there is a bit left to split on. */
  lemma SplitsOnlyLast(cpl: Id -> nat, ok: NodeContact -> bool, clock: nat -> int, t: Table, i: nat, id: Id)
    requires Bounded(cpl) && TableInv(cpl, ok, clock, t)
    requires i == BucketOf(cpl, id, |t.buckets|) && WouldSplit(cpl, t.buckets[i].nodes, i, id)
    ensures i == |t.buckets| - 1 && i < BITS
  {
    var s := t.buckets[i].nodes;
    assert Contacts(s) <= AllContacts(t.buckets[i]);
    AllNear(cpl, s, SplitBit(i));
  }

  /** Both halves of the nine nodes then hold between one and eight: the assertions after the split
      in `try_add_node` never fail. */
  lemma SplitHalves(cpl: Id -> nat, s: seq<RoutingNode>, i: nat, n: RoutingNode)
    requires |s| == BUCKET_SIZE && WouldSplit(cpl, s, i, n.contact.id)
    ensures 1 <= |Near(cpl, s + [n], SplitBit(i))| <= BUCKET_SIZE
    ensures 1 <= |Far(cpl, s + [n], SplitBit(i))| <= BUCKET_SIZE
  {
    NearAppend(cpl, s, n, SplitBit(i));
    HalvesFacts(cpl, s + [n], SplitBit(i));
  }

  lemma HalvesAllContacts(cpl: Id -> nat, b: Bucket, k: nat)
    ensures AllContacts(NearHalf(cpl, b, k)) == set c | c in AllContacts(b) && cpl(c.id) >= k
    ensures AllContacts(FarHalf(cpl, b, k)) == set c | c in AllContacts(b) && cpl(c.id) < k
  {
    HalvesFacts(cpl, b.nodes, k);
    HalvesFacts(cpl, b.verified, k);
    HalvesFacts(cpl, b.unverified, k);
    hide Contacts;
  }

  /** Halving a full bucket that was given a ninth node. */
  lemma HalvesOk(cpl: Id -> nat, b: Bucket, c: NodeContact, i: nat, now: int)
    requires BucketOk(b, now) && |b.nodes| == BUCKET_SIZE && c !in AllContacts(b)
    requires WouldSplit(cpl, b.nodes, i, c.id)
    ensures BucketOk(NearHalf(cpl, WithNode(b, c, now), SplitBit(i)), now)
    ensures BucketOk(FarHalf(cpl, WithNode(b, c, now), SplitBit(i)), now)
  {
    var n, k := Fresh(c, now), SplitBit(i);
    var b1 := WithNode(b, c, now);
    AppendFacts(b.nodes, n);
    AppendOrder(b.nodes, n);
    SplitHalves(cpl, b.nodes, i, n);
    HalvesNoDup(cpl, b1.nodes, k);
    HalvesOrder(cpl, b1.nodes, k, now);
    HalvesNoDup(cpl, b.verified, k);
    HalvesNoDup(cpl, b.unverified, k);
    HalvesFacts(cpl, b1.nodes, k);
    HalvesFacts(cpl, b.verified, k);
    HalvesFacts(cpl, b.unverified, k);
  }

  /** The last bucket gives way to two. */
  lemma TwoForOne(cpl: Id -> nat, ok: NodeContact -> bool, clock: nat -> int, t: Table, far: Bucket, near: Bucket)
    requires Monotone(clock) && TableInv(cpl, ok, clock, t) && |t.buckets| <= BITS
    requires BucketOk(far, clock(t.tick)) && BucketOk(near, clock(t.tick))
    requires forall c :: c in AllContacts(far) ==> ok(c) && cpl(c.id) == |t.buckets| - 1
    requires forall c :: c in AllContacts(near) ==> ok(c) && cpl(c.id) >= |t.buckets|
    ensures TableInv(cpl, ok, clock,
              Table(t.buckets[|t.buckets| - 1 := far] + [near], t.tick + 1, t.pings))
  {
    var r := Table(t.buckets[|t.buckets| - 1 := far] + [near], t.tick + 1, t.pings);
    hide BucketOk;
    hide AllContacts;
    forall j | 0 <= j < |r.buckets|
      ensures BucketOk(r.buckets[j], clock(r.tick)) && Placed(cpl, ok, r.buckets[j], j, |r.buckets|)
    {
      if j < |t.buckets| - 1 { assert r.buckets[j] == t.buckets[j]; }
      Later(r.buckets[j], clock(t.tick), clock(r.tick));
    }
  }

  lemma SplitInv(cpl: Id -> nat, ok: NodeContact -> bool, clock: nat -> int, t: Table, i: nat, c: NodeContact)
    requires Bounded(cpl) && Monotone(clock) && TableInv(cpl, ok, clock, t) && i < |t.buckets|
    requires ok(c) && i == BucketOf(cpl, c.id, |t.buckets|) && c !in AllContacts(t.buckets[i])
    requires |t.buckets[i].nodes| == BUCKET_SIZE && WouldSplit(cpl, t.buckets[i].nodes, i, c.id)
    ensures TableInv(cpl, ok, clock,
              SplitTable(cpl, t, i, WithNode(t.buckets[i], c, clock(t.tick))).(tick := t.tick + 1))
  {
    var b, now := t.buckets[i], clock(t.tick);
    var b1 := WithNode(b, c, now);
    SplitsOnlyLast(cpl, ok, clock, t, i, c.id);
    assert AllContacts(b1) == AllContacts(b) + {c} by { AppendFacts(b.nodes, Fresh(c, now)); }
    HalvesOk(cpl, b, c, i, now);
    HalvesAllContacts(cpl, b1, SplitBit(i));
    TwoForOne(cpl, ok, clock, t, FarHalf(cpl, b1, SplitBit(i)), NearHalf(cpl, b1, SplitBit(i)));
  }

  // ------------------------------------------------------------------------------------------
  // Every run

  lemma ReplaceOrEnqueueOk(clock: nat -> int, b: Bucket, tick: nat, c: NodeContact, verified: bool, now: int)
    requires c !in AllContacts(b)
    ensures Keeps(b, ReplaceOrEnqueue(clock, b, tick, c, verified, now).bucket, {c}, now)
  {
    KeepsSelf(b, {c}, now);
    hide Keeps;
    var bad := FirstBad(b.nodes, clock, tick);
    if bad < |b.nodes| {
      WithReplacedOk(b, bad, c, now);
    } else {
      EnqueueOk(clock, b, tick + |b.nodes|, c, verified, now);
    }
  }

  lemma RoomInv(cpl: Id -> nat, ok: NodeContact -> bool, clock: nat -> int, t: Table, i: nat, c: NodeContact,
                verified: bool)
    requires Monotone(clock) && TableInv(cpl, ok, clock, t) && i < |t.buckets|
    requires ok(c) && i == BucketOf(cpl, c.id, |t.buckets|) && c !in AllContacts(t.buckets[i])
    requires |t.buckets[i].nodes| < BUCKET_SIZE
    ensures TableInv(cpl, ok, clock, AddNew(cpl, clock, t, i, c, verified))
  {
    var b, now := t.buckets[i], clock(t.tick);
    WithNodeOk(b, c, now);
    InstalledInv(cpl, ok, clock, t, i, AddOrPing(b, WithNode(b, c, now), c, verified, t.tick + 1), {c});
  }

  lemma FullInv(cpl: Id -> nat, ok: NodeContact -> bool, clock: nat -> int, t: Table, i: nat, c: NodeContact,
                verified: bool)
    requires Monotone(clock) && TableInv(cpl, ok, clock, t) && i < |t.buckets|
    requires ok(c) && i == BucketOf(cpl, c.id, |t.buckets|) && c !in AllContacts(t.buckets[i])
    ensures TableInv(cpl, ok, clock,
              Installed(t, i, ReplaceOrEnqueue(clock, t.buckets[i], t.tick + 1, c, verified, clock(t.tick))))
  {
    var b, now := t.buckets[i], clock(t.tick);
    ReplaceOrEnqueueOk(clock, b, t.tick + 1, c, verified, now);
    InstalledInv(cpl, ok, clock, t, i, ReplaceOrEnqueue(clock, b, t.tick + 1, c, verified, now), {c});
  }

  lemma PingInv(cpl: Id -> nat, ok: NodeContact -> bool, clock: nat -> int, t: Table, i: nat, c: NodeContact)
    requires Monotone(clock) && TableInv(cpl, ok, clock, t) && i < |t.buckets|
    ensures TableInv(cpl, ok, clock, Installed(t, i, Effect(t.buckets[i], t.tick + 1, [c])))
  {
    InstalledInv(cpl, ok, clock, t, i, Effect(t.buckets[i], t.tick + 1, [c]), {});
  }

  lemma AddToFullInv(cpl: Id -> nat, ok: NodeContact -> bool, clock: nat -> int, t: Table, i: nat, c: NodeContact,
                     verified: bool)
    requires Bounded(cpl) && Monotone(clock) && TableInv(cpl, ok, clock, t) && i < |t.buckets|
    requires ok(c) && i == BucketOf(cpl, c.id, |t.buckets|) && c !in AllContacts(t.buckets[i])
    requires |t.buckets[i].nodes| == BUCKET_SIZE
    ensures TableInv(cpl, ok, clock, AddToFull(cpl, clock, t, i, c, verified))
  {
    hide TableInv;
    if !WouldSplit(cpl, t.buckets[i].nodes, i, c.id) {
      FullInv(cpl, ok, clock, t, i, c, verified);
    } else if verified {
      SplitInv(cpl, ok, clock, t, i, c);
    } else {
      PingInv(cpl, ok, clock, t, i, c);
    }
  }

  lemma AddNewInv(cpl: Id -> nat, ok: NodeContact -> bool, clock: nat -> int, t: Table, i: nat, c: NodeContact,
                  verified: bool)
    requires Bounded(cpl) && Monotone(clock) && TableInv(cpl, ok, clock, t) && i < |t.buckets|
    requires ok(c) && i == BucketOf(cpl, c.id, |t.buckets|) && c !in AllContacts(t.buckets[i])
    ensures TableInv(cpl, ok, clock, AddNew(cpl, clock, t, i, c, verified))
  {
    if |t.buckets[i].nodes| < BUCKET_SIZE {
      RoomInv(cpl, ok, clock, t, i, c, verified);
    } else {
      assert BucketOk(t.buckets[i], clock(t.tick));
      AddToFullInv(cpl, ok, clock, t, i, c, verified);
    }
  }

  lemma ForgottenInv(cpl: Id -> nat, ok: NodeContact -> bool, clock: nat -> int, t: Table, i: nat, c: NodeContact)
    requires TableInv(cpl, ok, clock, t) && i < |t.buckets| && c !in Contacts(t.buckets[i].nodes)
    ensures TableInv(cpl, ok, clock, t.(buckets := t.buckets[i := Forgotten(t.buckets[i], c)]))
    ensures c !in AllContacts(Forgotten(t.buckets[i], c))
  {
    ForgottenOk(t.buckets[i], c, clock(t.tick));
  }

  lemma TryAddInv(cpl: Id -> nat, ok: NodeContact -> bool, clock: nat -> int, t: Table, c: NodeContact, verified: bool)
    requires Bounded(cpl) && Monotone(clock) && TableInv(cpl, ok, clock, t) && ok(c)
    ensures TableInv(cpl, ok, clock, TryAdd(cpl, clock, t, c, verified))
  {
    var i := BucketOf(cpl, c.id, |t.buckets|);
    var b := t.buckets[i];
    var known := IndexOf(b.nodes, c);
    if known < |b.nodes| {
      BumpOk(b, known, clock(t.tick), verified);
      InstalledInv(cpl, ok, clock, t, i, Effect(WithBumped(b, known, clock(t.tick), verified), t.tick + 1, []), {});
    } else {
      NotKnown(b.nodes, c);
      ForgottenInv(cpl, ok, clock, t, i, c);
      AddNewInv(cpl, ok, clock, t.(buckets := t.buckets[i := Forgotten(b, c)]), i, c, verified);
    }
  }

  lemma FailInv(cpl: Id -> nat, ok: NodeContact -> bool, clock: nat -> int, t: Table, c: NodeContact)
    requires Monotone(clock) && TableInv(cpl, ok, clock, t)
    ensures TableInv(cpl, ok, clock, Fail(cpl, clock, t, c))
  {
    var i := BucketOf(cpl, c.id, |t.buckets|);
    var b := t.buckets[i];
    var known := IndexOf(b.nodes, c);
    if known < |b.nodes| {
      FailBucketOk(clock, b, known, t.tick, clock(t.tick));
      InstalledInv(cpl, ok, clock, t, i, FailBucket(clock, b, known, t.tick), {});
    }
  }

  /** After any sequence of calls, with any clock readings, the table is in order. */
  lemma {:induction false} RunInv(cpl: Id -> nat, ok: NodeContact -> bool, clock: nat -> int, ops: seq<Op>)
    requires Bounded(cpl) && Monotone(clock)
    requires forall op :: op in ops ==> ok(op.contact)
    ensures TableInv(cpl, ok, clock, Run(cpl, clock, ops))
  {
    if ops == [] {
      assert AllContacts(EMPTY_BUCKET) == {};
    } else {
      var t, op := Run(cpl, clock, ops[..|ops| - 1]), ops[|ops| - 1];
      RunInv(cpl, ok, clock, ops[..|ops| - 1]);
      match op
      case TryAddNode(c, verified) => TryAddInv(cpl, ok, clock, t, c, verified);
      case FailNode(c) => FailInv(cpl, ok, clock, t, c);
    }
  }
}
