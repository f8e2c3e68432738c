/** The queues of replacement candidates (src/bittorrent/routing_table.{h,cpp}): exactly when a
    candidate is queued, when a promoted one is kept, and which calls trim the queues. */
module RoutingCandidates {
  import opened NodeIds
  import opened RoutingSpec
  import opened RoutingInvariants

  // ------------------------------------------------------------------------------------------
  // Promotion

  /** Some node was heard from after the candidate. */
  ghost predicate SomeLater(s: seq<RoutingNode>, n: RoutingNode) {
    exists j :: 0 <= j < |s| && s[j].recvTime > n.recvTime
  }

  /** The promoted candidate is taken in if and only if some node was heard from later; otherwise it
      is lost and the nodes stay as they are. */
  lemma {:induction false} PromotedIff(s: seq<RoutingNode>, n: RoutingNode)
    ensures |Promote(s, n)| == if SomeLater(s, n) then |s| + 1 else |s|
    ensures SomeLater(s, n) ==> n in Promote(s, n)
    ensures !SomeLater(s, n) ==> Promote(s, n) == s
  {
    if s == [] {
    } else if s[0].recvTime > n.recvTime {
      assert ([n] + s)[0] == n;
    } else {
      PromotedIff(s[1..], n);
      hide SomeLater;
      assert s == [s[0]] + s[1..];
    }
  }

  /** With nodes in order, looking at the last one decides. */
  lemma LastDecides(s: seq<RoutingNode>, n: RoutingNode)
    requires ByRecvTime(s)
    ensures SomeLater(s, n) <==> s != [] && s[|s| - 1].recvTime > n.recvTime
  {
    if j :| 0 <= j < |s| && s[j].recvTime > n.recvTime {
      if j < |s| - 1 {
        OrderMeaning(s, j, |s| - 1);
      }
    }
  }

  /** So the candidate that `fail_node` takes from its queue becomes a node if and only if some node
      other than the failed one was heard from after it. */
  lemma PromotionIff(b: Bucket, failed: nat, now: int)
    requires BucketOk(b, now) && failed < |b.nodes| && b.verified != []
    ensures b.verified[0].contact in Contacts(PromoteCandidate(b, failed).nodes) <==>
            SomeLater(Remove(b.nodes, failed), b.verified[0])
  {
    var rest, n := Remove(b.nodes, failed), b.verified[0].(queriesFailed := 0, pingOngoing := false);
    RemoveFacts(b.nodes, failed);
    PromotedIff(rest, n);
    ContactsMember(b.verified, 0);
    assert SomeLater(rest, n) == SomeLater(rest, b.verified[0]);
    if SomeLater(rest, n) {
      var j :| 0 <= j < |Promote(rest, n)| && Promote(rest, n)[j] == n;
      ContactsMember(Promote(rest, n), j);
    }
  }

  // ------------------------------------------------------------------------------------------
  // Queueing

  lemma {:induction false} NoneBadIff(s: seq<RoutingNode>, clock: nat -> int, tick: nat)
    ensures FirstBad(s, clock, tick) == |s| <==> forall j :: 0 <= j < |s| ==> IsGood(s[j], clock(tick + j))
  {
    if s == [] {
    } else {
      NoneBadIff(s[1..], clock, tick + 1);
      assert (forall j :: 0 <= j < |s| ==> IsGood(s[j], clock(tick + j))) <==>
             IsGood(s[0], clock(tick)) && forall j :: 0 <= j < |s[1..]| ==> IsGood(s[1..][j], clock(tick + 1 + j));
    }
  }

  /** Some node is questionable when its turn comes. */
  ghost predicate SomeQuestionable(s: seq<RoutingNode>, clock: nat -> int, tick: nat) {
    exists j :: 0 <= j < |s| && IsQuestionable(s[j], clock(tick + j))
  }

  lemma {:induction false} CountIff(s: seq<RoutingNode>, clock: nat -> int, tick: nat)
    ensures CountQuestionable(s, clock, tick) > 0 <==> SomeQuestionable(s, clock, tick)
  {
    hide IsQuestionable;
    if s == [] {
    } else {
      CountIff(s[1..], clock, tick + 1);
      if j :| 0 <= j < |s| && IsQuestionable(s[j], clock(tick + j)) {
        if j > 0 {
          assert s[1..][j - 1] == s[j] && tick + 1 + (j - 1) == tick + j;
          assert IsQuestionable(s[1..][j - 1], clock(tick + 1 + (j - 1)));
        }
      }
      if IsQuestionable(s[0], clock(tick)) {
        assert IsQuestionable(s[0], clock(tick + 0));
      } else if j :| 0 <= j < |s[1..]| && IsQuestionable(s[1..][j], clock(tick + 1 + j)) {
        assert s[j + 1] == s[1..][j] && tick + (j + 1) == tick + 1 + j;
        assert IsQuestionable(s[j + 1], clock(tick + (j + 1)));
      }
    }
  }

  ghost function Candidates(b: Bucket): set<NodeContact> {
    Contacts(b.verified) + Contacts(b.unverified)
  }

  /** There is room for one more candidate: a node whose place may become free and, for a contact that
      has not replied, one that no recent verified candidate waits for. */
  ghost predicate HasRoom(clock: nat -> int, b: Bucket, tick: nat, verified: bool) {
    if verified then SomeQuestionable(b.nodes, clock, tick)
    else
      var later := tick + |b.nodes|;
      |b.verified| - QuestionableFront(b.verified, clock, later) < CountQuestionable(b.nodes, clock, tick)
  }

  lemma LastContact(s: seq<RoutingNode>, n: RoutingNode, k: nat)
    requires k > 0
    ensures n.contact in Contacts(DropTo(s + [n], k))
  {
    var r := DropTo(s + [n], k);
    assert r[|r| - 1] == n;
    ContactsMember(r, |r| - 1);
  }

  /** At the last stage of `try_add_node`, a contact becomes a candidate if and only if there is room. */
  lemma EnqueuedIff(clock: nat -> int, b: Bucket, tick: nat, c: NodeContact, verified: bool, now: int)
    requires NoDup(b.verified) && NoDup(b.unverified) && c !in AllContacts(b)
    ensures c in Candidates(Enqueue(clock, b, tick, c, verified, now).bucket) <==> HasRoom(clock, b, tick, verified)
  {
    var q := CountQuestionable(b.nodes, clock, tick);
    CountIff(b.nodes, clock, tick);
    hide SomeQuestionable;
    hide CountQuestionable;
    if verified {
      if q > 0 {
        LastContact(b.verified, Fresh(c, now), q);
      }
    } else {
      EnqueuedUnverified(clock, b, tick, c, now);
    }
  }

  lemma EnqueuedUnverified(clock: nat -> int, b: Bucket, tick: nat, c: NodeContact, now: int)
    requires NoDup(b.verified) && NoDup(b.unverified) && c !in AllContacts(b)
    ensures c in Candidates(Enqueue(clock, b, tick, c, false, now).bucket) <==> HasRoom(clock, b, tick, false)
  {
    var q, tick1 := CountQuestionable(b.nodes, clock, tick), tick + |b.nodes|;
    var front := QuestionableFront(b.verified, clock, tick1);
    SuffixFacts(b.verified, front);
    hide CountQuestionable;
    hide Marked;
    hide Pinged;
    hide QuestionableFront;
    hide Contacts;
    hide NoDup;
    hide DropTo;
    QueuedUnverified(b.verified[front..], b.unverified, RoutingNode(c, now, 0, 0, false), q);
  }

  lemma QueuedUnverified(v: seq<RoutingNode>, u: seq<RoutingNode>, n: RoutingNode, q: nat)
    requires NoDup(v) && NoDup(u) && n.contact !in Contacts(v) + Contacts(u)
    ensures |DropTo(v, q)| <= q
    ensures var u' := if |v| < q then u + [n] else u;
            n.contact in Contacts(DropTo(v, q)) + Contacts(DropTo(u', q - |DropTo(v, q)|)) <==> |v| < q
  {
    DropToFacts(v, q);
    if |v| < q {
      LastContact(u, n, q - |v|);
    } else {
      DropToFacts(u, q - |DropTo(v, q)|);
    }
  }

  // ------------------------------------------------------------------------------------------
  // Whether candidates appear at all

  ghost predicate NoCandidates(t: Table) {
    forall i :: 0 <= i < |t.buckets| ==> Unqueued(t.buckets[i])
  }

  ghost predicate Unqueued(b: Bucket) {
    b.verified == [] && b.unverified == []
  }

  /** Every node is good when it is first asked about, and some node is questionable a little later:
      the clock passes the quarter hour of that node in between. */
  ghost predicate QuarterHourPasses(clock: nat -> int, s: seq<RoutingNode>, tick: nat) {
    && (forall j :: 0 <= j < |s| ==> IsGood(s[j], clock(tick + j)))
    && SomeQuestionable(s, clock, tick + |s|)
  }

  /** The call comes down to queueing, and there is room. */
  ghost predicate QueuesFirst(cpl: Id -> nat, clock: nat -> int, t: Table, op: Op)
    requires t.buckets != []
  {
    var i := BucketOf(cpl, op.contact.id, |t.buckets|);
    var nodes := t.buckets[i].nodes;
    && op.TryAddNode? && IndexOf(nodes, op.contact) == |nodes| >= BUCKET_SIZE
    && !WouldSplit(cpl, nodes, i, op.contact.id)
    && QuarterHourPasses(clock, nodes, t.tick + 1)
  }

  lemma EnqueueFirst(clock: nat -> int, b: Bucket, tick: nat, c: NodeContact, verified: bool, now: int)
    requires Unqueued(b)
    ensures Unqueued(Enqueue(clock, b, tick, c, verified, now).bucket) <==> !SomeQuestionable(b.nodes, clock, tick)
  {
    CountIff(b.nodes, clock, tick);
    hide SomeQuestionable;
    hide CountQuestionable;
    hide Marked;
    hide Pinged;
  }

  lemma ReplaceOrEnqueueFirst(clock: nat -> int, b: Bucket, tick: nat, c: NodeContact, verified: bool, now: int)
    requires Unqueued(b)
    ensures Unqueued(ReplaceOrEnqueue(clock, b, tick, c, verified, now).bucket) <==>
            !QuarterHourPasses(clock, b.nodes, tick)
  {
    NoneBadIff(b.nodes, clock, tick);
    hide IsGood;
    hide SomeQuestionable;
    hide Enqueue;
    hide FirstBad;
    EnqueueFirst(clock, b, tick + |b.nodes|, c, verified, now);
  }

  lemma InstalledFirst(t: Table, i: nat, e: Effect)
    requires NoCandidates(t) && i < |t.buckets|
    ensures NoCandidates(Installed(t, i, e)) <==> Unqueued(e.bucket)
  {
    assert Installed(t, i, e).buckets[i] == e.bucket;
  }

  lemma SplitFirst(cpl: Id -> nat, t: Table, i: nat, b: Bucket)
    requires NoCandidates(t) && i < |t.buckets| && Unqueued(b)
    ensures NoCandidates(SplitTable(cpl, t, i, b))
  {
  }

  lemma AddToFullFirst(cpl: Id -> nat, clock: nat -> int, t: Table, i: nat, c: NodeContact, verified: bool)
    requires i < |t.buckets| && NoCandidates(t)
    ensures NoCandidates(AddToFull(cpl, clock, t, i, c, verified)) <==>
            WouldSplit(cpl, t.buckets[i].nodes, i, c.id) || !QuarterHourPasses(clock, t.buckets[i].nodes, t.tick + 1)
  {
    hide WouldSplit;
    hide QuarterHourPasses;
    hide ReplaceOrEnqueue;
    hide SplitTable;
    var b, now, tick := t.buckets[i], clock(t.tick), t.tick + 1;
    assert Unqueued(b);
    ReplaceOrEnqueueFirst(clock, b, tick, c, verified, now);
    InstalledFirst(t, i, ReplaceOrEnqueue(clock, b, tick, c, verified, now));
    InstalledFirst(t, i, Effect(b, tick, [c]));
    SplitFirst(cpl, t, i, WithNode(b, c, now));
  }

  /** While there are no candidates, a call queues the first one if and only if it is an addition to a
      full bucket that neither knows the contact nor splits, during which the quarter hour passes. */
  lemma FirstCandidateIff(cpl: Id -> nat, clock: nat -> int, t: Table, op: Op)
    requires t.buckets != [] && NoCandidates(t)
    ensures NoCandidates(Step(cpl, clock, t, op)) <==> !QueuesFirst(cpl, clock, t, op)
  {
    hide WouldSplit;
    hide QuarterHourPasses;
    hide AddToFull;
    var c := op.contact;
    var i := BucketOf(cpl, c.id, |t.buckets|);
    var b := t.buckets[i];
    assert Unqueued(b);
    if op.FailNode? {
    } else if IndexOf(b.nodes, c) == |b.nodes| {
      assert t.buckets[i := Forgotten(b, c)] == t.buckets;
      AddToFullFirst(cpl, clock, t, i, c, op.verified);
      InstalledFirst(t, i, AddOrPing(b, WithNode(b, c, clock(t.tick)), c, op.verified, t.tick + 1));
    } else {
      InstalledFirst(t, i, Effect(WithBumped(b, IndexOf(b.nodes, c), clock(t.tick), op.verified), t.tick + 1, []));
    }
  }

  ghost predicate NeverCandidates(cpl: Id -> nat, clock: nat -> int, ops: seq<Op>) {
    NoCandidates(Run(cpl, clock, ops)) && (ops == [] || NeverCandidates(cpl, clock, ops[..|ops| - 1]))
  }

  ghost predicate NeverQueues(cpl: Id -> nat, clock: nat -> int, ops: seq<Op>) {
    ops == [] ||
    (NeverQueues(cpl, clock, ops[..|ops| - 1]) &&
     !QueuesFirst(cpl, clock, Run(cpl, clock, ops[..|ops| - 1]), ops[|ops| - 1]))
  }

  /** So a run never has a candidate if and only if no call of it is of that kind. */
  lemma {:induction false} CandidatesIff(cpl: Id -> nat, clock: nat -> int, ops: seq<Op>)
    ensures NeverCandidates(cpl, clock, ops) <==> NeverQueues(cpl, clock, ops)
  {
    hide QueuesFirst;
    hide Step;
    hide NoCandidates;
    if ops == [] {
      assert NoCandidates(Empty(0)) by {
        EmptyHasNone();
      }
    } else {
      var before, op := ops[..|ops| - 1], ops[|ops| - 1];
      CandidatesIff(cpl, clock, before);
      if NeverCandidates(cpl, clock, before) {
        FirstCandidateIff(cpl, clock, Run(cpl, clock, before), op);
      }
    }
  }

  lemma EmptyHasNone()
    ensures NoCandidates(Empty(0))
  {
  }

  /** A call that sees one instant never queues the first candidate: a good node is not questionable. */
  lemma OneInstant(clock: nat -> int, s: seq<RoutingNode>, tick: nat)
    requires forall i :: tick <= i < tick + 2 * |s| ==> clock(i) == clock(tick)
    ensures !QuarterHourPasses(clock, s, tick)
  {
    assert forall j :: 0 <= j < |s| && IsGood(s[j], clock(tick + j)) ==> !IsQuestionable(s[j], clock(tick + |s| + j));
  }

  // ------------------------------------------------------------------------------------------
  // How many candidates

  /** The questionable nodes at one instant. */
  ghost function Questionables(s: seq<RoutingNode>, now: int): (n: nat)
    ensures n <= |s|
  {
    if s == [] then 0 else (if IsQuestionable(s[0], now) then 1 else 0) + Questionables(s[1..], now)
  }

  lemma {:induction false} CountedByNow(s: seq<RoutingNode>, clock: nat -> int, tick: nat, now: int)
    requires forall i :: tick <= i < tick + |s| ==> clock(i) <= now
    ensures CountQuestionable(s, clock, tick) <= Questionables(s, now)
  {
    if s == [] {
    } else {
      CountedByNow(s[1..], clock, tick + 1, now);
    }
  }

  lemma {:induction false} SameQuestionables(s: seq<RoutingNode>, r: seq<RoutingNode>, now: int)
    requires SameTimes(s, r)
    ensures Questionables(s, now) == Questionables(r, now)
  {
    if s == [] {
    } else {
      SameQuestionables(s[1..], r[1..], now);
    }
  }

  /** The calls that reach the trimming loops. */
  ghost predicate Trims(cpl: Id -> nat, clock: nat -> int, t: Table, op: Op)
    requires t.buckets != []
  {
    var i := BucketOf(cpl, op.contact.id, |t.buckets|);
    var b := t.buckets[i];
    var known := IndexOf(b.nodes, op.contact);
    match op
    case TryAddNode(c, _) =>
      && known == |b.nodes| >= BUCKET_SIZE && !WouldSplit(cpl, b.nodes, i, c.id)
      && FirstBad(b.nodes, clock, t.tick + 1) == |b.nodes|
    case FailNode(_) => known < |b.nodes| && !IsGood(WithFailed(b, known, false).nodes[known], clock(t.tick))
  }

  /** No more candidates than questionable nodes, at any time from `now` on. */
  ghost predicate Trimmed(b: Bucket, now: int) {
    |b.verified| + |b.unverified| <= Questionables(b.nodes, now)
  }

  lemma EnqueueTrims(clock: nat -> int, b: Bucket, tick: nat, c: NodeContact, verified: bool, now: int)
    requires Monotone(clock)
    ensures var e := Enqueue(clock, b, tick, c, verified, now);
            tick <= e.tick && |e.bucket.nodes| == |b.nodes| && Trimmed(e.bucket, clock(e.tick))
  {
    var e := Enqueue(clock, b, tick, c, verified, now);
    MarkedSameTimes(b.nodes, clock, tick);
    CountedByNow(b.nodes, clock, tick, clock(e.tick));
    SameQuestionables(b.nodes, Marked(b.nodes, clock, tick), clock(e.tick));
    hide Marked;
    hide CountQuestionable;
    hide Questionables;
    hide Pinged;
  }

  lemma ReplaceFailedTrims(clock: nat -> int, b: Bucket, failed: nat, tick: nat)
    requires Monotone(clock) && failed < |b.nodes|
    ensures var e := ReplaceFailed(clock, b, failed, tick);
            |e.bucket.nodes| <= |b.nodes| && Trimmed(e.bucket, clock(e.tick))
  {
    var a := Aged(clock, b, tick);
    var b1 := Replacement(a.bucket, failed);
    var e := ReplaceFailed(clock, b, failed, tick);
    CountedByNow(b1.nodes, clock, a.tick, clock(e.tick));
    if a.bucket.verified != [] {
      PromotedIff(Remove(b.nodes, failed), a.bucket.verified[0].(queriesFailed := 0, pingOngoing := false));
    }
    hide CountQuestionable;
    hide Questionables;
    hide Promote;
    hide Aged;
  }

  /** The bucket for an id after a call: no more candidates than questionable nodes. */
  ghost predicate TrimmedAt(cpl: Id -> nat, clock: nat -> int, t: Table, r: Table, id: Id)
    requires t.buckets != []
  {
    var i := BucketOf(cpl, id, |t.buckets|);
    && |r.buckets| == |t.buckets|
    && |r.buckets[i].nodes| <= |t.buckets[i].nodes| && Trimmed(r.buckets[i], clock(r.tick))
  }

  lemma InstalledTrims(cpl: Id -> nat, clock: nat -> int, t: Table, e: Effect, id: Id)
    requires t.buckets != []
    requires var i := BucketOf(cpl, id, |t.buckets|);
             |e.bucket.nodes| <= |t.buckets[i].nodes| && Trimmed(e.bucket, clock(e.tick))
    ensures TrimmedAt(cpl, clock, t, Installed(t, BucketOf(cpl, id, |t.buckets|), e), id)
  {
    hide Trimmed;
  }

  /** A call that reaches the last stage of `try_add_node`. */
  lemma TryAddEnqueues(cpl: Id -> nat, clock: nat -> int, t: Table, c: NodeContact, verified: bool, f: Table, i: nat,
                       b: Bucket)
    requires t.buckets != [] && Trims(cpl, clock, t, TryAddNode(c, verified)) && i == BucketOf(cpl, c.id, |t.buckets|)
    requires b == Forgotten(t.buckets[i], c) && f == t.(buckets := t.buckets[i := b])
    ensures TryAdd(cpl, clock, t, c, verified) ==
            Installed(f, i, Enqueue(clock, b, t.tick + 1 + |b.nodes|, c, verified, clock(t.tick)))
  {
    assert f.buckets[i] == b && b.nodes == t.buckets[i].nodes;
    hide WouldSplit;
    hide FirstBad;
    hide Enqueue;
    hide Forgotten;
    hide WithReplaced;
    hide WithNode;
    hide SplitTable;
    hide Installed;
  }

  lemma TryAddTrims(cpl: Id -> nat, clock: nat -> int, t: Table, c: NodeContact, verified: bool)
    requires t.buckets != [] && Monotone(clock) && Trims(cpl, clock, t, TryAddNode(c, verified))
    ensures TrimmedAt(cpl, clock, t, TryAdd(cpl, clock, t, c, verified), c.id)
  {
    hide Enqueue;
    hide TryAdd;
    hide Trims;
    hide Trimmed;
    hide TrimmedAt;
    hide Installed;
    var i := BucketOf(cpl, c.id, |t.buckets|);
    var b := Forgotten(t.buckets[i], c);
    var f := t.(buckets := t.buckets[i := b]);
    var e := Enqueue(clock, b, t.tick + 1 + |b.nodes|, c, verified, clock(t.tick));
    TryAddEnqueues(cpl, clock, t, c, verified, f, i, b);
    EnqueueTrims(clock, b, t.tick + 1 + |b.nodes|, c, verified, clock(t.tick));
    InstalledTrims(cpl, clock, f, e, c.id);
    SameTrimmedAt(cpl, clock, t, f, Installed(f, i, e), c.id);
  }

  lemma SameTrimmedAt(cpl: Id -> nat, clock: nat -> int, t: Table, f: Table, r: Table, id: Id)
    requires t.buckets != [] && f.buckets != [] && |f.buckets| == |t.buckets| && TrimmedAt(cpl, clock, f, r, id)
    requires var i := BucketOf(cpl, id, |t.buckets|); |f.buckets[i].nodes| == |t.buckets[i].nodes|
    ensures TrimmedAt(cpl, clock, t, r, id)
  {
    hide Trimmed;
  }

  lemma FailTrims(cpl: Id -> nat, clock: nat -> int, t: Table, c: NodeContact)
    requires t.buckets != [] && Monotone(clock) && Trims(cpl, clock, t, FailNode(c))
    ensures TrimmedAt(cpl, clock, t, Fail(cpl, clock, t, c), c.id)
  {
    hide IsGood;
    hide ReplaceFailed;
    hide Trimmed;
    hide TrimmedAt;
    hide Installed;
    var i := BucketOf(cpl, c.id, |t.buckets|);
    var b := t.buckets[i];
    var known := IndexOf(b.nodes, c);
    var e := ReplaceFailed(clock, WithFailed(b, known, false), known, t.tick + 1);
    ReplaceFailedTrims(clock, WithFailed(b, known, false), known, t.tick + 1);
    InstalledTrims(cpl, clock, t, e, c.id);
  }

  /** After a call that reaches the trimming loops, the bucket has no more candidates than it has
      questionable nodes, and no more nodes than before. */
  lemma TrimmingTrims(cpl: Id -> nat, clock: nat -> int, t: Table, op: Op)
    requires t.buckets != [] && Monotone(clock) && Trims(cpl, clock, t, op)
    ensures TrimmedAt(cpl, clock, t, Step(cpl, clock, t, op), op.contact.id)
  {
    hide Trims;
    hide TryAdd;
    hide Fail;
    hide TrimmedAt;
    match op
    case TryAddNode(c, verified) => TryAddTrims(cpl, clock, t, c, verified);
    case FailNode(c) => FailTrims(cpl, clock, t, c);
  }

  // ------------------------------------------------------------------------------------------
  // Queueing and promotion, seen from the table

  lemma NotInHalf(cpl: Id -> nat, b: Bucket, k: nat, c: NodeContact, now: int)
    requires c !in Candidates(b)
    ensures c !in Candidates(FarHalf(cpl, WithNode(b, c, now), k))
  {
    HalvesFacts(cpl, b.verified, k);
    HalvesFacts(cpl, b.unverified, k);
  }

  /** A call that does not come down to queueing leaves the queues alone, unless it splits the bucket. */
  lemma QueuesKept(cpl: Id -> nat, clock: nat -> int, f: Table, i: nat, c: NodeContact, verified: bool)
    requires i < |f.buckets|
    requires || |f.buckets[i].nodes| < BUCKET_SIZE || WouldSplit(cpl, f.buckets[i].nodes, i, c.id)
             || FirstBad(f.buckets[i].nodes, clock, f.tick + 1) < |f.buckets[i].nodes|
    ensures var b, r := f.buckets[i], AddNew(cpl, clock, f, i, c, verified).buckets[i];
            || (r.verified == b.verified && r.unverified == b.unverified)
            || r == FarHalf(cpl, WithNode(b, c, clock(f.tick)), SplitBit(i))
  {
    hide WouldSplit;
    hide FirstBad;
    hide Enqueue;
    hide FarHalf;
    hide NearHalf;
  }

  lemma NotQueued(cpl: Id -> nat, clock: nat -> int, f: Table, i: nat, c: NodeContact, verified: bool)
    requires i < |f.buckets| && c !in Candidates(f.buckets[i])
    requires || |f.buckets[i].nodes| < BUCKET_SIZE || WouldSplit(cpl, f.buckets[i].nodes, i, c.id)
             || FirstBad(f.buckets[i].nodes, clock, f.tick + 1) < |f.buckets[i].nodes|
    ensures c !in Candidates(AddNew(cpl, clock, f, i, c, verified).buckets[i])
  {
    hide WouldSplit;
    hide FirstBad;
    hide AddNew;
    hide FarHalf;
    QueuesKept(cpl, clock, f, i, c, verified);
    NotInHalf(cpl, f.buckets[i], SplitBit(i), c, clock(f.tick));
    hide Contacts;
  }

  /** After `try_add_node` the contact is a candidate of its bucket if and only if the call came down to
      queueing it and there was room. */
  lemma BecomesCandidateIff(cpl: Id -> nat, ok: NodeContact -> bool, clock: nat -> int, t: Table, c: NodeContact,
                            verified: bool)
    requires TableInv(cpl, ok, clock, t)
    ensures var i := BucketOf(cpl, c.id, |t.buckets|);
            var b := Forgotten(t.buckets[i], c);
            c in Candidates(TryAdd(cpl, clock, t, c, verified).buckets[i]) <==>
            Trims(cpl, clock, t, TryAddNode(c, verified)) && HasRoom(clock, b, t.tick + 1 + |b.nodes|, verified)
  {
    var i := BucketOf(cpl, c.id, |t.buckets|);
    assert BucketOk(t.buckets[i], clock(t.tick));
    hide TableInv;
    hide BucketOk;
    hide TryAdd;
    hide HasRoom;
    hide Candidates;
    hide WouldSplit;
    hide FirstBad;
    if IndexOf(t.buckets[i].nodes, c) < |t.buckets[i].nodes| {
      KnownIsNoCandidate(cpl, clock, t, c, verified);
    } else if Trims(cpl, clock, t, TryAddNode(c, verified)) {
      QueuedIfRoom(cpl, clock, t, c, verified);
    } else {
      UnknownNotQueued(cpl, clock, t, c, verified);
    }
  }

  lemma KnownIsNoCandidate(cpl: Id -> nat, clock: nat -> int, t: Table, c: NodeContact, verified: bool)
    requires t.buckets != [] && BucketOk(t.buckets[BucketOf(cpl, c.id, |t.buckets|)], clock(t.tick))
    requires var b := t.buckets[BucketOf(cpl, c.id, |t.buckets|)]; IndexOf(b.nodes, c) < |b.nodes|
    ensures c !in Candidates(TryAdd(cpl, clock, t, c, verified).buckets[BucketOf(cpl, c.id, |t.buckets|)])
  {
    hide AddNew;
    var b := t.buckets[BucketOf(cpl, c.id, |t.buckets|)];
    ContactsMember(b.nodes, IndexOf(b.nodes, c));
  }

  lemma QueuedIfRoom(cpl: Id -> nat, clock: nat -> int, t: Table, c: NodeContact, verified: bool)
    requires t.buckets != [] && BucketOk(t.buckets[BucketOf(cpl, c.id, |t.buckets|)], clock(t.tick))
    requires Trims(cpl, clock, t, TryAddNode(c, verified))
    ensures var i := BucketOf(cpl, c.id, |t.buckets|);
            var b := Forgotten(t.buckets[i], c);
            c in Candidates(TryAdd(cpl, clock, t, c, verified).buckets[i]) <==>
            HasRoom(clock, b, t.tick + 1 + |b.nodes|, verified)
  {
    hide TryAdd;
    hide Enqueue;
    hide HasRoom;
    hide Candidates;
    hide WouldSplit;
    hide FirstBad;
    var i := BucketOf(cpl, c.id, |t.buckets|);
    var b := Forgotten(t.buckets[i], c);
    NotKnown(t.buckets[i].nodes, c);
    ForgottenOk(t.buckets[i], c, clock(t.tick));
    TryAddEnqueues(cpl, clock, t, c, verified, t.(buckets := t.buckets[i := b]), i, b);
    EnqueuedIff(clock, b, t.tick + 1 + |b.nodes|, c, verified, clock(t.tick));
  }

  lemma ForgottenIsOut(b: Bucket, c: NodeContact, now: int)
    requires BucketOk(b, now)
    ensures c !in Candidates(Forgotten(b, c)) && Forgotten(b, c).nodes == b.nodes
  {
    WithoutFacts(b.verified, c);
    WithoutFacts(b.unverified, c);
  }

  lemma UnknownNotQueued(cpl: Id -> nat, clock: nat -> int, t: Table, c: NodeContact, verified: bool)
    requires t.buckets != [] && BucketOk(t.buckets[BucketOf(cpl, c.id, |t.buckets|)], clock(t.tick))
    requires var b := t.buckets[BucketOf(cpl, c.id, |t.buckets|)]; IndexOf(b.nodes, c) == |b.nodes|
    requires !Trims(cpl, clock, t, TryAddNode(c, verified))
    ensures c !in Candidates(TryAdd(cpl, clock, t, c, verified).buckets[BucketOf(cpl, c.id, |t.buckets|)])
  {
    hide AddNew;
    hide WouldSplit;
    hide FirstBad;
    hide BucketOk;
    hide Candidates;
    hide Forgotten;
    hide WithBumped;
    var i := BucketOf(cpl, c.id, |t.buckets|);
    var b := t.buckets[i];
    ForgottenIsOut(b, c, clock(t.tick));
    NotQueued(cpl, clock, t.(buckets := t.buckets[i := Forgotten(b, c)]), i, c, verified);
  }

  /** A failure that makes a node bad takes the first candidate that has not aged from its queue; it is
      a node afterwards if and only if some node other than the failed one was heard from after it. */
  lemma BecomesNodeIff(cpl: Id -> nat, ok: NodeContact -> bool, clock: nat -> int, t: Table, c: NodeContact)
    requires TableInv(cpl, ok, clock, t) && Trims(cpl, clock, t, FailNode(c))
    ensures var i := BucketOf(cpl, c.id, |t.buckets|);
            var b, known := t.buckets[i], IndexOf(t.buckets[i].nodes, c);
            var queue := Aged(clock, b, t.tick + 1).bucket.verified;
            queue != [] ==>
              (queue[0].contact in Contacts(Fail(cpl, clock, t, c).buckets[i].nodes) <==>
               SomeLater(Remove(b.nodes, known), queue[0]))
  {
    var i := BucketOf(cpl, c.id, |t.buckets|);
    var b, known, now := t.buckets[i], IndexOf(t.buckets[i].nodes, c), clock(t.tick);
    var b1 := WithFailed(b, known, false);
    var a := Aged(clock, b1, t.tick + 1).bucket;
    assert BucketOk(b, now);
    WithFailedOk(b, known, false, now);
    AgedOk(clock, b1, t.tick + 1, now);
    if a.verified != [] {
      PromotionIff(a, known, now);
    }
    assert Remove(b1.nodes, known) == Remove(b.nodes, known);
    hide TableInv;
    hide IsGood;
    hide SomeLater;
    hide Promote;
    hide CountQuestionable;
    hide Contacts;
  }
}
