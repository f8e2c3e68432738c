/** Runs that show what the routing table does not promise: a candidate is queued, their number
    exceeds the bound of the comment on `Bucket`, and a promoted candidate is lost. */
module RoutingWitnesses {
  import opened NodeIds
  import opened Sequences
  import opened RoutingSpec
  import opened RoutingInvariants
  import opened RoutingBounds
  import opened RoutingCandidates
  import opened RoutingSlack

  const QUARTER: int := 15 * MINUTE

  /** Nine calls are made; while the last one looks at eight good nodes a second time, a quarter of an
      hour since the first call is over. */
  function Clock(): nat -> int {
    k => if k == 0 then 0 else if k < 8 then 1 else if k < 17 then QUARTER else QUARTER + 1
  }

  lemma ClockMonotone()
    ensures Monotone(Clock())
  {
  }

  ghost function Freshes(cs: seq<NodeContact>, clock: nat -> int): (r: seq<RoutingNode>)
    ensures |r| == |cs| && forall j :: 0 <= j < |cs| ==> r[j] == Fresh(cs[j], clock(j))
  {
    seq(|cs|, j requires 0 <= j < |cs| => Fresh(cs[j], clock(j)))
  }

  /** The table after the first calls. */
  ghost function Filled(cs: seq<NodeContact>, clock: nat -> int): Table {
    Table([Bucket(Freshes(cs, clock), [], [])], |cs|, [])
  }

  lemma FilledStep(cpl: Id -> nat, clock: nat -> int, cs: seq<NodeContact>, c: NodeContact)
    requires |cs| < BUCKET_SIZE && c !in cs
    ensures TryAdd(cpl, clock, Filled(cs, clock), c, true) == Filled(cs + [c], clock)
  {
    var t := Filled(cs, clock);
    assert forall j :: 0 <= j < |cs| ==> cs[j] in cs;
    UnknownContact(t.buckets[0].nodes, c);
    TryAddUnknown(cpl, clock, t, 0, c);
    hide TryAdd;
    assert Freshes(cs + [c], clock) == Freshes(cs, clock) + [Fresh(c, clock(|cs|))];
  }

  lemma {:induction false} FilledRun(cpl: Id -> nat, clock: nat -> int, cs: seq<NodeContact>)
    requires |cs| <= BUCKET_SIZE && Distinct(cs)
    ensures Run(cpl, clock, Adds(cs)) == Filled(cs, clock)
  {
    hide TryAdd;
    if cs == [] {
      assert Freshes(cs, clock) == [];
    } else {
      var before, c := cs[..|cs| - 1], cs[|cs| - 1];
      assert before + [c] == cs;
      FilledRun(cpl, clock, before);
      RunAdds(cpl, clock, before, c);
      FilledStep(cpl, clock, before, c);
    }
  }

  /** One candidate waits, and the first of eight nodes is questionable. */
  ghost predicate OneWaits(t: Table, cs: seq<NodeContact>, c: NodeContact) {
    && |t.buckets| == 1 && t.tick == 25 && |cs| == BUCKET_SIZE
    && var b := t.buckets[0];
       && SameTimes(Freshes(cs, Clock()), b.nodes)
       && b.verified == [Fresh(c, QUARTER)] && b.unverified == []
  }

  lemma NinthQueued(cs: seq<NodeContact>, c: NodeContact)
    requires |cs| == BUCKET_SIZE
    ensures var b, clock := Bucket(Freshes(cs, Clock()), [], []), Clock();
            var e := ReplaceOrEnqueue(clock, b, 9, c, true, QUARTER);
            && SameTimes(Freshes(cs, clock), e.bucket.nodes) && e.tick == 25
            && e.bucket.verified == [Fresh(c, QUARTER)] && e.bucket.unverified == []
  {
    var clock := Clock();
    var nodes := Freshes(cs, clock);
    NoneBadIff(nodes, clock, 9);
    MarkedSameTimes(nodes, clock, 17);
    hide FirstBad;
    hide CountQuestionable;
    hide Marked;
    hide Pinged;
  }

  /** The run that queues a candidate: a ninth contact for a bucket that does not split. */
  lemma QueuedRun(cpl: Id -> nat, cs: seq<NodeContact>, c: NodeContact)
    requires |cs| == BUCKET_SIZE && Distinct(cs) && c !in cs && cpl(c.id) == 0 && forall x :: x in cs ==> cpl(x.id) == 0
    ensures OneWaits(Run(cpl, Clock(), Adds(cs + [c])), cs, c)
  {
    hide TryAdd;
    hide Distinct;
    FilledRun(cpl, Clock(), cs);
    RunAdds(cpl, Clock(), cs, c);
    NinthStep(cpl, cs, c);
    hide Run;
  }

  lemma NinthStep(cpl: Id -> nat, cs: seq<NodeContact>, c: NodeContact)
    requires |cs| == BUCKET_SIZE && c !in cs && cpl(c.id) == 0 && forall x :: x in cs ==> cpl(x.id) == 0
    ensures OneWaits(TryAdd(cpl, Clock(), Filled(cs, Clock()), c, true), cs, c)
  {
    var clock := Clock();
    var t := Filled(cs, clock);
    assert forall j :: 0 <= j < |cs| ==> cs[j] in cs;
    UnknownContact(t.buckets[0].nodes, c);
    TryAddUnknown(cpl, clock, t, 0, c);
    NodesContacts(t.buckets[0].nodes, cs);
    AllNear(cpl, t.buckets[0].nodes, SplitBit(0));
    assert !WouldSplit(cpl, t.buckets[0].nodes, 0, c.id);
    NinthQueued(cs, c);
    hide TryAdd;
    hide WouldSplit;
    hide ReplaceOrEnqueue;
  }

  lemma {:induction false} NoneQuestionable(s: seq<RoutingNode>, now: int)
    requires forall j :: 0 <= j < |s| ==> !IsQuestionable(s[j], now)
    ensures Questionables(s, now) == 0
  {
    if s == [] {
    } else {
      NoneQuestionable(s[1..], now);
    }
  }

  /** Hearing from the questionable node again leaves eight good nodes and a candidate. */
  lemma BumpExceeds(cpl: Id -> nat, t: Table, cs: seq<NodeContact>, c: NodeContact)
    requires OneWaits(t, cs, c) && cpl(cs[0].id) == 0
    ensures var r := TryAdd(cpl, Clock(), t, cs[0], true);
            |r.buckets| == 1 && !WithinBound(r.buckets[0], Clock()(r.tick))
  {
    var b := t.buckets[0];
    assert IndexOf(b.nodes, cs[0]) == 0;
    var r := WithBumped(b, 0, QUARTER + 1, true);
    forall j | 0 <= j < |r.nodes| ensures !IsQuestionable(r.nodes[j], QUARTER + 1) {
      if j < 7 {
        assert r.nodes[j] == b.nodes[j + 1];
      }
    }
    NoneQuestionable(r.nodes, QUARTER + 1);
    hide Questionables;
    hide AddNew;
  }

  /** The failure of the questionable node loses the candidate. */
  lemma FailureLoses(cpl: Id -> nat, t: Table, cs: seq<NodeContact>, c: NodeContact)
    requires OneWaits(t, cs, c) && cpl(cs[0].id) == 0 && c !in cs
    ensures var r := Fail(cpl, Clock(), t, cs[0]);
            |r.buckets| == 1 && |r.buckets[0].nodes| == 7 && c !in AllContacts(r.buckets[0])
  {
    var b := t.buckets[0];
    assert IndexOf(b.nodes, cs[0]) == 0;
    FailureLosesIn(b, cs, c);
    hide FailBucket;
  }

  lemma FailureLosesIn(b: Bucket, cs: seq<NodeContact>, c: NodeContact)
    requires |cs| == BUCKET_SIZE && c !in cs && SameTimes(Freshes(cs, Clock()), b.nodes)
    requires b.verified == [Fresh(c, QUARTER)] && b.unverified == []
    ensures var r := FailBucket(Clock(), b, 0, 25).bucket; |r.nodes| == 7 && c !in AllContacts(r)
  {
    var b1 := WithFailed(b, 0, false);
    var rest, n := Remove(b1.nodes, 0), Fresh(c, QUARTER);
    assert Aged(Clock(), b1, 26).bucket == b1;
    assert rest == b.nodes[1..];
    assert !SomeLater(rest, n);
    PromotedIff(rest, n);
    NodesContacts(rest, cs[1..]);
    hide Promote;
    hide CountQuestionable;
    hide Aged;
    hide SomeLater;
  }

  // ------------------------------------------------------------------------------------------
  // For every node

  /** Nine contacts with the first bit different from that of this node. */
  lemma NineContacts(self: Id, cpl: Id -> nat) returns (cs: seq<NodeContact>, c: NodeContact)
    requires SharedWith(cpl, self)
    ensures |cs| == BUCKET_SIZE && Distinct(cs) && c !in cs && cpl(c.id) == 0 && forall x :: x in cs ==> cpl(x.id) == 0
  {
    var id := Sibling(self, 0);
    SiblingPrefix(self, 0);
    assert cpl(id) == CommonPrefix(self, id);
    hide *;
    cs := seq(8, j requires 0 <= j => NodeContact(id, j));
    c := NodeContact(id, 8);
  }

  /** Whatever the own id, some run queues a candidate. */
  lemma SomeRunQueues(self: Id, cpl: Id -> nat) returns (ops: seq<Op>, c: NodeContact)
    requires SharedWith(cpl, self)
    ensures Monotone(Clock())
    ensures var r := Run(cpl, Clock(), ops); |r.buckets| == 1 && Candidates(r.buckets[0]) == {c}
  {
    hide Run;
    ClockMonotone();
    hide Clock;
    hide Distinct;
    var cs;
    cs, c := NineContacts(self, cpl);
    QueuedRun(cpl, cs, c);
    ops := Adds(cs + [c]);
    OneCandidate(Run(cpl, Clock(), ops), cs, c);
  }

  lemma OneCandidate(t: Table, cs: seq<NodeContact>, c: NodeContact)
    requires OneWaits(t, cs, c)
    ensures Candidates(t.buckets[0]) == {c}
  {
    assert t.buckets[0].verified[1..] == [];
  }

  /** Some run exceeds the bound of the comment. */
  lemma SomeRunExceeds(self: Id, cpl: Id -> nat) returns (ops: seq<Op>)
    requires SharedWith(cpl, self)
    ensures Monotone(Clock())
    ensures var r := Run(cpl, Clock(), ops); |r.buckets| == 1 && !WithinBound(r.buckets[0], Clock()(r.tick))
  {
    ClockMonotone();
    var cs, c := NineContacts(self, cpl);
    QueuedRun(cpl, cs, c);
    assert cs[0] in cs;
    RunAdds(cpl, Clock(), cs + [c], cs[0]);
    hide Run;
    hide TryAdd;
    BumpExceeds(cpl, Run(cpl, Clock(), Adds(cs + [c])), cs, c);
    ops := Adds(cs + [c] + [cs[0]]);
  }

  /** Some run loses a candidate with the node that it was to replace. */
  lemma SomeRunLoses(self: Id, cpl: Id -> nat) returns (ops: seq<Op>, failed: NodeContact, c: NodeContact)
    requires SharedWith(cpl, self)
    ensures Monotone(Clock())
    ensures var before, r := Run(cpl, Clock(), ops), Run(cpl, Clock(), ops + [FailNode(failed)]);
            && |before.buckets| == 1 && |before.buckets[0].nodes| == 8 && c in Candidates(before.buckets[0])
            && |r.buckets| == 1 && |r.buckets[0].nodes| == 7 && c !in AllContacts(r.buckets[0])
  {
    ClockMonotone();
    var cs;
    cs, c := NineContacts(self, cpl);
    QueuedRun(cpl, cs, c);
    failed := cs[0];
    assert cs[0] in cs;
    ops := Adds(cs + [c]);
    assert (ops + [FailNode(failed)])[..|ops|] == ops;
    assert Run(cpl, Clock(), ops + [FailNode(failed)]) == Fail(cpl, Clock(), Run(cpl, Clock(), ops), failed);
    hide Run;
    hide Fail;
    FailureLoses(cpl, Run(cpl, Clock(), ops), cs, c);
  }
}
