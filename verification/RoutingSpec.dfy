/** What the operations of the routing table do to its state (src/bittorrent/routing_table.{h,cpp}).

    The functions are written over `cpl`, which gives the number of leading bits an id shares with
    the id of this node, and over `clock`, the sequence of readings that the calls of `Clock::now()`
    return; `tick` counts the readings made so far.  Both are arbitrary here, so whatever is proved
    holds for every own id and every timing.  The class in `RoutingTables` refines these functions
    and supplies the real `cpl`. */
module RoutingSpec {
  import opened NodeIds
  import opened Options

  const BUCKET_SIZE: nat := 8
  const MINUTE: int := 60_000_000_000   // nanoseconds
  const HOUR: int := 60 * MINUTE

  datatype NodeContact = NodeContact(id: Id, endpoint: nat)

  datatype RoutingNode = RoutingNode(
    contact: NodeContact,
    recvTime: int,
    replyTime: int,
    queriesFailed: nat,
    pingOngoing: bool)

  datatype Bucket = Bucket(nodes: seq<RoutingNode>, verified: seq<RoutingNode>, unverified: seq<RoutingNode>)

  /** `pings` is the history of calls to `_send_ping`. */
  datatype Table = Table(buckets: seq<Bucket>, tick: nat, pings: seq<NodeContact>)

  const EMPTY_BUCKET := Bucket([], [], [])

  ghost function Empty(tick: nat): Table {
    Table([EMPTY_BUCKET], tick, [])
  }

  predicate IsGood(n: RoutingNode, now: int) {
    n.queriesFailed <= 2 && n.recvTime >= now - 15 * MINUTE && n.replyTime >= now - 2 * HOUR
  }

  predicate IsQuestionable(n: RoutingNode, now: int) {
    n.recvTime < now - 15 * MINUTE
  }

  // ------------------------------------------------------------------------------------------
  // Which bucket

  ghost function BucketOf(cpl: Id -> nat, id: Id, size: nat): nat
    requires size > 0
  {
    Min(cpl(id), size - 1)
  }

  /** The nodes within, and beyond, the distance allowed to bucket k. */
  ghost function Near(cpl: Id -> nat, s: seq<RoutingNode>, k: nat): (r: seq<RoutingNode>) {
    if s == [] then []
    else if cpl(s[0].contact.id) >= k then [s[0]] + Near(cpl, s[1..], k)
    else Near(cpl, s[1..], k)
  }

  ghost function Far(cpl: Id -> nat, s: seq<RoutingNode>, k: nat): (r: seq<RoutingNode>) {
    if s == [] then []
    else if cpl(s[0].contact.id) < k then [s[0]] + Far(cpl, s[1..], k)
    else Far(cpl, s[1..], k)
  }

  /** The bit position at which bucket `i` splits; there is none beyond the last bit of an id. */
  function SplitBit(i: nat): nat {
    Min(i + 1, BITS)
  }

  ghost predicate WouldSplit(cpl: Id -> nat, nodes: seq<RoutingNode>, i: nat, id: Id) {
    && cpl(id) >= Min(i, BITS)
    && |nodes| >= BUCKET_SIZE
    && 0 < |Near(cpl, nodes, SplitBit(i))| + (if cpl(id) >= SplitBit(i) then 1 else 0) <= BUCKET_SIZE
  }

  ghost function NearHalf(cpl: Id -> nat, b: Bucket, k: nat): Bucket {
    Bucket(Near(cpl, b.nodes, k), Near(cpl, b.verified, k), Near(cpl, b.unverified, k))
  }

  ghost function FarHalf(cpl: Id -> nat, b: Bucket, k: nat): Bucket {
    Bucket(Far(cpl, b.nodes, k), Far(cpl, b.verified, k), Far(cpl, b.unverified, k))
  }

  // ------------------------------------------------------------------------------------------
  // Pieces of the operations

  function IndexOf(s: seq<RoutingNode>, c: NodeContact): (i: nat)
    ensures i <= |s|
    ensures i < |s| ==> s[i].contact == c
    ensures forall j :: 0 <= j < i ==> s[j].contact != c
  {
    if s == [] || s[0].contact == c then 0 else 1 + IndexOf(s[1..], c)
  }

  function Remove(s: seq<RoutingNode>, i: nat): seq<RoutingNode>
    requires i < |s|
  {
    s[..i] + s[i + 1..]
  }

  function Without(s: seq<RoutingNode>, c: NodeContact): seq<RoutingNode> {
    if s == [] then []
    else if s[0].contact == c then Without(s[1..], c)
    else [s[0]] + Without(s[1..], c)
  }

  /** The index of the first node that is not good, each asked at its own clock reading. */
  function FirstBad(s: seq<RoutingNode>, clock: nat -> int, tick: nat): (i: nat)
    ensures i <= |s|
  {
    if s == [] || !IsGood(s[0], clock(tick)) then 0 else 1 + FirstBad(s[1..], clock, tick + 1)
  }

  function CountQuestionable(s: seq<RoutingNode>, clock: nat -> int, tick: nat): (n: nat)
    ensures n <= |s|
  {
    if s == [] then 0
    else (if IsQuestionable(s[0], clock(tick)) then 1 else 0) + CountQuestionable(s[1..], clock, tick + 1)
  }

  /** The nodes after every questionable one has been marked as pinged. */
  function Marked(s: seq<RoutingNode>, clock: nat -> int, tick: nat): (r: seq<RoutingNode>)
    ensures |r| == |s|
  {
    if s == [] then []
    else [if IsQuestionable(s[0], clock(tick)) then s[0].(pingOngoing := true) else s[0]]
         + Marked(s[1..], clock, tick + 1)
  }

  /** The contacts pinged on the way: the questionable ones that no ping was under way for. */
  function Pinged(s: seq<RoutingNode>, clock: nat -> int, tick: nat): seq<NodeContact> {
    if s == [] then []
    else if IsQuestionable(s[0], clock(tick)) && !s[0].pingOngoing then
      [s[0].contact] + Pinged(s[1..], clock, tick + 1)
    else Pinged(s[1..], clock, tick + 1)
  }

  /** How many questionable entries stand at the front of a queue. */
  function QuestionableFront(s: seq<RoutingNode>, clock: nat -> int, tick: nat): (n: nat)
    ensures n <= |s|
  {
    if s == [] || !IsQuestionable(s[0], clock(tick)) then 0
    else 1 + QuestionableFront(s[1..], clock, tick + 1)
  }

  /** The clock readings that finding this out takes. */
  function FrontReadings(s: seq<RoutingNode>, clock: nat -> int, tick: nat): nat {
    var n := QuestionableFront(s, clock, tick);
    if n < |s| then n + 1 else n
  }

  function DropTo(s: seq<RoutingNode>, n: nat): seq<RoutingNode> {
    if |s| <= n then s else s[|s| - n..]
  }

  /** The two trimming loops: no more candidates than questionable nodes, verified ones first. */
  function Trim(b: Bucket, questionable: nat): (r: Bucket)
    ensures |r.verified| + |r.unverified| <= questionable
    ensures r.nodes == b.nodes
  {
    var v := DropTo(b.verified, questionable);
    b.(verified := v, unverified := DropTo(b.unverified, questionable - |v|))
  }

  function Fresh(c: NodeContact, now: int): RoutingNode {
    RoutingNode(c, now, now, 0, false)
  }

  function Bumped(n: RoutingNode, now: int, verified: bool): RoutingNode {
    if verified then RoutingNode(n.contact, now, now, 0, false) else n.(recvTime := now)
  }

  /** Insertion of a promoted candidate: before the first node heard from later, or not at all. */
  function Promote(s: seq<RoutingNode>, n: RoutingNode): seq<RoutingNode> {
    if s == [] then []
    else if s[0].recvTime > n.recvTime then [n] + s
    else [s[0]] + Promote(s[1..], n)
  }

  // ------------------------------------------------------------------------------------------
  // try_add_node

  /** The effect of a stage on one bucket, the clock and the pings. */
  datatype Effect = Effect(bucket: Bucket, tick: nat, pings: seq<NodeContact>)

  function WithNode(b: Bucket, c: NodeContact, now: int): Bucket {
    b.(nodes := b.nodes + [Fresh(c, now)])
  }

  function WithBumped(b: Bucket, i: nat, now: int, verified: bool): Bucket
    requires i < |b.nodes|
  {
    b.(nodes := Remove(b.nodes, i) + [Bumped(b.nodes[i], now, verified)])
  }

  function WithReplaced(b: Bucket, i: nat, c: NodeContact, now: int): Bucket
    requires i < |b.nodes|
  {
    b.(nodes := Remove(b.nodes, i) + [Fresh(c, now)])
  }

  /** A verified contact is taken in; an unverified one is pinged first. */
  function AddOrPing(b: Bucket, added: Bucket, c: NodeContact, verified: bool, tick: nat): Effect {
    if verified then Effect(added, tick, []) else Effect(b, tick, [c])
  }

  function QueueVerified(b: Bucket, c: NodeContact, questionable: nat, now: int): Bucket {
    if questionable > 0 then b.(verified := b.verified + [Fresh(c, now)]) else b
  }

  /** An unverified contact first drives out verified ones that have become old. */
  function QueueUnverified(clock: nat -> int, b: Bucket, tick: nat, c: NodeContact, questionable: nat,
                           now: int): Bucket {
    var v := b.verified[QuestionableFront(b.verified, clock, tick)..];
    if |v| < questionable then
      b.(verified := v, unverified := b.unverified + [RoutingNode(c, now, 0, 0, false)])
    else b.(verified := v)
  }

  function PingingAll(clock: nat -> int, b: Bucket, tick: nat): Bucket {
    b.(nodes := Marked(b.nodes, clock, tick))
  }

  /** The last resort: all nodes are good, so the contact may only become a candidate. */
  function Enqueue(clock: nat -> int, b: Bucket, tick: nat, c: NodeContact, verified: bool, now: int): Effect {
    var q := CountQuestionable(b.nodes, clock, tick);
    var pings := Pinged(b.nodes, clock, tick);
    var b1 := PingingAll(clock, b, tick);
    var tick1 := tick + |b.nodes|;
    if verified then Effect(Trim(QueueVerified(b1, c, q, now), q), tick1, pings)
    else
      Effect(Trim(QueueUnverified(clock, b1, tick1, c, q, now), q),
             tick1 + FrontReadings(b1.verified, clock, tick1), pings)
  }

  /** The bucket is full and does not split: replace the first bad node, or queue the contact. */
  function ReplaceOrEnqueue(clock: nat -> int, b: Bucket, tick: nat, c: NodeContact, verified: bool, now: int): Effect {
    var bad := FirstBad(b.nodes, clock, tick);
    if bad < |b.nodes| then AddOrPing(b, WithReplaced(b, bad, c, now), c, verified, tick + bad + 1)
    else Enqueue(clock, b, tick + |b.nodes|, c, verified, now)
  }

  function Installed(t: Table, i: nat, e: Effect): Table
    requires i < |t.buckets|
  {
    Table(t.buckets[i := e.bucket], e.tick, t.pings + e.pings)
  }

  function Forgotten(b: Bucket, c: NodeContact): Bucket {
    b.(verified := Without(b.verified, c), unverified := Without(b.unverified, c))
  }

  ghost function SplitTable(cpl: Id -> nat, t: Table, i: nat, b: Bucket): Table
    requires i < |t.buckets|
  {
    t.(buckets := t.buckets[i := FarHalf(cpl, b, SplitBit(i))] + [NearHalf(cpl, b, SplitBit(i))])
  }

  /** The bucket is full: split it, replace a bad node, or queue the contact. */
  ghost function AddToFull(cpl: Id -> nat, clock: nat -> int, t: Table, i: nat, c: NodeContact,
                           verified: bool): (r: Table)
    requires i < |t.buckets|
    ensures |t.buckets| <= |r.buckets|
  {
    var b := t.buckets[i];
    var now, tick := clock(t.tick), t.tick + 1;
    if !WouldSplit(cpl, b.nodes, i, c.id) then
      Installed(t, i, ReplaceOrEnqueue(clock, b, tick, c, verified, now))
    else if verified then
      SplitTable(cpl, t, i, WithNode(b, c, now)).(tick := tick)
    else
      Installed(t, i, Effect(b, tick, [c]))
  }

  /** The contact is neither a node nor a candidate of bucket `i`, which is the one for its id. */
  ghost function AddNew(cpl: Id -> nat, clock: nat -> int, t: Table, i: nat, c: NodeContact, verified: bool): (r: Table)
    requires i < |t.buckets|
    ensures |t.buckets| <= |r.buckets|
  {
    var b := t.buckets[i];
    if |b.nodes| < BUCKET_SIZE then
      Installed(t, i, AddOrPing(b, WithNode(b, c, clock(t.tick)), c, verified, t.tick + 1))
    else
      AddToFull(cpl, clock, t, i, c, verified)
  }

  ghost function TryAdd(cpl: Id -> nat, clock: nat -> int, t: Table, c: NodeContact, verified: bool): (r: Table)
    requires t.buckets != []
    ensures |t.buckets| <= |r.buckets|
  {
    var i := BucketOf(cpl, c.id, |t.buckets|);
    var b := t.buckets[i];
    var known := IndexOf(b.nodes, c);
    if known < |b.nodes| then
      Installed(t, i, Effect(WithBumped(b, known, clock(t.tick), verified), t.tick + 1, []))
    else
      AddNew(cpl, clock, t.(buckets := t.buckets[i := Forgotten(b, c)]), i, c, verified)
  }

  // ------------------------------------------------------------------------------------------
  // fail_node

  function PromoteCandidate(b: Bucket, failed: nat): Bucket
    requires failed < |b.nodes| && b.verified != []
  {
    var c := b.verified[0];
    b.(nodes := Promote(Remove(b.nodes, failed), c.(queriesFailed := 0, pingOngoing := false)),
       verified := b.verified[1..])
  }

  /** A verified candidate takes the place of the failed node; an unverified one is only taken from
      its queue, to be pinged. */
  function Replacement(b: Bucket, failed: nat): (r: Bucket)
    requires failed < |b.nodes|
  {
    if b.verified != [] then PromoteCandidate(b, failed)
    else if b.unverified != [] then b.(unverified := b.unverified[1..])
    else b
  }

  /** Both queues without the questionable candidates at their fronts. */
  function Aged(clock: nat -> int, b: Bucket, tick: nat): (e: Effect)
    ensures tick <= e.tick && e.bucket.nodes == b.nodes
  {
    var v := QuestionableFront(b.verified, clock, tick);
    var tick1 := tick + FrontReadings(b.verified, clock, tick);
    var u := QuestionableFront(b.unverified, clock, tick1);
    Effect(b.(verified := b.verified[v..], unverified := b.unverified[u..]),
           tick1 + FrontReadings(b.unverified, clock, tick1), [])
  }

  /** The node has become bad: look for a replacement among the candidates. */
  function ReplaceFailed(clock: nat -> int, b: Bucket, failed: nat, tick: nat): Effect
    requires failed < |b.nodes|
  {
    var e := Aged(clock, b, tick);
    var b1 := Replacement(e.bucket, failed);
    var pings := if e.bucket.verified == [] && e.bucket.unverified != [] then [e.bucket.unverified[0].contact] else [];
    Effect(Trim(b1, CountQuestionable(b1.nodes, clock, e.tick)), e.tick + |b1.nodes|, pings)
  }

  function WithFailed(b: Bucket, i: nat, pinged: bool): Bucket
    requires i < |b.nodes|
  {
    var n := b.nodes[i];
    b.(nodes := b.nodes[i := n.(queriesFailed := n.queriesFailed + 1, pingOngoing := pinged || n.pingOngoing)])
  }

  function FailBucket(clock: nat -> int, b: Bucket, i: nat, tick: nat): Effect
    requires i < |b.nodes|
  {
    var b1 := WithFailed(b, i, false);
    if !IsGood(b1.nodes[i], clock(tick)) then ReplaceFailed(clock, b1, i, tick + 1)
    else if IsQuestionable(b1.nodes[i], clock(tick + 1)) then
      Effect(WithFailed(b, i, true), tick + 2, [b.nodes[i].contact])
    else Effect(b1, tick + 2, [])
  }

  ghost function Fail(cpl: Id -> nat, clock: nat -> int, t: Table, c: NodeContact): Table
    requires t.buckets != []
  {
    var i := BucketOf(cpl, c.id, |t.buckets|);
    var b := t.buckets[i];
    var known := IndexOf(b.nodes, c);
    if known < |b.nodes| then Installed(t, i, FailBucket(clock, b, known, t.tick)) else t
  }

  // ------------------------------------------------------------------------------------------
  // Runs

  datatype Op = TryAddNode(contact: NodeContact, verified: bool) | FailNode(contact: NodeContact)

  ghost function Step(cpl: Id -> nat, clock: nat -> int, t: Table, op: Op): (r: Table)
    requires t.buckets != []
    ensures r.buckets != []
  {
    match op
    case TryAddNode(c, verified) => TryAdd(cpl, clock, t, c, verified)
    case FailNode(c) => Fail(cpl, clock, t, c)
  }

  ghost function Run(cpl: Id -> nat, clock: nat -> int, ops: seq<Op>): (r: Table)
    ensures r.buckets != []
  {
    if ops == [] then Empty(0) else Step(cpl, clock, Run(cpl, clock, ops[..|ops| - 1]), ops[|ops| - 1])
  }
}
