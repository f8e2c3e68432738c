/** The answer of `find_closest_routing_nodes` (src/bittorrent/routing_table.cpp). */
module RoutingClosest {
  import opened NodeIds
  import opened Options
  import opened Sequences
  import opened RoutingSpec
  import opened RoutingInvariants
  import opened RoutingBounds

  function ContactList(s: seq<RoutingNode>): (r: seq<NodeContact>)
    ensures |r| == |s| && forall j :: 0 <= j < |s| ==> r[j] == s[j].contact
  {
    if s == [] then [] else [s[0].contact] + ContactList(s[1..])
  }

  /** The nodes of buckets i, i + 1, ... */
  function Upward(buckets: seq<Bucket>, i: nat): seq<NodeContact>
    requires i <= |buckets|
    decreases |buckets| - i
  {
    if i == |buckets| then [] else ContactList(buckets[i].nodes) + Upward(buckets, i + 1)
  }

  /** The nodes of buckets i - 1, i - 2, ..., 0. */
  function Downward(buckets: seq<Bucket>, i: nat): seq<NodeContact>
    requires i <= |buckets|
  {
    if i == 0 then [] else ContactList(buckets[i - 1].nodes) + Downward(buckets, i - 1)
  }

  /** Every node of the table, in the order in which the search for bucket `b` visits it. */
  function Visited(buckets: seq<Bucket>, b: nat): seq<NodeContact>
    requires b <= |buckets|
  {
    Upward(buckets, b) + Downward(buckets, b)
  }

  function FirstOf(s: seq<NodeContact>, count: nat): seq<NodeContact> {
    if |s| <= count then s else s[..count]
  }

  lemma FirstOfMeaning(s: seq<NodeContact>, r: seq<NodeContact>, count: nat)
    requires |r| <= |s| && (|r| == count || |r| == |s| < count)
    requires forall j :: 0 <= j < |r| ==> r[j] == s[j]
    ensures r == FirstOf(s, count)
  {
  }

  // ------------------------------------------------------------------------------------------
  // Groups: the bucket of the target, all deeper buckets, then each shallower one in turn.

  function Group(b: nat, j: nat): nat {
    if j == b then 0 else if j > b then 1 else 1 + (b - j)
  }

  ghost function GroupOf(cpl: Id -> nat, size: nat, target: Id, c: NodeContact): nat
    requires size > 0
  {
    Group(BucketOf(cpl, target, size), BucketOf(cpl, c.id, size))
  }

  lemma SameTurn(self: Id, a: Id, b: Id)
    requires CommonPrefix(self, a) == CommonPrefix(self, b) < BITS
    ensures SharePrefix(a, b, CommonPrefix(self, a) + 1)
  {
  }

  lemma SharedPart(self: Id, a: Id, b: Id, k: nat)
    requires k <= CommonPrefix(self, a) && k <= CommonPrefix(self, b)
    ensures SharePrefix(a, b, k)
  {
  }

  lemma Diverged(self: Id, a: Id, b: Id, k: nat)
    requires CommonPrefix(self, a) != CommonPrefix(self, b)
    requires Min(CommonPrefix(self, a), CommonPrefix(self, b)) < k <= BITS
    ensures !SharePrefix(a, b, k)
  {
    var j := Min(CommonPrefix(self, a), CommonPrefix(self, b));
    assert Bit(a, j) != Bit(b, j);
  }

  /** A node of an earlier group is strictly closer to the target than one of a later group. */
  lemma EarlierGroupIsCloser(self: Id, cpl: Id -> nat, size: nat, target: Id, x: NodeContact, y: NodeContact)
    requires SharedWith(cpl, self) && 0 < size <= BITS + 1
    requires GroupOf(cpl, size, target, x) < GroupOf(cpl, size, target, y)
    ensures Closer(target, x.id, y.id)
  {
    hide SharePrefix;
    hide Closer;
    var t, p, q := CommonPrefix(self, target), CommonPrefix(self, x.id), CommonPrefix(self, y.id);
    assert cpl(target) == t && cpl(x.id) == p && cpl(y.id) == q;
    var k := if p == t && t < size - 1 then t + 1 else Min(Min(p, t), size - 1);
    if p == t && t < size - 1 {
      SameTurn(self, target, x.id);
    } else {
      SharedPart(self, target, x.id, k);
    }
    Diverged(self, target, y.id, k);
    LongerPrefixIsCloser(target, x.id, y.id, k);
  }

  // ------------------------------------------------------------------------------------------
  // The visit covers the table once, group by group

  /** `c` is a node (not merely a candidate) of the table; nodes lie in the bucket for their id. */
  ghost predicate IsNode(cpl: Id -> nat, buckets: seq<Bucket>, c: NodeContact)
    requires buckets != []
  {
    c in Contacts(buckets[BucketOf(cpl, c.id, |buckets|)].nodes)
  }

  /** The number of nodes in the first `i` buckets. */
  ghost function NodeCount(buckets: seq<Bucket>, i: nat): nat
    requires i <= |buckets|
  {
    if i == 0 then 0 else NodeCount(buckets, i - 1) + |buckets[i - 1].nodes|
  }

  lemma {:induction false} VisitedCount(buckets: seq<Bucket>, b: nat)
    requires b <= |buckets|
    ensures |Visited(buckets, b)| == NodeCount(buckets, |buckets|)
    decreases |buckets| - b
  {
    if b < |buckets| {
      VisitedCount(buckets, b + 1);
    } else {
      DownwardCount(buckets, b);
    }
  }

  lemma {:induction false} DownwardCount(buckets: seq<Bucket>, i: nat)
    requires i <= |buckets|
    ensures |Downward(buckets, i)| == NodeCount(buckets, i)
  {
    if i == 0 {
    } else {
      DownwardCount(buckets, i - 1);
    }
  }

  lemma DistinctConcat(a: seq<NodeContact>, b: seq<NodeContact>)
    requires Distinct(a) && Distinct(b) && forall c :: c in a ==> c !in b
    ensures Distinct(a + b)
  {
    forall i, j | 0 <= i < j < |a + b| ensures (a + b)[i] != (a + b)[j] {
      if i < |a| <= j {
        assert a[i] in a && b[j - |a|] in b;
      }
    }
  }

  lemma {:induction false} ContactListMembers(s: seq<RoutingNode>)
    ensures forall c :: c in ContactList(s) <==> c in Contacts(s)
    ensures NoDup(s) ==> Distinct(ContactList(s))
  {
    if s == [] {
    } else {
      ContactListMembers(s[1..]);
      if NoDup(s) {
        DistinctConcat([s[0].contact], ContactList(s[1..]));
      }
    }
  }

  /** What the invariant of the table says about its nodes alone. */
  ghost predicate NodesPlaced(cpl: Id -> nat, buckets: seq<Bucket>) {
    && buckets != []
    && forall i :: 0 <= i < |buckets| ==>
         NoDup(buckets[i].nodes) && forall c :: c in Contacts(buckets[i].nodes) ==> BucketOf(cpl, c.id, |buckets|) == i
  }

  lemma InvPlacesNodes(cpl: Id -> nat, ok: NodeContact -> bool, clock: nat -> int, t: Table)
    requires TableInv(cpl, ok, clock, t)
    ensures NodesPlaced(cpl, t.buckets)
  {
    forall i | 0 <= i < |t.buckets| ensures Contacts(t.buckets[i].nodes) <= AllContacts(t.buckets[i]) {
    }
  }

  lemma {:induction false} UpwardFacts(cpl: Id -> nat, buckets: seq<Bucket>, i: nat)
    requires NodesPlaced(cpl, buckets) && i <= |buckets|
    ensures Distinct(Upward(buckets, i))
    ensures forall c :: c in Upward(buckets, i) <==> IsNode(cpl, buckets, c) && BucketOf(cpl, c.id, |buckets|) >= i
    decreases |buckets| - i
  {
    hide NodesPlaced;
    hide IsNode;
    hide ContactList;
    if i < |buckets| {
      var here, rest := ContactList(buckets[i].nodes), Upward(buckets, i + 1);
      UpwardFacts(cpl, buckets, i + 1);
      OneBucket(cpl, buckets, i);
      DistinctConcat(here, rest);
    }
  }

  lemma {:induction false} DownwardFacts(cpl: Id -> nat, buckets: seq<Bucket>, i: nat)
    requires NodesPlaced(cpl, buckets) && i <= |buckets|
    ensures Distinct(Downward(buckets, i))
    ensures forall c :: c in Downward(buckets, i) <==> IsNode(cpl, buckets, c) && BucketOf(cpl, c.id, |buckets|) < i
  {
    hide NodesPlaced;
    hide IsNode;
    hide ContactList;
    if i == 0 {
    } else {
      var here, rest := ContactList(buckets[i - 1].nodes), Downward(buckets, i - 1);
      DownwardFacts(cpl, buckets, i - 1);
      OneBucket(cpl, buckets, i - 1);
      DistinctConcat(here, rest);
    }
  }

  lemma OneBucket(cpl: Id -> nat, buckets: seq<Bucket>, i: nat)
    requires NodesPlaced(cpl, buckets) && i < |buckets|
    ensures Distinct(ContactList(buckets[i].nodes))
    ensures forall c :: c in ContactList(buckets[i].nodes) <==>
              IsNode(cpl, buckets, c) && BucketOf(cpl, c.id, |buckets|) == i
  {
    ContactListMembers(buckets[i].nodes);
  }

  lemma VisitedFacts(cpl: Id -> nat, buckets: seq<Bucket>, b: nat)
    requires NodesPlaced(cpl, buckets) && b <= |buckets|
    ensures Distinct(Visited(buckets, b))
    ensures forall c :: c in Visited(buckets, b) <==> IsNode(cpl, buckets, c)
  {
    UpwardFacts(cpl, buckets, b);
    DownwardFacts(cpl, buckets, b);
    DistinctConcat(Upward(buckets, b), Downward(buckets, b));
  }

  /** Groups never decrease along a list. */
  ghost predicate ByGroup(cpl: Id -> nat, size: nat, b: nat, s: seq<NodeContact>)
    requires size > 0
  {
    forall i, j :: 0 <= i < j < |s| ==>
      Group(b, BucketOf(cpl, s[i].id, size)) <= Group(b, BucketOf(cpl, s[j].id, size))
  }

  lemma {:induction false} DownwardByGroup(cpl: Id -> nat, buckets: seq<Bucket>, b: nat, i: nat)
    requires NodesPlaced(cpl, buckets) && i <= b < |buckets|
    ensures ByGroup(cpl, |buckets|, b, Downward(buckets, i))
  {
    hide NodesPlaced;
    if i == 0 {
      hide BucketOf;
    } else {
      hide ByGroup;
      DownwardByGroup(cpl, buckets, b, i - 1);
      OneMoreBucket(cpl, buckets, b, i - 1);
    }
  }

  lemma OneMoreBucket(cpl: Id -> nat, buckets: seq<Bucket>, b: nat, i: nat)
    requires NodesPlaced(cpl, buckets) && i < b < |buckets|
    requires ByGroup(cpl, |buckets|, b, Downward(buckets, i))
    ensures ByGroup(cpl, |buckets|, b, ContactList(buckets[i].nodes) + Downward(buckets, i))
  {
    OneBucketOneGroup(cpl, buckets, b, i);
  }

  lemma OneBucketOneGroup(cpl: Id -> nat, buckets: seq<Bucket>, b: nat, i: nat)
    requires NodesPlaced(cpl, buckets) && i < |buckets|
    ensures forall c :: c in ContactList(buckets[i].nodes) ==> Group(b, BucketOf(cpl, c.id, |buckets|)) == Group(b, i)
    ensures ByGroup(cpl, |buckets|, b, ContactList(buckets[i].nodes))
  {
    ContactListMembers(buckets[i].nodes);
  }

  lemma VisitedByGroup(cpl: Id -> nat, buckets: seq<Bucket>, b: nat)
    requires NodesPlaced(cpl, buckets) && b < |buckets|
    ensures ByGroup(cpl, |buckets|, b, Visited(buckets, b))
  {
    var here, deeper, shallower := ContactList(buckets[b].nodes), Upward(buckets, b + 1), Downward(buckets, b);
    OneBucketOneGroup(cpl, buckets, b, b);
    UpwardFacts(cpl, buckets, b + 1);
    DownwardFacts(cpl, buckets, b);
    DownwardByGroup(cpl, buckets, b, b);
    hide NodesPlaced;
  }

  // ------------------------------------------------------------------------------------------
  // The theorem

  ghost function Closest(cpl: Id -> nat, buckets: seq<Bucket>, target: Id, count: nat): seq<NodeContact>
    requires buckets != []
  {
    FirstOf(Visited(buckets, BucketOf(cpl, target, |buckets|)), count)
  }

  /** A node left out never belongs to an earlier group than one returned; if they belong to
      different groups, the one returned is strictly closer to the target. */
  ghost predicate BetterThan(cpl: Id -> nat, size: nat, target: Id, x: NodeContact, y: NodeContact)
    requires size > 0
  {
    var gx, gy := GroupOf(cpl, size, target, x), GroupOf(cpl, size, target, y);
    gx <= gy && (gx < gy ==> Closer(target, x.id, y.id))
  }

  lemma FirstOfBetter(self: Id, cpl: Id -> nat, size: nat, target: Id, v: seq<NodeContact>, count: nat,
                      x: NodeContact, y: NodeContact)
    requires SharedWith(cpl, self) && 0 < size <= BITS + 1
    requires ByGroup(cpl, size, BucketOf(cpl, target, size), v)
    requires x in FirstOf(v, count) && y in v && y !in FirstOf(v, count)
    ensures BetterThan(cpl, size, target, x, y)
  {
    hide Closer;
    var r := FirstOf(v, count);
    var i :| 0 <= i < |r| && r[i] == x;
    var j :| 0 <= j < |v| && v[j] == y;
    assert forall k :: 0 <= k < |r| ==> v[k] == r[k] && r[k] in r;
    if GroupOf(cpl, size, target, x) < GroupOf(cpl, size, target, y) {
      EarlierGroupIsCloser(self, cpl, size, target, x, y);
    }
  }

  /** The answer is `count` distinct nodes of the table, or all of them if there are fewer, in the
      order of their groups, and every node returned is better than every node left out. */
  lemma ClosestCorrect(self: Id, cpl: Id -> nat, ok: NodeContact -> bool, clock: nat -> int, t: Table, target: Id,
                       count: nat)
    requires SharedWith(cpl, self) && TableInv(cpl, ok, clock, t)
    ensures var r := Closest(cpl, t.buckets, target, count);
            && Distinct(r) && |r| == Min(count, NodeCount(t.buckets, |t.buckets|))
            && (forall c :: c in r ==> IsNode(cpl, t.buckets, c))
            && ByGroup(cpl, |t.buckets|, BucketOf(cpl, target, |t.buckets|), r)
            && (forall x, y :: x in r && IsNode(cpl, t.buckets, y) && y !in r ==>
                  BetterThan(cpl, |t.buckets|, target, x, y))
  {
    var size := |t.buckets|;
    var b := BucketOf(cpl, target, size);
    var v, r := Visited(t.buckets, b), Closest(cpl, t.buckets, target, count);
    InvPlacesNodes(cpl, ok, clock, t);
    VisitedFacts(cpl, t.buckets, b);
    VisitedCount(t.buckets, b);
    VisitedByGroup(cpl, t.buckets, b);
    hide NodesPlaced;
    hide BetterThan;
    hide IsNode;
    assert forall k :: 0 <= k < |r| ==> r[k] == v[k];
    forall x, y | x in r && IsNode(cpl, t.buckets, y) && y !in r ensures BetterThan(cpl, size, target, x, y) {
      FirstOfBetter(self, cpl, size, target, v, count, x, y);
    }
  }
}
