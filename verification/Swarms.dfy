/** The peers of one swarm: a vector for choosing at random, and an index into it
    (`detail::Swarm`, src/bittorrent/dht_storage.cpp).  Times are in seconds. */
module Swarms {
  import opened Options
  import opened Sequences

  const ANNOUNCE_VALIDITY: real := 7200.0

  type Endpoint = nat

  datatype Peer = Peer(endpoint: Endpoint, lastSeen: real)

  /** The index is exactly the inverse of the vector. */
  ghost predicate Mirrors(peers: seq<Peer>, indices: map<Endpoint, nat>) {
    && (forall i :: 0 <= i < |peers| ==> peers[i].endpoint in indices && indices[peers[i].endpoint] == i)
    && (forall e :: e in indices ==> indices[e] < |peers| && peers[indices[e]].endpoint == e)
  }

  ghost function PeerSet(peers: seq<Peer>): set<Peer> {
    set p | p in peers
  }

  predicate Expired(p: Peer, now: real) {
    p.lastSeen + ANNOUNCE_VALIDITY < now
  }

  function Swapped<T>(s: seq<T>, i: nat, j: nat): seq<T>
    requires i < |s| && j < |s|
  {
    s[i := s[j]][j := s[i]]
  }

  lemma SwappedSet(peers: seq<Peer>, i: nat, j: nat)
    requires i < |peers| && j < |peers|
    ensures PeerSet(Swapped(peers, i, j)) == PeerSet(peers)
  {
    var r := Swapped(peers, i, j);
    forall p | p in peers ensures p in r {
      var k :| 0 <= k < |peers| && peers[k] == p;
      assert r[if k == i then j else if k == j then i else k] == p;
    }
  }

  // ------------------------------------------------------------------------------------------
  // Choosing at random

  /** A place outside the first `i`. */
  function Choice(i: nat, size: nat, random: nat -> nat): (r: nat)
    requires i < size
    ensures i <= r < size
  {
    i + random(i) % (size - i)
  }

  /** The vector after the steps from `i` on of a selection of `n`, for the given random numbers. */
  function Shuffled(peers: seq<Peer>, i: nat, n: nat, random: nat -> nat): (r: seq<Peer>)
    requires i <= n <= |peers|
    ensures |r| == |peers|
    decreases n - i
  {
    if i == n then peers
    else Shuffled(Swapped(peers, Choice(i, |peers|, random), i), i + 1, n, random)
  }

  /** Places below `i` are settled. */
  lemma {:induction false} SettledPlaces(peers: seq<Peer>, i: nat, n: nat, random: nat -> nat)
    requires i <= n <= |peers|
    ensures Shuffled(peers, i, n, random)[..i] == peers[..i]
    decreases n - i
  {
    if i < n {
      var next := Swapped(peers, Choice(i, |peers|, random), i);
      SettledPlaces(next, i + 1, n, random);
      assert next[..i + 1][..i] == next[..i] == peers[..i];
      assert Shuffled(peers, i, n, random)[..i + 1][..i] == Shuffled(peers, i, n, random)[..i];
    }
  }

  /** Every selection of distinct peers, in every order, comes up for some random numbers. */
  lemma {:induction false} EverySelection(peers: seq<Peer>, i: nat, want: seq<Peer>) returns (random: nat -> nat)
    requires i <= |want| <= |peers| && Distinct(want) && want[..i] == peers[..i]
    requires forall p :: p in want ==> p in peers
    ensures Shuffled(peers, i, |want|, random)[..|want|] == want
    decreases |want| - i
  {
    hide Distinct;
    hide Choice;
    if i == |want| {
      random := _ => 0;
    } else {
      var k := NextWanted(peers, i, want);
      var next := Swapped(peers, k, i);
      var rest := EverySelection(next, i + 1, want);
      random := j => if j == i then k - i else rest(j);
      SameNumbers(next, i + 1, |want|, random, rest);
      ChoiceIs(i, k, |peers|, random);
    }
  }

  lemma ChoiceIs(i: nat, k: nat, size: nat, random: nat -> nat)
    requires i <= k < size && random(i) == k - i
    ensures Choice(i, size, random) == k
  {
  }

  /** The next wanted peer is still among the places that are not settled. */
  lemma NextWanted(peers: seq<Peer>, i: nat, want: seq<Peer>) returns (k: nat)
    requires i < |want| <= |peers| && Distinct(want) && want[..i] == peers[..i]
    requires forall p :: p in want ==> p in peers
    ensures i <= k < |peers| && peers[k] == want[i]
    ensures want[..i + 1] == Swapped(peers, k, i)[..i + 1]
    ensures forall p :: p in want ==> p in Swapped(peers, k, i)
  {
    assert want[i] in want;
    k :| 0 <= k < |peers| && peers[k] == want[i];
    assert forall j :: 0 <= j < i ==> peers[j] == want[j] by {
      forall j | 0 <= j < i ensures peers[j] == want[j] {
        assert peers[j] == peers[..i][j] && want[j] == want[..i][j];
      }
    }
    SwappedSet(peers, k, i);
    forall p | p in want ensures p in Swapped(peers, k, i) {
      assert p in PeerSet(peers);
    }
  }

  lemma {:induction false} SameNumbers(peers: seq<Peer>, i: nat, n: nat, f: nat -> nat, g: nat -> nat)
    requires i <= n <= |peers| && forall j :: i <= j ==> f(j) == g(j)
    ensures Shuffled(peers, i, n, f) == Shuffled(peers, i, n, g)
    decreases n - i
  {
    if i < n {
      SameNumbers(Swapped(peers, Choice(i, |peers|, f), i), i + 1, n, f, g);
    }
  }

  // ------------------------------------------------------------------------------------------
  // The class

  lemma EndpointsDiffer(peers: seq<Peer>, indices: map<Endpoint, nat>, output: seq<Endpoint>)
    requires Mirrors(peers, indices) && |output| <= |peers|
    requires forall i :: 0 <= i < |output| ==> output[i] == peers[i].endpoint
    ensures Distinct(output)
  {
  }

  class Swarm {
    var peers: seq<Peer>
    var indices: map<Endpoint, nat>

    ghost predicate Valid()
      reads this
    {
      Mirrors(peers, indices)
    }

    constructor ()
      ensures Valid() && peers == []
    {
      peers, indices := [], map[];
    }

    /** An endpoint that is known gets a new time; one that is not is appended. */
    method Add(e: Endpoint, now: real)
      requires Valid()
      modifies this
      ensures Valid()
      ensures PeerSet(peers) == (set p | p in PeerSet(old(peers)) && p.endpoint != e) + {Peer(e, now)}
      ensures |old(peers)| <= |peers|
      ensures forall i :: 0 <= i < |old(peers)| ==> peers[i].endpoint == old(peers)[i].endpoint
    {
      if e !in indices {
        indices := indices[e := |peers|];
        peers := peers + [Peer(e, now)];
      } else {
        var i := indices[e];
        peers := peers[i := peers[i].(lastSeen := now)];
        assert peers[i] in peers;
        forall p | p in old(peers) && p.endpoint != e ensures p in peers {
          var k :| 0 <= k < |old(peers)| && old(peers)[k] == p;
          assert peers[k] == p;
        }
      }
    }

    /** `std::swap` of two places, index first. */
    method SwapPlaces(i: nat, j: nat)
      requires Valid() && i < |peers| && j < |peers| && i != j
      modifies this
      ensures Valid() && peers == Swapped(old(peers), i, j)
    {
      var a, b := peers[i].endpoint, peers[j].endpoint;
      indices := indices[a := indices[b]][b := indices[a]];
      peers := peers[i := peers[j]][j := peers[i]];
    }

    method MoveTo(target: nat, i: nat)
      requires Valid() && i <= target < |peers|
      modifies this
      ensures Valid() && peers == Swapped(old(peers), target, i) && PeerSet(peers) == PeerSet(old(peers))
    {
      SwappedSet(peers, target, i);
      if target != i {
        SwapPlaces(target, i);
      } else {
        assert Swapped(peers, i, i) == peers;
      }
    }

    /** The first `count` places after shuffling; the peers themselves stay what they were. */
    method List(count: nat, random: nat -> nat) returns (output: seq<Endpoint>)
      requires Valid()
      modifies this
      ensures Valid() && |peers| == |old(peers)| && PeerSet(peers) == PeerSet(old(peers))
      ensures |output| == Min(count, |peers|)
      ensures peers == Shuffled(old(peers), 0, |output|, random)
      ensures forall i :: 0 <= i < |output| ==> output[i] == peers[i].endpoint
      ensures Distinct(output)
    {
      hide PeerSet;
      hide Choice;
      hide Mirrors;
      hide Distinct;
      output := [];
      ghost var n := Min(count, |peers|);
      var i := 0;
      while i < count && i < |peers|
        invariant i <= n == Min(count, |peers|) && Valid() && |peers| == |old(peers)|
        invariant PeerSet(peers) == PeerSet(old(peers))
        invariant |output| == i && forall k :: 0 <= k < i ==> output[k] == peers[k].endpoint
        invariant Shuffled(peers, i, n, random) == Shuffled(old(peers), 0, n, random)
      {
        var target := Choice(i, |peers|, random);
        output := output + [peers[target].endpoint];
        MoveTo(target, i);
        i := i + 1;
      }
      EndpointsDiffer(peers, indices, output);
    }

    /** Keeps exactly the peers seen within the last two hours. */
    method Expire(now: real)
      requires Valid()
      modifies this
      ensures Valid()
      ensures PeerSet(peers) == set p | p in PeerSet(old(peers)) && !Expired(p, now)
    {
      var i := 0;
      while i < |peers|
        invariant Valid() && i <= |peers|
        invariant forall k :: 0 <= k < i ==> !Expired(peers[k], now)
        invariant forall p :: p in PeerSet(old(peers)) && !Expired(p, now) ==> p in PeerSet(peers)
        invariant PeerSet(peers) <= PeerSet(old(peers))
        decreases |peers| - i
      {
        if Expired(peers[i], now) {
          RemoveAt(i);
        } else {
          i := i + 1;
        }
      }
    }

    /** Removal by moving the last peer into the gap. */
    method RemoveAt(i: nat)
      requires Valid() && i < |peers|
      modifies this
      ensures Valid() && |peers| == |old(peers)| - 1
      ensures PeerSet(peers) == PeerSet(old(peers)) - {old(peers)[i]}
      ensures peers[..i] == old(peers)[..i]
    {
      var last := |peers| - 1;
      SwappedSet(peers, i, last);
      if last != i {
        SwapPlaces(i, last);
      } else {
        assert Swapped(peers, i, i) == peers;
      }
      ghost var before := peers;
      indices := indices - {peers[last].endpoint};
      peers := peers[..last];
      assert before == peers + [before[last]];
      assert forall k :: 0 <= k < last ==> before[k].endpoint != before[last].endpoint;
    }
  }
}
