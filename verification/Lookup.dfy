/** The iterative lookup: `collect` (src/bittorrent/collect.h) driving the query of
    `tracker_do_search_peers` and `find_closest_nodes` (src/bittorrent/mainline_dht.cpp).

    Coroutines become a state machine.  A step is one stretch of code between two suspension points;
    which job proceeds next, what it answers, and when a watch dog dismisses it are free choices of
    the event sequence, so a statement about every event sequence covers every interleaving. */
module Lookup {
  import opened NodeIds
  import opened Options
  import opened Nearest
  import opened ProximityMaps

  /** Endpoints, numbered in the order of `udp::endpoint`. */
  type Endpoint = nat

  /** A contact; bootstrap contacts have no id. */
  datatype Contact = Contact(endpoint: Endpoint, id: Option<Id>)

  /** What an acceptable reply carries (the write token). */
  type Answer = string

  /** RESPONSIBLE_TRACKERS_PER_SWARM, and the size of the scheduler. */
  const KEEP: nat := 8
  const SLOTS: nat := 8

  // ------------------------------------------------------------------------------------------
  // The order of candidates

  /** Contacts with ids by distance, then bootstrap contacts by endpoint. */
  ghost function Rank(target: Id, c: Contact): nat {
    match c.id
    case Some(id) => Distance(target, id)
    case None => Pow2(BITS) + c.endpoint
  }

  predicate Same(a: Contact, b: Contact) {
    match (a.id, b.id)
    case (Some(x), Some(y)) => x == y
    case (None, None) => a.endpoint == b.endpoint
    case _ => false
  }

  /** `Compare` in `DhtNode::collect`. */
  method Compare(target: Id, l: Contact, r: Contact) returns (less: bool)
    ensures less <==> Rank(target, l) < Rank(target, r)
  {
    if l.id.None? && r.id.None? {
      return l.endpoint < r.endpoint;
    }
    if l.id.Some? && r.id.None? {
      return true;
    }
    if l.id.None? && r.id.Some? {
      return false;
    }
    less := CloserTo(target, l.id.value, r.id.value);
  }

  /** Hence `Compare` is a strict weak order, and it equates only contacts that are the same node. */
  lemma RankEquates(target: Id, a: Contact, b: Contact)
    ensures Rank(target, a) == Rank(target, b) <==> Same(a, b)
  {
    if a.id.Some? && b.id.Some? && Rank(target, a) == Rank(target, b) {
      DistanceInjective(target, a.id.value, b.id.value);
    }
  }

  ghost predicate Proper(rank: Contact -> nat) {
    forall a, b :: rank(a) == rank(b) <==> Same(a, b)
  }

  ghost function IdRank(rank: Contact -> nat): Id -> nat {
    id => rank(Contact(0, Some(id)))
  }

  // ------------------------------------------------------------------------------------------
  // States and events

  /** Where the main coroutine is suspended. */
  datatype Loop = WantSlot | WaitCandidate | Stopped(exhausted: bool, heard: nat)

  datatype Phase = Spawned | Asked | Refused | Failed | Replied

  datatype Job = Job(contact: Contact, phase: Phase)

  /** `reported` is a history: the seeds and every contact pushed to the queue so far. */
  datatype State = State(
    candidates: seq<Entry<Contact, bool>>,
    queue: seq<Option<Contact>>,
    jobs: seq<Job>,
    active: set<nat>,
    loop: Loop,
    out: seq<Entry<Id, Answer>>,
    reported: seq<Contact>)

  datatype Event =
    | GotSlot
    | Popped
    | Cancelled
    | Started(job: nat)
    | Reported(job: nat, contact: Contact)
    | Answered(job: nat, answer: Answer)
    | GaveUp(job: nat)
    | Dismissed(job: nat)

  ghost function InsertAll(rank: Contact -> nat, s: seq<Entry<Contact, bool>>, cs: seq<Contact>)
    : seq<Entry<Contact, bool>>
    decreases |cs|
  {
    if cs == [] then s else InsertAll(rank, MapInsert(rank, s, Entry(cs[0], false)), cs[1..])
  }

  /** The contacts in the queue; the end-of-file marks of finished jobs are skipped. */
  function Drained(queue: seq<Option<Contact>>): seq<Contact> {
    if queue == [] then []
    else (if queue[0].Some? then [queue[0].value] else []) + Drained(queue[1..])
  }

  function FirstUnused(s: seq<Entry<Contact, bool>>): (i: nat)
    ensures i <= |s|
    ensures forall j :: 0 <= j < i ==> s[j].value
    ensures i < |s| ==> !s[i].value
  {
    if s == [] || !s[0].value then 0 else 1 + FirstUnused(s[1..])
  }

  ghost function Init(rank: Contact -> nat, seeds: seq<Contact>): State {
    State(InsertAll(rank, [], seeds), [], [], {}, WantSlot, [], seeds)
  }

  function Spawn(s: State): State
    requires FirstUnused(s.candidates) < |s.candidates|
  {
    var i := FirstUnused(s.candidates);
    var c := s.candidates[i].key;
    s.(candidates := s.candidates[i := Entry(c, true)],
       jobs := s.jobs + [Job(c, Spawned)],
       active := s.active + {|s.jobs|},
       loop := WantSlot)
  }

  /** From holding a slot to the next suspension: spawn, stop, or wait for candidates. */
  function Resume(s: State): State {
    if FirstUnused(s.candidates) < |s.candidates| then Spawn(s)
    else if s.active == {} && s.queue == [] then s.(loop := Stopped(true, |s.reported|))
    else s.(loop := WaitCandidate)
  }

  /** `on_finish`, which acts once per job. */
  function Finish(s: State, j: nat): State {
    if j in s.active then s.(active := s.active - {j}, queue := s.queue + [None]) else s
  }

  function SetPhase(s: State, j: nat, p: Phase): State
    requires j < |s.jobs|
  {
    s.(jobs := s.jobs[j := s.jobs[j].(phase := p)])
  }

  ghost predicate Enabled(s: State, e: Event) {
    match e
    case GotSlot => s.loop.WantSlot? && |s.active| < SLOTS
    case Popped => s.loop.WaitCandidate? && s.queue != []
    case Cancelled => !s.loop.Stopped?
    case Started(j) => j < |s.jobs| && s.jobs[j].phase.Spawned?
    case Reported(j, c) => j < |s.jobs| && s.jobs[j].phase.Asked? && c.id.Some?
    case Answered(j, _) => j < |s.jobs| && s.jobs[j].phase.Asked?
    case GaveUp(j) => j < |s.jobs| && s.jobs[j].phase.Asked?
    case Dismissed(j) => j in s.active
  }

  /** The test that opens every evaluation: is this contact worth a query? */
  ghost predicate Worthwhile(rank: Contact -> nat, s: State, c: Contact) {
    match c.id
    case None => |s.out| < KEEP
    case Some(id) => WouldInsert(IdRank(rank), KEEP, s.out, id)
  }

  ghost function Apply(rank: Contact -> nat, s: State, e: Event): State
    requires Enabled(s, e)
  {
    match e
    case GotSlot => Resume(s)
    case Popped =>
      Resume(s.(candidates := InsertAll(rank, s.candidates, Drained(s.queue)), queue := []))
    case Cancelled => s.(loop := Stopped(false, 0))
    case Started(j) =>
      if Worthwhile(rank, s, s.jobs[j].contact) then SetPhase(s, j, Asked)
      else Finish(SetPhase(s, j, Refused), j)
    case Reported(j, c) => s.(queue := s.queue + [Some(c)], reported := s.reported + [c])
    case Answered(j, answer) =>
      var t := SetPhase(s, j, Replied);
      var out := match s.jobs[j].contact.id
                 case None => s.out
                 case Some(id) => Inserted(IdRank(rank), KEEP, s.out, Entry(id, answer));
      Finish(t.(out := out), j)
    case GaveUp(j) => Finish(SetPhase(s, j, Failed), j)
    case Dismissed(j) => Finish(s, j)
  }

  /** The state after a sequence of events, if each was possible in its turn. */
  ghost function After(rank: Contact -> nat, seeds: seq<Contact>, es: seq<Event>): Option<State> {
    if es == [] then Some(Init(rank, seeds))
    else
      match After(rank, seeds, es[..|es| - 1])
      case None => None
      case Some(s) => if Enabled(s, es[|es| - 1]) then Some(Apply(rank, s, es[|es| - 1])) else None
  }

  // ------------------------------------------------------------------------------------------
  // Invariant of the candidate map and the jobs

  ghost predicate Known(rank: Contact -> nat, s: seq<Entry<Contact, bool>>, c: Contact) {
    exists x :: x in s && rank(x.key) == rank(c)
  }

  ghost predicate HasJob(jobs: seq<Job>, c: Contact) {
    exists j :: 0 <= j < |jobs| && jobs[j].contact == c
  }

  /** Used candidates and jobs are one and the same, and no node has two jobs. */
  ghost predicate JobsMatch(rank: Contact -> nat, s: State) {
    && Sorted(rank, s.candidates)
    && (forall j :: 0 <= j < |s.jobs| ==> Entry(s.jobs[j].contact, true) in s.candidates)
    && (forall x :: x in s.candidates && x.value ==> HasJob(s.jobs, x.key))
    && (forall i, j :: 0 <= i < j < |s.jobs| ==> rank(s.jobs[i].contact) != rank(s.jobs[j].contact))
  }

  /** Nothing reported is lost on its way to the candidate map. */
  ghost predicate NothingLost(rank: Contact -> nat, s: State) {
    && (forall i :: 0 <= i < |s.reported| ==>
          Known(rank, s.candidates, s.reported[i]) || Some(s.reported[i]) in s.queue)
    && (s.loop.Stopped? && s.loop.exhausted ==>
          && s.loop.heard <= |s.reported|
          && FirstUnused(s.candidates) == |s.candidates|
          && forall i :: 0 <= i < s.loop.heard ==> Known(rank, s.candidates, s.reported[i]))
  }

  /** Slots are respected, and the main coroutine never waits for a candidate that nobody will send. */
  ghost predicate NeverStuck(s: State) {
    && (forall j :: j in s.active ==> j < |s.jobs| && (s.jobs[j].phase.Spawned? || s.jobs[j].phase.Asked?))
    && |s.active| <= SLOTS
    && (s.loop.WaitCandidate? ==>
          && |s.active| < SLOTS
          && (s.queue == [] ==> s.active != {})
          && FirstUnused(s.candidates) == |s.candidates|)
  }

  lemma {:induction false} InsertAllFacts(rank: Contact -> nat, s: seq<Entry<Contact, bool>>, cs: seq<Contact>)
    requires Sorted(rank, s)
    ensures var r := InsertAll(rank, s, cs);
            && Sorted(rank, r)
            && (forall x :: x in s ==> x in r)
            && (forall x :: x in r && x.value ==> x in s)
            && (forall c :: c in cs ==> Known(rank, r, c))
    decreases |cs|
  {
    if cs == [] {
    } else {
      var t := MapInsert(rank, s, Entry(cs[0], false));
      MapInsertMembers(rank, s, Entry(cs[0], false));
      MapInsertSorted(rank, s, Entry(cs[0], false));
      InsertAllFacts(rank, t, cs[1..]);
    }
  }

  lemma {:induction false} DrainedMembers(q: seq<Option<Contact>>, c: Contact)
    requires Some(c) in q
    ensures c in Drained(q)
  {
    if q[0] != Some(c) {
      DrainedMembers(q[1..], c);
    }
  }

  /** `pick_candidate` takes the nearest contact that was never tried, and marks it as used. */
  method PickCandidate(candidates: seq<Entry<Contact, bool>>, ghost rank: Contact -> nat)
    returns (picked: Option<Contact>, marked: seq<Entry<Contact, bool>>)
    requires Sorted(rank, candidates)
    ensures picked == None ==> marked == candidates && forall x :: x in candidates ==> x.value
    ensures picked.Some? ==>
              && Entry(picked.value, false) in candidates
              && forall x :: x in candidates && !x.value && x.key != picked.value ==> rank(picked.value) < rank(x.key)
    // This is what `Spawn` does to the map.
    ensures var i := FirstUnused(candidates);
            && (picked.Some? <==> i < |candidates|)
            && (picked.Some? ==>
                  picked.value == candidates[i].key && marked == candidates[i := Entry(picked.value, true)])
  {
    for i := 0 to |candidates|
      invariant forall j :: 0 <= j < i ==> candidates[j].value
    {
      if !candidates[i].value {
        var c := candidates[i].key;
        return Some(c), candidates[i := Entry(c, true)];
      }
    }
    return None, candidates;
  }

  lemma SpawnMatch(rank: Contact -> nat, s: State)
    requires JobsMatch(rank, s) && FirstUnused(s.candidates) < |s.candidates|
    ensures JobsMatch(rank, Spawn(s))
  {
    hide FirstUnused;
    hide HasJob;
    var i := FirstUnused(s.candidates);
    var c := s.candidates[i].key;
    var t := Spawn(s);
    assert t.candidates[i] == Entry(c, true);
    forall x | x in s.candidates && x.key != c ensures x in t.candidates {
      var k :| 0 <= k < |s.candidates| && s.candidates[k] == x;
      assert t.candidates[k] == x;
    }
    forall j | 0 <= j < |s.jobs| ensures rank(s.jobs[j].contact) != rank(c) {
      var k :| 0 <= k < |s.candidates| && s.candidates[k] == Entry(s.jobs[j].contact, true);
      assert k < i || i < k;
    }
    SpawnedHaveJobs(rank, s);
  }

  lemma SpawnedHaveJobs(rank: Contact -> nat, s: State)
    requires JobsMatch(rank, s) && FirstUnused(s.candidates) < |s.candidates|
    ensures forall x :: x in Spawn(s).candidates && x.value ==> HasJob(Spawn(s).jobs, x.key)
  {
    var i := FirstUnused(s.candidates);
    var t := Spawn(s);
    forall x | x in t.candidates && x.value ensures HasJob(t.jobs, x.key) {
      if x.key == s.candidates[i].key {
        assert t.jobs[|s.jobs|].contact == x.key;
      } else {
        assert x in s.candidates;
        var j :| 0 <= j < |s.jobs| && s.jobs[j].contact == x.key;
        assert t.jobs[j].contact == x.key;
      }
    }
  }

  lemma SpawnKnown(rank: Contact -> nat, s: State, c: Contact)
    requires FirstUnused(s.candidates) < |s.candidates| && Known(rank, s.candidates, c)
    ensures Known(rank, Spawn(s).candidates, c)
  {
    var x :| x in s.candidates && rank(x.key) == rank(c);
    var k :| 0 <= k < |s.candidates| && s.candidates[k] == x;
    assert Spawn(s).candidates[k].key == x.key;
  }

  lemma ResumeMatch(rank: Contact -> nat, s: State)
    requires JobsMatch(rank, s)
    ensures JobsMatch(rank, Resume(s))
  {
    if FirstUnused(s.candidates) < |s.candidates| {
      SpawnMatch(rank, s);
    }
  }

  lemma ResumeKeeps(rank: Contact -> nat, s: State)
    requires !s.loop.Stopped? && |s.active| < SLOTS
    requires NothingLost(rank, s)
    requires forall j :: j in s.active ==> j < |s.jobs| && (s.jobs[j].phase.Spawned? || s.jobs[j].phase.Asked?)
    ensures NothingLost(rank, Resume(s)) && NeverStuck(Resume(s))
  {
    if FirstUnused(s.candidates) < |s.candidates| {
      forall i | 0 <= i < |s.reported| && Known(rank, s.candidates, s.reported[i])
        ensures Known(rank, Spawn(s).candidates, s.reported[i])
      {
        SpawnKnown(rank, s, s.reported[i]);
      }
    }
  }

  ghost function Popping(rank: Contact -> nat, s: State): State {
    s.(candidates := InsertAll(rank, s.candidates, Drained(s.queue)), queue := [])
  }

  lemma PoppingKeeps(rank: Contact -> nat, s: State)
    requires JobsMatch(rank, s) && NothingLost(rank, s) && !s.loop.Stopped?
    ensures JobsMatch(rank, Popping(rank, s)) && NothingLost(rank, Popping(rank, s))
  {
    var t := Popping(rank, s);
    InsertAllFacts(rank, s.candidates, Drained(s.queue));
    forall i | 0 <= i < |s.reported| ensures Known(rank, t.candidates, s.reported[i]) {
      if Known(rank, s.candidates, s.reported[i]) {
        var x :| x in s.candidates && rank(x.key) == rank(s.reported[i]);
        assert x in t.candidates;
      } else {
        DrainedMembers(s.queue, s.reported[i]);
      }
    }
  }

  ghost predicate LoopInv(rank: Contact -> nat, s: State) {
    JobsMatch(rank, s) && NothingLost(rank, s) && NeverStuck(s)
  }

  /** Steps of jobs leave the candidate map alone and only shrink the set of active jobs. */
  lemma JobStepKeeps(rank: Contact -> nat, s: State, t: State)
    requires LoopInv(rank, s)
    requires t.candidates == s.candidates && t.loop == s.loop && |t.jobs| == |s.jobs|
    requires forall j :: 0 <= j < |s.jobs| ==> t.jobs[j].contact == s.jobs[j].contact
    requires t.active <= s.active
    requires forall j :: j in t.active && j < |s.jobs| ==> t.jobs[j].phase == s.jobs[j].phase || t.jobs[j].phase.Asked?
    requires t.active != s.active ==> t.queue != []
    requires s.queue <= t.queue
    requires s.reported <= t.reported
    requires forall i :: |s.reported| <= i < |t.reported| ==> Some(t.reported[i]) in t.queue
    ensures LoopInv(rank, t)
  {
    SubsetSize(t.active, s.active);
    forall x | x in t.candidates && x.value ensures HasJob(t.jobs, x.key) {
      var j :| 0 <= j < |s.jobs| && s.jobs[j].contact == x.key;
      assert t.jobs[j].contact == x.key;
    }
    forall i | 0 <= i < |s.reported| && Some(s.reported[i]) in s.queue ensures Some(t.reported[i]) in t.queue {
      var k :| 0 <= k < |s.queue| && s.queue[k] == Some(s.reported[i]);
      assert t.queue[k] == s.queue[k];
    }
  }

  lemma LoopStepOfJob(rank: Contact -> nat, s: State, e: Event)
    requires LoopInv(rank, s) && Enabled(s, e)
    requires e.Started? || e.Reported? || e.Answered? || e.GaveUp? || e.Dismissed?
    ensures LoopInv(rank, Apply(rank, s, e))
  {
    hide LoopInv;
    hide Worthwhile;
    hide Inserted;
    var t := Apply(rank, s, e);
    JobStepKeeps(rank, s, t);
  }

  lemma LoopStep(rank: Contact -> nat, s: State, e: Event)
    requires LoopInv(rank, s) && Enabled(s, e)
    ensures LoopInv(rank, Apply(rank, s, e))
  {
    if e.GotSlot? {
      ResumeMatch(rank, s);
      ResumeKeeps(rank, s);
    } else if e.Popped? {
      PoppingKeeps(rank, s);
      ResumeMatch(rank, Popping(rank, s));
      ResumeKeeps(rank, Popping(rank, s));
    } else if !e.Cancelled? {
      LoopStepOfJob(rank, s, e);
    }
  }

  // ------------------------------------------------------------------------------------------
  // Only what was heard of is evaluated

  ghost predicate HeardOf(s: State) {
    && (forall x :: x in s.candidates ==> x.key in s.reported)
    && (forall c :: Some(c) in s.queue ==> c in s.reported)
  }

  lemma {:induction false} InsertAllOnly(rank: Contact -> nat, s: seq<Entry<Contact, bool>>, cs: seq<Contact>)
    ensures forall x :: x in InsertAll(rank, s, cs) ==> x in s || x.key in cs
    decreases |cs|
  {
    if cs == [] {
    } else {
      MapInsertMembers(rank, s, Entry(cs[0], false));
      InsertAllOnly(rank, MapInsert(rank, s, Entry(cs[0], false)), cs[1..]);
    }
  }

  lemma {:induction false} DrainedOnly(q: seq<Option<Contact>>)
    ensures forall c :: c in Drained(q) ==> Some(c) in q
  {
    if q == [] {
    } else {
      DrainedOnly(q[1..]);
    }
  }

  lemma HeardStep(rank: Contact -> nat, s: State, e: Event)
    requires HeardOf(s) && Enabled(s, e)
    ensures HeardOf(Apply(rank, s, e))
  {
    hide Worthwhile;
    hide Inserted;
    if e.GotSlot? {
    } else if e.Popped? {
      InsertAllOnly(rank, s.candidates, Drained(s.queue));
      DrainedOnly(s.queue);
    }
  }

  /** The nodes among some contacts, told apart as `Compare` does. */
  ghost function Nodes(rank: Contact -> nat, cs: seq<Contact>): set<nat> {
    set c | c in cs :: rank(c)
  }

  ghost function JobNodes(rank: Contact -> nat, jobs: seq<Job>): set<nat> {
    set j | 0 <= j < |jobs| :: rank(jobs[j].contact)
  }

  lemma JobsAreNodes(rank: Contact -> nat, jobs: seq<Job>, cs: seq<Contact>)
    requires forall j :: 0 <= j < |jobs| ==> jobs[j].contact in cs
    requires forall i, j :: 0 <= i < j < |jobs| ==> rank(jobs[i].contact) != rank(jobs[j].contact)
    ensures |jobs| <= |Nodes(rank, cs)|
  {
    JobsCount(rank, jobs);
    SubsetSize(JobNodes(rank, jobs), Nodes(rank, cs));
  }

  lemma {:induction false} JobsCount(rank: Contact -> nat, jobs: seq<Job>)
    requires forall i, j :: 0 <= i < j < |jobs| ==> rank(jobs[i].contact) != rank(jobs[j].contact)
    ensures |JobNodes(rank, jobs)| == |jobs|
  {
    if jobs == [] {
    } else {
      var k := |jobs| - 1;
      JobsCount(rank, jobs[..k]);
      assert JobNodes(rank, jobs) == JobNodes(rank, jobs[..k]) + {rank(jobs[k].contact)};
    }
  }

  // ------------------------------------------------------------------------------------------
  // Invariant of the results

  ghost function RepliedIds(jobs: seq<Job>): set<Id> {
    set j | 0 <= j < |jobs| && jobs[j].phase.Replied? && jobs[j].contact.id.Some? :: jobs[j].contact.id.value
  }

  ghost predicate AllNearer(rank: Id -> nat, out: seq<Entry<Id, Answer>>, id: Id) {
    |out| == KEEP && forall k :: k in Keys(out) ==> rank(k) < rank(id)
  }

  /** The map holds the nearest ids that replied; a refused id is beaten by all of a full map. */
  ghost predicate ResultInv(rank: Id -> nat, s: State) {
    && Sorted(rank, s.out)
    && IsNearest(rank, Keys(s.out), RepliedIds(s.jobs), KEEP)
    && forall j :: 0 <= j < |s.jobs| && s.jobs[j].phase.Refused? && s.jobs[j].contact.id.Some? ==>
         AllNearer(rank, s.out, s.jobs[j].contact.id.value)
  }

  ghost predicate Settled(p: Phase) {
    p.Refused? || p.Replied?
  }

  lemma RepliedUnchanged(a: seq<Job>, b: seq<Job>)
    requires |a| <= |b|
    requires forall j :: 0 <= j < |a| ==> b[j].contact == a[j].contact && b[j].phase.Replied? == a[j].phase.Replied?
    requires forall j :: |a| <= j < |b| ==> !b[j].phase.Replied?
    ensures RepliedIds(b) == RepliedIds(a)
  {
  }

  lemma ResultFrame(rank: Id -> nat, s: State, t: State)
    requires ResultInv(rank, s) && t.out == s.out && |s.jobs| <= |t.jobs|
    requires forall j :: 0 <= j < |s.jobs| ==>
               && t.jobs[j].contact == s.jobs[j].contact
               && (t.jobs[j].phase == s.jobs[j].phase || !(Settled(s.jobs[j].phase) || Settled(t.jobs[j].phase)))
    requires forall j :: |s.jobs| <= j < |t.jobs| ==> !Settled(t.jobs[j].phase)
    ensures ResultInv(rank, t)
  {
    RepliedUnchanged(s.jobs, t.jobs);
  }

  /** Jobs never share an id. */
  ghost predicate DistinctIds(jobs: seq<Job>) {
    forall i, j :: 0 <= i < j < |jobs| && jobs[i].contact.id.Some? ==> jobs[i].contact.id != jobs[j].contact.id
  }

  lemma DistinctJobs(rank: Contact -> nat, s: State)
    requires Proper(rank) && JobsMatch(rank, s)
    ensures DistinctIds(s.jobs)
  {
  }

  lemma RefusedStep(rank: Id -> nat, s: State, t: State, j: nat)
    requires ResultInv(rank, s) && DistinctIds(s.jobs) && Injective(rank)
    requires j < |s.jobs| && s.jobs[j].phase.Spawned?
    requires t.jobs == s.jobs[j := s.jobs[j].(phase := Refused)] && t.out == s.out
    requires s.jobs[j].contact.id.Some? ==> !WouldInsert(rank, KEEP, s.out, s.jobs[j].contact.id.value)
    ensures ResultInv(rank, t)
  {
    RepliedUnchanged(s.jobs, t.jobs);
    if s.jobs[j].contact.id.Some? {
      var id := s.jobs[j].contact.id.value;
      KeysCount(rank, s.out);
      WouldInsertMeaning(rank, KEEP, s.out, Entry(id, ""));
    }
  }

  lemma RepliedGrows(jobs: seq<Job>, j: nat)
    requires j < |jobs| && !jobs[j].phase.Replied?
    ensures RepliedIds(jobs[j := jobs[j].(phase := Replied)]) ==
            RepliedIds(jobs) + if jobs[j].contact.id.Some? then {jobs[j].contact.id.value} else {}
  {
    var now := jobs[j := jobs[j].(phase := Replied)];
    forall i | 0 <= i < |jobs| && jobs[i].phase.Replied? && jobs[i].contact.id.Some?
      ensures jobs[i].contact.id.value in RepliedIds(now)
    {
      assert now[i] == jobs[i];
    }
    if jobs[j].contact.id.Some? {
      assert now[j].contact.id.value in RepliedIds(now);
    }
  }

  lemma StillNearer(rank: Id -> nat, out: seq<Entry<Id, Answer>>, e: Entry<Id, Answer>, id: Id)
    requires Sorted(rank, out) && Distinguished(rank, out, e.key) && e.key !in Keys(out)
    requires AllNearer(rank, out, id)
    ensures AllNearer(rank, Inserted(rank, KEEP, out, e), id)
  {
    var last := out[|out| - 1];
    assert last in out;
    LastIsFarthest(rank, out);
    KeysSnoc(out);
    MapInsertFacts(rank, out[..|out| - 1], e);
  }

  lemma RepliedStep(rank: Id -> nat, s: State, t: State, j: nat, answer: Answer)
    requires ResultInv(rank, s) && DistinctIds(s.jobs) && Injective(rank)
    requires j < |s.jobs| && s.jobs[j].phase.Asked? && s.jobs[j].contact.id.Some?
    requires t.jobs == s.jobs[j := s.jobs[j].(phase := Replied)]
    requires t.out == Inserted(rank, KEEP, s.out, Entry(s.jobs[j].contact.id.value, answer))
    ensures ResultInv(rank, t)
  {
    var e := Entry(s.jobs[j].contact.id.value, answer);
    RepliedGrows(s.jobs, j);
    InsertKeepsNearest(rank, KEEP, s.out, e, RepliedIds(s.jobs));
    forall i | 0 <= i < |t.jobs| && t.jobs[i].phase.Refused? && t.jobs[i].contact.id.Some?
      ensures AllNearer(rank, t.out, t.jobs[i].contact.id.value)
    {
      assert t.jobs[i] == s.jobs[i];
      StillNearer(rank, s.out, e, s.jobs[i].contact.id.value);
    }
  }

  lemma ProperInjective(rank: Contact -> nat)
    requires Proper(rank)
    ensures Injective(IdRank(rank))
  {
  }

  lemma ResultStepOfLoop(rank: Contact -> nat, s: State, e: Event)
    requires ResultInv(IdRank(rank), s) && Enabled(s, e)
    requires e.GotSlot? || e.Popped? || e.Cancelled? || e.Reported? || e.Dismissed?
    ensures ResultInv(IdRank(rank), Apply(rank, s, e))
  {
    var t := Apply(rank, s, e);
    assert t.out == s.out && s.jobs <= t.jobs;
    ResultFrame(IdRank(rank), s, t);
  }

  lemma ResultStepStarted(rank: Contact -> nat, s: State, e: Event)
    requires Injective(IdRank(rank)) && DistinctIds(s.jobs) && ResultInv(IdRank(rank), s)
    requires e.Started? && Enabled(s, e)
    ensures ResultInv(IdRank(rank), Apply(rank, s, e))
  {
    if Worthwhile(rank, s, s.jobs[e.job].contact) {
      ResultFrame(IdRank(rank), s, Apply(rank, s, e));
    } else {
      RefusedStep(IdRank(rank), s, Apply(rank, s, e), e.job);
    }
  }

  lemma ResultStepAnswered(rank: Contact -> nat, s: State, e: Event)
    requires Injective(IdRank(rank)) && DistinctIds(s.jobs) && ResultInv(IdRank(rank), s)
    requires e.Answered? && Enabled(s, e)
    ensures ResultInv(IdRank(rank), Apply(rank, s, e))
  {
    if s.jobs[e.job].contact.id.Some? {
      RepliedStep(IdRank(rank), s, Apply(rank, s, e), e.job, e.answer);
    } else {
      RepliedGrows(s.jobs, e.job);
      assert RepliedIds(s.jobs) + {} == RepliedIds(s.jobs);
    }
  }

  lemma ResultStep(rank: Contact -> nat, s: State, e: Event)
    requires Proper(rank) && JobsMatch(rank, s) && ResultInv(IdRank(rank), s) && Enabled(s, e)
    ensures ResultInv(IdRank(rank), Apply(rank, s, e))
  {
    ProperInjective(rank);
    DistinctJobs(rank, s);
    if e.Started? {
      ResultStepStarted(rank, s, e);
    } else if e.Answered? {
      ResultStepAnswered(rank, s, e);
    } else if e.GaveUp? {
      ResultFrame(IdRank(rank), s, Apply(rank, s, e));
    } else {
      ResultStepOfLoop(rank, s, e);
    }
  }

  // ------------------------------------------------------------------------------------------
  // Every run

  lemma {:induction false} RunInvariant(rank: Contact -> nat, seeds: seq<Contact>, es: seq<Event>, s: State)
    requires Proper(rank) && After(rank, seeds, es) == Some(s)
    ensures LoopInv(rank, s) && ResultInv(IdRank(rank), s) && HeardOf(s)
    decreases |es|
  {
    if es == [] {
      InsertAllFacts(rank, [], seeds);
      InsertAllOnly(rank, [], seeds);
      assert Keys(s.out) == {} && RepliedIds(s.jobs) == {};
    } else {
      var p := After(rank, seeds, es[..|es| - 1]).value;
      RunInvariant(rank, seeds, es[..|es| - 1], p);
      LoopStep(rank, p, es[|es| - 1]);
      ResultStep(rank, p, es[|es| - 1]);
      HeardStep(rank, p, es[|es| - 1]);
    }
  }

  // ------------------------------------------------------------------------------------------
  // What is kept was answered

  /** Some event of the run was the reply of the node with this id, and carried this answer. */
  ghost predicate Carried(es: seq<Event>, jobs: seq<Job>, x: Entry<Id, Answer>) {
    exists k :: 0 <= k < |es| && es[k].Answered? && es[k].answer == x.value &&
      es[k].job < |jobs| && jobs[es[k].job].contact.id == Some(x.key)
  }

  lemma InsertedMembers(rank: Id -> nat, out: seq<Entry<Id, Answer>>, e: Entry<Id, Answer>)
    ensures forall x :: x in Inserted(rank, KEEP, out, e) ==> x in out || x == e
  {
    MapInsertMembers(rank, out, e);
    if out != [] {
      MapInsertMembers(rank, out[..|out| - 1], e);
    }
  }

  /** Jobs are never removed, and a job keeps its contact. */
  ghost predicate ContactsKept(a: seq<Job>, b: seq<Job>) {
    |a| <= |b| && forall j :: 0 <= j < |a| ==> b[j].contact == a[j].contact
  }

  lemma StepKeepsContacts(rank: Contact -> nat, s: State, e: Event)
    requires Enabled(s, e)
    ensures ContactsKept(s.jobs, Apply(rank, s, e).jobs)
  {
    hide Worthwhile;
    hide Inserted;
    hide InsertAll;
    hide FirstUnused;
  }

  lemma StepOut(rank: Contact -> nat, s: State, e: Event, x: Entry<Id, Answer>)
    requires Enabled(s, e) && x in Apply(rank, s, e).out
    ensures x in s.out || (e.Answered? && e.answer == x.value && s.jobs[e.job].contact.id == Some(x.key))
  {
    hide Worthwhile;
    hide InsertAll;
    hide FirstUnused;
    hide Inserted;
    if e.Answered? && s.jobs[e.job].contact.id.Some? {
      InsertedMembers(IdRank(rank), s.out, Entry(s.jobs[e.job].contact.id.value, e.answer));
    }
  }

  lemma {:induction false} KeptWasAnswered(rank: Contact -> nat, seeds: seq<Contact>, es: seq<Event>, s: State,
                                           x: Entry<Id, Answer>)
    requires After(rank, seeds, es) == Some(s) && x in s.out
    ensures Carried(es, s.jobs, x)
    decreases |es|
  {
    if es == [] {
      assert false;
    } else {
      var n := |es| - 1;
      var p := After(rank, seeds, es[..n]).value;
      StepKeepsContacts(rank, p, es[n]);
      StepOut(rank, p, es[n], x);
      if x in p.out {
        KeptWasAnswered(rank, seeds, es[..n], p, x);
        var k :| 0 <= k < n && es[..n][k].Answered? && es[..n][k].answer == x.value &&
          es[..n][k].job < |p.jobs| && p.jobs[es[..n][k].job].contact.id == Some(x.key);
        assert es[k] == es[..n][k];
      } else {
        assert es[n].Answered?;
      }
    }
  }

  // ------------------------------------------------------------------------------------------
  // The course of a job

  /** The phase that the event brings its job to. */
  ghost predicate Leads(e: Event, phase: Phase) {
    match e
    case Started(_) => phase.Asked? || phase.Refused?
    case Answered(_, _) => phase.Replied?
    case GaveUp(_) => phase.Failed?
    case _ => false
  }

  /** The job gives up its slot: refused, replied, failed or dismissed. */
  ghost predicate Ends(e: Event, t: State) {
    e.Answered? || e.GaveUp? || e.Dismissed? || (e.Started? && e.job < |t.jobs| && t.jobs[e.job].phase.Refused?)
  }

  /** A job is started once, and then asked or refused; once asked it replies or fails; what it reports
      is queued.  The first of these to end it, or a dismissal, frees its slot and is announced once. */
  lemma JobStep(rank: Contact -> nat, s: State, e: Event)
    requires Enabled(s, e) && !e.GotSlot? && !e.Popped? && !e.Cancelled?
    requires e.Dismissed? ==> e.job < |s.jobs|
    ensures var t := Apply(rank, s, e);
            && |t.jobs| == |s.jobs| && t.candidates == s.candidates && t.loop == s.loop
            && (forall j :: 0 <= j < |s.jobs| && j != e.job ==> t.jobs[j] == s.jobs[j])
            && t.jobs[e.job].contact == s.jobs[e.job].contact
            && (t.jobs[e.job].phase == s.jobs[e.job].phase || Leads(e, t.jobs[e.job].phase))
            && (e.Started? || e.Answered? || e.GaveUp? ==> Leads(e, t.jobs[e.job].phase))
            && t.active == (if Ends(e, t) then s.active - {e.job} else s.active)
            && t.queue == s.queue + (if e.Reported? then [Some(e.contact)]
                                     else if Ends(e, t) && e.job in s.active then [None] else [])
  {
    hide Worthwhile;
    hide Inserted;
    assert s.queue + [] == s.queue;
  }

  lemma ResumeMoves(rank: Contact -> nat, s: State)
    requires Sorted(rank, s.candidates)
    ensures LoopMoves(rank, s, Resume(s))
  {
    var i, t := FirstUnused(s.candidates), Resume(s);
    if i < |s.candidates| {
      var c := s.candidates[i].key;
      assert t.candidates[i] == Entry(c, true);
      forall x | x in t.candidates && !x.value ensures rank(c) < rank(x.key) {
        var k :| 0 <= k < |t.candidates| && t.candidates[k] == x;
        assert i < k && s.candidates[k] == x;
      }
    }
  }

  /** The main coroutine spawns a job for the nearest contact that has none, in a slot of its own; when
      there is no such contact it stops if nothing can report any more, and waits otherwise. */
  ghost predicate LoopMoves(rank: Contact -> nat, s: State, t: State) {
    && t.queue == s.queue && t.out == s.out && t.reported == s.reported
    && if t.jobs == s.jobs then
         && t.active == s.active && t.candidates == s.candidates && (forall x :: x in s.candidates ==> x.value)
         && t.loop == if s.active == {} && s.queue == [] then Stopped(true, |s.reported|) else WaitCandidate
       else
         exists c :: NearestUnused(rank, s, t, c) &&
           t.jobs == s.jobs + [Job(c, Spawned)] && t.active == s.active + {|s.jobs|} && t.loop == WantSlot
  }

  ghost predicate NearestUnused(rank: Contact -> nat, s: State, t: State, c: Contact) {
    && Entry(c, false) in s.candidates && Entry(c, true) in t.candidates
    && forall x :: x in t.candidates && !x.value ==> rank(c) < rank(x.key)
  }

  lemma LoopSteps(rank: Contact -> nat, s: State, e: Event)
    requires Sorted(rank, s.candidates) && Enabled(s, e) && (e.GotSlot? || e.Popped?)
    ensures LoopMoves(rank, if e.Popped? then Popping(rank, s) else s, Apply(rank, s, e))
    ensures Popping(rank, s).queue == []
  {
    hide LoopMoves;
    InsertAllFacts(rank, s.candidates, Drained(s.queue));
    ResumeMoves(rank, if e.Popped? then Popping(rank, s) else s);
  }

  // ------------------------------------------------------------------------------------------
  // The end of a search

  lemma StepReported(rank: Contact -> nat, s: State, e: Event)
    requires Enabled(s, e)
    ensures |s.reported| <= |Apply(rank, s, e).reported|
    ensures s.loop.Stopped? ==> Apply(rank, s, e).loop == s.loop
    ensures !s.loop.Stopped? && Apply(rank, s, e).loop.Stopped? && Apply(rank, s, e).loop.exhausted ==>
              Apply(rank, s, e).loop.heard == |s.reported|
  {
    hide Worthwhile;
    hide Inserted;
    hide InsertAll;
    hide FirstUnused;
  }

  /** Whatever was reported while the search still ran was heard of by the time it ended. */
  lemma {:induction false} HeardBeforeStop(rank: Contact -> nat, seeds: seq<Contact>, es: seq<Event>, s: State,
                                           k: nat, p: State)
    requires After(rank, seeds, es) == Some(s) && k <= |es| && After(rank, seeds, es[..k]) == Some(p)
    ensures |p.reported| <= |s.reported|
    ensures !p.loop.Stopped? && s.loop.Stopped? && s.loop.exhausted ==> |p.reported| <= s.loop.heard
    decreases |es|
  {
    hide Apply;
    hide Enabled;
    if k == |es| {
      assert es[..k] == es;
    } else {
      var n := |es| - 1;
      var q := After(rank, seeds, es[..n]).value;
      assert es[..n][..k] == es[..k];
      HeardBeforeStop(rank, seeds, es[..n], q, k, p);
      StepReported(rank, q, es[n]);
    }
  }

  /** A contact is asked exactly when its reply would be kept: while fewer than eight ids are kept, or
      when its id is nearer than one of them. */
  lemma AskedIfUseful(target: Id, rank: Contact -> nat, seeds: seq<Contact>, es: seq<Event>, s: State, j: nat)
    requires RanksFor(rank, target) && After(rank, seeds, es) == Some(s) && Enabled(s, Started(j))
    ensures Apply(rank, s, Started(j)).jobs[j].phase.Asked? <==>
            var id := s.jobs[j].contact.id;
            |s.out| < KEEP || (id.Some? && exists k :: k in Keys(s.out) && Closer(target, id.value, k))
  {
    RanksForProper(rank, target);
    RunInvariant(rank, seeds, es, s);
    KeysCount(IdRank(rank), s.out);
    var id := s.jobs[j].contact.id;
    if id.Some? && |s.out| == KEEP {
      var last := s.out[KEEP - 1];
      assert last in s.out;
      LastIsFarthest(IdRank(rank), s.out);
      forall k ensures k in Keys(s.out) ==>
          (Closer(target, id.value, k) <==> IdRank(rank)(id.value) < IdRank(rank)(k)) {
        RankIsDistance(target, rank, k);
        RankIsDistance(target, rank, id.value);
      }
    }
  }

  // ------------------------------------------------------------------------------------------
  // The theorem

  /** `rank` is the order of `Compare` for this target. */
  ghost predicate RanksFor(rank: Contact -> nat, target: Id) {
    forall c {:trigger Rank(target, c)} :: rank(c) == Rank(target, c)
  }

  /** How one evaluated contact ended: kept, without an acceptable reply, not finished yet, or
      beaten by eight strictly nearer ids that replied. */
  ghost predicate Accounted(target: Id, s: State, job: Job) {
    match job.contact.id
    case None => true
    case Some(id) =>
      || id in Keys(s.out)
      || (job.phase.Spawned? || job.phase.Asked? || job.phase.Failed?)
      || (|s.out| == KEEP && forall k :: k in Keys(s.out) ==> Closer(target, k, id))
  }

  /** The lookup theorem, for every target, every set of seeds and every interleaving. */
  lemma LookupCorrect(target: Id, rank: Contact -> nat, seeds: seq<Contact>, es: seq<Event>, s: State)
    requires RanksFor(rank, target) && After(rank, seeds, es) == Some(s)
    // At most eight ids are kept, all of which replied acceptably.
    ensures |s.out| <= KEEP && Keys(s.out) <= RepliedIds(s.jobs)
    // What is kept for an id is what the reply of that node carried.
    ensures forall x :: x in s.out ==> Carried(es, s.jobs, x)
    // No node is evaluated twice.
    ensures forall i, j :: 0 <= i < j < |s.jobs| ==> !Same(s.jobs[i].contact, s.jobs[j].contact)
    // Only contacts heard of are evaluated, so there are no more evaluations than nodes heard of.
    ensures |s.jobs| <= |Nodes(rank, s.reported)|
    // The ids kept are the nearest of those that replied, as many as there is room for.
    ensures |s.out| == Min(KEEP, |RepliedIds(s.jobs)|)
    ensures forall near, far :: near in Keys(s.out) && far in RepliedIds(s.jobs) && far !in Keys(s.out) ==>
              Closer(target, near, far)
    // Every evaluated contact is accounted for.
    ensures forall j :: 0 <= j < |s.jobs| ==> Accounted(target, s, s.jobs[j])
    // When the search ends by itself, every contact heard of by then was evaluated.
    ensures s.loop.Stopped? && s.loop.exhausted ==>
              forall i :: 0 <= i < s.loop.heard <= |s.reported| ==>
                exists j :: 0 <= j < |s.jobs| && Same(s.jobs[j].contact, s.reported[i])
    // While it waits for candidates with none in the queue, some job is still due to report.
    ensures s.loop.WaitCandidate? && s.queue == [] ==> s.active != {}
    // At most eight jobs hold a slot, and a search that has not stopped can always proceed: the main
    // coroutine has a slot or a candidate to take, or some job has a step to make.
    ensures |s.active| <= SLOTS
    ensures !s.loop.Stopped? ==> exists e :: Enabled(s, e) && !e.Cancelled? && !e.Dismissed?
  {
    RanksForProper(rank, target);
    RunInvariant(rank, seeds, es, s);
    KeysCount(IdRank(rank), s.out);
    JobsAreNodes(rank, s.jobs, s.reported);
    forall near, far | near in Keys(s.out) && far in RepliedIds(s.jobs) && far !in Keys(s.out)
      ensures Closer(target, near, far)
    {
      RankIsDistance(target, rank, near);
      RankIsDistance(target, rank, far);
    }
    forall j | 0 <= j < |s.jobs| ensures Accounted(target, s, s.jobs[j]) {
      JobAccounted(target, rank, s, j);
    }
    forall x | x in s.out ensures Carried(es, s.jobs, x) {
      KeptWasAnswered(rank, seeds, es, s, x);
    }
    if !s.loop.Stopped? {
      CanProceed(s);
    }
    if s.loop.Stopped? && s.loop.exhausted {
      forall i | 0 <= i < s.loop.heard <= |s.reported|
        ensures exists j :: 0 <= j < |s.jobs| && Same(s.jobs[j].contact, s.reported[i])
      {
        HeardIsEvaluated(rank, s, i);
      }
    }
  }

  lemma CanProceed(s: State)
    requires NeverStuck(s) && !s.loop.Stopped?
    ensures exists e :: Enabled(s, e) && !e.Cancelled? && !e.Dismissed?
  {
    if s.active != {} {
      var j :| j in s.active;
      assert Enabled(s, if s.jobs[j].phase.Spawned? then Started(j) else Answered(j, ""));
    } else {
      assert Enabled(s, if s.loop.WantSlot? then GotSlot else Popped);
    }
  }

  lemma RankIsDistance(target: Id, rank: Contact -> nat, id: Id)
    requires RanksFor(rank, target)
    ensures IdRank(rank)(id) == Distance(target, id)
  {
    assert IdRank(rank)(id) == Rank(target, Contact(0, Some(id)));
  }

  /** The id is kept, or was asked and gave no acceptable reply, or is beaten by eight ids kept. */
  ghost predicate Decided(target: Id, s: State, id: Id) {
    || id in Keys(s.out)
    || (exists j :: 0 <= j < |s.jobs| && s.jobs[j].contact.id == Some(id) && s.jobs[j].phase.Failed?)
    || (|s.out| == KEEP && forall k :: k in Keys(s.out) ==> Closer(target, k, id))
  }

  /** When the search has ended by itself and no query is under way any more, every id heard of by then
      is kept, or gave no acceptable reply, or is strictly farther than each of eight ids kept. */
  lemma FinishedSearch(target: Id, rank: Contact -> nat, seeds: seq<Contact>, es: seq<Event>, s: State, i: nat)
    requires RanksFor(rank, target) && After(rank, seeds, es) == Some(s)
    requires s.loop.Stopped? && s.loop.exhausted && i < s.loop.heard <= |s.reported| && s.reported[i].id.Some?
    requires forall j :: 0 <= j < |s.jobs| ==> !s.jobs[j].phase.Spawned? && !s.jobs[j].phase.Asked?
    ensures Decided(target, s, s.reported[i].id.value)
  {
    LookupCorrect(target, rank, seeds, es, s);
    var j :| 0 <= j < |s.jobs| && Same(s.jobs[j].contact, s.reported[i]);
    assert Accounted(target, s, s.jobs[j]);
  }

  lemma RanksForProper(rank: Contact -> nat, target: Id)
    requires RanksFor(rank, target)
    ensures Proper(rank)
  {
    forall a, b ensures rank(a) == rank(b) <==> Same(a, b) {
      assert rank(a) == Rank(target, a) && rank(b) == Rank(target, b);
      RankEquates(target, a, b);
    }
  }

  lemma JobAccounted(target: Id, rank: Contact -> nat, s: State, j: nat)
    requires RanksFor(rank, target) && ResultInv(IdRank(rank), s) && j < |s.jobs|
    ensures Accounted(target, s, s.jobs[j])
  {
    var job := s.jobs[j];
    if job.contact.id.Some? && Settled(job.phase) && job.contact.id.value !in Keys(s.out) {
      var id := job.contact.id.value;
      KeysCount(IdRank(rank), s.out);
      if job.phase.Replied? {
        assert id in RepliedIds(s.jobs);
        SubsetSize(Keys(s.out), RepliedIds(s.jobs));
      }
      assert AllNearer(IdRank(rank), s.out, id);
      forall k | k in Keys(s.out) ensures Closer(target, k, id) {
        RankIsDistance(target, rank, k);
        RankIsDistance(target, rank, id);
      }
    }
  }

  lemma HeardIsEvaluated(rank: Contact -> nat, s: State, i: nat)
    requires Proper(rank) && JobsMatch(rank, s) && NothingLost(rank, s)
    requires s.loop.Stopped? && s.loop.exhausted && i < s.loop.heard
    ensures exists j :: 0 <= j < |s.jobs| && Same(s.jobs[j].contact, s.reported[i])
  {
  }
}
