/** Connections that can be put aside and taken up again (src/connection_pool.h).

    While a connection is idle it keeps one read of one byte open on the inner stream, so that data
    or an error arriving meanwhile disqualifies it.  The read may still be open when the connection
    is taken up again; then its byte must reach the user first. */
module IdleConnections {
  import opened Options

  type Byte = nat
  type ReadId = nat
  type Error = nat

  const ALREADY_STARTED: Error := 1
  const OPERATION_ABORTED: Error := 2

  /** A read started on the inner stream and not completed yet. */
  datatype Read = IdleRead | DirectRead(id: ReadId, size: nat)

  /** A handler of the user that has been posted. */
  datatype Completion = Completion(id: ReadId, error: Option<Error>, bytes: seq<Byte>)

  /** What the inner stream answers: an error, or at least one byte and no more than asked for. */
  datatype Answer = Failed(error: Error) | Got(bytes: seq<Byte>)
  {
    function Bytes(): seq<Byte> {
      if Got? then bytes else []
    }

    function ErrorCode(): Option<Error> {
      if Got? then None else Some(error)
    }
  }

  ghost function BytesOf(cs: seq<Completion>): seq<Byte> {
    if cs == [] then [] else BytesOf(cs[..|cs| - 1]) + cs[|cs| - 1].bytes
  }

  /** No read of the user was passed on and is still open. */
  ghost predicate NoneDirect(pending: seq<Read>) {
    forall r :: r in pending ==> r.IdleRead?
  }

  /** How many idle reads are open. */
  ghost function Idles(pending: seq<Read>): nat {
    if pending == [] then 0 else (if pending[0].IdleRead? then 1 else 0) + Idles(pending[1..])
  }

  lemma {:induction false} IdlesMeaning(s: seq<Read>)
    ensures Idles(s) <= |s| && (NoneDirect(s) <==> Idles(s) == |s|) && (Idles(s) > 0 <==> IdleRead in s)
  {
    if s == [] {
    } else {
      IdlesMeaning(s[1..]);
      assert s == [s[0]] + s[1..];
    }
  }

  function Without(pending: seq<Read>, k: nat): seq<Read>
    requires k < |pending|
  {
    pending[..k] + pending[k + 1..]
  }

  lemma {:induction false} IdlesWithout(s: seq<Read>, k: nat)
    requires k < |s|
    ensures Idles(Without(s, k)) == Idles(s) - if s[k].IdleRead? then 1 else 0
  {
    if k == 0 {
      assert s[..0] + s[1..] == s[1..];
    } else {
      IdlesWithout(s[1..], k - 1);
      assert (s[..k] + s[k + 1..])[1..] == s[1..][..k - 1] + s[1..][k..];
    }
  }

  lemma {:induction false} IdlesSnoc(s: seq<Read>, r: Read)
    ensures Idles(s + [r]) == Idles(s) + if r.IdleRead? then 1 else 0
  {
    if s == [] {
      assert s + [r] == [r];
    } else {
      IdlesSnoc(s[1..], r);
      assert (s + [r])[1..] == s[1..] + [r];
    }
  }

  class IdleConnection {
    // The fields of `Data`.
    var onIdleRead: bool
    var pendingIdleRead: bool
    var readCallback: Option<ReadId>
    var readQueued: bool
    var queuedReadBuffer: Byte
    var queuedReadError: Option<Error>
    // The reads open on the inner stream, oldest first.
    var pending: seq<Read>
    // Set once the callback for an unexpected read has run; it closes the connection.
    var disqualified: bool
    var wasDestroyed: bool
    // History: handlers posted to the user, bytes taken from the inner stream, and whether the idle read
    // was ever opened beside a direct one.
    var posted: seq<Completion>
    ghost var arrived: seq<Byte>
    ghost var overlapped: bool

    /** The byte that came in between two uses and waits for the next read. */
    ghost function Waiting(): seq<Byte>
      reads this
    {
      if readQueued && queuedReadError == None then [queuedReadBuffer] else []
    }

    ghost predicate Valid()
      reads this
    {
      !wasDestroyed ==>
      // There is one idle read open, or none, as the flag says.
      && Idles(pending) == (if pendingIdleRead then 1 else 0)
      && (readCallback.Some? ==> pendingIdleRead && !onIdleRead)
      && (readQueued ==> !pendingIdleRead && readCallback == None && !onIdleRead)
      && (onIdleRead ==> pendingIdleRead)
      // Unless the user broke the rule: the idle read never overlaps with another read ...
      && (!overlapped && pendingIdleRead ==> pending == [IdleRead])
      && (!overlapped && readQueued ==> pending == [])
      // ... and no byte is lost, added or reordered until the connection is disqualified.
      && (!overlapped && !disqualified ==> arrived == BytesOf(posted) + Waiting())
    }

    constructor ()
      ensures Valid() && fresh(this) && !onIdleRead && !pendingIdleRead && !readQueued && readCallback == None
      ensures pending == [] && posted == [] && arrived == [] && !disqualified && !wasDestroyed && !overlapped
    {
      onIdleRead, pendingIdleRead, readCallback, readQueued := false, false, None, false;
      queuedReadBuffer, queuedReadError := 0, None;
      pending, disqualified, wasDestroyed, posted, arrived := [], false, false, [], [];
      overlapped := false;
    }

    method Post(c: Completion)
      modifies this`posted
      ensures posted == old(posted) + [c]
      ensures BytesOf(posted) == BytesOf(old(posted)) + c.bytes
    {
      posted := posted + [c];
      assert posted[..|posted| - 1] == old(posted);
    }

    /** `async_read_some` of the user, which must not be called while the connection is idle. */
    method AsyncReadSome(id: ReadId, size: nat)
      requires Valid() && !onIdleRead && !wasDestroyed
      modifies this
      ensures Valid() && arrived == old(arrived) && !wasDestroyed && unchanged(`disqualified, `overlapped)
      ensures pendingIdleRead == old(pendingIdleRead) && !onIdleRead
      // A user with no direct read of their own under way never overlaps reads on the inner stream.
      ensures NoneDirect(old(pending)) ==> |pending| <= 1
      ensures if size == 0 then
                && posted == old(posted) + [Completion(id, None, [])]
                && unchanged(`pending, `readCallback, `readQueued)
              else if old(readCallback).Some? then
                && posted == old(posted) + [Completion(id, Some(ALREADY_STARTED), [])]
                && unchanged(`pending, `readCallback, `readQueued)
              else if old(readQueued) then
                && posted == old(posted) + [Completion(id, old(queuedReadError), old(Waiting()))]
                && unchanged(`pending, `readCallback) && !readQueued
              else if old(pendingIdleRead) then readCallback == Some(id) && unchanged(`pending, `posted, `readQueued)
              else pending == old(pending) + [DirectRead(id, size)] && unchanged(`posted, `readCallback, `readQueued)
    {
      IdlesMeaning(pending);
      IdlesSnoc(pending, DirectRead(id, size));
      hide Idles;
      hide BytesOf;
      hide NoneDirect;
      if size == 0 {
        Post(Completion(id, None, []));
        return;
      }
      if readCallback.Some? {
        Post(Completion(id, Some(ALREADY_STARTED), []));
        return;
      }
      if readQueued {
        assert !pendingIdleRead;
        readQueued := false;
        var bytes := if queuedReadError == None then [queuedReadBuffer] else [];
        Post(Completion(id, queuedReadError, bytes));
        return;
      }
      if pendingIdleRead {
        readCallback := Some(id);
        return;
      }
      pending := pending + [DirectRead(id, size)];
    }

    /** `make_idle`.  Nothing stops the user from calling it with a direct read under way; the idle read
        is then opened beside it, and only then is more than one read outstanding. */
    method MakeIdle()
      requires Valid() && !wasDestroyed && readCallback == None && !onIdleRead
      modifies this
      ensures Valid() && unchanged(`posted, `arrived, `readCallback, `wasDestroyed)
      ensures if old(readQueued) then
                disqualified && !onIdleRead && unchanged(`pending, `pendingIdleRead, `overlapped)
              else
                && onIdleRead && pendingIdleRead && disqualified == old(disqualified) && !readQueued
                && pending == (if old(pendingIdleRead) then old(pending) else old(pending) + [IdleRead])
                && (|pending| <= 1 <==> NoneDirect(old(pending)))
                && overlapped == (old(overlapped) || !NoneDirect(old(pending)))
    {
      IdlesMeaning(pending);
      IdlesSnoc(pending, IdleRead);
      hide Idles;
      hide BytesOf;
      hide NoneDirect;
      onIdleRead := true;
      if readQueued {
        onIdleRead := false;
        disqualified := true;
        return;
      }
      overlapped := overlapped || !NoneDirect(pending);
      if pendingIdleRead {
        return;
      }
      pendingIdleRead := true;
      pending := pending + [IdleRead];
    }

    method MakeNotIdle()
      requires Valid() && onIdleRead
      modifies this
      ensures Valid() && !onIdleRead
      ensures unchanged(`pendingIdleRead, `pending, `posted, `arrived, `readCallback, `readQueued)
      ensures unchanged(`disqualified, `wasDestroyed, `overlapped)
    {
      onIdleRead := false;
    }

    /** One of the reads open on the inner stream is over. */
    method Close(k: nat)
      requires k < |pending|
      modifies this`pending
      ensures pending == Without(old(pending), k)
      ensures Idles(pending) == Idles(old(pending)) - if old(pending[k]).IdleRead? then 1 else 0
      ensures Idles(old(pending)) > 0 <==> IdleRead in old(pending)
      ensures |old(pending)| == 1 ==> pending == []
    {
      IdlesWithout(pending, k);
      IdlesMeaning(pending);
      pending := Without(pending, k);
    }

    /** The inner stream completes the idle read. */
    method IdleReadCompletes(k: nat, a: Answer)
      requires Valid() && k < |pending| && pending[k].IdleRead? && (a.Got? ==> |a.bytes| == 1)
      modifies this
      ensures Valid() && pending == Without(old(pending), k) && unchanged(`wasDestroyed, `overlapped)
      ensures arrived == old(arrived) + a.Bytes()
      ensures !wasDestroyed ==> !pendingIdleRead
      ensures if old(wasDestroyed) then unchanged(`posted, `readCallback, `readQueued)
              else if old(onIdleRead) then disqualified && !onIdleRead && unchanged(`posted)
              else if old(readCallback).Some? then
                && posted == old(posted) + [Completion(old(readCallback).value, a.ErrorCode(), a.Bytes())]
                && readCallback == None && !readQueued && disqualified == old(disqualified)
              else
                && unchanged(`posted) && readQueued && Waiting() == a.Bytes()
                && queuedReadError == a.ErrorCode() && disqualified == old(disqualified)
    {
      hide BytesOf;
      hide Idles;
      hide Without;
      assert pending[k] in pending;
      Close(k);
      assert !wasDestroyed ==> Waiting() == [] && pendingIdleRead;
      assert !wasDestroyed && !disqualified && !overlapped ==> arrived == BytesOf(posted) + [] == BytesOf(posted);
      arrived := arrived + a.Bytes();
      if wasDestroyed {
        return;
      }
      if a.Got? {
        queuedReadBuffer := a.bytes[0];
        assert a.bytes == [queuedReadBuffer];
      }
      var error := a.ErrorCode();
      assert pendingIdleRead;
      pendingIdleRead := false;
      assert !readQueued;
      if onIdleRead {
        onIdleRead := false;
        disqualified := true;
        return;
      }
      if readCallback.Some? {
        Post(Completion(readCallback.value, error, a.Bytes()));
        readCallback := None;
        return;
      }
      queuedReadError := error;
      readQueued := true;
    }

    /** The inner stream completes a read that was passed on to it. */
    method DirectReadCompletes(k: nat, a: Answer)
      requires Valid() && k < |pending| && pending[k].DirectRead?
      requires a.Got? ==> 0 < |a.bytes| <= pending[k].size
      modifies this
      ensures Valid() && pending == Without(old(pending), k) && arrived == old(arrived) + a.Bytes()
      ensures posted == old(posted) + [Completion(old(pending[k]).id, a.ErrorCode(), a.Bytes())]
      ensures unchanged(`onIdleRead, `pendingIdleRead, `readCallback, `readQueued)
      ensures unchanged(`disqualified, `wasDestroyed, `overlapped)
    {
      var id := pending[k].id;
      hide Idles;
      hide BytesOf;
      hide Without;
      Close(k);
      arrived := arrived + a.Bytes();
      Post(Completion(id, a.ErrorCode(), a.Bytes()));
    }

    /** The destructor: a waiting read of the user is aborted. */
    method Destroy()
      requires Valid() && !wasDestroyed
      modifies this
      ensures Valid() && wasDestroyed && readCallback == None && arrived == old(arrived)
      ensures posted == old(posted) +
              if old(readCallback).Some? then [Completion(old(readCallback).value, Some(OPERATION_ABORTED), [])] else []
    {
      wasDestroyed := true;
      if readCallback.Some? {
        Post(Completion(readCallback.value, Some(OPERATION_ABORTED), []));
        readCallback := None;
      }
    }
  }

  // ------------------------------------------------------------------------------------------
  // The pool

  class ConnectionPool {
    var connections: seq<IdleConnection>

    /** Every connection listed is idle, with its idle read open and nothing queued, and listed once. */
    ghost predicate Valid()
      reads this, connections
    {
      && (forall i, j :: 0 <= i < j < |connections| ==> connections[i] != connections[j])
      && (forall c :: c in connections ==>
            && c.Valid() && !c.wasDestroyed && c.onIdleRead && c.pendingIdleRead
            && !c.readQueued && c.readCallback == None && !c.disqualified)
    }

    constructor ()
      ensures Valid() && connections == []
    {
      connections := [];
    }

    /** `push_back`.  The callback for an unexpected read closes the connection and takes it from the
        list; it may run at once, so the connection may be gone when this returns. */
    method PushBack(c: IdleConnection)
      requires Valid() && c.Valid() && c !in connections
      requires !c.wasDestroyed && !c.disqualified && !c.onIdleRead && c.readCallback == None
      modifies this, c
      ensures Valid() && c.Valid() && c.posted == old(c.posted) && c.arrived == old(c.arrived)
      ensures c.disqualified == old(c.readQueued)
      ensures !c.disqualified ==> (|c.pending| <= 1 <==> NoneDirect(old(c.pending)))
      ensures connections == if c.disqualified then old(connections) else old(connections) + [c]
    {
      connections := connections + [c];
      c.MakeIdle();
      if c.disqualified {
        connections := connections[..|connections| - 1];
      }
    }

    /** `pop_front`, of a pool that is not empty. */
    method PopFront() returns (c: IdleConnection)
      requires Valid() && connections != []
      modifies this, connections[0]
      ensures Valid() && connections == old(connections)[1..] && c == old(connections)[0]
      ensures c.Valid() && !c.onIdleRead && !c.disqualified && !c.wasDestroyed
      ensures c.readCallback == None && !c.readQueued
      ensures c.pendingIdleRead && c.posted == old(connections[0].posted) && c.arrived == old(connections[0].arrived)
      ensures c !in connections
    {
      c := connections[0];
      connections := connections[1..];
      c.MakeNotIdle();
    }

    /** Data or an error arrives for a connection in the pool: it is closed and taken off the list. */
    method UnexpectedRead(i: nat, k: nat, a: Answer)
      requires Valid() && i < |connections| && (a.Got? ==> |a.bytes| == 1)
      requires k < |connections[i].pending| && connections[i].pending[k].IdleRead?
      modifies this, connections[i]
      ensures Valid() && connections == old(connections)[..i] + old(connections)[i + 1..]
      ensures old(connections)[i].disqualified && old(connections)[i].posted == old(connections[i].posted)
    {
      hide BytesOf;
      var c := connections[i];
      c.IdleReadCompletes(k, a);
      connections := connections[..i] + connections[i + 1..];
      assert forall d :: d in connections ==> d in old(connections) && d != c;
    }
  }
}
