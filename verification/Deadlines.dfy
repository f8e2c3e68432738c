/** The re-arming timer of a stream with timeouts: class `Deadline` in src/timeout_stream.h.

    `waits` are the waits started on the steady timer whose handlers have not run: armed ones, which
    the timer still counts, and ready ones, which have elapsed or been cancelled and whose handler is
    on its way.  Cancelling cannot call back a handler that is on its way. */
module Deadlines {
  import opened Options

  type Time = real

  type Handler = nat

  datatype Wait = Armed(expiry: Time) | Ready

  datatype Firing = Firing(handler: Handler, at: Time)

  class Deadline {
    var expiresAt: Option<Time>
    var desiredDeadline: Option<Time>
    var handler: Option<Handler>
    var waits: seq<Wait>
    // History: when each handler was due, which ones ran, and which was stopped or replaced.
    ghost var due: seq<Time>
    ghost var fired: seq<Firing>
    ghost var dropped: set<Handler>
    ghost var clock: Time

    ghost predicate Valid()
      reads this
    {
      // At most one wait is outstanding, and `_expires_at` tells whether there is one.
      && |waits| == (if expiresAt.Some? then 1 else 0)
      // An armed wait ends no later than the deadline that it stands for.
      && (waits != [] && waits[0].Armed? ==>
            waits[0].expiry == expiresAt.value && desiredDeadline.Some? && expiresAt.value <= desiredDeadline.value)
      // A deadline that has not fired has a wait, and a wait with a deadline has a handler to call.
      && (handler.Some? ==> waits != [] && desiredDeadline.Some?)
      && (waits != [] && desiredDeadline.Some? ==> handler.Some?)
      && (handler.Some? ==>
            handler.value < |due| && due[handler.value] <= desiredDeadline.value && Unfinished(handler.value))
      && History()
    }

    /** The handler has neither run nor been given up. */
    ghost predicate Unfinished(h: Handler)
      reads this
    {
      h !in dropped && forall f :: f in fired ==> f.handler != h
    }

    /** Handlers run at most once, never early, and never after `stop`. */
    ghost predicate History()
      reads this
    {
      && (forall f :: f in fired ==> f.handler < |due| && due[f.handler] <= f.at <= clock && f.handler !in dropped)
      && (forall i, j :: 0 <= i < j < |fired| ==> fired[i].handler != fired[j].handler)
      && (forall h :: h in dropped ==> h < |due|)
    }

    /** Everything ever started has fired, was given up, or is the one handler still kept. */
    ghost predicate Accounted()
      reads this
    {
      forall h: nat :: h < |due| ==> !Unfinished(h) || handler == Some(h)
    }

    constructor (now: Time)
      ensures Valid() && Accounted() && clock == now && waits == [] && fired == [] && due == [] && handler == None
    {
      expiresAt, desiredDeadline, handler, waits := None, None, None, [];
      due, fired, dropped, clock := [], [], {}, now;
    }

    /** `timer.cancel()`: the armed wait becomes ready. */
    method CancelTimer()
      modifies this`waits
      ensures waits == seq(|old(waits)|, _ => Ready)
    {
      waits := seq(|waits|, _ => Ready);
    }

    /** The part of `start` after the handler and the deadline have been set. */
    method Arm(deadline: Time)
      requires |waits| == (if expiresAt.Some? then 1 else 0) && desiredDeadline == Some(deadline)
      modifies this`expiresAt, this`waits
      ensures if old(expiresAt).Some? then
                && expiresAt == old(expiresAt)
                && waits == (if deadline < expiresAt.value then [Ready] else old(waits))
              else expiresAt == Some(deadline) && waits == [Armed(deadline)]
    {
      if expiresAt.Some? {
        if deadline < expiresAt.value {
          CancelTimer();
        }
        return;
      }
      expiresAt := Some(deadline);
      waits := waits + [Armed(deadline)];
    }

    /** `start`, called by the user; handlers are numbered in the order in which they are passed. */
    method Start(d: Time, h: Handler, now: Time)
      requires Valid() && Accounted() && clock <= now && h == |due|
      modifies this
      ensures Valid() && Accounted() && clock == now
      ensures due == old(due) + [now + d] && handler == Some(h) && fired == old(fired)
      ensures desiredDeadline == Some(now + d)
      ensures dropped == old(dropped) + if old(handler).Some? then {old(handler).value} else {}
    {
      clock := now;
      dropped := dropped + if handler.Some? then {handler.value} else {};
      due := due + [now + d];
      handler := Some(h);
      desiredDeadline := Some(now + d);
      Arm(now + d);
    }

    method Stop(now: Time)
      requires Valid() && Accounted() && clock <= now
      modifies this
      ensures Valid() && Accounted() && clock == now
      ensures handler == None && desiredDeadline == None && fired == old(fired) && due == old(due)
      ensures dropped == old(dropped) + if old(handler).Some? then {old(handler).value} else {}
      ensures |waits| == |old(waits)|
    {
      clock := now;
      dropped := dropped + if handler.Some? then {handler.value} else {};
      handler := None;
      desiredDeadline := None;
      if expiresAt.Some? {
        expiresAt := Some(now);
        CancelTimer();
      }
    }

    /** The time of the armed wait has come; its handler is now on its way. */
    method Elapse(now: Time)
      requires Valid() && Accounted() && clock <= now && waits != [] && waits[0].Armed? && waits[0].expiry <= now
      modifies this
      ensures Valid() && Accounted() && clock == now && waits == [Ready]
      ensures handler == old(handler) && fired == old(fired) && due == old(due) && dropped == old(dropped)
      ensures desiredDeadline == old(desiredDeadline)
    {
      clock := now;
      waits := [Ready];
    }

    /** `on_timer`, run for a wait that is ready.  It reads the clock once, and a second time if it has
        to start again; the deadline then moves by the time that passed between. */
    method OnTimer(now: Time, again: Time)
      requires Valid() && Accounted() && clock <= now <= again && waits == [Ready]
      modifies this
      ensures Valid() && Accounted() && clock == again && due == old(due) && dropped == old(dropped)
      ensures if old(handler) == None then handler == None && fired == old(fired) && waits == []
              else if now < old(desiredDeadline).value then
                && handler == old(handler) && fired == old(fired)
                && desiredDeadline == Some(again + (old(desiredDeadline).value - now))
                && waits == [Armed(desiredDeadline.value)]
              else handler == None && waits == [] && fired == old(fired) + [Firing(old(handler).value, now)]
    {
      clock := again;
      waits := [];
      expiresAt := None;
      if desiredDeadline == None {
        return;
      }
      if now < desiredDeadline.value {
        desiredDeadline := Some(again + (desiredDeadline.value - now));
        Arm(desiredDeadline.value);
        return;
      }
      assert handler.Some?;
      var h := handler.value;
      handler := None;
      fired := fired + [Firing(h, now)];
      assert fired[|fired| - 1] in fired;
    }
  }
}
