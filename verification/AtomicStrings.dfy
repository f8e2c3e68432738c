/** A string shared between one writer and readers in other threads: class `AtomicString` in
    src/client_lib.cpp.

    Each access to an atomic flag is one step; assigning and copying the string take two steps each,
    so that they could overlap.  `wait` blocks on a flag that is set and is woken by a notification
    (or spuriously), after which it looks at the flag again. */
module AtomicStrings {
  import opened Options

  type Text = string

  /** Where a reader stands in `get_c_str`. */
  datatype ReaderPc =
    | Away            // not in the function
    | AwaitWrite      // about to wait for `write_in_progress` to be clear
    | SleepOnWrite
    | Take            // about to test-and-set `read_in_progress`
    | AwaitRead       // it was taken: about to wait for it to be clear
    | SleepOnRead
    | Check           // holds it: about to test `write_in_progress`
    | BackOff         // a write is in progress: about to clear `read_in_progress`
    | BackOffNotify
    | StartCopy
    | Copying
    | Release         // about to clear `read_in_progress`
    | ReleaseNotify

  /** Where the writer stands in `set`. */
  datatype WriterPc =
    | Resting
    | Raise           // about to set `write_in_progress`
    | AwaitReader     // about to wait for `read_in_progress` to be clear
    | SleepOnReader
    | StartAssign
    | Assigning
    | Lower           // about to clear `write_in_progress`
    | LowerNotify

  datatype Reader = Reader(pc: ReaderPc, snapshot: Text)

  /** `written` is a history: the values assigned so far, the initial one first.  `copies` collects
      the results of the readers; `None` stands for a torn copy. */
  datatype State = State(
    readInProgress: bool,
    writeInProgress: bool,
    readers: seq<Reader>,
    writer: WriterPc,
    argument: Text,
    value: Text,
    written: seq<Text>,
    copies: seq<Option<Text>>)

  datatype Party = TheWriter | TheReader(i: nat)

  datatype Event =
    | CallGet(i: nat)
    | CallSet(value: Text)
    | ReaderStep(i: nat, wakes: Option<Party>)
    | WriterStep
    | Spurious(party: Party)

  function Init(n: nat, initial: Text): State {
    State(false, false, seq(n, _ => Reader(Away, "")), Resting, initial, initial, [initial], [])
  }

  function At(s: State, i: nat, pc: ReaderPc): (r: State)
    requires i < |s.readers|
    ensures |r.readers| == |s.readers|
  {
    s.(readers := s.readers[i := s.readers[i].(pc := pc)])
  }

  /** `notify_one` on `read_in_progress`: one of those that sleep on it wakes up, if there are any. */
  predicate WakesOne(s: State, wakes: Option<Party>) {
    match wakes
    case None => !s.writer.SleepOnReader? && forall j :: 0 <= j < |s.readers| ==> !s.readers[j].pc.SleepOnRead?
    case Some(TheWriter) => s.writer.SleepOnReader?
    case Some(TheReader(j)) => j < |s.readers| && s.readers[j].pc.SleepOnRead?
  }

  function Woken(s: State, wakes: Option<Party>): (r: State)
    requires WakesOne(s, wakes)
    ensures |r.readers| == |s.readers|
  {
    match wakes
    case None => s
    case Some(TheWriter) => s.(writer := AwaitReader)
    case Some(TheReader(j)) => At(s, j, AwaitRead)
  }

  /** `notify_all` on `write_in_progress`. */
  function WokenAll(readers: seq<Reader>): (r: seq<Reader>)
    ensures |r| == |readers|
    ensures forall i :: 0 <= i < |r| ==>
              r[i] == if readers[i].pc.SleepOnWrite? then readers[i].(pc := AwaitWrite) else readers[i]
  {
    seq(|readers|, i requires 0 <= i < |readers| =>
      if readers[i].pc.SleepOnWrite? then readers[i].(pc := AwaitWrite) else readers[i])
  }

  function NextReader(s: State, i: nat, wakes: Option<Party>): (r: Option<State>)
    requires i < |s.readers|
    ensures r.Some? ==> |r.value.readers| == |s.readers|
  {
    match s.readers[i].pc
    case Away => None
    case AwaitWrite => Some(At(s, i, if s.writeInProgress then SleepOnWrite else Take))
    case SleepOnWrite => None
    case Take => Some(At(s.(readInProgress := true), i, if s.readInProgress then AwaitRead else Check))
    case AwaitRead => Some(At(s, i, if s.readInProgress then SleepOnRead else Take))
    case SleepOnRead => None
    case Check => Some(At(s, i, if s.writeInProgress then BackOff else StartCopy))
    case BackOff => Some(At(s.(readInProgress := false), i, BackOffNotify))
    case BackOffNotify => if WakesOne(s, wakes) then Some(At(Woken(s, wakes), i, AwaitWrite)) else None
    case StartCopy => Some(s.(readers := s.readers[i := Reader(Copying, s.value)]))
    case Copying =>
      // A copy is whole if nothing was assigned while it was made.
      var whole := !s.writer.Assigning? && s.value == s.readers[i].snapshot;
      Some(At(s, i, Release).(copies := s.copies + [if whole then Some(s.value) else None]))
    case Release => Some(At(s.(readInProgress := false), i, ReleaseNotify))
    case ReleaseNotify => if WakesOne(s, wakes) then Some(At(Woken(s, wakes), i, Away)) else None
  }

  function NextWriter(s: State): (r: Option<State>)
    ensures r.Some? ==> |r.value.readers| == |s.readers|
  {
    match s.writer
    case Resting => None
    case Raise => Some(s.(writeInProgress := true, writer := AwaitReader))
    case AwaitReader => Some(s.(writer := if s.readInProgress then SleepOnReader else StartAssign))
    case SleepOnReader => None
    case StartAssign => Some(s.(writer := Assigning))
    case Assigning => Some(s.(writer := Lower, value := s.argument, written := s.written + [s.argument]))
    case Lower => Some(s.(writeInProgress := false, writer := LowerNotify))
    case LowerNotify => Some(s.(readers := WokenAll(s.readers), writer := Resting))
  }

  function Next(s: State, e: Event): (r: Option<State>)
    ensures r.Some? ==> |r.value.readers| == |s.readers|
  {
    match e
    case CallGet(i) => if i < |s.readers| && s.readers[i].pc.Away? then Some(At(s, i, AwaitWrite)) else None
    case CallSet(value) => if s.writer.Resting? then Some(s.(writer := Raise, argument := value)) else None
    case ReaderStep(i, wakes) => if i < |s.readers| then NextReader(s, i, wakes) else None
    case WriterStep => NextWriter(s)
    case Spurious(TheWriter) => if s.writer.SleepOnReader? then Some(s.(writer := AwaitReader)) else None
    case Spurious(TheReader(i)) =>
      if i >= |s.readers| then None
      else if s.readers[i].pc.SleepOnRead? then Some(At(s, i, AwaitRead))
      else if s.readers[i].pc.SleepOnWrite? then Some(At(s, i, AwaitWrite))
      else None
  }

  /** The state after a sequence of events, if each was possible in its turn. */
  function After(n: nat, initial: Text, es: seq<Event>): Option<State> {
    if es == [] then Some(Init(n, initial))
    else
      match After(n, initial, es[..|es| - 1])
      case None => None
      case Some(s) => Next(s, es[|es| - 1])
  }

  // ------------------------------------------------------------------------------------------
  // Safety, for any number of readers

  /** The reader has set `read_in_progress` and not cleared it yet. */
  predicate Holds(r: Reader) {
    r.pc.Check? || r.pc.BackOff? || Entered(r)
  }

  /** ... and it has found no write in progress. */
  predicate Entered(r: Reader) {
    r.pc.StartCopy? || r.pc.Copying? || r.pc.Release?
  }

  /** The writer has found no read in progress, and not cleared its own flag yet. */
  predicate Writing(w: WriterPc) {
    w.StartAssign? || w.Assigning? || w.Lower?
  }

  ghost predicate OneHolder(s: State) {
    && (forall i, j :: 0 <= i < j < |s.readers| ==> !(Holds(s.readers[i]) && Holds(s.readers[j])))
    && (s.readInProgress <==> exists i :: 0 <= i < |s.readers| && Holds(s.readers[i]))
  }

  ghost predicate FlagsInv(s: State) {
    && OneHolder(s)
    && (s.writeInProgress <==> Writing(s.writer) || s.writer.AwaitReader? || s.writer.SleepOnReader?)
    && (Writing(s.writer) ==> forall i :: 0 <= i < |s.readers| ==> !Entered(s.readers[i]))
  }

  ghost predicate ValuesInv(s: State) {
    && s.written != [] && s.value == s.written[|s.written| - 1]
    && (forall i :: 0 <= i < |s.readers| && s.readers[i].pc.Copying? ==> s.readers[i].snapshot == s.value)
    && (forall c :: c in s.copies ==> c.Some? && c.value in s.written)
  }

  /** A step of one reader that neither takes nor gives back the flag, nor enters. */
  lemma ReaderMoves(s: State, i: nat, pc: ReaderPc)
    requires i < |s.readers| && FlagsInv(s)
    requires var r := s.readers[i].(pc := pc);
             Holds(r) == Holds(s.readers[i]) && (Entered(r) ==> Entered(s.readers[i]) || !s.writeInProgress)
    ensures FlagsInv(At(s, i, pc))
  {
    var t := At(s, i, pc);
    assert forall j :: 0 <= j < |s.readers| ==> Holds(t.readers[j]) == Holds(s.readers[j]);
  }

  lemma ReaderTakes(s: State, i: nat)
    requires i < |s.readers| && FlagsInv(s) && s.readers[i].pc.Take? && !s.readInProgress
    ensures FlagsInv(At(s.(readInProgress := true), i, Check))
  {
    var t := At(s.(readInProgress := true), i, Check);
    assert Holds(t.readers[i]);
    assert forall j :: 0 <= j < |s.readers| && j != i ==> t.readers[j] == s.readers[j];
  }

  lemma ReaderClears(s: State, i: nat, pc: ReaderPc)
    requires i < |s.readers| && FlagsInv(s) && Holds(s.readers[i]) && !Holds(s.readers[i].(pc := pc))
    ensures FlagsInv(At(s.(readInProgress := false), i, pc))
  {
    var t := At(s.(readInProgress := false), i, pc);
    assert forall j :: 0 <= j < |s.readers| ==> !Holds(t.readers[j]);
  }

  lemma SameHolders(s: State, t: State)
    requires FlagsInv(s) && |t.readers| == |s.readers| && t.readInProgress == s.readInProgress
    requires forall j :: 0 <= j < |s.readers| ==> Holds(t.readers[j]) == Holds(s.readers[j])
    ensures OneHolder(t)
  {
  }

  lemma WokenFlags(s: State, wakes: Option<Party>)
    requires FlagsInv(s) && WakesOne(s, wakes)
    ensures FlagsInv(Woken(s, wakes))
    ensures forall i :: 0 <= i < |s.readers| && !s.readers[i].pc.SleepOnRead? ==>
              Woken(s, wakes).readers[i] == s.readers[i]
  {
    if wakes.Some? && wakes.value.TheReader? {
      ReaderMoves(s, wakes.value.i, AwaitRead);
    }
  }

  lemma ReaderFlags(s: State, i: nat, wakes: Option<Party>)
    requires FlagsInv(s) && i < |s.readers| && NextReader(s, i, wakes).Some?
    ensures FlagsInv(NextReader(s, i, wakes).value)
  {
    hide FlagsInv;
    var t := NextReader(s, i, wakes).value;
    match s.readers[i].pc
    case AwaitWrite => ReaderMoves(s, i, t.readers[i].pc);
    case Take =>
      if s.readInProgress {
        ReaderMoves(s, i, AwaitRead);
        assert t == At(s, i, AwaitRead);
      } else {
        ReaderTakes(s, i);
      }
    case AwaitRead => ReaderMoves(s, i, t.readers[i].pc);
    case Check => ReaderMoves(s, i, t.readers[i].pc);
    case BackOff => ReaderClears(s, i, BackOffNotify);
    case BackOffNotify =>
      WokenFlags(s, wakes);
      ReaderMoves(Woken(s, wakes), i, AwaitWrite);
    case StartCopy => ReaderCopies(s, i);
    case Copying => ReaderFinishes(s, i, t);
    case Release => ReaderClears(s, i, ReleaseNotify);
    case ReleaseNotify =>
      WokenFlags(s, wakes);
      ReaderMoves(Woken(s, wakes), i, Away);
  }

  lemma ReaderCopies(s: State, i: nat)
    requires FlagsInv(s) && i < |s.readers| && s.readers[i].pc.StartCopy?
    ensures FlagsInv(s.(readers := s.readers[i := Reader(Copying, s.value)]))
  {
    var t := s.(readers := s.readers[i := Reader(Copying, s.value)]);
    assert forall j :: 0 <= j < |s.readers| ==> Holds(t.readers[j]) == Holds(s.readers[j]);
  }

  lemma ReaderFinishes(s: State, i: nat, t: State)
    requires FlagsInv(s) && i < |s.readers| && s.readers[i].pc.Copying? && t == At(s, i, Release).(copies := t.copies)
    ensures FlagsInv(t)
  {
    ReaderMoves(s, i, Release);
  }

  lemma WriterFlags(s: State)
    requires FlagsInv(s) && NextWriter(s).Some?
    ensures FlagsInv(NextWriter(s).value)
  {
    var t := NextWriter(s).value;
    assert forall j :: 0 <= j < |s.readers| ==>
      Holds(t.readers[j]) == Holds(s.readers[j]) && Entered(t.readers[j]) == Entered(s.readers[j]);
    SameHolders(s, t);
  }

  lemma FlagsStep(s: State, e: Event)
    requires FlagsInv(s) && Next(s, e).Some?
    ensures FlagsInv(Next(s, e).value)
  {
    match e
    case CallGet(i) => ReaderMoves(s, i, AwaitWrite);
    case CallSet(_) =>
    case ReaderStep(i, wakes) => ReaderFlags(s, i, wakes);
    case WriterStep => WriterFlags(s);
    case Spurious(TheWriter) =>
    case Spurious(TheReader(i)) => ReaderMoves(s, i, Next(s, e).value.readers[i].pc);
  }

  lemma MoveValues(s: State, i: nat, pc: ReaderPc, flag: bool)
    requires ValuesInv(s) && i < |s.readers| && !pc.Copying?
    ensures ValuesInv(At(s.(readInProgress := flag), i, pc))
  {
  }

  lemma WokenValues(s: State, wakes: Option<Party>)
    requires ValuesInv(s) && WakesOne(s, wakes)
    ensures ValuesInv(Woken(s, wakes))
  {
  }

  lemma CopyValues(s: State, i: nat)
    requires FlagsInv(s) && ValuesInv(s) && i < |s.readers| && (s.readers[i].pc.Copying? || s.readers[i].pc.StartCopy?)
    ensures ValuesInv(NextReader(s, i, None).value)
  {
    assert Entered(s.readers[i]) && !s.writer.Assigning?;
    hide FlagsInv;
  }

  lemma ReaderValues(s: State, i: nat, wakes: Option<Party>)
    requires FlagsInv(s) && ValuesInv(s) && i < |s.readers| && NextReader(s, i, wakes).Some?
    ensures ValuesInv(NextReader(s, i, wakes).value)
  {
    hide FlagsInv;
    hide ValuesInv;
    var r := s.readers[i];
    if r.pc.Copying? || r.pc.StartCopy? {
      CopyValues(s, i);
    } else if r.pc.BackOffNotify? || r.pc.ReleaseNotify? {
      WokenValues(s, wakes);
      var w := Woken(s, wakes);
      MoveValues(w, i, if r.pc.BackOffNotify? then AwaitWrite else Away, w.readInProgress);
    } else {
      var t := NextReader(s, i, wakes).value;
      MoveValues(s, i, t.readers[i].pc, t.readInProgress);
    }
  }

  lemma WriterValues(s: State)
    requires FlagsInv(s) && ValuesInv(s) && NextWriter(s).Some?
    ensures ValuesInv(NextWriter(s).value)
  {
    assert s.writer.Assigning? ==> forall i :: 0 <= i < |s.readers| ==> !Entered(s.readers[i]);
    hide FlagsInv;
  }

  lemma ValuesStep(s: State, e: Event)
    requires FlagsInv(s) && ValuesInv(s) && Next(s, e).Some?
    ensures ValuesInv(Next(s, e).value)
  {
    if e.ReaderStep? {
      ReaderValues(s, e.i, e.wakes);
    } else if e.WriterStep? {
      WriterValues(s);
    } else {
      hide FlagsInv;
    }
  }

  lemma {:induction false} RunInv(n: nat, initial: Text, es: seq<Event>, s: State)
    requires After(n, initial, es) == Some(s)
    ensures FlagsInv(s) && ValuesInv(s) && |s.readers| == n
  {
    hide Next;
    if es == [] {
      assert forall i :: 0 <= i < n ==> !Holds(s.readers[i]);
    } else {
      var p := After(n, initial, es[..|es| - 1]).value;
      RunInv(n, initial, es[..|es| - 1], p);
      FlagsStep(p, es[|es| - 1]);
      ValuesStep(p, es[|es| - 1]);
    }
  }

  /** With one writer and any number of readers, nobody copies the value while it is assigned, and so
      every copy is a whole value that was written. */
  lemma CopiesAreWhole(n: nat, initial: Text, es: seq<Event>, s: State)
    requires After(n, initial, es) == Some(s)
    ensures s.writer.Assigning? ==> forall i :: 0 <= i < n && i < |s.readers| ==> !s.readers[i].pc.Copying?
    ensures forall c :: c in s.copies ==> c.Some? && c.value in s.written
  {
    RunInv(n, initial, es, s);
    forall i | 0 <= i < |s.readers| && s.writer.Assigning? ensures !s.readers[i].pc.Copying? {
      assert !Entered(s.readers[i]);
    }
  }

  // ------------------------------------------------------------------------------------------
  // Which values

  /** The initial value and the arguments of `set`, in the order of the calls. */
  function Calls(initial: Text, es: seq<Event>): (r: seq<Text>)
    ensures r != []
  {
    if es == [] then [initial]
    else
      Calls(initial, es[..|es| - 1]) + match es[|es| - 1] case CallSet(value) => [value] case _ => []
  }

  /** The writer has a value that it has not assigned yet. */
  predicate Pending(w: WriterPc) {
    w.Raise? || w.AwaitReader? || w.SleepOnReader? || w.StartAssign? || w.Assigning?
  }

  ghost predicate WrittenFrom(calls: seq<Text>, s: State)
    requires calls != []
  {
    && s.argument == calls[|calls| - 1]
    && s.written == if Pending(s.writer) then calls[..|calls| - 1] else calls
  }

  ghost predicate LeavesWriter(s: State, t: State) {
    t.argument == s.argument && t.written == s.written && Pending(t.writer) == Pending(s.writer)
  }

  lemma WokenLeaves(s: State, wakes: Option<Party>)
    requires WakesOne(s, wakes)
    ensures LeavesWriter(s, Woken(s, wakes))
  {
  }

  lemma ReaderLeaves(s: State, i: nat, wakes: Option<Party>)
    requires i < |s.readers| && NextReader(s, i, wakes).Some?
    ensures LeavesWriter(s, NextReader(s, i, wakes).value)
  {
    hide WakesOne;
    hide Woken;
    hide Pending;
    if WakesOne(s, wakes) {
      WokenLeaves(s, wakes);
    }
  }

  lemma WriterWrites(s: State, calls: seq<Text>)
    requires calls != [] && WrittenFrom(calls, s) && NextWriter(s).Some?
    ensures WrittenFrom(calls, NextWriter(s).value)
  {
    hide WokenAll;
    assert calls[..|calls| - 1] + [calls[|calls| - 1]] == calls;
  }

  lemma WrittenStep(s: State, e: Event, calls: seq<Text>)
    requires calls != [] && WrittenFrom(calls, s) && Next(s, e).Some?
    ensures WrittenFrom(calls + match e case CallSet(value) => [value] case _ => [], Next(s, e).value)
  {
    hide NextReader;
    hide NextWriter;
    assert calls + [] == calls;
    match e
    case CallSet(value) => assert (calls + [value])[..|calls|] == calls;
    case ReaderStep(i, wakes) => ReaderLeaves(s, i, wakes);
    case WriterStep => WriterWrites(s, calls);
    case _ =>
  }

  /** What is assigned, in order, is what `set` was called with: all of it, or all but the last value
      while the writer has not come to assigning that one. */
  lemma {:induction false} WrittenIsCalled(n: nat, initial: Text, es: seq<Event>, s: State)
    requires After(n, initial, es) == Some(s)
    ensures WrittenFrom(Calls(initial, es), s)
  {
    if es == [] {
    } else {
      var p := After(n, initial, es[..|es| - 1]).value;
      WrittenIsCalled(n, initial, es[..|es| - 1], p);
      WrittenStep(p, es[|es| - 1], Calls(initial, es[..|es| - 1]));
    }
  }

  lemma ReaderCopiesLatest(s: State, i: nat, wakes: Option<Party>)
    requires FlagsInv(s) && ValuesInv(s) && i < |s.readers| && NextReader(s, i, wakes).Some?
    ensures NextReader(s, i, wakes).value.copies ==
            s.copies + if s.readers[i].pc.Copying? then [Some(s.written[|s.written| - 1])] else []
  {
    assert s.readers[i].pc.Copying? ==> Entered(s.readers[i]);
    assert s.readers[i].pc.Copying? ==> !s.writer.Assigning? && s.readers[i].snapshot == s.value;
    hide FlagsInv;
  }

  /** Every call of `get_c_str` makes one copy, of the value that was assigned last. */
  lemma CopyIsLatest(n: nat, initial: Text, es: seq<Event>, s: State, e: Event)
    requires After(n, initial, es) == Some(s) && Next(s, e).Some?
    ensures s.written != [] && |s.readers| == n
    ensures Next(s, e).value.copies ==
            s.copies +
            if e.ReaderStep? && s.readers[e.i].pc.Copying? then [Some(s.written[|s.written| - 1])] else []
  {
    RunInv(n, initial, es, s);
    hide FlagsInv;
    hide NextReader;
    if e.ReaderStep? {
      ReaderCopiesLatest(s, e.i, e.wakes);
    }
  }

  // ------------------------------------------------------------------------------------------
  // Stalls

  predicate Sleeps(r: Reader) {
    r.pc.SleepOnRead? || r.pc.SleepOnWrite?
  }

  /** Somebody is in the middle of a call, and everybody who is sleeps. */
  ghost predicate Stalled(s: State) {
    && (!s.writer.Resting? || exists i :: 0 <= i < |s.readers| && !s.readers[i].pc.Away?)
    && (s.writer.Resting? || s.writer.SleepOnReader?)
    && (forall i :: 0 <= i < |s.readers| ==> s.readers[i].pc.Away? || Sleeps(s.readers[i]))
  }

  predicate WillNotify(r: Reader) {
    Holds(r) || r.pc.BackOffNotify? || r.pc.ReleaseNotify?
  }

  /** What keeps a single reader and the writer going: whoever sleeps will be notified. */
  ghost predicate NotifyInv(s: State) {
    && (s.writer.SleepOnReader? ==> exists i :: 0 <= i < |s.readers| && WillNotify(s.readers[i]))
    && (forall i :: 0 <= i < |s.readers| ==>
          && !s.readers[i].pc.AwaitRead? && !s.readers[i].pc.SleepOnRead?
          && (s.readers[i].pc.SleepOnWrite? ==> s.writeInProgress || s.writer.LowerNotify?))
  }

  lemma ReaderNotify(s: State, i: nat, wakes: Option<Party>)
    requires |s.readers| == 1 && i == 0 && FlagsInv(s) && NotifyInv(s) && NextReader(s, i, wakes).Some?
    ensures NotifyInv(NextReader(s, i, wakes).value)
  {
    var t := NextReader(s, i, wakes).value;
    assert s.readInProgress <==> Holds(s.readers[0]);
    hide FlagsInv;
    assert t.writer.SleepOnReader? ==> WillNotify(t.readers[0]);
  }

  lemma WriterNotify(s: State)
    requires |s.readers| <= 1 && FlagsInv(s) && NotifyInv(s) && NextWriter(s).Some?
    ensures NotifyInv(NextWriter(s).value)
  {
    if |s.readers| == 1 {
      assert s.readInProgress <==> Holds(s.readers[0]);
      assert NextWriter(s).value.writer.SleepOnReader? ==> WillNotify(s.readers[0]);
    }
  }

  lemma NotifyStep(s: State, e: Event)
    requires |s.readers| <= 1 && FlagsInv(s) && NotifyInv(s) && Next(s, e).Some?
    ensures NotifyInv(Next(s, e).value)
  {
    if e.ReaderStep? {
      ReaderNotify(s, e.i, e.wakes);
    } else if e.WriterStep? {
      WriterNotify(s);
    } else {
      hide FlagsInv;
    }
  }

  lemma {:induction false} NotifyRun(n: nat, initial: Text, es: seq<Event>, s: State)
    requires n <= 1 && After(n, initial, es) == Some(s)
    ensures NotifyInv(s)
  {
    if es == [] {
    } else {
      var p := After(n, initial, es[..|es| - 1]).value;
      NotifyRun(n, initial, es[..|es| - 1], p);
      RunInv(n, initial, es[..|es| - 1], p);
      NotifyStep(p, es[|es| - 1]);
    }
  }

  /** One writer and one reader, the use that the class is meant for, never stall. */
  lemma OneReaderNeverStalls(n: nat, initial: Text, es: seq<Event>, s: State)
    requires n <= 1 && After(n, initial, es) == Some(s)
    ensures !Stalled(s)
  {
    RunInv(n, initial, es, s);
    NotifyRun(n, initial, es, s);
  }

  lemma Do(n: nat, initial: Text, es: seq<Event>, s: State, e: Event) returns (es': seq<Event>, t: State)
    requires After(n, initial, es) == Some(s) && Next(s, e).Some?
    ensures es' == es + [e] && t == Next(s, e).value && After(n, initial, es') == Some(t)
  {
    hide Next;
    es', t := es + [e], Next(s, e).value;
    assert es'[..|es'| - 1] == es;
  }

  /** Readers 0 and 1 and the writer are where it says; all other readers are away. */
  ghost predicate Scene(s: State, first: ReaderPc, second: ReaderPc, writer: WriterPc, r: bool, w: bool) {
    && |s.readers| >= 2 && s.readers[0].pc == first && s.readers[1].pc == second
    && (forall i :: 2 <= i < |s.readers| ==> s.readers[i].pc.Away?)
    && s.writer == writer && s.readInProgress == r && s.writeInProgress == w
  }

  /** The first reader is about to copy; the second has found it busy and sleeps. */
  lemma TwoReadersMeet(n: nat, initial: Text) returns (es: seq<Event>, s: State)
    requires n >= 2
    ensures After(n, initial, es) == Some(s) && Scene(s, StartCopy, SleepOnRead, Resting, true, false)
  {
    es, s := [], Init(n, initial);
    es, s := Do(n, initial, es, s, CallGet(0));
    es, s := Do(n, initial, es, s, ReaderStep(0, None));
    es, s := Do(n, initial, es, s, ReaderStep(0, None));
    es, s := Do(n, initial, es, s, ReaderStep(0, None));
    assert Scene(s, StartCopy, Away, Resting, true, false);
    es, s := Do(n, initial, es, s, CallGet(1));
    es, s := Do(n, initial, es, s, ReaderStep(1, None));
    es, s := Do(n, initial, es, s, ReaderStep(1, None));
    es, s := Do(n, initial, es, s, ReaderStep(1, None));
  }

  /** The writer comes and sleeps too; the one notification of the first reader goes to the writer. */
  lemma WriterIsWoken(n: nat, initial: Text) returns (es: seq<Event>, s: State)
    requires n >= 2
    ensures After(n, initial, es) == Some(s) && Scene(s, Away, SleepOnRead, AwaitReader, false, true)
  {
    hide After;
    es, s := TwoReadersMeet(n, initial);
    es, s := Do(n, initial, es, s, CallSet(initial));
    es, s := Do(n, initial, es, s, WriterStep);
    es, s := Do(n, initial, es, s, WriterStep);
    assert Scene(s, StartCopy, SleepOnRead, SleepOnReader, true, true);
    es, s := Do(n, initial, es, s, ReaderStep(0, None));
    es, s := Do(n, initial, es, s, ReaderStep(0, None));
    es, s := Do(n, initial, es, s, ReaderStep(0, None));
    assert Scene(s, ReleaseNotify, SleepOnRead, SleepOnReader, false, true);
    es, s := Do(n, initial, es, s, ReaderStep(0, Some(TheWriter)));
  }

  lemma WriterFinishes(n: nat, initial: Text) returns (es: seq<Event>, s: State)
    requires n >= 2
    ensures After(n, initial, es) == Some(s) && Scene(s, Away, SleepOnRead, LowerNotify, false, false)
  {
    hide After;
    es, s := WriterIsWoken(n, initial);
    es, s := Do(n, initial, es, s, WriterStep);
    es, s := Do(n, initial, es, s, WriterStep);
    es, s := Do(n, initial, es, s, WriterStep);
    es, s := Do(n, initial, es, s, WriterStep);
  }

  /** The writer finishes and notifies only those that wait for it: the second reader sleeps on a
      flag that is clear, and nobody is left to wake it. */
  lemma TwoReadersCanStall(n: nat, initial: Text) returns (es: seq<Event>, s: State)
    requires n >= 2
    ensures After(n, initial, es) == Some(s) && Stalled(s)
  {
    hide After;
    es, s := WriterFinishes(n, initial);
    es, s := Do(n, initial, es, s, WriterStep);
    assert Sleeps(s.readers[1]);
  }

  /** Freedom from stalls, exactly: at most one reader. */
  lemma NeverStallsIffOneReader(n: nat, initial: Text)
    ensures n <= 1 <==> forall es, s :: After(n, initial, es) == Some(s) ==> !Stalled(s)
  {
    if n <= 1 {
      forall es, s | After(n, initial, es) == Some(s) ensures !Stalled(s) {
        OneReaderNeverStalls(n, initial, es, s);
      }
    } else {
      var es, s := TwoReadersCanStall(n, initial);
    }
  }
}
