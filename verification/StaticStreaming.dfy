/**
 Streaming one static file: a reader on an executor thread posts events to the event loop, which
 sends them; callbacks pause, resume and finish the response.  Every interleaving is a run of `Next`.
 */
module StaticStreaming {
  type Byte = b: nat | b < 256

  /** What a reader posts to the event loop. */
  datatype Event = Chunk(bytes: seq<Byte>) | Eom | Abort | DoneReading

  /** Where a reader stands: before its loop test, before its read, or about to post. */
  datatype Reader = Looping | Reading | Posting(event: Event)

  /** The handler's fields, its readers and queued events, and what was sent downstream. */
  datatype State = State(
    fileOpen: bool, offset: nat, scheduled: bool, paused: bool, finished: bool, deleted: bool,
    readers: seq<Reader>, events: seq<Event>, sent: seq<Byte>, eoms: nat, aborts: nat)

  /** Steps of reader `r` (a read returns `rc`), delivery of the next event, and the callbacks. */
  datatype Action = Loop(r: nat) | Read(r: nat, rc: int) | Post(r: nat) | Deliver | Pause | Resume | Finish

  /** After a request for an uncached file that could be opened. */
  const OPENED := State(true, 0, true, false, false, false, [Looping], [], [], 0, 0)

  predicate Enabled(data: seq<Byte>, s: State, a: Action) {
    !s.deleted &&
    match a
    case Loop(r) => r < |s.readers| && s.readers[r] == Looping
    case Read(r, rc) =>
      && r < |s.readers| && s.readers[r] == Reading && s.fileOpen && s.offset <= |data|
      && (rc > 0 ==> rc <= |data| - s.offset) && (rc == 0 ==> s.offset == |data|)
    case Post(r) => r < |s.readers| && s.readers[r].Posting?
    case Deliver => s.events != []
    case _ => true
  }

  /** Whether resuming starts another reader. */
  predicate StartsReader(s: State) {
    !s.scheduled && s.fileOpen
  }

  /** The resume callback; `mark` says whether a new reader is marked as scheduled. */
  function Resumed(s: State, mark: bool): State {
    if StartsReader(s) then s.(paused := false, readers := s.readers + [Looping], scheduled := mark)
    else s.(paused := false)
  }

  function Completed(s: State): State {
    if s.finished && !s.scheduled then s.(deleted := true) else s
  }

  function AfterRead(s: State, data: seq<Byte>, r: nat, rc: int): State
    requires r < |s.readers| && s.offset <= |data| && rc <= |data| - s.offset
  {
    if rc < 0 then s.(fileOpen := false, readers := s.readers[r := Posting(Abort)])
    else if rc == 0 then s.(fileOpen := false, readers := s.readers[r := Posting(Eom)])
    else s.(offset := s.offset + rc, readers := s.readers[r := Posting(Chunk(data[s.offset..s.offset + rc]))])
  }

  function AfterPost(s: State, r: nat): State
    requires r < |s.readers| && s.readers[r].Posting?
  {
    var e := s.readers[r].event;
    var t := s.(events := s.events + [e]);
    match e
    case DoneReading => t.(readers := s.readers[..r] + s.readers[r + 1..])
    case Abort => t.(readers := s.readers[r := Posting(DoneReading)])
    case _ => t.(readers := s.readers[r := Looping])
  }

  function AfterDeliver(s: State, mark: bool): State
    requires s.events != []
  {
    var t := s.(events := s.events[1..]);
    match s.events[0]
    case Chunk(bytes) => t.(sent := s.sent + bytes)
    case Eom => t.(eoms := s.eoms + 1)
    case Abort => t.(aborts := s.aborts + 1)
    case DoneReading =>
      var u := Completed(t.(scheduled := false));
      if u.deleted || u.paused then u else Resumed(u, mark)
  }

  /** One step; an action that is not enabled changes nothing. */
  function Next(data: seq<Byte>, s: State, a: Action, mark: bool): State {
    if !Enabled(data, s, a) then s
    else match a
      case Loop(r) =>
        s.(readers := s.readers[r := if s.fileOpen && !s.paused then Reading else Posting(DoneReading)])
      case Read(r, rc) => AfterRead(s, data, r, rc)
      case Post(r) => AfterPost(s, r)
      case Deliver => AfterDeliver(s, mark)
      case Pause => s.(paused := true)
      case Resume => Resumed(s, mark)
      case Finish => Completed(s.(finished := true, paused := true))
  }

  function After(data: seq<Byte>, s: State, acts: seq<Action>, mark: bool): State
    decreases |acts|
  {
    if acts == [] then s else Next(data, After(data, s, acts[..|acts| - 1], mark), acts[|acts| - 1], mark)
  }

  // ---------- Safety ----------

  /** What the client has: bytes still flowing, a response ended after some bytes, or a broken one. */
  datatype Line = Flowing(bytes: seq<Byte>) | Ended(bytes: seq<Byte>, eof: bool) | Broken

  /** The line after one more event: nothing but the reader's final event may follow an end. */
  function Advance(line: Line, e: Event): Line {
    match (line, e)
    case (_, DoneReading) => line
    case (Flowing(bytes), Chunk(more)) => Flowing(bytes + more)
    case (Flowing(bytes), Eom) => Ended(bytes, true)
    case (Flowing(bytes), Abort) => Ended(bytes, false)
    case _ => Broken
  }

  /** The line after all the given events. */
  function Drained(line: Line, events: seq<Event>): Line {
    if events == [] then line
    else Advance(Drained(line, events[..|events| - 1]), events[|events| - 1])
  }

  function LineOf(s: State): Line {
    if s.eoms + s.aborts == 0 then Flowing(s.sent)
    else if s.eoms + s.aborts == 1 then Ended(s.sent, s.eoms == 1)
    else Broken
  }

  function InHand(readers: seq<Reader>): seq<Event> {
    if |readers| == 1 && readers[0].Posting? then [readers[0].event] else []
  }

  /** Events queued and the one that the reader is about to post. */
  function Pending(s: State): seq<Event> {
    s.events + InHand(s.readers)
  }

  /** A reader or its final event is outstanding. */
  predicate Outstanding(s: State) {
    s.readers != [] || DoneReading in s.events
  }

  /**
   A callback that takes the unset flag for the absence of readers while one is outstanding: a
   resume of an open file, or the end of the request.
   */
  predicate Races(data: seq<Byte>, s: State, a: Action) {
    Enabled(data, s, a) && !s.scheduled && Outstanding(s) && ((a.Resume? && s.fileOpen) || a.Finish?)
  }

  /** At most one reader or final event is outstanding, and the final event comes last. */
  ghost predicate OneReader(s: State) {
    && |s.readers| <= 1
    && (s.scheduled ==> s.readers != [] || s.events != [])
    && (s.readers == [] && s.events != [] ==> s.events[|s.events| - 1] == DoneReading)
    && (forall i :: 0 <= i < |s.events| - (1 - |s.readers|) ==> s.events[i] != DoneReading)
    && (s.readers == [Reading] ==> s.fileOpen)
    && (s.deleted ==> s.finished && s.readers == [] && s.events == [])
  }

  /** Delivering all that is pending gives the part of the file read so far, ended if it is closed. */
  ghost predicate InOrder(data: seq<Byte>, s: State) {
    s.offset <= |data| &&
    match Drained(LineOf(s), Pending(s))
    case Flowing(bytes) => s.fileOpen && bytes == data[..s.offset]
    case Ended(bytes, eof) => !s.fileOpen && bytes == data[..s.offset] && (eof ==> s.offset == |data|)
    case Broken => false
  }

  lemma DrainedAppend(line: Line, events: seq<Event>, e: Event)
    ensures Drained(line, events + [e]) == Advance(Drained(line, events), e)
  {
    assert (events + [e])[..|events|] == events;
  }

  lemma {:induction false} DrainedFirst(line: Line, events: seq<Event>)
    requires events != []
    ensures Drained(line, events) == Drained(Advance(line, events[0]), events[1..])
    decreases |events|
  {
    var n := |events| - 1;
    if n > 0 {
      DrainedFirst(line, events[..n]);
      assert events[..n][1..] == events[1..][..n - 1];
    }
  }

  /** Draining only adds bytes, and adds none to an ended line. */
  lemma {:induction false} DrainedExtends(line: Line, events: seq<Event>)
    ensures var d := Drained(line, events);
      match line
      case Flowing(bytes) => d.Broken? || bytes <= d.bytes
      case Ended(_, _) => d.Broken? || d == line
      case Broken => d.Broken?
  {
    if events != [] {
      DrainedExtends(line, events[..|events| - 1]);
    }
  }

  ghost predicate Safe(data: seq<Byte>, s: State) {
    OneReader(s) && InOrder(data, s)
  }

  lemma LoopKeepsSafe(data: seq<Byte>, s: State, r: nat, mark: bool)
    requires Safe(data, s) && Enabled(data, s, Loop(r))
    ensures Safe(data, Next(data, s, Loop(r), mark))
  {
    var t := Next(data, s, Loop(r), mark);
    if s.fileOpen && !s.paused {
      assert t.readers == [Reading] && Pending(t) == Pending(s);
    } else {
      DrainedAppend(LineOf(s), Pending(s), DoneReading);
      assert t.readers == [Posting(DoneReading)] && Pending(t) == Pending(s) + [DoneReading];
    }
  }

  lemma ReadKeepsSafe(data: seq<Byte>, s: State, rc: int)
    requires Safe(data, s) && s.readers == [Reading]
    requires rc <= |data| - s.offset && (rc == 0 ==> s.offset == |data|)
    ensures Safe(data, AfterRead(s, data, 0, rc))
  {
    var t := AfterRead(s, data, 0, rc);
    assert |t.readers| == 1 && Pending(s) == s.events && Pending(t) == Pending(s) + [t.readers[0].event];
    DrainedAppend(LineOf(s), Pending(s), t.readers[0].event);
    if rc > 0 {
      assert data[..s.offset + rc] == data[..s.offset] + data[s.offset..s.offset + rc];
    }
  }

  lemma PostPending(s: State)
    requires |s.readers| == 1 && s.readers[0].Posting?
    ensures var t := AfterPost(s, 0);
      Pending(t) == Pending(s) + if s.readers[0].event == Abort then [DoneReading] else []
  {
    var t, e := AfterPost(s, 0), s.readers[0].event;
    assert InHand(s.readers) == [e];
    match e
    case DoneReading => assert t.readers == [];
    case Abort => assert t.readers == [Posting(DoneReading)];
    case _ => assert t.readers == [Looping];
  }

  lemma PostKeepsOneReader(s: State)
    requires OneReader(s) && |s.readers| == 1 && s.readers[0].Posting?
    ensures OneReader(AfterPost(s, 0))
  {
    assert s.readers[..0] + s.readers[1..] == [];
  }

  lemma PostKeepsSafe(data: seq<Byte>, s: State)
    requires Safe(data, s) && |s.readers| == 1 && s.readers[0].Posting?
    ensures Safe(data, AfterPost(s, 0))
  {
    PostKeepsOneReader(s);
    PostPending(s);
    if s.readers[0].event == Abort {
      DrainedAppend(LineOf(s), Pending(s), DoneReading);
    } else {
      assert Pending(s) + [] == Pending(s);
    }
  }

  lemma DeliverPending(s: State, mark: bool)
    requires OneReader(s) && s.events != []
    ensures var t := AfterDeliver(s, mark);
      && Pending(s) != [] && Pending(s)[0] == s.events[0] && Pending(t) == Pending(s)[1..]
      && (Advance(LineOf(s), s.events[0]) != Broken ==> LineOf(t) == Advance(LineOf(s), s.events[0]))
  {
    assert s.events[0] == DoneReading ==> s.readers == [] && InHand(AfterDeliver(s, mark).readers) == [];
  }

  lemma DeliverKeepsOneReader(s: State, mark: bool)
    requires OneReader(s) && s.events != []
    ensures OneReader(AfterDeliver(s, mark))
  {
    assert s.events[0] == DoneReading ==> s.events == [DoneReading] && s.readers == [];
  }

  lemma DeliverKeepsSafe(data: seq<Byte>, s: State, mark: bool)
    requires Safe(data, s) && s.events != []
    ensures Safe(data, AfterDeliver(s, mark))
  {
    DeliverKeepsOneReader(s, mark);
    DeliverPending(s, mark);
    DrainedFirst(LineOf(s), Pending(s));
    DrainedExtends(Advance(LineOf(s), s.events[0]), Pending(s)[1..]);
  }

  lemma CallbackKeepsSafe(data: seq<Byte>, s: State, a: Action, mark: bool)
    requires Safe(data, s) && !s.deleted && (a.Pause? || a.Resume? || a.Finish?) && !Races(data, s, a)
    ensures Safe(data, Next(data, s, a, mark))
  {
    if s.readers == [] && s.events != [] {
      assert s.events[|s.events| - 1] in s.events;
    }
    assert Pending(Next(data, s, a, mark)) == Pending(s);
  }

  /** Every step of every thread but a racing callback keeps one reader and ordered bytes. */
  lemma StepKeepsSafe(data: seq<Byte>, s: State, a: Action, mark: bool)
    requires Safe(data, s) && !Races(data, s, a)
    ensures Safe(data, Next(data, s, a, mark))
  {
    if Enabled(data, s, a) {
      match a
      case Loop(r) => LoopKeepsSafe(data, s, r, mark);
      case Read(r, rc) => ReadKeepsSafe(data, s, rc);
      case Post(r) => PostKeepsSafe(data, s);
      case Deliver => DeliverKeepsSafe(data, s, mark);
      case _ => CallbackKeepsSafe(data, s, a, mark);
    }
  }

  /** No callback of the run races. */
  ghost predicate RaceFree(data: seq<Byte>, acts: seq<Action>, mark: bool)
    decreases |acts|
  {
    acts == [] ||
    var init, last := acts[..|acts| - 1], acts[|acts| - 1];
    RaceFree(data, init, mark) && !Races(data, After(data, OPENED, init, mark), last)
  }

  /** A run that is not free of races has an action that races. */
  lemma {:induction false} RacingStep(data: seq<Byte>, acts: seq<Action>, mark: bool) returns (k: nat)
    requires !RaceFree(data, acts, mark)
    ensures k < |acts| && Races(data, After(data, OPENED, acts[..k], mark), acts[k])
    decreases |acts|
  {
    k := |acts| - 1;
    if !RaceFree(data, acts[..k], mark) {
      var init := acts[..k];
      k := RacingStep(data, init, mark);
      assert init[..k] == acts[..k];
    }
  }

  lemma {:induction false} RaceFreePrefix(data: seq<Byte>, acts: seq<Action>, n: nat, mark: bool)
    requires RaceFree(data, acts, mark) && n <= |acts|
    ensures RaceFree(data, acts[..n], mark)
    decreases |acts|
  {
    if n < |acts| {
      RaceFreePrefix(data, acts[..|acts| - 1], n, mark);
      assert acts[..|acts| - 1][..n] == acts[..n];
    } else {
      assert acts[..n] == acts;
    }
  }

  lemma {:induction false} SafeAlways(data: seq<Byte>, acts: seq<Action>, mark: bool)
    requires RaceFree(data, acts, mark)
    ensures Safe(data, After(data, OPENED, acts, mark))
    decreases |acts|
  {
    if acts != [] {
      SafeAlways(data, acts[..|acts| - 1], mark);
      StepKeepsSafe(data, After(data, OPENED, acts[..|acts| - 1], mark), acts[|acts| - 1], mark);
    }
  }

  /**
   At most one reader or final event is outstanding; the handler is deleted only when nothing refers
   to it any more; the bytes sent are a prefix of the file; the response ends at most once, and if
   it ends as complete the whole file was sent.
   */
  ghost predicate Correct(data: seq<Byte>, s: State) {
    && |s.readers| <= 1 && (s.readers != [] ==> DoneReading !in s.events)
    && (s.deleted ==> s.finished && s.readers == [] && s.events == [])
    && s.sent <= data
    && s.eoms + s.aborts <= 1
    && (s.eoms == 1 ==> s.sent == data)
  }

  /** Every interleaving without a racing callback is correct. */
  lemma StreamingSafe(data: seq<Byte>, acts: seq<Action>, mark: bool)
    requires RaceFree(data, acts, mark)
    ensures Correct(data, After(data, OPENED, acts, mark))
  {
    SafeAlways(data, acts, mark);
    var s := After(data, OPENED, acts, mark);
    DrainedExtends(LineOf(s), Pending(s));
    if s.events != [] && s.readers == [] {
      assert s.events[|s.events| - 1] in s.events;
    }
  }

  lemma RaceBreaks(data: seq<Byte>, s: State, a: Action, mark: bool)
    requires Races(data, s, a)
    ensures !Correct(data, Next(data, s, a, mark))
  {
  }

  /** A run is correct at every moment exactly when no callback of it races, whether or not resuming marks. */
  lemma CorrectIff(data: seq<Byte>, acts: seq<Action>, mark: bool)
    ensures (forall n :: 0 <= n <= |acts| ==> Correct(data, After(data, OPENED, acts[..n], mark)))
      <==> RaceFree(data, acts, mark)
  {
    if RaceFree(data, acts, mark) {
      forall n | 0 <= n <= |acts| ensures Correct(data, After(data, OPENED, acts[..n], mark)) {
        RaceFreePrefix(data, acts, n, mark);
        StreamingSafe(data, acts[..n], mark);
      }
    } else {
      var k := RacingStep(data, acts, mark);
      assert acts[..k + 1][..k] == acts[..k];
      RaceBreaks(data, After(data, OPENED, acts[..k], mark), acts[k], mark);
      assert !Correct(data, After(data, OPENED, acts[..k + 1], mark));
    }
  }

  /** No chunk is empty. */
  ghost predicate FullChunks(s: State) {
    Chunk([]) !in s.events && Posting(Chunk([])) !in s.readers
  }

  lemma ReadKeepsFullChunks(data: seq<Byte>, s: State, r: nat, rc: int)
    requires FullChunks(s) && r < |s.readers| && s.offset <= |data| && rc <= |data| - s.offset
    ensures FullChunks(AfterRead(s, data, r, rc))
  {
    assert rc > 0 ==> |data[s.offset..s.offset + rc]| == rc;
  }

  lemma PostKeepsFullChunks(s: State, r: nat)
    requires FullChunks(s) && r < |s.readers| && s.readers[r].Posting?
    ensures FullChunks(AfterPost(s, r))
  {
    assert s.readers[r] in s.readers;
  }

  lemma DeliverKeepsFullChunks(s: State, mark: bool)
    requires FullChunks(s) && s.events != []
    ensures FullChunks(AfterDeliver(s, mark))
  {
  }

  lemma StepKeepsFullChunks(data: seq<Byte>, s: State, a: Action, mark: bool)
    requires FullChunks(s)
    ensures FullChunks(Next(data, s, a, mark))
  {
    if Enabled(data, s, a) {
      match a
      case Read(r, rc) => ReadKeepsFullChunks(data, s, r, rc);
      case Post(r) => PostKeepsFullChunks(s, r);
      case Deliver => DeliverKeepsFullChunks(s, mark);
      case _ =>
    }
  }

  lemma {:induction false} FullChunksAlways(data: seq<Byte>, acts: seq<Action>, mark: bool)
    ensures FullChunks(After(data, OPENED, acts, mark))
    decreases |acts|
  {
    if acts != [] {
      FullChunksAlways(data, acts[..|acts| - 1], mark);
      StepKeepsFullChunks(data, After(data, OPENED, acts[..|acts| - 1], mark), acts[|acts| - 1], mark);
    }
  }

  lemma OneMoreIsRaceFree(data: seq<Byte>, acts: seq<Action>, a: Action, mark: bool)
    requires RaceFree(data, acts, mark) && !Races(data, After(data, OPENED, acts, mark), a)
    ensures RaceFree(data, acts + [a], mark)
    ensures After(data, OPENED, acts + [a], mark) == Next(data, After(data, OPENED, acts, mark), a, mark)
  {
    assert (acts + [a])[..|acts|] == acts;
  }

  /** The next event to be delivered continues the sent bytes, or ends the file where it ends. */
  predicate Continues(data: seq<Byte>, s: State)
    requires s.events != []
  {
    match s.events[0]
    case Chunk(bytes) => 0 < |bytes| <= |data| - |s.sent| && bytes == data[|s.sent|..|s.sent| + |bytes|]
    case Eom => s.sent == data
    case _ => true
  }

  lemma CorrectContinues(data: seq<Byte>, s: State, mark: bool)
    requires s.events != [] && FullChunks(s) && Correct(data, AfterDeliver(s, mark))
    ensures Continues(data, s)
  {
    assert s.events[0] in s.events;
    if s.events[0].Chunk? {
      var bytes := s.events[0].bytes;
      assert s.sent + bytes <= data;
      assert bytes == (s.sent + bytes)[|s.sent|..];
    }
  }

  lemma DeliveryContinues(data: seq<Byte>, acts: seq<Action>, mark: bool)
    requires RaceFree(data, acts, mark)
    requires var s := After(data, OPENED, acts, mark); !s.deleted && s.events != []
    ensures Continues(data, After(data, OPENED, acts, mark))
  {
    var s := After(data, OPENED, acts, mark);
    OneMoreIsRaceFree(data, acts, Deliver, mark);
    StreamingSafe(data, acts + [Deliver], mark);
    FullChunksAlways(data, acts, mark);
    CorrectContinues(data, s, mark);
  }

  // ---------- No lost wakeup, marked or not ----------

  /**
   An open file whose response is neither paused nor finished has a reader or a final event coming,
   and so has a finished handler until it is deleted.
   */
  ghost predicate Awake(s: State) {
    && (s.scheduled ==> Outstanding(s))
    && (s.finished ==> s.deleted || s.scheduled)
    && (!s.deleted && s.fileOpen && !s.paused && !s.finished ==> Outstanding(s))
  }

  lemma DeliverKeepsAwake(s: State, mark: bool)
    requires Awake(s) && !s.deleted && s.events != []
    ensures Awake(AfterDeliver(s, mark))
  {
    assert forall e :: e in s.events ==> e == s.events[0] || e in s.events[1..];
  }

  lemma PostKeepsAwake(s: State, r: nat)
    requires Awake(s) && r < |s.readers| && s.readers[r].Posting?
    ensures Awake(AfterPost(s, r))
  {
    var e := s.readers[r].event;
    assert e in s.events + [e] && forall x :: x in s.events ==> x in s.events + [e];
  }

  lemma StepKeepsAwake(data: seq<Byte>, s: State, a: Action, mark: bool)
    requires Awake(s)
    ensures Awake(Next(data, s, a, mark))
  {
    if Enabled(data, s, a) {
      match a
      case Deliver => DeliverKeepsAwake(s, mark);
      case Post(r) => PostKeepsAwake(s, r);
      case _ =>
    }
  }

  /** The wakeup is not lost even as the source is written, where a resumed reader is not marked. */
  lemma {:induction false} NoLostWakeup(data: seq<Byte>, acts: seq<Action>, mark: bool)
    ensures var s := After(data, OPENED, acts, mark);
      Awake(s)
    decreases |acts|
  {
    if acts != [] {
      NoLostWakeup(data, acts[..|acts| - 1], mark);
      StepKeepsAwake(data, After(data, OPENED, acts[..|acts| - 1], mark), acts[|acts| - 1], mark);
    }
  }

  // ---------- Progress ----------

  predicate Internal(a: Action) {
    a.Loop? || a.Read? || a.Post? || a.Deliver?
  }

  /** Weight of a reader and of a final event; the latter may start a reader while reading goes on. */
  function ReaderWeight(r: Reader, goesOn: bool): nat {
    match r
    case Looping => 3
    case Reading => 2
    case Posting(DoneReading) => if goesOn then 5 else 2
    case Posting(_) => 6
  }

  function EventsWeight(events: seq<Event>, goesOn: bool): nat {
    if events == [] then 0
    else (if events[0] == DoneReading && goesOn then 4 else 1) + EventsWeight(events[1..], goesOn)
  }

  /** Work left for the reader and the event loop if no callback interferes. */
  function Work(data: seq<Byte>, s: State): nat
    requires s.offset <= |data|
  {
    var goesOn := s.fileOpen && !s.paused;
    10 * (|data| - s.offset + if s.fileOpen then 1 else 0)
    + (if s.readers == [] then 0 else ReaderWeight(s.readers[0], goesOn))
    + EventsWeight(s.events, goesOn)
  }

  lemma {:induction false} EventsWeightAppend(events: seq<Event>, e: Event, goesOn: bool)
    ensures EventsWeight(events + [e], goesOn)
         == EventsWeight(events, goesOn) + if e == DoneReading && goesOn then 4 else 1
  {
    if events != [] {
      EventsWeightAppend(events[1..], e, goesOn);
      assert (events + [e])[1..] == events[1..] + [e];
    }
  }

  lemma {:induction false} EventsWeightLess(events: seq<Event>)
    ensures EventsWeight(events, false) <= EventsWeight(events, true)
  {
    if events != [] {
      EventsWeightLess(events[1..]);
    }
  }

  lemma PostWorks(data: seq<Byte>, s: State)
    requires Safe(data, s) && |s.readers| == 1 && s.readers[0].Posting?
    ensures Work(data, AfterPost(s, 0)) < Work(data, s)
  {
    var e := s.readers[0].event;
    EventsWeightAppend(s.events, e, s.fileOpen && !s.paused);
    assert s.readers[..0] + s.readers[1..] == [];
    if e == Abort {
      DrainedAppend(LineOf(s), s.events, Abort);
      assert Pending(s) == s.events + [Abort];
    }
  }

  lemma ReadWorks(data: seq<Byte>, s: State, rc: int)
    requires Safe(data, s) && s.readers == [Reading] && rc <= |data| - s.offset
    ensures var t := AfterRead(s, data, 0, rc); t.offset <= |data| && Work(data, t) < Work(data, s)
  {
    EventsWeightLess(s.events);
    var t := AfterRead(s, data, 0, rc);
    assert |t.readers| == 1 && t.readers[0].Posting? && t.readers[0].event != DoneReading;
  }

  lemma DeliverWorks(data: seq<Byte>, s: State, mark: bool)
    requires Safe(data, s) && s.events != []
    ensures Work(data, AfterDeliver(s, mark)) < Work(data, s)
  {
    assert s.events[0] == DoneReading ==> s.readers == [];
  }

  lemma LoopWorks(data: seq<Byte>, s: State, r: nat, mark: bool)
    requires Safe(data, s) && Enabled(data, s, Loop(r))
    ensures Work(data, Next(data, s, Loop(r), mark)) < Work(data, s)
  {
  }

  /** Every step of the reader or the event loop leaves less work. */
  lemma InternalStepWorks(data: seq<Byte>, s: State, a: Action, mark: bool)
    requires Safe(data, s) && Enabled(data, s, a) && Internal(a)
    ensures var t := Next(data, s, a, mark); t.offset <= |data| && Work(data, t) < Work(data, s)
  {
    match a
    case Loop(r) => LoopWorks(data, s, r, mark);
    case Read(_, rc) => ReadWorks(data, s, rc);
    case Post(_) => PostWorks(data, s);
    case Deliver => DeliverWorks(data, s, mark);
  }

  /** The actions are steps of the reader and the event loop, each enabled in its turn. */
  ghost predicate InternalRun(data: seq<Byte>, s: State, acts: seq<Action>, mark: bool)
    decreases |acts|
  {
    acts == [] ||
    var init, last := acts[..|acts| - 1], acts[|acts| - 1];
    InternalRun(data, s, init, mark) && Internal(last) && Enabled(data, After(data, s, init, mark), last)
  }

  predicate GoingOn(s: State) {
    !s.paused && !s.finished && !s.deleted
  }

  lemma DeliverFlags(s: State, mark: bool)
    requires s.events != []
    ensures var t := AfterDeliver(s, mark);
      t.paused == s.paused && t.finished == s.finished && (t.deleted ==> s.deleted || s.finished)
  {
  }

  /** Only callbacks pause, resume and finish; only a finished handler is deleted. */
  lemma InternalStepFlags(data: seq<Byte>, s: State, a: Action, mark: bool)
    requires Internal(a)
    ensures var t := Next(data, s, a, mark);
      t.paused == s.paused && t.finished == s.finished && (t.deleted ==> s.deleted || s.finished)
  {
    if Enabled(data, s, a) && a.Deliver? {
      DeliverFlags(s, mark);
    }
  }

  lemma {:induction false} InternalRunFlags(data: seq<Byte>, s: State, acts: seq<Action>, mark: bool)
    requires InternalRun(data, s, acts, mark)
    ensures var t := After(data, s, acts, mark);
      t.paused == s.paused && t.finished == s.finished && (t.deleted ==> s.deleted || s.finished)
    decreases |acts|
  {
    if acts != [] {
      var init, last := acts[..|acts| - 1], acts[|acts| - 1];
      InternalRunFlags(data, s, init, mark);
      InternalStepFlags(data, After(data, s, init, mark), last, mark);
    }
  }

  lemma {:induction false} InternalRunKeeps(data: seq<Byte>, s: State, acts: seq<Action>, mark: bool)
    requires Safe(data, s) && Awake(s) && InternalRun(data, s, acts, mark)
    ensures var t := After(data, s, acts, mark);
      Safe(data, t) && Awake(t) && Work(data, t) + |acts| <= Work(data, s)
    decreases |acts|
  {
    if acts != [] {
      var init, last := acts[..|acts| - 1], acts[|acts| - 1];
      InternalRunKeeps(data, s, init, mark);
      var t := After(data, s, init, mark);
      StepKeepsSafe(data, t, last, mark);
      StepKeepsAwake(data, t, last, mark);
      InternalStepWorks(data, t, last, mark);
    }
  }

  /** While a reader or an event is there, the reader or the event loop has a step. */
  lemma SomeStep(data: seq<Byte>, s: State) returns (a: Action)
    requires Safe(data, s) && !s.deleted && (s.readers != [] || s.events != [])
    ensures Internal(a) && Enabled(data, s, a)
  {
    if s.readers == [] {
      a := Deliver;
    } else {
      match s.readers[0]
      case Looping => a := Loop(0);
      case Reading =>
        assert s.readers == [Reading];
        a := Read(0, -1);
      case Posting(_) => a := Post(0);
    }
  }

  ghost predicate Quiet(data: seq<Byte>, s: State) {
    forall a :: Internal(a) ==> !Enabled(data, s, a)
  }

  lemma QuietIsEmpty(data: seq<Byte>, s: State)
    requires Safe(data, s) && Quiet(data, s)
    ensures s.readers == [] && s.events == []
  {
    if !s.deleted && (s.readers != [] || s.events != []) {
      var a := SomeStep(data, s);
    }
  }

  /** The step is a read that fails. */
  predicate Fails(data: seq<Byte>, s: State, a: Action) {
    a.Read? && a.rc < 0 && Enabled(data, s, a)
  }

  /** Some read of the run fails. */
  ghost predicate SomeReadFails(data: seq<Byte>, s: State, acts: seq<Action>, mark: bool)
    decreases |acts|
  {
    acts != [] &&
    var init, last := acts[..|acts| - 1], acts[|acts| - 1];
    SomeReadFails(data, s, init, mark) || Fails(data, After(data, s, init, mark), last)
  }

  /** An abort was sent or is on its way. */
  predicate Aborting(s: State) {
    s.aborts > 0 || Abort in s.events || Posting(Abort) in s.readers
  }

  lemma InReplaced(rs: seq<Reader>, r: nat, y: Reader, x: Reader)
    requires r < |rs| && rs[r] != x
    ensures x in rs[r := y] <==> x == y || x in rs
  {
    assert rs[r := y][r] == y;
    if i :| 0 <= i < |rs| && rs[i] == x {
      assert rs[r := y][i] == x;
    }
  }

  lemma InRemoved(rs: seq<Reader>, r: nat, x: Reader)
    requires r < |rs| && rs[r] != x
    ensures x in rs[..r] + rs[r + 1..] <==> x in rs
  {
    assert rs == rs[..r] + [rs[r]] + rs[r + 1..];
  }

  lemma PostKeepsAborting(s: State, r: nat)
    requires r < |s.readers| && s.readers[r].Posting?
    ensures Aborting(AfterPost(s, r)) <==> Aborting(s)
  {
    var e := s.readers[r].event;
    assert Abort in s.events + [e] <==> Abort in s.events || e == Abort;
    match e
    case DoneReading => InRemoved(s.readers, r, Posting(Abort));
    case Abort => assert s.readers[r] in s.readers;
    case _ => InReplaced(s.readers, r, Looping, Posting(Abort));
  }

  lemma ReadAborts(s: State, data: seq<Byte>, r: nat, rc: int)
    requires r < |s.readers| && s.readers[r] == Reading && s.offset <= |data| && rc <= |data| - s.offset
    ensures Aborting(AfterRead(s, data, r, rc)) <==> Aborting(s) || rc < 0
  {
    InReplaced(s.readers, r, AfterRead(s, data, r, rc).readers[r], Posting(Abort));
  }

  lemma DeliverKeepsAborting(s: State, mark: bool)
    requires s.events != []
    ensures Aborting(AfterDeliver(s, mark)) <==> Aborting(s)
  {
    assert s.events == [s.events[0]] + s.events[1..];
  }

  lemma LoopKeepsAborting(data: seq<Byte>, s: State, a: Action, mark: bool)
    requires Enabled(data, s, a) && !a.Read? && !a.Post? && !a.Deliver?
    ensures Aborting(Next(data, s, a, mark)) <==> Aborting(s)
  {
    if a.Loop? {
      InReplaced(s.readers, a.r, Next(data, s, a, mark).readers[a.r], Posting(Abort));
    } else if a.Resume? && StartsReader(s) {
      assert Posting(Abort) in s.readers + [Looping] <==> Posting(Abort) in s.readers;
    }
  }

  lemma StepAborts(data: seq<Byte>, s: State, a: Action, mark: bool)
    ensures Aborting(Next(data, s, a, mark)) <==> Aborting(s) || Fails(data, s, a)
  {
    if Enabled(data, s, a) {
      match a
      case Post(r) => PostKeepsAborting(s, r);
      case Read(r, rc) => ReadAborts(s, data, r, rc);
      case Deliver => DeliverKeepsAborting(s, mark);
      case _ =>
        LoopKeepsAborting(data, s, a, mark);
    }
  }

  lemma {:induction false} RunAborts(data: seq<Byte>, s: State, acts: seq<Action>, mark: bool)
    ensures Aborting(After(data, s, acts, mark)) <==> Aborting(s) || SomeReadFails(data, s, acts, mark)
    decreases |acts|
  {
    if acts != [] {
      RunAborts(data, s, acts[..|acts| - 1], mark);
      StepAborts(data, After(data, s, acts[..|acts| - 1], mark), acts[|acts| - 1], mark);
    }
  }

  lemma QuietHasEnded(data: seq<Byte>, t: State)
    requires Safe(data, t) && Awake(t) && GoingOn(t) && Quiet(data, t)
    ensures !t.fileOpen && t.readers == [] && t.events == [] && t.eoms + t.aborts == 1
    ensures t.eoms == 1 ==> t.sent == data
  {
    QuietIsEmpty(data, t);
    assert Pending(t) == [];
  }

  /**
   From any state that is neither paused nor finished and reached without a race, with no further
   callbacks: no run is longer than the work left, and a run that cannot go on has ended the
   response exactly once, with an abort if a read failed and else with the whole file.
   */
  lemma ResponseCompletes(data: seq<Byte>, before: seq<Action>, acts: seq<Action>, mark: bool)
    requires RaceFree(data, before, mark) && GoingOn(After(data, OPENED, before, mark))
    requires InternalRun(data, After(data, OPENED, before, mark), acts, mark)
    ensures var s := After(data, OPENED, before, mark); s.offset <= |data| && |acts| <= Work(data, s)
    ensures var s := After(data, OPENED, before, mark);
      var t := After(data, s, acts, mark);
      var failed := SomeReadFails(data, OPENED, before, mark) || SomeReadFails(data, s, acts, mark);
      Quiet(data, t) ==>
        && !t.fileOpen && t.readers == [] && t.events == []
        && t.aborts == (if failed then 1 else 0) && t.eoms == (if failed then 0 else 1)
        && (!failed ==> t.sent == data)
  {
    var s := After(data, OPENED, before, mark);
    SafeAlways(data, before, mark);
    NoLostWakeup(data, before, mark);
    InternalRunKeeps(data, s, acts, mark);
    InternalRunFlags(data, s, acts, mark);
    RunAborts(data, OPENED, before, mark);
    RunAborts(data, s, acts, mark);
    if Quiet(data, After(data, s, acts, mark)) {
      QuietHasEnded(data, After(data, s, acts, mark));
    }
  }

  /** A finished handler without readers and events is deleted, in every run. */
  lemma FinishedIsDeleted(data: seq<Byte>, acts: seq<Action>, mark: bool)
    ensures var s := After(data, OPENED, acts, mark);
      s.finished && s.readers == [] && s.events == [] ==> s.deleted
  {
    NoLostWakeup(data, acts, mark);
  }

  /**
   From any finished state that was reached without a race, with no further callbacks: no run is
   longer than the work left, and a run that cannot go on has deleted the handler.
   */
  lemma FinishedEnds(data: seq<Byte>, before: seq<Action>, acts: seq<Action>, mark: bool)
    requires RaceFree(data, before, mark) && After(data, OPENED, before, mark).finished
    requires InternalRun(data, After(data, OPENED, before, mark), acts, mark)
    ensures var s := After(data, OPENED, before, mark); s.offset <= |data| && |acts| <= Work(data, s)
    ensures var t := After(data, After(data, OPENED, before, mark), acts, mark);
      Quiet(data, t) ==> t.deleted
  {
    var s := After(data, OPENED, before, mark);
    SafeAlways(data, before, mark);
    NoLostWakeup(data, before, mark);
    InternalRunKeeps(data, s, acts, mark);
    InternalRunFlags(data, s, acts, mark);
    if Quiet(data, After(data, s, acts, mark)) {
      QuietIsEmpty(data, After(data, s, acts, mark));
    }
  }

  /** How many reads a run makes. */
  function Reads(acts: seq<Action>): nat {
    if acts == [] then 0 else Reads(acts[..|acts| - 1]) + if acts[|acts| - 1].Read? then 1 else 0
  }

  function PastTest(s: State): nat {
    if Reading in s.readers then 1 else 0
  }

  lemma PausedRead(s: State, data: seq<Byte>, rc: int)
    requires s.readers == [Reading] && s.offset <= |data| && rc <= |data| - s.offset
    ensures PastTest(AfterRead(s, data, 0, rc)) == 0 && PastTest(s) == 1
  {
    var t := AfterRead(s, data, 0, rc);
    assert |t.readers| == 1 && t.readers[0] != Reading;
    assert s.readers[0] in s.readers;
  }

  lemma PausedPost(s: State)
    requires |s.readers| == 1 && s.readers[0].Posting?
    ensures PastTest(AfterPost(s, 0)) == 0
  {
    var t := AfterPost(s, 0);
    assert t.readers == [] || (|t.readers| == 1 && t.readers[0] != Reading);
  }

  lemma PausedDeliver(s: State, mark: bool)
    requires s.paused && s.events != []
    ensures PastTest(AfterDeliver(s, mark)) == PastTest(s)
  {
  }

  lemma PausedStep(data: seq<Byte>, s: State, a: Action, mark: bool)
    requires Safe(data, s) && s.paused && Internal(a) && Enabled(data, s, a)
    ensures PastTest(Next(data, s, a, mark)) + (if a.Read? then 1 else 0) <= PastTest(s)
  {
    match a
    case Loop(r) => assert s.readers == [Looping] && Next(data, s, a, mark).readers == [Posting(DoneReading)];
    case Read(r, rc) => PausedRead(s, data, rc);
    case Post(r) => PausedPost(s);
    case Deliver => PausedDeliver(s, mark);
  }

  lemma {:induction false} PausedRun(data: seq<Byte>, s: State, acts: seq<Action>, mark: bool)
    requires Safe(data, s) && Awake(s) && s.paused && InternalRun(data, s, acts, mark)
    ensures PastTest(After(data, s, acts, mark)) + Reads(acts) <= PastTest(s)
    decreases |acts|
  {
    if acts != [] {
      var init, last := acts[..|acts| - 1], acts[|acts| - 1];
      PausedRun(data, s, init, mark);
      InternalRunKeeps(data, s, init, mark);
      InternalRunFlags(data, s, init, mark);
      PausedStep(data, After(data, s, init, mark), last, mark);
    }
  }

  lemma DeletedRun(data: seq<Byte>, s: State, acts: seq<Action>, mark: bool)
    requires s.deleted && InternalRun(data, s, acts, mark)
    ensures acts == []
    decreases |acts|
  {
    if acts != [] {
      DeletedRun(data, s, acts[..|acts| - 1], mark);
    }
  }

  /**
   A pause, or the end of the request, stops reading: until the next callback at most one more read
   happens, and only if the reader had made its test before.
   */
  lemma PauseStops(data: seq<Byte>, before: seq<Action>, a: Action, acts: seq<Action>, mark: bool)
    requires RaceFree(data, before + [a], mark) && (a.Pause? || a.Finish?)
    requires InternalRun(data, After(data, OPENED, before + [a], mark), acts, mark)
    ensures Reads(acts) <= if Reading in After(data, OPENED, before, mark).readers then 1 else 0
  {
    assert (before + [a])[..|before|] == before;
    var s := After(data, OPENED, before + [a], mark);
    SafeAlways(data, before + [a], mark);
    NoLostWakeup(data, before + [a], mark);
    if s.deleted {
      DeletedRun(data, s, acts, mark);
    } else {
      PausedRun(data, s, acts, mark);
    }
  }

  /** A resume ends the pause, so that an unfinished response goes on to its end. */
  lemma ResumeGoesOn(data: seq<Byte>, s: State, mark: bool)
    requires !s.finished && !s.deleted
    ensures GoingOn(Next(data, s, Resume, mark))
  {
  }

  lemma {:induction false} AfterCons(data: seq<Byte>, s: State, a: Action, rest: seq<Action>, mark: bool)
    requires Internal(a) && Enabled(data, s, a) && InternalRun(data, Next(data, s, a, mark), rest, mark)
    ensures After(data, s, [a] + rest, mark) == After(data, Next(data, s, a, mark), rest, mark)
    ensures InternalRun(data, s, [a] + rest, mark)
    decreases |rest|
  {
    var all := [a] + rest;
    if rest == [] {
      assert all == [a] && all[..0] == [];
    } else {
      AfterCons(data, s, a, rest[..|rest| - 1], mark);
      assert all[..|all| - 1] == [a] + rest[..|rest| - 1];
    }
  }

  /** From such a state a run that ends the response exists. */
  lemma {:induction false} CompletingRun(data: seq<Byte>, s: State, mark: bool) returns (acts: seq<Action>)
    requires Safe(data, s) && Awake(s)
    ensures InternalRun(data, s, acts, mark) && Quiet(data, After(data, s, acts, mark))
    decreases Work(data, s)
  {
    if s.readers == [] && s.events == [] {
      acts := [];
    } else {
      var a := SomeStep(data, s);
      var t := Next(data, s, a, mark);
      StepKeepsSafe(data, s, a, mark);
      StepKeepsAwake(data, s, a, mark);
      InternalStepWorks(data, s, a, mark);
      var rest := CompletingRun(data, t, mark);
      acts := [a] + rest;
      AfterCons(data, s, a, rest, mark);
    }
  }

  // ---------- When resuming marks the reader it starts ----------

  /** The flag is exact: it is set exactly while a reader or its final event is outstanding. */
  predicate FlagExact(s: State) {
    s.scheduled <==> Outstanding(s)
  }

  lemma MarkedDeliverKeepsFlag(s: State)
    requires OneReader(s) && FlagExact(s) && s.events != []
    ensures Outstanding(AfterDeliver(s, true)) ==> AfterDeliver(s, true).scheduled
  {
    assert s.events[0] == DoneReading ==> s.readers == [] && s.events == [DoneReading];
  }

  lemma MarkedStepKeepsFlag(data: seq<Byte>, s: State, a: Action)
    requires Safe(data, s) && FlagExact(s)
    ensures Outstanding(Next(data, s, a, true)) ==> Next(data, s, a, true).scheduled
  {
    if Enabled(data, s, a) && a.Deliver? {
      MarkedDeliverKeepsFlag(s);
    }
  }

  /** With marking the flag is always exact, so that no callback races, in any interleaving. */
  lemma {:induction false} MarkedIsRaceFree(data: seq<Byte>, acts: seq<Action>)
    ensures RaceFree(data, acts, true) && FlagExact(After(data, OPENED, acts, true))
    decreases |acts|
  {
    NoLostWakeup(data, acts, true);
    if acts != [] {
      var init, last := acts[..|acts| - 1], acts[|acts| - 1];
      MarkedIsRaceFree(data, init);
      SafeAlways(data, init, true);
      MarkedStepKeepsFlag(data, After(data, OPENED, init, true), last);
    }
  }

  // ---------- The resume callback as written ----------

  /** Extending a run of the source as written by one step. */
  lemma OneMore(data: seq<Byte>, acts: seq<Action>, a: Action) returns (more: seq<Action>)
    ensures more == acts + [a]
    ensures After(data, OPENED, more, false) == Next(data, After(data, OPENED, acts, false), a, false)
  {
    more := acts + [a];
    assert more[..|acts|] == acts;
  }

  /** Pausing, letting the reader stop, and resuming: a reader is outstanding but not marked. */
  lemma ResumedUnmarked(data: seq<Byte>) returns (acts: seq<Action>)
    ensures After(data, OPENED, acts, false) == OPENED.(scheduled := false)
  {
    acts := [];
    acts := OneMore(data, acts, Pause);
    acts := OneMore(data, acts, Loop(0));
    assert After(data, OPENED, acts, false).readers == [Posting(DoneReading)];
    acts := OneMore(data, acts, Post(0));
    assert After(data, OPENED, acts, false).events == [DoneReading];
    acts := OneMore(data, acts, Deliver);
    acts := OneMore(data, acts, Resume);
  }

  /** As written, the handler can be deleted while its reader is still queued. */
  lemma UnmarkedDeletedEarly(data: seq<Byte>)
    ensures exists acts ::
      After(data, OPENED, acts, false).deleted && After(data, OPENED, acts, false).readers == [Looping]
  {
    var acts := ResumedUnmarked(data);
    acts := OneMore(data, acts, Finish);
  }

  /** Resuming once more starts a second reader, and both can be about to read. */
  lemma TwoReaders(data: seq<Byte>) returns (acts: seq<Action>)
    ensures After(data, OPENED, acts, false) == OPENED.(scheduled := false, readers := [Reading, Reading])
  {
    acts := ResumedUnmarked(data);
    acts := OneMore(data, acts, Resume);
    assert After(data, OPENED, acts, false).readers == [Looping, Looping];
    acts := OneMore(data, acts, Loop(0));
    assert After(data, OPENED, acts, false).readers == [Reading, Looping];
    acts := OneMore(data, acts, Loop(1));
    assert After(data, OPENED, acts, false).readers == [Reading, Reading];
  }

  /** As written, two readers at once can send the bytes of the file out of order. */
  lemma UnmarkedMisorders(x: Byte, y: Byte)
    ensures exists acts :: After([x, y], OPENED, acts, false).sent == [y, x]
  {
    var data := [x, y];
    var acts := TwoReaders(data);
    acts := OneMore(data, acts, Read(0, 1));
    assert data[0..1] == [x] && data[1..2] == [y];
    assert After(data, OPENED, acts, false).readers == [Posting(Chunk([x])), Reading];
    acts := OneMore(data, acts, Read(1, 1));
    assert After(data, OPENED, acts, false).readers == [Posting(Chunk([x])), Posting(Chunk([y]))];
    acts := OneMore(data, acts, Post(1));
    acts := OneMore(data, acts, Post(0));
    assert After(data, OPENED, acts, false).events == [Chunk([y]), Chunk([x])];
    acts := OneMore(data, acts, Deliver);
    acts := OneMore(data, acts, Deliver);
    assert After(data, OPENED, acts, false).sent == [y, x];
  }
}
