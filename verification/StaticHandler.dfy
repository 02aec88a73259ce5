/** The request handler for static files as an object, each method proved to be steps of the protocol. */
module StaticHandler {
  import opened StaticStreaming

  /** What a read that returned `n` at `offset` posts. */
  function EventOf(data: seq<Byte>, offset: nat, n: int): Event
    requires offset <= |data| && n <= |data| - offset
  {
    if n < 0 then Abort else if n == 0 then Eom else Chunk(data[offset..offset + n])
  }

  /** The state after one pass through the loop: test, read and post. */
  function AfterPass(data: seq<Byte>, s: State, n: int): State
    requires s.offset <= |data| && n <= |data| - s.offset
  {
    var posted := s.(events := s.events + [EventOf(data, s.offset, n)]);
    if n < 0 then posted.(fileOpen := false, readers := [Posting(DoneReading)])
    else if n == 0 then posted.(fileOpen := false)
    else posted.(offset := s.offset + n)
  }

  lemma PassIsReadAndPost(data: seq<Byte>, s: State, n: int)
    requires s.readers == [Looping] && s.offset <= |data| && n <= |data| - s.offset
    ensures var read := AfterRead(s.(readers := [Reading]), data, 0, n);
      read.readers == [Posting(EventOf(data, s.offset, n))] && AfterPost(read, 0) == AfterPass(data, s, n)
  {
    var read := AfterRead(s.(readers := [Reading]), data, 0, n);
    var e := EventOf(data, s.offset, n);
    assert read.readers == [Posting(e)];
    assert [Posting(e)][0 := Looping] == [Looping];
    assert [Posting(e)][0 := Posting(DoneReading)] == [Posting(DoneReading)];
  }

  /** One more step of a run. */
  lemma Do(data: seq<Byte>, mark: bool, start: State, acts: seq<Action>, a: Action) returns (more: seq<Action>)
    ensures After(data, start, more, mark) == Next(data, After(data, start, acts, mark), a, mark)
  {
    more := acts + [a];
    assert more[..|acts|] == acts;
  }

  lemma OnePass(data: seq<Byte>, mark: bool, start: State, acts: seq<Action>, s: State, n: int)
    returns (more: seq<Action>)
    requires After(data, start, acts, mark) == s
    requires !s.deleted && s.readers == [Looping] && s.fileOpen && !s.paused && s.offset <= |data|
    requires n <= |data| - s.offset && (n == 0 ==> s.offset == |data|)
    ensures After(data, start, more, mark) == AfterPass(data, s, n)
  {
    more := Do(data, mark, start, acts, Loop(0));
    assert After(data, start, more, mark) == s.(readers := [Reading]);
    more := Do(data, mark, start, more, Read(0, n));
    PassIsReadAndPost(data, s, n);
    more := Do(data, mark, start, more, Post(0));
  }

  /** The end of the loop: the final event. */
  lemma LastPass(data: seq<Byte>, mark: bool, start: State, acts: seq<Action>, s: State)
    returns (more: seq<Action>)
    requires After(data, start, acts, mark) == s && !s.deleted
    requires s.readers == [Posting(DoneReading)] || (s.readers == [Looping] && !(s.fileOpen && !s.paused))
    ensures After(data, start, more, mark) == s.(readers := [], events := s.events + [DoneReading])
  {
    more := acts;
    if s.readers == [Looping] {
      more := Do(data, mark, start, more, Loop(0));
    }
    assert After(data, start, more, mark) == s.(readers := [Posting(DoneReading)]);
    more := Do(data, mark, start, more, Post(0));
    assert After(data, start, more, mark).readers == [];
  }

  /** What reads at each offset may return: bytes that are there, zero only at the end, or a failure. */
  predicate Readable(data: seq<Byte>, rc: nat -> int) {
    (forall i: nat :: i < |data| ==> rc(i) != 0 && rc(i) <= |data| - i) && rc(|data|) <= 0
  }

  /** The offset at which reading from `from` on stops. */
  function StopAt(data: seq<Byte>, rc: nat -> int, from: nat): (stop: nat)
    requires Readable(data, rc) && from <= |data|
    ensures from <= stop <= |data|
    decreases |data| - from
  {
    if rc(from) <= 0 then from else StopAt(data, rc, from + rc(from))
  }

  /** What is posted by reading from `from` on. */
  function Posted(data: seq<Byte>, rc: nat -> int, from: nat): seq<Event>
    requires Readable(data, rc) && from <= |data|
    decreases |data| - from
  {
    [EventOf(data, from, rc(from))] + if rc(from) <= 0 then [] else Posted(data, rc, from + rc(from))
  }

  /** The state after the reader's loop ran from state `s` on. */
  function AfterReading(data: seq<Byte>, rc: nat -> int, s: State): State
    requires Readable(data, rc) && s.offset <= |data|
  {
    if s.paused || !s.fileOpen then s.(readers := [], events := s.events + [DoneReading])
    else s.(readers := [], events := s.events + Posted(data, rc, s.offset) + [DoneReading],
            fileOpen := false, offset := StopAt(data, rc, s.offset))
  }

  /** One pass through the loop leaves the rest of it to be done. */
  lemma PassReads(data: seq<Byte>, rc: nat -> int, s: State)
    requires Readable(data, rc) && s.offset <= |data| && !s.paused && s.fileOpen && s.readers == [Looping]
    ensures AfterReading(data, rc, AfterPass(data, s, rc(s.offset))) == AfterReading(data, rc, s)
  {
    var n := rc(s.offset);
    if n > 0 {
      var e := EventOf(data, s.offset, n);
      assert Posted(data, rc, s.offset) == [e] + Posted(data, rc, s.offset + n);
      assert s.events + ([e] + Posted(data, rc, s.offset + n)) == (s.events + [e]) + Posted(data, rc, s.offset + n);
    }
  }

  function ChunkEvents(chunks: seq<seq<Byte>>): seq<Event> {
    if chunks == [] then [] else [Chunk(chunks[0])] + ChunkEvents(chunks[1..])
  }

  /** The bytes of all chunks in order. */
  function Total(chunks: seq<seq<Byte>>): seq<Byte> {
    if chunks == [] then [] else chunks[0] + Total(chunks[1..])
  }

  /** Each chunk has the size that the read at its offset returns. */
  predicate SizesFrom(rc: nat -> int, from: nat, chunks: seq<seq<Byte>>)
    decreases |chunks|
  {
    chunks == [] || (|chunks[0]| == rc(from) && SizesFrom(rc, from + |chunks[0]|, chunks[1..]))
  }

  /**
   Reading posts chunks of the sizes that the reads return, which make up the file from the first
   offset to the last, and then an abort if the read there failed, or else the end of the response,
   which comes only at the end of the file.
   */
  lemma {:induction false} PostedIs(data: seq<Byte>, rc: nat -> int, from: nat) returns (chunks: seq<seq<Byte>>)
    requires Readable(data, rc) && from <= |data|
    ensures var stop := StopAt(data, rc, from);
      && Posted(data, rc, from) == ChunkEvents(chunks) + [if rc(stop) < 0 then Abort else Eom]
      && Total(chunks) == data[from..stop] && SizesFrom(rc, from, chunks)
      && (rc(stop) < 0 || (rc(stop) == 0 && stop == |data|))
    decreases |data| - from
  {
    var n := rc(from);
    if n <= 0 {
      chunks := [];
    } else {
      var rest := PostedIs(data, rc, from + n);
      var bytes := data[from..from + n];
      chunks := [bytes] + rest;
      assert chunks[1..] == rest;
      var stop := StopAt(data, rc, from + n);
      assert data[from..stop] == bytes + data[from + n..stop];
    }
  }

  /**
   The outcome of the loop: on an open file that is not paused, chunks of the file from the first
   offset to the last, an abort or an end, and the final event; otherwise the final event alone.
   */
  lemma ReadingIs(data: seq<Byte>, rc: nat -> int, s: State) returns (chunks: seq<seq<Byte>>)
    requires Readable(data, rc) && s.offset <= |data|
    ensures var t := AfterReading(data, rc, s);
      if s.paused || !s.fileOpen then t == s.(readers := [], events := s.events + [DoneReading])
      else
        && t == s.(readers := [], events := t.events, fileOpen := false, offset := t.offset)
        && s.offset <= t.offset <= |data|
        && t.events
           == s.events + (ChunkEvents(chunks) + [if rc(t.offset) < 0 then Abort else Eom]) + [DoneReading]
        && Total(chunks) == data[s.offset..t.offset] && SizesFrom(rc, s.offset, chunks)
        && (rc(t.offset) < 0 || (rc(t.offset) == 0 && t.offset == |data|))
  {
    chunks := PostedIs(data, rc, s.offset);
  }

  class Handler {
    const data: seq<Byte>
    /** Whether resuming marks the reader it starts; the source does not. */
    const mark: bool

    var fileOpen: bool
    var offset: nat
    var readFileScheduled: bool
    var paused: bool
    var finished: bool
    var deleted: bool
    /** Events posted to the event loop and not yet run, and what went downstream. */
    var events: seq<Event>
    var sent: seq<Byte>
    var eoms: nat
    var aborts: nat
    /** Readers handed to the executor. */
    ghost var readers: seq<Reader>

    ghost function View(): State
      reads this
    {
      State(fileOpen, offset, readFileScheduled, paused, finished, deleted, readers, events, sent, eoms, aborts)
    }

    /** A request for an uncached file that could be opened. */
    constructor OnRequest(data: seq<Byte>, mark: bool)
      ensures View() == OPENED && this.data == data && this.mark == mark
    {
      this.data, this.mark := data, mark;
      fileOpen, offset, readFileScheduled := true, 0, true;
      paused, finished, deleted := false, false, false;
      events, sent, eoms, aborts := [], [], 0, 0;
      readers := [Looping];
    }

    method OnEgressPaused()
      requires !deleted
      modifies this
      ensures View() == Next(data, old(View()), Pause, mark)
    {
      paused := true;
    }

    method OnEgressResumed()
      modifies this
      ensures View() == Resumed(old(View()), mark)
      ensures !old(deleted) ==> View() == Next(data, old(View()), Resume, mark)
    {
      paused := false;
      if !readFileScheduled && fileOpen {
        readFileScheduled := mark;
        readers := readers + [Looping];
      }
    }

    /** Deletes the handler when the response is finished and no reader is scheduled. */
    method CheckForCompletion() returns (done: bool)
      requires !deleted
      modifies this
      ensures View() == Completed(old(View())) && done == deleted
    {
      done := false;
      if finished && !readFileScheduled {
        deleted := true;
        done := true;
      }
    }

    /** The request is complete, or failed: both callbacks do the same. */
    method RequestComplete()
      requires !deleted
      modifies this
      ensures View() == Next(data, old(View()), Finish, mark)
    {
      finished := true;
      paused := true;
      var _ := CheckForCompletion();
    }

    /** The event loop runs the next posted event. */
    method RunNextEvent()
      requires !deleted && events != []
      modifies this
      ensures View() == Next(data, old(View()), Deliver, mark)
    {
      var e := events[0];
      events := events[1..];
      match e
      case Chunk(bytes) => sent := sent + bytes;
      case Eom => eoms := eoms + 1;
      case Abort => aborts := aborts + 1;
      case DoneReading =>
        readFileScheduled := false;
        var done := CheckForCompletion();
        if !done && !paused {
          OnEgressResumed();
        }
    }

    /** Acts on a read that returned `n`: an end closes the file. */
    method PostRead(n: int)
      requires readers == [Looping] && offset <= |data| && n <= |data| - offset
      modifies this
      ensures View() == AfterPost(AfterRead(old(View()).(readers := [Reading]), data, 0, n), 0)
      ensures View() == AfterPass(data, old(View()), n)
    {
      PassIsReadAndPost(data, View(), n);
      events := events + [EventOf(data, offset, n)];
      if n < 0 {
        fileOpen := false;
        readers := [Posting(DoneReading)];
      } else if n == 0 {
        fileOpen := false;
      } else {
        offset := offset + n;
      }
    }

    /**
     The reader's loop when no other thread steps in between.  `rc` says what a read at an offset
     returns.  The loop is a run of reader steps; it posts what the reads return and the final event,
     and the latter alone when the handler is paused or the file is closed.
     */
    method ReadFile(rc: nat -> int) returns (ghost acts: seq<Action>)
      requires !deleted && readers == [Looping] && offset <= |data| && Readable(data, rc)
      modifies this
      ensures View() == After(data, old(View()), acts, mark)
      ensures View() == AfterReading(data, rc, old(View()))
    {
      acts := [];
      ghost var start := View();
      while fileOpen && !paused
        invariant offset <= |data| && readers == [Looping] && !deleted
        invariant AfterReading(data, rc, View()) == AfterReading(data, rc, start)
        invariant View() == After(data, start, acts, mark)
        decreases |data| - offset, fileOpen
      {
        var n := rc(offset);
        acts := OnePass(data, mark, start, acts, View(), n);
        PassReads(data, rc, View());
        PostRead(n);
        if n < 0 {
          break;
        }
      }
      acts := LastPass(data, mark, start, acts, View());
      readers := [];
      events := events + [DoneReading];
    }
  }
}
