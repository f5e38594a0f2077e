// A TCP session of the fuzzy storage worker (src/fuzzy_storage.c): framing, in-flight commands,
// the reply queue, backpressure and the end of the session, one event handler at a time.
module FuzzyTcp {
  import opened Common
  import opened FuzzyFrames

  /** FUZZY_TCP_MAX_BACKLOG */
  const BACKLOG: nat := 1024

  /** The frames one bufferful, with two length bytes taken before, can complete. */
  const BURST: nat := 2731

  /** A reply in the queue, its size header included, and how much of it was written. */
  datatype Reply = Reply(bytes: seq<Byte>, written: nat)

  /** What becomes of a command when its frame is processed: answered or dropped at once, or left running. */
  datatype Outcome = Answered(reply: seq<Byte>) | Dropped | Deferred

  /** Replies fit their size header. */
  ghost predicate Safe(outcomes: nat -> Outcome) {
    forall k :: outcomes(k).Answered? ==> |outcomes(k).reply| < 65536
  }

  /** The reply a frame gets at once, if any. */
  ghost function AnswerTo(outcome: Outcome): seq<seq<Byte>> {
    if outcome.Answered? && |outcome.reply| < 65536 then [Framed(outcome.reply)] else []
  }

  /** The replies the first n frames of a read get at once, in order. */
  ghost function RepliesOf(outcomes: nat -> Outcome, n: nat): seq<seq<Byte>> {
    if n == 0 then [] else RepliesOf(outcomes, n - 1) + AnswerTo(outcomes(n - 1))
  }

  /** How many of them are left running. */
  ghost function RunningOf(outcomes: nat -> Outcome, n: nat): nat {
    if n == 0 then 0 else RunningOf(outcomes, n - 1) + if outcomes(n - 1).Deferred? then 1 else 0
  }

  /** The frames, replies and running commands of a session. */
  datatype Books = Books(frames: seq<seq<Byte>>, replies: seq<seq<Byte>>, inflight: nat)

  /** Frames were delivered, each with its own outcome. */
  ghost predicate Answers(outcomes: nat -> Outcome, was: Books, now: Books) {
    && was.frames <= now.frames
    && now.replies == was.replies + RepliesOf(outcomes, |now.frames| - |was.frames|)
    && now.inflight == was.inflight + RunningOf(outcomes, |now.frames| - |was.frames|)
  }

  lemma AnswersNone(outcomes: nat -> Outcome, was: Books)
    ensures Answers(outcomes, was, was)
  {
  }

  /** One more frame was delivered, with this outcome, or none. */
  ghost predicate Delivered(was: Books, now: Books, outcome: Outcome, more: bool) {
    if more then
      && |now.frames| == |was.frames| + 1 && was.frames <= now.frames && now.replies == was.replies + AnswerTo(outcome)
      && now.inflight == was.inflight + if outcome.Deferred? then 1 else 0
    else now == was
  }

  lemma AnswersOne(outcomes: nat -> Outcome, was: Books, now: Books, count: nat, next: Books, more: bool)
    requires Answers(outcomes, was, now) && |now.frames| == |was.frames| + count
    requires Delivered(now, next, outcomes(count), more)
    ensures Answers(outcomes, was, next) && |next.frames| == |was.frames| + count + if more then 1 else 0
  {
  }

  datatype ReadResult = Got(data: seq<Byte>) | Eof | ReadAgain | ReadError

  datatype WriteResult = Took(n: nat) | WriteAgain | WriteError

  /** The descriptor became ready, the session timed out, or a command left running ended. */
  datatype Event = Io(read: Option<ReadResult>,
      write: Option<seq<WriteResult>>) | Timeout | Complete(reply: Option<seq<Byte>>)

  /** What the queue gives to a descriptor that answers so: a reply that is not taken whole ends it. */
  ghost function Takes(queue: seq<Reply>, results: seq<WriteResult>): seq<Byte> {
    if queue == [] || results == [] then []
    else if Fits(queue[0], results[0]) && Last(queue[0], results[0]) then
      Given(queue[0], results[0]) + Takes(queue[1..], results[1..])
    else Given(queue[0], results[0])
  }

  /** The bytes of a reply that one write takes. */
  ghost function Given(reply: Reply, result: WriteResult): seq<Byte> {
    if Fits(reply, result) then reply.bytes[reply.written..reply.written + result.n] else []
  }

  /** The descriptor is reached with an error. */
  ghost predicate Fails(queue: seq<Reply>, results: seq<WriteResult>) {
    queue != [] && results != [] &&
    (results[0].WriteError? || (Fits(queue[0], results[0]) && Last(queue[0], results[0]) && Fails(queue[1..],
        results[1..])))
  }

  /** What the descriptor took was written, and an error ended the session. */
  ghost predicate Wrote(write: Option<seq<WriteResult>>, queue: seq<Reply>, was: seq<Byte>, sent: seq<Byte>,
      closed: bool)
  {
    if write.Some? then sent == was + Takes(queue, write.value) && closed == Fails(queue, write.value)
    else sent == was && !closed
  }

  /** A write takes at most what is left of the reply. */
  predicate Fits(reply: Reply, result: WriteResult) {
    result.Took? && reply.written + result.n <= |reply.bytes|
  }

  predicate Last(reply: Reply, result: WriteResult)
    requires result.Took?
  {
    reply.written + result.n == |reply.bytes|
  }

  /** What of a session an event depends on and changes. */
  datatype View = View(closed: bool, readArmed: bool, writeArmed: bool, timer: bool, buffered: nat, books: Books,
    received: seq<Byte>, sent: seq<Byte>)

  /** What can happen next: only armed watchers fire, only live commands end. */
  ghost predicate Possible(v: View, e: Event) {
    match e
    case Io(read, write) =>
      && !v.closed && (read.Some? || write.Some?)
      && (read.Some? ==> v.readArmed) && (write.Some? ==> v.writeArmed)
      && (read.Some? && read.value.Got? ==> v.buffered < BUFFER && 0 < |read.value.data| <= BUFFER - v.buffered)
    case Timeout => v.timer
    case Complete(reply) => v.books.inflight > 0 && (reply.Some? ==> |reply.value| < 65536)
  }

  /** What an event does. */
  ghost predicate Happens(outcomes: nat -> Outcome, e: Event, v: View, w: View)
    requires Possible(v, e)
  {
    match e
    case Io(read, write) =>
      && w.received == v.received + (if read.Some? && read.value.Got? then read.value.data else [])
      && Answers(outcomes, v.books, w.books) && v.sent <= w.sent
      && (read.Some? && (read.value.Eof? || read.value.ReadError?) ==> w.closed)
    case Timeout => w.closed && w.books == v.books && w.received == v.received && w.sent == v.sent
    case Complete(reply) =>
      && w.closed == v.closed && w.received == v.received && w.sent == v.sent
      && w.books == Books(v.books.frames,
                          v.books.replies + (if reply.Some? && !v.closed then [Framed(reply.value)] else []),
                          v.books.inflight - 1)
  }

  /** What a read does. */
  ghost predicate ReadDone(outcomes: nat -> Outcome, read: ReadResult, v: View, w: View) {
    && w.received == v.received + (if read.Got? then read.data else []) && w.sent == v.sent
    && Answers(outcomes, v.books, w.books) && (read.Eof? || read.ReadError? ==> w.closed)
  }

  /** What writing from this queue does. */
  ghost predicate WriteDone(write: Option<seq<WriteResult>>, queue: seq<Reply>, v: View, w: View) {
    w.received == v.received && w.books == v.books && Wrote(write, queue, v.sent, w.sent, w.closed)
  }

  lemma WriteGrows(write: Option<seq<WriteResult>>, queue: seq<Reply>, v: View, w: View)
    requires WriteDone(write, queue, v, w)
    ensures v.sent <= w.sent && w.received == v.received && w.books == v.books
  {
  }

  lemma ReadHappens(outcomes: nat -> Outcome, read: ReadResult, write: Option<seq<WriteResult>>, v: View, mid: View,
      w: View)
    requires Possible(v, Io(Some(read), write)) && ReadDone(outcomes, read, v, mid)
    requires w == mid || (!mid.closed && mid.sent <= w.sent && w.received == mid.received && w.books == mid.books)
    ensures Happens(outcomes, Io(Some(read), write), v, w)
  {
  }

  lemma WriteHappens(outcomes: nat -> Outcome, write: Option<seq<WriteResult>>, queue: seq<Reply>, v: View, w: View)
    requires Possible(v, Io(None, write)) && WriteDone(write, queue, v, w)
    ensures Happens(outcomes, Io(None, write), v, w)
  {
    WriteGrows(write, queue, v, w);
    AnswersNone(outcomes, v.books);
  }

  /** A session went through these events, each at its turn if it was possible then. */
  ghost predicate Ran(events: seq<Event>, outcomes: nat -> nat -> Outcome, views: seq<View>) {
    && |views| == |events| + 1
    && forall i {:trigger events[i]} | 0 <= i < |events| ::
         if Possible(views[i], events[i]) then Happens(outcomes(i), events[i], views[i], views[i + 1])
         else views[i + 1] == views[i]
  }

  lemma RanMore(events: seq<Event>, outcomes: nat -> nat -> Outcome, views: seq<View>, e: Event, next: View)
    requires Ran(events, outcomes, views)
    requires if Possible(views[|events|], e) then Happens(outcomes(|events|), e, views[|events|], next)
             else next == views[|events|]
    ensures Ran(events + [e], outcomes, views + [next])
  {
    var es, vs := events + [e], views + [next];
    forall i {:trigger es[i]} | 0 <= i < |es|
      ensures if Possible(vs[i], es[i]) then Happens(outcomes(i), es[i], vs[i], vs[i + 1]) else vs[i + 1] == vs[i]
    {
      if i < |events| {
        assert es[i] == events[i] && vs[i] == views[i] && vs[i + 1] == views[i + 1];
      }
    }
  }

  /** Only the first reply in the queue may be partly written. */
  ghost predicate WellQueued(queue: seq<Reply>) {
    forall i | 0 <= i < |queue| :: queue[i].written < |queue[i].bytes| && (i > 0 ==> queue[i].written == 0)
  }

  ghost function Joined(parts: seq<seq<Byte>>): seq<Byte> {
    if parts == [] then [] else Joined(parts[..|parts| - 1]) + parts[|parts| - 1]
  }

  /** The first `done` replies were written, the queue holds the others, and of its first one a part was written. */
  ghost predicate Whole(sent: seq<Byte>, done: nat, queue: seq<Reply>, replies: seq<seq<Byte>>) {
    && done + |queue| == |replies|
    && (forall i | 0 <= i < |queue| :: queue[i].bytes == replies[done + i])
    && (queue == [] ==> sent == Joined(replies[..done]))
    && (queue != [] ==>
        queue[0].written <= |queue[0].bytes| && sent == Joined(replies[..done]) + queue[0].bytes[..queue[0].written])
  }

  /** What was written is the first `done` replies and a part of the next one. */
  ghost predicate Part(sent: seq<Byte>, done: nat, replies: seq<seq<Byte>>) {
    && done <= |replies|
    && (sent == Joined(replies[..done])
        || (done < |replies| && exists n | 0 <= n <= |replies[done]| ::
            sent == Joined(replies[..done]) + replies[done][..n]))
  }

  lemma WholeIsPart(sent: seq<Byte>, done: nat, queue: seq<Reply>, replies: seq<seq<Byte>>)
    requires Whole(sent, done, queue, replies)
    ensures Part(sent, done, replies)
  {
    if queue != [] {
      assert queue[0].bytes == replies[done + 0];
    }
  }

  lemma {:induction false} JoinedGrows(parts: seq<seq<Byte>>, n: nat)
    requires n <= |parts|
    ensures Joined(parts[..n]) <= Joined(parts)
  {
    var last := |parts| - 1;
    if n == |parts| {
      assert parts[..n] == parts;
    } else {
      JoinedGrows(parts[..last], n);
      assert parts[..last][..n] == parts[..n];
    }
  }

  lemma PartOfJoined(sent: seq<Byte>, done: nat, replies: seq<seq<Byte>>)
    requires Part(sent, done, replies)
    ensures sent <= Joined(replies)
  {
    JoinedGrows(replies, done);
    if done < |replies| {
      JoinedGrows(replies, done + 1);
      assert replies[..done + 1][..done] == replies[..done];
      assert Joined(replies[..done + 1]) == Joined(replies[..done]) + replies[done];
    }
  }

  lemma WholeMore(sent: seq<Byte>, done: nat, queue: seq<Reply>, replies: seq<seq<Byte>>, bytes: seq<Byte>)
    requires Whole(sent, done, queue, replies)
    ensures Whole(sent, done, queue + [Reply(bytes, 0)], replies + [bytes])
  {
    assert (replies + [bytes])[..done] == replies[..done];
  }

  /** A reply as it goes over the wire. */
  function Framed(payload: seq<Byte>): (r: seq<Byte>)
    requires |payload| < 65536
    ensures |r| == |payload| + 2 && Length(r) == |payload| && r[2..] == payload
    ensures |payload| < 256 ==> r[0] == |payload| && r[1] == 0
  {
    [|payload| % 256, |payload| / 256] + payload
  }

  /** struct fuzzy_tcp_session, with a record of what went in and out. */
  class Session {
    var closed: bool
    var fd: int
    var refs: nat
    var inflight: nat
    var queue: seq<Reply>
    var queued: nat
    var readArmed: bool
    var writeArmed: bool
    var timer: bool
    var state: nat
    /** input_buf up to bytes_unprocessed. */
    var input: seq<Byte>
    ghost var destroyed: nat
    ghost var received: seq<Byte>
    ghost var frames: seq<seq<Byte>>
    ghost var bad: bool
    ghost var replies: seq<seq<Byte>>
    ghost var done: nat
    ghost var sent: seq<Byte>

    /**
     * The count of references is one for an open session and one for each live command; at none it was
     * destroyed, once.
     */
    ghost predicate Counted()
      reads `closed, `refs, `inflight, `destroyed, `queue, `queued
    {
      && refs == (if closed then 0 else 1) + inflight
      && destroyed == (if refs == 0 then 1 else 0)
      && queued == |queue|
    }

    /** A closed session has no descriptor and no watcher; an open one has both. */
    ghost predicate Guarded()
      reads `closed, `fd, `readArmed, `writeArmed, `timer
    {
      if closed then fd == -1 && !readArmed && !writeArmed && !timer else fd >= 0 && timer
    }

    /**
     * Writing is armed exactly while replies wait; reading only while the backlog has room, and
     * with no reply waiting always then.
     */
    ghost predicate Awake()
      reads `closed, `readArmed, `writeArmed, `queue, `queued, `inflight
    {
      !closed ==>
        && (writeArmed <==> queue != [])
        && (readArmed ==> inflight + queued < BACKLOG)
        && (queue == [] && !readArmed ==> inflight + queued >= BACKLOG)
    }

    /** The bytes received so far are the frames delivered and what is buffered, or broke off at a bad length. */
    ghost predicate InFrame()
      reads `state, `input, `received, `frames, `bad, `closed
    {
      && IsState(state) && |input| < BUFFER
      && (!bad ==> Follows(received, frames, state, input) && Stuck(state, input))
      && (bad ==> closed && Breaks(received, frames))
    }

    /**
     * What was written and what is queued is everything answered, in order and whole; when the
     * session is destroyed the queue goes, and what was written stays a part of it.
     */
    ghost predicate InOrder()
      reads `queue, `destroyed, `sent, `done, `replies
    {
      WellQueued(queue) && if destroyed == 0 then Whole(sent, done, queue, replies) else Part(sent, done, replies)
    }

    /** No command has more than one reply, and none while it is running. */
    ghost predicate Matched()
      reads `replies, `inflight, `frames
    {
      |replies| + inflight <= |frames|
    }

    ghost predicate Valid()
      reads this
    {
      && Counted() && Guarded() && Awake() && InFrame() && InOrder()
      && Matched() && inflight + queued <= BACKLOG - 1 + BURST
    }

    ghost function Now(): Books
      reads `frames, `replies, `inflight
    {
      Books(frames, replies, inflight)
    }

    /** accept_tcp_socket. */
    constructor (nfd: nat)
      ensures Valid() && !closed && received == [] && frames == [] && replies == [] && inflight == 0
    {
      closed, fd, refs, inflight := false, nfd, 1, 0;
      queue, queued, readArmed, writeArmed, timer := [], 0, true, false, true;
      state, input := 0, [];
      destroyed, received, frames, bad, replies, done, sent := 0, [], [], false, [], 0, [];
    }

    /** rspamd_fuzzy_tcp_update_events. */
    method UpdateEvents()
      modifies `readArmed, `writeArmed
      ensures if closed then readArmed == old(readArmed) && writeArmed == old(writeArmed)
              else readArmed == (inflight + queued < BACKLOG) && writeArmed == (queue != [])
    {
      if !closed {
        readArmed := inflight + queued < BACKLOG;
        writeArmed := queue != [];
      }
    }

    /** REF_RELEASE, and fuzzy_tcp_session_destroy when it was the last reference. */
    method Release()
      requires refs > 0 && (refs == 1 ==> closed && fd == -1 && !readArmed && !writeArmed && !timer)
      modifies `refs, `destroyed, `queue, `queued
      ensures refs == old(refs) - 1
      ensures refs == 0 ==> queue == [] && queued == 0 && destroyed == old(destroyed) + 1
      ensures refs > 0 ==> queue == old(queue) && queued == old(queued) && destroyed == old(destroyed)
    {
      refs := refs - 1;
      if refs == 0 {
        queue, queued := [], 0;
        destroyed := destroyed + 1;
      }
    }

    /** rspamd_fuzzy_tcp_session_close: once only. */
    method Close()
      requires Counted() && Guarded() && InOrder()
      modifies `closed, `fd, `readArmed, `writeArmed, `timer, `refs, `destroyed, `queue, `queued
      ensures closed && Counted() && Guarded() && InOrder() && queued <= old(queued)
    {
      if closed {
        return;
      }
      closed := true;
      readArmed, writeArmed, timer := false, false, false;
      fd := -1;
      WholeIsPart(sent, done, queue, replies);
      Release();
    }

    /** rspamd_fuzzy_tcp_enqueue_reply: a reply for a closed session is discarded. */
    method Enqueue(payload: seq<Byte>)
      requires Counted() && Guarded() && InOrder() && |payload| < 65536
      modifies `queue, `queued, `readArmed, `writeArmed, `replies
      ensures Counted() && Guarded() && InOrder()
              && (closed ==> queue == old(queue) && queued == old(queued) && replies == old(replies))
      ensures !closed ==> Awake() && queued == old(queued) + 1 && replies == old(replies) + [Framed(payload)]
    {
      if closed {
        return;
      }
      WholeMore(sent, done, queue, replies, Framed(payload));
      replies := replies + [Framed(payload)];
      queue := queue + [Reply(Framed(payload), 0)];
      queued := queued + 1;
      UpdateEvents();
    }

    /** The end of a command (fuzzy_session_destroy): reading may resume, and its reference goes. */
    method EndCommand()
      requires Counted() && Guarded() && InOrder() && inflight > 0
      modifies `inflight, `readArmed, `writeArmed, `refs, `destroyed, `queue, `queued
      ensures Counted() && Guarded() && InOrder() && Awake()
      ensures inflight == old(inflight) - 1 && (!closed ==> queue == old(queue)) && queued <= old(queued)
    {
      inflight := inflight - 1;
      UpdateEvents();
      WholeIsPart(sent, done, queue, replies);
      Release();
    }

    /** A complete frame: a command session that holds a reference, until it is answered, dropped or left running. */
    method Deliver(frame: seq<Byte>, outcome: Outcome)
      requires Counted() && Guarded() && InOrder() && !closed && (outcome.Answered? ==> |outcome.reply| < 65536)
      modifies `inflight, `readArmed, `writeArmed, `refs, `destroyed, `queue, `queued, `replies, `frames
      ensures Counted() && Guarded() && InOrder()
      ensures inflight + queued <= old(inflight + queued) + 1
      ensures frames == old(frames) + [frame] && (old(Matched()) ==> Matched())
      ensures replies == old(replies) + AnswerTo(outcome)
      ensures inflight == old(inflight) + if outcome.Deferred? then 1 else 0
    {
      frames := frames + [frame];
      refs := refs + 1;
      inflight := inflight + 1;
      if outcome.Answered? {
        Enqueue(outcome.reply);
      }
      if !outcome.Deferred? {
        EndCommand();
      }
    }

    /** Everything received was delivered or is still ahead in rest. */
    ghost predicate Ahead(rest: seq<Byte>)
      reads `state, `received, `frames
    {
      Follows(received, frames, state, rest)
    }

    /** The length bytes that are missing: whether the length is now known, or bad. */
    method TakeLength(off0: nat) returns (off: nat, known: bool, wrong: bool)
      requires off0 < |input| && Ahead(input[off0..])
      modifies `state
      ensures off0 <= off <= |input|
      ensures !wrong ==> Ahead(input[off..])
      ensures known ==> !wrong && state > 0xC000
      ensures !known && !wrong ==> off == |input| && state < 0xC000
      ensures wrong ==> IsState(state) && Breaks(received, frames)
    {
      off, known, wrong := off0, true, false;
      if state / 0x4000 == 0 {
        ByteTaken(received, frames, input[off..], input[off + 1..]);
        state := OneTaken(input[off]);
        off := off + 1;
      }
      if state / 0x4000 == 2 {
        if off == |input| {
          return off, false, false;
        }
        wrong := TakeSecond(off);
        known := !wrong;
        off := if wrong then off else off + 1;
      }
    }

    /** The second length byte. */
    method TakeSecond(off: nat) returns (wrong: bool)
      requires off < |input| && Ahead(input[off..]) && 0x8000 <= state < 0x8100
      modifies `state
      ensures !wrong ==> state > 0xC000 && Ahead(input[off + 1..])
      ensures wrong ==> IsState(state) && Breaks(received, frames)
    {
      var len := WholeLength(state, input[off]);
      LengthTaken(received, frames, state, input[off..], input[off + 1..], len);
      wrong := len == 0 || len > BUFFER;
      if !wrong {
        state := 0xC000 + len;
      }
    }

    /** The books are right and the session is open. */
    ghost predicate Open()
      reads `closed, `refs, `inflight, `destroyed, `queue, `queued, `fd, `readArmed, `writeArmed, `timer, `sent, `done,
          `replies
    {
      Counted() && Guarded() && InOrder() && !closed
    }

    /** The frame at off is complete: deliver it, and the state is back at the start. */
    method TakeFrame(off: nat, len: nat, outcome: Outcome)
      requires off + len <= |input| && Ahead(input[off..]) && state == 0xC000 + len && len > 0 && Open()
               && (outcome.Answered? ==> |outcome.reply| < 65536)
      modifies `state, `inflight, `readArmed, `writeArmed, `refs, `destroyed, `queue, `queued, `replies, `frames
      ensures Ahead(input[off + len..])
      ensures Open() && inflight + queued <= old(inflight + queued) + 1
      ensures frames == old(frames) + [input[off..off + len]] && (old(Matched()) ==> Matched())
      ensures replies == old(replies) + AnswerTo(outcome)
      ensures inflight == old(inflight) + if outcome.Deferred? then 1 else 0
    {
      FrameTaken(received, frames, state, input[off..], input[off..off + len], input[off + len..]);
      state := 0;
      Deliver(input[off..off + len], outcome);
    }

    /** What the loop over the frames keeps. */
    ghost predicate Looping(off: nat, load: int, before: seq<seq<Byte>>)
      reads this
    {
      && off <= |input| && Taking(load, before) && Ahead(input[off..])
    }

    /** The loop ended at a bad length. */
    ghost predicate Broken(load: int, before: seq<seq<Byte>>)
      reads this
    {
      Taking(load, before) && IsState(state) && Breaks(received, frames)
    }

    /** The books while frames are taken. */
    ghost predicate Taking(load: int, before: seq<seq<Byte>>)
      reads `closed, `refs, `inflight, `destroyed, `queue, `queued, `fd, `readArmed, `writeArmed, `timer, `sent, `done,
          `replies,
            `frames
    {
      Open() && Matched() && before <= frames && inflight + queued <= load + |frames|
    }

    /** The frame, if all of it is there. */
    method FrameIfThere(off0: nat, outcome: Outcome, ghost load: int, ghost before: seq<seq<Byte>>)
      returns (off: nat, more: bool)
      requires Taking(load, before) && off0 <= |input| && Ahead(input[off0..]) && state > 0xC000
      requires outcome.Answered? ==> |outcome.reply| < 65536
      modifies `state, `inflight, `readArmed, `writeArmed, `refs, `destroyed, `queue, `queued, `replies, `frames
      ensures Taking(load, before) && off0 <= off <= |input| && Ahead(input[off..])
      ensures if more then off0 < off else Stuck(state, input[off..])
      ensures Delivered(old(Now()), Now(), outcome, more)
    {
      var len: nat := state - 0xC000;
      off, more := off0, false;
      if |input| - off >= len {
        TakeFrame(off, len, outcome);
        off, more := off + len, true;
      }
    }

    /** One turn of the loop: the length, then the frame if all of it is there. */
    method NextFrame(off0: nat, outcome: Outcome, ghost load: int, ghost before: seq<seq<Byte>>)
      returns (off: nat, more: bool, wrong: bool)
      requires Looping(off0, load, before) && off0 < |input| && (outcome.Answered? ==> |outcome.reply| < 65536)
      modifies `state, `inflight, `readArmed, `writeArmed, `refs, `destroyed, `queue, `queued, `replies, `frames
      ensures !wrong ==> Looping(off, load, before) && off0 <= off
      ensures more ==> !wrong && off0 < off
      ensures Delivered(old(Now()), Now(), outcome, more)
      ensures !more && !wrong ==> Stuck(state, input[off..])
      ensures wrong ==> Broken(load, before)
    {
      var known;
      off, known, wrong := TakeLength(off0);
      more := false;
      if known {
        off, more := FrameIfThere(off, outcome, load, before);
      }
    }

    /** And its outcome is the next one. */
    method NextAnswered(off0: nat, outcomes: nat -> Outcome, count: nat, ghost was: Books, ghost load: int,
        ghost before: seq<seq<Byte>>)
      returns (off: nat, more: bool, wrong: bool)
      requires Looping(off0, load, before) && off0 < |input| && Safe(outcomes)
      requires Answers(outcomes, was, Now()) && |frames| == |was.frames| + count
      modifies `state, `inflight, `readArmed, `writeArmed, `refs, `destroyed, `queue, `queued, `replies, `frames
      ensures !wrong ==> Looping(off, load, before) && off0 <= off
      ensures more ==> !wrong && off0 < off && |frames| == |was.frames| + count + 1
      ensures !more && !wrong ==> Stuck(state, input[off..])
      ensures wrong ==> Broken(load, before)
      ensures Answers(outcomes, was, Now())
    {
      ghost var now := Now();
      off, more, wrong := NextFrame(off0, outcomes(count), load, before);
      AnswersOne(outcomes, was, now, count, Now(), more);
    }

    /** The loop over the frames in the buffer: how far it got, and whether it met a bad length. */
    method TakeFrames(outcomes: nat -> Outcome, ghost was: Books, ghost load: int, ghost before: seq<seq<Byte>>)
      returns (off: nat, wrong: bool)
      requires Looping(0, load, before) && Safe(outcomes) && was == Now()
      modifies `state, `inflight, `readArmed, `writeArmed, `refs, `destroyed, `queue, `queued, `replies, `frames
      ensures !wrong ==> Looping(off, load, before) && Stuck(state, input[off..])
      ensures wrong ==> Broken(load, before)
      ensures Answers(outcomes, was, Now())
    {
      off, wrong := 0, false;
      var count, more := 0, true;
      AnswersNone(outcomes, was);
      while off < |input| && more && !wrong
        invariant !wrong ==> Looping(off, load, before)
        invariant Answers(outcomes, was, Now()) && (more && !wrong ==> |frames| == |was.frames| + count)
        invariant !more && !wrong ==> Stuck(state, input[off..])
        invariant wrong ==> Broken(load, before)
        decreases if more && !wrong then 1 + |input| - off else 0
      {
        off, more, wrong := NextAnswered(off, outcomes, count, was, load, before);
        count := count + 1;
      }
    }

    /** Nothing of the buffer was taken yet. */
    ghost predicate Untaken(load: int)
      reads this
    {
      && Looping(0, load, frames) && !bad && |input| <= BUFFER && load + |frames| <= BACKLOG - 1
      && received == Stream(frames) + (Taken(state) + input)
    }

    /** The bytes that arrived, behind those already there. */
    method Receive(data: seq<Byte>)
      requires Valid() && !closed && readArmed && 0 < |data| <= BUFFER - |input|
      modifies `received, `input
      ensures received == old(received) + data && Untaken(inflight + queued - |frames|)
    {
      Arrived(received, data, frames, state, input);
      received := received + data;
      input := input + data;
      assert input[0..] == input;
    }

    /** A bad length ends the session. */
    method BreakOff(ghost load: int, ghost before: seq<seq<Byte>>)
      requires Broken(load, before) && load + |frames| <= BACKLOG - 1 + BURST
      modifies `input, `bad, `closed, `fd, `readArmed, `writeArmed, `timer, `refs, `destroyed, `queue, `queued
      ensures Valid() && closed && bad
    {
      bad, input := true, [];
      Close();
    }

    /** What was used goes from the buffer, and reading stops if the backlog is full. */
    method KeepRest(off: nat, ghost load: int, ghost before: seq<seq<Byte>>)
      requires Looping(off, load, before) && Stuck(state, input[off..]) && !bad
               && load + |frames| <= BACKLOG - 1 + BURST
      modifies `input, `readArmed, `writeArmed
      ensures Valid() && !closed
    {
      input := input[off..];
      UpdateEvents();
    }

    /** All frames in the buffer are delivered, no more than a bufferful holds. */
    method DeliverAll(outcomes: nat -> Outcome, ghost was: Books, ghost load: int, ghost before: seq<seq<Byte>>)
      returns (off: nat, wrong: bool)
      requires Untaken(load) && Safe(outcomes) && before == frames && was == Now()
      modifies `state, `inflight, `readArmed, `writeArmed, `refs, `destroyed, `queue, `queued, `replies, `frames
      ensures load + |frames| <= BACKLOG - 1 + BURST && Answers(outcomes, was, Now())
      ensures !wrong ==> Looping(off, load, before) && Stuck(state, input[off..])
      ensures wrong ==> Broken(load, before)
    {
      ghost var pending := Taken(state) + input;
      off, wrong := TakeFrames(outcomes, was, load, before);
      BurstBound(received, before, frames, pending, wrong, state, if wrong then [] else input[off..]);
    }

    /** The end of a read: a bad length ends the session, otherwise what is left is kept. */
    method Settle(off: nat, wrong: bool, ghost load: int, ghost before: seq<seq<Byte>>)
      requires !bad && load + |frames| <= BACKLOG - 1 + BURST
      requires if wrong then Broken(load, before) else Looping(off, load, before) && Stuck(state, input[off..])
      modifies `input, `bad, `closed, `fd, `readArmed, `writeArmed, `timer, `refs, `destroyed, `queue, `queued
      ensures Valid() && (closed ==> bad) && Now() == old(Now())
    {
      if wrong {
        BreakOff(load, before);
      } else {
        KeepRest(off, load, before);
      }
    }

    /** The frames in the buffer are delivered, and the read is at its end. */
    method Process(outcomes: nat -> Outcome, ghost was: Books, ghost load: int)
      requires Untaken(load) && Safe(outcomes) && was == Now()
      modifies `input, `state, `inflight, `readArmed, `writeArmed, `refs, `destroyed, `queue, `queued,
               `replies, `frames, `bad, `closed, `fd, `timer
      ensures Valid() && (closed ==> bad) && Answers(outcomes, was, Now())
    {
      ghost var before := frames;
      var off, wrong := DeliverAll(outcomes, was, load, before);
      Settle(off, wrong, load, before);
    }

    /** A successful read: all frames it completes are delivered. */
    method Absorb(data: seq<Byte>, outcomes: nat -> Outcome)
      requires Valid() && !closed && readArmed && 0 < |data| <= BUFFER - |input|
      requires Safe(outcomes)
      modifies `received, `input, `state, `inflight, `readArmed, `writeArmed, `refs, `destroyed, `queue, `queued,
               `replies, `frames, `bad, `closed, `fd, `timer
      ensures Valid() && received == old(received) + data && (closed ==> bad) && Answers(outcomes, old(Now()), Now())
    {
      Receive(data);
      Process(outcomes, Now(), inflight + queued - |frames|);
    }

    /** The session ends, whatever is in the buffer. */
    method HangUp()
      requires Valid()
      modifies `closed, `fd, `readArmed, `writeArmed, `timer, `refs, `destroyed, `queue, `queued
      ensures Valid() && closed
    {
      Close();
    }

    /** Reading: whether the handler goes on to writing. */
    method OnRead(result: ReadResult, outcomes: nat -> Outcome) returns (goOn: bool)
      requires Valid() && !closed && readArmed && Safe(outcomes)
      requires result.Got? ==> 0 < |result.data| <= BUFFER - |input|
      modifies `received, `input, `state, `inflight, `readArmed, `writeArmed, `refs, `destroyed, `queue, `queued,
               `replies, `frames, `bad, `closed, `fd, `timer
      ensures Valid() && (goOn <==> result.Got? && !closed)
      ensures ReadDone(outcomes, result, old(Seen()), Seen())
    {
      goOn := false;
      AnswersNone(outcomes, Now());
      match result {
        case ReadAgain =>
        case Got(data) =>
          Absorb(data, outcomes);
          goOn := !closed;
        case _ =>
          HangUp();
      }
    }

    /** So much of the first reply was written. */
    method Advance(n: nat) returns (finished: bool)
      requires Open() && queue != [] && n <= |queue[0].bytes| - queue[0].written
      modifies `queue, `queued, `done, `sent
      ensures Open() && queued <= old(queued)
      ensures finished == Last(old(queue)[0], Took(n))
      ensures if finished then queue == old(queue)[1..] else queue != []
      ensures sent == old(sent) + Given(old(queue)[0], Took(n))
    {
      var head := queue[0];
      WrotePart(sent, done, queue, replies, n);
      sent := sent + head.bytes[head.written..head.written + n];
      finished := head.written + n >= |head.bytes|;
      if finished {
        queue, queued := queue[1..], queued - 1;
        done := done + 1;
      } else {
        queue := queue[0 := Reply(head.bytes, head.written + n)];
      }
    }

    /**
     * rspamd_fuzzy_tcp_write_reply: what the descriptor takes of the first reply; it goes when all of it
     * is written.
     */
    method WriteReply(result: WriteResult) returns (finished: bool, fatal: bool)
      requires Open() && queue != [] && (result.Took? ==> result.n <= |queue[0].bytes| - queue[0].written)
      modifies `queue, `queued, `done, `sent
      ensures Open() && queued <= old(queued) && (!finished ==> queue != [])
      ensures finished ==> queue == old(queue)[1..]
      ensures finished <==> result.Took? && Last(old(queue)[0], result)
      ensures fatal <==> result.WriteError?
      ensures sent == old(sent) + Given(old(queue)[0], result)
    {
      finished, fatal := false, false;
      match result {
        case WriteAgain =>
        case WriteError =>
          fatal := true;
        case Took(n) =>
          finished := Advance(n);
      }
    }

    /** The write loop: until the queue is empty, the descriptor takes no more, or fails. */
    method WriteReplies(results: seq<WriteResult>) returns (emptied: bool, fatal: bool)
      requires Open()
      modifies `queue, `queued, `done, `sent
      ensures Open() && queued <= old(queued) && (emptied <==> queue == [])
      ensures fatal ==> !emptied
      ensures sent == old(sent) + Takes(old(queue), results) && fatal == Fails(old(queue), results)
    {
      emptied, fatal := false, false;
      var k := 0;
      while queue != [] && k < |results| && Applies(results[k])
        invariant Open() && queued <= old(queued) && k <= |results| && !fatal
        invariant sent + Takes(queue, results[k..]) == old(sent) + Takes(old(queue), results)
        invariant Fails(queue, results[k..]) == Fails(old(queue), results)
        decreases |queue|
      {
        var finished;
        ghost var was, before := queue, sent;
        finished, fatal := WriteReply(results[k]);
        if finished {
          TakesWhole(was, results[k..], before);
        } else {
          TakesPart(was, results[k..]);
        }
        if !finished {
          return false, fatal;
        }
        k := k + 1;
      }
      emptied := queue == [];
    }

    /** A write takes at most what is left of the first reply. */
    predicate Applies(result: WriteResult)
      reads `queue
    {
      result.Took? ==>
          queue != [] && queue[0].written <= |queue[0].bytes| && result.n <= |queue[0].bytes| - queue[0].written
    }

    /** Writing: replies go out while the descriptor takes them. */
    method OnWrite(results: seq<WriteResult>)
      requires Valid() && !closed
      modifies `queue, `queued, `done, `sent, `closed, `fd, `readArmed, `writeArmed, `timer, `refs, `destroyed
      ensures Valid() && sent == old(sent) + Takes(old(queue), results) && closed == Fails(old(queue), results)
    {
      var emptied, fatal := WriteReplies(results);
      AfterWriting(emptied, fatal);
    }

    /** A failed write ends the session; an empty queue stops writing. */
    method AfterWriting(emptied: bool, fatal: bool)
      requires Open() && InFrame() && Matched() && inflight + queued <= BACKLOG - 1 + BURST
      requires (emptied <==> queue == []) && (!emptied ==> writeArmed && (readArmed ==> inflight + queued < BACKLOG))
      modifies `closed, `fd, `readArmed, `writeArmed, `timer, `refs, `destroyed, `queue, `queued
      ensures Valid() && fatal == closed
    {
      if fatal {
        Close();
      } else if emptied {
        UpdateEvents();
      }
    }

    /** Writing, if it is its turn. */
    method WriteIfAsked(write: Option<seq<WriteResult>>)
      requires Valid() && !closed
      modifies `queue, `queued, `done, `sent, `closed, `fd, `readArmed, `writeArmed, `timer, `refs, `destroyed
      ensures Valid() && WriteDone(write, old(queue), old(Seen()), Seen())
    {
      if write.Some? {
        OnWrite(write.value);
      }
    }

    /** Reading, and writing unless that was in vain or ended the session. */
    method ReadAndWrite(read: ReadResult, write: Option<seq<WriteResult>>, outcomes: nat -> Outcome)
      returns (ghost mid: View, ghost ready: seq<Reply>)
      requires Valid() && !closed && Safe(outcomes) && readArmed
      requires read.Got? ==> 0 < |read.data| <= BUFFER - |input|
      modifies this
      ensures Valid() && ReadDone(outcomes, read, old(Seen()), mid)
      ensures if read.Got? && !mid.closed then WriteDone(write, ready, mid, Seen()) else Seen() == mid
    {
      var goOn := OnRead(read, outcomes);
      mid, ready := Seen(), queue;
      if goOn {
        WriteIfAsked(write);
      }
    }

    /** rspamd_fuzzy_tcp_io: reading first, if there is something to read. */
    method OnIo(read: Option<ReadResult>, write: Option<seq<WriteResult>>, outcomes: nat -> Outcome)
      requires Valid() && Safe(outcomes) && Possible(Seen(), Io(read, write))
      modifies this
      ensures Valid() && Happens(outcomes, Io(read, write), old(Seen()), Seen())
      ensures read.None? ==> WriteDone(write, old(queue), old(Seen()), Seen())
    {
      if read.Some? {
        ghost var mid, ready := ReadAndWrite(read.value, write, outcomes);
        if read.value.Got? && !mid.closed {
          WriteGrows(write, ready, mid, Seen());
        }
        ReadHappens(outcomes, read.value, write, old(Seen()), mid, Seen());
      } else {
        WriteIfAsked(write);
        WriteHappens(outcomes, write, old(queue), old(Seen()), Seen());
      }
    }

    /** rspamd_fuzzy_tcp_timeout. */
    method OnTimeout()
      requires Valid() && timer
      modifies `closed, `fd, `readArmed, `writeArmed, `timer, `refs, `destroyed, `queue, `queued
      ensures Valid() && closed
    {
      HangUp();
    }

    /** A command that was left running ends, with a reply or without. */
    method OnComplete(reply: Option<seq<Byte>>)
      requires Valid() && inflight > 0 && (reply.Some? ==> |reply.value| < 65536)
      modifies `inflight, `readArmed, `writeArmed, `refs, `destroyed, `queue, `queued, `replies
      ensures Valid() && inflight == old(inflight) - 1
      ensures replies == old(replies) + if reply.Some? && !closed then [Framed(reply.value)] else []
    {
      if reply.Some? {
        Enqueue(reply.value);
      }
      EndCommand();
    }

    predicate Enabled(e: Event)
      reads this
      ensures Enabled(e) <==> Possible(Seen(), e)
    {
      match e
      case Io(read, write) =>
        && !closed && (read.Some? || write.Some?)
        && (read.Some? ==> readArmed) && (write.Some? ==> writeArmed)
        && (read.Some? && read.value.Got? ==> |input| < BUFFER && 0 < |read.value.data| <= BUFFER - |input|)
      case Timeout => timer
      case Complete(reply) => inflight > 0 && (reply.Some? ==> |reply.value| < 65536)
    }

    ghost function Seen(): View
      reads this
    {
      View(closed, readArmed, writeArmed, timer, |input|, Now(), received, sent)
    }

    /** Any order of events: those that cannot happen at their turn are passed over. */
    method Run(events: seq<Event>, outcomes: nat -> nat -> Outcome) returns (ghost views: seq<View>)
      requires Valid() && forall i :: Safe(outcomes(i))
      modifies this
      ensures Valid() && Ran(events, outcomes, views) && views[0] == old(Seen()) && views[|events|] == Seen()
      ensures old(received) <= received && (old(closed) ==> closed && received == old(received))
      ensures old(destroyed) <= destroyed <= 1
    {
      views := [Seen()];
      for i := 0 to |events|
        invariant Valid() && old(received) <= received && (old(closed) ==> closed && received == old(received))
        invariant old(destroyed) <= destroyed
        invariant Ran(events[..i], outcomes, views) && views[0] == old(Seen()) && views[i] == Seen()
      {
        if Enabled(events[i]) {
          Handle(events[i], outcomes(i));
        }
        RanMore(events[..i], outcomes, views, events[i], Seen());
        assert events[..i] + [events[i]] == events[..i + 1];
        views := views + [Seen()];
      }
      assert events[..|events|] == events;
    }

    /** One event. */
    method Handle(e: Event, outcomes: nat -> Outcome)
      requires Valid() && Enabled(e) && Safe(outcomes)
      modifies this
      ensures Valid() && old(received) <= received && (old(closed) ==> closed && received == old(received))
      ensures old(destroyed) <= destroyed && Happens(outcomes, e, old(Seen()), Seen())
    {
      match e {
        case Io(read, write) => OnIo(read, write, outcomes);
        case Timeout => OnTimeout();
        case Complete(reply) => OnComplete(reply);
      }
    }
  }

  /** One reply written whole, and the rest. */
  lemma TakesWhole(queue: seq<Reply>, results: seq<WriteResult>, sent: seq<Byte>)
    requires queue != [] && results != [] && Fits(queue[0], results[0]) && Last(queue[0], results[0])
    ensures Fails(queue, results) == Fails(queue[1..], results[1..])
    ensures sent + Given(queue[0], results[0]) + Takes(queue[1..], results[1..]) == sent + Takes(queue, results)
  {
    var x, y := Given(queue[0], results[0]), Takes(queue[1..], results[1..]);
    assert sent + x + y == sent + (x + y);
  }

  /** Otherwise that is all. */
  lemma TakesPart(queue: seq<Reply>, results: seq<WriteResult>)
    requires queue != [] && results != [] && !(Fits(queue[0], results[0]) && Last(queue[0], results[0]))
    ensures Takes(queue, results) == Given(queue[0], results[0]) && Fails(queue, results) == results[0].WriteError?
  {
  }

  /** One read cannot complete more frames than fit in a bufferful. */
  lemma BurstBound(received: seq<Byte>, before: seq<seq<Byte>>, frames: seq<seq<Byte>>, pending: seq<Byte>, wrong: bool,
      state: nat, rest: seq<Byte>)
    requires Sized(before) && received == Stream(before) + pending && |pending| <= BUFFER + 2 && before <= frames
    requires if wrong then Breaks(received, frames) else Follows(received, frames, state, rest)
    ensures |frames| - |before| <= BURST
  {
    StreamGrows(before, frames);
  }

  /** Bytes taken from the first reply are the next bytes of the replies. */
  lemma WrotePart(sent: seq<Byte>, done: nat, queue: seq<Reply>, replies: seq<seq<Byte>>, n: nat)
    requires WellQueued(queue) && Whole(sent, done, queue, replies) && queue != []
             && n <= |queue[0].bytes| - queue[0].written
    ensures var head := queue[0];
            var sent' := sent + head.bytes[head.written..head.written + n];
            var left := queue[0 := Reply(head.bytes, head.written + n)];
            if head.written + n == |head.bytes|
            then WellQueued(queue[1..]) && Whole(sent', done + 1, queue[1..], replies)
            else WellQueued(left) && Whole(sent', done, left, replies)
  {
    var head := queue[0];
    var part := head.bytes[head.written..head.written + n];
    assert head.bytes[..head.written] + part == head.bytes[..head.written + n];
    assert Joined(replies[..done]) + head.bytes[..head.written] + part
        == Joined(replies[..done]) + head.bytes[..head.written + n];
    if head.written + n == |head.bytes| {
      assert head.bytes[..head.written + n] == head.bytes;
      assert replies[..done + 1][..done] == replies[..done];
      assert Joined(replies[..done + 1]) == Joined(replies[..done]) + head.bytes;
    }
  }

  // ---- What holds after every run --------------------------------------------------------------------------

  /** The frames delivered, and whether the session broke off, are what taking all bytes apart at once gives. */
  lemma FramesAreParsed(s: Session)
    requires s.Valid()
    ensures Parse(s.received).frames == s.frames && Parse(s.received).bad == s.bad
    ensures !s.bad ==> Parse(s.received).rest == Taken(s.state) + s.input
  {
    if s.bad {
      BrokenParsed(s.received, s.frames);
    } else {
      WaitingParsed(s.received, s.frames, s.state, s.input);
    }
  }

  /** However the stream was cut into reads, the same bytes give the same frames and the same verdict. */
  lemma CuttingDoesNotMatter(a: Session, b: Session)
    requires a.Valid() && b.Valid() && a.received == b.received
    ensures a.frames == b.frames && a.bad == b.bad
  {
    FramesAreParsed(a);
    FramesAreParsed(b);
  }

  /** Bytes read later only add frames. */
  lemma MoreBytesMoreFrames(a: Session, b: Session)
    requires a.Valid() && b.Valid() && a.received <= b.received
    ensures a.frames <= b.frames && (a.bad ==> b.bad && b.frames == a.frames)
  {
    FramesAreParsed(a);
    FramesAreParsed(b);
    var more := b.received[|a.received|..];
    ParseMore(a.received, more, b.received);
  }

  /** In every run, what was written is a prefix of the replies, one at most for each frame. */
  lemma WrittenInOrder(s: Session)
    requires s.Valid()
    ensures s.sent <= Joined(s.replies) && |s.replies| <= |s.frames|
  {
    if s.destroyed == 0 {
      WholeIsPart(s.sent, s.done, s.queue, s.replies);
    }
    PartOfJoined(s.sent, s.done, s.replies);
  }

  /** An open session that waits for nothing has commands running that will wake it. */
  lemma NoLostWakeup(s: Session)
    requires s.Valid() && !s.closed && !s.readArmed && !s.writeArmed
    ensures s.inflight >= BACKLOG && s.queue == []
  {
  }

  /** Destroyed exactly when closed and no command is left, and then without descriptor or watcher. */
  lemma DestroyedLast(s: Session)
    requires s.Valid()
    ensures s.destroyed <= 1 && (s.destroyed == 1 <==> s.closed && s.inflight == 0)
    ensures s.destroyed == 1 ==> s.fd == -1 && !s.readArmed && !s.writeArmed && !s.timer
  {
  }
}
