/** The command channel from OUT packets to responses: the OUT callback and the dispatch thread, one
    shared access at a time, in any interleaving. */
module CtrlLink {
  import opened FrameProto
  import opened Ring
  import opened CtrlRing
  import opened FrameParser
  import opened FrameDecoder
  import opened FrameDispatch

  /** Where the callback is. `i` is the byte of the packet it is working on. */
  datatype IsrPc =
    | IsrIdle
    | Checking(i: nat)      // compares the next head with the tail
    | Storing(i: nat)       // about to write the slot
    | Publishing(i: nat)    // about to advance the head
    | Dropping(i: nat)      // about to count a drop
    | Releasing(i: nat)     // about to release the semaphore

  /** Where the dispatch thread is. */
  datatype ThreadPc =
    | Waiting               // in rt_sem_take, which a timeout also ends
    | Testing               // compares tail and head
    | Reading               // about to read the slot
    | Advancing(b: byte)    // about to advance the tail
    | Judging(b: byte)      // feeds the parser and sends the response, if any

  /** The shared variables, both program counters, the bytes the parser holds and, for the statement of
      what the link has done, the history of everything that went through it. */
  datatype Link = Link(
    buf: seq<byte>, head: nat, tail: nat, dropped: nat, sem: nat,
    isr: IsrPc, packet: seq<byte>,
    thread: ThreadPc, pending: seq<byte>,
    arrived: seq<byte>,     // all bytes of all OUT packets
    accepted: seq<byte>,    // the bytes published in the ring
    consumed: seq<byte>,    // the bytes taken from the ring
    sent: seq<Reply>,       // the replies whose frames were passed to usb_if_ctrl_send
    base: seq<byte>,        // `accepted` when the current put began
    drops: nat)             // `dropped` when the current put began

  ghost predicate Init(s: Link) {
    && |s.buf| == RX_RING_SIZE && s.head == 0 && s.tail == 0 && s.dropped == 0
    && s.isr == IsrIdle && s.thread == Waiting && s.pending == []
    && s.arrived == [] && s.accepted == [] && s.consumed == [] && s.sent == []
  }

  predicate InRange(s: Link) {
    |s.buf| == RX_RING_SIZE && s.head < RX_RING_SIZE && s.tail < RX_RING_SIZE && IsPending(s.pending)
  }

  /** An OUT packet; an empty one only re-arms the endpoint. */
  function Deliver(s: Link, data: seq<byte>): Link {
    s.(packet := data, arrived := s.arrived + data, base := s.accepted, drops := s.dropped,
       isr := if data == [] then IsrIdle else Checking(0))
  }

  function IsrStep(s: Link): Link
    requires InRange(s)
  {
    match s.isr
    case IsrIdle => s
    case Checking(i) =>
      if i >= |s.packet| then s.(isr := Releasing(i))
      else if Succ(s.head, RX_RING_SIZE) == s.tail then s.(isr := Dropping(i))
      else s.(isr := Storing(i))
    case Storing(i) =>
      if i < |s.packet| then s.(buf := s.buf[s.head := s.packet[i]], isr := Publishing(i)) else s
    case Publishing(i) =>
      if i < |s.packet| then
        s.(head := Succ(s.head, RX_RING_SIZE), accepted := s.accepted + [s.packet[i]], isr := Checking(i + 1))
      else s
    case Dropping(i) => s.(dropped := s.dropped + 1, isr := Releasing(i))
    case Releasing(_) => s.(sem := s.sem + 1, isr := IsrIdle)
  }

  function ThreadStep(s: Link): Link
    requires InRange(s)
  {
    match s.thread
    case Waiting => s.(thread := Testing, sem := if s.sem > 0 then s.sem - 1 else 0)
    case Testing => s.(thread := if s.tail == s.head then Waiting else Reading)
    case Reading => s.(thread := Advancing(s.buf[s.tail]))
    case Advancing(b) =>
      s.(tail := Succ(s.tail, RX_RING_SIZE), consumed := s.consumed + [b], thread := Judging(b))
    case Judging(b) =>
      var step := Next(s.pending, b);
      s.(pending := step.0, thread := Testing,
         sent := if step.1 == Nothing then s.sent else s.sent + [Answer(step.1)])
  }

  /** A packet may arrive only when the callback is not running. */
  ghost predicate Step(s: Link, t: Link) {
    && InRange(s)
    && (|| (s.isr == IsrIdle && exists data: seq<byte> :: t == Deliver(s, data))
        || (s.isr != IsrIdle && t == IsrStep(s))
        || t == ThreadStep(s))
  }

  ghost predicate IsRun(run: seq<Link>) {
    && |run| > 0 && Init(run[0])
    && forall i | 0 <= i < |run| - 1 :: Step(run[i], run[i + 1])
  }

  // ---------------------------------------------------------------- the invariant

  /** The bytes the parser has been fed: all that were taken, but for the one in hand. */
  function Fed(s: Link): seq<byte> {
    if s.thread.Judging? && s.consumed != [] then s.consumed[..|s.consumed| - 1] else s.consumed
  }

  /** The bytes of the current packet that are not yet in the ring. */
  function Unput(s: Link): seq<byte> {
    match s.isr
    case IsrIdle => []
    case Releasing(_) => []
    case Checking(i) => if i <= |s.packet| then s.packet[i..] else []
    case Storing(i) => if i <= |s.packet| then s.packet[i..] else []
    case Publishing(i) => if i <= |s.packet| then s.packet[i..] else []
    case Dropping(i) => if i <= |s.packet| then s.packet[i..] else []
  }

  ghost predicate QueueInv(s: Link) {
    && InRange(s)
    && s.accepted == s.consumed + Span(s.buf, s.tail, s.head)
  }

  /** Each put stores a prefix of its packet and counts one drop exactly when the prefix is short. */
  ghost predicate PutInv(s: Link) {
    && InRange(s)
    && (s.dropped == 0 && !s.isr.Dropping? ==> s.arrived == s.accepted + Unput(s))
    && match s.isr
       case IsrIdle => true
       case Checking(i) => i <= |s.packet| && s.accepted == s.base + s.packet[..i] && s.dropped == s.drops
       case Storing(i) =>
         && i < |s.packet| && s.accepted == s.base + s.packet[..i] && s.dropped == s.drops
         && Succ(s.head, RX_RING_SIZE) != s.tail
       case Publishing(i) =>
         && i < |s.packet| && s.accepted == s.base + s.packet[..i] && s.dropped == s.drops
         && Succ(s.head, RX_RING_SIZE) != s.tail && s.buf[s.head] == s.packet[i]
       case Dropping(i) => i < |s.packet| && s.accepted == s.base + s.packet[..i] && s.dropped == s.drops
       case Releasing(i) =>
         && i <= |s.packet| && s.accepted == s.base + s.packet[..i]
         && s.dropped == s.drops + if i < |s.packet| then 1 else 0
  }

  /** The slot the thread is about to take is still in the ring, unchanged. */
  ghost predicate TakeInv(s: Link) {
    && InRange(s)
    && (s.thread.Reading? || s.thread.Advancing? ==> s.tail != s.head)
    && (s.thread.Advancing? ==> s.thread.b == s.buf[s.tail])
    && (s.thread.Judging? ==> s.consumed != [] && s.consumed[|s.consumed| - 1] == s.thread.b)
  }

  ghost predicate ReplyInv(s: Link) {
    && s.pending == Held([], Fed(s))
    && var reports := Reports([], Fed(s), 0);
       AllProper(reports) && s.sent == Replies(reports)
  }

  ghost predicate Inv(s: Link) {
    QueueInv(s) && PutInv(s) && TakeInv(s) && ReplyInv(s)
  }

  lemma InitInv(s: Link)
    requires Init(s)
    ensures Inv(s)
  {
  }

  lemma DeliverInv(s: Link, data: seq<byte>)
    requires Inv(s) && s.isr == IsrIdle
    ensures Inv(Deliver(s, data))
  {
    hide Held, Reports, Next, IsPending, Answer;
    assert data[..0] == [] && data[0..] == data;
  }

  lemma StoreInv(s: Link)
    requires Inv(s) && s.isr.Storing?
    ensures QueueInv(IsrStep(s)) && PutInv(IsrStep(s)) && TakeInv(IsrStep(s))
  {
    hide ReplyInv, IsPending, Span, Succ;
    SpanPush(s.buf, s.tail, s.head, s.packet[s.isr.i]);
  }

  lemma PublishInv(s: Link)
    requires Inv(s) && s.isr.Publishing?
    ensures QueueInv(IsrStep(s)) && PutInv(IsrStep(s)) && TakeInv(IsrStep(s))
  {
    hide ReplyInv, IsPending, Span, Succ;
    var x := s.packet[s.isr.i];
    SpanPush(s.buf, s.tail, s.head, x);
    assert s.buf[s.head := x] == s.buf;
    assert s.packet[..s.isr.i + 1] == s.packet[..s.isr.i] + [x];
    assert s.packet[s.isr.i..] == [x] + s.packet[s.isr.i + 1..];
  }

  lemma ControlInv(s: Link)
    requires Inv(s) && (s.isr.Checking? || s.isr.Dropping? || s.isr.Releasing?)
    ensures QueueInv(IsrStep(s)) && PutInv(IsrStep(s)) && TakeInv(IsrStep(s))
  {
    hide ReplyInv, IsPending, Span, Succ;
    assert s.packet[..|s.packet|] == s.packet;
  }

  lemma IsrKeepsReplies(s: Link)
    requires Inv(s)
    ensures ReplyInv(IsrStep(s))
  {
    hide Held, Reports, IsPending, Replies, AllProper, Span, Succ, PutInv;
  }

  lemma IsrStepInv(s: Link)
    requires Inv(s) && s.isr != IsrIdle
    ensures Inv(IsrStep(s))
  {
    assert InRange(s);
    hide QueueInv, PutInv, TakeInv, ReplyInv, IsrStep, InRange;
    IsrKeepsReplies(s);
    if s.isr.Storing? {
      StoreInv(s);
    } else if s.isr.Publishing? {
      PublishInv(s);
    } else {
      ControlInv(s);
    }
  }

  lemma TakeStepInv(s: Link)
    requires Inv(s) && !s.thread.Judging?
    ensures Inv(ThreadStep(s))
  {
    hide Held, Reports, Next, IsPending, Answer, Replies, AllProper, Span;
    SuccIs(s.tail, RX_RING_SIZE);
    if s.thread.Advancing? {
      SpanPop(s.buf, s.tail, s.head);
      SuccIs(s.head, RX_RING_SIZE);
      assert (s.consumed + [s.thread.b])[..|s.consumed|] == s.consumed;
    }
  }

  lemma JudgeKeepsQueue(s: Link)
    requires Inv(s) && s.thread.Judging?
    ensures var t := ThreadStep(s); QueueInv(t) && PutInv(t) && TakeInv(t)
  {
    hide ReplyInv, Next, IsPending, Answer, Span, Succ, Proper;
  }

  lemma JudgeReplies(s: Link)
    requires Inv(s) && s.thread.Judging?
    ensures ReplyInv(ThreadStep(s))
  {
    hide QueueInv, PutInv, Next, IsPending, Answer, Proper, Succ, Held, Reports, AllProper;
    var fed, b := Fed(s), s.thread.b;
    assert s.consumed == fed + [b];
    NothingHeld();
    RepliesGrow([], fed, b);
  }

  lemma JudgeStepInv(s: Link)
    requires Inv(s) && s.thread.Judging?
    ensures Inv(ThreadStep(s))
  {
    JudgeKeepsQueue(s);
    JudgeReplies(s);
  }

  lemma StepInv(s: Link, t: Link)
    requires Inv(s) && Step(s, t)
    ensures Inv(t)
  {
    hide Inv, IsrStep, ThreadStep, Deliver, InRange;
    if s.isr == IsrIdle && exists data: seq<byte> :: t == Deliver(s, data) {
      var data: seq<byte> :| t == Deliver(s, data);
      DeliverInv(s, data);
    } else if s.isr != IsrIdle && t == IsrStep(s) {
      IsrStepInv(s);
    } else if s.thread.Judging? {
      JudgeStepInv(s);
    } else {
      TakeStepInv(s);
    }
  }

  lemma {:induction false} RunInv(run: seq<Link>, k: nat)
    requires IsRun(run) && k < |run|
    ensures Inv(run[k])
  {
    hide Inv, Step;
    if k == 0 {
      InitInv(run[0]);
    } else {
      RunInv(run, k - 1);
      StepInv(run[k - 1], run[k]);
    }
  }

  // ---------------------------------------------------------------- what every run guarantees

  /** First in, first out, with room for 8191 bytes; and the slot about to be written is never the one
      about to be taken. */
  lemma LinkIsQueue(run: seq<Link>, k: nat)
    requires IsRun(run) && k < |run|
    ensures var s := run[k];
            && s.consumed <= s.accepted
            && |s.accepted| - |s.consumed| <= 8191
            && (s.isr.Storing? && (s.thread.Reading? || s.thread.Advancing?) ==> s.head != s.tail)
            && (s.thread.Advancing? ==> s.accepted[|s.consumed|..] != [] && s.accepted[|s.consumed|] == s.thread.b)
  {
    hide IsRun, ReplyInv, PutInv, Span;
    RunInv(run, k);
    var s := run[k];
    SpanSize(s.buf, s.tail, s.head);
    if s.tail != s.head {
      SpanPop(s.buf, s.tail, s.head);
    }
  }

  /** A put in any interleaving: when it comes to its end it has stored a prefix of its packet behind what was
      accepted before, and has counted one drop exactly when that prefix is short. */
  lemma PutStoresPrefix(run: seq<Link>, k: nat)
    requires IsRun(run) && k < |run| && run[k].isr.Releasing?
    ensures var s, i := run[k], run[k].isr.i;
            && i <= |s.packet|
            && s.accepted == s.base + s.packet[..i]
            && s.dropped == s.drops + if i < |s.packet| then 1 else 0
  {
    hide IsRun, QueueInv, TakeInv, ReplyInv;
    RunInv(run, k);
  }

  /** ... and no longer prefix would have fitted: it gives up only at a moment when all 8191 places are taken. */
  lemma DropsOnlyWhenFull(run: seq<Link>, k: nat)
    requires IsRun(run) && k + 1 < |run|
    requires run[k].isr.Checking? && run[k + 1].isr.Dropping?
    ensures |run[k].accepted| - |run[k].consumed| == 8191
    ensures run[k].isr.i < |run[k].packet| && run[k].accepted == run[k].base + run[k].packet[..run[k].isr.i]
  {
    RunInv(run, k);
    assert Step(run[k], run[k + 1]);
    hide IsRun, TakeInv, ReplyInv, Span, IsPending;
    SpanSize(run[k].buf, run[k].tail, run[k].head);
  }

  /** The callback's steps still to come. */
  function PutRank(s: Link): nat {
    match s.isr
    case IsrIdle => 0
    case Releasing(_) => 1
    case Dropping(_) => 2
    case Publishing(i) => if i < |s.packet| then 3 * (|s.packet| - i) + 1 else 0
    case Storing(i) => if i < |s.packet| then 3 * (|s.packet| - i) + 2 else 0
    case Checking(i) => if i <= |s.packet| then 3 * (|s.packet| - i) + 3 else 0
  }

  /** The callback never waits: a put of n bytes ends within 3n + 3 of its own steps, whatever the thread does. */
  lemma PutAdvances(s: Link, data: seq<byte>)
    requires Inv(s)
    ensures s.isr != IsrIdle ==> PutRank(IsrStep(s)) < PutRank(s)
    ensures PutRank(ThreadStep(s)) == PutRank(s)
    ensures PutRank(Deliver(s, data)) <= 3 * |data| + 3
  {
    hide QueueInv, TakeInv, ReplyInv, IsPending, Next, Answer, Succ;
  }

  /** `base` and `drops` are what they claim to be: fixed when a packet arrives, until the next one does. */
  lemma PutRemembersStart(run: seq<Link>, k: nat)
    requires IsRun(run) && k + 1 < |run|
    ensures var s, t := run[k], run[k + 1];
      || (t.base == s.base && t.drops == s.drops && t.packet == s.packet)
      || (s.isr == IsrIdle && t.base == s.accepted && t.drops == s.dropped && t.arrived == s.arrived + t.packet)
  {
    assert Step(run[k], run[k + 1]);
    hide IsRun, IsPending, Next, Answer;
  }

  /** No wake-up is lost either: while bytes wait and no callback runs, a waiting thread has a token to take, so that it
      never has to wait for the timeout. */
  lemma {:induction false} NoLostWakeup(run: seq<Link>, k: nat)
    requires IsRun(run) && k < |run|
    ensures run[k].thread.Waiting? && run[k].isr.IsrIdle? && run[k].head != run[k].tail ==> run[k].sem > 0
    decreases k
  {
    hide InRange, Next, Answer, Succ;
    if k > 0 {
      NoLostWakeup(run, k - 1);
      assert Step(run[k - 1], run[k]);
    }
  }

  /** A token is released with every packet that is not empty, and with nothing else. */
  lemma OneTokenEach(s: Link, t: Link)
    requires Step(s, t)
    ensures t.sem > s.sem ==> s.isr.Releasing? && t.isr == IsrIdle
    ensures s.isr.Releasing? && t.isr != s.isr ==> t.sem == s.sem + 1
    ensures t.sem < s.sem ==> s.thread.Waiting? && t.thread.Testing? && t.sem == s.sem - 1
    ensures s.thread.Waiting? && t.thread.Testing? && s.sem > 0 ==> t.sem == s.sem - 1
  {
    hide InRange, Next, Answer, Succ;
  }

  /** Nothing is in flight: no callback running, the ring empty, the thread holding no byte. */
  predicate Quiescent(s: Link) {
    s.isr == IsrIdle && s.head == s.tail && (s.thread.Waiting? || s.thread.Testing?)
  }

  /** End to end: as long as no put has found the ring full, the replies are exactly those to the judgements
      of the reference decoder on what was fed, which is a prefix of what arrived, and all of it once
      nothing is in flight. */
  lemma EndToEnd(run: seq<Link>, k: nat)
    requires IsRun(run) && k < |run|
    ensures var s := run[k];
            && AllProper(Decode(Fed(s), 0))
            && s.sent == Replies(Decode(Fed(s), 0))
            && (s.dropped == 0 && !s.isr.Dropping? ==> Fed(s) <= s.arrived)
            && (s.dropped == 0 && Quiescent(s) ==> Fed(s) == s.arrived)
  {
    RunInv(run, k);
    FedIsPrefix(run[k]);
    RepliesToFed(run[k]);
  }

  lemma RepliesToFed(s: Link)
    requires Inv(s)
    ensures AllProper(Decode(Fed(s), 0)) && s.sent == Replies(Decode(Fed(s), 0))
  {
    hide QueueInv, PutInv, TakeInv, Fed, Decode, Reports, Held, Replies, AllProper;
    NothingHeld();
    ParserRefinesDecoder([], Fed(s), 0);
    assert [] + Fed(s) == Fed(s);
  }

  lemma FedIsPrefix(s: Link)
    requires Inv(s)
    ensures s.dropped == 0 && !s.isr.Dropping? ==> Fed(s) <= s.arrived
    ensures s.dropped == 0 && Quiescent(s) ==> Fed(s) == s.arrived
  {
    hide ReplyInv, TakeInv, Span, IsPending;
    SpanSize(s.buf, s.tail, s.head);
  }

  /** ... and a host that decodes the concatenated response frames gets back exactly these replies. */
  lemma HostReadsReplies(run: seq<Link>, k: nat)
    requires IsRun(run) && k < |run|
    ensures var s := run[k];
            Decode(WireOf(s.sent), 0) == Expected(Silent(s.sent), 0)
  {
    hide Decode, Replies, WireOf, AllProper;
    EndToEnd(run, k);
    ResponsesDecode(Decode(Fed(run[k]), 0), 0);
  }

  // ---------------------------------------------------------------- progress

  function ThreadRuns(s: Link, n: nat): (t: Link)
    requires Inv(s)
    ensures Inv(t)
    decreases n
  {
    if n == 0 then s else (ThreadAlone(s); ThreadRuns(ThreadStep(s), n - 1))
  }

  lemma ThreadAlone(s: Link)
    requires Inv(s)
    ensures var t := ThreadStep(s);
            && Inv(t)
            && t.isr == s.isr && t.head == s.head && t.buf == s.buf
            && t.arrived == s.arrived && t.dropped == s.dropped && t.accepted == s.accepted
  {
    hide Inv, Answer, Next;
    if s.thread.Judging? { JudgeStepInv(s); } else { TakeStepInv(s); }
  }

  function Rank(pc: ThreadPc): nat {
    match pc
    case Judging(_) => 4
    case Waiting => 3
    case Testing => 2
    case Reading => 1
    case Advancing(_) => 0
  }

  function Work(s: Link): nat
    requires InRange(s)
  {
    5 * |Span(s.buf, s.tail, s.head)| + Rank(s.thread)
  }

  lemma ThreadAdvances(s: Link)
    requires Inv(s) && s.isr == IsrIdle && !Quiescent(s)
    ensures InRange(s)
    ensures var t := ThreadStep(s);
            InRange(t) && Work(t) < Work(s)
  {
    hide Decode, Reports, Replies, Answer, Next, IsPending, ReplyInv, Span;
    SpanSize(s.buf, s.tail, s.head);
    if s.thread.Advancing? {
      SpanPop(s.buf, s.tail, s.head);
    }
  }

  lemma QuiescentAnswered(s: Link)
    requires Inv(s) && Quiescent(s)
    ensures AllProper(Decode(s.accepted, 0)) && s.sent == Replies(Decode(s.accepted, 0))
    ensures s.dropped == 0 ==> s.accepted == s.arrived
  {
    RepliesToFed(s);
    hide ReplyInv, TakeInv, Span, IsPending, Decode, AllProper, Replies;
    SpanSize(s.buf, s.tail, s.head);
    assert Fed(s) == s.accepted;
  }

  /** Because waiting times out, no wake-up can be lost for good: whenever the callback is idle the thread
      alone empties the ring, and then every judgement on everything that was accepted has been answered; as long
      as no put has found the ring full, that is everything that arrived. */
  lemma {:induction false} ThreadDrains(s: Link) returns (n: nat)
    requires Inv(s) && s.isr == IsrIdle
    ensures var t := ThreadRuns(s, n);
            && Quiescent(t) && t.accepted == s.accepted && t.arrived == s.arrived && t.dropped == s.dropped
            && AllProper(Decode(s.accepted, 0)) && t.sent == Replies(Decode(s.accepted, 0))
            && (s.dropped == 0 ==> s.accepted == s.arrived)
    decreases Work(s)
  {
    hide *;
    if Quiescent(s) {
      n := 0;
      QuiescentAnswered(s);
      ThreadRunsNone(s);
    } else {
      ThreadAdvances(s);
      ThreadAlone(s);
      var m := ThreadDrains(ThreadStep(s));
      n := m + 1;
      ThreadRunsMore(s, m);
    }
  }

  lemma ThreadRunsNone(s: Link)
    requires Inv(s)
    ensures ThreadRuns(s, 0) == s
  {
  }

  lemma ThreadRunsMore(s: Link, m: nat)
    requires Inv(s)
    ensures InRange(s) && Inv(ThreadStep(s)) && ThreadRuns(s, m + 1) == ThreadRuns(ThreadStep(s), m)
  {
    ThreadAlone(s);
    hide Inv, ThreadStep;
  }
}
