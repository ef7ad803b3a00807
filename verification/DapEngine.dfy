/** The DAP request engine: the OUT callback submits requests into a slot ring, a thread executes them and
    sends the responses. One shared access at a time, in any interleaving, from the start of the thread. */
module DapEngine {
  import opened FrameProto
  import opened Ring

  /** packetCount is DAP_PACKET_COUNT, packetSize is DAP_PACKET_SIZE. */
  datatype Config = Config(packetCount: nat, packetSize: nat)
  {
    ghost predicate Valid() { packetCount > 0 }

    /** One slot always stays empty, so one more slot than requests. */
    function Slots(): nat { packetCount + 1 }
  }

  /** A slot keeps the bytes of earlier requests behind the ones of the current request. */
  datatype Slot = Slot(len: nat, buf: seq<byte>)

  /** The command handler may depend on everything it has executed before, and it is handed the whole slot
      buffer. */
  type Handler = seq<seq<byte>> -> seq<byte>

  datatype ProducerPc =
    | Idle
    | Checking
    | Dropping
    | Copying
    | SettingLen
    | Publishing
    | Counting
    | Releasing

  datatype ConsumerPc =
    | Taking         // rt_sem_take, waiting forever
    | Testing
    | Executing      // DAP_ExecuteCommand works on the slot at the tail
    | Answering      // the response is passed on, if there is one
    | Tallying
    | Advancing

  datatype Engine = Engine(
    slots: seq<Slot>, head: nat, tail: nat, sem: nat,
    producer: ProducerPc, data: seq<byte>,
    consumer: ConsumerPc, response: seq<byte>,
    dropped: nat, submitted: nat, processed: nat,
    calls: nat,                  // submissions begun
    wakes: nat,                  // tokens taken by the engine
    offered: seq<seq<byte>>,     // what the submissions brought
    kept: seq<int>,              // which of them were accepted
    accepted: seq<Slot>,         // slots as they were published
    taken: seq<Slot>,            // slots released by the consumer
    executed: seq<seq<byte>>,    // buffers the handler was given
    sent: seq<seq<byte>>)        // responses passed to usb_if_dap_send

  ghost predicate Init(c: Config, s: Engine) {
    && c.Valid()
    && |s.slots| == c.Slots() && (forall i | 0 <= i < |s.slots| :: |s.slots[i].buf| == c.packetSize)
    && s.head == 0 && s.tail == 0 && s.sem == 0 && s.producer == Idle && s.consumer == Taking
    && s.dropped == 0 && s.submitted == 0 && s.processed == 0 && s.calls == 0 && s.wakes == 0
    && s.offered == [] && s.kept == []
    && s.accepted == [] && s.taken == [] && s.executed == [] && s.sent == []
  }

  ghost predicate InRange(c: Config, s: Engine) {
    && c.Valid() && |s.slots| == c.Slots() && s.head < c.Slots() && s.tail < c.Slots()
    && (forall i | 0 <= i < |s.slots| :: |s.slots[i].buf| == c.packetSize)
  }

  function Fitting(c: Config, data: seq<byte>): (d: seq<byte>)
    ensures |d| <= c.packetSize
  {
    if |data| > c.packetSize then data[..c.packetSize] else data
  }

  function Submit(s: Engine, data: seq<byte>): Engine {
    s.(producer := Checking, data := data, calls := s.calls + 1, offered := s.offered + [data])
  }

  function ProducerStep(c: Config, s: Engine): Engine
    requires InRange(c, s)
  {
    match s.producer
    case Idle => s
    case Checking => s.(producer := if Succ(s.head, c.Slots()) == s.tail then Dropping else Copying)
    case Dropping => s.(dropped := s.dropped + 1, producer := Idle)
    case Copying =>
      var d := Fitting(c, s.data);
      var slot := s.slots[s.head];
      s.(slots := s.slots[s.head := slot.(buf := d + slot.buf[|d|..])], producer := SettingLen)
    case SettingLen =>
      s.(slots := s.slots[s.head := s.slots[s.head].(len := |Fitting(c, s.data)|)], producer := Publishing)
    case Publishing =>
      s.(head := Succ(s.head, c.Slots()), accepted := s.accepted + [s.slots[s.head]], producer := Counting,
         kept := s.kept + [s.calls - 1])
    case Counting => s.(submitted := s.submitted + 1, producer := Releasing)
    case Releasing => s.(sem := s.sem + 1, producer := Idle)
  }

  function ConsumerStep(c: Config, h: Handler, s: Engine): Engine
    requires InRange(c, s)
  {
    match s.consumer
    case Taking => if s.sem > 0 then s.(sem := s.sem - 1, consumer := Testing, wakes := s.wakes + 1) else s
    case Testing => s.(consumer := if s.tail != s.head then Executing else Taking)
    case Executing =>
      var executed := s.executed + [s.slots[s.tail].buf];
      s.(executed := executed, response := h(executed), consumer := Answering)
    case Answering => s.(sent := if s.response != [] then s.sent + [s.response] else s.sent, consumer := Tallying)
    case Tallying => s.(processed := s.processed + 1, consumer := Advancing)
    case Advancing =>
      s.(taken := s.taken + [s.slots[s.tail]], tail := Succ(s.tail, c.Slots()), consumer := Testing)
  }

  ghost predicate Step(c: Config, h: Handler, s: Engine, t: Engine) {
    && InRange(c, s)
    && (|| (s.producer == Idle && exists data: seq<byte> :: t == Submit(s, data))
        || (s.producer != Idle && t == ProducerStep(c, s))
        || t == ConsumerStep(c, h, s))
  }

  ghost predicate IsRun(c: Config, h: Handler, run: seq<Engine>) {
    && |run| > 0 && Init(c, run[0])
    && forall i | 0 <= i < |run| - 1 :: Step(c, h, run[i], run[i + 1])
  }

  // ---------------------------------------------------------------- the invariant

  function Waiting(c: Config, s: Engine): seq<Slot>
    requires s.tail < |s.slots| && s.head < |s.slots|
  {
    Span(s.slots, s.tail, s.head)
  }

  function Buffers(slots: seq<Slot>): (b: seq<seq<byte>>)
    ensures |b| == |slots| && forall i | 0 <= i < |slots| :: b[i] == slots[i].buf
  {
    seq(|slots|, i requires 0 <= i < |slots| => slots[i].buf)
  }

  /** What the handler answers to a sequence of requests, leaving out the empty answers. */
  function Answers(h: Handler, requests: seq<seq<byte>>): seq<seq<byte>> {
    if requests == [] then []
    else
      Answers(h, requests[..|requests| - 1])
      + if h(requests) != [] then [h(requests)] else []
  }

  /** An answer that is not empty goes out behind the answers to what was executed before, ... */
  lemma {:induction false} AnswerGoesOut(h: Handler, requests: seq<seq<byte>>, i: nat)
    requires i < |requests| && h(requests[..i + 1]) != []
    ensures var j := |Answers(h, requests[..i])|;
      j < |Answers(h, requests)| && Answers(h, requests)[j] == h(requests[..i + 1])
    decreases |requests|
  {
    var n := |requests| - 1;
    var front := requests[..n];
    if i < n {
      assert front[..i] == requests[..i] && front[..i + 1] == requests[..i + 1];
      AnswerGoesOut(h, front, i);
    } else {
      assert requests[..i + 1] == requests;
    }
  }

  /** ... and nothing else does. */
  lemma {:induction false} NothingElseGoesOut(h: Handler, requests: seq<seq<byte>>, j: nat) returns (i: nat)
    requires j < |Answers(h, requests)|
    ensures i < |requests| && j == |Answers(h, requests[..i])|
    ensures Answers(h, requests)[j] == h(requests[..i + 1]) && h(requests[..i + 1]) != []
    decreases |requests|
  {
    var n := |requests| - 1;
    var front := requests[..n];
    if j < |Answers(h, front)| {
      i := NothingElseGoesOut(h, front, j);
      assert front[..i] == requests[..i] && front[..i + 1] == requests[..i + 1];
    } else {
      i := n;
      assert requests[..i + 1] == requests;
    }
  }

  /** Has the consumer handed the slot at the tail to the handler? */
  predicate TailExecuted(pc: ConsumerPc) {
    pc.Answering? || pc.Tallying? || pc.Advancing?
  }

  ghost predicate QueueInv(c: Config, s: Engine) {
    && InRange(c, s)
    && s.accepted == s.taken + Waiting(c, s)
    && (s.producer.Copying? || s.producer.SettingLen? || s.producer.Publishing? ==>
          Succ(s.head, c.Slots()) != s.tail)
    && (s.producer.SettingLen? || s.producer.Publishing? ==> Fitting(c, s.data) <= s.slots[s.head].buf)
    && (s.producer.Publishing? ==> s.slots[s.head].len == |Fitting(c, s.data)|)
    && (s.consumer.Executing? || TailExecuted(s.consumer) ==> s.tail != s.head)
  }

  ghost predicate ExecutionInv(c: Config, h: Handler, s: Engine) {
    && s.tail < |s.slots|
    && s.executed == Buffers(s.taken) + (if TailExecuted(s.consumer) then [s.slots[s.tail].buf] else [])
    && (s.consumer.Answering? ==>
          && s.executed != [] && s.response == h(s.executed)
          && s.sent == Answers(h, s.executed[..|s.executed| - 1]))
    && (!s.consumer.Answering? ==> s.sent == Answers(h, s.executed))
  }

  ghost predicate CountInv(s: Engine) {
    && s.submitted + (if s.producer.Counting? then 1 else 0) == |s.accepted|
    && s.processed + (if s.consumer.Answering? || s.consumer.Tallying? then 1 else 0) == |s.executed|
    && s.wakes + s.sem + (if s.producer.Counting? || s.producer.Releasing? then 1 else 0) == |s.accepted|
    && s.calls == |s.accepted| + s.dropped
                  + if s.producer.Idle? || s.producer.Counting? || s.producer.Releasing? then 0 else 1
  }

  /** Every request in the ring has, or is about to get, its token, unless the consumer is awake anyway. */
  ghost predicate WakeInv(c: Config, s: Engine) {
    && InRange(c, s)
    && (s.consumer.Taking? ==>
          |Waiting(c, s)| <= s.sem + if s.producer.Counting? || s.producer.Releasing? then 1 else 0)
  }

  ghost predicate Inv(c: Config, h: Handler, s: Engine) {
    QueueInv(c, s) && ExecutionInv(c, h, s) && CountInv(s) && WakeInv(c, s)
  }

  lemma InitInv(c: Config, h: Handler, s: Engine)
    requires Init(c, s)
    ensures Inv(c, h, s)
  {
  }

  lemma SubmitInv(c: Config, h: Handler, s: Engine, data: seq<byte>)
    requires Inv(c, h, s) && s.producer == Idle
    ensures Inv(c, h, Submit(s, data))
  {
    hide Answers, Span, Fitting;
  }

  /** The free slot at the head may be written without disturbing anything in the ring. */
  lemma WriteSlotInv(c: Config, h: Handler, s: Engine)
    requires Inv(c, h, s) && (s.producer.Copying? || s.producer.SettingLen?)
    ensures Inv(c, h, ProducerStep(c, s))
  {
    hide Answers, Span, Buffers;
    var t := ProducerStep(c, s);
    SpanPush(s.slots, s.tail, s.head, t.slots[s.head]);
    assert t.slots == s.slots[s.head := t.slots[s.head]];
    SpanSize(s.slots, s.tail, s.head);
    assert TailExecuted(s.consumer) ==> t.slots[s.tail] == s.slots[s.tail];
  }

  lemma PublishInv(c: Config, h: Handler, s: Engine)
    requires Inv(c, h, s) && s.producer.Publishing?
    ensures Inv(c, h, ProducerStep(c, s))
  {
    hide Answers, Span, Buffers, Fitting;
    SpanPush(s.slots, s.tail, s.head, s.slots[s.head]);
    assert s.slots[s.head := s.slots[s.head]] == s.slots;
  }

  lemma ProducerInv(c: Config, h: Handler, s: Engine)
    requires Inv(c, h, s)
    ensures Inv(c, h, ProducerStep(c, s))
  {
    if s.producer.Copying? || s.producer.SettingLen? {
      WriteSlotInv(c, h, s);
    } else if s.producer.Publishing? {
      PublishInv(c, h, s);
    } else {
      ControlInv(c, h, s);
    }
  }

  predicate Controlling(pc: ProducerPc) {
    !pc.Copying? && !pc.SettingLen? && !pc.Publishing?
  }

  lemma ControlQueueInv(c: Config, s: Engine)
    requires QueueInv(c, s) && Controlling(s.producer)
    ensures QueueInv(c, ProducerStep(c, s))
  {
    hide Span, Fitting, Succ;
  }

  lemma ControlCountInv(c: Config, s: Engine)
    requires InRange(c, s) && CountInv(s) && WakeInv(c, s) && Controlling(s.producer)
    ensures CountInv(ProducerStep(c, s)) && WakeInv(c, ProducerStep(c, s))
  {
    hide Span, Fitting, Succ;
  }

  lemma ControlInv(c: Config, h: Handler, s: Engine)
    requires Inv(c, h, s) && Controlling(s.producer)
    ensures Inv(c, h, ProducerStep(c, s))
  {
    hide Answers, Span, Buffers, Fitting, Succ, QueueInv, CountInv, WakeInv;
    assert InRange(c, s) by { InvInRange(c, h, s); }
    ControlQueueInv(c, s);
    ControlCountInv(c, s);
  }

  lemma InvInRange(c: Config, h: Handler, s: Engine)
    requires Inv(c, h, s)
    ensures InRange(c, s)
  {
  }

  lemma ConsumerInv(c: Config, h: Handler, s: Engine)
    requires Inv(c, h, s)
    ensures Inv(c, h, ConsumerStep(c, h, s))
  {
    hide Span, Fitting;
    SpanSize(s.slots, s.tail, s.head);
    if s.consumer.Advancing? {
      SpanPop(s.slots, s.tail, s.head);
      SuccIs(s.tail, c.Slots());
      SuccIs(s.head, c.Slots());
    } else if s.consumer.Executing? {
      var e := s.executed + [s.slots[s.tail].buf];
      assert e[..|e| - 1] == s.executed;
    }
  }

  lemma StepInv(c: Config, h: Handler, s: Engine, t: Engine)
    requires Inv(c, h, s) && Step(c, h, s, t)
    ensures Inv(c, h, t)
  {
    hide Inv, Submit, ProducerStep, ConsumerStep;
    if s.producer == Idle && exists data: seq<byte> :: t == Submit(s, data) {
      var data: seq<byte> :| t == Submit(s, data);
      SubmitInv(c, h, s, data);
    } else if s.producer != Idle && t == ProducerStep(c, s) {
      ProducerInv(c, h, s);
    } else {
      ConsumerInv(c, h, s);
    }
  }

  lemma {:induction false} RunInv(c: Config, h: Handler, run: seq<Engine>, k: nat)
    requires IsRun(c, h, run) && k < |run|
    ensures Inv(c, h, run[k])
  {
    hide Inv, Step;
    if k == 0 {
      InitInv(c, h, run[0]);
    } else {
      RunInv(c, h, run, k - 1);
      StepInv(c, h, run[k - 1], run[k]);
    }
  }

  // ---------------------------------------------------------------- what every run guarantees

  lemma BlockedMeansDone(c: Config, h: Handler, s: Engine)
    requires Inv(c, h, s) && s.consumer.Taking? && s.sem == 0 && s.producer.Idle?
    ensures s.head == s.tail && s.processed == s.submitted && s.executed == Buffers(s.accepted)
    ensures s.sent == Answers(h, s.executed)
  {
    hide Answers, Span;
    SpanSize(s.slots, s.tail, s.head);
    assert s.taken == s.accepted;
  }

  /** No lost wake-up: an engine blocked on an empty semaphore, with no submission under way, has nothing
      left to do, and has answered every request it accepted, in the order it accepted them. */
  lemma NoLostWakeup(c: Config, h: Handler, run: seq<Engine>, k: nat)
    requires IsRun(c, h, run) && k < |run|
    requires run[k].consumer.Taking? && run[k].sem == 0 && run[k].producer.Idle?
    ensures var s := run[k];
            && s.head == s.tail && s.processed == s.submitted
            && s.sent == Answers(h, Buffers(s.accepted))
  {
    hide IsRun, Inv, Answers;
    RunInv(c, h, run, k);
    BlockedMeansDone(c, h, run[k]);
  }

  /** Requests are executed in acceptance order, each with the bytes it was accepted with, and responses
      leave in that order; the slot being written is never the one being executed. */
  lemma ExecutedInOrder(c: Config, h: Handler, run: seq<Engine>, k: nat)
    requires IsRun(c, h, run) && k < |run|
    ensures var s := run[k];
            && s.executed <= Buffers(s.accepted)
            && |s.accepted| - |s.taken| <= c.packetCount
            && (s.sent == Answers(h, s.executed) || (s.executed != [] && s.sent == Answers(h, s.executed[..|s.executed| - 1])))
            && ((s.producer.Copying? || s.producer.SettingLen?) && s.consumer.Executing? ==> s.head != s.tail)
  {
    RunInv(c, h, run, k);
    hide IsRun, Answers, Span;
    var s := run[k];
    SpanSize(s.slots, s.tail, s.head);
    if s.tail != s.head {
      SpanPop(s.slots, s.tail, s.head);
    }
  }

  /** Every accepted request is the bytes submitted, cut to the slot, with their number, in front of what the slot
      held before. */
  lemma AcceptedIsRequest(c: Config, h: Handler, run: seq<Engine>, k: nat)
    requires IsRun(c, h, run) && k + 1 < |run|
    ensures var s, t := run[k], run[k + 1];
            t.accepted == s.accepted
            || (exists slot: Slot ::
                  && t.accepted == s.accepted + [slot]
                  && slot.len == (if |s.data| <= c.packetSize then |s.data| else c.packetSize)
                  && slot.len <= |slot.buf| == c.packetSize
                  && slot.buf[..slot.len] == s.data[..slot.len])
  {
    RunInv(c, h, run, k);
    assert Step(c, h, run[k], run[k + 1]);
    FittingIs(c, run[k].data);
    hide IsRun, Fitting, Answers, Span;
    var s, t := run[k], run[k + 1];
    if t.accepted != s.accepted {
      assert t.accepted == s.accepted + [s.slots[s.head]];
    }
  }

  lemma FittingIs(c: Config, data: seq<byte>)
    ensures var n := if |data| <= c.packetSize then |data| else c.packetSize;
            |Fitting(c, data)| == n && Fitting(c, data) == data[..n]
  {
  }

  /** ... where the bytes submitted are those the callback handed in when the submission began, ... */
  lemma DataIsSubmitted(c: Config, h: Handler, run: seq<Engine>, k: nat)
    requires IsRun(c, h, run) && k + 1 < |run|
    ensures var s, t := run[k], run[k + 1];
      || (t.data == s.data && t.calls == s.calls)
      || (s.producer == Idle && t.producer == Checking && t.calls == s.calls + 1 && t == Submit(s, t.data))
  {
    assert Step(c, h, run[k], run[k + 1]);
    hide IsRun, Answers, Span, Fitting;
  }

  /** ... and copying leaves the rest of the slot, and every other slot, as it was. */
  lemma CopyingKeepsRest(c: Config, s: Engine)
    requires InRange(c, s) && s.producer.Copying?
    ensures var t, n := ProducerStep(c, s), if |s.data| <= c.packetSize then |s.data| else c.packetSize;
      && |t.slots| == |s.slots| && (forall i :: 0 <= i < |s.slots| && i != s.head ==> t.slots[i] == s.slots[i])
      && |t.slots[s.head].buf| == c.packetSize && t.slots[s.head].buf[n..] == s.slots[s.head].buf[n..]
      && t.slots[s.head].buf[..n] == s.data[..n]
  {
    FittingIs(c, s.data);
    hide Fitting;
  }

  /** The slot holds the bytes, cut to its size, and their number. */
  predicate Holds(c: Config, slot: Slot, data: seq<byte>) {
    && slot.len == (if |data| <= c.packetSize then |data| else c.packetSize)
    && slot.len <= |slot.buf| == c.packetSize && slot.buf[..slot.len] == data[..slot.len]
  }

  predicate Deciding(pc: ProducerPc) {
    pc.Checking? || pc.Dropping? || pc.Copying? || pc.SettingLen? || pc.Publishing?
  }

  ghost predicate OfferInv(c: Config, s: Engine) {
    && |s.offered| == s.calls && |s.kept| == |s.accepted|
    && (!s.producer.Idle? ==> s.calls > 0 && s.data == s.offered[s.calls - 1])
    && (forall i :: 0 <= i < |s.kept| ==> 0 <= s.kept[i] < s.calls && Holds(c, s.accepted[i], s.offered[s.kept[i]]))
    && (forall i, j :: 0 <= i < j < |s.kept| ==> s.kept[i] < s.kept[j])
    && (Deciding(s.producer) ==>
          forall i :: 0 <= i < |s.kept| ==> s.kept[i] < s.calls - 1)
  }

  lemma SubmitOffers(c: Config, s: Engine, data: seq<byte>)
    requires OfferInv(c, s) && s.producer == Idle
    ensures OfferInv(c, Submit(s, data))
  {
    hide Holds;
  }

  lemma PublishOffers(c: Config, s: Engine)
    requires QueueInv(c, s) && OfferInv(c, s) && s.producer.Publishing?
    ensures OfferInv(c, ProducerStep(c, s))
  {
    FittingIs(c, s.data);
    hide Span, Fitting, Succ;
    assert Holds(c, s.slots[s.head], s.data);
    hide Holds;
  }

  /** t offers and has accepted what s has; a submission may have come nearer to its end. */
  predicate SameOffers(s: Engine, t: Engine) {
    && t.offered == s.offered && t.kept == s.kept && t.accepted == s.accepted && t.calls == s.calls && t.data == s.data
    && (s.producer.Idle? ==> t.producer.Idle?) && (Deciding(t.producer) ==> Deciding(s.producer))
  }

  lemma OthersLeaveOffers(c: Config, h: Handler, s: Engine)
    requires InRange(c, s)
    ensures SameOffers(s, ConsumerStep(c, h, s))
    ensures !s.producer.Publishing? ==> SameOffers(s, ProducerStep(c, s))
  {
    hide Fitting, Succ;
  }

  lemma OthersOffer(c: Config, s: Engine, t: Engine)
    requires OfferInv(c, s) && SameOffers(s, t)
    ensures OfferInv(c, t)
  {
    hide Holds;
  }

  lemma {:induction false} RunOffers(c: Config, h: Handler, run: seq<Engine>, k: nat)
    requires IsRun(c, h, run) && k < |run|
    ensures OfferInv(c, run[k])
    decreases k
  {
    hide OfferInv, Inv, Submit, ProducerStep, ConsumerStep, InRange;
    if k == 0 {
      StartOffers(c, run[0]);
    } else {
      RunInv(c, h, run, k - 1);
      RunOffers(c, h, run, k - 1);
      var s, t := run[k - 1], run[k];
      assert Step(c, h, s, t);
      StepOffers(c, h, s, t);
    }
  }

  lemma StartOffers(c: Config, s: Engine)
    requires Init(c, s)
    ensures OfferInv(c, s)
  {
    hide Holds;
  }

  lemma StepOffers(c: Config, h: Handler, s: Engine, t: Engine)
    requires Inv(c, h, s) && OfferInv(c, s) && Step(c, h, s, t)
    ensures OfferInv(c, t)
  {
    InvInRange(c, h, s);
    OthersLeaveOffers(c, h, s);
    assert QueueInv(c, s);
    hide OfferInv, Submit, ProducerStep, ConsumerStep, Inv, QueueInv, InRange, SameOffers;
    if s.producer == Idle && exists data: seq<byte> :: t == Submit(s, data) {
      var data: seq<byte> :| t == Submit(s, data);
      SubmitOffers(c, s, data);
    } else if s.producer.Publishing? && t == ProducerStep(c, s) {
      PublishOffers(c, s);
    } else {
      OthersOffer(c, s, t);
    }
  }

  /** The accepted requests are what the submissions brought, in order and once each, those left out that were turned
      away; between submissions with none turned away they are all of them. */
  lemma AcceptedAreOffered(c: Config, h: Handler, run: seq<Engine>, k: nat)
    requires IsRun(c, h, run) && k < |run|
    ensures var s := run[k];
      && |s.kept| == |s.accepted|
      && (forall i :: 0 <= i < |s.kept| ==> 0 <= s.kept[i] < |s.offered| && Holds(c, s.accepted[i], s.offered[s.kept[i]]))
      && (forall i, j :: 0 <= i < j < |s.kept| ==> s.kept[i] < s.kept[j])
      && (s.producer.Idle? ==> |s.offered| == |s.accepted| + s.dropped)
  {
    RunInv(c, h, run, k);
    RunOffers(c, h, run, k);
    hide IsRun, Holds, QueueInv, ExecutionInv, WakeInv;
  }

  /** A request is turned away only while DAP_PACKET_COUNT others wait. */
  lemma DropsOnlyWhenFull(c: Config, h: Handler, run: seq<Engine>, k: nat)
    requires IsRun(c, h, run) && k + 1 < |run| && run[k].producer.Checking? && run[k + 1].producer.Dropping?
    ensures |run[k].accepted| - |run[k].taken| == c.packetCount
  {
    RunInv(c, h, run, k);
    assert Step(c, h, run[k], run[k + 1]);
    hide IsRun, Answers, Span, Fitting;
    SpanSize(run[k].slots, run[k].tail, run[k].head);
  }

  /** Every accepted request brings one token, and the engine wakes once for each token, never without one. */
  lemma OneTokenEach(c: Config, h: Handler, run: seq<Engine>, k: nat)
    requires IsRun(c, h, run) && k < |run|
    ensures run[k].producer.Idle? ==> run[k].wakes + run[k].sem == |run[k].accepted|
    ensures run[k].wakes <= |run[k].accepted|
    ensures k + 1 < |run| && run[k].consumer.Taking? && run[k + 1].consumer != Taking ==> run[k + 1].wakes == run[k].wakes + 1
  {
    RunInv(c, h, run, k);
    if k + 1 < |run| { assert Step(c, h, run[k], run[k + 1]); }
    hide IsRun, Answers, Span, Fitting;
  }

  function ProducerRank(pc: ProducerPc): nat {
    match pc
    case Idle => 0
    case Checking => 6
    case Dropping => 1
    case Copying => 5
    case SettingLen => 4
    case Publishing => 3
    case Counting => 2
    case Releasing => 1
  }

  /** A submission never waits: it ends within six of its own steps. */
  lemma SubmissionAdvances(c: Config, s: Engine, data: seq<byte>)
    requires InRange(c, s)
    ensures s.producer != Idle ==> ProducerRank(ProducerStep(c, s).producer) < ProducerRank(s.producer)
    ensures ProducerRank(Submit(s, data).producer) <= 6
  {
    hide Succ, Fitting;
  }

  function ConsumerRank(pc: ConsumerPc): nat {
    match pc
    case Taking => 0
    case Testing => 6
    case Executing => 5
    case Answering => 4
    case Tallying => 3
    case Advancing => 2
  }

  function Work(c: Config, s: Engine): nat
    requires s.tail < |s.slots| && s.head < |s.slots|
  {
    10 * |Waiting(c, s)| + 7 * s.sem + ConsumerRank(s.consumer)
  }

  lemma EngineAdvances(c: Config, h: Handler, s: Engine)
    requires Inv(c, h, s) && !(s.consumer.Taking? && s.sem == 0)
    ensures InRange(c, s)
    ensures var t := ConsumerStep(c, h, s);
      && t.tail < |t.slots| && t.head < |t.slots| && Work(c, t) < Work(c, s)
      && t.accepted == s.accepted && t.producer == s.producer
  {
    hide Span, Fitting, Succ, ExecutionInv, CountInv, WakeInv;
    SuccIs(s.tail, c.Slots());
    if s.consumer.Advancing? { SpanPop(s.slots, s.tail, s.head); }
  }

  function EngineRuns(c: Config, h: Handler, s: Engine, n: nat): (t: Engine)
    requires Inv(c, h, s)
    ensures Inv(c, h, t)
    decreases n
  {
    if n == 0 then s else (ConsumerInv(c, h, s); EngineRuns(c, h, ConsumerStep(c, h, s), n - 1))
  }

  /** From s on the engine has answered everything that was accepted, and has nothing left to do. */
  ghost predicate Drained(h: Handler, s: Engine, t: Engine) {
    t.consumer.Taking? && t.sem == 0 && t.sent == Answers(h, Buffers(s.accepted))
  }

  /** Between submissions the engine, left alone, answers everything it has accepted, and then blocks. */
  lemma {:induction false} EngineDrains(c: Config, h: Handler, s: Engine) returns (n: nat)
    requires Inv(c, h, s) && s.producer.Idle?
    ensures Drained(h, s, EngineRuns(c, h, s, n))
    decreases Work(c, s)
  {
    InvInRange(c, h, s);
    hide *;
    if s.consumer.Taking? && s.sem == 0 {
      n := 0;
      EngineRunsNone(c, h, s);
      BlockedIsDrained(c, h, s);
    } else {
      var t := EngineGoesOn(c, h, s);
      var m := EngineDrains(c, h, t);
      n := m + 1;
      EngineRunsMore(c, h, s, m);
      DrainedAlike(h, s, t, EngineRuns(c, h, s, n));
    }
  }

  lemma EngineGoesOn(c: Config, h: Handler, s: Engine) returns (t: Engine)
    requires Inv(c, h, s) && s.producer.Idle? && !(s.consumer.Taking? && s.sem == 0)
    ensures InRange(c, s) && t == ConsumerStep(c, h, s) && Inv(c, h, t)
    ensures t.tail < |t.slots| && t.head < |t.slots| && Work(c, t) < Work(c, s)
    ensures t.accepted == s.accepted && t.producer.Idle?
  {
    EngineAdvances(c, h, s);
    ConsumerInv(c, h, s);
    hide Inv, ConsumerStep, Work;
    t := ConsumerStep(c, h, s);
  }

  lemma BlockedIsDrained(c: Config, h: Handler, s: Engine)
    requires Inv(c, h, s) && s.consumer.Taking? && s.sem == 0 && s.producer.Idle?
    ensures Drained(h, s, s)
  {
    BlockedMeansDone(c, h, s);
    hide Inv, Answers;
  }

  lemma DrainedAlike(h: Handler, s: Engine, t: Engine, u: Engine)
    requires t.accepted == s.accepted && Drained(h, t, u)
    ensures Drained(h, s, u)
  {
  }

  lemma EngineRunsNone(c: Config, h: Handler, s: Engine)
    requires Inv(c, h, s)
    ensures EngineRuns(c, h, s, 0) == s
  {
    hide Inv;
  }

  lemma EngineRunsMore(c: Config, h: Handler, s: Engine, m: nat)
    requires Inv(c, h, s)
    ensures InRange(c, s) && Inv(c, h, ConsumerStep(c, h, s))
    ensures EngineRuns(c, h, s, m + 1) == EngineRuns(c, h, ConsumerStep(c, h, s), m)
  {
    ConsumerInv(c, h, s);
    hide Inv, ConsumerStep;
  }

  /** Bookkeeping when neither side is in the middle of something. */
  lemma CountersAgree(c: Config, h: Handler, run: seq<Engine>, k: nat)
    requires IsRun(c, h, run) && k < |run|
    requires run[k].producer.Idle? && (run[k].consumer.Taking? || run[k].consumer.Testing? || run[k].consumer.Executing?)
    ensures var s := run[k];
            && s.tail < |s.slots| && s.head < |s.slots|
            && s.calls == s.submitted + s.dropped
            && s.submitted - s.processed == |Waiting(c, s)|
  {
    RunInv(c, h, run, k);
    hide IsRun, Answers, Span;
  }

  ghost predicate SegmentInv(c: Config, first: Engine, s: Engine) {
    && s.dropped >= first.dropped && s.calls >= first.calls
    && |s.taken| >= |first.accepted|
    && (s.calls - first.calls <= c.packetCount ==> s.dropped == first.dropped && !s.producer.Dropping?)
  }

  lemma SegmentStep(c: Config, h: Handler, first: Engine, s: Engine, t: Engine)
    requires Inv(c, h, s) && Step(c, h, s, t) && SegmentInv(c, first, s)
    requires first.calls == |first.accepted| + first.dropped
    ensures SegmentInv(c, first, t)
  {
    hide Answers, Span, Fitting, ExecutionInv;
    SpanSize(s.slots, s.tail, s.head);
  }

  /** From any moment with an empty ring and no submission under way, the next packetCount submissions are
      all accepted, whatever the engine does meanwhile. */
  lemma {:induction false} BackToBackAccepted(c: Config, h: Handler, run: seq<Engine>, i: nat, j: nat)
    requires IsRun(c, h, run) && i <= j < |run|
    requires run[i].head == run[i].tail && run[i].producer.Idle?
    ensures SegmentInv(c, run[i], run[j])
    ensures run[j].calls - run[i].calls <= c.packetCount ==> run[j].dropped == run[i].dropped
  {
    hide Inv, Step, SegmentInv;
    RunInv(c, h, run, i);
    EmptyStart(c, h, run[i]);
    if i < j {
      BackToBackAccepted(c, h, run, i, j - 1);
      RunInv(c, h, run, j - 1);
      SegmentStep(c, h, run[i], run[j - 1], run[j]);
    }
    SegmentMeans(c, run[i], run[j]);
  }

  lemma EmptyStart(c: Config, h: Handler, s: Engine)
    requires Inv(c, h, s) && s.head == s.tail && s.producer.Idle?
    ensures SegmentInv(c, s, s) && s.calls == |s.accepted| + s.dropped
  {
    hide Answers, Fitting, ExecutionInv;
  }

  lemma SegmentMeans(c: Config, first: Engine, s: Engine)
    requires SegmentInv(c, first, s)
    ensures s.calls - first.calls <= c.packetCount ==> s.dropped == first.dropped
  {
  }
}
