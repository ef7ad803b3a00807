/** The whole DAP channel: the OUT callback that submits requests, the engine thread, its blocking send, the IN
    callback and the controller, one shared access at a time. While a send is under way the engine is inside it. */
module DapChannel {
  import opened FrameProto
  import opened Ring
  import DapEngine
  import SendLog
  import UsbIn

  datatype Channel = Channel(engine: DapEngine.Engine, log: SendLog.Log)

  const SEND_TIMEOUT := 1000

  /** The DAP endpoint, whatever its packet size and buffer: sending does not ask whether the device is configured. */
  predicate IsDap(ep: UsbIn.Config) {
    ep.mps > 0 && ep.timeout == SEND_TIMEOUT && !ep.gated
  }

  ghost predicate Init(c: DapEngine.Config, ep: UsbIn.Config, s: Channel) {
    DapEngine.Init(c, s.engine) && SendLog.Init(ep, s.log)
  }

  ghost predicate SubmitStep(c: DapEngine.Config, s: Channel, t: Channel) {
    && t.log == s.log && DapEngine.InRange(c, s.engine)
    && (|| (s.engine.producer == DapEngine.Idle && exists data: seq<byte> :: t.engine == DapEngine.Submit(s.engine, data))
        || (s.engine.producer != DapEngine.Idle && t.engine == DapEngine.ProducerStep(c, s.engine)))
  }

  predicate Answering(e: DapEngine.Engine) {
    e.consumer.Answering? && e.response != []
  }

  /** The engine outside a send; passing on a response that is not empty enters one. */
  ghost predicate EngineStep(c: DapEngine.Config, h: DapEngine.Handler, ep: UsbIn.Config, s: Channel, t: Channel) {
    && s.log.usb.pc == UsbIn.Outside && DapEngine.InRange(c, s.engine)
    && t.engine == DapEngine.ConsumerStep(c, h, s.engine)
    && t.log == if Answering(s.engine) then SendLog.Call(ep, s.log, s.engine.response) else s.log
  }

  /** The engine inside a send, the controller, or the IN callback. */
  ghost predicate SendStep(ep: UsbIn.Config, s: Channel, t: Channel) {
    t.engine == s.engine && SendLog.Step(ep, s.log, t.log)
  }

  ghost predicate Step(c: DapEngine.Config, h: DapEngine.Handler, ep: UsbIn.Config, s: Channel, t: Channel) {
    SubmitStep(c, s, t) || EngineStep(c, h, ep, s, t) || SendStep(ep, s, t)
  }

  ghost predicate IsRun(c: DapEngine.Config, h: DapEngine.Handler, ep: UsbIn.Config, run: seq<Channel>) {
    && IsDap(ep) && |run| > 0 && Init(c, ep, run[0])
    && forall i | 0 <= i < |run| - 1 :: Step(c, h, ep, run[i], run[i + 1])
  }

  // ---------------------------------------------------------------- the invariant

  ghost predicate Inv(c: DapEngine.Config, h: DapEngine.Handler, ep: UsbIn.Config, s: Channel) {
    && DapEngine.Inv(c, h, s.engine) && SendLog.Inv(ep, s.log)
    && s.log.passed == s.engine.sent
  }

  lemma InitInv(c: DapEngine.Config, h: DapEngine.Handler, ep: UsbIn.Config, s: Channel)
    requires IsDap(ep) && Init(c, ep, s)
    ensures Inv(c, h, ep, s)
  {
    DapEngine.InitInv(c, h, s.engine);
    SendLog.InitInv(ep, s.log);
    hide DapEngine.Inv, SendLog.Inv;
  }

  lemma SubmitSendsNothing(c: DapEngine.Config, s: DapEngine.Engine, t: DapEngine.Engine)
    requires DapEngine.InRange(c, s)
    requires t == DapEngine.ProducerStep(c, s) || exists data: seq<byte> :: t == DapEngine.Submit(s, data)
    ensures t.sent == s.sent
  {
    hide DapEngine.InRange, DapEngine.Fitting;
  }

  lemma SubmitStepInv(c: DapEngine.Config, h: DapEngine.Handler, ep: UsbIn.Config, s: Channel, t: Channel)
    requires Inv(c, h, ep, s) && SubmitStep(c, s, t)
    ensures Inv(c, h, ep, t)
  {
    hide DapEngine.Inv, SendLog.Inv, DapEngine.InRange, DapEngine.ProducerStep, DapEngine.Submit;
    assert DapEngine.Step(c, h, s.engine, t.engine);
    DapEngine.StepInv(c, h, s.engine, t.engine);
    SubmitSendsNothing(c, s.engine, t.engine);
  }

  lemma EngineSends(c: DapEngine.Config, h: DapEngine.Handler, s: DapEngine.Engine)
    requires DapEngine.InRange(c, s)
    ensures DapEngine.ConsumerStep(c, h, s).sent == s.sent + if Answering(s) then [s.response] else []
  {
    hide DapEngine.InRange;
  }

  lemma EngineStepInv(c: DapEngine.Config, h: DapEngine.Handler, ep: UsbIn.Config, s: Channel, t: Channel)
    requires Inv(c, h, ep, s) && EngineStep(c, h, ep, s, t)
    ensures Inv(c, h, ep, t)
  {
    hide DapEngine.Inv, SendLog.Inv, DapEngine.InRange, DapEngine.ConsumerStep, Answering, UsbIn.Call;
    assert DapEngine.Step(c, h, s.engine, t.engine);
    DapEngine.StepInv(c, h, s.engine, t.engine);
    EngineSends(c, h, s.engine);
    if Answering(s.engine) {
      SendLog.CallInv(ep, s.log, s.engine.response);
    }
  }

  lemma SendStepInv(c: DapEngine.Config, h: DapEngine.Handler, ep: UsbIn.Config, s: Channel, t: Channel)
    requires Inv(c, h, ep, s) && SendStep(ep, s, t)
    ensures Inv(c, h, ep, t)
  {
    SendLog.StepPasses(ep, s.log, t.log);
    hide DapEngine.Inv, SendLog.Inv, SendLog.Step;
    SendLog.StepInv(ep, s.log, t.log);
  }

  lemma {:induction false} RunInv(c: DapEngine.Config, h: DapEngine.Handler, ep: UsbIn.Config, run: seq<Channel>, k: nat)
    requires IsRun(c, h, ep, run) && k < |run|
    ensures Inv(c, h, ep, run[k])
    decreases k
  {
    hide Inv, SubmitStep, EngineStep, SendStep;
    if k == 0 {
      InitInv(c, h, ep, run[0]);
    } else {
      RunInv(c, h, ep, run, k - 1);
      var s, t := run[k - 1], run[k];
      assert Step(c, h, ep, s, t);
      if SubmitStep(c, s, t) {
        SubmitStepInv(c, h, ep, s, t);
      } else if EngineStep(c, h, ep, s, t) {
        EngineStepInv(c, h, ep, s, t);
      } else {
        SendStepInv(c, h, ep, s, t);
      }
    }
  }

  // ---------------------------------------------------------------- what every run guarantees

  function Host(ep: UsbIn.Config, s: Channel): seq<seq<byte>> {
    SendLog.Host(ep, s.log)
  }

  /** The responses to what has been executed so far, less the one that has not been passed on yet. */
  ghost function Due(h: DapEngine.Handler, e: DapEngine.Engine): seq<seq<byte>> {
    DapEngine.Answers(h, if e.consumer.Answering? && e.executed != [] then e.executed[..|e.executed| - 1] else e.executed)
  }

  lemma SentIsDue(c: DapEngine.Config, h: DapEngine.Handler, e: DapEngine.Engine)
    requires DapEngine.Inv(c, h, e)
    ensures e.sent == Due(h, e) && e.executed <= DapEngine.Buffers(e.accepted)
  {
    hide DapEngine.Answers, Span, DapEngine.Fitting;
    SpanSize(e.slots, e.tail, e.head);
    if e.tail != e.head { SpanPop(e.slots, e.tail, e.head); }
  }

  /** In every interleaving and whatever the sends returned, the host has read, in acceptance order and once each,
      some of the responses due: all whose sends succeeded, and between sends none but those whose transfers were
      started. While every send that has ended has succeeded it has a prefix of them, and between sends all. */
  lemma HostReadsResponses(c: DapEngine.Config, h: DapEngine.Handler, ep: UsbIn.Config, run: seq<Channel>, k: nat)
    requires IsRun(c, h, ep, run) && k < |run|
    ensures var s := run[k];
            var due, got, n := Due(h, s.engine), Host(ep, s), |s.log.results|;
      && s.engine.executed <= DapEngine.Buffers(s.engine.accepted)
      && SendLog.Sub(got, due) && n <= |due| <= n + 1
      && SendLog.Sub(SendLog.Succeeded(due[..n], s.log.results), got)
      && (s.log.usb.pc.Outside? ==> SendLog.Sub(got, SendLog.Started(due[..n], s.log.results)))
      && ((forall i :: 0 <= i < n ==> s.log.results[i] == 0) ==>
            got <= due && (s.log.usb.pc.Outside? ==> got == due))
  {
    RunInv(c, h, ep, run, k);
    hide IsRun, DapEngine.Inv, SendLog.Inv, SendLog.Sub, SendLog.Started, SendLog.Succeeded, SendLog.Host, Due,
         DapEngine.Buffers;
    var s := run[k];
    SentIsDue(c, h, s.engine);
    SendLog.HostReadsSome(ep, s.log);
    if forall i :: 0 <= i < |s.log.results| ==> s.log.results[i] == 0 {
      SendLog.HostReadsAll(ep, s.log);
    }
  }

  /** A full second: a send gives up only after 1001 looks at the flag that all found it set. */
  lemma GivesUpAfterASecond(c: DapEngine.Config, h: DapEngine.Handler, ep: UsbIn.Config, run: seq<Channel>, k: nat, i: nat)
    requires IsRun(c, h, ep, run) && k < |run| && i < |run[k].log.results|
    ensures |run[k].log.courses| == |run[k].log.results|
    ensures var ret, course := run[k].log.results[i], run[k].log.courses[i];
      && (ret == -4 ==> course.Entered? && course.looks.before == seq(1001, _ => true))
      && (ret == -6 ==> course.Entered? && course.looks.after == seq(1001, _ => true))
  {
    RunInv(c, h, ep, run, k);
    assert |run[k].log.courses| == |run[k].log.results|;
    hide IsRun, DapEngine.Inv, SendLog.Inv;
    SendLog.GivesUpOnlyInTime(ep, run[k].log, i);
  }

  /** An engine blocked on an empty semaphore, with no submission under way and no send ever failed, has had the host
      read the answer to every request it accepted. */
  lemma BlockedMeansAnswered(c: DapEngine.Config, h: DapEngine.Handler, ep: UsbIn.Config, run: seq<Channel>, k: nat)
    requires IsRun(c, h, ep, run) && k < |run|
    requires run[k].engine.consumer.Taking? && run[k].engine.sem == 0 && run[k].engine.producer.Idle?
    requires run[k].log.usb.pc.Outside? && forall i :: 0 <= i < |run[k].log.results| ==> run[k].log.results[i] == 0
    ensures Host(ep, run[k]) == DapEngine.Answers(h, DapEngine.Buffers(run[k].engine.accepted))
  {
    RunInv(c, h, ep, run, k);
    HostReadsResponses(c, h, ep, run, k);
    hide IsRun, DapEngine.Inv, SendLog.Inv, SendLog.Sub, SendLog.Started, SendLog.Succeeded, SendLog.Host,
         DapEngine.Buffers, DapEngine.Answers;
    DapEngine.BlockedMeansDone(c, h, run[k].engine);
  }
}
