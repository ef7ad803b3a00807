/** The whole command channel: the OUT callback, the dispatch thread, its blocking send, the IN callback and the
    controller, one shared access at a time. While a send is under way the dispatch thread is inside it. */
module CommandChannel {
  import opened FrameProto
  import opened FrameParser
  import opened FrameDecoder
  import opened FrameFormat
  import opened FrameDispatch
  import opened DispatchThread
  import CtrlLink
  import SendLog
  import UsbIn

  datatype Channel = Channel(link: CtrlLink.Link, log: SendLog.Log)

  const SEND_TIMEOUT := 500

  /** The command endpoint: its buffer holds the longest frame, and sending needs a configured device. */
  function Endpoint(mps: nat): UsbIn.Config {
    UsbIn.Config(mps, MAX_FRAME, SEND_TIMEOUT, true)
  }

  ghost predicate Init(mps: nat, s: Channel) {
    CtrlLink.Init(s.link) && SendLog.Init(Endpoint(mps), s.log)
  }

  /** What the byte in the thread's hands completes. */
  function Completed(link: CtrlLink.Link): Outcome
    requires CtrlLink.InRange(link)
  {
    if link.thread.Judging? then Next(link.pending, link.thread.b).1 else Nothing
  }

  ghost predicate IsrStep(s: Channel, t: Channel) {
    && t.log == s.log && CtrlLink.InRange(s.link)
    && (|| (s.link.isr == CtrlLink.IsrIdle && exists data: seq<byte> :: t.link == CtrlLink.Deliver(s.link, data))
        || (s.link.isr != CtrlLink.IsrIdle && t.link == CtrlLink.IsrStep(s.link)))
  }

  /** The thread outside a send; judging a byte that completes something enters one. */
  function Loop(mps: nat, s: Channel): Channel
    requires CtrlLink.InRange(s.link)
  {
    Channel(CtrlLink.ThreadStep(s.link),
            if Completed(s.link) == Nothing then s.log
            else SendLog.Call(Endpoint(mps), s.log, FrameOf(Answer(Completed(s.link)))))
  }

  ghost predicate LoopStep(mps: nat, s: Channel, t: Channel) {
    s.log.usb.pc == UsbIn.Outside && CtrlLink.InRange(s.link) && t == Loop(mps, s)
  }

  /** The thread inside a send, the controller, or the IN callback. */
  ghost predicate SendStep(mps: nat, s: Channel, t: Channel) {
    t.link == s.link && SendLog.Step(Endpoint(mps), s.log, t.log)
  }

  ghost predicate Step(mps: nat, s: Channel, t: Channel) {
    IsrStep(s, t) || LoopStep(mps, s, t) || SendStep(mps, s, t)
  }

  ghost predicate IsRun(mps: nat, run: seq<Channel>) {
    && mps > 0 && |run| > 0 && Init(mps, run[0])
    && forall i | 0 <= i < |run| - 1 :: Step(mps, run[i], run[i + 1])
  }

  // ---------------------------------------------------------------- the invariant

  ghost predicate Inv(mps: nat, s: Channel) {
    && CtrlLink.Inv(s.link) && SendLog.Inv(Endpoint(mps), s.log)
    && s.log.passed == Frames(s.link.sent)
  }

  lemma InitInv(mps: nat, s: Channel)
    requires mps > 0 && Init(mps, s)
    ensures Inv(mps, s)
  {
    CtrlLink.InitInv(s.link);
    SendLog.InitInv(Endpoint(mps), s.log);
    hide CtrlLink.Inv, SendLog.Inv;
  }

  lemma IsrStepInv(mps: nat, s: Channel, t: Channel)
    requires Inv(mps, s) && IsrStep(s, t)
    ensures Inv(mps, t)
  {
    hide CtrlLink.Inv, SendLog.Inv, CtrlLink.InRange;
    assert CtrlLink.Step(s.link, t.link);
    CtrlLink.StepInv(s.link, t.link);
    IsrSendsNothing(s.link, t.link);
  }

  lemma IsrSendsNothing(s: CtrlLink.Link, t: CtrlLink.Link)
    requires CtrlLink.InRange(s)
    requires t == CtrlLink.IsrStep(s) || exists data: seq<byte> :: t == CtrlLink.Deliver(s, data)
    ensures t.sent == s.sent
  {
    hide CtrlLink.InRange;
  }

  lemma FramesGrow(replies: seq<Reply>, r: Reply)
    ensures Frames(replies + [r]) == Frames(replies) + [FrameOf(r)]
  {
    hide FrameOf;
  }

  lemma ThreadSends(s: CtrlLink.Link)
    requires CtrlLink.InRange(s)
    ensures var o := Completed(s);
            CtrlLink.ThreadStep(s).sent == s.sent + if o == Nothing then [] else [Answer(o)]
  {
    hide Next, Answer, CtrlLink.InRange, IsPending;
  }

  lemma LoopInv(mps: nat, s: Channel)
    requires Inv(mps, s) && s.log.usb.pc == UsbIn.Outside
    ensures CtrlLink.InRange(s.link) && Inv(mps, Loop(mps, s))
  {
    assert CtrlLink.InRange(s.link);
    hide CtrlLink.Inv, SendLog.Inv, CtrlLink.InRange, CtrlLink.ThreadStep, SendLog.Call, Completed, Answer, FrameOf, Frames;
    assert CtrlLink.Step(s.link, CtrlLink.ThreadStep(s.link));
    CtrlLink.StepInv(s.link, CtrlLink.ThreadStep(s.link));
    ThreadSends(s.link);
    var o := Completed(s.link);
    if o == Nothing {
      assert s.link.sent + [] == s.link.sent;
    } else {
      SendLog.CallInv(Endpoint(mps), s.log, FrameOf(Answer(o)));
      CallPasses(mps, s.log, FrameOf(Answer(o)));
      FramesGrow(s.link.sent, Answer(o));
    }
  }

  lemma CallPasses(mps: nat, s: SendLog.Log, data: seq<byte>)
    ensures SendLog.Call(Endpoint(mps), s, data).passed == s.passed + [data]
  {
    hide UsbIn.Call;
  }

  lemma SendStepInv(mps: nat, s: Channel, t: Channel)
    requires Inv(mps, s) && SendStep(mps, s, t)
    ensures Inv(mps, t)
  {
    SendLog.StepPasses(Endpoint(mps), s.log, t.log);
    hide CtrlLink.Inv, SendLog.Inv, SendLog.Step, Frames;
    SendLog.StepInv(Endpoint(mps), s.log, t.log);
  }

  lemma {:induction false} RunInv(mps: nat, run: seq<Channel>, k: nat)
    requires IsRun(mps, run) && k < |run|
    ensures Inv(mps, run[k])
    decreases k
  {
    hide Inv, IsrStep, SendStep, Loop;
    if k == 0 {
      InitInv(mps, run[0]);
    } else {
      RunInv(mps, run, k - 1);
      var s, t := run[k - 1], run[k];
      assert Step(mps, s, t);
      if IsrStep(s, t) {
        IsrStepInv(mps, s, t);
      } else if LoopStep(mps, s, t) {
        LoopInv(mps, s);
      } else {
        SendStepInv(mps, s, t);
      }
    }
  }

  // ---------------------------------------------------------------- what every run guarantees

  function Host(mps: nat, s: Channel): seq<seq<byte>> {
    SendLog.Host(Endpoint(mps), s.log)
  }

  /** The response frames that the reference decoder calls for on the bytes fed. */
  ghost function Due(s: Channel): seq<seq<byte>>
    requires CtrlLink.Inv(s.link)
  {
    CtrlLink.RepliesToFed(s.link);
    Frames(Replies(Decode(CtrlLink.Fed(s.link), 0)))
  }

  /** From the packets of the host to the packets for the host, in every interleaving and whatever the sends returned:
      what the host has read are response frames that were due, in order and once each; all those whose sends
      succeeded; and, between sends, none but those whose transfers were started. A failed send can leave its frame
      out and does nothing else. */
  lemma HostReadsSome(mps: nat, run: seq<Channel>, k: nat)
    requires IsRun(mps, run) && k < |run|
    ensures var s := run[k];
      && CtrlLink.Inv(s.link) && s.log.passed == Due(s)
      && SendLog.Sub(Host(mps, s), Due(s))
      && |s.log.results| <= |Due(s)| <= |s.log.results| + 1
      && var ended := Due(s)[..|s.log.results|];
      && SendLog.Sub(SendLog.Succeeded(ended, s.log.results), Host(mps, s))
      && (s.log.usb.pc.Outside? ==> SendLog.Sub(Host(mps, s), SendLog.Started(ended, s.log.results)))
  {
    RunInv(mps, run, k);
    hide IsRun, CtrlLink.Inv, SendLog.Inv, SendLog.Sub, SendLog.Started, SendLog.Succeeded, SendLog.Host, Decode, Frames,
         Replies, AllProper;
    CtrlLink.RepliesToFed(run[k].link);
    SendLog.HostReadsSome(Endpoint(mps), run[k].log);
  }

  function Joined(messages: seq<seq<byte>>): seq<byte> {
    if messages == [] then [] else messages[0] + Joined(messages[1..])
  }

  lemma {:induction false} FramesOnWire(replies: seq<Reply>)
    ensures Joined(Frames(replies)) == WireOf(replies)
  {
    hide FrameOf;
    if replies != [] {
      FramesOnWire(replies[1..]);
      assert Frames(replies)[1..] == Frames(replies[1..]);
    }
  }

  /** While every send that has ended has succeeded, the host has a prefix of the frames due, and outside a send all of
      them, which decode to exactly the replies. While moreover no put has found the ring full, the bytes fed are what
      arrived, once nothing is in flight. */
  lemma HostIsAnswered(mps: nat, run: seq<Channel>, k: nat)
    requires IsRun(mps, run) && k < |run|
    requires forall i :: 0 <= i < |run[k].log.results| ==> run[k].log.results[i] == 0
    ensures var s := run[k];
            var fed, got := CtrlLink.Fed(s.link), Host(mps, s);
      && AllProper(Decode(fed, 0))
      && got <= Frames(Replies(Decode(fed, 0)))
      && (s.log.usb.pc.Outside? ==>
            && got == Frames(Replies(Decode(fed, 0)))
            && Decode(Joined(got), 0) == Expected(Silent(Replies(Decode(fed, 0))), 0))
      && (s.link.dropped == 0 && CtrlLink.Quiescent(s.link) ==> fed == s.link.arrived)
  {
    RunInv(mps, run, k);
    var s := run[k];
    var fed := CtrlLink.Fed(s.link);
    CtrlLink.RepliesToFed(s.link);
    CtrlLink.FedIsPrefix(s.link);
    SendLog.HostReadsAll(Endpoint(mps), s.log);
    hide IsRun, CtrlLink.Inv, SendLog.Inv, SendLog.Host, CtrlLink.Fed, CtrlLink.Quiescent, Decode, Frames, Replies,
         AllProper, Joined, Expected, Silent;
    FramesOnWire(s.link.sent);
    ResponsesDecode(Decode(fed, 0), 0);
  }

  /** All it takes from the controller is not to refuse and to be in time: within the 501 looks that each wait has. */
  lemma HostIsAnsweredInTime(mps: nat, run: seq<Channel>, k: nat)
    requires IsRun(mps, run) && k < |run| && SendLog.AllInTime(run[k].log)
    ensures var s := run[k];
            var fed, got := CtrlLink.Fed(s.link), Host(mps, s);
      && AllProper(Decode(fed, 0))
      && got <= Frames(Replies(Decode(fed, 0)))
      && (s.log.usb.pc.Outside? ==> got == Frames(Replies(Decode(fed, 0))))
      && (s.link.dropped == 0 && CtrlLink.Quiescent(s.link) ==> fed == s.link.arrived)
  {
    RunInv(mps, run, k);
    hide IsRun, CtrlLink.Inv, SendLog.Inv, SendLog.AllInTime, SendLog.Host, CtrlLink.Fed, CtrlLink.Quiescent, Decode,
         Frames, Replies, AllProper, Joined, Expected, Silent;
    SendLog.AllSucceedInTime(Endpoint(mps), run[k].log);
    HostIsAnswered(mps, run, k);
  }

  /** Every frame passed on is fit to be sent: only an unconfigured device turns one away. */
  lemma OnlyUnconfiguredTurnsAway(mps: nat, run: seq<Channel>, k: nat, i: nat)
    requires IsRun(mps, run) && k < |run| && i < |run[k].log.results|
    ensures run[k].log.results[i] in {0, -2, -4, -5, -6}
    ensures run[k].log.results[i] == -2 <==> !run[k].log.usb.configured
  {
    RunInv(mps, run, k);
    hide IsRun;
    PassedFits(run[k], i);
    hide CtrlLink.Inv, UsbIn.Inv, SendLog.Recorded, UsbIn.LookInv, UsbIn.NeverClear, UsbIn.Cleared, Frames;
    assert UsbIn.Explains(Endpoint(mps), run[k].log.usb.configured, run[k].log.passed[i], run[k].log.courses[i],
                          run[k].log.results[i]);
  }

  lemma PassedFits(s: Channel, i: nat)
    requires CtrlLink.Inv(s.link) && s.log.passed == Frames(s.link.sent) && i < |s.log.passed|
    ensures 0 < |s.log.passed[i]| <= 4103
  {
    CtrlLink.RepliesToFed(s.link);
    hide CtrlLink.Inv, Decode, Proper, Answer, Frame, Size;
    AnswerFits(Decode(CtrlLink.Fed(s.link), 0)[i].outcome);
  }

  /** Half a second: a send gives up only after 501 looks at the flag that all found it set. */
  lemma GivesUpAfterHalfASecond(mps: nat, run: seq<Channel>, k: nat, i: nat)
    requires IsRun(mps, run) && k < |run| && i < |run[k].log.results|
    ensures |run[k].log.courses| == |run[k].log.results|
    ensures var ret, course := run[k].log.results[i], run[k].log.courses[i];
      && (ret == -4 ==> course.Entered? && course.looks.before == seq(501, _ => true))
      && (ret == -6 ==> course.Entered? && course.looks.after == seq(501, _ => true))
  {
    RunInv(mps, run, k);
    assert |run[k].log.courses| == |run[k].log.results|;
    hide IsRun, CtrlLink.Inv, SendLog.Inv;
    SendLog.GivesUpOnlyInTime(Endpoint(mps), run[k].log, i);
  }

  // ---------------------------------------------------------------- progress

  lemma ReplyFits(s: CtrlLink.Link)
    requires CtrlLink.InRange(s) && Completed(s) != Nothing
    ensures 0 < |FrameOf(Answer(Completed(s)))| <= MAX_FRAME
  {
    NextProper(s.pending, s.thread.b);
    hide Next, IsPending, Proper, Answer, Frame, Size;
    AnswerFits(Completed(s));
  }

  ghost predicate Free(s: Channel) {
    s.log.usb.pc.Outside? && !s.log.usb.busy && s.log.usb.configured
  }

  /** A step of the thread's loop leaves the endpoint free or a send under way. */
  lemma LoopAdvances(mps: nat, s: Channel)
    requires Inv(mps, s) && Free(s) && s.link.isr == CtrlLink.IsrIdle && !CtrlLink.Quiescent(s.link)
    ensures CtrlLink.InRange(s.link)
    ensures var t := Loop(mps, s);
      && CtrlLink.InRange(t.link) && CtrlLink.Work(t.link) < CtrlLink.Work(s.link)
      && t.link.isr == s.link.isr && t.link.accepted == s.link.accepted && t.link.arrived == s.link.arrived
      && t.link.dropped == s.link.dropped
      && t.log.results == s.log.results && t.log.usb.configured
      && (Free(t) || SendLog.Going(t.log.usb))
  {
    CtrlLink.ThreadAdvances(s.link);
    CtrlLink.ThreadAlone(s.link);
    if Completed(s.link) != Nothing {
      ReplyFits(s.link);
    }
    hide CtrlLink.Inv, SendLog.Inv, CtrlLink.InRange, CtrlLink.Work, CtrlLink.Quiescent, CtrlLink.ThreadStep, Completed,
         Answer, FrameOf, Frames;
  }

  /** A run that goes on from s without the OUT callback. */
  ghost predicate Continues(mps: nat, s: Channel, run: seq<Channel>) {
    && |run| > 0 && run[0] == s
    && forall i | 0 <= i < |run| - 1 :: LoopStep(mps, run[i], run[i + 1]) || SendStep(mps, run[i], run[i + 1])
  }

  ghost predicate Grown(a: seq<int>, b: seq<int>) {
    a <= b && forall i :: |a| <= i < |b| ==> b[i] == 0
  }

  lemma ContinuesFurther(mps: nat, s: Channel, first: seq<Channel>, rest: seq<Channel>)
    requires Continues(mps, s, first) && Continues(mps, first[|first| - 1], rest)
    ensures Continues(mps, s, first + rest[1..])
    ensures (first + rest[1..])[|first + rest[1..]| - 1] == rest[|rest| - 1]
  {
    hide LoopStep, SendStep;
    var run := first + rest[1..];
    forall i | 0 <= i < |run| - 1 ensures LoopStep(mps, run[i], run[i + 1]) || SendStep(mps, run[i], run[i + 1]) {
      if i >= |first| - 1 {
        assert run[i] == rest[i - |first| + 1] && run[i + 1] == rest[i - |first| + 2];
      }
    }
  }

  /** The send in the middle of the channel. */
  lemma SendFinishes(mps: nat, s: Channel) returns (run: seq<Channel>)
    requires Inv(mps, s) && SendLog.Going(s.log.usb) && s.log.usb.configured
    ensures Continues(mps, s, run)
    ensures var t := run[|run| - 1];
      Inv(mps, t) && t.link == s.link && Free(t) && t.log.results == s.log.results + [0]
  {
    hide CtrlLink.Inv, SendLog.Inv, SendLog.Going, SendLog.Step, Frames;
    var logs := SendLog.SendCompletes(Endpoint(mps), s.log);
    run := seq(|logs|, i requires 0 <= i < |logs| => Channel(s.link, logs[i]));
    forall i | 0 <= i < |run| - 1 ensures SendStep(mps, run[i], run[i + 1]) {
      assert SendLog.Step(Endpoint(mps), logs[i], logs[i + 1]);
    }
  }

  /** With a prompt controller: from any moment at which the callback is idle and the endpoint is free, or a send that
      is in order is under way, the thread alone gets to where everything accepted has been judged and answered, every
      further send has succeeded, and, if all before did too, the host has read a response frame for each judgement. */
  lemma {:induction false} EverythingIsAnswered(mps: nat, s: Channel) returns (run: seq<Channel>)
    requires Inv(mps, s) && s.link.isr == CtrlLink.IsrIdle && s.log.usb.configured
    requires Free(s) || SendLog.Going(s.log.usb)
    ensures Continues(mps, s, run)
    ensures var t := run[|run| - 1];
      && Inv(mps, t) && CtrlLink.Quiescent(t.link) && Free(t)
      && t.link.accepted == s.link.accepted && t.link.arrived == s.link.arrived && t.link.dropped == s.link.dropped
      && Grown(s.log.results, t.log.results)
    decreases CtrlLink.Work(s.link), if Free(s) then 0 else 1
  {
    hide Inv, Loop, SendStep, Free, SendLog.Going, CtrlLink.Quiescent, CtrlLink.Work, CtrlLink.InRange;
    if !Free(s) {
      var first := SendFinishes(mps, s);
      var t := first[|first| - 1];
      FreeIsConfigured(t);
      var rest := EverythingIsAnswered(mps, t);
      ContinuesFurther(mps, s, first, rest);
      run := first + rest[1..];
    } else if CtrlLink.Quiescent(s.link) {
      run := [s];
    } else {
      FreeIsConfigured(s);
      LoopAdvances(mps, s);
      LoopInv(mps, s);
      var t := Loop(mps, s);
      var rest := EverythingIsAnswered(mps, t);
      assert LoopStep(mps, s, t);
      assert Continues(mps, s, [s, t]);
      ContinuesFurther(mps, s, [s, t], rest);
      run := [s, t] + rest[1..];
    }
  }

  lemma FreeIsConfigured(s: Channel)
    requires Free(s)
    ensures s.log.usb.configured && s.log.usb.pc == UsbIn.Outside
  {
  }

  /** ... which is to say: */
  lemma AnsweredMeansRead(mps: nat, t: Channel)
    requires Inv(mps, t) && CtrlLink.Quiescent(t.link) && Free(t)
    requires forall i :: 0 <= i < |t.log.results| ==> t.log.results[i] == 0
    ensures AllProper(Decode(t.link.accepted, 0))
    ensures Host(mps, t) == Frames(Replies(Decode(t.link.accepted, 0)))
    ensures t.link.dropped == 0 ==> t.link.accepted == t.link.arrived
  {
    CtrlLink.QuiescentAnswered(t.link);
    SendLog.HostReadsAll(Endpoint(mps), t.log);
    hide CtrlLink.Inv, SendLog.Inv, SendLog.Host, Decode, Frames, Replies, AllProper;
  }
}
