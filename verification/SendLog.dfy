/** A sender and its caller: what was passed to the blocking send, what each call returned, and what of it the host
    has read. Both channels send this way. */
module SendLog {
  import opened FrameProto
  import UsbIn

  /** `passed` are the messages handed to the send so far, `results` the results of the calls that have ended and
      `courses` what those calls did. */
  datatype Log = Log(usb: UsbIn.Send, passed: seq<seq<byte>>, results: seq<int>, courses: seq<UsbIn.Course>)

  ghost predicate Init(c: UsbIn.Config, s: Log) {
    UsbIn.Init(c, s.usb) && s.passed == [] && s.results == [] && s.courses == []
  }

  /** The caller enters a send; a call that is turned away ends at once. */
  function Call(c: UsbIn.Config, s: Log, data: seq<byte>): Log {
    var usb := UsbIn.Call(c, s.usb, data);
    var t := s.(usb := usb, passed := s.passed + [data]);
    if usb.pc.Outside? then t.(results := s.results + [usb.ret], courses := s.courses + [UsbIn.TurnedAway]) else t
  }

  /** The caller inside a send. */
  function ThreadStep(c: UsbIn.Config, s: Log, ok: bool): Log
    requires |s.usb.msg| <= |s.usb.buf|
  {
    var usb := UsbIn.ThreadStep(c, s.usb, ok);
    var t := s.(usb := usb);
    if usb.pc.Outside? then t.(results := s.results + [usb.ret], courses := s.courses + [UsbIn.Entered(usb.looks)]) else t
  }

  /** A step of the caller inside a send, of the controller, or of the IN callback. */
  ghost predicate Step(c: UsbIn.Config, s: Log, t: Log) {
    && UsbIn.WellFormed(c, s.usb)
    && (|| (!s.usb.pc.Outside? && exists ok: bool :: t == ThreadStep(c, s, ok))
        || t == s.(usb := UsbIn.WireStep(c, s.usb))
        || (exists ok: bool :: t == s.(usb := UsbIn.CallbackStep(c, s.usb, ok))))
  }

  lemma StepPasses(c: UsbIn.Config, s: Log, t: Log)
    requires Step(c, s, t)
    ensures t.passed == s.passed
  {
    hide UsbIn.ThreadStep, UsbIn.WireStep, UsbIn.CallbackStep;
  }

  // ---------------------------------------------------------------- what a result says

  /** Only these results leave a transfer started: all sent, or waiting for its end given up. */
  predicate Went(code: int) {
    code == 0 || code == -6
  }

  function Maybe(b: bool, x: seq<byte>): seq<seq<byte>> {
    if b then [x] else []
  }

  /** The messages whose transfers were started. */
  function Started(messages: seq<seq<byte>>, codes: seq<int>): seq<seq<byte>>
    requires |messages| == |codes|
  {
    if codes == [] then []
    else
      var n := |codes| - 1;
      Started(messages[..n], codes[..n]) + Maybe(Went(codes[n]), messages[n])
  }

  /** The messages whose sends succeeded. */
  function Succeeded(messages: seq<seq<byte>>, codes: seq<int>): seq<seq<byte>>
    requires |messages| == |codes|
  {
    if codes == [] then []
    else
      var n := |codes| - 1;
      Succeeded(messages[..n], codes[..n]) + Maybe(codes[n] == 0, messages[n])
  }

  /** The last result that left a transfer started. */
  function LastWent(codes: seq<int>): int {
    if codes == [] then 0
    else if Went(codes[|codes| - 1]) then codes[|codes| - 1]
    else LastWent(codes[..|codes| - 1])
  }

  /** a is b with elements left out. */
  predicate Sub(a: seq<seq<byte>>, b: seq<seq<byte>>)
    decreases |b|
  {
    if a == [] then true
    else if b == [] then false
    else
      var m, n := |a| - 1, |b| - 1;
      Sub(a, b[..n]) || (a[m] == b[n] && Sub(a[..m], b[..n]))
  }

  lemma SubMore(a: seq<seq<byte>>, b: seq<seq<byte>>, x: seq<byte>)
    requires Sub(a, b)
    ensures Sub(a, b + [x]) && Sub(a + [x], b + [x])
  {
    assert (b + [x])[..|b|] == b && (a + [x])[..|a|] == a;
  }

  lemma {:induction false} SubFront(a: seq<seq<byte>>, b: seq<seq<byte>>)
    requires Sub(a, b) && a != []
    ensures Sub(a[..|a| - 1], b)
    decreases |b|
  {
    var front := b[..|b| - 1];
    assert b == front + [b[|b| - 1]];
    if Sub(a, front) { SubFront(a, front); }
    SubMore(a[..|a| - 1], front, b[|b| - 1]);
  }

  lemma {:induction false} SubItself(a: seq<seq<byte>>)
    ensures Sub(a, a)
    decreases |a|
  {
    if a != [] {
      SubItself(a[..|a| - 1]);
      SubMore(a[..|a| - 1], a[..|a| - 1], a[|a| - 1]);
      assert a == a[..|a| - 1] + [a[|a| - 1]];
    }
  }

  lemma SubMaybe(a: seq<seq<byte>>, b: seq<seq<byte>>, p: bool, q: bool, x: seq<byte>)
    requires Sub(a, b) && (p ==> q)
    ensures Sub(a + Maybe(p, x), b + Maybe(q, x))
  {
    hide Sub;
    SubMore(a, b, x);
    assert a + [] == a && b + [] == b;
  }

  lemma {:induction false} StartedIsSub(m: seq<seq<byte>>, codes: seq<int>)
    requires |m| == |codes|
    ensures Sub(Started(m, codes), m) && Sub(Succeeded(m, codes), Started(m, codes))
    decreases |m|
  {
    hide Sub, Went, Maybe;
    if m == [] {
      NothingIsSub(m);
    } else {
      var n := |m| - 1;
      StartedIsSub(m[..n], codes[..n]);
      ZeroWent(codes[n], m[n]);
      SubMaybe(Started(m[..n], codes[..n]), m[..n], Went(codes[n]), true, m[n]);
      SubMaybe(Succeeded(m[..n], codes[..n]), Started(m[..n], codes[..n]), codes[n] == 0, Went(codes[n]), m[n]);
      assert m == m[..n] + [m[n]];
    }
  }

  lemma ZeroWent(code: int, x: seq<byte>)
    ensures (code == 0 ==> Went(code)) && Maybe(true, x) == [x]
  {
  }

  lemma NothingIsSub(b: seq<seq<byte>>)
    ensures Sub([], b)
  {
  }

  /** When the last transfer was given up, all that succeeded comes before it. */
  lemma {:induction false} SucceededBefore(m: seq<seq<byte>>, codes: seq<int>)
    requires |m| == |codes| && LastWent(codes) == -6
    ensures Started(m, codes) != []
    ensures Sub(Succeeded(m, codes), Started(m, codes)[..|Started(m, codes)| - 1])
    decreases |m|
  {
    hide Sub;
    var n := |m| - 1;
    var before := Started(m[..n], codes[..n]);
    assert Succeeded(m[..n], codes[..n]) + [] == Succeeded(m[..n], codes[..n]);
    if Went(codes[n]) {
      StartedIsSub(m[..n], codes[..n]);
      assert (before + [m[n]])[..|before|] == before;
    } else {
      SucceededBefore(m[..n], codes[..n]);
      assert before + [] == before;
    }
  }

  lemma {:induction false} AllSucceeded(m: seq<seq<byte>>, codes: seq<int>)
    requires |m| == |codes| && forall i :: 0 <= i < |codes| ==> codes[i] == 0
    ensures Started(m, codes) == m && LastWent(codes) == 0
    decreases |m|
  {
    if m != [] {
      var n := |m| - 1;
      AllSucceeded(m[..n], codes[..n]);
      assert m == m[..n] + [m[n]];
    }
  }

  // ---------------------------------------------------------------- the invariant

  ghost predicate Recorded(s: Log) {
    && |s.results| + (if s.usb.pc.Outside? then 0 else 1) == |s.passed|
    && (!s.usb.pc.Outside? ==> s.passed[|s.passed| - 1] == s.usb.msg)
    && s.usb.started ==
         Started(s.passed[..|s.results|], s.results) + Maybe(s.usb.pc.WaitingSent?, s.usb.msg)
    && (s.usb.busy && (s.usb.pc.Outside? || s.usb.pc.WaitingFree?) ==> LastWent(s.results) == -6)
  }

  /** Every call that has ended returned the one result that goes with what it did. */
  ghost predicate Explained(c: UsbIn.Config, s: Log) {
    && UsbIn.LookInv(c, s.usb)
    && |s.courses| == |s.results| <= |s.passed|
    && forall i :: 0 <= i < |s.results| ==>
         UsbIn.Explains(c, s.usb.configured, s.passed[i], s.courses[i], s.results[i])
  }

  ghost predicate Inv(c: UsbIn.Config, s: Log) {
    UsbIn.Inv(c, s.usb) && Recorded(s) && Explained(c, s)
  }

  lemma InitInv(c: UsbIn.Config, s: Log)
    requires c.mps > 0 && Init(c, s)
    ensures Inv(c, s)
  {
    UsbIn.InitInv(c, s.usb);
    hide UsbIn.Inv;
  }

  lemma NextResult(m: seq<seq<byte>>, codes: seq<int>, x: seq<byte>, code: int)
    requires |m| == |codes|
    ensures Started(m + [x], codes + [code]) == Started(m, codes) + Maybe(Went(code), x)
    ensures Succeeded(m + [x], codes + [code]) == Succeeded(m, codes) + Maybe(code == 0, x)
    ensures LastWent(codes + [code]) == if Went(code) then code else LastWent(codes)
  {
    assert (m + [x])[..|m|] == m && (codes + [code])[..|codes|] == codes;
  }

  lemma CallMoves(c: UsbIn.Config, s: UsbIn.Send, data: seq<byte>)
    requires s.pc.Outside?
    ensures var t := UsbIn.Call(c, s, data);
      && t.started == s.started && t.busy == s.busy
      && (if t.pc.Outside? then t.ret in {-1, -2, -3} else t.pc.WaitingFree? && t.msg == data)
  {
  }

  lemma CallTurnedAway(s: Log, t: UsbIn.Send, data: seq<byte>, courses: seq<UsbIn.Course>)
    requires Recorded(s) && s.usb.pc.Outside? && t.pc.Outside?
    requires t.started == s.usb.started && t.busy == s.usb.busy && t.ret in {-1, -2, -3}
    ensures Recorded(Log(t, s.passed + [data], s.results + [t.ret], courses))
  {
    hide Started, Succeeded, LastWent;
    var passed, before := s.passed + [data], Started(s.passed, s.results);
    assert s.passed[..|s.results|] == s.passed && passed[..|s.results| + 1] == passed;
    assert before + [] == before && before + [] + [] == before;
    NextResult(s.passed, s.results, data, t.ret);
  }

  lemma CallEntered(s: Log, t: UsbIn.Send, data: seq<byte>)
    requires Recorded(s) && s.usb.pc.Outside? && t.pc.WaitingFree? && t.msg == data
    requires t.started == s.usb.started && t.busy == s.usb.busy
    ensures Recorded(s.(usb := t, passed := s.passed + [data]))
  {
    hide Started, LastWent;
    assert s.passed[..|s.results|] == s.passed == (s.passed + [data])[..|s.results|];
  }

  lemma CallInv(c: UsbIn.Config, s: Log, data: seq<byte>)
    requires Inv(c, s) && s.usb.pc.Outside?
    ensures Inv(c, Call(c, s, data))
  {
    UsbIn.CallInv(c, s.usb, data);
    CallMoves(c, s.usb, data);
    CallExplained(c, s, data);
    hide UsbIn.Inv, UsbIn.Call, Recorded, Explained;
    var usb := UsbIn.Call(c, s.usb, data);
    if usb.pc.Outside? {
      CallTurnedAway(s, usb, data, s.courses + [UsbIn.TurnedAway]);
    } else {
      CallEntered(s, usb, data);
    }
  }

  lemma CallExplained(c: UsbIn.Config, s: Log, data: seq<byte>)
    requires Explained(c, s) && Recorded(s) && s.usb.pc.Outside?
    ensures Explained(c, Call(c, s, data))
  {
    UsbIn.CallLooks(c, s.usb, data);
    assert |s.results| == |s.passed|;
    hide UsbIn.Call, UsbIn.LookInv, UsbIn.Explains, UsbIn.Admitted, Recorded;
    var t := Call(c, s, data);
    forall i | 0 <= i < |t.results|
      ensures UsbIn.Explains(c, t.usb.configured, t.passed[i], t.courses[i], t.results[i])
    {
      if i < |s.results| { assert t.passed[i] == s.passed[i] && t.results[i] == s.results[i]; }
    }
  }

  lemma ThreadExplained(c: UsbIn.Config, s: Log, ok: bool)
    requires Explained(c, s) && Recorded(s) && !s.usb.pc.Outside? && |s.usb.msg| <= |s.usb.buf|
    ensures Explained(c, ThreadStep(c, s, ok))
  {
    UsbIn.ThreadLooks(c, s.usb, ok);
    assert |s.results| + 1 == |s.passed| && s.passed[|s.results|] == s.usb.msg;
    hide UsbIn.ThreadStep, UsbIn.LookInv, UsbIn.Explains, Recorded;
    var t := ThreadStep(c, s, ok);
    forall i | 0 <= i < |t.results|
      ensures UsbIn.Explains(c, t.usb.configured, t.passed[i], t.courses[i], t.results[i])
    {
      if i < |s.results| { assert t.courses[i] == s.courses[i] && t.results[i] == s.results[i]; }
    }
  }

  lemma ControllerExplained(c: UsbIn.Config, s: Log, usb: UsbIn.Send)
    requires Explained(c, s) && UsbIn.WellFormed(c, s.usb)
    requires usb == UsbIn.WireStep(c, s.usb) || exists ok: bool :: usb == UsbIn.CallbackStep(c, s.usb, ok)
    ensures Explained(c, s.(usb := usb))
  {
    UsbIn.OthersLeaveCaller(c, s.usb, usb);
    hide UsbIn.WireStep, UsbIn.CallbackStep, UsbIn.Explains, UsbIn.Admitted, UsbIn.Cleared, UsbIn.Trues;
  }

  /** How a step of the caller inside a send moves what the log depends on. */
  ghost predicate Moved(s: UsbIn.Send, t: UsbIn.Send) {
    && t.msg == s.msg
    && t.started == s.started + Maybe(!s.pc.WaitingSent? && t.pc.WaitingSent?, s.msg)
    && (s.pc.WaitingSent? ==> t.pc.WaitingSent? || (t.pc.Outside? && t.ret == (if s.busy then -6 else 0) && t.busy == s.busy))
    && (!s.pc.WaitingSent? && t.pc.Outside? ==> t.ret in {-4, -5} && (t.busy ==> s.busy && s.pc.WaitingFree?))
    && (t.pc.WaitingFree? ==> s.pc.WaitingFree? && t.busy == s.busy)
  }

  lemma ThreadMoves(c: UsbIn.Config, s: UsbIn.Send, ok: bool)
    requires UsbIn.BusyInv(s) && !s.pc.Outside? && |s.msg| <= |s.buf|
    ensures Moved(s, UsbIn.ThreadStep(c, s, ok))
  {
    hide UsbIn.Overlay;
    assert s.started + [] == s.started;
  }

  lemma StillInside(s: Log, t: UsbIn.Send)
    requires Recorded(s) && !s.usb.pc.Outside? && Moved(s.usb, t) && !t.pc.Outside?
    ensures Recorded(s.(usb := t))
  {
    hide Started, LastWent;
    var before := Started(s.passed[..|s.results|], s.results);
    assert before + [] == before && before + [s.usb.msg] + [] == before + [s.usb.msg];
  }

  lemma SendEnds(s: Log, t: UsbIn.Send, courses: seq<UsbIn.Course>)
    requires Recorded(s) && !s.usb.pc.Outside? && Moved(s.usb, t) && t.pc.Outside?
    ensures Recorded(Log(t, s.passed, s.results + [t.ret], courses))
  {
    hide Started, Succeeded, LastWent;
    var n, msg := |s.results|, s.usb.msg;
    var before := Started(s.passed[..n], s.results);
    assert s.passed == s.passed[..n] + [msg] && s.passed[..n + 1] == s.passed;
    assert before + [] == before && before + [msg] + [] == before + [msg];
    NextResult(s.passed[..n], s.results, msg, t.ret);
  }

  lemma ThreadInv(c: UsbIn.Config, s: Log, ok: bool)
    requires Inv(c, s) && !s.usb.pc.Outside?
    ensures |s.usb.msg| <= |s.usb.buf| && Inv(c, ThreadStep(c, s, ok))
  {
    UsbIn.ThreadInv(c, s.usb, ok);
    ThreadMoves(c, s.usb, ok);
    ThreadExplained(c, s, ok);
    hide UsbIn.Inv, UsbIn.ThreadStep, Recorded, Moved, Explained;
    var usb := UsbIn.ThreadStep(c, s.usb, ok);
    if usb.pc.Outside? { SendEnds(s, usb, s.courses + [UsbIn.Entered(usb.looks)]); } else { StillInside(s, usb); }
  }

  lemma ControllerInv(c: UsbIn.Config, s: Log, usb: UsbIn.Send)
    requires Inv(c, s)
    requires usb == UsbIn.WireStep(c, s.usb) || exists ok: bool :: usb == UsbIn.CallbackStep(c, s.usb, ok)
    ensures Inv(c, s.(usb := usb))
  {
    if usb == UsbIn.WireStep(c, s.usb) {
      UsbIn.WireInv(c, s.usb);
    } else {
      var ok: bool :| usb == UsbIn.CallbackStep(c, s.usb, ok);
      UsbIn.CallbackInv(c, s.usb, ok);
    }
    ControllerExplained(c, s, usb);
    hide UsbIn.BusInv, UsbIn.BusyInv, UsbIn.WellFormed, UsbIn.NeedsZlp, Started, LastWent, Explained;
  }

  lemma StepInv(c: UsbIn.Config, s: Log, t: Log)
    requires Inv(c, s) && Step(c, s, t)
    ensures Inv(c, t)
  {
    hide Inv, ThreadStep, UsbIn.WireStep, UsbIn.CallbackStep;
    if !s.usb.pc.Outside? && exists ok: bool :: t == ThreadStep(c, s, ok) {
      var ok: bool :| t == ThreadStep(c, s, ok);
      ThreadInv(c, s, ok);
    } else {
      ControllerInv(c, s, t.usb);
    }
  }

  // ---------------------------------------------------------------- what the host has

  function Host(c: UsbIn.Config, s: Log): seq<seq<byte>> {
    UsbIn.HostRead(s.usb.packets, [], c.mps)
  }

  /** Whatever the calls returned: the host has read, in order and once each, some of the messages passed; all those
      whose sends succeeded, and none whose transfer was not started. */
  lemma HostReadsSome(c: UsbIn.Config, s: Log)
    requires Inv(c, s)
    ensures |s.results| <= |s.passed| <= |s.results| + 1
    ensures Sub(Host(c, s), s.passed)
    ensures var ended := s.passed[..|s.results|];
      && Sub(Succeeded(ended, s.results), Host(c, s))
      && (s.usb.pc.Outside? ==> Sub(Host(c, s), Started(ended, s.results)))
  {
    UsbIn.HostDecodes(c, s.usb);
    WhoIsInProgress(c, s.usb);
    var ended, started, got := s.passed[..|s.results|], s.usb.started, Host(c, s);
    hide UsbIn.Inv, UsbIn.HostRead, UsbIn.InProgress, Started, Succeeded, LastWent, Sub;
    var mine := Started(ended, s.results);
    assert mine + [] == mine && (mine + [s.usb.msg])[..|mine|] == mine;
    StartedIsSub(ended, s.results);
    StartedAmongPassed(s);
    SubItself(started);
    if got != started {
      SubFront(started, s.passed);
      SubFront(started, started);
      if !s.usb.pc.WaitingSent? { SucceededBefore(ended, s.results); }
    } else {
      SubMore(Succeeded(ended, s.results), mine, s.usb.msg);
    }
  }

  lemma StartedAmongPassed(s: Log)
    requires Recorded(s)
    ensures Sub(s.usb.started, s.passed)
  {
    hide Started, LastWent, Sub;
    var ended := s.passed[..|s.results|];
    var mine := Started(ended, s.results);
    StartedIsSub(ended, s.results);
    assert mine + [] == mine;
    if s.usb.pc.Outside? {
      assert ended == s.passed;
    } else {
      assert s.passed == ended + [s.usb.msg];
      SubMore(mine, ended, s.usb.msg);
    }
  }

  lemma WhoIsInProgress(c: UsbIn.Config, s: UsbIn.Send)
    requires UsbIn.Inv(c, s)
    ensures c.mps > 0
    ensures UsbIn.InProgress(c, s) ==> s.busy && (s.pc.Outside? || s.pc.WaitingFree? || s.pc.WaitingSent?)
  {
    hide UsbIn.BusInv;
  }

  /** While every call that has ended has succeeded, the host has a prefix of what was passed, and between calls all
      of it. */
  lemma HostReadsAll(c: UsbIn.Config, s: Log)
    requires Inv(c, s)
    requires forall i :: 0 <= i < |s.results| ==> s.results[i] == 0
    ensures Host(c, s) <= s.passed
    ensures s.usb.pc.Outside? ==> Host(c, s) == s.passed
  {
    hide UsbIn.Inv, UsbIn.HostRead, UsbIn.InProgress, Recorded;
    UsbIn.HostDecodes(c, s.usb);
    WhoIsInProgress(c, s.usb);
    AllStarted(s);
    if UsbIn.InProgress(c, s.usb) { PrefixOfPrefix(s.usb.started, s.passed); }
  }

  lemma PrefixOfPrefix(a: seq<seq<byte>>, b: seq<seq<byte>>)
    requires a <= b && a != []
    ensures a[..|a| - 1] <= b
  {
  }

  lemma AllStarted(s: Log)
    requires Recorded(s) && forall i :: 0 <= i < |s.results| ==> s.results[i] == 0
    ensures s.usb.started <= s.passed
    ensures s.usb.pc.Outside? ==> s.usb.started == s.passed
    ensures s.usb.busy ==> !s.usb.pc.Outside? && !s.usb.pc.WaitingFree?
  {
    hide Started, LastWent;
    var ended := s.passed[..|s.results|];
    AllSucceeded(ended, s.results);
    assert ended + [] == ended;
    if !s.usb.pc.Outside? { assert s.passed == ended + [s.usb.msg]; }
  }

  // ---------------------------------------------------------------- giving up, and ending

  /** A call gives up only after timeout + 1 looks, all of which found the flag set: -4 before its copy, -6 after its
      start. */
  lemma GivesUpOnlyInTime(c: UsbIn.Config, s: Log, i: nat)
    requires Inv(c, s) && i < |s.results|
    ensures s.results[i] == -4 ==> s.courses[i].Entered? && UsbIn.NeverClear(s.courses[i].looks.before, c.timeout)
    ensures s.results[i] == -6 ==> s.courses[i].Entered? && UsbIn.NeverClear(s.courses[i].looks.after, c.timeout)
    ensures s.results[i] == -5 ==> s.courses[i].Entered? && s.courses[i].looks.refused
  {
    hide UsbIn.Inv, Recorded, UsbIn.LookInv, UsbIn.NeverClear, UsbIn.Cleared;
  }

  /** A call was in time when the controller did not refuse it and some look of each wait found the flag clear. */
  ghost predicate InTime(course: UsbIn.Course) {
    course.Entered? && !course.looks.refused && false in course.looks.before && false in course.looks.after
  }

  lemma SucceedsWhenInTime(c: UsbIn.Config, s: Log, i: nat)
    requires Inv(c, s) && i < |s.results|
    ensures s.results[i] == 0 <==> InTime(s.courses[i])
  {
    hide UsbIn.Inv, Recorded, UsbIn.LookInv, UsbIn.Explains;
    UsbIn.ZeroExactly(c, s.usb.configured, s.passed[i], s.courses[i], s.results[i]);
  }

  ghost predicate AllInTime(s: Log) {
    forall i :: 0 <= i < |s.courses| ==> InTime(s.courses[i])
  }

  lemma AllSucceedInTime(c: UsbIn.Config, s: Log)
    requires Inv(c, s) && AllInTime(s)
    ensures forall i :: 0 <= i < |s.results| ==> s.results[i] == 0
  {
    assert |s.courses| == |s.results|;
    hide Inv, InTime;
    forall i | 0 <= i < |s.results| ensures s.results[i] == 0 {
      SucceedsWhenInTime(c, s, i);
    }
  }

  datatype Move = Caller(ok: bool) | Controller | Callback(ok: bool)

  /** One move while a call is under way; a caller that is outside does not move. */
  function Apply(c: UsbIn.Config, s: Log, m: Move): Log
    requires UsbIn.WellFormed(c, s.usb)
  {
    match m
    case Caller(ok) => if s.usb.pc.Outside? then s else ThreadStep(c, s, ok)
    case Controller => s.(usb := UsbIn.WireStep(c, s.usb))
    case Callback(ok) => s.(usb := UsbIn.CallbackStep(c, s.usb, ok))
  }

  lemma ApplyInv(c: UsbIn.Config, s: Log, m: Move)
    requires Inv(c, s)
    ensures UsbIn.WellFormed(c, s.usb) && Inv(c, Apply(c, s, m))
  {
    hide Recorded, Explained, UsbIn.BusInv, UsbIn.BusyInv;
    match m
    case Caller(ok) => if !s.usb.pc.Outside? { ThreadInv(c, s, ok); }
    case Controller => ControllerInv(c, s, UsbIn.WireStep(c, s.usb));
    case Callback(ok) => ControllerInv(c, s, UsbIn.CallbackStep(c, s.usb, ok));
  }

  ghost function After(c: UsbIn.Config, s: Log, moves: seq<Move>): (t: Log)
    requires Inv(c, s)
    ensures Inv(c, t)
    decreases |moves|
  {
    if moves == [] then s else
      ApplyInv(c, s, moves[0]);
      After(c, Apply(c, s, moves[0]), moves[1..])
  }

  function CallerMoves(moves: seq<Move>): nat {
    if moves == [] then 0 else (if moves[0].Caller? then 1 else 0) + CallerMoves(moves[1..])
  }

  /** Between s and t the call under way has ended, and no other has begun. */
  ghost predicate Ended(s: Log, t: Log) {
    t.usb.pc.Outside? && t.passed == s.passed && t.results == s.results + [t.usb.ret]
  }

  /** What a move does to a call that is under way: the caller's own moves use it up, the others leave it alone. */
  lemma ApplyAdvances(c: UsbIn.Config, s: Log, m: Move)
    requires Inv(c, s) && !s.usb.pc.Outside?
    ensures UsbIn.WellFormed(c, s.usb)
    ensures var t := Apply(c, s, m);
      && (m.Caller? ==> UsbIn.Left(c, t.usb.pc) < UsbIn.Left(c, s.usb.pc))
      && (!m.Caller? ==> t.usb.pc == s.usb.pc)
      && t.passed == s.passed
      && (if t.usb.pc.Outside? then Ended(s, t) else t.results == s.results)
  {
    match m
    case Caller(ok) =>
      UsbIn.LeftShrinks(c, s.usb, ok);
      hide UsbIn.Left, UsbIn.ThreadStep, Recorded, Explained, UsbIn.BusInv, UsbIn.BusyInv;
    case Controller => UsbIn.OthersLeaveCaller(c, s.usb, UsbIn.WireStep(c, s.usb));
    case Callback(ok) => UsbIn.OthersLeaveCaller(c, s.usb, UsbIn.CallbackStep(c, s.usb, ok));
  }

  lemma EndedLater(s: Log, t: Log, u: Log)
    requires Ended(t, u) && t.passed == s.passed && t.results == s.results
    ensures Ended(s, u)
  {
  }

  lemma {:induction false} CallComesToEnd(c: UsbIn.Config, s: Log, moves: seq<Move>) returns (n: nat)
    requires Inv(c, s) && !s.usb.pc.Outside? && CallerMoves(moves) >= UsbIn.Left(c, s.usb.pc)
    ensures n <= |moves| && Ended(s, After(c, s, moves[..n]))
    decreases |moves|
  {
    LeftIsPositive(c, s);
    MovesLeft(moves);
    ApplyAdvances(c, s, moves[0]);
    ApplyInv(c, s, moves[0]);
    hide *;
    var t, rest := Apply(c, s, moves[0]), moves[1..];
    if t.usb.pc.Outside? {
      n := 1;
      AfterFirst(c, s, moves, 0);
      AfterNothing(c, t);
    } else {
      var m := CallComesToEnd(c, t, rest);
      n := m + 1;
      AfterFirst(c, s, moves, m);
      EndedLater(s, t, After(c, t, rest[..m]));
    }
  }

  lemma MovesLeft(moves: seq<Move>)
    ensures CallerMoves(moves) > 0 ==> moves != []
    ensures moves != [] ==> CallerMoves(moves[1..]) == CallerMoves(moves) - if moves[0].Caller? then 1 else 0
  {
  }

  lemma AfterFirst(c: UsbIn.Config, s: Log, moves: seq<Move>, m: nat)
    requires Inv(c, s) && m + 1 <= |moves|
    ensures UsbIn.WellFormed(c, s.usb) && Inv(c, Apply(c, s, moves[0]))
    ensures After(c, s, moves[..m + 1]) == After(c, Apply(c, s, moves[0]), moves[1..][..m])
  {
    ApplyInv(c, s, moves[0]);
    hide Inv, Apply, UsbIn.WellFormed;
    assert moves[..m + 1][0] == moves[0] && moves[..m + 1][1..] == moves[1..][..m];
  }

  lemma AfterNothing(c: UsbIn.Config, s: Log)
    requires Inv(c, s)
    ensures After(c, s, []) == s
  {
    hide Inv;
  }

  lemma LeftIsPositive(c: UsbIn.Config, s: Log)
    requires Inv(c, s) && !s.usb.pc.Outside?
    ensures UsbIn.Left(c, s.usb.pc) > 0 && UsbIn.Left(c, UsbIn.WaitingFree(0)) == 2 * c.timeout + 5
  {
    hide UsbIn.BusInv, UsbIn.BusyInv, Recorded;
  }

  /** Every call ends: whatever the controller and the callback do in between, after at most Left steps of its own,
      which from the beginning are 2 * timeout + 5. It then has exactly one result, which is 0 exactly when the
      controller was in time: it did not refuse, and each wait found the flag clear within timeout + 1 looks. */
  lemma CallEnds(c: UsbIn.Config, s: Log, moves: seq<Move>) returns (n: nat)
    requires Inv(c, s) && !s.usb.pc.Outside? && CallerMoves(moves) >= UsbIn.Left(c, s.usb.pc)
    ensures n <= |moves|
    ensures var t := After(c, s, moves[..n]);
      && Ended(s, t)
      && |t.courses| == |t.results| && (t.usb.ret == 0 <==> InTime(t.courses[|s.results|]))
    ensures UsbIn.Left(c, UsbIn.WaitingFree(0)) == 2 * c.timeout + 5
  {
    n := CallComesToEnd(c, s, moves);
    LeftIsPositive(c, s);
    var t := After(c, s, moves[..n]);
    assert |t.courses| == |t.results|;
    hide Inv, After, InTime, UsbIn.Left;
    SucceedsWhenInTime(c, t, |s.results|);
  }

  /** The controller need not be fast: a transfer that is over before the caller has given up is a success, whatever
      the controller and the callback do after that. */
  lemma {:induction false} OverInTime(c: UsbIn.Config, s: Log, moves: seq<Move>) returns (n: nat)
    requires Inv(c, s) && s.usb.pc.WaitingSent? && !s.usb.busy && CallerMoves(moves) > 0
    ensures n <= |moves|
    ensures var t := After(c, s, moves[..n]);
      Ended(s, t) && t.usb.ret == 0
    decreases |moves|
  {
    MovesLeft(moves);
    ApplyInv(c, s, moves[0]);
    ClearIsSeen(c, s, moves[0]);
    hide *;
    var t := Apply(c, s, moves[0]);
    if moves[0].Caller? {
      n := 1;
      AfterFirst(c, s, moves, 0);
      AfterNothing(c, t);
    } else {
      var m := OverInTime(c, s, moves[1..]);
      n := m + 1;
      AfterFirst(c, s, moves, m);
    }
  }

  lemma ClearIsSeen(c: UsbIn.Config, s: Log, m: Move)
    requires Inv(c, s) && s.usb.pc.WaitingSent? && !s.usb.busy
    ensures UsbIn.WellFormed(c, s.usb)
    ensures var t := Apply(c, s, m);
      if m.Caller? then Ended(s, t) && t.usb.ret == 0 else t == s
  {
    hide Recorded, Explained, UsbIn.BusInv;
  }

  // ---------------------------------------------------------------- a prompt controller

  /** The next step when the controller and the IN callback are always faster than the caller, and the controller
      refuses nothing. */
  function PromptStep(c: UsbIn.Config, s: Log): Log
    requires UsbIn.WellFormed(c, s.usb) && !s.usb.pc.Outside?
  {
    match s.usb.wire
    case Idle => ThreadStep(c, s, true)
    case Done(_) => s.(usb := UsbIn.CallbackStep(c, s.usb, true))
    case _ => s.(usb := UsbIn.WireStep(c, s.usb))
  }

  /** A send under way that nothing has gone wrong with. */
  ghost predicate Going(s: UsbIn.Send) {
    !s.pc.Outside? && !s.pc.Unmarking? && !UsbIn.Stuck(s)
  }

  function WireRank(w: UsbIn.Wire): nat {
    match w
    case Idle => 0
    case Sending(len, done) => if done <= len then 4 + len - done else 4
    case SendingZlp => 2
    case Done(len) => if len > 0 then 3 else 1
  }

  function Rank(s: UsbIn.Send): nat {
    match s.pc
    case Outside => 0
    case WaitingFree(_) => 13 + |s.msg| + WireRank(s.wire)
    case Copying => 9 + |s.msg|
    case Marking => 8 + |s.msg|
    case Starting => 7 + |s.msg|
    case Unmarking => 1
    case WaitingSent(_) => 1 + WireRank(s.wire)
  }

  lemma PromptMoves(c: UsbIn.Config, s: Log)
    requires UsbIn.WellFormed(c, s.usb) && UsbIn.BusyInv(s.usb) && Going(s.usb)
    ensures var t := PromptStep(c, s);
      && Rank(t.usb) < Rank(s.usb) && t.passed == s.passed && t.usb.configured == s.usb.configured
      && if t.usb.pc.Outside? then t.results == s.results + [0] && !t.usb.busy
         else t.results == s.results && Going(t.usb)
  {
    hide UsbIn.NeedsZlp, UsbIn.Overlay;
    ZeroNeedsNone(c.mps);
  }

  lemma ZeroNeedsNone(mps: nat)
    requires mps > 0
    ensures !UsbIn.NeedsZlp(0, mps)
  {
  }

  ghost predicate Follows(c: UsbIn.Config, run: seq<Log>) {
    |run| > 0 && forall i :: 0 <= i < |run| - 1 ==> Step(c, run[i], run[i + 1])
  }

  ghost predicate Completed(c: UsbIn.Config, s: Log, t: Log) {
    && Inv(c, t) && t.usb.pc.Outside? && !t.usb.busy && t.usb.configured == s.usb.configured
    && t.passed == s.passed && t.results == s.results + [0]
  }

  /** With a prompt controller a send that is under way succeeds. */
  lemma {:induction false} SendCompletes(c: UsbIn.Config, s: Log) returns (run: seq<Log>)
    requires Inv(c, s) && Going(s.usb)
    ensures |run| > 0 && Follows(c, run) && run[0] == s
    ensures Completed(c, s, run[|run| - 1])
    decreases Rank(s.usb)
  {
    PromptInv(c, s);
    hide *;
    var t := PromptStep(c, s);
    if t.usb.pc.Outside? {
      run := [s, t];
      FollowsAlone(c, t);
      FollowsFurther(c, s, [t]);
      JustCompleted(c, s, t);
    } else {
      var rest := SendCompletes(c, t);
      run := [s] + rest;
      FollowsFurther(c, s, rest);
      StillCompleted(c, s, t, rest[|rest| - 1]);
    }
  }

  lemma JustCompleted(c: UsbIn.Config, s: Log, t: Log)
    requires Inv(c, t) && t.usb.pc.Outside? && !t.usb.busy && t.usb.configured == s.usb.configured
    requires t.passed == s.passed && t.results == s.results + [0]
    ensures Completed(c, s, t)
  {
    hide Inv;
  }

  lemma StillCompleted(c: UsbIn.Config, s: Log, t: Log, u: Log)
    requires Completed(c, t, u)
    requires t.usb.configured == s.usb.configured && t.passed == s.passed && t.results == s.results
    ensures Completed(c, s, u)
  {
    hide Inv;
  }

  lemma FollowsAlone(c: UsbIn.Config, t: Log)
    ensures Follows(c, [t])
  {
  }

  lemma FollowsFurther(c: UsbIn.Config, s: Log, rest: seq<Log>)
    requires Follows(c, rest) && Step(c, s, rest[0])
    ensures Follows(c, [s] + rest) && ([s] + rest)[|rest|] == rest[|rest| - 1]
  {
    hide Step;
    var run := [s] + rest;
    forall i | 0 <= i < |run| - 1 ensures Step(c, run[i], run[i + 1]) {
      if i > 0 { assert run[i] == rest[i - 1] && run[i + 1] == rest[i - 1 + 1]; }
    }
  }

  lemma PromptInv(c: UsbIn.Config, s: Log)
    requires Inv(c, s) && Going(s.usb)
    ensures UsbIn.WellFormed(c, s.usb) && !s.usb.pc.Outside?
    ensures var t := PromptStep(c, s);
      && Step(c, s, t) && Inv(c, t) && Rank(t.usb) < Rank(s.usb)
      && t.passed == s.passed && t.usb.configured == s.usb.configured
      && if t.usb.pc.Outside? then t.results == s.results + [0] && !t.usb.busy
         else t.results == s.results && Going(t.usb)
  {
    assert UsbIn.Inv(c, s.usb) && !s.usb.pc.Outside?;
    hide Inv, Step, PromptStep, Going, Rank, UsbIn.BusyInv, UsbIn.BusInv, UsbIn.WellFormed;
    PromptMoves(c, s);
    PromptIsStep(c, s);
    StepInv(c, s, PromptStep(c, s));
  }

  lemma PromptIsStep(c: UsbIn.Config, s: Log)
    requires UsbIn.WellFormed(c, s.usb) && !s.usb.pc.Outside?
    ensures Step(c, s, PromptStep(c, s))
  {
    hide ThreadStep, UsbIn.WireStep, UsbIn.CallbackStep;
  }
}
