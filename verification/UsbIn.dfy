/** Sending on a bulk IN endpoint: the blocking send, the completion callback that adds a zero-length
    packet, and the controller, one shared access at a time. The command channel and the DAP channel
    run the same machine with different parameters. */
module UsbIn {
  import opened Arithmetic
  import opened FrameProto

  // ---------------------------------------------------------------- packets on the bus

  /** The data packets of a transfer: full ones, then the rest. */
  function Chunks(m: seq<byte>, mps: nat): seq<seq<byte>>
    requires mps > 0
  {
    if |m| == 0 then [] else if |m| <= mps then [m] else [m[..mps]] + Chunks(m[mps..], mps)
  }

  predicate NeedsZlp(n: nat, mps: nat)
    requires mps > 0
  {
    n > 0 && n % mps == 0
  }

  /** What one message looks like on the bus. */
  function PacketsOf(m: seq<byte>, mps: nat): seq<seq<byte>>
    requires mps > 0
  {
    Chunks(m, mps) + if NeedsZlp(|m|, mps) then [[]] else []
  }

  function AllPackets(messages: seq<seq<byte>>, mps: nat): seq<seq<byte>>
    requires mps > 0
  {
    if messages == [] then []
    else AllPackets(messages[..|messages| - 1], mps) + PacketsOf(messages[|messages| - 1], mps)
  }

  /** The host's side of section 5.8.3 of the USB 2.0 specification: a packet shorter than the maximum
      ends a transfer. `acc` is what the unfinished transfer has brought so far. */
  function HostRead(packets: seq<seq<byte>>, acc: seq<byte>, mps: nat): seq<seq<byte>> {
    if packets == [] then []
    else if |packets[0]| < mps then [acc + packets[0]] + HostRead(packets[1..], [], mps)
    else HostRead(packets[1..], acc + packets[0], mps)
  }

  lemma ModOfRest(n: nat, m: nat)
    requires 0 < m <= n
    ensures (n - m) % m == n % m
  {
    TurnOnce(n - m, m);
  }

  lemma {:induction false} HostReadsTransfer(m: seq<byte>, rest: seq<seq<byte>>, acc: seq<byte>, mps: nat)
    requires mps > 0 && m != []
    ensures HostRead(PacketsOf(m, mps) + rest, acc, mps) == [acc + m] + HostRead(rest, [], mps)
  {
    var packets := PacketsOf(m, mps) + rest;
    if |m| < mps {
      assert |m| % mps == |m| by { RemainderIs(|m|, mps, 0, |m|); }
      assert packets[0] == m && packets[1..] == rest;
    } else if |m| == mps {
      assert |m| % mps == 0 by { RemainderIs(|m|, mps, 1, 0); }
      assert packets == [m, []] + rest;
      assert packets[1..] == [[]] + rest && packets[1..][1..] == rest;
      assert (acc + m) + [] == acc + m;
    } else {
      ModOfRest(|m|, mps);
      var tail := m[mps..];
      assert packets == [m[..mps]] + (PacketsOf(tail, mps) + rest);
      HostReadsTransfer(tail, rest, acc + m[..mps], mps);
      assert acc + m[..mps] + tail == acc + m by { assert m == m[..mps] + tail; }
    }
  }

  // ---------------------------------------------------------------- the machine

  /** `gated` is the test of the configured flag, which only the command channel makes. */
  datatype Config = Config(mps: nat, bufSize: nat, timeout: nat, gated: bool)

  /** The endpoint as the controller sees it. */
  datatype Wire =
    | Idle
    | Sending(len: nat, done: nat)   // a transfer of len bytes from the IN buffer, done of them sent
    | SendingZlp
    | Done(len: nat)                 // a transfer is over, its callback has not run yet

  /** Where the sending thread is. */
  datatype SendPc =
    | Outside
    | WaitingFree(waited: nat)       // for the previous transfer
    | Copying
    | Marking
    | Starting
    | Unmarking
    | WaitingSent(waited: nat)

  /** What the caller has found the flag to be, look by look, before the copy and after the start; and whether the
      controller has refused to start its transfer. */
  datatype Looks = Looks(before: seq<bool>, refused: bool, after: seq<bool>)

  datatype Send = Send(
    configured: bool, busy: bool, buf: seq<byte>,
    wire: Wire,
    pc: SendPc, msg: seq<byte>, ret: int,
    packets: seq<seq<byte>>,         // everything the host has received
    started: seq<seq<byte>>,         // the messages whose transfer was started
    looks: Looks)                    // what the current or last call has seen

  ghost predicate Init(c: Config, s: Send) {
    && |s.buf| == c.bufSize && !s.busy && s.wire == Idle && s.pc == Outside
    && s.packets == [] && s.started == []
  }

  function Call(c: Config, s: Send, data: seq<byte>): Send {
    if data == [] then s.(ret := -1)
    else if c.gated && !s.configured then s.(ret := -2)
    else if |data| > c.bufSize then s.(ret := -3)
    else s.(msg := data, pc := WaitingFree(0), looks := Looks([], false, []))
  }

  function Overlay(buf: seq<byte>, data: seq<byte>): seq<byte>
    requires |data| <= |buf|
  {
    data + buf[|data|..]
  }

  /** The next step of the sending thread; `ok` is the controller's answer if a transfer is started. */
  function ThreadStep(c: Config, s: Send, ok: bool): Send
    requires |s.msg| <= |s.buf|
  {
    match s.pc
    case Outside => s
    case WaitingFree(waited) =>
      var l := s.(looks := s.looks.(before := s.looks.before + [s.busy]));
      if !s.busy then l.(pc := Copying)
      else if waited >= c.timeout then l.(pc := Outside, ret := -4)
      else l.(pc := WaitingFree(waited + 1))
    case Copying => s.(buf := Overlay(s.buf, s.msg), pc := Marking)
    case Marking => s.(busy := true, pc := Starting)
    case Starting =>
      if ok then s.(wire := Sending(|s.msg|, 0), started := s.started + [s.msg], pc := WaitingSent(0))
      else s.(pc := Unmarking, looks := s.looks.(refused := true))
    case Unmarking => s.(busy := false, pc := Outside, ret := -5)
    case WaitingSent(waited) =>
      var l := s.(looks := s.looks.(after := s.looks.after + [s.busy]));
      if !s.busy then l.(pc := Outside, ret := 0)
      else if waited >= c.timeout then l.(pc := Outside, ret := -6)
      else l.(pc := WaitingSent(waited + 1))
  }

  /** The next packet goes out, read from the IN buffer as it is now. */
  function WireStep(c: Config, s: Send): Send
    requires s.wire.Sending? ==> s.wire.done < s.wire.len <= |s.buf|
    requires c.mps > 0
  {
    match s.wire
    case Sending(len, done) =>
      var next := if len - done <= c.mps then len else done + c.mps;
      s.(packets := s.packets + [s.buf[done..next]],
         wire := if next == len then Done(len) else Sending(len, next))
    case SendingZlp => s.(packets := s.packets + [[]], wire := Done(0))
    case Idle => s
    case Done(_) => s
  }

  /** The completion callback; `ok` is the controller's answer if a zero-length packet is started. The
      callback ignores a refusal. */
  function CallbackStep(c: Config, s: Send, ok: bool): Send
    requires c.mps > 0
  {
    match s.wire
    case Done(len) =>
      if NeedsZlp(len, c.mps) then s.(wire := if ok then SendingZlp else Idle)
      else s.(busy := false, wire := Idle)
    case _ => s
  }

  ghost predicate WellFormed(c: Config, s: Send) {
    && c.mps > 0 && |s.buf| == c.bufSize
    && (s.pc != Outside ==> 0 < |s.msg| <= c.bufSize)
    && (s.wire.Sending? ==> s.wire.done < s.wire.len <= c.bufSize)
  }

  ghost predicate Step(c: Config, s: Send, t: Send) {
    && WellFormed(c, s)
    && (|| (s.pc == Outside && exists data: seq<byte> :: t == Call(c, s, data))
        || (s.pc != Outside && exists ok: bool :: t == ThreadStep(c, s, ok))
        || t == WireStep(c, s)
        || (exists ok: bool :: t == CallbackStep(c, s, ok)))
  }

  ghost predicate IsRun(c: Config, run: seq<Send>) {
    && c.mps > 0 && |run| > 0 && Init(c, run[0])
    && forall i | 0 <= i < |run| - 1 :: Step(c, run[i], run[i + 1])
  }

  // ---------------------------------------------------------------- the invariant

  ghost predicate BusyInv(s: Send) {
    && (s.wire != Idle ==> s.busy)
    && (s.pc.Copying? || s.pc.Marking? ==> !s.busy)
    && (s.pc.Starting? || s.pc.Unmarking? ==> s.busy && s.wire == Idle)
    && (s.pc.Marking? || s.pc.Starting? ==> s.msg <= s.buf)
    && (s.pc.WaitingSent? ==> s.started != [] && s.started[|s.started| - 1] == s.msg)
  }

  /** The messages that are completely on the bus: all but the last, until that has its short packet. */
  predicate Unfinished(s: Send) {
    s.wire.Sending? || s.wire.SendingZlp? || (s.wire.Done? && s.wire.len > 0)
  }

  /** A refused zero-length packet: the flag stays set with nothing in flight. */
  predicate Stuck(s: Send) {
    s.busy && s.wire == Idle && !s.pc.Starting? && !s.pc.Unmarking?
  }

  ghost predicate BusInv(c: Config, s: Send) {
    && c.mps > 0
    && (forall i | 0 <= i < |s.started| :: s.started[i] != [])
    && if Unfinished(s) || Stuck(s) then
         && s.started != []
         && var earlier, m := s.started[..|s.started| - 1], s.started[|s.started| - 1];
            match s.wire
            case Sending(len, done) =>
              && len == |m| <= |s.buf| && s.buf[..len] == m && done < len && done % c.mps == 0
              && s.packets == AllPackets(earlier, c.mps) + Chunks(m[..done], c.mps)
            case Done(len) =>
              && len == |m|
              && s.packets == AllPackets(earlier, c.mps) + Chunks(m, c.mps)
            case _ =>
              && NeedsZlp(|m|, c.mps)
              && s.packets == AllPackets(earlier, c.mps) + Chunks(m, c.mps)
       else
         s.packets == AllPackets(s.started, c.mps)
  }

  ghost predicate Inv(c: Config, s: Send) {
    WellFormed(c, s) && BusyInv(s) && BusInv(c, s)
  }

  lemma {:induction false} ChunksExtend(m: seq<byte>, done: nat, mps: nat)
    requires mps > 0 && done < |m| && done % mps == 0
    ensures var next := if |m| - done <= mps then |m| else done + mps;
            && Chunks(m[..next], mps) == Chunks(m[..done], mps) + [m[done..next]]
            && next % mps == (if next == |m| then |m| else 0) % mps
  {
    var next := if |m| - done <= mps then |m| else done + mps;
    if done == 0 {
      if next == mps { RemainderIs(mps, mps, 1, 0); }
      assert m[0..next] == m[..next];
    } else {
      if done < mps { RemainderIs(done, mps, 0, done); }
      var rest := m[mps..];
      ModOfRest(done, mps);
      ModOfRest(next, mps);
      if next == |m| { ModOfRest(|m|, mps); }
      ChunksExtend(rest, done - mps, mps);
      assert rest[..next - mps] == m[..next][mps..] && rest[..done - mps] == m[..done][mps..];
      assert rest[done - mps..next - mps] == m[done..next];
      assert m[..next][..mps] == m[..mps] == m[..done][..mps];
    }
  }

  lemma InitInv(c: Config, s: Send)
    requires c.mps > 0 && Init(c, s)
    ensures Inv(c, s)
  {
  }

  lemma CallInv(c: Config, s: Send, data: seq<byte>)
    requires Inv(c, s) && s.pc == Outside
    ensures Inv(c, Call(c, s, data))
  {
    hide AllPackets, Chunks;
  }

  lemma StartInv(c: Config, s: Send)
    requires Inv(c, s) && s.pc.Starting?
    ensures Inv(c, ThreadStep(c, s, true))
  {
    hide AllPackets, Chunks, PacketsOf, NeedsZlp, Overlay;
    assert (s.started + [s.msg])[..|s.started|] == s.started;
    assert s.msg[..0] == [] && s.buf[..|s.msg|] == s.msg;
    NothingSentYet(c.mps);
  }

  /** Every other step of the thread leaves the bus and the started messages alone. */
  lemma AsideInv(c: Config, s: Send, ok: bool)
    requires Inv(c, s) && s.pc != Outside && !(s.pc.Starting? && ok)
    ensures Inv(c, ThreadStep(c, s, ok))
  {
    hide AllPackets, Chunks, PacketsOf, NeedsZlp;
  }

  lemma ThreadInv(c: Config, s: Send, ok: bool)
    requires Inv(c, s) && s.pc != Outside
    ensures Inv(c, ThreadStep(c, s, ok))
  {
    hide Inv, ThreadStep;
    if s.pc.Starting? && ok { StartInv(c, s); } else { AsideInv(c, s, ok); }
  }

  lemma NothingSentYet(mps: nat)
    requires mps > 0
    ensures Chunks([], mps) == [] && 0 % mps == 0
  {
  }

  lemma PacketSent(c: Config, s: Send)
    requires Inv(c, s) && s.wire.Sending?
    ensures s.started != [] && WellFormed(c, WireStep(c, s)) && BusyInv(WireStep(c, s))
    ensures var m, done, t := s.started[|s.started| - 1], s.wire.done, WireStep(c, s);
            var next := if |m| - done <= c.mps then |m| else done + c.mps;
            && t == s.(packets := t.packets, wire := t.wire)
            && t.wire == (if next == |m| then Done(|m|) else Sending(|m|, next))
            && t.packets == AllPackets(s.started[..|s.started| - 1], c.mps) + Chunks(m[..next], c.mps)
            && next % c.mps == (if next == |m| then |m| else 0) % c.mps
  {
    hide AllPackets, Chunks, PacketsOf, NeedsZlp;
    var m, len, done := s.started[|s.started| - 1], s.wire.len, s.wire.done;
    var next := if len - done <= c.mps then len else done + c.mps;
    ChunksExtend(m, done, c.mps);
    PrefixSlice(s.buf, len, done, next);
    EarlierThenMore(AllPackets(s.started[..|s.started| - 1], c.mps), Chunks(m[..done], c.mps), m[done..next]);
  }

  lemma SendingInv(c: Config, s: Send)
    requires Inv(c, s) && s.wire.Sending?
    ensures Inv(c, WireStep(c, s))
  {
    PacketSent(c, s);
    hide AllPackets, Chunks, PacketsOf, NeedsZlp, WireStep, WellFormed, BusyInv;
    var m := s.started[|s.started| - 1];
    assert m[..|m|] == m;
    ZeroMod(c.mps);
  }

  lemma ZeroMod(m: nat)
    requires m > 0
    ensures 0 % m == 0
  {
  }

  lemma PrefixSlice(buf: seq<byte>, len: nat, lo: nat, hi: nat)
    requires lo <= hi <= len <= |buf|
    ensures buf[lo..hi] == buf[..len][lo..hi]
  {
  }

  lemma EarlierThenMore(a: seq<seq<byte>>, b: seq<seq<byte>>, p: seq<byte>)
    ensures a + b + [p] == a + (b + [p])
  {
  }

  lemma ZlpInv(c: Config, s: Send)
    requires Inv(c, s) && s.wire.SendingZlp?
    ensures Inv(c, WireStep(c, s))
  {
    hide Chunks, NeedsZlp;
    var m := s.started[|s.started| - 1];
    EarlierThenMore(AllPackets(s.started[..|s.started| - 1], c.mps), Chunks(m, c.mps), []);
  }

  lemma WireInv(c: Config, s: Send)
    requires Inv(c, s)
    ensures Inv(c, WireStep(c, s))
  {
    if s.wire.Sending? {
      SendingInv(c, s);
    } else if s.wire.SendingZlp? {
      ZlpInv(c, s);
    }
  }

  lemma CallbackInv(c: Config, s: Send, ok: bool)
    requires Inv(c, s)
    ensures Inv(c, CallbackStep(c, s, ok))
  {
    hide Chunks;
  }

  lemma StepInv(c: Config, s: Send, t: Send)
    requires Inv(c, s) && Step(c, s, t)
    ensures Inv(c, t)
  {
    hide Inv, Call, ThreadStep, WireStep, CallbackStep;
    if s.pc == Outside && exists data: seq<byte> :: t == Call(c, s, data) {
      var data: seq<byte> :| t == Call(c, s, data);
      CallInv(c, s, data);
    } else if t == WireStep(c, s) {
      WireInv(c, s);
    } else if exists ok: bool :: t == CallbackStep(c, s, ok) {
      var ok: bool :| t == CallbackStep(c, s, ok);
      CallbackInv(c, s, ok);
    } else {
      var ok: bool :| t == ThreadStep(c, s, ok);
      ThreadInv(c, s, ok);
    }
  }

  lemma {:induction false} RunInv(c: Config, run: seq<Send>, k: nat)
    requires IsRun(c, run) && k < |run|
    ensures Inv(c, run[k])
  {
    hide Inv, Step;
    if k == 0 {
      InitInv(c, run[0]);
    } else {
      RunInv(c, run, k - 1);
      StepInv(c, run[k - 1], run[k]);
    }
  }

  // ---------------------------------------------------------------- what every run guarantees

  /** At most one transfer is ever in flight, and the IN buffer changes only when none is, whatever earlier
      calls returned. */
  lemma BufferIsStable(c: Config, run: seq<Send>, k: nat)
    requires IsRun(c, run) && k + 1 < |run|
    ensures run[k].wire != Idle ==> run[k + 1].buf == run[k].buf
    ensures run[k + 1].started != run[k].started ==> run[k].wire == Idle
  {
    RunInv(c, run, k);
    assert Step(c, run[k], run[k + 1]);
    hide BusInv;
  }

  lemma {:induction false} HostReadsAll(messages: seq<seq<byte>>, rest: seq<seq<byte>>, mps: nat)
    requires mps > 0 && forall i | 0 <= i < |messages| :: messages[i] != []
    ensures HostRead(AllPackets(messages, mps) + rest, [], mps) == messages + HostRead(rest, [], mps)
  {
    hide PacketsOf, HostRead;
    if messages == [] {
      assert AllPackets(messages, mps) + rest == rest;
    } else {
      var earlier, m := messages[..|messages| - 1], messages[|messages| - 1];
      var last := PacketsOf(m, mps) + rest;
      HostReadsAll(earlier, last, mps);
      HostReadsTransfer(m, rest, [], mps);
      assert AllPackets(messages, mps) + rest == AllPackets(earlier, mps) + last;
      assert [] + m == m;
    }
  }

  lemma {:induction false} HostWaits(m: seq<byte>, acc: seq<byte>, mps: nat)
    requires mps > 0 && |m| % mps == 0
    ensures HostRead(Chunks(m, mps), acc, mps) == []
  {
    if |m| > 0 {
      if |m| < mps { RemainderIs(|m|, mps, 0, |m|); }
      ModOfRest(|m|, mps);
      HostWaits(m[mps..], acc + m[..mps], mps);
      if |m| == mps { assert m[..mps] == m && m[mps..] == []; }
    }
  }

  /** The last message is not complete on the bus. */
  predicate InProgress(c: Config, s: Send)
    requires c.mps > 0
  {
    s.wire.Sending? || s.wire.SendingZlp? || (s.wire.Done? && NeedsZlp(s.wire.len, c.mps)) || Stuck(s)
  }

  /** The packets on the bus are uniquely decodable at every moment, for every packet size: a host that
      reads to a short packet has exactly the messages sent, less the one in progress. */
  lemma HostHasMessages(c: Config, run: seq<Send>, k: nat)
    requires IsRun(c, run) && k < |run|
    ensures var s := run[k];
            && (InProgress(c, s) ==> s.started != [])
            && HostRead(s.packets, [], c.mps) ==
               if InProgress(c, s) then s.started[..|s.started| - 1] else s.started
  {
    RunInv(c, run, k);
    HostDecodes(c, run[k]);
  }

  lemma HostDecodes(c: Config, s: Send)
    requires Inv(c, s)
    ensures InProgress(c, s) ==> s.started != []
    ensures HostRead(s.packets, [], c.mps) ==
            if InProgress(c, s) then s.started[..|s.started| - 1] else s.started
  {
    hide Chunks, HostRead;
    HostNone(c.mps);
    if InProgress(c, s) {
      var earlier, m := s.started[..|s.started| - 1], s.started[|s.started| - 1];
      var sent := if s.wire.Sending? then m[..s.wire.done] else m;
      HostReadsAll(earlier, Chunks(sent, c.mps), c.mps);
      HostWaits(sent, [], c.mps);
    } else {
      HostReadsAll(s.started, [], c.mps);
      assert AllPackets(s.started, c.mps) + [] == s.packets;
    }
  }

  /** A send that returns 0 has delivered its message, short packet or zero-length packet included. */
  lemma SuccessMeansDelivered(c: Config, run: seq<Send>, k: nat)
    requires IsRun(c, run) && k < |run|
    requires run[k].pc.WaitingSent? && !run[k].busy
    ensures var s := run[k];
            var got := HostRead(s.packets, [], c.mps);
            got == s.started && got != [] && got[|got| - 1] == s.msg
  {
    RunInv(c, run, k);
    HostDecodes(c, run[k]);
    hide BusInv, HostRead;
  }

  lemma HostNone(mps: nat)
    ensures HostRead([], [], mps) == []
  {
  }

  // ---------------------------------------------------------------- what a call returns, and when

  function Trues(n: nat): (l: seq<bool>)
    ensures |l| == n && forall i :: 0 <= i < n ==> l[i]
  {
    seq(n, _ => true)
  }

  /** The flag was found set until the last look, which found it clear; there was time for that look. */
  ghost predicate Cleared(l: seq<bool>, timeout: nat) {
    0 < |l| <= timeout + 1 && !l[|l| - 1] && forall i :: 0 <= i < |l| - 1 ==> l[i]
  }

  /** The flag was found set at timeout + 1 looks, and there were no more. */
  ghost predicate NeverClear(l: seq<bool>, timeout: nat) {
    |l| == timeout + 1 && forall i :: 0 <= i < |l| ==> l[i]
  }

  /** What a call did: it was turned away, or it looked at the flag, tried to start its transfer, and looked again. */
  datatype Course = TurnedAway | Entered(looks: Looks)

  predicate Admitted(c: Config, configured: bool, data: seq<byte>) {
    data != [] && (configured || !c.gated) && |data| <= c.bufSize
  }

  /** The one result that goes with what a call did. */
  ghost predicate Explains(c: Config, configured: bool, data: seq<byte>, course: Course, ret: int) {
    match course
    case TurnedAway =>
      !Admitted(c, configured, data)
      && ret == if data == [] then -1 else if c.gated && !configured then -2 else -3
    case Entered(l) =>
      Admitted(c, configured, data)
      && (|| (ret == -4 && NeverClear(l.before, c.timeout) && !l.refused && l.after == [])
          || (ret == -5 && Cleared(l.before, c.timeout) && l.refused && l.after == [])
          || (ret == -6 && Cleared(l.before, c.timeout) && !l.refused && NeverClear(l.after, c.timeout))
          || (ret == 0 && Cleared(l.before, c.timeout) && !l.refused && Cleared(l.after, c.timeout)))
  }

  ghost predicate LookInv(c: Config, s: Send) {
    && (!s.pc.Outside? ==> Admitted(c, s.configured, s.msg))
    && var l := s.looks;
       match s.pc
       case Outside => true
       case WaitingFree(w) => w <= c.timeout && l == Looks(Trues(w), false, [])
       case Copying => Cleared(l.before, c.timeout) && !l.refused && l.after == []
       case Marking => Cleared(l.before, c.timeout) && !l.refused && l.after == []
       case Starting => Cleared(l.before, c.timeout) && !l.refused && l.after == []
       case Unmarking => Cleared(l.before, c.timeout) && l.refused && l.after == []
       case WaitingSent(w) => Cleared(l.before, c.timeout) && !l.refused && w <= c.timeout && l.after == Trues(w)
  }

  /** A call is let in or turned away by its message and the configured flag alone. */
  lemma CallLooks(c: Config, s: Send, data: seq<byte>)
    requires s.pc.Outside?
    ensures var t := Call(c, s, data);
      && t.configured == s.configured && LookInv(c, t)
      && (t.pc.Outside? <==> !Admitted(c, s.configured, data))
      && (t.pc.Outside? ==> Explains(c, s.configured, data, TurnedAway, t.ret))
  {
  }

  lemma LookAgain(w: nat, timeout: nat)
    requires w <= timeout
    ensures Cleared(Trues(w) + [false], timeout) && Trues(w) + [true] == Trues(w + 1)
    ensures w == timeout ==> NeverClear(Trues(w) + [true], timeout)
  {
  }

  lemma FirstWaitLooks(c: Config, s: Send, ok: bool)
    requires LookInv(c, s) && s.pc.WaitingFree? && |s.msg| <= |s.buf|
    ensures var t := ThreadStep(c, s, ok);
      && t.configured == s.configured && LookInv(c, t)
      && (t.pc.Outside? ==> Explains(c, s.configured, s.msg, Entered(t.looks), t.ret))
  {
    LookAgain(s.pc.waited, c.timeout);
    hide Trues, Cleared, NeverClear, Admitted;
  }

  lemma LastWaitLooks(c: Config, s: Send, ok: bool)
    requires LookInv(c, s) && s.pc.WaitingSent? && |s.msg| <= |s.buf|
    ensures var t := ThreadStep(c, s, ok);
      && t.configured == s.configured && LookInv(c, t)
      && (t.pc.Outside? ==> Explains(c, s.configured, s.msg, Entered(t.looks), t.ret))
  {
    LookAgain(s.pc.waited, c.timeout);
    hide Trues, Cleared, NeverClear, Admitted;
  }

  /** A call ends with the one result that its looks and the controller's answer call for. */
  lemma ThreadLooks(c: Config, s: Send, ok: bool)
    requires LookInv(c, s) && !s.pc.Outside? && |s.msg| <= |s.buf|
    ensures var t := ThreadStep(c, s, ok);
      && t.configured == s.configured && LookInv(c, t)
      && (t.pc.Outside? ==> Explains(c, s.configured, s.msg, Entered(t.looks), t.ret))
  {
    if s.pc.WaitingFree? {
      FirstWaitLooks(c, s, ok);
    } else if s.pc.WaitingSent? {
      LastWaitLooks(c, s, ok);
    } else {
      MiddleLooks(c, s, ok);
    }
  }

  lemma MiddleLooks(c: Config, s: Send, ok: bool)
    requires LookInv(c, s) && !s.pc.Outside? && !s.pc.WaitingFree? && !s.pc.WaitingSent? && |s.msg| <= |s.buf|
    ensures var t := ThreadStep(c, s, ok);
      && t.configured == s.configured && LookInv(c, t)
      && (t.pc.Outside? ==> Explains(c, s.configured, s.msg, Entered(t.looks), t.ret))
  {
    assert Trues(0) == [];
    hide Trues, Cleared, NeverClear, Admitted, Overlay;
  }

  /** Each look is recorded as it is made, and nothing else is. */
  lemma LooksAreRecorded(c: Config, s: Send, ok: bool)
    requires !s.pc.Outside? && |s.msg| <= |s.buf|
    ensures var t := ThreadStep(c, s, ok);
      && t.looks.before == s.looks.before + (if s.pc.WaitingFree? then [s.busy] else [])
      && t.looks.after == s.looks.after + (if s.pc.WaitingSent? then [s.busy] else [])
      && (t.looks.refused <==> s.looks.refused || (s.pc.Starting? && !ok))
  {
    hide Overlay;
  }

  /** The controller and the callback leave the caller where it is. */
  lemma OthersLeaveCaller(c: Config, s: Send, t: Send)
    requires WellFormed(c, s) && (t == WireStep(c, s) || exists ok: bool :: t == CallbackStep(c, s, ok))
    ensures t.pc == s.pc && t.msg == s.msg && t.ret == s.ret && t.configured == s.configured && t.looks == s.looks
  {
    hide NeedsZlp;
  }

  /** A successful call is exactly one that was let in, was not refused by the controller, and found the flag clear
      in time both before and after. */
  lemma ZeroExactly(c: Config, configured: bool, data: seq<byte>, course: Course, ret: int)
    requires Explains(c, configured, data, course, ret)
    ensures ret == 0 <==>
      course.Entered? && !course.looks.refused && false in course.looks.before && false in course.looks.after
  {
    if course.Entered? {
      var l := course.looks;
      if Cleared(l.before, c.timeout) { assert l.before[|l.before| - 1] == false; }
      if Cleared(l.after, c.timeout) { assert l.after[|l.after| - 1] == false; }
    }
  }

  /** How many steps of its own the caller can still take before its call has ended. */
  function Left(c: Config, pc: SendPc): nat {
    match pc
    case Outside => 0
    case WaitingFree(w) => (if w <= c.timeout then c.timeout - w + 1 else 0) + c.timeout + 4
    case Copying => c.timeout + 4
    case Marking => c.timeout + 3
    case Starting => c.timeout + 2
    case Unmarking => 1
    case WaitingSent(w) => if w <= c.timeout then c.timeout - w + 1 else 0
  }

  lemma LeftShrinks(c: Config, s: Send, ok: bool)
    requires LookInv(c, s) && !s.pc.Outside? && |s.msg| <= |s.buf|
    ensures Left(c, ThreadStep(c, s, ok).pc) < Left(c, s.pc)
  {
    hide Overlay;
  }

  // ---------------------------------------------------------------- a refused zero-length packet

  // The machine lets the controller refuse any zero-length packet. That is an assumption about the controller: the
  // IN callback does not look at the answer, so this is what its code would do with a refusal.

  ghost predicate Refused(c: Config, s: Send, t: Send)
    requires c.mps > 0
  {
    s.wire.Done? && NeedsZlp(s.wire.len, c.mps) && t == CallbackStep(c, s, false)
  }

  /** How the machine gets stuck: exactly by a callback whose zero-length packet the controller refuses. */
  lemma StuckByRefusal(c: Config, s: Send, t: Send)
    requires Inv(c, s) && Step(c, s, t) && !Stuck(s)
    ensures c.mps > 0 && (Stuck(t) <==> Refused(c, s, t))
  {
    hide Chunks, AllPackets, NeedsZlp, HostRead, Overlay;
  }

  /** What a caller can see to: no refusal is possible while no message fills its last packet. */
  lemma OddLengthsNeverStick(c: Config, s: Send, t: Send)
    requires Inv(c, s) && Step(c, s, t) && !Stuck(s)
    requires s.started != [] ==> |s.started[|s.started| - 1]| % c.mps != 0
    ensures !Stuck(t)
  {
    StuckByRefusal(c, s, t);
    hide Step, Chunks, AllPackets, CallbackStep;
  }

  /** Stuck is for good: whatever happens, nothing more is sent or even copied, the flag stays set, and a call can
      only be turned away or time out. */
  lemma StuckStays(c: Config, s: Send, t: Send)
    requires Inv(c, s) && Step(c, s, t) && Stuck(s)
    ensures Stuck(t) && t.started == s.started && t.packets == s.packets && t.buf == s.buf
    ensures t.ret == s.ret || t.ret in {-1, -2, -3, -4, -6}
    ensures t.pc == Outside && s.pc != Outside ==> t.ret in {-4, -6}
  {
    hide BusInv, Chunks, AllPackets, NeedsZlp, HostRead, Overlay;
  }

  /** In any run the machine is stuck exactly after a refusal. */
  lemma {:induction false} StuckExactly(c: Config, run: seq<Send>, k: nat)
    requires IsRun(c, run) && k < |run|
    ensures Stuck(run[k]) <==> exists i :: 0 <= i < k && Refused(c, run[i], run[i + 1])
    decreases k
  {
    hide Inv, Step, Refused, Stuck;
    if k == 0 {
      NotStuckAtFirst(c, run[0]);
    } else {
      StuckExactly(c, run, k - 1);
      RunInv(c, run, k - 1);
      if Stuck(run[k - 1]) {
        StuckStays(c, run[k - 1], run[k]);
      } else {
        StuckByRefusal(c, run[k - 1], run[k]);
        assert Refused(c, run[k - 1], run[k - 1 + 1]) <==> Stuck(run[k]);
      }
    }
  }

  lemma NotStuckAtFirst(c: Config, s: Send)
    requires Init(c, s)
    ensures !Stuck(s)
  {
  }

  /** ... and it stays so on every continuation; the message cut short is never complete at the host. */
  lemma {:induction false} StuckForever(c: Config, run: seq<Send>, j: nat, k: nat)
    requires IsRun(c, run) && j <= k < |run| && Stuck(run[j])
    ensures Stuck(run[k]) && run[k].started == run[j].started && run[k].packets == run[j].packets
    ensures run[k].started != []
    ensures HostRead(run[k].packets, [], c.mps) == run[k].started[..|run[k].started| - 1]
    decreases k
  {
    hide Inv, Step, HostRead, Stuck;
    if j < k {
      StuckForever(c, run, j, k - 1);
      RunInv(c, run, k - 1);
      StuckStays(c, run[k - 1], run[k]);
    }
    RunInv(c, run, k);
    StuckInProgress(c, run[k]);
    HostDecodes(c, run[k]);
  }

  lemma StuckInProgress(c: Config, s: Send)
    requires Inv(c, s) && Stuck(s)
    ensures InProgress(c, s)
  {
    hide BusInv;
  }

  /** If a controller refused the zero-length packet behind a 64-byte message on a full-speed command endpoint, the
      machine would be stuck. */
  lemma RefusalExample() returns (c: Config, run: seq<Send>)
    ensures c == Config(64, MAX_FRAME, 500, true)
    ensures IsRun(c, run) && Stuck(run[|run| - 1])
    ensures |run[|run| - 1].started| == 1 && |run[|run| - 1].started[0]| == 64
  {
    c := Config(64, MAX_FRAME, 500, true);
    var blank, m := seq(MAX_FRAME, _ => 0), seq(64, _ => 7);
    var s0 := Send(true, false, blank, Idle, Outside, [], 0, [], [], Looks([], false, []));
    var s1, s2, s3, s4 := RefusalStart(c, s0, m);
    var s5, s6, s7 := RefusalEnd(c, s4);
    hide Step, Stuck, Init;
    run := EightStates(c, s0, s1, s2, s3, s4, s5, s6, s7);
  }

  lemma EightStates(c: Config, s0: Send, s1: Send, s2: Send, s3: Send, s4: Send, s5: Send, s6: Send, s7: Send)
      returns (run: seq<Send>)
    requires c.mps > 0 && Init(c, s0) && Step(c, s0, s1) && Step(c, s1, s2) && Step(c, s2, s3) && Step(c, s3, s4)
    requires Step(c, s4, s5) && Step(c, s5, s6) && Step(c, s6, s7)
    ensures IsRun(c, run) && |run| == 8 && run[7] == s7
  {
    hide Step, Init;
    run := [s0, s1, s2, s3, s4, s5, s6, s7];
  }

  lemma RefusalEnd(c: Config, s4: Send) returns (s5: Send, s6: Send, s7: Send)
    requires c == Config(64, MAX_FRAME, 500, true) && WellFormed(c, s4) && s4.pc.Starting? && s4.wire == Idle && s4.busy
    requires |s4.msg| == 64 && s4.started == []
    ensures Step(c, s4, s5) && Step(c, s5, s6) && Step(c, s6, s7) && Stuck(s7) && s7.started == [s4.msg]
  {
    s5 := ThreadStep(c, s4, true);
    s6 := WireStep(c, s5);
    s7 := CallbackStep(c, s6, false);
    RemainderIs(64, 64, 1, 0);
  }

  lemma RefusalStart(c: Config, s: Send, m: seq<byte>) returns (s1: Send, s2: Send, s3: Send, s4: Send)
    requires c.mps > 0 && Init(c, s) && s.configured && 0 < |m| <= c.bufSize
    ensures Step(c, s, s1) && Step(c, s1, s2) && Step(c, s2, s3) && Step(c, s3, s4)
    ensures WellFormed(c, s4) && s4.pc.Starting? && s4.wire == Idle && s4.busy && s4.msg == m && s4.started == []
  {
    s1 := Call(c, s, m);
    s2 := ThreadStep(c, s1, true);
    s3 := ThreadStep(c, s2, true);
    s4 := ThreadStep(c, s3, true);
  }
}
