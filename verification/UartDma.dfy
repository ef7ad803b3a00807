/** Accounting for bytes a circular DMA transfer has received, from its remaining count alone. */
module UartDma {
  import opened Arithmetic

  // ---------------------------------------------------------------- the driver

  /** The number of new bytes the driver reads off the remaining count. */
  function NewBytes(size: nat, remain: nat, counter: nat): (r: nat)
    requires counter <= size && remain <= size
    ensures r <= size
  {
    if counter <= remain then remain - counter else size + remain - counter
  }

  /** How the DMA channel was last set up. */
  datatype Channel = Channel(destination: nat, length: nat, enabled: bool)

  /** The receive side of one port. */
  class Receiver {
    /** Size and address of the ping buffer; the size is zero when none is configured. */
    const size: nat
    const buffer: nat

    /** The remaining count at the last call that found new bytes. */
    var remain: nat

    var channel: Channel

    /** The lengths handed to the serial framework. */
    var reports: seq<nat>

    ghost predicate Valid()
      reads this
    {
      remain <= size
    }

    /** The port in the terms of the machine below, which adds what only the hardware knows. */
    ghost function View(count: nat, arrived: nat, atCall: nat): State
      reads this
    {
      State(size, count, arrived, atCall, remain, reports)
    }

    /** Reception is set up with the whole buffer remaining. */
    constructor (size: nat, buffer: nat)
      ensures Valid() && this.size == size && this.buffer == buffer && channel == Channel(buffer, size, true)
      ensures View(size, 0, 0) == Start(size)
    {
      this.size, this.buffer, this.remain, this.reports := size, buffer, size, [];
      this.channel := Channel(buffer, size, true);
    }

    /** The interrupt routine, whatever the cause: idle line, half done or done. With a ping buffer it is the
        interrupt step of the machine; without one it does nothing. */
    method DmaRecvIsr(counter: nat)
      requires Valid() && counter <= size
      modifies this`remain, this`reports
      ensures Valid()
      ensures size == 0 ==> remain == old(remain) && reports == old(reports)
      ensures size > 0 ==> forall arrived: nat, atCall: nat ::
        View(counter, arrived, arrived) == Report(old(View(counter, arrived, atCall)))
    {
      if size == 0 {
        return;
      }
      var recvLen;
      if counter <= remain {
        recvLen := remain - counter;
      } else {
        recvLen := size + remain - counter;
      }
      if recvLen > 0 {
        remain := counter;
        reports := reports + [recvLen];
      }
    }

    /** Without a circular channel the transfer is set up afresh when it is done. */
    method ReceiveDmaNext()
      modifies this`remain, this`channel
      ensures Valid() && remain == size && channel == Channel(buffer, size, true)
    {
      remain := size;
      channel := channel.(destination := buffer);
      channel := channel.(length := size);
      channel := channel.(enabled := true);
    }
  }

  function Sum(s: seq<nat>): nat {
    if s == [] then 0 else Sum(s[..|s| - 1]) + s[|s| - 1]
  }

  // ---------------------------------------------------------------- the hardware and the run

  /** `count` is the remaining count the channel shows: at the wrap it shows 0 until the hardware reloads it.
      `arrived` counts bytes since start-up, `atCall` how many of them had arrived at the last interrupt. */
  datatype State = State(size: nat, count: nat, arrived: nat, atCall: nat, remain: nat, reports: seq<nat>)

  datatype Event = Byte | Reload | Interrupt | Done

  function Start(size: nat): State {
    State(size, size, 0, 0, size, [])
  }

  function Report(s: State): State
    requires s.count <= s.size && s.remain <= s.size
  {
    var n := NewBytes(s.size, s.remain, s.count);
    if n > 0 then s.(atCall := s.arrived, remain := s.count, reports := s.reports + [n])
    else s.(atCall := s.arrived)
  }

  ghost predicate InRange(s: State) {
    s.size > 0 && s.count <= s.size && s.remain <= s.size
  }

  /** A channel that runs on forever: a byte takes one off the count, reloading first when it is at zero. */
  ghost predicate CircularStep(s: State, e: Event, t: State) {
    match e
    case Byte => InRange(s) && t == s.(count := (if s.count == 0 then s.size else s.count) - 1, arrived := s.arrived + 1)
    case Reload => s.count == 0 && t == s.(count := s.size)
    case Interrupt => InRange(s) && t == Report(s)
    case Done => false
  }

  /** A channel that stops at zero, where the done interrupt reports and sets it up afresh. */
  ghost predicate SingleStep(s: State, e: Event, t: State) {
    match e
    case Byte => s.count > 0 && t == s.(count := s.count - 1, arrived := s.arrived + 1)
    case Reload => false
    case Interrupt => InRange(s) && t == Report(s)
    case Done => InRange(s) && s.count == 0 && t == Report(s).(count := s.size, remain := s.size)
  }

  ghost predicate CircularRun(states: seq<State>, events: seq<Event>, size: nat) {
    && |states| == |events| + 1 && states[0] == Start(size)
    && forall i :: 0 <= i < |events| ==> CircularStep(states[i], events[i], states[i + 1])
  }

  ghost predicate SingleRun(states: seq<State>, events: seq<Event>, size: nat) {
    && |states| == |events| + 1 && states[0] == Start(size)
    && forall i :: 0 <= i < |events| ==> SingleStep(states[i], events[i], states[i + 1])
  }

  // ---------------------------------------------------------------- circular channel

  function Gap(s: State): int {
    s.arrived - s.atCall
  }

  /** How far the recorded count, the bytes since and the shown count are out of step: a whole number of turns. */
  function Turns(s: State): int {
    s.remain - Gap(s) - s.count
  }

  /** The count is the last recorded one less the bytes since, going round. */
  ghost predicate InPhase(s: State) {
    && InRange(s) && s.atCall <= s.arrived
    && Turns(s) % s.size == 0
    && (Gap(s) == 0 ==> s.count == s.remain || (s.remain == 0 && s.count == s.size))
  }

  /** Less than a buffer has arrived since the last interrupt, or just a buffer from a fresh start whose wrap the
      hardware still shows as 0. */
  predicate Prompt(s: State) {
    Gap(s) < s.size || (Gap(s) == s.size && s.remain == s.size && s.count == 0)
  }

  /** In every reachable state an interrupt never counts too many bytes, and it counts all that arrived since the
      last one exactly when it is prompt. */
  lemma InterruptExact(s: State)
    requires InPhase(s)
    ensures InRange(s) && NewBytes(s.size, s.remain, s.count) <= Gap(s)
    ensures NewBytes(s.size, s.remain, s.count) == Gap(s) <==> Prompt(s)
  {
    var r := NewBytes(s.size, s.remain, s.count);
    TurnOnce(Turns(s), s.size);
    assert r - Gap(s) == Turns(s) || r - Gap(s) == Turns(s) + s.size;
    if Gap(s) <= s.size {
      NearZero(r - Gap(s), s.size);
    }
  }

  lemma SumAppend(s: seq<nat>, n: nat)
    ensures Sum(s + [n]) == Sum(s) + n
  {
    assert (s + [n])[..|s|] == s;
  }

  lemma ByteKeeps(s: State, t: State)
    requires InPhase(s) && CircularStep(s, Byte, t)
    ensures InPhase(t) && t.size == s.size && t.reports == s.reports && t.atCall == s.atCall
    ensures WithinBuffer(s) ==> WithinBuffer(t)
  {
    assert t.remain == s.remain && Gap(t) == Gap(s) + 1;
    if s.count == 0 {
      assert Turns(t) + s.size == Turns(s);
      TurnOnce(Turns(t), s.size);
    } else {
      assert Turns(t) == Turns(s);
    }
  }

  lemma ReloadKeeps(s: State, t: State)
    requires InPhase(s) && CircularStep(s, Reload, t)
    ensures InPhase(t) && t.size == s.size && t.reports == s.reports && t.atCall == s.atCall
    ensures WithinBuffer(s) ==> WithinBuffer(t)
  {
    assert Turns(t) + s.size == Turns(s);
    TurnOnce(Turns(t), s.size);
  }

  /** Whatever has been lost, an interrupt leaves the channel in phase. */
  lemma InterruptKeeps(s: State, t: State)
    requires InPhase(s) && CircularStep(s, Interrupt, t)
    ensures InPhase(t) && t.size == s.size && t.atCall == t.arrived == s.arrived
    ensures Sum(t.reports) == Sum(s.reports) + NewBytes(s.size, s.remain, s.count)
    ensures WithinBuffer(s) ==> WithinBuffer(t)
  {
    var n := NewBytes(s.size, s.remain, s.count);
    SumAppend(s.reports, n);
    RemainderIs(0, s.size, 0, 0);
    TurnOnce(0 - s.size, s.size);
    hide Sum;
    if n > 0 { assert Turns(t) == 0; } else { assert Turns(t) == 0 || Turns(t) == 0 - s.size; }
  }

  ghost predicate WithinBuffer(s: State) {
    forall i :: 0 <= i < |s.reports| ==> 0 < s.reports[i] <= s.size
  }

  ghost predicate PromptUntil(states: seq<State>, events: seq<Event>, k: nat)
    requires k <= |events| && |states| == |events| + 1
  {
    forall i :: 0 <= i < k && events[i] == Interrupt ==> Prompt(states[i])
  }

  lemma PromptNext(states: seq<State>, events: seq<Event>, k: nat)
    requires 0 < k <= |events| && |states| == |events| + 1
    ensures PromptUntil(states, events, k)
      <==> PromptUntil(states, events, k - 1) && (events[k - 1] == Interrupt ==> Prompt(states[k - 1]))
  {
    hide Prompt;
  }

  lemma GapIs(s: State)
    ensures Gap(s) == s.arrived - s.atCall
  {
  }

  /** The account of a circular channel after k events of any run, whenever the hardware reloads: the reports never
      exceed what had arrived at the last interrupt, and they equal it exactly when every interrupt was prompt; so
      what one late interrupt loses is never made up. */
  lemma {:induction false} CircularAccount(states: seq<State>, events: seq<Event>, size: nat, k: nat)
    requires size > 0 && CircularRun(states, events, size) && k <= |events|
    ensures states[k].size == size && InPhase(states[k]) && WithinBuffer(states[k])
    ensures Sum(states[k].reports) <= states[k].atCall
    ensures Sum(states[k].reports) == states[k].atCall <==> PromptUntil(states, events, k)
    ensures k > 0 && events[k - 1] == Interrupt ==> states[k].atCall == states[k].arrived
    decreases k
  {
    if k == 0 {
      RemainderIs(0, size, 0, 0);
    } else {
      CircularAccount(states, events, size, k - 1);
      var s, t, e := states[k - 1], states[k], events[k - 1];
      assert CircularStep(s, e, t);
      hide CircularRun, Sum, NewBytes, Prompt, Report;
      PromptNext(states, events, k);
      hide PromptUntil, WithinBuffer, InPhase, Gap;
      match e
      case Byte => ByteKeeps(s, t);
      case Reload => ReloadKeeps(s, t);
      case Interrupt =>
        InterruptExact(s);
        InterruptKeeps(s, t);
        GapIs(s);
      case Done =>
    }
  }

  /** In particular, with less than a buffer between interrupts nothing is ever lost. */
  lemma CircularExact(states: seq<State>, events: seq<Event>, size: nat)
    requires size > 0 && CircularRun(states, events, size)
    requires forall i :: 0 <= i < |events| && events[i] == Interrupt ==> Gap(states[i]) < size
    ensures Sum(states[|events|].reports) == states[|events|].atCall && WithinBuffer(states[|events|])
    ensures |events| > 0 && events[|events| - 1] == Interrupt
      ==> Sum(states[|events|].reports) == states[|events|].arrived
  {
    forall i | 0 <= i < |events| && events[i] == Interrupt ensures Prompt(states[i]) {
      CircularAccount(states, events, size, i);
    }
    CircularAccount(states, events, size, |events|);
  }

  // ---------------------------------------------------------------- single-shot channel

  ghost predicate InStep(s: State) {
    && InRange(s) && s.atCall <= s.arrived
    && Sum(s.reports) == s.atCall
    && WithinBuffer(s)
    && s.remain - Gap(s) == s.count
  }

  lemma SingleByte(s: State, t: State)
    requires InStep(s) && SingleStep(s, Byte, t)
    ensures InStep(t) && t.size == s.size
  {
    hide Sum, WithinBuffer;
    SameReports(s, t);
  }

  /** The count shown is the last one less the bytes since, so a report is exact and starts the next stretch. */
  lemma SingleReport(s: State)
    requires InStep(s)
    ensures var t := Report(s);
            InStep(t) && t.atCall == t.arrived && t.remain == t.count == s.count && t.size == s.size
  {
    hide Sum, WithinBuffer;
    var n := NewBytes(s.size, s.remain, s.count);
    assert n == Gap(s);
    SumAppend(s.reports, n);
    ReportWithin(s);
  }

  lemma ReportWithin(s: State)
    requires InRange(s) && WithinBuffer(s)
    ensures WithinBuffer(Report(s))
  {
    hide NewBytes;
  }

  lemma SingleRearm(r: State)
    requires InStep(r) && r.atCall == r.arrived
    ensures InStep(r.(count := r.size, remain := r.size))
  {
    hide Sum, WithinBuffer;
    SameReports(r, r.(count := r.size, remain := r.size));
  }

  lemma SameReports(s: State, t: State)
    requires WithinBuffer(s) && t.reports == s.reports && t.size == s.size
    ensures WithinBuffer(t)
  {
  }

  lemma SingleKeeps(s: State, e: Event, t: State)
    requires InStep(s) && SingleStep(s, e, t)
    ensures InStep(t) && t.size == s.size
    ensures e == Interrupt || e == Done ==> t.atCall == t.arrived
  {
    if e == Byte {
      SingleByte(s, t);
    } else {
      assert InRange(s);
      hide Sum, Report, InStep;
      SingleReport(s);
      if e == Done { SingleRearm(Report(s)); }
    }
  }

  /** On a channel that stops at zero the account is exact without any condition on the interrupts. */
  lemma {:induction false} SingleExact(states: seq<State>, events: seq<Event>, size: nat)
    requires size > 0 && SingleRun(states, events, size)
    ensures states[|events|].size == size && InStep(states[|events|])
    ensures |events| > 0 && (events[|events| - 1] == Interrupt || events[|events| - 1] == Done)
      ==> Sum(states[|events|].reports) == states[|events|].arrived
    decreases |events|
  {
    if events != [] {
      var n := |events| - 1;
      SingleExact(states[..n + 1], events[..n], size);
      assert states[n] == states[..n + 1][n] && SingleStep(states[n], events[n], states[n + 1]);
      SingleKeeps(states[n], events[n], states[n + 1]);
    }
  }

  lemma StretchKeeps(s: State, e: Event, t: State)
    requires s.size > 0 && SingleStep(s, e, t) && (s.arrived + s.count) % s.size == 0
    ensures t.size == s.size && (t.arrived + t.count) % s.size == 0
    ensures e == Done ==> t.arrived % s.size == 0
  {
    hide NewBytes;
    if e == Done { TurnOnce(s.arrived, s.size); } else { assert t.arrived + t.count == s.arrived + s.count; }
  }

  /** A done interrupt comes exactly when whole buffers have arrived, and then all of them have been reported. */
  lemma {:induction false} SingleFillsBuffers(states: seq<State>, events: seq<Event>, size: nat)
    requires size > 0 && SingleRun(states, events, size)
    ensures (states[|events|].arrived + states[|events|].count) % size == 0 && states[|events|].size == size
    ensures |events| > 0 && events[|events| - 1] == Done
      ==> states[|events|].arrived % size == 0 && Sum(states[|events|].reports) == states[|events|].arrived
    decreases |events|
  {
    if events == [] {
      RemainderIs(size, size, 1, 0);
    } else {
      var n := |events| - 1;
      SingleFillsBuffers(states[..n + 1], events[..n], size);
      SingleExact(states, events, size);
      assert states[n] == states[..n + 1][n] && SingleStep(states[n], events[n], states[n + 1]);
      hide Sum, InStep, SingleStep, SingleRun;
      StretchKeeps(states[n], events[n], states[n + 1]);
    }
  }
}
