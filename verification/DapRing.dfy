/** The request ring of the DAP engine as code: what a submission and a drain do when nothing comes between. */
module DapRing {
  import opened DapEngine
  import opened FrameProto
  import opened Ring

  class RequestRing {
    const config: Config
    const slots: array<Slot>
    var head: nat
    var tail: nat
    var sem: nat
    var dropped: nat
    var submitted: nat
    var processed: nat

    /** Everything the command handler has been given, and every response passed on. */
    var executed: seq<seq<byte>>
    var sent: seq<seq<byte>>

    ghost predicate Valid()
      reads this, slots
    {
      && config.Valid() && slots.Length == config.Slots() && head < slots.Length && tail < slots.Length
      && forall i :: 0 <= i < slots.Length ==> |slots[i].buf| == config.packetSize
    }

    ghost function Contents(): seq<Slot>
      requires Valid()
      reads this, slots
    {
      Span(slots[..], tail, head)
    }

    constructor (config: Config)
      requires config.Valid()
      ensures Valid() && fresh(slots) && this.config == config
      ensures Contents() == [] && sem == 0 && executed == [] && sent == []
      ensures dropped == 0 && submitted == 0 && processed == 0
      ensures forall i :: 0 <= i < slots.Length ==> slots[i] == Slot(0, seq(config.packetSize, _ => 0))
    {
      this.config := config;
      var blank := seq(config.packetSize, _ => 0 as byte);
      slots := new Slot[config.Slots()](_ => Slot(0, blank));
      head, tail, sem, dropped, submitted, processed := 0, 0, 0, 0, 0, 0;
      executed, sent := [], [];
    }

    /** A full ring turns the request away; otherwise the request, cut to the slot, joins the queue, with what
        the slot held before behind it, and one token wakes the engine. */
    method Submit(data: seq<byte>) returns (ok: bool)
      requires Valid()
      modifies this`head, this`sem, this`dropped, this`submitted, slots
      ensures Valid()
      ensures ok == (|old(Contents())| < config.packetCount)
      ensures !ok ==> Contents() == old(Contents()) && dropped == old(dropped) + 1
      ensures !ok ==> submitted == old(submitted) && sem == old(sem)
      ensures ok ==> dropped == old(dropped) && submitted == old(submitted) + 1 && sem == old(sem) + 1
      ensures ok ==> exists slot: Slot ::
        && Contents() == old(Contents()) + [slot]
        && slot.len == (if |data| <= config.packetSize then |data| else config.packetSize) <= |slot.buf|
        && slot.buf[..slot.len] == data[..slot.len]
        && slot.buf[slot.len..] == old(slots[head].buf)[slot.len..]
    {
      SpanSize(slots[..], tail, head);
      var next := (head + 1) % config.Slots();
      if next == tail {
        dropped := dropped + 1;
        return false;
      }
      var d := Fitting(config, data);
      var slot := Slot(|d|, d + slots[head].buf[|d|..]);
      SpanPush(slots[..], tail, head, slot);
      slots[head] := slot;
      head := next;
      submitted := submitted + 1;
      sem := sem + 1;
      ok := true;
    }

    /** One turn of the engine's inner loop. */
    method ExecuteOldest(h: Handler)
      requires Valid() && tail != head && sent == Answers(h, executed)
      modifies this`tail, this`processed, this`executed, this`sent
      ensures Valid() && old(Contents()) != [] && Contents() == old(Contents())[1..]
      ensures executed == old(executed) + [old(Contents())[0].buf] && sent == Answers(h, executed)
      ensures processed == old(processed) + 1
    {
      hide Answers, Fitting, Span, Succ;
      SpanPop(slots[..], tail, head);
      var slot := slots[tail];
      AnswersNext(h, executed, slot.buf);
      executed := executed + [slot.buf];
      var response := h(executed);
      if |response| > 0 {
        sent := sent + [response];
      }
      processed := processed + 1;
      tail := Succ(tail, config.Slots());
    }

    /** The engine's inner loop empties the ring: each request goes to the handler once, oldest first, and each
        answer that is not empty is passed on in that order. */
    method Drain(h: Handler)
      requires Valid() && sent == Answers(h, executed)
      modifies this`tail, this`processed, this`executed, this`sent
      ensures Valid() && Contents() == []
      ensures executed == old(executed) + Buffers(old(Contents())) && sent == Answers(h, executed)
      ensures processed == old(processed) + |old(Contents())|
    {
      hide Answers, Span, Buffers;
      ghost var all, n := Contents(), 0;
      SpanSize(slots[..], tail, head);
      NoBuffers();
      while tail != head
        invariant Valid() && n <= |all| && Contents() == all[n..]
        invariant tail == head <==> Contents() == []
        invariant executed == old(executed) + Buffers(all[..n]) && sent == Answers(h, executed)
        invariant processed == old(processed) + n
        decreases |all| - n
      {
        ghost var rest := all[n..];
        Popped(all, n, rest[0], rest[1..]);
        BuffersNext(all[..n], rest[0]);
        ExecuteOldest(h);
        SpanSize(slots[..], tail, head);
        n := n + 1;
      }
      assert all[..n] == all;
    }
  }

  lemma NoBuffers()
    ensures Buffers([]) == []
  {
  }

  lemma Popped(all: seq<Slot>, n: nat, x: Slot, rest: seq<Slot>)
    requires n <= |all| && all[n..] == [x] + rest
    ensures n < |all| && rest == all[n + 1..] && all[..n + 1] == all[..n] + [x]
  {
    assert all[n] == all[n..][0];
    assert all[n + 1..] == all[n..][1..];
  }

  lemma BuffersNext(s: seq<Slot>, x: Slot)
    ensures Buffers(s + [x]) == Buffers(s) + [x.buf]
  {
  }

  lemma AnswersNext(h: Handler, requests: seq<seq<byte>>, r: seq<byte>)
    ensures Answers(h, requests + [r])
      == Answers(h, requests) + if h(requests + [r]) != [] then [h(requests + [r])] else []
  {
    assert (requests + [r])[..|requests|] == requests;
  }
}
