/** The lock-less single list: any number of enqueuers and one dequeuer, every load, store and
    compare-and-swap a step of its own, in any interleaving. */
module LockFreeList {

  /** A node's address; 0 is the null pointer. */
  type Ptr = nat

  type Thread = nat

  /** An enqueuer at work on node n; `exp` is the head it expects. */
  datatype EnqueuePc =
    | LoadingHead(n: Ptr)
    | Linking(n: Ptr, exp: Ptr)       // about to store n->next
    | Swapping(n: Ptr, exp: Ptr)      // about to compare and swap the head

  datatype DequeuePc =
    | Idle
    | Loading
    | Deciding(exp: Ptr)              // null ends the operation
    | LoadingNext(exp: Ptr)
    | SwappingOut(exp: Ptr, next: Ptr)

  datatype State = State(
    head: Ptr, next: map<Ptr, Ptr>,
    enqueuers: map<Thread, EnqueuePc>,
    dequeuer: DequeuePc, result: Ptr,
    members: set<Ptr>)                // nodes swapped in and not yet swapped out

  /** The moments at which operations take effect. */
  datatype Event =
    | Tau
    | Pushed(n: Ptr)
    | Popped(n: Ptr)
    | FoundEmpty

  ghost predicate Init(s: State) {
    s.head == 0 && s.enqueuers == map[] && s.dequeuer == Idle && s.members == {}
  }

  ghost predicate InHands(s: State, n: Ptr) {
    exists t :: t in s.enqueuers && s.enqueuers[t].n == n
  }

  /** A caller may enqueue any node that is not in the list and that nobody else is enqueuing; in
      particular one that was dequeued before. */
  ghost predicate StartEnqueue(s: State, t: Thread, n: Ptr, s': State) {
    && t !in s.enqueuers && n != 0 && n !in s.members && !InHands(s, n)
    && s' == s.(enqueuers := s.enqueuers[t := LoadingHead(n)])
  }

  ghost predicate EnqueueStep(s: State, t: Thread, e: Event, s': State) {
    && t in s.enqueuers
    && match s.enqueuers[t]
       case LoadingHead(n) =>
         e == Tau && s' == s.(enqueuers := s.enqueuers[t := Linking(n, s.head)])
       case Linking(n, exp) =>
         e == Tau && s' == s.(next := s.next[n := exp], enqueuers := s.enqueuers[t := Swapping(n, exp)])
       case Swapping(n, exp) =>
         if s.head == exp then
           && e == Pushed(n)
           && s' == s.(head := n, members := s.members + {n}, enqueuers := s.enqueuers - {t})
         else
           e == Tau && s' == s.(enqueuers := s.enqueuers[t := Linking(n, s.head)])
  }

  /** What a load of the head, first or after a failed swap, amounts to. */
  function Seen(head: Ptr): Event {
    if head == 0 then FoundEmpty else Tau
  }

  ghost predicate DequeueStep(s: State, e: Event, s': State) {
    match s.dequeuer
    case Idle => e == Tau && s' == s.(dequeuer := Loading)
    case Loading => e == Seen(s.head) && s' == s.(dequeuer := Deciding(s.head))
    case Deciding(exp) =>
      e == Tau && s' == if exp == 0 then s.(dequeuer := Idle, result := 0) else s.(dequeuer := LoadingNext(exp))
    case LoadingNext(exp) =>
      && e == Tau
      && exp in s.next && s' == s.(dequeuer := SwappingOut(exp, s.next[exp]))
    case SwappingOut(exp, next) =>
      if s.head == exp then
        && e == Popped(exp)
        && s' == s.(head := next, members := s.members - {exp}, dequeuer := Idle, result := exp)
      else
        e == Seen(s.head) && s' == s.(dequeuer := Deciding(s.head))
  }

  ghost predicate Step(s: State, e: Event, s': State) {
    || (e == Tau && exists t, n :: StartEnqueue(s, t, n, s'))
    || (exists t :: EnqueueStep(s, t, e, s'))
    || DequeueStep(s, e, s')
  }

  // ---------------------------------------------------------------- the abstract stack

  predicate Legal(stack: seq<Ptr>, e: Event) {
    match e
    case Tau => true
    case Pushed(n) => n !in stack
    case Popped(n) => stack != [] && stack[0] == n
    case FoundEmpty => stack == []
  }

  function Apply(stack: seq<Ptr>, e: Event): seq<Ptr> {
    match e
    case Tau => stack
    case Pushed(n) => [n] + stack
    case Popped(_) => if stack == [] then [] else stack[1..]
    case FoundEmpty => stack
  }

  function Replay(events: seq<Event>): seq<Ptr> {
    if events == [] then [] else Apply(Replay(events[..|events| - 1]), events[|events| - 1])
  }

  predicate LegalHistory(events: seq<Event>) {
    events == [] || (LegalHistory(events[..|events| - 1]) && Legal(Replay(events[..|events| - 1]), events[|events| - 1]))
  }

  // ---------------------------------------------------------------- simulation

  /** The links spell out the stack. */
  ghost predicate Spells(head: Ptr, next: map<Ptr, Ptr>, stack: seq<Ptr>)
    decreases stack
  {
    if stack == [] then head == 0
    else head == stack[0] && head != 0 && head in next && Spells(next[head], next, stack[1..])
  }

  ghost predicate NoDuplicates(stack: seq<Ptr>) {
    forall i, j | 0 <= i < j < |stack| :: stack[i] != stack[j]
  }

  ghost predicate EnqueuersOk(s: State, stack: seq<Ptr>) {
    && (forall t | t in s.enqueuers :: s.enqueuers[t].n != 0 && s.enqueuers[t].n !in stack)
    && (forall t, u | t in s.enqueuers && u in s.enqueuers && t != u :: s.enqueuers[t].n != s.enqueuers[u].n)
    && (forall t | t in s.enqueuers && s.enqueuers[t].Swapping? ::
          s.enqueuers[t].n in s.next && s.next[s.enqueuers[t].n] == s.enqueuers[t].exp)
  }

  /** The node the dequeuer looks at is in the list, so its link cannot change under it. */
  ghost predicate DequeuerOk(s: State, stack: seq<Ptr>) {
    match s.dequeuer
    case Idle => true
    case Loading => true
    case Deciding(exp) => exp == 0 || exp in stack
    case LoadingNext(exp) => exp in stack
    case SwappingOut(exp, next) => exp in stack && exp in s.next && s.next[exp] == next
  }

  ghost predicate Simulates(s: State, stack: seq<Ptr>) {
    && Spells(s.head, s.next, stack) && NoDuplicates(stack)
    && s.members == (set n | n in stack)
    && EnqueuersOk(s, stack) && DequeuerOk(s, stack)
  }

  lemma {:induction false} SpellsFrame(head: Ptr, next: map<Ptr, Ptr>, stack: seq<Ptr>, n: Ptr, v: Ptr)
    requires Spells(head, next, stack) && n !in stack
    ensures Spells(head, next[n := v], stack)
    decreases stack
  {
    if stack != [] {
      SpellsFrame(next[head], next, stack[1..], n, v);
    }
  }

  lemma {:induction false} SpellsMembers(head: Ptr, next: map<Ptr, Ptr>, stack: seq<Ptr>)
    requires Spells(head, next, stack)
    ensures forall n | n in stack :: n != 0 && n in next
    decreases stack
  {
    if stack != [] {
      SpellsMembers(next[head], next, stack[1..]);
      assert forall n | n in stack :: n == stack[0] || n in stack[1..];
    }
  }

  lemma EnqueueSimulates(s: State, t: Thread, e: Event, s': State, stack: seq<Ptr>)
    requires Simulates(s, stack) && EnqueueStep(s, t, e, s')
    ensures Legal(stack, e) && Simulates(s', Apply(stack, e))
  {
    match s.enqueuers[t] {
      case LoadingHead(n) =>
      case Linking(n, exp) =>
        SpellsFrame(s.head, s.next, stack, n, exp);
      case Swapping(n, exp) =>
        if s.head == exp {
          assert ([n] + stack)[1..] == stack;
        }
    }
  }

  lemma DequeueSimulates(s: State, e: Event, s': State, stack: seq<Ptr>)
    requires Simulates(s, stack) && DequeueStep(s, e, s')
    ensures Legal(stack, e) && Simulates(s', Apply(stack, e))
  {
    SpellsMembers(s.head, s.next, stack);
    if s.dequeuer.SwappingOut? && s.head == s.dequeuer.exp {
      assert forall n | n in stack :: n == stack[0] || n in stack[1..];
      assert stack[0] !in stack[1..];
    }
  }

  lemma StepSimulates(s: State, e: Event, s': State, stack: seq<Ptr>)
    requires Simulates(s, stack) && Step(s, e, s')
    ensures Legal(stack, e) && Simulates(s', Apply(stack, e))
  {
    if e == Tau && exists t, n :: StartEnqueue(s, t, n, s') {
      var t, n :| StartEnqueue(s, t, n, s');
      assert n !in s.members;
    } else if exists t :: EnqueueStep(s, t, e, s') {
      var t :| EnqueueStep(s, t, e, s');
      EnqueueSimulates(s, t, e, s', stack);
    } else {
      DequeueSimulates(s, e, s', stack);
    }
  }

  // ---------------------------------------------------------------- what every run guarantees

  ghost predicate IsRun(run: seq<State>, events: seq<Event>) {
    && |run| == |events| + 1 && Init(run[0])
    && forall i | 0 <= i < |events| :: Step(run[i], events[i], run[i + 1])
  }

  /** Every interleaving is linearizable: the events, each inside the operation it belongs to, are a legal
      history of a stack, and at every moment the links spell out the stack of that history, each node once. */
  lemma {:induction false} Linearizable(run: seq<State>, events: seq<Event>, k: nat)
    requires IsRun(run, events) && k <= |events|
    ensures LegalHistory(events[..k])
    ensures Simulates(run[k], Replay(events[..k]))
  {
    hide Simulates, Step, Legal, Apply;
    if k == 0 {
      InitSimulates(run[0]);
    } else {
      var before := events[..k - 1];
      assert events[..k][..k - 1] == before;
      Linearizable(run, events, k - 1);
      StepSimulates(run[k - 1], events[k - 1], run[k], Replay(before));
    }
  }

  lemma InitSimulates(s: State)
    requires Init(s)
    ensures Simulates(s, [])
  {
  }

  /** The dequeuer comes to return null only through a load of the head that found the list empty. */
  lemma NullMeansEmpty(run: seq<State>, events: seq<Event>, k: nat)
    requires IsRun(run, events) && k < |events|
    requires run[k].dequeuer != Deciding(0) && run[k + 1].dequeuer == Deciding(0)
    ensures events[k] == FoundEmpty && Replay(events[..k]) == []
  {
    Linearizable(run, events, k);
    assert Step(run[k], events[k], run[k + 1]);
    StepSimulates(run[k], events[k], run[k + 1], Replay(events[..k]));
    hide IsRun, Simulates, Replay;
  }

  /** A node comes out only as the top of the stack at that moment. */
  lemma DequeuedWasTop(run: seq<State>, events: seq<Event>, k: nat)
    requires IsRun(run, events) && k < |events|
    requires run[k].dequeuer.SwappingOut? && run[k + 1].dequeuer == Idle
    ensures var stack := Replay(events[..k]);
            events[k] == Popped(run[k + 1].result) && stack != [] && stack[0] == run[k + 1].result
  {
    Linearizable(run, events, k);
    assert Step(run[k], events[k], run[k + 1]);
    StepSimulates(run[k], events[k], run[k + 1], Replay(events[..k]));
    hide IsRun, Simulates, Replay;
  }

  function In(e: Event): multiset<Ptr> {
    match e
    case Pushed(n) => multiset{n}
    case _ => multiset{}
  }

  function Out(e: Event): multiset<Ptr> {
    match e
    case Popped(n) => multiset{n}
    case _ => multiset{}
  }

  function Pushes(events: seq<Event>): multiset<Ptr> {
    if events == [] then multiset{} else Pushes(events[..|events| - 1]) + In(events[|events| - 1])
  }

  function Pops(events: seq<Event>): multiset<Ptr> {
    if events == [] then multiset{} else Pops(events[..|events| - 1]) + Out(events[|events| - 1])
  }

  lemma EventConserves(stack: seq<Ptr>, e: Event)
    requires Legal(stack, e)
    ensures multiset(stack) + In(e) == Out(e) + multiset(Apply(stack, e))
  {
    if stack != [] { assert stack == [stack[0]] + stack[1..]; }
  }

  lemma Balance(p: multiset<Ptr>, q: multiset<Ptr>, r: multiset<Ptr>, i: multiset<Ptr>, o: multiset<Ptr>, t: multiset<Ptr>)
    requires p == q + r && r + i == o + t
    ensures p + i == q + o + t
  {
    assert p + i == q + (r + i);
  }

  lemma {:induction false} HistoryConserves(events: seq<Event>)
    requires LegalHistory(events)
    ensures Pushes(events) == Pops(events) + multiset(Replay(events))
  {
    hide Apply, In, Out, Legal;
    if events != [] {
      var before, e := events[..|events| - 1], events[|events| - 1];
      var stack := Replay(before);
      HistoryConserves(before);
      EventConserves(stack, e);
      Balance(Pushes(before), Pops(before), multiset(stack), In(e), Out(e), multiset(Apply(stack, e)));
    }
  }

  /** No node is lost and none is handed out twice: pushed is popped plus what the list still holds. */
  lemma NothingLost(run: seq<State>, events: seq<Event>, k: nat)
    requires IsRun(run, events) && k <= |events|
    ensures Spells(run[k].head, run[k].next, Replay(events[..k])) && NoDuplicates(Replay(events[..k]))
    ensures Pushes(events[..k]) == Pops(events[..k]) + multiset(Replay(events[..k]))
  {
    Linearizable(run, events, k);
    HistoryConserves(events[..k]);
  }

  // ---------------------------------------------------------------- what a finished call has done

  /** An enqueue in progress keeps its node, and it ends exactly in the step that pushes that node. */
  lemma EnqueueEndsByPush(s: State, e: Event, s': State, stack: seq<Ptr>, t: Thread)
    requires Simulates(s, stack) && Step(s, e, s') && t in s.enqueuers
    ensures t !in s'.enqueuers <==> e == Pushed(s.enqueuers[t].n)
    ensures t in s'.enqueuers ==> s'.enqueuers[t].n == s.enqueuers[t].n
  {
    hide Spells, NoDuplicates, DequeuerOk;
    if exists u :: EnqueueStep(s, u, e, s') {
      var u :| EnqueueStep(s, u, e, s');
      assert u != t ==> s.enqueuers[u].n != s.enqueuers[t].n;
    }
  }

  lemma EnqueueStarts(s: State, e: Event, s': State, t: Thread)
    requires Step(s, e, s') && t !in s.enqueuers && t in s'.enqueuers
    ensures e == Tau && s'.enqueuers[t].n !in s.members
  {
  }

  /** Steps j to k of a run are one call of thread t: it enters in step j, is inside until step k, and leaves there. */
  ghost predicate EnqueueCall(run: seq<State>, t: Thread, j: nat, k: nat)
    requires j < k && k + 1 < |run|
  {
    && t !in run[j].enqueuers && t !in run[k + 1].enqueuers
    && forall i :: j < i <= k ==> t in run[i].enqueuers
  }

  /** Every enqueue that has ended has pushed its node, once: in its last step and in no other. */
  lemma FinishedEnqueuePushedOnce(run: seq<State>, events: seq<Event>, t: Thread, j: nat, k: nat)
    requires IsRun(run, events) && j < k < |events| && EnqueueCall(run, t, j, k)
    ensures events[k] == Pushed(run[j + 1].enqueuers[t].n)
    ensures forall i :: j <= i < k ==> events[i] != Pushed(run[j + 1].enqueuers[t].n)
    ensures run[j + 1].enqueuers[t].n !in run[j].members
  {
    hide Step, Simulates;
    assert Step(run[j], events[j], run[j + 1]);
    EnqueueStarts(run[j], events[j], run[j + 1], t);
    forall i | j < i <= k ensures run[i].enqueuers[t].n == run[j + 1].enqueuers[t].n {
      NodeKept(run, events, t, j, k, i);
    }
    forall i | j < i <= k
      ensures events[i] == Pushed(run[i].enqueuers[t].n) <==> t !in run[i + 1].enqueuers
    {
      Linearizable(run, events, i);
      assert Step(run[i], events[i], run[i + 1]);
      EnqueueEndsByPush(run[i], events[i], run[i + 1], Replay(events[..i]), t);
    }
    forall i | j < i < k ensures events[i] != Pushed(run[j + 1].enqueuers[t].n) {
      assert t in run[i + 1].enqueuers && run[i].enqueuers[t].n == run[j + 1].enqueuers[t].n;
    }
  }

  lemma {:induction false} NodeKept(run: seq<State>, events: seq<Event>, t: Thread, j: nat, k: nat, i: nat)
    requires IsRun(run, events) && j < i <= k < |events| && EnqueueCall(run, t, j, k)
    ensures run[i].enqueuers[t].n == run[j + 1].enqueuers[t].n
    decreases i
  {
    hide Step, Simulates;
    if i > j + 1 {
      NodeKept(run, events, t, j, k, i - 1);
      Linearizable(run, events, i - 1);
      assert Step(run[i - 1], events[i - 1], run[i]);
      EnqueueEndsByPush(run[i - 1], events[i - 1], run[i], Replay(events[..i - 1]), t);
    }
  }

  /** The dequeuer's call ends exactly by swapping a node out or by acting on a null it has loaded; any other step
      leaves it inside. */
  lemma DequeueStepEnds(s: State, e: Event, s': State, stack: seq<Ptr>)
    requires Simulates(s, stack) && Step(s, e, s') && s.dequeuer != Idle
    ensures s'.dequeuer == Idle ==>
      || (e == Popped(s'.result) && s'.result != 0)
      || (e == Tau && s.dequeuer == Deciding(0) && s'.result == 0)
    ensures (exists n :: e == Popped(n)) ==> s'.dequeuer == Idle && s'.result == e.n
    ensures s'.dequeuer == Deciding(0) ==> s.dequeuer == Deciding(0) || e == FoundEmpty
  {
    SpellsMembers(s.head, s.next, stack);
    hide Spells, NoDuplicates, EnqueuersOk;
  }

  /** A null in the dequeuer's hands was loaded from an empty list, in the same call. */
  lemma {:induction false} NullWasLoaded(run: seq<State>, events: seq<Event>, k: nat) returns (i: nat)
    requires IsRun(run, events) && k < |run| && run[k].dequeuer == Deciding(0)
    ensures i < k && events[i] == FoundEmpty && Replay(events[..i]) == []
    ensures forall j :: i < j <= k ==> run[j].dequeuer == Deciding(0)
    ensures run[i].dequeuer != Idle
    decreases k
  {
    hide Step, Simulates, Legal, Replay, LegalHistory;
    assert k > 0;
    assert Step(run[k - 1], events[k - 1], run[k]);
    if run[k - 1].dequeuer == Deciding(0) {
      i := NullWasLoaded(run, events, k - 1);
    } else {
      NullMeansEmpty(run, events, k - 1);
      NotFromIdle(run[k - 1], events[k - 1], run[k]);
      i := k - 1;
    }
  }

  lemma NotFromIdle(s: State, e: Event, s': State)
    requires Step(s, e, s') && s'.dequeuer == Deciding(0)
    ensures s.dequeuer != Idle
  {
  }

  /** Every dequeue that has ended has done one of two things: it hands out a node, in the step that pops it; or it
      hands out null, and a load of its own has found the list empty. It pops nothing before its last step. */
  lemma FinishedDequeue(run: seq<State>, events: seq<Event>, j: nat, k: nat) returns (i: nat)
    requires IsRun(run, events) && j < k < |events|
    requires run[j].dequeuer == Idle && run[k + 1].dequeuer == Idle && forall m :: j < m <= k ==> run[m].dequeuer != Idle
    ensures forall m, n :: j <= m < k ==> events[m] != Popped(n)
    ensures if run[k + 1].result != 0 then events[k] == Popped(run[k + 1].result)
            else j < i < k && events[i] == FoundEmpty && Replay(events[..i]) == [] && forall n :: events[k] != Popped(n)
  {
    hide Step, Simulates, Replay;
    forall m, n | j <= m < k ensures events[m] != Popped(n) {
      Linearizable(run, events, m);
      assert Step(run[m], events[m], run[m + 1]);
      if m > j { DequeueStepEnds(run[m], events[m], run[m + 1], Replay(events[..m])); } else {
        IdlePopsNothing(run[m], events[m], run[m + 1], n);
      }
    }
    Linearizable(run, events, k);
    assert Step(run[k], events[k], run[k + 1]);
    DequeueStepEnds(run[k], events[k], run[k + 1], Replay(events[..k]));
    i := 0;
    if run[k + 1].result == 0 {
      i := NullWasLoaded(run, events, k);
    }
  }

  lemma IdlePopsNothing(s: State, e: Event, s': State, n: Ptr)
    requires Step(s, e, s') && s.dequeuer == Idle
    ensures e != Popped(n)
  {
  }

  // ---------------------------------------------------------------- progress

  function EnqueueRank(s: State, t: Thread): nat {
    if t !in s.enqueuers then 0
    else match s.enqueuers[t]
      case LoadingHead(_) => 3
      case Linking(_, _) => 2
      case Swapping(_, _) => 1
  }

  function DequeueRank(pc: DequeuePc): nat {
    match pc
    case Idle => 0
    case Loading => 4
    case Deciding(_) => 3
    case LoadingNext(_) => 2
    case SwappingOut(_, _) => 1
  }

  /** Each step of an enqueue brings it nearer to its end, unless it is a swap that fails on a head that has changed
      since it was loaded. */
  lemma EnqueueAdvances(s: State, t: Thread, e: Event, s': State)
    requires EnqueueStep(s, t, e, s')
    ensures EnqueueRank(s', t) < EnqueueRank(s, t) <==> !(s.enqueuers[t].Swapping? && s.enqueuers[t].exp != s.head)
  {
  }

  lemma DequeueAdvances(s: State, e: Event, s': State)
    requires DequeueStep(s, e, s') && s.dequeuer != Idle
    ensures DequeueRank(s'.dequeuer) < DequeueRank(s.dequeuer) <==>
            !(s.dequeuer.SwappingOut? && s.dequeuer.exp != s.head)
  {
  }

  predicate Moves(e: Event) {
    e.Pushed? || e.Popped?
  }

  lemma OnlyMovesMoveHead(s: State, e: Event, s': State)
    requires Step(s, e, s') && s'.head != s.head
    ensures Moves(e)
  {
  }

  /** Thread t is enqueuing with exp as the head it has seen last. */
  predicate Expects(s: State, t: Thread, exp: Ptr) {
    t in s.enqueuers && !s.enqueuers[t].LoadingHead? && s.enqueuers[t].exp == exp
  }

  lemma ExpectsWhatItSaw(s: State, e: Event, s': State, t: Thread, exp: Ptr)
    requires Step(s, e, s') && Expects(s', t, exp)
    ensures Expects(s, t, exp) || s'.head == s.head == exp
  {
  }

  /** Lock freedom: a swap can only fail because, since the enqueuer last loaded the head, some other operation has
      taken effect. */
  lemma {:induction false} FailureMeansProgress(run: seq<State>, events: seq<Event>, k: nat, t: Thread, exp: Ptr)
      returns (i: nat)
    requires IsRun(run, events) && k < |run| && Expects(run[k], t, exp) && run[k].head != exp
    ensures i < k && Moves(events[i]) && forall m :: i <= m <= k ==> Expects(run[m], t, exp)
    decreases k
  {
    hide Step, Expects;
    StartsEmpty(run, events, t, exp);
    var s, s' := run[k - 1], run[k];
    assert Step(s, events[k - 1], s');
    ExpectsWhatItSaw(s, events[k - 1], s', t, exp);
    if s.head != exp {
      i := FailureMeansProgress(run, events, k - 1, t, exp);
    } else {
      OnlyMovesMoveHead(s, events[k - 1], s');
      i := k - 1;
    }
  }

  lemma StartsEmpty(run: seq<State>, events: seq<Event>, t: Thread, exp: Ptr)
    requires IsRun(run, events)
    ensures !Expects(run[0], t, exp)
  {
    hide Step;
  }

  /** The dequeuer is at work with exp as the head it has seen last. */
  predicate TakesFor(pc: DequeuePc, exp: Ptr) {
    (pc.Deciding? || pc.LoadingNext? || pc.SwappingOut?) && pc.exp == exp
  }

  lemma TakesWhatItSaw(s: State, e: Event, s': State, exp: Ptr)
    requires Step(s, e, s') && TakesFor(s'.dequeuer, exp)
    ensures TakesFor(s.dequeuer, exp) || s'.head == s.head == exp
  {
  }

  /** ... and the same for the dequeuer. */
  lemma {:induction false} DequeueFailureMeansProgress(run: seq<State>, events: seq<Event>, k: nat, exp: Ptr)
      returns (i: nat)
    requires IsRun(run, events) && k < |run| && TakesFor(run[k].dequeuer, exp) && run[k].head != exp
    ensures i < k && Moves(events[i]) && forall m :: i <= m <= k ==> TakesFor(run[m].dequeuer, exp)
    decreases k
  {
    hide Step, TakesFor;
    StartsIdle(run, events, exp);
    var s, s' := run[k - 1], run[k];
    assert Step(s, events[k - 1], s');
    TakesWhatItSaw(s, events[k - 1], s', exp);
    if s.head != exp {
      i := DequeueFailureMeansProgress(run, events, k - 1, exp);
    } else {
      OnlyMovesMoveHead(s, events[k - 1], s');
      i := k - 1;
    }
  }

  lemma StartsIdle(run: seq<State>, events: seq<Event>, exp: Ptr)
    requires IsRun(run, events)
    ensures !TakesFor(run[0].dequeuer, exp)
  {
    hide Step;
  }
}
