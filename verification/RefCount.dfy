/** A reference count kept with inc_not_zero and dec_and_test: any number of threads, each load, each
    compare-and-swap and each subtraction a step of its own, in any interleaving. */
module RefCount {

  const WORD := 0x1_0000_0000

  /** The counter is one machine word. */
  function Wrap(x: int): (w: nat)
    ensures w < 0x1_0000_0000 && (x - w) % 0x1_0000_0000 == 0
  {
    x % WORD
  }

  type Thread = nat
  type Reference = nat

  /** `trying` maps each thread inside inc_not_zero to the counter value it has seen last. A reference is
      born by a successful increment and dies in a decrement by its holder. */
  datatype State = State(
    count: nat,
    trying: map<Thread, nat>,
    live: set<Reference>,
    born: nat,              // successful increments
    refused: nat,           // increments that returned false
    zeros: nat)             // decrements that returned true

  ghost predicate Init(s: State) {
    s.live != {} && s.count == |s.live| && s.trying == map[] && s.born == 0 && s.refused == 0 && s.zeros == 0
  }

  /** rt_atomic_load at the start of the loop. */
  ghost predicate Load(s: State, t: Thread, s': State) {
    t !in s.trying && s' == s.(trying := s.trying[t := s.count])
  }

  /** One turn of the loop: give up on zero, or compare and swap. */
  ghost predicate Turn(s: State, t: Thread, r: Reference, s': State) {
    && t in s.trying && r !in s.live
    && var c := s.trying[t];
       if c == 0 then s' == s.(trying := s.trying - {t}, refused := s.refused + 1)
       else if s.count == c then
         s' == s.(count := Wrap(c + 1), trying := s.trying - {t}, live := s.live + {r}, born := s.born + 1)
       else s' == s.(trying := s.trying[t := s.count])
  }

  /** rt_atomic_sub by the holder of r; true when the old value was one. */
  ghost predicate Drop(s: State, r: Reference, s': State) {
    && r in s.live
    && s' == s.(count := Wrap(s.count - 1), live := s.live - {r},
                zeros := if s.count == 1 then s.zeros + 1 else s.zeros)
  }

  ghost predicate Step(s: State, s': State) {
    || (exists t :: Load(s, t, s'))
    || (exists t, r :: Turn(s, t, r, s'))
    || (exists r :: Drop(s, r, s'))
  }

  /** The side condition: the references fit the word. */
  ghost predicate IsRun(run: seq<State>) {
    && |run| > 0 && Init(run[0])
    && (forall i | 0 <= i < |run| - 1 :: Step(run[i], run[i + 1]))
    && (forall i | 0 <= i < |run| :: |run[i].live| < 0x1_0000_0000)
  }

  ghost predicate Inv(s: State) {
    && s.count == |s.live|
    && s.zeros == if s.live == {} then 1 else 0
  }

  lemma TurnInv(s: State, t: Thread, r: Reference, s': State)
    requires Inv(s) && Turn(s, t, r, s') && |s'.live| < WORD
    ensures Inv(s') && (s.live == {} ==> s'.live == {} && s'.born == s.born)
  {
  }

  lemma DropInv(s: State, r: Reference, s': State)
    requires Inv(s) && Drop(s, r, s') && |s.live| < WORD
    ensures Inv(s')
  {
    assert s.live == s'.live + {r};
    assert |s.live| == |s'.live| + 1;
  }

  lemma StepInv(s: State, s': State)
    requires Inv(s) && Step(s, s') && |s.live| < WORD && |s'.live| < WORD
    ensures Inv(s') && (s.live == {} ==> s'.live == {} && s'.born == s.born && s'.zeros == s.zeros)
  {
    if exists t :: Load(s, t, s') {
    } else if exists t, r :: Turn(s, t, r, s') {
      var t, r :| Turn(s, t, r, s');
      TurnInv(s, t, r, s');
    } else {
      var r :| Drop(s, r, s');
      DropInv(s, r, s');
    }
  }

  lemma {:induction false} RunInv(run: seq<State>, k: nat)
    requires IsRun(run) && k < |run|
    ensures Inv(run[k])
  {
    hide Inv, Step;
    if k == 0 {
      InitInv(run[0]);
    } else {
      RunInv(run, k - 1);
      StepInv(run[k - 1], run[k]);
    }
  }

  lemma InitInv(s: State)
    requires Init(s)
    ensures Inv(s)
  {
  }

  /** At every moment the counter is the number of live references, and as soon as there are none, exactly
      one decrement has reported zero. */
  lemma CountsLiveReferences(run: seq<State>, k: nat)
    requires IsRun(run) && k < |run|
    ensures run[k].count == |run[k].live|
    ensures run[k].zeros == if run[k].live == {} then 1 else 0
  {
    hide IsRun;
    RunInv(run, k);
  }

  /** Once the count has reached zero it stays there: no increment succeeds and no second decrement reports
      zero, however many threads were already trying. */
  lemma {:induction false} DeadStaysDead(run: seq<State>, j: nat, k: nat)
    requires IsRun(run) && j <= k < |run| && run[j].count == 0
    ensures run[k].count == 0 && run[k].live == {}
    ensures run[k].born == run[j].born && run[k].zeros == run[j].zeros == 1
  {
    hide Step;
    CountsLiveReferences(run, j);
    if j < k {
      DeadStaysDead(run, j, k - 1);
      RunInv(run, k - 1);
      StepInv(run[k - 1], run[k]);
      CountsLiveReferences(run, k);
    }
  }

  /** A thread that has seen zero saw it in a load or a failed swap of its own, while the count was zero. */
  lemma {:induction false} SeenZero(run: seq<State>, k: nat, t: Thread) returns (i: nat)
    requires IsRun(run) && k < |run| && t in run[k].trying && run[k].trying[t] == 0
    ensures i < k && run[i].count == 0 && t in run[i + 1].trying
    ensures forall j :: i < j <= k ==> t in run[j].trying && run[j].trying[t] == 0
    decreases k
  {
    var s, s' := run[k - 1], run[k];
    assert Step(s, s');
    hide Step;
    if t in s.trying && s.trying[t] == 0 {
      i := SeenZero(run, k - 1, t);
    } else {
      ZeroComesFromCount(s, s', t);
      i := k - 1;
    }
  }

  lemma ZeroComesFromCount(s: State, s': State, t: Thread)
    requires Step(s, s') && t in s'.trying && s'.trying[t] == 0 && !(t in s.trying && s.trying[t] == 0)
    ensures s.count == 0
  {
  }

  /** An attempt ends exactly by taking a reference or by being refused; it is refused only when there is no live
      reference left, and then in the face of a zero that the attempt itself has seen. */
  lemma RefusedOnlyWhenDead(run: seq<State>, k: nat, t: Thread) returns (i: nat)
    requires IsRun(run) && k + 1 < |run| && t in run[k].trying && t !in run[k + 1].trying
    ensures if run[k + 1].born == run[k].born + 1 then run[k + 1].refused == run[k].refused
            else
              && run[k + 1].born == run[k].born && run[k + 1].refused == run[k].refused + 1
              && run[k].live == {} && run[k].count == 0
              && i < k && run[i].count == 0 && forall j :: i < j <= k ==> t in run[j].trying
  {
    AttemptEnds(run[k], run[k + 1], t);
    i := 0;
    if run[k + 1].born != run[k].born + 1 {
      i := SeenZero(run, k, t);
      DeadStaysDead(run, i, k);
    }
  }

  lemma AttemptEnds(s: State, s': State, t: Thread)
    requires Step(s, s') && t in s.trying && t !in s'.trying
    ensures || (s'.born == s.born + 1 && s'.refused == s.refused && s.trying[t] != 0)
            || (s'.born == s.born && s'.refused == s.refused + 1 && s.trying[t] == 0)
  {
  }

  /** An attempt goes on exactly after a failed swap, with the value that the counter held. */
  lemma GoesOnAfterFailedSwap(s: State, t: Thread, r: Reference, s': State)
    requires Turn(s, t, r, s')
    ensures t in s'.trying <==> s.trying[t] != 0 && s.trying[t] != s.count
    ensures t in s'.trying ==> s'.trying[t] == s.count && s'.count == s.count && s'.live == s.live
  {
  }
}
