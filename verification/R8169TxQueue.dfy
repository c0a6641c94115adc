/** Stopping and waking the r8169 transmit queue: rtl8169_start_xmit against
    rtl_tx, interleaved step by step. Memory is sequentially consistent. At its end
    rtl_tx sees whether the queue is stopped, counts the free slots and wakes the
    queue: three steps in the code, or, for comparison, one. */
module R8169TxQueue {
  import opened Wrappers
  import opened Words
  import opened R8169TxRing

  /** Where a call of rtl8169_start_xmit stands. Calls are serialised by the stack. */
  datatype Xmit =
    | Resting                  // no call under way
    | Filling(frags: nat)      // the packet fits and is being written
    | Testing                  // cur_tx is published
    | Stopping                 // too few slots are left
    | Looking                  // the queue is stopped, the slots are counted again
    | Waking                   // there were enough after all
    | Refusing                 // "BUG! Tx Ring full when queue awake!"

  /** Where rtl_tx stands. */
  datatype Reclaim =
    | Quiet
    | Reclaiming(left: nat)    // so many slots were outstanding when it looked
    | Checking                 // dirty_tx is published
    | Counting                 // it has seen a stopped queue
    | Committed                // it has seen a stopped queue and then room, and will wake it

  datatype State = State(cur: u32, dirty: u32, stopped: bool, xmit: Xmit, reclaim: Reclaim)

  datatype Action =
    | Enter(frags: nat)        // the stack hands down a packet
    | Drop                     // a mapping fails
    | Publish | Test | Stop | Look | Wake | Refuse
    | Begin
    | Retire(k: nat)           // k slots are reclaimed and dirty_tx published
    | Check | Count | WakeUp
    | Reset                    // rtl_reset_work, with both sides held off

  /** The slots still free, by the counters. */
  function Free(s: State): int {
    NUM_TX_DESC - Outstanding(s.dirty, s.cur)
  }

  /** One step, if it is enabled. maxFrags is MAX_SKB_FRAGS; `atomic` says whether
      rtl_tx tests and wakes in one step. */
  function Step(maxFrags: nat, atomic: bool, s: State, a: Action): Option<State> {
    match a
    case Enter(frags) =>
      if !s.xmit.Resting? || s.stopped || frags > maxFrags then None
      else if !ReadyFor(s.dirty, s.cur, frags) then Some(s.(xmit := Refusing))
      else Some(s.(xmit := Filling(frags)))
    case Drop => if s.xmit.Filling? then Some(s.(xmit := Resting)) else None
    case Publish =>
      if s.xmit.Filling? then Some(s.(cur := Add32(s.cur, s.xmit.frags + 1), xmit := Testing)) else None
    case Test =>
      if !s.xmit.Testing? then None
      else if ReadyFor(s.dirty, s.cur, maxFrags) then Some(s.(xmit := Resting))
      else Some(s.(xmit := Stopping))
    case Stop => if s.xmit.Stopping? then Some(s.(stopped := true, xmit := Looking)) else None
    case Look =>
      if !s.xmit.Looking? then None
      else if ReadyFor(s.dirty, s.cur, maxFrags) then Some(s.(xmit := Waking))
      else Some(s.(xmit := Resting))
    case Wake => if s.xmit.Waking? then Some(s.(stopped := false, xmit := Resting)) else None
    case Refuse => if s.xmit.Refusing? then Some(s.(stopped := true, xmit := Resting)) else None
    case Begin =>
      if s.reclaim.Quiet? then Some(s.(reclaim := Reclaiming(Outstanding(s.dirty, s.cur)))) else None
    case Retire(k) =>
      if !s.reclaim.Reclaiming? || k > s.reclaim.left then None
      else if k == 0 then Some(s.(reclaim := Quiet))
      else Some(s.(dirty := Add32(s.dirty, k), reclaim := Checking))
    case Check =>
      if !s.reclaim.Checking? then None
      else if !s.stopped then Some(s.(reclaim := Quiet))
      else if !atomic then Some(s.(reclaim := Counting))
      else if !ReadyFor(s.dirty, s.cur, maxFrags) then Some(s.(reclaim := Quiet))
      else Some(s.(stopped := false, reclaim := Quiet))
    case Count =>
      if !s.reclaim.Counting? then None
      else if !ReadyFor(s.dirty, s.cur, maxFrags) then Some(s.(reclaim := Quiet))
      else Some(s.(reclaim := Committed))
    case WakeUp => if s.reclaim.Committed? then Some(s.(stopped := false, reclaim := Quiet)) else None
    case Reset =>
      if s.xmit.Resting? && s.reclaim.Quiet? then Some(State(0, 0, false, Resting, Quiet)) else None
  }

  /** A whole run, or None if some step was not enabled. */
  function Run(maxFrags: nat, atomic: bool, s: State, acts: seq<Action>): Option<State>
    decreases |acts|
  {
    if acts == [] then Some(s)
    else
      var before := Run(maxFrags, atomic, s, acts[..|acts| - 1]);
      if before.None? then None else Step(maxFrags, atomic, before.value, acts[|acts| - 1])
  }

  /** The queue as rtl_open leaves it. */
  ghost predicate Fresh(s: State) {
    s.cur == s.dirty && !s.stopped && s.xmit == Resting && s.reclaim == Quiet
  }

  /** What holds of every state, wake-ups stale or not: the ring is not overrun. */
  ghost predicate Bounded(maxFrags: nat, s: State) {
    && 0 <= Free(s)
    && (s.reclaim.Reclaiming? ==> s.reclaim.left <= Outstanding(s.dirty, s.cur))
    && (s.xmit.Filling? ==> s.xmit.frags <= maxFrags && Free(s) > s.xmit.frags)
  }

  /** rtl_tx wakes a stopped queue that meanwhile has too few slots again. */
  ghost predicate Stale(maxFrags: nat, s: State, a: Action) {
    a.WakeUp? && s.reclaim.Committed? && s.stopped && Free(s) <= maxFrags
  }

  ghost predicate Inv(maxFrags: nat, s: State) {
    && Bounded(maxFrags, s) && !s.xmit.Refusing?
    && (s.xmit.Filling? || s.xmit.Testing? || s.xmit.Stopping? ==> !s.stopped)
    && (s.xmit.Filling? || s.xmit.Waking? ==> Free(s) > maxFrags)
    && (s.xmit.Looking? && !s.stopped ==> Free(s) > maxFrags)
    && (s.xmit.Resting? && !s.stopped ==> Free(s) > maxFrags)
    && (s.xmit.Resting? && s.stopped && !s.reclaim.Checking? && !s.reclaim.Counting? && !s.reclaim.Committed? ==>
          Free(s) <= maxFrags)
  }

  /** The u32 arithmetic of the counters, seen as counting. */
  lemma CountingSlots(dirty: u32, cur: u32, k: nat)
    requires k <= NUM_TX_DESC && Outstanding(dirty, cur) <= NUM_TX_DESC
    ensures SlotsAvail(dirty, cur) == NUM_TX_DESC - Outstanding(dirty, cur)
    ensures k <= NUM_TX_DESC - Outstanding(dirty, cur) ==>
              Outstanding(dirty, Add32(cur, k)) == Outstanding(dirty, cur) + k
    ensures k <= Outstanding(dirty, cur) ==> Outstanding(Add32(dirty, k), cur) == Outstanding(dirty, cur) - k
  {
    hide Outstanding, SlotsAvail, Add32;
    CountingFree(dirty, cur);
    CountingUp(dirty, cur, k);
    CountingDown(dirty, cur, k);
  }

  lemma CountingFree(dirty: u32, cur: u32)
    requires Outstanding(dirty, cur) <= NUM_TX_DESC
    ensures SlotsAvail(dirty, cur) == NUM_TX_DESC - Outstanding(dirty, cur)
  {
    Wraps32(cur - dirty);
    Wraps32(dirty + NUM_TX_DESC - cur);
  }

  lemma CountingUp(dirty: u32, cur: u32, k: nat)
    requires Outstanding(dirty, cur) <= NUM_TX_DESC
    ensures k <= NUM_TX_DESC - Outstanding(dirty, cur) ==>
              Outstanding(dirty, Add32(cur, k)) == Outstanding(dirty, cur) + k
  {
    if k <= NUM_TX_DESC - Outstanding(dirty, cur) {
      Wraps32(cur - dirty);
      Wraps32(cur + k);
      Wraps32(Add32(cur, k) - dirty);
    }
  }

  lemma CountingDown(dirty: u32, cur: u32, k: nat)
    requires Outstanding(dirty, cur) <= NUM_TX_DESC
    ensures k <= Outstanding(dirty, cur) ==> Outstanding(Add32(dirty, k), cur) == Outstanding(dirty, cur) - k
  {
    if k <= Outstanding(dirty, cur) {
      Wraps32(cur - dirty);
      Wraps32(dirty + k);
      Wraps32(cur - Add32(dirty, k));
    }
  }

  lemma BoundedStep(maxFrags: nat, atomic: bool, s: State, a: Action)
    requires maxFrags < NUM_TX_DESC && Bounded(maxFrags, s) && Step(maxFrags, atomic, s, a).Some?
    ensures Bounded(maxFrags, Step(maxFrags, atomic, s, a).value)
  {
    hide Outstanding, SlotsAvail, Add32;
    StepCounts(s, a);
  }

  /** The counting that a step does. */
  lemma StepCounts(s: State, a: Action)
    requires 0 <= Free(s)
    ensures SlotsAvail(s.dirty, s.cur) == Free(s) && Outstanding(0, 0) == 0
    ensures s.xmit.Filling? && s.xmit.frags < Free(s) ==>
              Outstanding(s.dirty, Add32(s.cur, s.xmit.frags + 1)) == Outstanding(s.dirty, s.cur) + s.xmit.frags + 1
    ensures a.Retire? && a.k <= Outstanding(s.dirty, s.cur) ==>
              Outstanding(Add32(s.dirty, a.k), s.cur) == Outstanding(s.dirty, s.cur) - a.k
  {
    hide Outstanding, SlotsAvail, Add32;
    CountingSlots(s.dirty, s.cur, 0);
    if s.xmit.Filling? && s.xmit.frags < Free(s) {
      CountingSlots(s.dirty, s.cur, s.xmit.frags + 1);
    }
    if a.Retire? && a.k <= Outstanding(s.dirty, s.cur) {
      CountingSlots(s.dirty, s.cur, a.k);
    }
    OutstandingNone(0);
  }

  /** Every step that is not stale keeps the invariant, in one step or in three. */
  lemma InvStep(maxFrags: nat, atomic: bool, s: State, a: Action)
    requires maxFrags < NUM_TX_DESC && Inv(maxFrags, s) && Step(maxFrags, atomic, s, a).Some?
    requires !Stale(maxFrags, s, a)
    ensures Inv(maxFrags, Step(maxFrags, atomic, s, a).value)
  {
    BoundedStep(maxFrags, atomic, s, a);
    hide Outstanding, SlotsAvail, Add32, Bounded;
    BoundedIs(maxFrags, s);
    StepCounts(s, a);
  }

  lemma BoundedIs(maxFrags: nat, s: State)
    ensures Bounded(maxFrags, s) ==>
              && 0 <= Free(s)
              && (s.reclaim.Reclaiming? ==> s.reclaim.left <= Outstanding(s.dirty, s.cur))
              && (s.xmit.Filling? ==> s.xmit.frags <= maxFrags && Free(s) > s.xmit.frags)
  {
  }

  lemma OutstandingNone(x: u32)
    ensures Outstanding(x, x) == 0
  {
  }

  /** No wake-up of the run is stale. */
  ghost predicate NeverStale(maxFrags: nat, atomic: bool, s: State, acts: seq<Action>)
    decreases |acts|
  {
    acts != [] ==>
      var init, a := acts[..|acts| - 1], acts[|acts| - 1];
      var before := Run(maxFrags, atomic, s, init);
      NeverStale(maxFrags, atomic, s, init) && (before.Some? ==> !Stale(maxFrags, before.value, a))
  }

  /** No packet is refused; an awake queue has room for the largest packet when the
      sender is done with it, or about to be; a stopped one that nobody is about to wake
      has not, and something is outstanding, whose completion brings rtl_tx back. */
  ghost predicate Good(maxFrags: nat, s: State) {
    && !s.xmit.Refusing?
    && ((s.xmit.Resting? || s.xmit.Looking?) && !s.stopped ==> Free(s) >= maxFrags + 1)
    && (s.xmit.Resting? && s.stopped && s.reclaim.Quiet? ==>
          Free(s) < maxFrags + 1 && Outstanding(s.dirty, s.cur) > 0)
  }

  /** Every state of the run is good. */
  ghost predicate AlwaysGood(maxFrags: nat, atomic: bool, s: State, acts: seq<Action>)
    decreases |acts|
  {
    && (acts != [] ==> AlwaysGood(maxFrags, atomic, s, acts[..|acts| - 1]))
    && var t := Run(maxFrags, atomic, s, acts);
       t.Some? ==> Good(maxFrags, t.value)
  }

  lemma InvIsGood(maxFrags: nat, s: State)
    requires maxFrags < NUM_TX_DESC && Inv(maxFrags, s)
    ensures Good(maxFrags, s)
  {
  }

  lemma InvFresh(maxFrags: nat, s: State)
    requires maxFrags < NUM_TX_DESC && Fresh(s)
    ensures Inv(maxFrags, s)
  {
    OutstandingNone(s.cur);
  }

  lemma {:induction false} InvRun(maxFrags: nat, atomic: bool, s: State, acts: seq<Action>)
    requires maxFrags < NUM_TX_DESC && Fresh(s) && Run(maxFrags, atomic, s, acts).Some?
    requires NeverStale(maxFrags, atomic, s, acts)
    ensures Inv(maxFrags, Run(maxFrags, atomic, s, acts).value)
    decreases |acts|
  {
    hide Inv, Step, Stale;
    if acts == [] {
      InvFresh(maxFrags, s);
    } else {
      InvRun(maxFrags, atomic, s, acts[..|acts| - 1]);
      InvStep(maxFrags, atomic, Run(maxFrags, atomic, s, acts[..|acts| - 1]).value, acts[|acts| - 1]);
    }
  }

  /** The ring is never overrun: in every state of every run, stale wake-ups or not,
      between 0 and 64 slots are free, and a packet being written fits. */
  lemma {:induction false} NeverOverrun(maxFrags: nat, atomic: bool, s: State, acts: seq<Action>)
    requires maxFrags < NUM_TX_DESC && Fresh(s) && Run(maxFrags, atomic, s, acts).Some?
    ensures Bounded(maxFrags, Run(maxFrags, atomic, s, acts).value)
    decreases |acts|
  {
    hide Bounded, Step;
    if acts == [] {
      InvFresh(maxFrags, s);
    } else {
      NeverOverrun(maxFrags, atomic, s, acts[..|acts| - 1]);
      BoundedStep(maxFrags, atomic, Run(maxFrags, atomic, s, acts[..|acts| - 1]).value, acts[|acts| - 1]);
    }
  }

  /** A stale wake-up leaves a queue awake that has no room, at once or with the sender's next look. */
  lemma StaleHurts(maxFrags: nat, atomic: bool, s: State)
    requires maxFrags < NUM_TX_DESC && Inv(maxFrags, s) && Stale(maxFrags, s, WakeUp)
    ensures var t := Step(maxFrags, atomic, s, WakeUp);
            && t.Some? && !Good(maxFrags, t.value) && t.value.reclaim.Quiet?
            && var u := if t.value.xmit.Looking? then Step(maxFrags, atomic, t.value, Look) else t;
            && u.Some? && u.value.xmit.Resting? && !u.value.stopped && u.value.reclaim.Quiet?
            && 0 <= Free(u.value) <= maxFrags
  {
    hide Outstanding, SlotsAvail, Add32;
    StepCounts(s, WakeUp);
  }

  /** The exact condition: every state of a run is good if and only if no wake-up of it
      is stale. */
  lemma {:induction false} GoodIffNeverStale(maxFrags: nat, atomic: bool, s: State, acts: seq<Action>)
    requires maxFrags < NUM_TX_DESC && Fresh(s) && Run(maxFrags, atomic, s, acts).Some?
    ensures AlwaysGood(maxFrags, atomic, s, acts) <==> NeverStale(maxFrags, atomic, s, acts)
    decreases |acts|
  {
    hide Inv, Good, Step, Stale;
    if acts == [] {
      InvFresh(maxFrags, s);
      InvIsGood(maxFrags, s);
    } else {
      var init, a := acts[..|acts| - 1], acts[|acts| - 1];
      GoodIffNeverStale(maxFrags, atomic, s, init);
      if NeverStale(maxFrags, atomic, s, init) {
        var t := Run(maxFrags, atomic, s, init).value;
        InvRun(maxFrags, atomic, s, init);
        if Stale(maxFrags, t, a) {
          OnlyWakeUps(maxFrags, t, a);
          StaleHurts(maxFrags, atomic, t);
        } else {
          InvStep(maxFrags, atomic, t, a);
          InvIsGood(maxFrags, Step(maxFrags, atomic, t, a).value);
        }
      }
    }
  }

  lemma OnlyWakeUps(maxFrags: nat, s: State, a: Action)
    requires Stale(maxFrags, s, a)
    ensures a == WakeUp
  {
  }

  /** Were the test and the wake-up of rtl_tx one step, no wake-up would be stale ... */
  lemma {:induction false} AtomicNeverStale(maxFrags: nat, s: State, acts: seq<Action>)
    requires Fresh(s) && Run(maxFrags, true, s, acts).Some?
    ensures NeverStale(maxFrags, true, s, acts)
    ensures var r := Run(maxFrags, true, s, acts).value.reclaim; !r.Counting? && !r.Committed?
    decreases |acts|
  {
    hide Free, ReadyFor, Outstanding, Add32;
    if acts != [] {
      AtomicNeverStale(maxFrags, s, acts[..|acts| - 1]);
    }
  }

  /** ... and so no wake-up lost and none too early, in any state of any run. */
  lemma NoLostWakeUp(maxFrags: nat, s: State, acts: seq<Action>)
    requires maxFrags < NUM_TX_DESC && Fresh(s) && Run(maxFrags, true, s, acts).Some?
    ensures AlwaysGood(maxFrags, true, s, acts)
  {
    hide AlwaysGood, NeverStale, Run;
    AtomicNeverStale(maxFrags, s, acts);
    GoodIffNeverStale(maxFrags, true, s, acts);
  }

  /** One call of rtl_tx that reclaims k slots, and at its end finds enough room or not. */
  function Call(atomic: bool, k: nat, room: bool): seq<Action> {
    [Begin, Retire(k), Check] + if atomic then [] else if room then [Count, WakeUp] else [Count]
  }

  /** A stopped queue, with which the sender has nothing to do, is woken by the next call
      of rtl_tx that makes enough room, and only by such a call. */
  lemma NextReclaimWakes(maxFrags: nat, atomic: bool, s: State, acts: seq<Action>, k: nat)
    requires maxFrags < NUM_TX_DESC && Fresh(s) && Run(maxFrags, atomic, s, acts).Some?
    requires NeverStale(maxFrags, atomic, s, acts)
    requires var t := Run(maxFrags, atomic, s, acts).value;
             t.xmit.Resting? && t.stopped && t.reclaim.Quiet? && 0 < k <= Outstanding(t.dirty, t.cur)
    ensures var t := Run(maxFrags, atomic, s, acts).value;
            var u := Run(maxFrags, atomic, t, Call(atomic, k, Free(t) + k > maxFrags));
            && u.Some? && Free(u.value) == Free(t) + k && u.value.xmit.Resting? && u.value.reclaim.Quiet?
            && (u.value.stopped <==> Free(t) + k < maxFrags + 1)
  {
    hide Run, NeverStale, Inv;
    var t := Run(maxFrags, atomic, s, acts).value;
    InvRun(maxFrags, atomic, s, acts);
    InvBounds(maxFrags, t);
    Reclaims(maxFrags, atomic, t, k);
  }

  lemma InvBounds(maxFrags: nat, s: State)
    requires Inv(maxFrags, s)
    ensures 0 <= Free(s)
  {
  }

  /** A call of rtl_tx that nobody interrupts, up to publishing dirty_tx. */
  lemma Retires(maxFrags: nat, atomic: bool, t: State, k: nat)
    requires t.reclaim.Quiet? && 0 <= Free(t) && 0 < k <= Outstanding(t.dirty, t.cur)
    ensures Run(maxFrags, atomic, t, [Begin, Retire(k)])
         == Some(t.(dirty := Add32(t.dirty, k), reclaim := Checking))
    ensures Free(t.(dirty := Add32(t.dirty, k))) == Free(t) + k == SlotsAvail(Add32(t.dirty, k), t.cur)
  {
    CountingSlots(t.dirty, t.cur, k);
    CountingSlots(Add32(t.dirty, k), t.cur, 0);
    hide Outstanding, SlotsAvail, Add32, Run;
    RunNone(maxFrags, atomic, t);
    RunSnoc(maxFrags, atomic, t, [], Begin);
    RunSnoc(maxFrags, atomic, t, [Begin], Retire(k));
    assert [] + [Begin] == [Begin] && [Begin] + [Retire(k)] == [Begin, Retire(k)];
  }

  /** The whole of it, on a stopped queue. */
  lemma Reclaims(maxFrags: nat, atomic: bool, t: State, k: nat)
    requires t.reclaim.Quiet? && t.stopped && 0 <= Free(t) && 0 < k <= Outstanding(t.dirty, t.cur)
    ensures Run(maxFrags, atomic, t, Call(atomic, k, Free(t) + k > maxFrags))
         == Some(t.(dirty := Add32(t.dirty, k), stopped := Free(t) + k <= maxFrags))
    ensures Free(t.(dirty := Add32(t.dirty, k))) == Free(t) + k
  {
    hide Outstanding, SlotsAvail, Add32, Run;
    Retires(maxFrags, atomic, t, k);
    RunSnoc(maxFrags, atomic, t, [Begin, Retire(k)], Check);
    assert [Begin, Retire(k)] + [Check] == [Begin, Retire(k), Check];
    if atomic {
      assert [Begin, Retire(k), Check] + [] == [Begin, Retire(k), Check];
    } else {
      RunSnoc(maxFrags, atomic, t, [Begin, Retire(k), Check], Count);
      if Free(t) + k > maxFrags {
        RunSnoc(maxFrags, atomic, t, [Begin, Retire(k), Check] + [Count], WakeUp);
        assert [Begin, Retire(k), Check] + [Count] + [WakeUp] == [Begin, Retire(k), Check] + [Count, WakeUp];
      }
    }
  }

  /** The queue is stopped, nothing is outstanding, and nobody is left to wake it. */
  ghost predicate Lost(s: State) {
    && s.xmit.Resting? && s.stopped && Outstanding(s.dirty, s.cur) == 0
    && (s.reclaim.Quiet? || s.reclaim == Reclaiming(0))
  }

  /** Only a reset helps then. */
  lemma {:induction false} StaysLost(maxFrags: nat, atomic: bool, s: State, acts: seq<Action>)
    requires Lost(s) && Reset !in acts && Run(maxFrags, atomic, s, acts).Some?
    ensures Lost(Run(maxFrags, atomic, s, acts).value)
    decreases |acts|
  {
    hide Outstanding, ReadyFor, Add32;
    if acts != [] {
      StaysLost(maxFrags, atomic, s, acts[..|acts| - 1]);
      assert acts[|acts| - 1] in acts;
    }
  }

  /** The ways on from a state. */
  lemma RunJoin(maxFrags: nat, atomic: bool, s: State, a: seq<Action>, b: seq<Action>)
    requires Run(maxFrags, atomic, s, a).Some?
    ensures Run(maxFrags, atomic, s, a + b) == Run(maxFrags, atomic, Run(maxFrags, atomic, s, a).value, b)
    decreases |b|
  {
    hide Step;
    if b == [] {
      assert a + b == a;
    } else {
      RunJoin(maxFrags, atomic, s, a, b[..|b| - 1]);
      assert (a + b)[..|a + b| - 1] == a + b[..|b| - 1];
    }
  }

  /** While a packet is being refused, all that is outstanding is reclaimed, from a queue
      that is not stopped yet. */
  lemma DrainsRefusing(maxFrags: nat, atomic: bool, t: State, k: nat)
    requires t.xmit.Refusing? && !t.stopped && t.reclaim.Quiet? && 0 <= Free(t) && k == Outstanding(t.dirty, t.cur) > 0
    ensures var u := Run(maxFrags, atomic, t, [Begin, Retire(k), Check, Refuse]);
            u.Some? && Lost(u.value)
  {
    hide Outstanding, SlotsAvail, Add32, Run;
    Retires(maxFrags, atomic, t, k);
    RunSnoc(maxFrags, atomic, t, [Begin, Retire(k)], Check);
    assert [Begin, Retire(k)] + [Check] == [Begin, Retire(k), Check];
    RunSnoc(maxFrags, atomic, t, [Begin, Retire(k), Check], Refuse);
    assert [Begin, Retire(k), Check] + [Refuse] == [Begin, Retire(k), Check, Refuse];
  }

  /** So it goes with the next packet on an idle queue that is awake without room. */
  lemma RefusalLoses(maxFrags: nat, atomic: bool, t: State) returns (more: seq<Action>)
    requires maxFrags < NUM_TX_DESC && t.xmit.Resting? && !t.stopped && t.reclaim.Quiet? && 0 <= Free(t) <= maxFrags
    ensures |more| == 5 && Reset !in more
    ensures Run(maxFrags, atomic, t, more).Some? && Lost(Run(maxFrags, atomic, t, more).value)
  {
    hide Outstanding, SlotsAvail, Add32, Run, Lost;
    CountingSlots(t.dirty, t.cur, 0);
    var k := Outstanding(t.dirty, t.cur);
    RunNone(maxFrags, atomic, t);
    RunSnoc(maxFrags, atomic, t, [], Enter(maxFrags));
    assert [] + [Enter(maxFrags)] == [Enter(maxFrags)];
    DrainsRefusing(maxFrags, atomic, t.(xmit := Refusing), k);
    RunJoin(maxFrags, atomic, t, [Enter(maxFrags)], [Begin, Retire(k), Check, Refuse]);
    more := [Enter(maxFrags)] + [Begin, Retire(k), Check, Refuse];
  }

  /** So of every run with a stale wake-up, up to it, there is one that loses a wake-up. */
  lemma StaleLoses(maxFrags: nat, s: State, acts: seq<Action>) returns (more: seq<Action>)
    requires maxFrags < NUM_TX_DESC && Fresh(s) && Run(maxFrags, false, s, acts).Some?
    requires NeverStale(maxFrags, false, s, acts)
    requires Stale(maxFrags, Run(maxFrags, false, s, acts).value, WakeUp)
    ensures |more| <= 7 && Reset !in more && [WakeUp] <= more
    ensures Run(maxFrags, false, s, acts + more).Some? && Lost(Run(maxFrags, false, s, acts + more).value)
  {
    hide Inv, NeverStale, Stale, Free, Lost, Good, Run, Step;
    var t := Run(maxFrags, false, s, acts).value;
    InvRun(maxFrags, false, s, acts);
    StaleHurts(maxFrags, false, t);
    var woken := Step(maxFrags, false, t, WakeUp).value;
    RunNone(maxFrags, false, t);
    RunSnoc(maxFrags, false, t, [], WakeUp);
    assert [] + [WakeUp] == [WakeUp];
    var idle := [WakeUp];
    if woken.xmit.Looking? {
      RunSnoc(maxFrags, false, t, [WakeUp], Look);
      idle := [WakeUp] + [Look];
    }
    var u := Run(maxFrags, false, t, idle).value;
    var rest := RefusalLoses(maxFrags, false, u);
    RunJoin(maxFrags, false, t, idle, rest);
    more := idle + rest;
    RunJoin(maxFrags, false, s, acts, more);
  }

  lemma RunNone(maxFrags: nat, atomic: bool, s: State)
    ensures Run(maxFrags, atomic, s, []) == Some(s)
  {
  }

  lemma RunSnoc(maxFrags: nat, atomic: bool, s: State, acts: seq<Action>, a: Action)
    requires Run(maxFrags, atomic, s, acts).Some?
    ensures Run(maxFrags, atomic, s, acts + [a]) == Step(maxFrags, atomic, Run(maxFrags, atomic, s, acts).value, a)
  {
    hide Step;
    assert (acts + [a])[..|acts|] == acts;
  }

  lemma Then(acts: seq<Action>, t: State, a: Action) returns (acts': seq<Action>, t': State)
    requires Run(17, false, START, acts) == Some(t) && Step(17, false, t, a).Some?
    ensures acts' == acts + [a] && Run(17, false, START, acts') == Some(t') == Step(17, false, t, a)
  {
    RunSnoc(17, false, START, acts, a);
    return acts + [a], Step(17, false, t, a).value;
  }

  const START: State := State(0, 0, false, Resting, Quiet)

  /** A run with a stale wake-up: it wakes a full queue, and the next packet is refused. */
  lemma StaleTestWakesFullQueue() returns (acts: seq<Action>, t: State)
    ensures Fresh(START) && Run(17, false, START, acts) == Some(t)
    ensures t == State(72, 18, false, Refusing, Quiet)
  {
    hide Run;
    acts, t := Full();
    // room is made, and rtl_tx is about to wake the queue
    acts, t := Then(acts, t, Begin);
    acts, t := Then(acts, t, Retire(18));
    acts, t := Then(acts, t, Check);
    acts, t := Then(acts, t, Count);
    // xmit wakes it first, and fills it again
    acts, t := Then(acts, t, Look);
    acts, t := Then(acts, t, Wake);
    acts, t := Then(acts, t, Enter(17));
    acts, t := Then(acts, t, Publish);
    acts, t := Then(acts, t, Test);
    acts, t := Then(acts, t, Stop);
    acts, t := Then(acts, t, Look);
    // the late wake-up
    acts, t := Then(acts, t, WakeUp);
    acts, t := Then(acts, t, Enter(17));
  }

  /** And on: the ring drains while the packet is being refused, and the queue stays
      stopped over an empty ring. */
  lemma LosesWakeUp() returns (acts: seq<Action>, t: State)
    ensures Fresh(START) && Run(17, false, START, acts) == Some(t) && Lost(t) && Free(t) == NUM_TX_DESC
  {
    hide Run;
    acts, t := StaleTestWakesFullQueue();
    acts, t := Then(acts, t, Begin);
    acts, t := Then(acts, t, Retire(54));
    acts, t := Then(acts, t, Check);
    acts, t := Then(acts, t, Refuse);
  }

  /** Three packets take 54 slots, and the queue has just been stopped. */
  lemma Full() returns (acts: seq<Action>, t: State)
    ensures Run(17, false, START, acts) == Some(t) && t == State(54, 0, true, Looking, Quiet)
  {
    acts, t := [], START;
    acts, t := Then(acts, t, Enter(17));
    acts, t := Then(acts, t, Publish);
    acts, t := Then(acts, t, Test);
    acts, t := Then(acts, t, Enter(17));
    acts, t := Then(acts, t, Publish);
    acts, t := Then(acts, t, Test);
    acts, t := Then(acts, t, Enter(17));
    acts, t := Then(acts, t, Publish);
    acts, t := Then(acts, t, Test);
    acts, t := Then(acts, t, Stop);
  }
}
