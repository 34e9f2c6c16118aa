/** What the scheduler promises over whole runs. */
module SchedProps {
  import opened Options
  import opened Sched

  // ---------------------------------------------------------------------------
  // Every thread is in exactly one place

  function Times(l: seq<Tid>, t: Tid): nat { multiset(l)[t] }

  lemma OrderedOnce(threads: map<Tid, Thread>, l: seq<Tid>, t: Tid)
    requires Ordered(threads, l)
    ensures Times(l, t) == if t in l then 1 else 0
  {
    if t in l {
      var k :| 0 <= k < |l| && l[k] == t;
      assert l == l[..k] + [t] + l[k + 1..];
      assert t !in l[..k] && t !in l[k + 1..];
    }
  }

  /** In every reachable state each registered thread is in exactly one place, once, and that
      place matches its status; nothing else is in any list. */
  lemma OnePlaceEach(states: seq<State>, ops: seq<Op>, k: nat, t: Tid)
    requires IsRun(states, ops) && states[0] == BOOT && k <= |ops|
    ensures var s := states[k];
            && Times(s.ready, t) + Times(s.suspend, t) + Times(s.sleep, t) + (if s.work == Some(t) then 1 else 0)
               == (if t in s.threads then 1 else 0)
            && (t in s.threads ==>
                  && (At(s.threads, t).status == Running <==> s.work == Some(t))
                  && (At(s.threads, t).status == Ready <==> t in s.ready)
                  && (At(s.threads, t).status == Suspend <==> t in s.suspend)
                  && (At(s.threads, t).status == Sleep <==> t in s.sleep))
  {
    BootInv();
    RunInv(states, ops, k);
    var s := states[k];
    OrderedOnce(s.threads, s.ready, t);
    OrderedOnce(s.threads, s.suspend, t);
    OrderedOnce(s.threads, s.sleep, t);
    if t in s.threads { assert ThreadOk(s, t); }
  }

  ghost predicate Kept(s: State, s': State) {
    && s.threads.Keys <= s'.threads.Keys
    && (forall t | t in s.threads :: At(s'.threads, t).prio == At(s.threads, t).prio)
    && (s.started ==> s'.started)
  }

  lemma PlacedKeeps(s: State, t: Tid, dst: Status)
    requires t in s.threads
    ensures Kept(s, Placed(s, t, dst)) && Placed(s, t, dst).threads.Keys == s.threads.Keys
  {
  }

  lemma EffectKeeps(s: State, op: Op)
    requires Enabled(s, op)
    requires (s.work.Some? ==> s.work.value in s.threads) && (s.ready != [] ==> s.ready[0] in s.threads)
    ensures Kept(s, Effect(s, op))
    ensures Effect(s, op).threads.Keys == s.threads.Keys + (if op.Register? && op.stack then {op.tid} else {})
  {
    match op
    case Schedule =>
      if s.ready != [] {
        assert Kept(s, Reinstall(s)) && Reinstall(s).threads.Keys == s.threads.Keys;
        if s.work.Some? {
          PlacedKeeps(Reinstall(s), s.work.value, Asked(At(s.threads, s.work.value)));
          KeptOn(s, Reinstall(s), Yielded(s, Asked(At(s.threads, s.work.value))));
        }
      }
    case Move(t, dst) => PlacedKeeps(s, t, dst);
    case Wakeup(t) => PlacedKeeps(s, t, Ready);
    case _ =>
  }

  /** No call loses a thread or changes a priority; only registering adds one. */
  lemma ThreadsKept(s: State, op: Op)
    requires Inv(s) && Enabled(s, op)
    ensures Kept(s, Apply(s, op))
    ensures Apply(s, op).threads.Keys == s.threads.Keys + (if op.Register? && op.stack then {op.tid} else {})
  {
    StepInv(s, op);
    if s.ready != [] { assert s.ready[0] in s.ready; }
    EffectKeeps(s, op);
  }

  lemma {:induction false} RunKeeps(states: seq<State>, ops: seq<Op>, i: nat, j: nat)
    requires IsRun(states, ops) && Inv(states[0]) && i <= j <= |ops|
    ensures Kept(states[i], states[j])
    decreases j
  {
    if i < j {
      RunKeeps(states, ops, i, j - 1);
      StepKept(states, ops, j - 1);
      KeptOn(states[i], states[j - 1], states[j]);
    }
  }

  lemma StepKept(states: seq<State>, ops: seq<Op>, k: nat)
    requires IsRun(states, ops) && Inv(states[0]) && k < |ops|
    ensures Kept(states[k], states[k + 1])
  {
    RunInv(states, ops, k);
    assert StepAt(states, ops, k);
    ThreadsKept(states[k], ops[k]);
  }

  lemma KeptOn(a: State, b: State, c: State)
    requires Kept(a, b) && Kept(b, c)
    ensures Kept(a, c)
  {
  }

  // ---------------------------------------------------------------------------
  // Who runs next

  /** A successful schedule runs the ready thread of the highest priority that has waited longest
      at that priority, and the thread that ran is found in the list it asked for. */
  lemma SchedulePicksBest(s: State)
    requires Inv(s) && ScheduleThread(s).1
    ensures var s' := ScheduleThread(s).0;
            && s'.work.Some? && s'.work.value in s.ready
            && (forall u | u in s.ready && u != s'.work.value :: Before(At(s.threads, s'.work.value), At(s.threads, u)))
            && (s.work.Some? ==> s'.work != s.work && s.work.value in s'.threads
                                 && At(s'.threads, s.work.value).status == Asked(At(s.threads, s.work.value)))
  {
    ScheduleIs(s);
    assert s.ready[0] in s.ready;
    if s.work.Some? { assert ThreadOk(s, s.work.value); }
  }

  /** A plain schedule, as at every preemption, puts the thread that ran back in the ready list, idle
      included, and moves no thread to the suspend or sleep list. */
  lemma PlainScheduleReadies(s: State, t: Tid)
    requires Inv(s) && s.work == Some(t) && At(s.threads, t).toStatus == Unset && s.ready != []
    ensures var (s', ok) := ScheduleThread(s);
            && ok && t in s'.ready && At(s'.threads, t).status == Ready && At(s'.threads, t).prio == At(s.threads, t).prio
            && s'.work == Some(s.ready[0]) && s'.suspend == s.suspend && s'.sleep == s.sleep
            && (forall u :: u in s'.ready <==> (u in s.ready && u != s.ready[0]) || u == t)
  {
    ScheduleIs(s);
    var s' := ScheduleThread(s).0;
    assert s.ready[0] in s.ready;
    forall u ensures u in s'.ready <==> (u in s.ready && u != s.ready[0]) || u == t {
      assert ListOk(s.threads, s.ready, Ready) && ListOk(s'.threads, s'.ready, Ready);
    }
  }

  /** Registering puts the thread in the ready list with the priority it was given; a number in use or
      a missing stack is refused. */
  lemma RegisterReadies(s: State, t: Tid, prio: nat, stack: bool)
    requires Inv(s) && t < MAX_THREADS
    ensures var s' := Apply(s, Register(t, prio, stack));
            if t in s.threads || !stack then s' == s
            else
              && t in s'.ready && At(s'.threads, t).status == Ready && At(s'.threads, t).prio == prio
              && s'.work == s.work && forall u | u != t :: At(s'.threads, u) == At(s.threads, u)
  {
    StepInv(s, Register(t, prio, stack));
  }

  /** Suspending a thread or putting it to sleep puts it where it is asked to be, except idle. */
  lemma MoveArrives(s: State, t: Tid, dst: Status)
    requires Inv(s) && Enabled(s, Move(t, dst))
    ensures var s' := Apply(s, Move(t, dst));
            && (t != IDLE && dst == Suspend ==> t in s'.suspend && At(s'.threads, t).status == Suspend)
            && (t != IDLE && dst == Sleep ==> t in s'.sleep && At(s'.threads, t).status == Sleep)
            && (t == IDLE ==> s' == s)
            && s'.work == s.work && forall u | u != t :: At(s'.threads, u) == At(s.threads, u)
  {
    StepInv(s, Move(t, dst));
    assert ThreadOk(s, t);
  }

  /** Waking makes a suspended or sleeping thread ready and touches nothing else. */
  lemma WakeupReadies(s: State, t: Tid)
    requires Inv(s) && t in s.threads
    ensures var s' := Apply(s, Wakeup(t));
            && (t in s.suspend || t in s.sleep ==> t in s'.ready && At(s'.threads, t).status == Ready)
            && (t !in s.suspend && t !in s.sleep ==> s' == s)
            && s'.work == s.work && forall u | u != t :: At(s'.threads, u) == At(s.threads, u)
  {
    StepInv(s, Wakeup(t));
  }

  /** One call leaves a thread runnable that it neither moves nor serves a request of. */
  lemma RunnableStep(s: State, op: Op, t: Tid)
    requires Inv(s) && Enabled(s, op)
    requires t !in s.suspend && t !in s.sleep && At(s.threads, t).toStatus == Unset
    requires !(op.Move? && op.tid == t) && !(op.Request? && s.work == Some(t))
    ensures var s' := Apply(s, op); t !in s'.suspend && t !in s'.sleep && At(s'.threads, t).toStatus == Unset
  {
    var s' := Apply(s, op);
    StepInv(s, op);
    if s.ready != [] { assert s.ready[0] in s.ready; }
    assert At(s'.threads, t).status != Suspend && At(s'.threads, t).status != Sleep && At(s'.threads, t).toStatus == Unset;
  }

  /** Over every run: a thread that nobody suspends or puts to sleep, and that asks for neither, is never in
      the suspend or the sleep list. */
  lemma {:induction false} StaysRunnable(states: seq<State>, ops: seq<Op>, k: nat, t: Tid)
    requires IsRun(states, ops) && states[0] == BOOT && k <= |ops|
    requires forall j | 0 <= j < k :: !(ops[j].Move? && ops[j].tid == t) && !(ops[j].Request? && states[j].work == Some(t))
    ensures t !in states[k].suspend && t !in states[k].sleep && At(states[k].threads, t).toStatus == Unset
  {
    if 0 < k {
      StaysRunnable(states, ops, k - 1, t);
      BootInv();
      RunInv(states, ops, k - 1);
      assert StepAt(states, ops, k - 1);
      RunnableStep(states[k - 1], ops[k - 1], t);
    }
  }

  /** Once idle is registered and the first schedule has happened, idle runs or is ready, the
      running slot is taken, and whenever another thread runs the ready list is not empty. */
  lemma IdleStaysAwake(states: seq<State>, ops: seq<Op>, i: nat, j: nat)
    requires IsRun(states, ops) && states[0] == BOOT && i <= j <= |ops|
    requires IDLE in states[i].threads && states[i].started
    ensures var s := states[j];
            && s.work.Some?
            && (s.work == Some(IDLE) || IDLE in s.ready)
            && (s.work != Some(IDLE) ==> s.ready != [])
  {
    BootInv();
    RunKeeps(states, ops, i, j);
    RunInv(states, ops, j);
    assert ThreadOk(states[j], IDLE);
  }

  /** With idle registered, a running thread other than idle that asks to be suspended or put to
      sleep is, at its next schedule, and another thread runs. */
  lemma SelfRequestSucceeds(s: State, dst: Status)
    requires Inv(s) && s.work.Some? && s.work.value != IDLE && IDLE in s.threads
    requires dst == Suspend || dst == Sleep
    ensures var t, (s', ok) := s.work.value, ScheduleThread(Apply(s, Request(dst)));
            ok && t in ListOf(s', dst) && t in s'.threads && At(s'.threads, t).status == dst && s'.work.Some? && s'.work.value != t
  {
    var t := s.work.value;
    assert ThreadOk(s, IDLE);
    TouchInv(s, t, dst);
    RequestServed(SetTo(s, t, dst), dst);
  }

  lemma RequestServed(r: State, dst: Status)
    requires Inv(r) && r.work.Some? && r.work.value != IDLE && r.ready != []
    requires (dst == Suspend || dst == Sleep) && At(r.threads, r.work.value).toStatus == dst
    ensures var t, (s', ok) := r.work.value, ScheduleThread(r);
            ok && t in ListOf(s', dst) && t in s'.threads && At(s'.threads, t).status == dst && s'.work.Some? && s'.work.value != t
  {
    ScheduleIs(r);
    SchedulePicksBest(r);
    InvLists(ScheduleThread(r).0, dst);
  }

  /** Idle itself is never suspended: the request is dropped. */
  lemma IdleRequestRefused(s: State, dst: Status)
    requires Inv(s) && s.work == Some(IDLE) && s.ready != []
    requires (dst == Suspend || dst == Sleep) && At(s.threads, IDLE).toStatus == dst
    ensures ScheduleThread(s) == (SetTo(s, IDLE, Unset), false)
  {
    ScheduleIs(s);
  }

  // ---------------------------------------------------------------------------
  // Bounded waiting

  function Index(l: seq<Tid>, t: Tid): (i: nat)
    requires t in l
    ensures i < |l| && l[i] == t
  {
    if l[0] == t then 0 else 1 + Index(l[1..], t)
  }

  lemma {:induction false} IndexAppend(l: seq<Tid>, m: seq<Tid>, t: Tid)
    requires t in l
    ensures Index(l + m, t) == Index(l, t)
  {
    assert (l + m)[0] == l[0];
    if l[0] != t {
      assert (l + m)[1..] == l[1..] + m;
      IndexAppend(l[1..], m, t);
    }
  }

  /** A thread of no higher priority is inserted behind `t`. */
  lemma {:induction false} InsertBehind(threads: map<Tid, Thread>, l: seq<Tid>, u: Tid, t: Tid)
    requires t in l && At(threads, t).prio <= At(threads, u).prio
    ensures t in Insert(threads, l, u) && Index(Insert(threads, l, u), t) == Index(l, t)
  {
    var n := |l| - 1;
    if At(threads, l[n]).prio <= At(threads, u).prio {
      IndexAppend(l, [u], t);
    } else {
      assert l == l[..n] + [l[n]];
      assert t in l[..n];
      InsertBehind(threads, l[..n], u, t);
      IndexAppend(l[..n], [l[n]], t);
      IndexAppend(Insert(threads, l[..n], u), [l[n]], t);
    }
  }

  lemma {:induction false} RemoveAhead(l: seq<Tid>, u: Tid, t: Tid)
    requires t in l && u != t
    ensures t in Without(l, u) && Index(Without(l, u), t) <= Index(l, t)
    ensures l[0] == u ==> Index(Without(l, u), t) < Index(l, t)
  {
    if l[0] == t {
      assert Without(l, u)[0] == t;
    } else {
      RemoveAhead(l[1..], u, t);
      var r := Without(l[1..], u);
      if l[0] != u {
        assert Without(l, u) == [l[0]] + r;
        assert ([l[0]] + r)[1..] == r;
      } else {
        assert Without(l, u) == r;
      }
    }
  }

  lemma WaitYield(s: State, dst: Status, t: Tid)
    requires t in s.ready && At(s.threads, s.ready[0]).status == Ready && t != s.ready[0] && Waiting(dst)
    requires s.work.Some? && s.work.value != s.ready[0] && At(s.threads, s.work.value).status == Running
    requires At(s.threads, t).prio <= At(s.threads, s.work.value).prio
    ensures t in Yielded(s, dst).ready && Index(Yielded(s, dst).ready, t) < Index(s.ready, t)
  {
    RemoveAhead(s.ready, s.ready[0], t);
    InsertBehind(Reinstall(s).threads, Without(s.ready, s.ready[0]), s.work.value, t);
  }

  lemma WaitSchedule(s: State, t: Tid)
    requires Inv(s) && t in s.ready && t != s.ready[0]
    requires s.work.Some? ==> At(s.threads, t).prio <= At(s.threads, s.work.value).prio
    ensures t in ScheduleThread(s).0.ready
    ensures ScheduleThread(s).1 ==> Index(ScheduleThread(s).0.ready, t) < Index(s.ready, t)
    ensures !ScheduleThread(s).1 ==> ScheduleThread(s).0.ready == s.ready
  {
    assert s.ready[0] in s.ready;
    ScheduleIs(s);
    if s.work.None? {
      RemoveAhead(s.ready, s.ready[0], t);
    } else if ScheduleThread(s).1 {
      assert ThreadOk(s, s.work.value);
      WaitYield(s, Asked(At(s.threads, s.work.value)), t);
    }
  }

  lemma WaitMove(s: State, x: Tid, dst: Status, t: Tid)
    requires x in s.threads && Waiting(dst)
    requires t in s.ready && t != x && At(s.threads, t).prio <= At(s.threads, x).prio
    ensures t in Placed(s, x, dst).ready && Index(Placed(s, x, dst).ready, t) <= Index(s.ready, t)
  {
    InsertBehind(s.threads, s.ready, x, t);
    RemoveAhead(s.ready, x, t);
  }

  /** One call never moves `t` back in the ready list, and a switch moves it forward. */
  lemma WaitStep(s: State, op: Op, t: Tid)
    requires Inv(s) && Enabled(s, op)
    requires t in s.ready && t in Apply(s, op).ready
    requires forall u | u in Apply(s, op).threads :: At(s.threads, t).prio <= At(Apply(s, op).threads, u).prio
    ensures Index(Apply(s, op).ready, t) + (if op.Schedule? && ScheduleThread(s).1 then 1 else 0) <= Index(s.ready, t)
  {
    var s' := Apply(s, op);
    StepInv(s, op);
    ThreadsKept(s, op);
    assert At(s'.threads, t).status == Ready;
    match op
    case Register(x, prio, stack) =>
      if x !in s.threads && stack { InsertBehind(s'.threads, s.ready, x, t); }
    case Request(dst) =>
    case Schedule =>
      if t != s.ready[0] { WaitSchedule(s, t); } else { ScheduleIs(s); }
    case Move(x, dst) => if s' != s { WaitMove(s, x, dst, t); }
    case Wakeup(x) => if s' != s { WaitMove(s, x, Ready, t); }
  }

  /** How many context switches a run contains. */
  ghost function Switches(states: seq<State>, ops: seq<Op>): nat
    requires IsRun(states, ops)
    decreases |ops|
  {
    var n := |ops|;
    if n == 0 then 0
    else
      assert StepAt(states, ops, n - 1);
      assert IsRun(states[..n], ops[..n - 1]) by { RunPrefix(states, ops); }
      Switches(states[..n], ops[..n - 1]) + (if ops[n - 1].Schedule? && ScheduleThread(states[n - 1]).1 then 1 else 0)
  }

  lemma RunPrefix(states: seq<State>, ops: seq<Op>)
    requires IsRun(states, ops) && |ops| > 0
    ensures IsRun(states[..|ops|], ops[..|ops| - 1])
  {
    var states', ops' := states[..|ops|], ops[..|ops| - 1];
    forall k: nat | k < |ops'| ensures StepAt(states', ops', k) { assert StepAt(states, ops, k); }
  }

  /** A call changes no priority, so what nothing outranks after it nothing outranked before. */
  lemma OutrankedBefore(s: State, op: Op, prio: nat)
    requires Inv(s) && Enabled(s, op)
    requires forall u | u in Apply(s, op).threads :: prio <= At(Apply(s, op).threads, u).prio
    ensures forall u | u in s.threads :: prio <= At(s.threads, u).prio
  {
    ThreadsKept(s, op);
  }

  lemma LastWait(states: seq<State>, ops: seq<Op>, t: Tid, n: nat)
    requires IsRun(states, ops) && Inv(states[0]) && |ops| == n + 1 && t in states[0].threads
    requires t in states[n].ready && t in states[n + 1].ready
    requires forall u | u in states[|ops|].threads :: At(states[0].threads, t).prio <= At(states[|ops|].threads, u).prio
    ensures IsRun(states[..n + 1], ops[..n])
    ensures Index(states[n + 1].ready, t) + (if ops[n].Schedule? && ScheduleThread(states[n]).1 then 1 else 0)
            <= Index(states[n].ready, t)
    ensures forall u | u in states[n].threads :: At(states[0].threads, t).prio <= At(states[n].threads, u).prio
  {
    assert StepAt(states, ops, n);
    RunInv(states, ops, n);
    RunKeeps(states, ops, 0, n);
    RunPrefix(states, ops);
    OutrankedBefore(states[n], ops[n], At(states[0].threads, t).prio);
    WaitStep(states[n], ops[n], t);
  }

  /** Bounded waiting: while `t` stays ready and nothing registered outranks it, every switch of the
      run is paid for by one place of `t` in the ready list, whatever else interleaves. */
  lemma {:induction false} BoundedWaiting(states: seq<State>, ops: seq<Op>, t: Tid)
    requires IsRun(states, ops) && Inv(states[0])
    requires forall k | 0 <= k < |states| :: t in states[k].ready
    requires t in states[0].threads
    requires forall u | u in states[|ops|].threads :: At(states[0].threads, t).prio <= At(states[|ops|].threads, u).prio
    ensures Switches(states, ops) + Index(states[|ops|].ready, t) <= Index(states[0].ready, t)
    decreases |ops|
  {
    var n := |ops|;
    if 0 < n {
      LastWait(states, ops, t, n - 1);
      BoundedWaiting(states[..n], ops[..n - 1], t);
    }
  }

  lemma EffectLeaves(s: State, op: Op, t: Tid)
    requires Enabled(s, op) && t in s.threads && At(s.threads, t).status == Ready
    requires s.ready != [] ==> At(s.threads, s.ready[0]).status == Ready
    requires !(op.Move? && op.tid == t)
    ensures At(Effect(s, op).threads, t).status == Ready || Effect(s, op).work == Some(t)
            || (s.work == Some(t) && op.Schedule?)
  {
  }

  /** A thread leaves the ready list only to run, unless another thread moves it. */
  lemma LeavesToRun(s: State, op: Op, t: Tid)
    requires Inv(s) && Enabled(s, op) && t in s.ready
    requires !(op.Move? && op.tid == t)
    ensures t in Apply(s, op).ready || Apply(s, op).work == Some(t)
  {
    assert ThreadOk(s, t);
    assert s.ready[0] in s.ready;
    EffectLeaves(s, op, t);
    StepInv(s, op);
    ThreadsKept(s, op);
  }

  /** So `t` runs after at most its position plus one switches. */
  lemma {:induction false} RunsInTurn(states: seq<State>, ops: seq<Op>, t: Tid)
    requires IsRun(states, ops) && Inv(states[0])
    requires t in states[0].ready && t in states[0].threads
    requires forall op | op in ops :: !(op.Move? && op.tid == t)
    requires forall u | u in states[|ops|].threads :: At(states[0].threads, t).prio <= At(states[|ops|].threads, u).prio
    requires Index(states[0].ready, t) < Switches(states, ops)
    ensures exists k :: 0 <= k < |states| && states[k].work == Some(t)
  {
    if forall k | 0 <= k < |states| :: t in states[k].ready {
      BoundedWaiting(states, ops, t);
    } else {
      var k :| 0 <= k < |states| && t !in states[k].ready;
      FirstLeave(states, ops, t, k);
    }
  }

  lemma {:induction false} FirstLeave(states: seq<State>, ops: seq<Op>, t: Tid, k: nat)
    requires IsRun(states, ops) && Inv(states[0]) && k < |states|
    requires t in states[0].ready && t !in states[k].ready
    requires forall op | op in ops :: !(op.Move? && op.tid == t)
    ensures exists j :: 0 <= j < |states| && states[j].work == Some(t)
    decreases k
  {
    if t !in states[k - 1].ready {
      FirstLeave(states, ops, t, k - 1);
    } else {
      RunInv(states, ops, k - 1);
      assert StepAt(states, ops, k - 1);
      assert ops[k - 1] in ops;
      LeavesToRun(states[k - 1], ops[k - 1], t);
    }
  }
}
