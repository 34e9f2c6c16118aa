/** Timed sleep: the scheduler together with the tick counter, the list of timers, and how far each
    thread has come inside a delay call. */
module Sleep {
  import opened Options
  import opened Sched
  import opened SchedProps

  const HZ: nat := 100

  function MsecsToJiffies(ms: nat): nat { if ms == 0 then 0 else ms * HZ / 1000 + 1 }

  /** At one tick in 10 milliseconds: the ticks of a delay cover its milliseconds, with at most one tick
      to spare. */
  lemma JiffiesCover(ms: nat)
    requires 0 < ms
    ensures MsecsToJiffies(ms) == ms / 10 + 1 && ms < 10 * MsecsToJiffies(ms) <= ms + 10
  {
  }

  /** A timer of a sleeping thread.  `armedAt` and `ms` record the call; the code does not keep them. */
  datatype Timer = Timer(tid: Tid, expires: nat, armedAt: nat, ms: nat)

  /** Where a thread is inside a delay call: not in one, timer armed, suspension asked for, or
      own schedule called and timer still to be deleted. */
  datatype Pc = Outside | Armed | AskedToWait | Back

  datatype Sys = Sys(s: State, jiffies: nat, timers: seq<Timer>, pc: map<Tid, Pc>)

  datatype Event =
    | Delay(ms: nat)
    | Ask
    | Call
    | Finish
    | Preempt
    | Kernel(op: Op)
    | Tick(locked: bool)

  function PcOf(y: Sys, t: Tid): Pc { if t in y.pc then y.pc[t] else Outside }

  predicate Due(tm: Timer, now: nat) { tm.expires != 0 && now > tm.expires }

  /** What the timer of a thread does when it fires. */
  function Timeout(s: State, t: Tid): State {
    if At(s.threads, t).status == Suspend then Apply(s, Wakeup(t)) else s
  }

  /** One pass over the timers: every due timer fires. */
  function FireAll(s: State, timers: seq<Timer>, now: nat): State {
    if timers == [] then s
    else
      var s1 := FireAll(s, timers[..|timers| - 1], now);
      var tm := timers[|timers| - 1];
      if Due(tm, now) then Timeout(s1, tm.tid) else s1
  }

  function DropTimer(timers: seq<Timer>, t: Tid): seq<Timer> {
    if timers == [] then [] else (if timers[0].tid == t then [] else [timers[0]]) + DropTimer(timers[1..], t)
  }

  predicate EventOk(y: Sys, e: Event) {
    match e
    case Delay(_) => y.s.work.Some? && PcOf(y, y.s.work.value) == Outside
    case Ask => y.s.work.Some? && PcOf(y, y.s.work.value) == Armed
    case Call => y.s.work.Some? && PcOf(y, y.s.work.value) == AskedToWait
    case Finish => y.s.work.Some? && PcOf(y, y.s.work.value) == Back
    case Preempt => true
    case Kernel(op) => Enabled(y.s, op) && !op.Schedule? && (op.Request? ==> PcOf(y, y.s.work.value) == Outside)
    case Tick(_) => true
  }

  function Next(y: Sys, e: Event): Sys
    requires EventOk(y, e)
  {
    match e
    case Delay(ms) =>
      var t, count := y.s.work.value, y.jiffies + MsecsToJiffies(ms);
      if count > y.jiffies then y.(timers := y.timers + [Timer(t, count, y.jiffies, ms)], pc := y.pc[t := Armed]) else y
    case Ask => y.(s := Apply(y.s, Request(Suspend)), pc := y.pc[y.s.work.value := AskedToWait])
    case Call => y.(s := Apply(y.s, Schedule), pc := y.pc[y.s.work.value := Back])
    case Finish => y.(timers := DropTimer(y.timers, y.s.work.value), pc := y.pc[y.s.work.value := Outside])
    case Preempt => y.(s := Apply(y.s, Schedule))
    case Kernel(op) => y.(s := Apply(y.s, op))
    case Tick(locked) => Ticked(y, locked)
  }

  /** The tick interrupt; a timer that finds the scheduler lock held does nothing. */
  function Ticked(y: Sys, locked: bool): Sys {
    Sys(if locked then y.s else FireAll(y.s, y.timers, y.jiffies + 1), y.jiffies + 1, y.timers, y.pc)
  }

  // ---------------------------------------------------------------------------
  // Invariant

  ghost predicate TimerOk(y: Sys, tm: Timer) {
    && tm.tid in y.s.threads
    && PcOf(y, tm.tid) != Outside
    && 0 < tm.ms && tm.armedAt <= y.jiffies && tm.expires == tm.armedAt + MsecsToJiffies(tm.ms)
  }

  ghost predicate HasTimer(y: Sys, t: Tid) { exists tm :: tm in y.timers && tm.tid == t }

  ghost predicate Good(y: Sys) {
    && Inv(y.s)
    && TimersGood(y)
  }

  // ---------------------------------------------------------------------------
  // A tick

  ghost predicate DueFor(timers: seq<Timer>, t: Tid, now: nat) {
    exists i :: 0 <= i < |timers| && timers[i].tid == t && Due(timers[i], now)
  }

  /** Thread `t` is woken in `r` if it was suspended in `s` and `wake`; otherwise it is untouched. */
  ghost predicate WokenIf(s: State, r: State, t: Tid, wake: bool) {
    if wake && At(s.threads, t).status == Suspend then
      At(r.threads, t).status == Ready && At(r.threads, t).prio == At(s.threads, t).prio
    else
      At(r.threads, t) == At(s.threads, t)
  }

  lemma TimeoutEffect(s: State, t: Tid, u: Tid)
    requires Inv(s) && t in s.threads
    ensures var r := Timeout(s, t);
            Inv(r) && r.threads.Keys == s.threads.Keys && r.work == s.work && WokenIf(s, r, u, u == t)
  {
    if At(s.threads, t).status == Suspend { StepInv(s, Wakeup(t)); }
  }

  /** A pass over the timers wakes exactly the suspended threads that have a due timer, and leaves
      every other thread as it was. */
  lemma {:induction false} FireAllEffect(s: State, timers: seq<Timer>, now: nat, u: Tid)
    requires Inv(s) && forall tm | tm in timers :: tm.tid in s.threads
    ensures var r := FireAll(s, timers, now);
            && Inv(r) && r.threads.Keys == s.threads.Keys && r.work == s.work
            && WokenIf(s, r, u, DueFor(timers, u, now))
  {
    if timers != [] {
      var n := |timers| - 1;
      FireAllEffect(s, timers[..n], now, u);
      DueSplit(timers, u, now);
      if Due(timers[n], now) {
        assert timers[n] in timers;
        TimeoutEffect(FireAll(s, timers[..n], now), timers[n].tid, u);
      }
    }
  }

  lemma DueSplit(timers: seq<Timer>, t: Tid, now: nat)
    requires timers != []
    ensures DueFor(timers, t, now) <==>
            DueFor(timers[..|timers| - 1], t, now) || (timers[|timers| - 1].tid == t && Due(timers[|timers| - 1], now))
  {
    var n := |timers| - 1;
    if DueFor(timers[..n], t, now) {
      var i :| 0 <= i < n && timers[..n][i].tid == t && Due(timers[..n][i], now);
      assert timers[i].tid == t;
    }
    if DueFor(timers, t, now) {
      var i :| 0 <= i < |timers| && timers[i].tid == t && Due(timers[i], now);
      if i < n { assert timers[..n][i].tid == t; }
    }
  }

  lemma TickOn(y: Sys, t: Tid)
    requires Good(y)
    ensures WokenIf(y.s, Ticked(y, false).s, t, DueFor(y.timers, t, y.jiffies + 1))
    ensures Inv(Ticked(y, false).s) && Ticked(y, false).s.work == y.s.work && Ticked(y, false).s.threads.Keys == y.s.threads.Keys
  {
    forall tm | tm in y.timers ensures tm.tid in y.s.threads { assert TimerOk(y, tm); }
    FireAllEffect(y.s, y.timers, y.jiffies + 1, t);
  }

  /** A tick that finds the scheduler lock free wakes every suspended sleeper whose time has passed,
      however long ago; none stays suspended. */
  lemma TickWakesDue(y: Sys, tm: Timer)
    requires Good(y) && tm in y.timers && tm.expires < y.jiffies + 1
    ensures At(Ticked(y, false).s.threads, tm.tid).status ==
            if At(y.s.threads, tm.tid).status == Suspend then Ready else At(y.s.threads, tm.tid).status
  {
    assert TimerOk(y, tm);
    var i :| 0 <= i < |y.timers| && y.timers[i] == tm;
    assert DueFor(y.timers, tm.tid, y.jiffies + 1);
    TickOn(y, tm.tid);
  }

  /** A tick changes a thread only by waking it from its own due timer, after more than the time it
      asked for; a tick that finds the lock held changes no thread. */
  lemma TickWakesOnlyDue(y: Sys, locked: bool, t: Tid) returns (tm: Timer)
    requires Good(y)
    requires At(Ticked(y, locked).s.threads, t) != At(y.s.threads, t)
    ensures !locked && tm in y.timers && tm.tid == t && WokenOnTime(y, Ticked(y, locked), tm)
  {
    TickOn(y, t);
    var i :| 0 <= i < |y.timers| && y.timers[i].tid == t && Due(y.timers[i], y.jiffies + 1);
    tm := y.timers[i];
    assert TimerOk(y, tm);
  }

  /** The sleeper of `tm` was suspended, is ready now, and its full delay has passed. */
  ghost predicate WokenOnTime(y: Sys, y': Sys, tm: Timer) {
    && At(y.s.threads, tm.tid).status == Suspend
    && At(y'.s.threads, tm.tid).status == Ready
    && tm.armedAt + MsecsToJiffies(tm.ms) < y'.jiffies
  }

  // ---------------------------------------------------------------------------
  // Every event keeps the system good

  lemma {:induction false} DropMember(timers: seq<Timer>, t: Tid)
    ensures forall tm :: tm in DropTimer(timers, t) <==> tm in timers && tm.tid != t
  {
    if timers != [] {
      DropMember(timers[1..], t);
      assert timers == [timers[0]] + timers[1..];
    }
  }

  lemma TickKept(y: Sys)
    requires Good(y)
    ensures Inv(Ticked(y, false).s) && Kept(y.s, Ticked(y, false).s)
  {
    TickOn(y, 0);
    forall t | t in y.s.threads ensures At(Ticked(y, false).s.threads, t).prio == At(y.s.threads, t).prio { TickOn(y, t); }
  }

  lemma StateStep(y: Sys, e: Event)
    requires Good(y) && EventOk(y, e)
    ensures Inv(Next(y, e).s) && Kept(y.s, Next(y, e).s)
  {
    match e {
      case Delay(_) =>
      case Ask => StepInv(y.s, Request(Suspend)); ThreadsKept(y.s, Request(Suspend));
      case Call => StepInv(y.s, Schedule); ThreadsKept(y.s, Schedule);
      case Finish =>
      case Preempt => StepInv(y.s, Schedule); ThreadsKept(y.s, Schedule);
      case Kernel(op) => StepInv(y.s, op); ThreadsKept(y.s, op);
      case Tick(locked) => if !locked { TickKept(y); }
    }
  }

  /** A timer stays linked until its own sleeper, running again, deletes it. */
  lemma TimerStaysLinked(y: Sys, e: Event, tm: Timer)
    requires Good(y) && EventOk(y, e) && tm in y.timers
    ensures tm in Next(y, e).timers <==> !(e.Finish? && y.s.work == Some(tm.tid))
  {
    if e.Finish? { DropMember(y.timers, y.s.work.value); }
  }

  /** No thread has two timers. */
  ghost predicate OneEach(timers: seq<Timer>) { forall i, j | 0 <= i < j < |timers| :: timers[i].tid != timers[j].tid }

  lemma {:induction false} DropAt(timers: seq<Timer>, t: Tid, k: nat)
    requires OneEach(timers) && k <= |timers| && (forall i | 0 <= i < k :: timers[i].tid != t)
    requires k < |timers| ==> timers[k].tid == t
    ensures DropTimer(timers, t) == if k == |timers| then timers else timers[..k] + timers[k + 1..]
  {
    if timers != [] {
      var rest := timers[1..];
      if k == 0 {
        DropAt(rest, t, |rest|);
      } else {
        DropAt(rest, t, k - 1);
        assert timers[..k] == [timers[0]] + rest[..k - 1];
        if k < |timers| { assert timers[k + 1..] == rest[k..]; } else { assert timers == [timers[0]] + rest; }
      }
    }
  }

  lemma {:induction false} DropOneEach(timers: seq<Timer>, t: Tid)
    requires OneEach(timers)
    ensures OneEach(DropTimer(timers, t))
  {
    if timers != [] {
      DropOneEach(timers[1..], t);
      DropMember(timers[1..], t);
      var rest := DropTimer(timers[1..], t);
      forall j | 0 <= j < |rest| ensures rest[j].tid != timers[0].tid { assert rest[j] in timers[1..]; }
    }
  }

  ghost predicate TimersGood(y: Sys) {
    && (forall tm | tm in y.timers :: TimerOk(y, tm))
    && OneEach(y.timers)
    && (forall t | t in y.pc && y.pc[t] != Outside :: HasTimer(y, t))
  }

  lemma TimersStep(y: Sys, y': Sys)
    requires TimersGood(y) && y.s.threads.Keys <= y'.s.threads.Keys && y.jiffies <= y'.jiffies && y'.timers == y.timers
    requires forall t | t in y'.pc :: (y'.pc[t] == Outside <==> PcOf(y, t) == Outside)
    requires y.pc.Keys <= y'.pc.Keys
    ensures TimersGood(y')
  {
    forall tm | tm in y'.timers ensures TimerOk(y', tm) { assert TimerOk(y, tm); }
    forall t | t in y'.pc && y'.pc[t] != Outside ensures HasTimer(y', t) { assert HasTimer(y, t); }
  }

  lemma TimersArm(y: Sys, tm: Timer)
    requires TimersGood(y) && tm.tid in y.s.threads && PcOf(y, tm.tid) == Outside
    requires 0 < tm.ms && tm.armedAt <= y.jiffies && tm.expires == tm.armedAt + MsecsToJiffies(tm.ms)
    ensures TimersGood(y.(timers := y.timers + [tm], pc := y.pc[tm.tid := Armed]))
  {
    var y' := y.(timers := y.timers + [tm], pc := y.pc[tm.tid := Armed]);
    forall x | x in y.timers ensures x.tid != tm.tid && TimerOk(y', x) { assert TimerOk(y, x); }
    forall t | t in y'.pc && y'.pc[t] != Outside ensures HasTimer(y', t) {
      if t == tm.tid {
        assert y'.timers[|y.timers|] == tm;
      } else {
        assert HasTimer(y, t);
        var x :| x in y.timers && x.tid == t;
        assert x in y'.timers;
      }
    }
  }

  lemma TimersDrop(y: Sys, t: Tid)
    requires TimersGood(y)
    ensures TimersGood(y.(timers := DropTimer(y.timers, t), pc := y.pc[t := Outside]))
  {
    var y' := y.(timers := DropTimer(y.timers, t), pc := y.pc[t := Outside]);
    DropMember(y.timers, t);
    DropOneEach(y.timers, t);
    forall tm | tm in y'.timers ensures TimerOk(y', tm) { assert TimerOk(y, tm); }
    forall u | u in y'.pc && y'.pc[u] != Outside ensures HasTimer(y', u) {
      assert HasTimer(y, u);
      var x :| x in y.timers && x.tid == u;
      assert x in y'.timers;
    }
  }

  lemma TimersNext(y: Sys, y': Sys, e: Event)
    requires Good(y) && EventOk(y, e) && y' == Next(y, e) && Kept(y.s, y'.s)
    ensures TimersGood(y')
  {
    if e.Delay? {
      if 0 < e.ms { TimersArm(y, Timer(y.s.work.value, y.jiffies + MsecsToJiffies(e.ms), y.jiffies, e.ms)); }
    } else if e.Finish? {
      TimersDrop(y, y.s.work.value);
    } else {
      TimersStep(y, y');
    }
  }

  /** Every event keeps the scheduler's invariant and one timer for every thread inside a delay. */
  lemma GoodStep(y: Sys, e: Event)
    requires Good(y) && EventOk(y, e)
    ensures Good(Next(y, e))
  {
    var y' := Next(y, e);
    assert Inv(y'.s) && Kept(y.s, y'.s) by { StateStep(y, e); }
    assert TimersGood(y') by { TimersNext(y, y', e); }
  }

  // ---------------------------------------------------------------------------
  // A delay is not cut short

  predicate Down(st: Status) { st == Suspend || st == Sleep }

  /** A sleeper that has asked to wait is about to be suspended, is down, or its time has passed. */
  ghost predicate WaitsOut(y: Sys, tm: Timer) {
    var th := At(y.s.threads, tm.tid);
    match PcOf(y, tm.tid)
    case AskedToWait => th.toStatus == Suspend || Down(th.status) || tm.expires < y.jiffies
    case Back => Down(th.status) || tm.expires < y.jiffies
    case _ => true
  }

  /** A thread that is down stays down until somebody wakes it. */
  lemma DownStays(s: State, op: Op, t: Tid)
    requires Inv(s) && Enabled(s, op) && t in s.threads && Down(At(s.threads, t).status) && op != Wakeup(t)
    ensures Down(At(Apply(s, op).threads, t).status)
  {
    StepInv(s, op);
    assert ThreadOk(s, t);
    if s.ready != [] { assert s.ready[0] in s.ready; }
  }

  /** A pending request stays pending until the next schedule, which grants it. */
  lemma RequestStays(s: State, op: Op, t: Tid)
    requires Inv(s) && Enabled(s, op) && t in s.threads && At(s.threads, t).toStatus == Suspend
    requires t != IDLE && IDLE in s.threads && !op.Request?
    ensures At(Apply(s, op).threads, t).toStatus == Suspend || Down(At(Apply(s, op).threads, t).status)
  {
    StepInv(s, op);
    assert ThreadOk(s, t) && ThreadOk(s, IDLE);
    if op.Schedule? { assert s.ready != []; }
  }

  lemma WaitsOutKernel(y: Sys, op: Op, tm: Timer)
    requires Good(y) && EventOk(y, Kernel(op)) && tm in y.timers && op != Wakeup(tm.tid)
    requires tm.tid != IDLE && IDLE in y.s.threads && WaitsOut(y, tm)
    ensures WaitsOut(Next(y, Kernel(op)), tm)
  {
    var t := tm.tid;
    assert TimerOk(y, tm);
    if Down(At(y.s.threads, t).status) {
      DownStays(y.s, op, t);
    } else if At(y.s.threads, t).toStatus == Suspend {
      assert ThreadOk(y.s, t);
      RequestStays(y.s, op, t);
    }
  }

  lemma WaitsOutSchedule(y: Sys, tm: Timer, e: Event)
    requires Good(y) && (e == Call || e == Preempt) && EventOk(y, e) && tm in y.timers
    requires tm.tid != IDLE && IDLE in y.s.threads && WaitsOut(y, tm)
    ensures WaitsOut(Next(y, e), tm)
  {
    var t := tm.tid;
    assert TimerOk(y, tm);
    if Down(At(y.s.threads, t).status) {
      DownStays(y.s, Schedule, t);
    } else if At(y.s.threads, t).toStatus == Suspend {
      RequestGranted(y.s, t);
    }
  }

  lemma RequestGranted(s: State, t: Tid)
    requires Inv(s) && t in s.threads && At(s.threads, t).toStatus == Suspend && t != IDLE && IDLE in s.threads
    ensures Down(At(Apply(s, Schedule).threads, t).status)
  {
    assert ThreadOk(s, t) && ThreadOk(s, IDLE);
    StepInv(s, Schedule);
  }

  /** No event but an explicit wakeup of the sleeper lets it run before its time. */
  lemma WaitsOutStep(y: Sys, e: Event, tm: Timer)
    requires Good(y) && EventOk(y, e) && tm in y.timers && tm in Next(y, e).timers && e != Kernel(Wakeup(tm.tid))
    requires tm.tid != IDLE && IDLE in y.s.threads && WaitsOut(y, tm)
    ensures WaitsOut(Next(y, e), tm)
  {
    assert TimerOk(y, tm);
    match e
    case Delay(_) =>
    case Ask =>
    case Call => WaitsOutSchedule(y, tm, e);
    case Finish => DropMember(y.timers, y.s.work.value);
    case Preempt => WaitsOutSchedule(y, tm, e);
    case Kernel(op) => WaitsOutKernel(y, op, tm);
    case Tick(locked) =>
      if !locked {
        TickOn(y, tm.tid);
        if DueFor(y.timers, tm.tid, y.jiffies + 1) {
          var i :| 0 <= i < |y.timers| && y.timers[i].tid == tm.tid && Due(y.timers[i], y.jiffies + 1);
          assert y.timers[i] in y.timers;
        }
      }
  }

  ghost predicate IsSysRun(ys: seq<Sys>, es: seq<Event>) {
    && |ys| == |es| + 1
    && forall k: nat | k < |es| :: EventAt(ys, es, k)
  }

  ghost predicate EventAt(ys: seq<Sys>, es: seq<Event>, k: nat)
    requires |ys| == |es| + 1 && k < |es|
  {
    EventOk(ys[k], es[k]) && ys[k + 1] == Next(ys[k], es[k])
  }

  lemma {:induction false} SysRunGood(ys: seq<Sys>, es: seq<Event>, k: nat)
    requires IsSysRun(ys, es) && Good(ys[0]) && k <= |es|
    ensures Good(ys[k]) && Kept(ys[0].s, ys[k].s)
  {
    if 0 < k {
      SysRunGood(ys, es, k - 1);
      assert EventAt(ys, es, k - 1);
      GoodStep(ys[k - 1], es[k - 1]);
      StateStep(ys[k - 1], es[k - 1]);
      KeptOn(ys[0].s, ys[k - 1].s, ys[k].s);
    }
  }

  /** Step `k` neither wakes thread `t` explicitly nor is the end of its delay. */
  ghost predicate Undisturbed(ys: seq<Sys>, es: seq<Event>, k: nat, t: Tid)
    requires k < |ys| && k < |es|
  {
    es[k] != Kernel(Wakeup(t)) && !(es[k].Finish? && ys[k].s.work == Some(t))
  }

  lemma {:induction false} TimerWaits(ys: seq<Sys>, es: seq<Event>, i: nat, j: nat, tm: Timer)
    requires IsSysRun(ys, es) && Good(ys[0]) && i <= j <= |es| && IDLE in ys[0].s.threads && tm.tid != IDLE
    requires tm in ys[i].timers && WaitsOut(ys[i], tm)
    requires forall k: nat | i <= k < j :: Undisturbed(ys, es, k, tm.tid)
    ensures tm in ys[j].timers && WaitsOut(ys[j], tm)
    decreases j
  {
    if i < j {
      TimerWaits(ys, es, i, j - 1, tm);
      SysRunGood(ys, es, j - 1);
      assert EventAt(ys, es, j - 1) && Undisturbed(ys, es, j - 1, tm.tid);
      TimerStaysLinked(ys[j - 1], es[j - 1], tm);
      WaitsOutStep(ys[j - 1], es[j - 1], tm);
    }
  }

  /** Over whole runs: a thread other than idle that calls for a delay of `ms` milliseconds at step
      `i` and returns from it at step `j`, without having been woken explicitly in between, returns
      after more than the ticks that the delay stands for. */
  lemma DelayNotCutShort(ys: seq<Sys>, es: seq<Event>, i: nat, j: nat, t: Tid)
    requires IsSysRun(ys, es) && Good(ys[0]) && IDLE in ys[0].s.threads && t != IDLE
    requires i < j < |es| && es[i].Delay? && 0 < es[i].ms && ys[i].s.work == Some(t)
    requires es[j] == Finish && ys[j].s.work == Some(t)
    requires forall k: nat | i < k < j :: Undisturbed(ys, es, k, t)
    ensures ys[i].jiffies + MsecsToJiffies(es[i].ms) < ys[j].jiffies
    ensures es[i].ms < 10 * (ys[j].jiffies - ys[i].jiffies)
  {
    assert EventAt(ys, es, i) && EventAt(ys, es, j);
    var tm := Timer(t, ys[i].jiffies + MsecsToJiffies(es[i].ms), ys[i].jiffies, es[i].ms);
    assert ys[i + 1].timers[|ys[i].timers|] == tm;
    JiffiesCover(es[i].ms);
    TimerWaits(ys, es, i + 1, j, tm);
    SysRunGood(ys, es, j);
    assert ThreadOk(ys[j].s, t);
  }

  lemma {:induction false} TimerLinkedOver(ys: seq<Sys>, es: seq<Event>, i: nat, j: nat, tm: Timer)
    requires IsSysRun(ys, es) && Good(ys[0]) && i <= j <= |es| && tm in ys[i].timers
    requires forall k | i <= k < j :: !(es[k].Finish? && ys[k].s.work == Some(tm.tid))
    ensures tm in ys[j].timers
    decreases j
  {
    if i < j {
      TimerLinkedOver(ys, es, i, j - 1, tm);
      SysRunGood(ys, es, j - 1);
      assert EventAt(ys, es, j - 1);
      TimerStaysLinked(ys[j - 1], es[j - 1], tm);
    }
  }

  /** Over whole runs no wakeup is lost: until the delay of `t` is finished, every tick with the scheduler
      lock free after its time leaves `t` not suspended. */
  lemma WakeupNotLost(ys: seq<Sys>, es: seq<Event>, i: nat, j: nat, t: Tid)
    requires IsSysRun(ys, es) && Good(ys[0])
    requires i < j < |es| && es[i].Delay? && 0 < es[i].ms && ys[i].s.work == Some(t)
    requires forall k | i < k < j :: !(es[k].Finish? && ys[k].s.work == Some(t))
    requires es[j] == Tick(false) && ys[i].jiffies + es[i].ms / 10 + 1 <= ys[j].jiffies
    ensures At(ys[j + 1].s.threads, t).status != Suspend
  {
    assert EventAt(ys, es, i) && EventAt(ys, es, j);
    var tm := Timer(t, ys[i].jiffies + MsecsToJiffies(es[i].ms), ys[i].jiffies, es[i].ms);
    assert ys[i + 1].timers[|ys[i].timers|] == tm;
    JiffiesCover(es[i].ms);
    TimerLinkedOver(ys, es, i + 1, j, tm);
    SysRunGood(ys, es, j);
    TickWakesDue(ys[j], tm);
  }

  lemma IdleKeepsSlot(s: State)
    requires Inv(s) && s.work == Some(IDLE)
    ensures Apply(s, Request(Suspend)).work == Some(IDLE)
    ensures Apply(Apply(s, Request(Suspend)), Schedule).work == Some(IDLE)
  {
    StepInv(s, Request(Suspend));
    StepInv(Apply(s, Request(Suspend)), Schedule);
  }

  /** Idle cannot be suspended: a delay it asks for runs through at once, whatever its length and
      whoever is ready, and leaves no timer behind. */
  lemma IdleDelayReturnsAtOnce(y: Sys, ms: nat)
    requires Good(y) && y.s.work == Some(IDLE) && PcOf(y, IDLE) == Outside
    ensures var y1 := Next(y, Delay(ms));
            if ms == 0 then y1 == y
            else
              && EventOk(y1, Ask) && EventOk(Next(y1, Ask), Call) && EventOk(Next(Next(y1, Ask), Call), Finish)
              && var y4 := Next(Next(Next(y1, Ask), Call), Finish);
                 && y4.s.work == Some(IDLE) && PcOf(y4, IDLE) == Outside
                 && y4.jiffies == y.jiffies && y4.timers == y.timers
  {
    if ms != 0 {
      var y1 := Next(y, Delay(ms));
      IdleKeepsSlot(y.s);
      forall i | 0 <= i < |y.timers| ensures y.timers[i].tid != IDLE { assert TimerOk(y, y.timers[i]); }
      GoodStep(y, Delay(ms));
      DropAt(y1.timers, IDLE, |y.timers|);
      assert y1.timers[..|y.timers|] + y1.timers[|y.timers| + 1..] == y.timers;
    }
  }

  lemma GoodStart(s: State, jiffies: nat)
    requires Inv(s)
    ensures Good(Sys(s, jiffies, [], map[]))
  {
  }
}
