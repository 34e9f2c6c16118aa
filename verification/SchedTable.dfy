/** The scheduler table: the fields and lists the kernel updates in place, call by call. */
module SchedTable {
  import opened Options
  import opened Sched
  import SchedProps

  ghost predicate Distinct(l: seq<Tid>) { forall i, j | 0 <= i < j < |l| :: l[i] != l[j] }

  lemma {:induction false} WithoutAbsent(l: seq<Tid>, t: Tid)
    requires forall i | 0 <= i < |l| :: l[i] != t
    ensures Without(l, t) == l
  {
    if l != [] { WithoutAbsent(l[1..], t); }
  }

  lemma {:induction false} WithoutAt(l: seq<Tid>, t: Tid, k: nat)
    requires Distinct(l) && k < |l| && l[k] == t
    ensures Without(l, t) == l[..k] + l[k + 1..]
  {
    var rest := l[1..];
    if k == 0 {
      WithoutAbsent(rest, t);
    } else {
      WithoutAt(rest, t, k - 1);
      assert l[..k] == [l[0]] + rest[..k - 1] && l[k + 1..] == rest[k..];
    }
  }

  /** A detached thread is in no list, every other thread is where it was, and the order is kept. */
  lemma DetachClears(s: State, t: Tid, u: Tid)
    requires Inv(s)
    ensures var r := Detach(s, t);
            && (u in r.ready <==> u in s.ready && u != t)
            && (u in r.suspend <==> u in s.suspend && u != t)
            && (u in r.sleep <==> u in s.sleep && u != t)
            && Ordered(s.threads, r.ready) && Ordered(s.threads, r.suspend) && Ordered(s.threads, r.sleep)
  {
    var l := ListOf(s, At(s.threads, t).status);
    WithoutMember(l, t);
    WithoutOrdered(s.threads, l, t);
  }

  class SchedulerTable {
    var threads: map<Tid, Thread>
    var work: Option<Tid>
    var ready: seq<Tid>
    var suspend: seq<Tid>
    var sleep: seq<Tid>
    var started: bool
    var clock: nat

    ghost function Snapshot(): State
      reads this
    {
      State(threads, work, ready, suspend, sleep, started, clock)
    }

    ghost predicate Valid()
      reads this
    {
      Inv(Snapshot())
    }

    /** No thread is twice in a list. */
    ghost predicate Once()
      reads this
    {
      Distinct(ready) && Distinct(suspend) && Distinct(sleep)
    }

    constructor ()
      ensures Valid() && Snapshot() == BOOT
    {
      threads, work, ready, suspend, sleep, started, clock := map[], None, [], [], [], false, 0;
    }

    /** Walk a list for a thread. */
    method FindThread(l: seq<Tid>, t: Tid) returns (found: bool)
      ensures found <==> t in l
    {
      var i := 0;
      while i < |l|
        invariant i <= |l| && t !in l[..i]
      {
        if l[i] == t { return true; }
        i := i + 1;
      }
      return false;
    }

    /** Walk a list from its tail to the last thread of the same or a higher priority and link the
        thread behind it. */
    method AddStatusList(l: seq<Tid>, t: Tid) returns (r: seq<Tid>)
      ensures r == if t in l then l else Insert(threads, l, t)
    {
      if l == [] { return [t]; }
      var found := FindThread(l, t);
      if found { return l; }
      var i := |l|;
      assert l[..i] == l && l[i..] == [];
      while 0 < i
        invariant 0 <= i <= |l|
        invariant Insert(threads, l, t) == Insert(threads, l[..i], t) + l[i..]
      {
        assert l[..i][..i - 1] == l[..i - 1] && l[i - 1] in l;
        if At(threads, l[i - 1]).prio <= At(threads, t).prio {
          assert Insert(threads, l[..i], t) == l[..i] + [t];
          return l[..i] + [t] + l[i..];
        }
        i := i - 1;
        assert l[i..] == [l[i]] + l[i + 1..];
      }
      return [t] + l;
    }

    /** Add a thread to the list of a waiting status. */
    method AddList(t: Tid, st: Status) returns (ok: bool)
      requires Waiting(st)
      modifies this`threads, this`ready, this`suspend, this`sleep, this`clock
      ensures (Snapshot(), ok) == AddTo(old(Snapshot()), t, st)
    {
      if At(threads, t).status == st { return false; }
      var l := if st == Ready then ready else if st == Suspend then suspend else sleep;
      var l' := AddStatusList(l, t);
      StoreList(st, l');
      if t !in l {
        threads := threads[t := At(threads, t).(since := clock)];
        clock := clock + 1;
      }
      return true;
    }

    method StoreList(st: Status, l: seq<Tid>)
      requires Waiting(st)
      modifies this`ready, this`suspend, this`sleep
      ensures Snapshot() == SetList(old(Snapshot()), st, l)
    {
      if st == Ready { ready := l; } else if st == Suspend { suspend := l; } else { sleep := l; }
    }

    /** Walk a list for a thread and unlink it there. */
    method UnlinkThread(l: seq<Tid>, t: Tid) returns (r: seq<Tid>)
      requires Distinct(l)
      ensures r == Without(l, t)
    {
      var i := 0;
      while i < |l|
        invariant i <= |l| && forall j | 0 <= j < i :: l[j] != t
      {
        if l[i] == t {
          WithoutAt(l, t, i);
          return l[..i] + l[i + 1..];
        }
        i := i + 1;
      }
      WithoutAbsent(l, t);
      return l;
    }

    /** Take a thread out of the list its status names. */
    method DetachList(t: Tid)
      requires Once()
      modifies this`ready, this`suspend, this`sleep
      ensures Snapshot() == Detach(old(Snapshot()), t)
    {
      match At(threads, t).status {
        case Ready => ready := UnlinkThread(ready, t);
        case Suspend => suspend := UnlinkThread(suspend, t);
        case Sleep => sleep := UnlinkThread(sleep, t);
        case _ =>
      }
    }

    method SyncStatus(t: Tid, st: Status)
      modifies this`threads
      ensures Snapshot() == Sync(old(Snapshot()), t, st)
    {
      threads := threads[t := At(threads, t).(status := st, toStatus := Unset)];
    }

    /** The running thread gives up the slot to the first ready thread. */
    method ReinstallWorkRole(t: Tid) returns (ok: bool)
      requires Once()
      modifies this`threads, this`work, this`ready, this`suspend, this`sleep
      ensures ok <==> old(work) == Some(t) && old(ready) != []
      ensures Snapshot() == if ok then Reinstall(old(Snapshot())) else old(Snapshot())
    {
      if work != Some(t) || ready == [] { return false; }
      var next := ready[0];
      DetachList(next);
      work := Some(next);
      SyncStatus(next, Running);
      return true;
    }

    /** A ready thread takes the slot; the thread that ran is added to the ready list. */
    method DespoilWorkRole(t: Tid) returns (ok: bool)
      modifies this`threads, this`work, this`ready, this`suspend, this`sleep, this`clock
      ensures (Snapshot(), ok) == Despoil(old(Snapshot()), t)
    {
      if At(threads, t).status != Ready { return false; }
      if work.Some? {
        var current := work.value;
        ok := AddList(current, Ready);
        if !ok { return; }
        SyncStatus(current, Ready);
      }
      work := Some(t);
      return true;
    }

    /** The first half of a switch: give up the slot or leave a list. */
    method Leave(t: Tid) returns (ok: bool)
      requires Once()
      modifies this`threads, this`work, this`ready, this`suspend, this`sleep
      ensures ok <==> old(At(threads, t)).status == Running ==> old(work) == Some(t) && old(ready) != []
      ensures Snapshot() == if !ok then old(Snapshot())
                            else if old(At(threads, t)).status == Running then Reinstall(old(Snapshot()))
                            else Detach(old(Snapshot()), t)
    {
      if At(threads, t).status == Running { ok := ReinstallWorkRole(t); } else { DetachList(t); ok := true; }
    }

    /** The second half of a switch: take the slot or join a list. */
    method Enter(t: Tid, dst: Status) returns (ok: bool)
      modifies this`threads, this`work, this`ready, this`suspend, this`sleep, this`clock
      ensures (Snapshot(), ok) == (if dst == Running then Despoil(old(Snapshot()), t)
                                   else if dst == Unset then (old(Snapshot()), false)
                                   else AddTo(old(Snapshot()), t, dst))
    {
      if dst == Running { ok := DespoilWorkRole(t); } else if dst == Unset { ok := false; } else { ok := AddList(t, dst); }
    }

    /** Move a thread from its status to the one it is asked to take. */
    method ThreadSwitch(t: Tid) returns (ok: bool)
      requires Once()
      modifies this`threads, this`work, this`ready, this`suspend, this`sleep, this`clock
      ensures (Snapshot(), ok) == Switch(old(Snapshot()), t)
    {
      var src, dst := At(threads, t).status, At(threads, t).toStatus;
      if src == dst || (t == IDLE && dst != Running && dst != Ready) {
        SyncStatus(t, src);
        return false;
      }
      ok := Leave(t);
      if !ok {
        SyncStatus(t, src);
        return;
      }
      ok := Enter(t, dst);
      if !ok || work.None? {
        SyncStatus(t, src);
        return false;
      }
      SyncStatus(t, dst);
    }

    method SetStatus(t: Tid, st: Status)
      modifies this`threads
      ensures Snapshot() == SetTo(old(Snapshot()), t, st)
    {
      threads := threads[t := At(threads, t).(toStatus := st)];
    }

    /** Register a thread under a free id; it starts in the ready list. */
    method RegisterNewThread(t: Tid, prio: nat, stack: bool) returns (ok: bool)
      requires Valid() && t < MAX_THREADS
      modifies this
      ensures Valid() && Snapshot() == Apply(old(Snapshot()), Register(t, prio, stack))
      ensures ok <==> t !in old(threads) && stack
    {
      StepInv(Snapshot(), Register(t, prio, stack));
      if t in threads || !stack { return false; }
      threads := threads[t := Thread(prio, Unset, Unset, 0)];
      ok := AddList(t, Ready);
      SyncStatus(t, Ready);
    }

    /** Switch to the next thread; the flag is false when there is nothing to switch to. */
    method ScheduleThread() returns (ok: bool)
      requires Valid()
      modifies this
      ensures Valid() && (Snapshot(), ok) == Sched.ScheduleThread(old(Snapshot()))
      ensures old(ready != [] && work.Some? && At(threads, work.value).toStatus == Unset) ==>
                ok && work == Some(old(ready[0])) && old(work.value) in ready && suspend == old(suspend) && sleep == old(sleep)
    {
      StepInv(Snapshot(), Schedule);
      if ready != [] && work.Some? && At(threads, work.value).toStatus == Unset {
        SchedProps.PlainScheduleReadies(Snapshot(), work.value);
      }
      if ready == [] { return false; }
      if work.None? {
        if started { return false; }
        var first := ready[0];
        SetStatus(first, Running);
        ok := ThreadSwitch(first);
        if ok { started := true; }
      } else {
        var prev := work.value;
        if At(threads, prev).toStatus == Unset { SetStatus(prev, Ready); }
        ok := ThreadSwitch(prev);
      }
    }

    /** The running thread asks to be suspended or put to sleep, then schedules. */
    method SelfRequest(dst: Status)
      requires Valid() && work.Some? && (dst == Suspend || dst == Sleep)
      modifies this
      ensures Valid()
      ensures Snapshot() == Apply(Apply(old(Snapshot()), Request(dst)), Schedule)
    {
      StepInv(Snapshot(), Request(dst));
      SetStatus(work.value, dst);
      var _ := ScheduleThread();
    }

    /** Suspend a thread or put it to sleep; on the running thread this is a request of its own. */
    method MoveThread(t: Tid, dst: Status) returns (ok: bool)
      requires Valid() && work.Some? && t in threads && (dst == Suspend || dst == Sleep)
      modifies this
      ensures Valid()
      ensures Snapshot() == if old(work) == Some(t) then Apply(Apply(old(Snapshot()), Request(dst)), Schedule)
                            else Apply(old(Snapshot()), Move(t, dst))
      ensures ok <==> old(work) == Some(t) || (t != IDLE && old(At(threads, t).status) != dst)
    {
      if work == Some(t) {
        SelfRequest(dst);
        return true;
      }
      StepInv(Snapshot(), Move(t, dst));
      assert ThreadOk(Snapshot(), t);
      MoveInv(Snapshot(), t, dst);
      SetStatus(t, dst);
      ok := ThreadSwitch(t);
    }

    /** Make a suspended or sleeping thread ready. */
    method WakeupThread(t: Tid) returns (ok: bool)
      requires Valid() && t in threads
      modifies this
      ensures Valid() && Snapshot() == Apply(old(Snapshot()), Wakeup(t))
      ensures ok <==> old(At(threads, t).status) == Suspend || old(At(threads, t).status) == Sleep
    {
      StepInv(Snapshot(), Wakeup(t));
      if At(threads, t).status != Suspend && At(threads, t).status != Sleep { return false; }
      assert ThreadOk(Snapshot(), t);
      MoveInv(Snapshot(), t, Ready);
      SetStatus(t, Ready);
      ok := ThreadSwitch(t);
    }
  }
}
