/** The thread scheduler as a state machine: one running slot and three status lists, changed by
    registering, scheduling, suspending, putting to sleep and waking threads. */
module Sched {
  import opened Options

  type Tid = nat

  const IDLE: Tid := 0
  const MAX_THREADS: nat := 128

  datatype Status = Unset | Running | Ready | Suspend | Sleep

  /** `since` records when the thread entered its list; the code does not look at it. */
  datatype Thread = Thread(prio: nat, status: Status, toStatus: Status, since: nat)

  /** `clock` counts list insertions; the code does not look at it. */
  datatype State = State(threads: map<Tid, Thread>, work: Option<Tid>, ready: seq<Tid>, suspend: seq<Tid>,
                         sleep: seq<Tid>, started: bool, clock: nat)

  const BOOT: State := State(map[], None, [], [], [], false, 0)

  // ---------------------------------------------------------------------------
  // Lists

  /** The record of a thread; an id nobody registered has no status. */
  function At(threads: map<Tid, Thread>, t: Tid): Thread {
    if t in threads then threads[t] else Thread(0, Unset, Unset, 0)
  }

  /** Insert behind the last thread that has the same or a higher priority (a lower value). */
  function Insert(threads: map<Tid, Thread>, l: seq<Tid>, t: Tid): seq<Tid> {
    if l == [] then [t]
    else
      var last := l[|l| - 1];
      if At(threads, last).prio <= At(threads, t).prio then l + [t] else Insert(threads, l[..|l| - 1], t) + [last]
  }

  function Without(l: seq<Tid>, t: Tid): seq<Tid> {
    if l == [] then [] else (if l[0] == t then [] else [l[0]]) + Without(l[1..], t)
  }

  /** Higher priority first, longer waiting first among equals. */
  predicate Before(a: Thread, b: Thread) { a.prio < b.prio || (a.prio == b.prio && a.since < b.since) }

  // ---------------------------------------------------------------------------
  // Transitions

  function Update(s: State, t: Tid, th: Thread): State { s.(threads := s.threads[t := th]) }

  function SetTo(s: State, t: Tid, st: Status): State { Update(s, t, At(s.threads, t).(toStatus := st)) }

  /** Set the status and forget the request. */
  function Sync(s: State, t: Tid, st: Status): State {
    Update(s, t, At(s.threads, t).(status := st, toStatus := Unset))
  }

  predicate Waiting(st: Status) { st == Ready || st == Suspend || st == Sleep }

  function ListOf(s: State, st: Status): seq<Tid> {
    if st == Ready then s.ready else if st == Suspend then s.suspend else if st == Sleep then s.sleep else []
  }

  function SetList(s: State, st: Status, l: seq<Tid>): State {
    s.(ready := if st == Ready then l else s.ready,
       suspend := if st == Suspend then l else s.suspend,
       sleep := if st == Sleep then l else s.sleep)
  }

  /** Put thread `t` in the list of `st`; refused when its status already says so. */
  function AddTo(s: State, t: Tid, st: Status): (State, bool) {
    if At(s.threads, t).status == st then (s, false)
    else if t in ListOf(s, st) then (s, true)
    else (Update(SetList(s, st, Insert(s.threads, ListOf(s, st), t)), t, At(s.threads, t).(since := s.clock))
          .(clock := s.clock + 1), true)
  }

  function Detach(s: State, t: Tid): State {
    var st := At(s.threads, t).status;
    SetList(s, st, Without(ListOf(s, st), t))
  }

  /** Give the running slot to the first ready thread. */
  function Reinstall(s: State): State
    requires s.ready != []
  {
    Sync(Detach(s, s.ready[0]), s.ready[0], Running).(work := Some(s.ready[0]))
  }

  /** Give the running slot to a ready thread; the thread that ran goes to the ready list. */
  function Despoil(s: State, t: Tid): (State, bool) {
    if At(s.threads, t).status != Ready then (s, false)
    else if s.work.None? then (s.(work := Some(t)), true)
    else
      var (s1, ok) := AddTo(s, s.work.value, Ready);
      if !ok then (s, false) else (Sync(s1, s.work.value, Ready).(work := Some(t)), true)
  }

  /** Move a thread to the status it is asked to take.  The flag tells success. */
  function Switch(s: State, t: Tid): (State, bool) {
    var src, dst := At(s.threads, t).status, At(s.threads, t).toStatus;
    if src == dst || (t == IDLE && dst != Running && dst != Ready) then (Sync(s, t, src), false)
    else if src == Running && (s.work != Some(t) || s.ready == []) then (Sync(s, t, src), false)
    else
      var s1 := if src == Running then Reinstall(s) else Detach(s, t);
      var (s2, ok) := if dst == Running then Despoil(s1, t)
                      else if dst == Unset then (s1, false)
                      else AddTo(s1, t, dst);
      if !ok || s2.work.None? then (Sync(s2, t, src), false) else (Sync(s2, t, dst), true)
  }

  /** The calls of the scheduler.  `Request` is the first half of self-suspend and self-sleep,
      `Schedule` the second half and every other switch. */
  datatype Op =
    | Register(tid: Tid, prio: nat, stack: bool)
    | Request(dst: Status)
    | Schedule
    | Move(tid: Tid, dst: Status)
    | Wakeup(tid: Tid)

  /** The status a thread asks for when it is switched away from. */
  function Asked(th: Thread): Status { if th.toStatus == Unset then Ready else th.toStatus }

  function ScheduleThread(s: State): (State, bool) {
    if s.ready == [] then (s, false)
    else if s.work.None? then
      if s.started then (s, false)
      else
        var (s1, ok) := Switch(SetTo(s, s.ready[0], Running), s.ready[0]);
        (s1.(started := s1.started || ok), ok)
    else
      var t := s.work.value;
      Switch(if At(s.threads, t).toStatus == Unset then SetTo(s, t, Ready) else s, t)
  }

  function Apply(s: State, op: Op): State {
    match op
    case Register(t, prio, stack) =>
      if t in s.threads || !stack then s
      else Sync(AddTo(Update(s, t, Thread(prio, Unset, Unset, 0)), t, Ready).0, t, Ready)
    case Request(dst) => if s.work.None? then s else SetTo(s, s.work.value, dst)
    case Schedule => ScheduleThread(s).0
    case Move(t, dst) => Switch(SetTo(s, t, dst), t).0
    case Wakeup(t) =>
      if At(s.threads, t).status != Suspend && At(s.threads, t).status != Sleep then s
      else Switch(SetTo(s, t, Ready), t).0
  }

  /** What the code expects when the call is made: a thread runs where one is dereferenced, and the
      thread named is registered. */
  predicate Enabled(s: State, op: Op) {
    match op
    case Register(t, _, _) => t < MAX_THREADS
    case Request(dst) => s.work.Some? && (dst == Suspend || dst == Sleep)
    case Schedule => true
    case Move(t, dst) => s.work.Some? && t in s.threads && s.work != Some(t) && (dst == Suspend || dst == Sleep)
    case Wakeup(t) => t in s.threads
  }

  // ---------------------------------------------------------------------------
  // The invariant

  /** List `l` holds exactly the threads with status `st`, in order, each once. */
  ghost predicate ListOk(threads: map<Tid, Thread>, l: seq<Tid>, st: Status) {
    && (forall t :: t in l <==> At(threads, t).status == st)
    && Ordered(threads, l)
  }

  ghost predicate Ordered(threads: map<Tid, Thread>, l: seq<Tid>) {
    forall i, j | 0 <= i < j < |l| :: Before(At(threads, l[i]), At(threads, l[j]))
  }

  ghost predicate ThreadOk(s: State, t: Tid) {
    var th := At(s.threads, t);
    && t < MAX_THREADS
    && th.status != Unset
    && (th.status == Running <==> s.work == Some(t))
    && (th.toStatus == Unset || (s.work == Some(t) && (th.toStatus == Suspend || th.toStatus == Sleep)))
    && th.since < s.clock
    && (s.work.None? ==> th.status == Ready)
    && (t == IDLE ==> th.status == Running || th.status == Ready)
  }

  ghost predicate ListsOk(s: State) {
    && ListOk(s.threads, s.ready, Ready)
    && ListOk(s.threads, s.suspend, Suspend)
    && ListOk(s.threads, s.sleep, Sleep)
  }

  ghost predicate Inv(s: State) {
    && ListsOk(s)
    && (forall t {:trigger ThreadOk(s, t)} | t in s.threads :: ThreadOk(s, t))
    && (s.work.Some? ==> s.work.value in s.threads)
    && s.started == s.work.Some?
  }

  // ---------------------------------------------------------------------------
  // List lemmas

  lemma {:induction false} WithoutMember(l: seq<Tid>, t: Tid)
    ensures forall u :: u in Without(l, t) <==> u in l && u != t
  {
    if l != [] {
      WithoutMember(l[1..], t);
      assert l == [l[0]] + l[1..];
    }
  }

  lemma {:induction false} WithoutOrdered(threads: map<Tid, Thread>, l: seq<Tid>, t: Tid)
    requires Ordered(threads, l)
    ensures Ordered(threads, Without(l, t))
  {
    if l != [] {
      var r := l[1..];
      assert Ordered(threads, r);
      WithoutOrdered(threads, r, t);
      WithoutMember(r, t);
      forall u | u in r ensures Before(At(threads, l[0]), At(threads, u)) {
        var k :| 0 <= k < |r| && r[k] == u;
        assert l[k + 1] == u;
      }
    }
  }

  lemma {:induction false} InsertMember(threads: map<Tid, Thread>, l: seq<Tid>, t: Tid)
    ensures forall u :: u in Insert(threads, l, t) <==> u in l || u == t
  {
    if l != [] {
      var n := |l| - 1;
      assert l == l[..n] + [l[n]];
      InsertMember(threads, l[..n], t);
    }
  }

  lemma {:induction false} InsertSame(threads: map<Tid, Thread>, threads': map<Tid, Thread>, l: seq<Tid>, t: Tid)
    requires At(threads, t).prio == At(threads', t).prio && forall u | u in l :: At(threads, u).prio == At(threads', u).prio
    ensures Insert(threads, l, t) == Insert(threads', l, t)
  {
    if l != [] {
      assert l[|l| - 1] in l;
      InsertSame(threads, threads', l[..|l| - 1], t);
    }
  }

  lemma OrderedAppend(threads: map<Tid, Thread>, l: seq<Tid>, x: Tid)
    requires Ordered(threads, l)
    requires forall u | u in l :: Before(At(threads, u), At(threads, x))
    ensures Ordered(threads, l + [x])
  {
    var m := l + [x];
    forall i, j | 0 <= i < j < |m| ensures Before(At(threads, m[i]), At(threads, m[j])) {
      if j == |l| { assert l[i] in l; }
    }
  }

  lemma LastIsLatest(threads: map<Tid, Thread>, l: seq<Tid>)
    requires l != [] && Ordered(threads, l)
    ensures forall u | u in l :: u == l[|l| - 1] || Before(At(threads, u), At(threads, l[|l| - 1]))
    ensures forall u | u in l[..|l| - 1] :: u in l && Before(At(threads, u), At(threads, l[|l| - 1]))
  {
  }

  lemma {:induction false} InsertOrdered(threads: map<Tid, Thread>, l: seq<Tid>, t: Tid)
    requires Ordered(threads, l)
    requires forall u | u in l :: At(threads, u).since < At(threads, t).since
    ensures Ordered(threads, Insert(threads, l, t))
  {
    if l != [] {
      var n := |l| - 1;
      LastIsLatest(threads, l);
      if At(threads, l[n]).prio <= At(threads, t).prio {
        OrderedAppend(threads, l, t);
      } else {
        InsertOrdered(threads, l[..n], t);
        InsertMember(threads, l[..n], t);
        OrderedAppend(threads, Insert(threads, l[..n], t), l[n]);
      }
    }
  }

  // ---------------------------------------------------------------------------
  // One thread changes

  /** Thread `u` has the same place and order in both tables. */
  predicate SameFor(threads: map<Tid, Thread>, threads': map<Tid, Thread>, u: Tid) {
    var a, b := At(threads, u), At(threads', u);
    a.prio == b.prio && a.status == b.status && a.since == b.since
  }

  ghost predicate SameBut(threads: map<Tid, Thread>, threads': map<Tid, Thread>, t: Tid) {
    forall u: Tid | u != t :: SameFor(threads, threads', u)
  }

  lemma OrderedSame(threads: map<Tid, Thread>, threads': map<Tid, Thread>, l: seq<Tid>)
    requires forall u | u in l :: SameFor(threads, threads', u)
    requires Ordered(threads, l)
    ensures Ordered(threads', l)
  {
    forall i, j | 0 <= i < j < |l| ensures Before(At(threads', l[i]), At(threads', l[j])) { assert l[i] in l && l[j] in l; }
  }

  /** A list the thread is not and will not be in stays as it is. */
  lemma ListUntouched(threads: map<Tid, Thread>, threads': map<Tid, Thread>, l: seq<Tid>, st: Status, t: Tid)
    requires ListOk(threads, l, st) && SameBut(threads, threads', t)
    requires SameFor(threads, threads', t) || (At(threads, t).status != st && At(threads', t).status != st)
    ensures ListOk(threads', l, st)
  {
    forall u ensures u in l <==> At(threads', u).status == st { assert u != t ==> SameFor(threads, threads', u); }
    forall u | u in l ensures SameFor(threads, threads', u) { assert u != t ==> SameFor(threads, threads', u); }
    OrderedSame(threads, threads', l);
  }

  /** The list a thread leaves. */
  lemma ListLeft(threads: map<Tid, Thread>, threads': map<Tid, Thread>, l: seq<Tid>, st: Status, t: Tid)
    requires ListOk(threads, l, st) && SameBut(threads, threads', t)
    requires At(threads', t).status != st
    ensures ListOk(threads', Without(l, t), st)
  {
    WithoutOrdered(threads, l, t);
    WithoutMember(l, t);
    forall u ensures u in Without(l, t) <==> At(threads', u).status == st { assert u != t ==> SameFor(threads, threads', u); }
    OrderedSame(threads, threads', Without(l, t));
  }

  /** The list a thread enters. */
  lemma ListEntered(threads: map<Tid, Thread>, threads': map<Tid, Thread>, l: seq<Tid>, st: Status, t: Tid)
    requires ListOk(threads, l, st) && SameBut(threads, threads', t)
    requires At(threads, t).status != st && At(threads', t).status == st
    requires forall u | u in l :: At(threads, u).since < At(threads', t).since
    ensures ListOk(threads', Insert(threads', l, t), st)
  {
    forall u | u in l ensures u != t && SameFor(threads, threads', u) { assert u != t ==> SameFor(threads, threads', u); }
    OrderedSame(threads, threads', l);
    InsertOrdered(threads', l, t);
    InsertMember(threads', l, t);
    forall u ensures u in Insert(threads', l, t) <==> At(threads', u).status == st {
      assert u != t ==> SameFor(threads, threads', u);
    }
  }

  // ---------------------------------------------------------------------------
  // What the transitions come to when the invariant holds

  /** The list of `st` after a thread moves to the list of `dst`. */
  function NewList(s: State, t: Tid, dst: Status, st: Status): seq<Tid> {
    if st == dst then Insert(s.threads, ListOf(s, st), t)
    else if st == At(s.threads, t).status then Without(ListOf(s, st), t)
    else ListOf(s, st)
  }

  /** A thread is taken out of the list it waits in, if any, and put in another. */
  function Placed(s: State, t: Tid, dst: Status): State {
    State(s.threads[t := Thread(At(s.threads, t).prio, dst, Unset, s.clock)], s.work, NewList(s, t, dst, Ready),
          NewList(s, t, dst, Suspend), NewList(s, t, dst, Sleep), s.started, s.clock + 1)
  }

  /** A list is as it should be and older than the next insertion. */
  ghost predicate ListFine(s: State, st: Status) {
    && ListOk(s.threads, ListOf(s, st), st)
    && forall u | u in ListOf(s, st) :: At(s.threads, u).since < s.clock
  }

  lemma InvLists(s: State, st: Status)
    requires Inv(s) && Waiting(st)
    ensures ListFine(s, st)
  {
    forall u | u in ListOf(s, st) ensures At(s.threads, u).since < s.clock { assert ThreadOk(s, u); }
  }

  lemma PlacedList(s: State, t: Tid, dst: Status, st: Status)
    requires At(s.threads, t).status != dst && Waiting(dst) && Waiting(st) && ListFine(s, st)
    ensures ListOk(Placed(s, t, dst).threads, ListOf(Placed(s, t, dst), st), st)
  {
    var threads' := Placed(s, t, dst).threads;
    if st == At(s.threads, t).status {
      ListLeft(s.threads, threads', ListOf(s, st), st, t);
    } else if st == dst {
      ListEntered(s.threads, threads', ListOf(s, st), st, t);
      InsertSame(s.threads, threads', ListOf(s, st), t);
    } else {
      ListUntouched(s.threads, threads', ListOf(s, st), st, t);
    }
  }

  lemma PlacedLists(s: State, t: Tid, dst: Status)
    requires At(s.threads, t).status != dst && Waiting(dst)
    requires ListFine(s, Ready) && ListFine(s, Suspend) && ListFine(s, Sleep)
    ensures ListsOk(Placed(s, t, dst))
  {
    PlacedList(s, t, dst, Ready);
    PlacedList(s, t, dst, Suspend);
    PlacedList(s, t, dst, Sleep);
  }

  lemma PlacedInv(s: State, t: Tid, dst: Status)
    requires Inv(s) && t in s.threads && At(s.threads, t).status != dst && s.work.Some?
    requires Waiting(At(s.threads, t).status) && Waiting(dst) && (t == IDLE ==> dst == Ready)
    ensures Inv(Placed(s, t, dst))
  {
    var s' := Placed(s, t, dst);
    assert ListsOk(s') by {
      InvLists(s, Ready);
      InvLists(s, Suspend);
      InvLists(s, Sleep);
      PlacedLists(s, t, dst);
    }
    forall u | u in s'.threads ensures ThreadOk(s', u) { assert ThreadOk(s, u); }
  }

  lemma AddToList(s: State, t: Tid, dst: Status)
    requires At(s.threads, t).status != dst && t !in ListOf(s, dst)
    ensures AddTo(s, t, dst) == (Update(SetList(s, dst, Insert(s.threads, ListOf(s, dst), t)), t,
              At(s.threads, t).(since := s.clock)).(clock := s.clock + 1), true)
    ensures AddTo(s, t, dst).0.work == s.work
  {
  }

  /** Joining the list of `dst` and taking its status, from a state in which `t` is in no list. */
  lemma JoinPlaces(s: State, s1: State, t: Tid, dst: Status)
    requires At(s.threads, t).status != dst && Waiting(dst) && t !in ListOf(s, dst)
    requires s1 == SetTo(Detach(s, t), t, dst)
    ensures AddTo(s1, t, dst).1 && AddTo(s1, t, dst).0.work == s.work
    ensures Sync(AddTo(s1, t, dst).0, t, dst) == Placed(s, t, dst)
  {
    assert ListOf(s1, dst) == ListOf(s, dst);
    assert Insert(s1.threads, ListOf(s, dst), t) == Insert(s.threads, ListOf(s, dst), t) by {
      InsertSame(s.threads, s1.threads, ListOf(s, dst), t);
    }
    AddToList(s1, t, dst);
    var s2 := Sync(AddTo(s1, t, dst).0, t, dst);
    assert s2.threads == Placed(s, t, dst).threads;
    assert s2.ready == NewList(s, t, dst, Ready);
    assert s2.suspend == NewList(s, t, dst, Suspend);
  }

  lemma SwitchPlaces(s: State, t: Tid, dst: Status)
    requires s.work.Some? && t !in ListOf(s, dst) && Waiting(At(s.threads, t).status) && Waiting(dst)
    requires At(s.threads, t).status != dst && (t == IDLE ==> dst == Ready)
    ensures Switch(SetTo(s, t, dst), t) == (Placed(s, t, dst), true)
  {
    assert Detach(SetTo(s, t, dst), t) == SetTo(Detach(s, t), t, dst);
    JoinPlaces(s, SetTo(Detach(s, t), t, dst), t, dst);
  }

  lemma SwitchRefuses(s: State, t: Tid, dst: Status)
    requires t in s.threads && At(s.threads, t).toStatus == Unset
    requires At(s.threads, t).status == dst || (t == IDLE && dst != Ready && dst != Running)
    ensures Switch(SetTo(s, t, dst), t) == (s, false)
  {
    assert Sync(SetTo(s, t, dst), t, At(s.threads, t).status).threads == s.threads;
  }

  /** Moving a waiting thread: refused or done, the invariant holds. */
  lemma MoveInv(s: State, t: Tid, dst: Status)
    requires Inv(s) && t in s.threads && s.work.Some?
    requires Waiting(At(s.threads, t).status) && Waiting(dst)
    ensures Switch(SetTo(s, t, dst), t) ==
            if At(s.threads, t).status == dst || (t == IDLE && dst != Ready) then (s, false) else (Placed(s, t, dst), true)
    ensures Inv(Switch(SetTo(s, t, dst), t).0)
  {
    assert ThreadOk(s, t);
    if At(s.threads, t).status == dst || (t == IDLE && dst != Ready) {
      SwitchRefuses(s, t, dst);
    } else {
      assert t !in ListOf(s, dst) by { InvLists(s, dst); }
      SwitchPlaces(s, t, dst);
      PlacedInv(s, t, dst);
    }
  }

  // ---------------------------------------------------------------------------
  // Switching away from the running thread

  /** The first ready thread runs, the thread that ran goes to the list of `dst`. */
  function Yielded(s: State, dst: Status): State
    requires s.ready != [] && s.work.Some?
  {
    Placed(Reinstall(s), s.work.value, dst)
  }

  lemma ReinstallSets(s: State, t: Tid, dst: Status)
    requires s.ready != [] && t != s.ready[0] && At(s.threads, s.ready[0]).status == Ready
    ensures Reinstall(SetTo(s, t, dst)) == SetTo(Reinstall(s), t, dst)
  {
    assert Reinstall(SetTo(s, t, dst)).threads == SetTo(Reinstall(s), t, dst).threads;
  }

  lemma SwitchYields(s: State, dst: Status)
    requires s.ready != [] && s.work.Some? && s.work.value != s.ready[0]
    requires At(s.threads, s.ready[0]).status == Ready && At(s.threads, s.work.value).status == Running
    requires Waiting(dst) && s.work.value !in ListOf(s, dst) && (s.work.value == IDLE ==> dst == Ready)
    ensures Switch(SetTo(s, s.work.value, dst), s.work.value) == (Yielded(s, dst), true)
  {
    var t, r := s.work.value, Reinstall(s);
    ReinstallSets(s, t, dst);
    WithoutMember(s.ready, s.ready[0]);
    assert Detach(r, t) == r;
    JoinPlaces(r, SetTo(r, t, dst), t, dst);
  }

  lemma ReinstallList(s: State, st: Status)
    requires s.ready != [] && Waiting(st) && ListFine(s, st) && At(s.threads, s.ready[0]).status == Ready
    ensures ListFine(Reinstall(s), st)
  {
    var n, r := s.ready[0], Reinstall(s);
    if st == Ready {
      ListLeft(s.threads, r.threads, s.ready, Ready, n);
      WithoutMember(s.ready, n);
    } else {
      ListUntouched(s.threads, r.threads, ListOf(s, st), st, n);
    }
  }

  lemma ReinstallLists(s: State)
    requires Inv(s) && s.ready != []
    ensures At(s.threads, s.ready[0]).status == Ready
    ensures ListFine(Reinstall(s), Ready) && ListFine(Reinstall(s), Suspend) && ListFine(Reinstall(s), Sleep)
  {
    assert s.ready[0] in s.ready;
    InvLists(s, Ready);
    InvLists(s, Suspend);
    InvLists(s, Sleep);
    ReinstallList(s, Ready);
    ReinstallList(s, Suspend);
    ReinstallList(s, Sleep);
  }

  lemma YieldedInv(s: State, dst: Status)
    requires Inv(s) && s.ready != [] && s.work.Some?
    requires Waiting(dst) && (s.work.value == IDLE ==> dst == Ready)
    ensures Inv(Yielded(s, dst))
  {
    var t, s' := s.work.value, Yielded(s, dst);
    assert s.ready[0] in s.ready && ThreadOk(s, t) && ThreadOk(s, s.ready[0]);
    assert ListsOk(s') by { ReinstallLists(s); PlacedLists(Reinstall(s), t, dst); }
    forall u | u in s'.threads ensures ThreadOk(s', u) { assert ThreadOk(s, u); }
  }

  /** The first schedule: the first ready thread runs. */
  lemma FirstRun(s: State)
    requires Inv(s) && s.ready != [] && s.work.None?
    ensures ScheduleThread(s) == (Reinstall(s).(started := true), true)
    ensures Inv(Reinstall(s).(started := true))
  {
    var t, s' := s.ready[0], Reinstall(s).(started := true);
    assert t in s.ready && ThreadOk(s, t);
    assert ScheduleThread(s).0.threads == s'.threads;
    assert ListsOk(s') by { ReinstallLists(s); }
    forall u | u in s'.threads ensures ThreadOk(s', u) { assert ThreadOk(s, u); }
  }

  /** Changing the request of the running thread. */
  lemma TouchInv(s: State, t: Tid, dst: Status)
    requires Inv(s) && s.work == Some(t) && (dst == Unset || dst == Suspend || dst == Sleep)
    ensures Inv(SetTo(s, t, dst))
  {
    var s' := SetTo(s, t, dst);
    assert ListsOk(s') by {
      ListUntouched(s.threads, s'.threads, s.ready, Ready, t);
      ListUntouched(s.threads, s'.threads, s.suspend, Suspend, t);
      ListUntouched(s.threads, s'.threads, s.sleep, Sleep, t);
    }
    forall u | u in s'.threads ensures ThreadOk(s', u) { assert ThreadOk(s, u); }
  }

  /** Every outcome of a schedule. */
  lemma ScheduleIs(s: State)
    requires Inv(s)
    ensures Inv(ScheduleThread(s).0)
    ensures ScheduleThread(s) ==
      if s.ready == [] then (s, false)
      else if s.work.None? then (Reinstall(s).(started := true), true)
      else
        var t := s.work.value;
        var dst := Asked(At(s.threads, t));
        if t == IDLE && dst != Ready then (SetTo(s, t, Unset), false) else (Yielded(s, dst), true)
  {
    if s.ready == [] {
    } else if s.work.None? {
      FirstRun(s);
    } else {
      var t := s.work.value;
      assert ThreadOk(s, t);
      var dst := Asked(At(s.threads, t));
      var s0 := if At(s.threads, t).toStatus == Unset then SetTo(s, t, Ready) else s;
      assert s0 == SetTo(s, t, dst) by { assert s0.threads == SetTo(s, t, dst).threads; }
      if t == IDLE && dst != Ready {
        assert Sync(s0, t, Running).threads == SetTo(s, t, Unset).threads;
        TouchInv(s, t, Unset);
      } else {
        assert At(s.threads, s.ready[0]).status == Ready && t !in ListOf(s, dst) by {
          assert s.ready[0] in s.ready;
          InvLists(s, dst);
        }
        SwitchYields(s, dst);
        YieldedInv(s, dst);
      }
    }
  }

  // ---------------------------------------------------------------------------
  // Whole runs

  /** A new thread, at the place its priority gives it in the ready list. */
  function Registered(s: State, t: Tid, prio: nat): State {
    var threads' := s.threads[t := Thread(prio, Ready, Unset, s.clock)];
    s.(threads := threads', ready := Insert(threads', s.ready, t), clock := s.clock + 1)
  }

  lemma RegisterIs(s: State, t: Tid, prio: nat)
    requires t !in s.threads && t !in s.ready
    ensures Apply(s, Register(t, prio, true)) == Registered(s, t, prio)
  {
    var s0, s' := Update(s, t, Thread(prio, Unset, Unset, 0)), Registered(s, t, prio);
    InsertSame(s0.threads, s'.threads, s.ready, t);
    AddToList(s0, t, Ready);
    assert Sync(AddTo(s0, t, Ready).0, t, Ready).threads == s'.threads;
  }

  lemma RegisteredInv(s: State, t: Tid, prio: nat)
    requires Inv(s) && t < MAX_THREADS && t !in s.threads
    ensures Inv(Registered(s, t, prio))
  {
    var s' := Registered(s, t, prio);
    assert ListsOk(s') by {
      InvLists(s, Ready);
      ListEntered(s.threads, s'.threads, s.ready, Ready, t);
      ListUntouched(s.threads, s'.threads, s.suspend, Suspend, t);
      ListUntouched(s.threads, s'.threads, s.sleep, Sleep, t);
    }
    forall u | u in s'.threads ensures ThreadOk(s', u) { if u != t { assert ThreadOk(s, u); } }
  }

  /** What a call comes to: nothing, a new request, a new thread, a move between two lists, or a
      change of the running thread. */
  function Effect(s: State, op: Op): State
    requires Enabled(s, op)
  {
    match op
    case Register(t, prio, stack) => if t in s.threads || !stack then s else Registered(s, t, prio)
    case Request(dst) => SetTo(s, s.work.value, dst)
    case Schedule =>
      if s.ready == [] then s
      else if s.work.None? then Reinstall(s).(started := true)
      else if s.work.value == IDLE && Asked(At(s.threads, IDLE)) != Ready then SetTo(s, IDLE, Unset)
      else Yielded(s, Asked(At(s.threads, s.work.value)))
    case Move(t, dst) => if At(s.threads, t).status == dst || t == IDLE then s else Placed(s, t, dst)
    case Wakeup(t) =>
      if At(s.threads, t).status != Suspend && At(s.threads, t).status != Sleep then s else Placed(s, t, Ready)
  }

  /** Every call has its closed effect and keeps every thread in exactly one place, the lists in
      order and idle awake. */
  lemma StepInv(s: State, op: Op)
    requires Inv(s) && Enabled(s, op)
    ensures Inv(Apply(s, op)) && Apply(s, op) == Effect(s, op)
  {
    match op
    case Register(t, prio, stack) => if t !in s.threads && stack { RegisterIs(s, t, prio); RegisteredInv(s, t, prio); }
    case Request(dst) => TouchInv(s, s.work.value, dst);
    case Schedule => ScheduleIs(s);
    case Move(t, dst) =>
      assert ThreadOk(s, t);
      MoveInv(s, t, dst);
    case Wakeup(t) =>
      assert ThreadOk(s, t);
      if At(s.threads, t).status == Suspend || At(s.threads, t).status == Sleep { MoveInv(s, t, Ready); }
  }

  ghost predicate IsRun(states: seq<State>, ops: seq<Op>) {
    && |states| == |ops| + 1
    && forall k: nat | k < |ops| :: StepAt(states, ops, k)
  }

  ghost predicate StepAt(states: seq<State>, ops: seq<Op>, k: nat)
    requires |states| == |ops| + 1 && k < |ops|
  {
    Enabled(states[k], ops[k]) && states[k + 1] == Apply(states[k], ops[k])
  }

  lemma {:induction false} RunInv(states: seq<State>, ops: seq<Op>, k: nat)
    requires IsRun(states, ops) && Inv(states[0]) && k <= |ops|
    ensures Inv(states[k])
  {
    if 0 < k {
      RunInv(states, ops, k - 1);
      assert StepAt(states, ops, k - 1);
      StepInv(states[k - 1], ops[k - 1]);
    }
  }

  lemma BootInv()
    ensures Inv(BOOT)
  {
  }
}
