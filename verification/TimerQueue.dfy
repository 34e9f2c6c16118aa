/** The global timer list and the tick handler that walks it. */
module TimerQueue {
  import opened Options
  import opened Sched
  import opened Sleep
  import SchedTable

  class TimerList {
    var jiffies: nat
    var timers: seq<Timer>

    constructor (start: nat)
      ensures jiffies == start && timers == []
    {
      jiffies, timers := start, [];
    }

    /** The counter and the list are those of the system `y`. */
    ghost predicate Shows(y: Sys)
      reads this
    {
      jiffies == y.jiffies && timers == y.timers
    }

    /** Link a timer at the tail; one that expires at zero is not linked. */
    method AddTimer(tm: Timer)
      modifies this`timers
      ensures timers == old(timers) + (if tm.expires == 0 then [] else [tm])
    {
      if tm.expires == 0 { return; }
      timers := timers + [tm];
    }

    /** The start of a delay of the running thread `t`: the timer it needs is linked, unless the delay is
        over at once. */
    method DelayMs(t: Tid, ms: nat, ghost y: Sys) returns (armed: bool)
      requires Good(y) && Shows(y) && EventOk(y, Delay(ms)) && y.s.work == Some(t)
      modifies this`timers
      ensures Shows(Next(y, Delay(ms))) && (armed <==> 0 < ms)
      ensures OneEach(timers) && (armed <==> exists tm :: tm in timers && tm.tid == t)
      ensures armed ==> forall tm | tm in timers && tm.tid == t :: tm.expires == jiffies + ms / 10 + 1
    {
      GoodStep(y, Delay(ms));
      if 0 < ms { JiffiesCover(ms); }
      var count := jiffies + MsecsToJiffies(ms);
      armed := count > jiffies;
      forall tm | tm in timers ensures tm.tid != t { assert TimerOk(y, tm); }
      if armed {
        AddTimer(Timer(t, count, jiffies, ms));
        assert timers[|timers| - 1].tid == t;
      }
    }

    /** The end of a delay: the walk finds the timer of the thread and unlinks it; no other timer moves. */
    method Delete(t: Tid, ghost y: Sys)
      requires OneEach(timers) && Shows(y) && EventOk(y, Finish) && y.s.work == Some(t)
      modifies this`timers
      ensures Shows(Next(y, Finish))
      ensures forall tm :: tm in timers <==> tm in old(timers) && tm.tid != t
    {
      DropMember(timers, t);
      var i := 0;
      while i < |timers|
        invariant i <= |timers| && timers == old(timers) && forall j | 0 <= j < i :: timers[j].tid != t
      {
        if timers[i].tid == t {
          DropAt(timers, t, i);
          timers := timers[..i] + timers[i + 1..];
          return;
        }
        i := i + 1;
      }
      DropAt(timers, t, i);
    }

    /** The tick interrupt: count, then walk the list and fire every timer that is due. */
    method Tick(table: SchedTable.SchedulerTable, locked: bool)
      requires table.Valid() && forall tm | tm in timers :: tm.tid in table.threads
      modifies this`jiffies, table
      ensures table.Valid() && jiffies == old(jiffies) + 1
      ensures table.Snapshot() ==
              if locked then old(table.Snapshot()) else FireAll(old(table.Snapshot()), timers, jiffies)
    {
      jiffies := jiffies + 1;
      ghost var start := table.Snapshot();
      var i := 0;
      while i < |timers|
        invariant i <= |timers| && jiffies == old(jiffies) + 1 && timers == old(timers)
        invariant table.Valid() && table.threads.Keys == start.threads.Keys
        invariant table.Snapshot() == if locked then start else FireAll(start, timers[..i], jiffies)
      {
        var tm := timers[i];
        assert timers[..i + 1][..i] == timers[..i] && tm in timers;
        if tm.expires != 0 && jiffies > tm.expires && !locked {
          if At(table.threads, tm.tid).status == Suspend {
            TimeoutEffect(table.Snapshot(), tm.tid, tm.tid);
            var _ := table.WakeupThread(tm.tid);
          }
        }
        i := i + 1;
      }
      assert timers[..i] == timers;
    }
  }
}
