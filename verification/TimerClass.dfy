/** The timer as objects: a clock, events that are updated in place, and the loops of onTimer. */
module Timers {
  import opened TimerSpec

  /** getNowMs: every call takes the next reading. */
  class SystemClock {
    const readings: Clock
    var taken: nat

    constructor (readings: Clock)
      ensures this.readings == readings && taken == 0
    {
      this.readings := readings;
      taken := 0;
    }

    method GetNowMs() returns (now: int)
      modifies this
      ensures now == readings(old(taken)) && taken == old(taken) + 1
    {
      now := readings(taken);
      taken := taken + 1;
    }
  }

  /** A task is named by a number; running it is recorded by whoever runs it. */
  type Task = nat

  class TimeEvent {
    var arriveTime: int
    const interval: int
    const isRepeated: bool
    var isCancel: bool
    const task: Task

    ghost function View(): Info
      reads this
    {
      Info(arriveTime, interval, isRepeated, isCancel)
    }

    constructor (interval: int, isRepeated: bool, task: Task, clock: SystemClock)
      modifies clock
      ensures View() == Info(clock.readings(old(clock.taken)) + interval, interval, isRepeated, false)
      ensures clock.taken == old(clock.taken) + 1 && this.task == task
    {
      this.interval, this.isRepeated, this.task, isCancel := interval, isRepeated, task, false;
      arriveTime := 0;
      new;
      ResetArriveTime(clock);
    }

    /** Whatever the argument, the event is cancelled. */
    method SetCancel(cancel: bool)
      modifies this`isCancel
      ensures View() == old(View()).(cancelled := true)
    {
      isCancel := true;
    }

    method ResetArriveTime(clock: SystemClock)
      modifies this`arriveTime, clock
      ensures View() == old(View()).(arrive := clock.readings(old(clock.taken)) + interval)
      ensures clock.taken == old(clock.taken) + 1
    {
      var now := clock.GetNowMs();
      arriveTime := now + interval;
    }
  }

  class Timer {
    var pending: seq<Entry<TimeEvent>>  // m_pending_events
    var arming: Arming                  // the kernel's one-shot timer
    const clock: SystemClock
    ghost var known: set<TimeEvent>     // the events this timer may hold

    ghost function Infos(): map<TimeEvent, Info>
      reads this`known, known
    {
      map e | e in known :: e.View()
    }

    ghost function View(): State<TimeEvent>
      reads this, clock, known
    {
      State(pending, Infos(), arming, clock.taken)
    }

    ghost predicate Good()
      reads this, clock, known
    {
      Ordered(View())
    }

    constructor (clock: SystemClock)
      ensures View() == State([], map[], Disarmed, clock.taken) && this.clock == clock && known == {}
      ensures Valid(View())
    {
      this.clock := clock;
      pending, arming, known := [], Disarmed, {};
    }

    method ResetArriveTime()
      requires Known(View())
      modifies this`arming, clock
      ensures View() == Rearm(old(View()), clock.readings)
    {
      if pending == [] {
        return;
      }
      var first := pending[0];
      assert first in View().pending;
      var now := clock.GetNowMs();
      var interval: nat := 0;
      if first.event.arriveTime > now {
        interval := first.event.arriveTime - now;
      } else {
        interval := 100;
      }
      var ts := Timespec(interval / 1000, interval % 1000 * 1000000);
      TimespecExact(first.event.arriveTime, now);
      SetTime(now, ts);
    }

    /** timerfd_settime with a relative first expiration and no repetition. */
    method SetTime(now: int, ts: Timespec)
      requires 0 <= ts.nsec < 1000000000
      modifies this`arming
      ensures arming == Armed(now, now + Millis(ts))
    {
      arming := Armed(now, now + Millis(ts));
    }

    method AddTimeEvent(event: TimeEvent)
      requires Known(View()) && event in known
      modifies this`pending, this`arming, clock
      ensures View() == Add(old(View()), event, clock.readings)
      ensures old(Valid(View())) && old(!Pending(View(), event)) ==> Valid(View())
    {
      hide Valid, Pending, Sorted, Distinct;
      AddKnown(View(), event, clock.readings);
      if Valid(View()) && !Pending(View(), event) {
        AddValid(View(), event, clock.readings);
      }
      var isResetTimerfd := false;
      if pending == [] {
        isResetTimerfd := true;
      } else {
        assert pending[0] in View().pending;
        if pending[0].event.arriveTime > event.arriveTime {
          isResetTimerfd := true;
        }
      }
      pending := Insert(pending, Entry(event.arriveTime, event));
      if isResetTimerfd {
        ResetArriveTime();
      }
    }

    /** Takes the due entries out; the tasks of the fired ones are run after the timer is armed again. */
    method OnTimer() returns (ran: seq<Task>)
      requires Good()
      modifies this`pending, this`arming, clock, known
      ensures View() == TimerSpec.OnTimer(old(View()), clock.readings)
      ensures ran == Tasks(Fired(old(View()), clock.readings))
      ensures Valid(View())
    {
      hide Ordered, ReAdd, Rearm, ReAdded, Valid, Monotone, Sorted, Distinct, Live, Tasks, DueCount;
      ghost var st := View();
      OrderedKnown(st);
      OnTimerValid(st, clock.readings);
      var now := clock.GetNowMs();
      var tmpEvents := CollectDue(now);
      FiredKnown(st, clock.readings);
      assert tmpEvents == Fired(st, clock.readings);
      assert View() == Popped(st, clock.readings);
      BringBack(tmpEvents);
      ResetArriveTime();
      ran := RunTasks(tmpEvents);
    }

    /** The first loop: drops the due entries and collects those that are not cancelled. */
    method CollectDue(now: int) returns (tmpEvents: seq<Entry<TimeEvent>>)
      requires Known(View())
      modifies this`pending
      ensures tmpEvents == Live(old(pending)[..DueCount(old(pending), now)], Infos())
      ensures pending == old(pending)[DueCount(old(pending), now)..]
    {
      hide Live;
      ghost var info := Infos();
      tmpEvents := [];
      LiveNothing(info);
      var it := 0;
      while it < |pending|
        invariant 0 <= it <= DueCount(pending, now)
        invariant forall e <- pending[..it] :: e.event in info
        invariant tmpEvents == Live(pending[..it], info)
        modifies {}
      {
        var entry := pending[it];
        if entry.key > now {
          break;
        }
        assert entry in View().pending;
        LiveNext(pending, it, info);
        if !entry.event.isCancel {
          tmpEvents := tmpEvents + [entry];
        }
        it := it + 1;
      }
      assert it == DueCount(pending, now);
      pending := pending[it..];
    }

    /** The second loop: restarts the repeating events and adds them again. */
    method BringBack(tmpEvents: seq<Entry<TimeEvent>>)
      requires Known(View()) && forall e <- tmpEvents :: e.event in known
      modifies this`pending, this`arming, clock, known
      ensures View() == ReAdd(old(View()), tmpEvents, clock.readings)
    {
      hide Add, Rearm, Known, ReAdd;
      ghost var st := View();
      assert tmpEvents[0..] == tmpEvents;
      for k := 0 to |tmpEvents|
        invariant Known(View())
        invariant ReAdd(View(), tmpEvents[k..], clock.readings) == ReAdd(st, tmpEvents, clock.readings)
      {
        ghost var before := View();
        var event := tmpEvents[k].event;
        ReAddNext(before, tmpEvents, k, clock.readings);
        if event.isRepeated {
          event.ResetArriveTime(clock);
          assert View() == Restarted(before, event, clock.readings);
          RestartedKnown(before, event, clock.readings);
          AddTimeEvent(event);
          AddKnown(Restarted(before, event, clock.readings), event, clock.readings);
        }
      }
      ReAddNothing(View(), clock.readings);
    }

    /** The last loop: runs the tasks. */
    method RunTasks(tmpEvents: seq<Entry<TimeEvent>>) returns (ran: seq<Task>)
      ensures ran == Tasks(tmpEvents)
    {
      ran := [];
      for k := 0 to |tmpEvents|
        invariant ran == Tasks(tmpEvents[..k])
      {
        ran := ran + [tmpEvents[k].event.task];
      }
      assert tmpEvents[..|tmpEvents|] == tmpEvents;
    }
  }

  function Tasks(fired: seq<Entry<TimeEvent>>): (ts: seq<Task>)
    ensures |ts| == |fired| && forall i :: 0 <= i < |fired| ==> ts[i] == fired[i].event.task
  {
    seq(|fired|, i requires 0 <= i < |fired| => fired[i].event.task)
  }
}
