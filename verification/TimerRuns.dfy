/** Safety of the timer over every run of event creation, addition, cancellation and scanning. */
module TimerRuns {
  import Bytes
  import opened TimerSpec

  /** A task run: the arrival time it was scheduled for, the clock reading of the scan that ran it, and the
      last reading taken by that scan. */
  datatype Fire<E> = Fire(event: E, due: int, at: int, done: int)

  /** An event's creation: the reading taken, and the interval and repetition asked for. */
  datatype Birth = Birth(at: int, interval: int, repeated: bool)

  datatype Step<E> =
    | Create(event: E, interval: int, repeated: bool)
    | AddEvent(event: E)
    | Cancel(event: E)
    | Scan

  /** A timer with its history: every task run so far, the events ever created and added, and how many tasks
      had run when an event was first cancelled. */
  datatype Run<E(==)> = Run(
    st: State<E>, fires: seq<Fire<E>>, births: map<E, Birth>, added: set<E>, muted: map<E, nat>)

  function Start<E>(): Run<E> {
    Run(State([], map[], Disarmed, 0), [], map[], {}, map[])
  }

  /** Events are created once, and added once. */
  predicate Enabled<E>(r: Run<E>, step: Step<E>) {
    match step
    case Create(e, _, _) => e !in r.st.info
    case AddEvent(e) => e in r.st.info && e !in r.added
    case Cancel(e) => e in r.st.info
    case Scan => true
  }

  function Fires<E>(entries: seq<Entry<E>>, now: int, done: int): (fs: seq<Fire<E>>)
    ensures |fs| == |entries|
    ensures forall i :: 0 <= i < |fs| ==> fs[i] == Fire(entries[i].event, entries[i].key, now, done)
  {
    seq(|entries|, i requires 0 <= i < |entries| => Fire(entries[i].event, entries[i].key, now, done))
  }

  /** The last reading taken before the timer came to that state. */
  function LastReading<E>(st: State<E>, clock: Clock): int {
    if st.ticks == 0 then clock(0) else clock(st.ticks - 1)
  }

  function Next<E>(r: Run<E>, step: Step<E>, clock: Clock): Run<E>
    requires Known(r.st) && Enabled(r, step)
  {
    match step
    case Create(e, interval, repeated) =>
      r.(st := r.st.(info := r.st.info[e := Info(clock(r.st.ticks) + interval, interval, repeated, false)],
                     ticks := r.st.ticks + 1),
          births := r.births[e := Birth(clock(r.st.ticks), interval, repeated)])
    case AddEvent(e) =>
      r.(st := Add(r.st, e, clock), added := r.added + {e})
    case Cancel(e) =>
      r.(st := r.st.(info := r.st.info[e := r.st.info[e].(cancelled := true)]),
         muted := if e in r.muted then r.muted else r.muted[e := |r.fires|])
    case Scan =>
      var st' := OnTimer(r.st, clock);
      r.(st := st', fires := r.fires + Fires(Fired(r.st, clock), clock(r.st.ticks), LastReading(st', clock)))
  }

  // ---- What every run keeps ----

  /** The timer is valid, only added events are pending, and cancelled means cancelled at a known point. */
  ghost predicate Sound<E>(r: Run<E>) {
    && Valid(r.st)
    && r.added <= r.st.info.Keys && r.muted.Keys <= r.st.info.Keys
    && (forall x <- r.st.pending :: x.event in r.added)
    && (forall e <- r.st.info.Keys :: r.st.info[e].cancelled <==> e in r.muted)
  }

  /** Tasks ran when due, for added events only, and before the next clock reading. */
  ghost predicate OnTime<E>(r: Run<E>, clock: Clock) {
    forall f <- r.fires :: f.event in r.added && f.due <= f.at <= clock(r.st.ticks)
  }

  /** An event that has run is pending again only if it repeats, and then at least its interval later. */
  ghost predicate Spaced<E>(r: Run<E>) {
    && (forall f <- r.fires, x <- r.st.pending :: f.event == x.event && x.event in r.st.info ==>
          r.st.info[x.event].repeated && x.key >= f.at + r.st.info[x.event].interval)
    && (forall i, j :: 0 <= i < j < |r.fires| && r.fires[i].event == r.fires[j].event
                       && r.fires[i].event in r.st.info ==>
          && r.st.info[r.fires[i].event].repeated
          && r.fires[j].at >= r.fires[i].at + r.st.info[r.fires[i].event].interval)
  }

  /** The index of an event's last run, or -1. */
  function Last<E(==)>(fires: seq<Fire<E>>, event: E): (i: int)
    ensures -1 <= i < |fires|
    ensures i >= 0 ==> fires[i].event == event
    ensures forall j :: i < j < |fires| ==> fires[j].event != event
  {
    if fires == [] then -1
    else if fires[|fires| - 1].event == event then |fires| - 1
    else Last(fires[..|fires| - 1], event)
  }

  /** When an event created so and run as in fires is due: its interval after its creation if it has not run,
      and after a reading of the scan that ran it last if it has. */
  predicate DueRight<E(==)>(birth: Birth, fires: seq<Fire<E>>, event: E, due: int) {
    var i := Last(fires, event);
    if i < 0 then due == birth.at + birth.interval
    else birth.repeated && fires[i].at + birth.interval <= due <= fires[i].done + birth.interval
  }

  /** Events keep the interval and repetition they were created with, and every arrival, past or pending, is
      the right one. */
  ghost predicate Timely<E>(r: Run<E>) {
    && r.births.Keys == r.st.info.Keys
    && (forall e <- r.births.Keys :: ArrivesRight(r, e))
    && RanRight(r.births, r.fires)
  }

  ghost predicate ArrivesRight<E>(r: Run<E>, e: E)
    requires e in r.births && e in r.st.info
  {
    && r.st.info[e].interval == r.births[e].interval && r.st.info[e].repeated == r.births[e].repeated
    && (r.births[e].repeated || Last(r.fires, e) < 0 ==> DueRight(r.births[e], r.fires, e, r.st.info[e].arrive))
  }

  ghost predicate RanRight<E>(births: map<E, Birth>, fires: seq<Fire<E>>) {
    forall j :: 0 <= j < |fires| ==>
      fires[j].event in births && DueRight(births[fires[j].event], fires[..j], fires[j].event, fires[j].due)
  }

  /** Nothing ran after it was cancelled. */
  ghost predicate Silenced<E>(r: Run<E>) {
    forall e <- r.muted.Keys ::
      && r.muted[e] <= |r.fires|
      && (forall i :: r.muted[e] <= i < |r.fires| ==> r.fires[i].event != e)
  }

  ghost predicate HasRun<E>(r: Run<E>, event: E) {
    exists f <- r.fires :: f.event == event
  }

  /** No added event is lost: it is pending, or cancelled, or a one-shot event that has run. */
  ghost predicate Kept<E>(r: Run<E>) {
    forall e <- r.added ::
      Pending(r.st, e) || e in r.muted || (e in r.st.info && !r.st.info[e].repeated && HasRun(r, e))
  }

  ghost predicate Core<E>(r: Run<E>, clock: Clock) {
    Sound(r) && OnTime(r, clock) && Spaced(r) && Silenced(r) && Kept(r)
  }

  ghost predicate Inv<E>(r: Run<E>, clock: Clock) {
    Core(r, clock) && Timely(r)
  }

  // ---- Scanning ----

  ghost predicate Among<E>(e: E, fired: seq<Entry<E>>) {
    exists f <- fired :: f.event == e
  }

  /** What a scan does to the pending entries: what remains was not due, or has just run and comes back. */
  ghost predicate ScanEffect<E>(st: State<E>, fired: seq<Entry<E>>, st': State<E>, now: int, done: int) {
    && Valid(st) && Valid(st') && st.ticks < st'.ticks && st'.info.Keys == st.info.Keys
    && (forall e <- st.info.Keys ::
          if Among(e, fired) && st.info[e].repeated
          then && st'.info[e] == st.info[e].(arrive := st'.info[e].arrive)
               && now + st.info[e].interval <= st'.info[e].arrive <= done + st.info[e].interval
          else st'.info[e] == st.info[e])
    && (forall f <- fired :: f in st.pending && f.key <= now && f.event in st.info && !st.info[f.event].cancelled)
    && Distinct(fired)
    && (forall x <- st'.pending :: x.event in st.info &&
          if Among(x.event, fired)
          then st.info[x.event].repeated && x.key >= now + st.info[x.event].interval
          else x in st.pending)
    && (forall x <- st.pending :: x.event in st.info &&
          (Pending(st', x.event)
           || (x.key <= now && st.info[x.event].cancelled)
           || (x in fired && !st.info[x.event].repeated)))
  }

  /** The entries a scan takes out are the due ones; those not cancelled are fired. */
  ghost predicate TakenOut<E>(st: State<E>, popped: State<E>, fired: seq<Entry<E>>, now: int) {
    && Known(st) && popped.info == st.info && popped.ticks == st.ticks + 1 && Distinct(fired)
    && (forall x <- fired :: x in st.pending && x.key <= now && x.event in st.info && !st.info[x.event].cancelled
                             && !Pending(popped, x.event))
    && (forall x <- popped.pending :: x in st.pending)
    && (forall x <- st.pending :: x in popped.pending || x in fired || (x.key <= now && st.info[x.event].cancelled))
  }

  lemma TakesOut<E>(st: State<E>, clock: Clock)
    requires Valid(st) && Monotone(clock)
    ensures TakenOut(st, Popped(st, clock), Fired(st, clock), clock(st.ticks))
  {
    OnTimerPartition(st, clock);
    PoppedSplit(st, clock);
    LiveContents(st.pending[..DueCount(st.pending, clock(st.ticks))], st.info);
    hide OnTimer, Live, DueCount, ReAdded, Sorted, Distinct, Repeating, Awake, Pending;
  }

  /** back are the events of the fired entries that repeat. */
  ghost predicate Repeats<E>(back: set<E>, fired: seq<Entry<E>>, info: map<E, Info>) {
    && (forall e <- back :: e in info && info[e].repeated && Among(e, fired))
    && (forall f <- fired :: f.event in info && (info[f.event].repeated ==> f.event in back))
  }

  lemma EffectOfParts<E>(
    st: State<E>, popped: State<E>, fired: seq<Entry<E>>, back: set<E>, st': State<E>, clock: Clock)
    requires Monotone(clock) && Valid(st) && TakenOut(st, popped, fired, clock(st.ticks))
    requires Repeats(back, fired, st.info) && Valid(st') && ReAdded(popped, back, st', clock)
    ensures ScanEffect(st, fired, st', clock(st.ticks), LastReading(st', clock))
  {
    hide Sorted, Awake, Distinct, Comeback;
    var now, done := clock(st.ticks), LastReading(st', clock);
    forall e | e in back
      ensures st'.info[e] == st.info[e].(arrive := st'.info[e].arrive)
      ensures now + st.info[e].interval <= st'.info[e].arrive <= done + st.info[e].interval
    {
      ComebackBounds(st.info[e], st'.info[e], clock, popped.ticks, st'.ticks);
      ComebackShape(st.info[e], st'.info[e], clock, popped.ticks, st'.ticks);
    }
    hide Valid, Ordered;
    forall x | x in st'.pending
      ensures x.event in st.info
      ensures if Among(x.event, fired)
              then st.info[x.event].repeated && x.key >= now + st.info[x.event].interval
              else x in st.pending
    {
      if x.event in back {
        assert x.key == st'.info[x.event].arrive by { KeyIsArrival(st', x); }
      } else {
        assert x in popped.pending;
      }
    }
    forall x | x in st.pending
      ensures Pending(st', x.event) || (x.key <= now && st.info[x.event].cancelled)
              || (x in fired && !st.info[x.event].repeated)
    {
      if x in popped.pending {
        assert x in st'.pending;
      } else if x in fired && st.info[x.event].repeated {
        assert Entry(st'.info[x.event].arrive, x.event) in st'.pending;
      }
    }
  }

  lemma KeyIsArrival<E>(st: State<E>, x: Entry<E>)
    requires Valid(st) && x in st.pending
    ensures x.event in st.info && x.key == st.info[x.event].arrive
  {
  }

  lemma ComebackShape(before: Info, after: Info, clock: Clock, from: nat, to: nat)
    requires Comeback(before, after, clock, from, to)
    ensures after == before.(arrive := after.arrive)
  {
  }

  /** One scan, as the runs see it. */
  lemma OnTimerEffect<E>(st: State<E>, clock: Clock)
    requires Valid(st) && Monotone(clock)
    ensures ScanEffect(st, Fired(st, clock), OnTimer(st, clock),
                       clock(st.ticks), LastReading(OnTimer(st, clock), clock))
  {
    OnTimerPartition(st, clock);
    TakesOut(st, clock);
    var fired := Fired(st, clock);
    RepeatingContents(fired, st.info);
    hide OnTimer, Fired, Popped, Sorted, Distinct, Repeating, Awake, ScanEffect, ReAdded, Pending;
    EffectOfParts(st, Popped(st, clock), fired, Repeating(fired, st.info), OnTimer(st, clock), clock);
  }

  ghost predicate ScanStep<E>(r: Run<E>, fired: seq<Entry<E>>, r': Run<E>, now: int, done: int) {
    && ScanEffect(r.st, fired, r'.st, now, done) && r'.fires == r.fires + Fires(fired, now, done)
    && r'.births == r.births && r'.added == r.added && r'.muted == r.muted
  }

  lemma ScanSound<E>(r: Run<E>, fired: seq<Entry<E>>, r': Run<E>, now: int, done: int)
    requires Sound(r) && ScanStep(r, fired, r', now, done)
    ensures Sound(r')
  {
    hide Valid;
    forall x | x in r'.st.pending
      ensures x.event in r'.added
    {
      if Among(x.event, fired) {
        var f :| f in fired && f.event == x.event;
        assert f in r.st.pending;
      }
    }
  }

  lemma ScanOnTime<E>(r: Run<E>, fired: seq<Entry<E>>, r': Run<E>, clock: Clock, done: int)
    requires Sound(r) && OnTime(r, clock) && Monotone(clock)
    requires ScanStep(r, fired, r', clock(r.st.ticks), done)
    ensures OnTime(r', clock)
  {
    hide Valid, Distinct;
    var n := |r.fires|;
    forall f | f in r'.fires
      ensures f.event in r'.added && f.due <= f.at <= clock(r'.st.ticks)
    {
      var i :| 0 <= i < |r'.fires| && r'.fires[i] == f;
      if i < n {
        assert r.fires[i] in r.fires;
      } else {
        assert fired[i - n] in fired;
      }
    }
  }

  lemma ScanSilenced<E>(r: Run<E>, fired: seq<Entry<E>>, r': Run<E>, now: int, done: int)
    requires Sound(r) && Silenced(r) && ScanStep(r, fired, r', now, done)
    ensures Silenced(r')
  {
    hide Valid, Distinct;
    var n := |r.fires|;
    forall e, i | e in r'.muted && r'.muted[e] <= i < |r'.fires|
      ensures r'.fires[i].event != e
    {
      if i >= n {
        assert fired[i - n] in fired;
      }
    }
  }

  /** An earlier task run leaves the event's present arrival at least an interval away. */
  lemma ScanSpaced<E>(r: Run<E>, fired: seq<Entry<E>>, r': Run<E>, clock: Clock, done: int)
    requires Sound(r) && OnTime(r, clock) && Spaced(r) && ScanStep(r, fired, r', clock(r.st.ticks), done)
    ensures Spaced(r')
  {
    hide Valid;
    var now := clock(r.st.ticks);
    var n := |r.fires|;
    forall f, x | f in r'.fires && x in r'.st.pending && f.event == x.event
      ensures x.event in r'.st.info && r'.st.info[x.event].repeated
      ensures x.key >= f.at + r'.st.info[x.event].interval
    {
      var i :| 0 <= i < |r'.fires| && r'.fires[i] == f;
      if i < n {
        assert r.fires[i] in r.fires;
      } else {
        assert fired[i - n] in fired;
      }
    }
    forall i, j | 0 <= i < j < |r'.fires| && r'.fires[i].event == r'.fires[j].event
      ensures r'.fires[i].event in r'.st.info && r'.st.info[r'.fires[i].event].repeated
      ensures r'.fires[j].at >= r'.fires[i].at + r'.st.info[r'.fires[i].event].interval
    {
      if j >= n {
        var g := fired[j - n];
        assert g in fired && g in r.st.pending;
        if i < n {
          assert r.fires[i] in r.fires;
        }
      } else {
        assert r.fires[i] in r.fires;
      }
    }
  }

  lemma LastIs<E>(fires: seq<Fire<E>>, event: E, i: int)
    requires -1 <= i < |fires| && (i >= 0 ==> fires[i].event == event)
    requires forall j :: i < j < |fires| ==> fires[j].event != event
    ensures Last(fires, event) == i
  {
    var l := Last(fires, event);
  }

  /** An event's last run after a scan: the scan's own, or the one before. */
  lemma LastAfter<E>(fires: seq<Fire<E>>, fired: seq<Entry<E>>, now: int, done: int, event: E)
    requires Distinct(fired)
    ensures var all := fires + Fires(fired, now, done);
            var i := Last(all, event);
            if Among(event, fired) then i >= |fires| && all[i].at == now && all[i].done == done
            else i == Last(fires, event) && (i >= 0 ==> all[i] == fires[i])
  {
    hide Last;
    var n, now_ := |fires|, Fires(fired, now, done);
    var all := fires + now_;
    assert forall j :: n <= j < |all| ==> all[j] == now_[j - n] && now_[j - n].event == fired[j - n].event;
    if Among(event, fired) {
      var k :| 0 <= k < |fired| && fired[k].event == event;
      LastIs(all, event, n + k);
    } else {
      assert forall k :: 0 <= k < |fired| ==> fired[k] in fired;
      LastIs(all, event, Last(fires, event));
    }
  }

  lemma ScanTimely<E>(r: Run<E>, fired: seq<Entry<E>>, r': Run<E>, now: int, done: int)
    requires Spaced(r) && Timely(r) && ScanStep(r, fired, r', now, done)
    ensures Timely(r')
  {
    forall e | e in r'.births
      ensures e in r'.st.info && ArrivesRight(r', e)
    {
      InfoDue(r, fired, r', now, done, e);
    }
    hide Valid, DueRight, Known, Last, ArrivesRight, RanRight, Among;
    forall k | 0 <= k < |fired|
      ensures fired[k].event in r.births
      ensures DueRight(r.births[fired[k].event], r.fires + Fires(fired[..k], now, done), fired[k].event, fired[k].key)
    {
      assert fired[k] in fired;
      HasRunRepeats(r, fired[k]);
      FiredDue(r, fired, k, now, done);
    }
    RanFurther(r.births, r.fires, fired, now, done);
  }

  lemma RanFurther<E>(births: map<E, Birth>, fires: seq<Fire<E>>, fired: seq<Entry<E>>, now: int, done: int)
    requires RanRight(births, fires)
    requires forall k :: 0 <= k < |fired| ==>
               && fired[k].event in births
               && DueRight(births[fired[k].event], fires + Fires(fired[..k], now, done), fired[k].event, fired[k].key)
    ensures RanRight(births, fires + Fires(fired, now, done))
  {
    hide DueRight;
    var all := fires + Fires(fired, now, done);
    forall j | 0 <= j < |all|
      ensures all[j].event in births && DueRight(births[all[j].event], all[..j], all[j].event, all[j].due)
    {
      if j < |fires| {
        assert all[..j] == fires[..j] && all[j] == fires[j];
      } else {
        assert all[..j] == fires + Fires(fired[..j - |fires|], now, done);
      }
    }
  }

  /** An event that has run and is pending repeats. */
  lemma HasRunRepeats<E>(r: Run<E>, x: Entry<E>)
    requires Spaced(r) && Timely(r) && x in r.st.pending && x.event in r.st.info
    ensures Last(r.fires, x.event) >= 0 ==> r.births[x.event].repeated
  {
    var i := Last(r.fires, x.event);
    if i >= 0 {
      assert r.fires[i] in r.fires;
    }
  }

  /** The arrival an event is left with by a scan. */
  lemma InfoDue<E>(r: Run<E>, fired: seq<Entry<E>>, r': Run<E>, now: int, done: int, e: E)
    requires Timely(r) && ScanStep(r, fired, r', now, done) && e in r.births
    ensures e in r'.births && e in r'.st.info && ArrivesRight(r', e)
  {
    assert ArrivesRight(r, e);
    hide RanRight, Spaced;
    hide Valid, Known;
    LastAfter(r.fires, fired, now, done, e);
  }

  /** The arrival of a fired event, seen at its place among the runs. */
  lemma FiredDue<E>(r: Run<E>, fired: seq<Entry<E>>, k: nat, now: int, done: int)
    requires Timely(r) && Valid(r.st) && Distinct(fired) && k < |fired|
    requires forall f <- fired :: f in r.st.pending && f.event in r.st.info
    requires fired[k].event in r.births
    requires Last(r.fires, fired[k].event) >= 0 ==> r.births[fired[k].event].repeated
    ensures DueRight(r.births[fired[k].event], r.fires + Fires(fired[..k], now, done), fired[k].event, fired[k].key)
  {
    hide Sorted, Awake;
    var e := fired[k].event;
    assert fired[k] in fired;
    KeyIsArrival(r.st, fired[k]);
    assert forall i :: 0 <= i < k ==> fired[..k][i].event != e;
    assert !Among(e, fired[..k]);
    LastAfter(r.fires, fired[..k], now, done, e);
  }

  lemma ScanKept<E>(r: Run<E>, fired: seq<Entry<E>>, r': Run<E>, now: int, done: int)
    requires Sound(r) && Kept(r) && ScanStep(r, fired, r', now, done)
    ensures Kept(r')
  {
    hide Valid, Distinct;
    forall e | e in r'.added
      ensures Pending(r'.st, e) || e in r'.muted || (e in r'.st.info && !r'.st.info[e].repeated && HasRun(r', e))
    {
      if Pending(r.st, e) {
        var x :| x in r.st.pending && x.event == e;
        if x in fired {
          var k :| 0 <= k < |fired| && fired[k] == x;
          assert r'.fires[|r.fires| + k].event == e;
          assert r'.fires[|r.fires| + k] in r'.fires;
        }
      } else if HasRun(r, e) {
        var f :| f in r.fires && f.event == e;
        assert f in r'.fires;
      }
    }
  }

  // ---- Every step, every run ----

  lemma ScanCore<E>(r: Run<E>, clock: Clock)
    requires Core(r, clock) && Monotone(clock)
    ensures Known(r.st) && Core(Next(r, Scan, clock), clock)
  {
    CoreKnown(r, clock);
    hide Sound, Valid, OnTime, Spaced, Silenced, Kept, ScanEffect, OnTimer, Fired;
    var fired := Fired(r.st, clock);
    OnTimerEffect(r.st, clock);
    var r' := Next(r, Scan, clock);
    var now, done := clock(r.st.ticks), LastReading(r'.st, clock);
    ScanSound(r, fired, r', now, done);
    ScanOnTime(r, fired, r', clock, done);
    ScanSpaced(r, fired, r', clock, done);
    ScanSilenced(r, fired, r', now, done);
    ScanKept(r, fired, r', now, done);
  }

  lemma CoreKnown<E>(r: Run<E>, clock: Clock)
    requires Core(r, clock)
    ensures Valid(r.st) && Known(r.st)
  {
  }

  lemma CoreSpaced<E>(r: Run<E>, clock: Clock)
    requires Core(r, clock)
    ensures Spaced(r)
  {
  }

  lemma AddCore<E>(r: Run<E>, e: E, clock: Clock)
    requires Core(r, clock) && Enabled(r, AddEvent(e)) && Monotone(clock)
    ensures Known(r.st) && Core(Next(r, AddEvent(e), clock), clock)
  {
    CoreKnown(r, clock);
    AddValid(r.st, e, clock);
    AddOrdered(r.st, e, clock);
    hide Valid, Ordered, Add, Sorted, Distinct;
    var r' := Next(r, AddEvent(e), clock);
    assert clock(r.st.ticks) <= clock(r'.st.ticks);
    assert Entry(r.st.info[e].arrive, e) in r'.st.pending;
    forall e' | e' in r.added && Pending(r.st, e')
      ensures Pending(r'.st, e')
    {
      var x :| x in r.st.pending && x.event == e';
      assert x in r'.st.pending;
    }
  }

  /** New events and changes that leave the arrival alone do not touch the map. */
  lemma InfoValid<E>(st: State<E>, e: E, i: Info, ticks: nat)
    requires Valid(st) && (e in st.info ==> i.arrive == st.info[e].arrive)
    ensures Valid(st.(info := st.info[e := i], ticks := ticks))
  {
    hide Sorted, Distinct;
  }

  /** r' differs from r at most in new events, more cancellations and later clock readings. */
  ghost predicate Extends<E>(r: Run<E>, r': Run<E>, clock: Clock) {
    && r'.fires == r.fires && r'.added == r.added && r'.st.pending == r.st.pending
    && r.muted.Keys <= r'.muted.Keys && clock(r.st.ticks) <= clock(r'.st.ticks)
    && r.st.info.Keys <= r'.st.info.Keys
    && forall e <- r.st.info.Keys :: r'.st.info[e] == r.st.info[e].(cancelled := r'.st.info[e].cancelled)
  }

  lemma ExtendsKeeps<E>(r: Run<E>, r': Run<E>, clock: Clock)
    requires Core(r, clock) && Extends(r, r', clock)
    ensures OnTime(r', clock) && Spaced(r') && Kept(r')
  {
    hide Valid, Silenced, Known;
    assert Spaced(r') by {
      hide OnTime, Kept, HasRun;
    }
    assert Kept(r') by {
      hide OnTime, Spaced;
    }
  }

  /** A new event has not run, and is due its interval after its creation. */
  lemma BirthTimely<E>(r: Run<E>, e: E, birth: Birth, r': Run<E>)
    requires Timely(r) && e !in r.st.info && r'.fires == r.fires && r'.births == r.births[e := birth]
    requires r'.st.info == r.st.info[e := Info(birth.at + birth.interval, birth.interval, birth.repeated, false)]
    ensures Timely(r')
  {
    hide DueRight, Last;
    NeverRun(birth, r.fires, e);
  }

  lemma NeverRun<E>(birth: Birth, fires: seq<Fire<E>>, e: E)
    requires forall j :: 0 <= j < |fires| ==> fires[j].event != e
    ensures Last(fires, e) < 0 && DueRight(birth, fires, e, birth.at + birth.interval)
  {
  }

  lemma SameTimely<E>(r: Run<E>, r': Run<E>)
    requires Timely(r) && r'.fires == r.fires && r'.births == r.births && r'.st.info.Keys == r.st.info.Keys
    requires forall e <- r.st.info.Keys :: r'.st.info[e] == r.st.info[e].(cancelled := r'.st.info[e].cancelled)
    ensures Timely(r')
  {
    hide DueRight, Last;
  }

  lemma CreateCore<E>(r: Run<E>, e: E, interval: int, repeated: bool, clock: Clock)
    requires Core(r, clock) && Enabled(r, Create(e, interval, repeated)) && Monotone(clock)
    ensures Known(r.st) && Core(Next(r, Create(e, interval, repeated), clock), clock)
  {
    CoreKnown(r, clock);
    InfoValid(r.st, e, Info(clock(r.st.ticks) + interval, interval, repeated, false), r.st.ticks + 1);
    hide Valid, Known, OnTime, Spaced, Kept;
    var r' := Next(r, Create(e, interval, repeated), clock);
    assert clock(r.st.ticks) <= clock(r'.st.ticks);
    ExtendsKeeps(r, r', clock);
  }

  lemma CancelCore<E>(r: Run<E>, e: E, clock: Clock)
    requires Core(r, clock) && Enabled(r, Cancel(e))
    ensures Known(r.st) && Core(Next(r, Cancel(e), clock), clock)
  {
    CoreKnown(r, clock);
    InfoValid(r.st, e, r.st.info[e].(cancelled := true), r.st.ticks);
    hide Valid, Known, OnTime, Spaced, Kept;
    ExtendsKeeps(r, Next(r, Cancel(e), clock), clock);
  }

  lemma InvKnown<E>(r: Run<E>, clock: Clock)
    requires Inv(r, clock)
    ensures Valid(r.st) && Known(r.st)
  {
    CoreKnown(r, clock);
  }

  lemma StepInv<E>(r: Run<E>, step: Step<E>, clock: Clock)
    requires Inv(r, clock) && Enabled(r, step) && Monotone(clock)
    ensures Known(r.st) && Inv(Next(r, step, clock), clock)
  {
    CoreKnown(r, clock);
    hide Core, Timely, Next, Known;
    match step {
      case Create(e, interval, repeated) =>
        CreateCore(r, e, interval, repeated, clock);
        CreateTimely(r, e, interval, repeated, clock);
      case AddEvent(e) =>
        AddCore(r, e, clock);
        AddTimely(r, e, clock);
      case Cancel(e) =>
        CancelCore(r, e, clock);
        CancelTimely(r, e, clock);
      case Scan =>
        ScanCore(r, clock);
        CoreSpaced(r, clock);
        NextTimely(r, clock);
    }
  }

  lemma CreateTimely<E>(r: Run<E>, e: E, interval: int, repeated: bool, clock: Clock)
    requires Timely(r) && Known(r.st) && Enabled(r, Create(e, interval, repeated))
    ensures Timely(Next(r, Create(e, interval, repeated), clock))
  {
    hide Timely;
    BirthTimely(r, e, Birth(clock(r.st.ticks), interval, repeated), Next(r, Create(e, interval, repeated), clock));
  }

  lemma AddTimely<E>(r: Run<E>, e: E, clock: Clock)
    requires Timely(r) && Known(r.st) && Enabled(r, AddEvent(e))
    ensures Timely(Next(r, AddEvent(e), clock))
  {
    AddKnown(r.st, e, clock);
    hide Timely, Add;
    SameTimely(r, Next(r, AddEvent(e), clock));
  }

  lemma CancelTimely<E>(r: Run<E>, e: E, clock: Clock)
    requires Timely(r) && Known(r.st) && Enabled(r, Cancel(e))
    ensures Timely(Next(r, Cancel(e), clock))
  {
    hide Timely;
    SameTimely(r, Next(r, Cancel(e), clock));
  }

  lemma NextTimely<E>(r: Run<E>, clock: Clock)
    requires Valid(r.st) && Spaced(r) && Timely(r) && Known(r.st) && Monotone(clock)
    ensures Timely(Next(r, Scan, clock))
  {
    hide Valid, OnTime, Spaced, Silenced, Kept, Timely, ScanEffect, OnTimer, Fired, Known;
    OnTimerEffect(r.st, clock);
    var r' := Next(r, Scan, clock);
    ScanTimely(r, Fired(r.st, clock), r', clock(r.st.ticks), LastReading(r'.st, clock));
  }

  /** The steps are allowed one after the other and lead from r to r'. */
  ghost predicate Leads<E>(r: Run<E>, steps: seq<Step<E>>, clock: Clock, r': Run<E>)
    decreases |steps|
  {
    if steps == [] then r' == r
    else Known(r.st) && Enabled(r, steps[0]) && Leads(Next(r, steps[0], clock), steps[1..], clock, r')
  }

  lemma {:induction false} RunInv<E>(r: Run<E>, steps: seq<Step<E>>, clock: Clock, r': Run<E>)
    requires Inv(r, clock) && Monotone(clock) && Leads(r, steps, clock, r')
    ensures Inv(r', clock)
    decreases |steps|
  {
    hide Inv, Next, Enabled;
    if steps != [] {
      StepInv(r, steps[0], clock);
      RunInv(Next(r, steps[0], clock), steps[1..], clock, r');
    }
  }

  lemma RunStart<E>(steps: seq<Step<E>>, clock: Clock, r: Run<E>)
    requires Monotone(clock) && Leads(Start(), steps, clock, r)
    ensures Inv(r, clock)
  {
    StartInv<E>(clock);
    RunInv(Start(), steps, clock, r);
  }

  /** Over every run no task runs before its event's arrival, a one-shot event runs at most once, the runs
      of a repeating event are at least its interval apart, and a cancelled event never runs again. */
  lemma RunSafety<E>(steps: seq<Step<E>>, clock: Clock, r: Run<E>)
    requires Monotone(clock) && Leads(Start(), steps, clock, r)
    ensures forall f <- r.fires :: f.due <= f.at && f.event in r.st.info
    ensures forall i, j :: 0 <= i < j < |r.fires| && r.fires[i].event == r.fires[j].event ==>
              var e := r.fires[i].event;
              e in r.st.info && r.st.info[e].repeated && r.fires[j].at >= r.fires[i].at + r.st.info[e].interval
    ensures forall e <- r.st.info.Keys :: r.st.info[e].cancelled ==>
              e in r.muted && forall i :: r.muted[e] <= i < |r.fires| ==> r.fires[i].event != e
  {
    RunStart(steps, clock, r);
    hide Valid;
    forall i | 0 <= i < |r.fires|
      ensures r.fires[i].event in r.st.info
    {
      assert r.fires[i] in r.fires;
    }
  }

  lemma BornStep<E>(r: Run<E>, step: Step<E>, clock: Clock, e: E)
    requires Inv(r, clock) && Known(r.st) && Enabled(r, step)
    ensures var births := Next(r, step, clock).births;
            && (e in r.births ==> e in births && births[e] == r.births[e])
            && (e !in r.births && e in births ==> step == Create(e, births[e].interval, births[e].repeated))
  {
    hide Core, OnTimer, Add, Fired;
  }

  lemma {:induction false} BornAsked<E>(r: Run<E>, steps: seq<Step<E>>, clock: Clock, r': Run<E>, e: E)
    requires Inv(r, clock) && Monotone(clock) && Leads(r, steps, clock, r')
    ensures e in r.births ==> e in r'.births && r'.births[e] == r.births[e]
    ensures e !in r.births && e in r'.births ==> Create(e, r'.births[e].interval, r'.births[e].repeated) in steps
    decreases |steps|
  {
    if steps != [] {
      BornStep(r, steps[0], clock, e);
      StepInv(r, steps[0], clock);
      hide Inv, Next, Known, Enabled;
      BornAsked(Next(r, steps[0], clock), steps[1..], clock, r', e);
      assert steps == [steps[0]] + steps[1..];
    }
  }

  /** When tasks run, over every run: an event's first run is due exactly its interval after the reading of
      its creation, and each later one exactly its interval after a reading of the scan that ran it before,
      hence between at and done of that run; so are the arrivals still pending. Intervals and repetition are
      those asked for at the creation. */
  lemma RunSchedule<E>(steps: seq<Step<E>>, clock: Clock, r: Run<E>)
    requires Monotone(clock) && Leads(Start(), steps, clock, r)
    ensures r.births.Keys == r.st.info.Keys
    ensures forall e <- r.births.Keys :: Create(e, r.births[e].interval, r.births[e].repeated) in steps
    ensures forall j :: 0 <= j < |r.fires| ==>
              var f, i := r.fires[j], Last(r.fires[..j], r.fires[j].event);
              && f.event in r.births && f.due <= f.at
              && var b := r.births[f.event];
                 if i < 0 then f.due == b.at + b.interval
                 else b.repeated && r.fires[i].at + b.interval <= f.due <= r.fires[i].done + b.interval
    ensures forall x <- r.st.pending ::
              && x.event in r.births
              && var b, i := r.births[x.event], Last(r.fires, x.event);
                 if i < 0 then x.key == b.at + b.interval
                 else b.repeated && r.fires[i].at + b.interval <= x.key <= r.fires[i].done + b.interval
  {
    RunStart(steps, clock, r);
    forall e | e in r.births
      ensures Create(e, r.births[e].interval, r.births[e].repeated) in steps
    {
      StartInv<E>(clock);
      BornAsked(Start(), steps, clock, r, e);
    }
    CoreKnown(r, clock);
    CoreSpaced(r, clock);
    hide Valid, Leads, Spaced, Kept, Silenced, Last;
    forall j | 0 <= j < |r.fires|
      ensures r.fires[j].due <= r.fires[j].at
    {
      assert r.fires[j] in r.fires;
    }
    forall x | x in r.st.pending
      ensures x.event in r.births && DueRight(r.births[x.event], r.fires, x.event, x.key)
    {
      KeyIsArrival(r.st, x);
      HasRunRepeats(r, x);
      assert ArrivesRight(r, x.event);
    }
  }

  lemma StartInv<E>(clock: Clock)
    ensures Inv<E>(Start(), clock)
  {
  }

  /** In every reachable state with pending events the kernel timer is armed: for the first arrival if that
      was still ahead when it was set, and otherwise for 100 ms after it was set. */
  lemma NoLostWakeup<E>(steps: seq<Step<E>>, clock: Clock, r: Run<E>)
    requires Monotone(clock) && Leads(Start(), steps, clock, r) && r.st.pending != []
    ensures var a, first := r.st.arming, r.st.pending[0].key;
            a.Armed? && a.deadline == if a.setAt < first then first else a.setAt + 100
    ensures forall x <- r.st.pending :: r.st.pending[0].key <= x.key
  {
    RunStart(steps, clock, r);
  }

  /** How late a task may run. If the scan comes within d of the deadline, it runs each task within d of its
      event's arrival, or, when the first arrival was already due as the timer was last set, within d of
      100 ms after that. */
  lemma Lateness<E>(steps: seq<Step<E>>, clock: Clock, r: Run<E>, d: nat)
    requires Monotone(clock) && Leads(Start(), steps, clock, r)
    requires r.st.arming.Armed? ==> clock(r.st.ticks) <= r.st.arming.deadline + d
    ensures Known(r.st)
    ensures forall x <- Fired(r.st, clock) ::
              && r.st.pending != [] && r.st.arming.Armed?
              && clock(r.st.ticks) <= (if r.st.arming.setAt < r.st.pending[0].key then x.key
                                       else r.st.arming.setAt + 100) + d
  {
    RunStart(steps, clock, r);
    CoreKnown(r, clock);
    hide Inv, Leads, Valid, Live, DueCount, Timely, Core;
    var now := clock(r.st.ticks);
    LiveContents(r.st.pending[..DueCount(r.st.pending, now)], r.st.info);
    forall x | x in Fired(r.st, clock)
      ensures x in r.st.pending && r.st.arming.Armed?
      ensures now <= (if r.st.arming.setAt < r.st.pending[0].key then x.key else r.st.arming.setAt + 100) + d
    {
      FirstIsLeast(r.st, x);
    }
  }

  /** Hence the time between two runs of a repeating event is bounded from above: its interval, the time the
      earlier scan took, and the lateness of the later one. */
  lemma NextRunBound<E>(steps: seq<Step<E>>, clock: Clock, r: Run<E>, d: nat, x: Entry<E>)
    requires Monotone(clock) && Leads(Start(), steps, clock, r)
    requires r.st.arming.Armed? ==> clock(r.st.ticks) <= r.st.arming.deadline + d
    requires Known(r.st) && x in Fired(r.st, clock) && x in r.st.pending && Last(r.fires, x.event) >= 0
    ensures r.st.arming.Armed? && x.event in r.births
    ensures clock(r.st.ticks) <= Bytes.Max(r.fires[Last(r.fires, x.event)].done + r.births[x.event].interval,
                                           r.st.arming.setAt + 100) + d
  {
    hide Leads, Fired, Last, Known;
    Lateness(steps, clock, r, d);
    RunSchedule(steps, clock, r);
  }

  lemma FirstIsLeast<E>(st: State<E>, x: Entry<E>)
    requires Valid(st) && x in st.pending
    ensures Awake(st.arming, st.pending[0].key) && st.pending[0].key <= x.key
  {
  }

  lemma FiredOnly<E>(st: State<E>, x: Entry<E>, clock: Clock)
    requires st.pending == [x] && x.event in st.info && !st.info[x.event].cancelled && x.key <= clock(st.ticks)
    ensures Fired(st, clock) == [x]
  {
    assert [x][1..] == [] && st.pending[..1] == [x];
    assert DueCount([x], clock(st.ticks)) == 1;
    assert Live([x], st.info) == [x] + Live([], st.info);
  }

  /** There is no such bound for an event that was already overdue when it was added: though the only scan
      comes right at the deadline, the task runs 100 ms and any time late. */
  lemma OverdueAddition<E>(e: E, late: nat) returns (steps: seq<Step<E>>, clock: Clock, r: Run<E>)
    ensures Monotone(clock) && Leads(Start(), steps, clock, r)
    ensures |r.fires| == 1 && r.fires[0].event == e && r.fires[0].due == 0 && r.fires[0].at == late + 100
  {
    hide Valid, Sorted, Distinct;
    clock := (i: nat) => if i == 0 then 0 else if i == 1 then late else late + 100;
    var create, add, scan := Create(e, 0, false), AddEvent(e), Scan;
    steps := [create, add, scan];
    assert steps[1..] == [add, scan] && steps[1..][1..] == [scan] && steps[1..][1..][1..] == [];
    var r1 := Next(Start(), create, clock);
    var r2 := Next(r1, add, clock);
    assert r2.st.pending == [Entry(0, e)];
    FiredOnly(r2.st, Entry(0, e), clock);
    r := Next(r2, scan, clock);
    assert Leads(r2, [scan], clock, r);
  }

  /** Over every run an event that was added and neither cancelled nor, being one-shot, run, is pending. */
  lemma NoLostEvent<E>(steps: seq<Step<E>>, clock: Clock, r: Run<E>, event: E)
    requires Monotone(clock) && Leads(Start(), steps, clock, r) && event in r.added
    ensures event in r.st.info
    ensures !r.st.info[event].cancelled && (r.st.info[event].repeated || !HasRun(r, event)) ==> Pending(r.st, event)
  {
    RunStart(steps, clock, r);
  }
}
