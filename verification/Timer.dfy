/** The timer's pending events as values: insertion, scanning, re-arming, and what holds over whole runs. */
module TimerSpec {

  /** The successive results of getNowMs. */
  type Clock = nat -> int

  ghost predicate Monotone(clock: Clock) {
    forall i: nat, j: nat :: i <= j ==> clock(i) <= clock(j)
  }

  /** The fields of a TimeEvent. */
  datatype Info = Info(arrive: int, interval: int, repeated: bool, cancelled: bool)

  /** One element of the multimap m_pending_events. */
  datatype Entry<E> = Entry(key: int, event: E)

  /** The one-shot kernel timer: when it was last set, and for when. */
  datatype Arming = Disarmed | Armed(setAt: int, deadline: int)

  /** The timer, the events it may hold, and how often the clock has been read. */
  datatype State<E(==)> = State(pending: seq<Entry<E>>, info: map<E, Info>, arming: Arming, ticks: nat)

  /** multimap::emplace puts a new entry behind all entries with the same key. */
  function Insert<E>(pending: seq<Entry<E>>, e: Entry<E>): seq<Entry<E>> {
    if pending == [] || e.key < pending[0].key then [e] + pending
    else [pending[0]] + Insert(pending[1..], e)
  }

  predicate Known<E>(st: State<E>) {
    forall e <- st.pending :: e.event in st.info
  }

  /** The delay resetArriveTime asks for. */
  function Delay(arrive: int, now: int): int {
    if arrive > now then arrive - now else 100
  }

  function Rearm<E>(st: State<E>, clock: Clock): State<E>
    requires Known(st)
  {
    if st.pending == [] then st
    else
      var now := clock(st.ticks);
      st.(arming := Armed(now, now + Delay(st.info[st.pending[0].event].arrive, now)), ticks := st.ticks + 1)
  }

  function Add<E>(st: State<E>, event: E, clock: Clock): State<E>
    requires Known(st) && event in st.info
  {
    var first := st.pending == [] || st.info[st.pending[0].event].arrive > st.info[event].arrive;
    InsertContents(st.pending, Entry(st.info[event].arrive, event));
    var st' := st.(pending := Insert(st.pending, Entry(st.info[event].arrive, event)));
    if first then Rearm(st', clock) else st'
  }

  /** How many entries at the front are due. */
  function DueCount<E>(pending: seq<Entry<E>>, now: int): (k: nat)
    ensures k <= |pending|
    ensures forall i :: 0 <= i < k ==> pending[i].key <= now
    ensures k < |pending| ==> pending[k].key > now
  {
    if pending == [] || pending[0].key > now then 0 else 1 + DueCount(pending[1..], now)
  }

  /** The entries of events that are not cancelled. */
  function Live<E>(es: seq<Entry<E>>, info: map<E, Info>): seq<Entry<E>>
    requires forall e <- es :: e.event in info
  {
    if es == [] then []
    else (if info[es[0].event].cancelled then [] else [es[0]]) + Live(es[1..], info)
  }

  /** resetArriveTime of an event. */
  function Restarted<E>(st: State<E>, event: E, clock: Clock): State<E>
    requires event in st.info
  {
    st.(info := st.info[event := st.info[event].(arrive := clock(st.ticks) + st.info[event].interval)],
        ticks := st.ticks + 1)
  }

  /** Puts the repeating events back, in order. */
  function ReAdd<E>(st: State<E>, fired: seq<Entry<E>>, clock: Clock): (st': State<E>)
    requires Known(st) && forall e <- fired :: e.event in st.info
    ensures Known(st') && st'.info.Keys == st.info.Keys
    decreases |fired|
  {
    if fired == [] then st
    else if !st.info[fired[0].event].repeated then ReAdd(st, fired[1..], clock)
    else
      var st1 := Restarted(st, fired[0].event, clock);
      AddKnown(st1, fired[0].event, clock);
      ReAdd(Add(st1, fired[0].event, clock), fired[1..], clock)
  }

  /** What one onTimer call fires. */
  function Fired<E>(st: State<E>, clock: Clock): seq<Entry<E>>
    requires Known(st)
  {
    Live(st.pending[..DueCount(st.pending, clock(st.ticks))], st.info)
  }

  function Popped<E>(st: State<E>, clock: Clock): State<E>
    requires Known(st)
  {
    st.(pending := st.pending[DueCount(st.pending, clock(st.ticks))..], ticks := st.ticks + 1)
  }

  function OnTimer<E>(st: State<E>, clock: Clock): State<E>
    requires Known(st)
  {
    LiveContents(st.pending[..DueCount(st.pending, clock(st.ticks))], st.info);
    Rearm(ReAdd(Popped(st, clock), Fired(st, clock), clock), clock)
  }

  // ---- The multimap ----

  predicate Sorted<E>(pending: seq<Entry<E>>) {
    forall i, j :: 0 <= i < j < |pending| ==> pending[i].key <= pending[j].key
  }

  lemma {:induction false} InsertContents<E>(pending: seq<Entry<E>>, e: Entry<E>)
    ensures multiset(Insert(pending, e)) == multiset(pending) + multiset{e}
    ensures |Insert(pending, e)| == |pending| + 1
    ensures e in Insert(pending, e) && forall x <- pending :: x in Insert(pending, e)
    ensures forall x <- Insert(pending, e) :: x == e || x in pending
  {
    if !(pending == [] || e.key < pending[0].key) {
      InsertContents(pending[1..], e);
      assert pending == [pending[0]] + pending[1..];
    }
  }

  /** The index at which an entry with that key goes in. */
  function InsertAt<E>(pending: seq<Entry<E>>, key: int): (k: nat)
    ensures k <= |pending|
    ensures forall i :: 0 <= i < k ==> pending[i].key <= key
    ensures k < |pending| ==> key < pending[k].key
  {
    if pending == [] || key < pending[0].key then 0 else 1 + InsertAt(pending[1..], key)
  }

  lemma {:induction false} InsertSplices<E>(pending: seq<Entry<E>>, e: Entry<E>)
    ensures var k := InsertAt(pending, e.key);
            Insert(pending, e) == pending[..k] + [e] + pending[k..]
  {
    var k := InsertAt(pending, e.key);
    if k > 0 {
      InsertSplices(pending[1..], e);
      assert [pending[0]] + (pending[1..][..k - 1] + [e] + pending[1..][k - 1..])
          == pending[..k] + [e] + pending[k..];
    } else {
      assert [e] + pending == pending[..0] + [e] + pending[0..];
    }
  }

  /** Insertion keeps the map sorted and goes behind every entry with the same key. */
  lemma InsertSorted<E>(pending: seq<Entry<E>>, e: Entry<E>)
    requires Sorted(pending)
    ensures Sorted(Insert(pending, e))
    ensures var k := InsertAt(pending, e.key);
            forall i :: k <= i < |pending| ==> e.key < pending[i].key
  {
    hide Insert, InsertAt;
    InsertSplices(pending, e);
  }

  lemma {:induction false} LiveContents<E>(es: seq<Entry<E>>, info: map<E, Info>)
    requires forall e <- es :: e.event in info
    ensures forall x <- Live(es, info) :: x in es && !info[x.event].cancelled
    ensures forall x <- es :: !info[x.event].cancelled ==> x in Live(es, info)
  {
    if es != [] {
      LiveContents(es[1..], info);
      assert es == [es[0]] + es[1..];
    }
  }

  /** Firing keeps the order of the map, entry by entry. */
  lemma {:induction false} LiveAppend<E>(a: seq<Entry<E>>, b: seq<Entry<E>>, info: map<E, Info>)
    requires forall e <- a + b :: e.event in info
    ensures (forall e <- a :: e.event in info) && (forall e <- b :: e.event in info)
    ensures Live(a + b, info) == Live(a, info) + Live(b, info)
  {
    forall e | e in a ensures e in a + b {}
    forall e | e in b ensures e in a + b {}
    if a == [] {
      assert a + b == b;
    } else {
      var rest := a[1..];
      forall e | e in rest ensures e in a {}
      assert a == [a[0]] + rest && a + b == [a[0]] + (rest + b);
      LiveAppend(rest, b, info);
      LiveCons(a[0], rest, info);
      LiveCons(a[0], rest + b, info);
    }
  }

  lemma LiveCons<E>(e: Entry<E>, es: seq<Entry<E>>, info: map<E, Info>)
    requires e.event in info && forall x <- es :: x.event in info
    ensures forall x <- [e] + es :: x.event in info
    ensures Live([e] + es, info) == (if info[e.event].cancelled then [] else [e]) + Live(es, info)
  {
    assert ([e] + es)[1..] == es;
  }

  lemma LiveNothing<E>(info: map<E, Info>)
    ensures Live([], info) == []
  {
  }

  lemma LiveNext<E>(es: seq<Entry<E>>, k: nat, info: map<E, Info>)
    requires k < |es| && es[k].event in info && forall e <- es[..k] :: e.event in info
    ensures forall e <- es[..k + 1] :: e.event in info
    ensures Live(es[..k + 1], info) == Live(es[..k], info) + (if info[es[k].event].cancelled then [] else [es[k]])
  {
    assert es[..k + 1] == es[..k] + [es[k]];
    LiveAppend(es[..k], [es[k]], info);
    assert Live([es[k]], info) == (if info[es[k].event].cancelled then [] else [es[k]]) + Live([], info);
  }

  lemma ReAddNext<E>(st: State<E>, es: seq<Entry<E>>, k: nat, clock: Clock)
    requires Known(st) && k < |es| && forall e <- es :: e.event in st.info
    ensures var st1 := Restarted(st, es[k].event, clock);
            && (st.info[es[k].event].repeated ==>
                  Known(st1) && Known(Add(st1, es[k].event, clock))
                  && Add(st1, es[k].event, clock).info.Keys == st.info.Keys)
            && ReAdd(st, es[k..], clock)
            == ReAdd(if st.info[es[k].event].repeated then Add(st1, es[k].event, clock) else st, es[k + 1..], clock)
  {
    assert es[k..][0] == es[k] && es[k..][1..] == es[k + 1..];
    var st1 := Restarted(st, es[k].event, clock);
    AddKnown(st1, es[k].event, clock);
  }

  lemma ReAddNothing<E>(st: State<E>, clock: Clock)
    requires Known(st)
    ensures ReAdd(st, [], clock) == st
  {
  }

  lemma RestartedKnown<E>(st: State<E>, event: E, clock: Clock)
    requires Known(st) && event in st.info
    ensures Known(Restarted(st, event, clock))
  {
  }

  lemma FiredKnown<E>(st: State<E>, clock: Clock)
    requires Known(st)
    ensures Known(Popped(st, clock)) && forall e <- Fired(st, clock) :: e.event in st.info
  {
    LiveContents(st.pending[..DueCount(st.pending, clock(st.ticks))], st.info);
  }

  /** Seconds and nanoseconds of a delay in milliseconds. */
  datatype Timespec = Timespec(sec: int, nsec: int)

  function ToTimespec(interval: nat): Timespec {
    Timespec(interval / 1000, interval % 1000 * 1000000)
  }

  /** When a timespec expires, in whole milliseconds. */
  function Millis(ts: Timespec): int {
    ts.sec * 1000 + ts.nsec / 1000000
  }

  /** The delay asked for is positive; its timespec is exact and normalised, and gives the delay back. */
  lemma TimespecExact(arrive: int, now: int)
    ensures Delay(arrive, now) > 0
    ensures var ts := ToTimespec(Delay(arrive, now));
            && 0 <= ts.nsec < 1000000000 && ts.sec * 1000000000 + ts.nsec == Delay(arrive, now) * 1000000
            && Millis(ts) == Delay(arrive, now)
  {
  }

  lemma AddKnown<E>(st: State<E>, event: E, clock: Clock)
    requires Known(st) && event in st.info
    ensures Known(Add(st, event, clock)) && Add(st, event, clock).info == st.info
    ensures Add(st, event, clock).pending == Insert(st.pending, Entry(st.info[event].arrive, event))
    ensures st.ticks <= Add(st, event, clock).ticks
  {
    var e := Entry(st.info[event].arrive, event);
    InsertContents(st.pending, e);
    forall x | x in Insert(st.pending, e)
      ensures x.event in st.info
    {
      assert x in multiset(Insert(st.pending, e));
    }
    assert Add(st, event, clock).pending == Insert(st.pending, e);
  }

  // ---- What holds between two calls ----

  ghost predicate Distinct<E>(pending: seq<Entry<E>>) {
    forall i, j :: 0 <= i < j < |pending| ==> pending[i].event != pending[j].event
  }

  predicate Keyed<E>(st: State<E>) {
    Known(st) && forall e <- st.pending :: e.key == st.info[e.event].arrive
  }

  /** Keys are the events' arrival times in order, and no event is pending twice. */
  ghost predicate Ordered<E>(st: State<E>) {
    Keyed(st) && Sorted(st.pending) && Distinct(st.pending)
  }

  /** Armed for the first arrival if that was still ahead when it was set, else for 100 ms after it was set. */
  predicate Awake(arming: Arming, first: int) {
    arming.Armed? && arming.deadline == if arming.setAt < first then first else arming.setAt + 100
  }

  /** Besides the order, no lost wake-up: while events are pending the kernel timer is armed. */
  ghost predicate Valid<E>(st: State<E>) {
    Ordered(st) && (st.pending != [] ==> Awake(st.arming, st.pending[0].key))
  }

  ghost predicate Pending<E>(st: State<E>, event: E) {
    exists e <- st.pending :: e.event == event
  }

  lemma RearmValid<E>(st: State<E>, clock: Clock)
    requires Ordered(st)
    ensures Valid(Rearm(st, clock))
    ensures st.pending == [] ==> Rearm(st, clock) == st
    ensures st.pending != [] ==> Rearm(st, clock).arming.Armed? && Rearm(st, clock).arming.setAt == clock(st.ticks)
  {
    if st.pending != [] {
      assert st.pending[0] in st.pending;
    }
  }

  lemma InsertDistinct<E>(pending: seq<Entry<E>>, e: Entry<E>)
    requires Distinct(pending) && forall x <- pending :: x.event != e.event
    ensures Distinct(Insert(pending, e))
  {
    InsertSplices(pending, e);
  }

  lemma AddOrdered<E>(st: State<E>, event: E, clock: Clock)
    requires Ordered(st) && event in st.info && !Pending(st, event)
    ensures Ordered(Add(st, event, clock))
    ensures Add(st, event, clock).info == st.info && st.ticks <= Add(st, event, clock).ticks
    ensures Entry(st.info[event].arrive, event) in Add(st, event, clock).pending
    ensures forall x <- st.pending :: x in Add(st, event, clock).pending
    ensures forall x <- Add(st, event, clock).pending :: x == Entry(st.info[event].arrive, event) || x in st.pending
  {
    var e := Entry(st.info[event].arrive, event);
    AddKnown(st, event, clock);
    InsertContents(st.pending, e);
    InsertSorted(st.pending, e);
    InsertDistinct(st.pending, e);
  }

  /** Adding an event that is not pending keeps the timer valid, in particular awake for its arrival. The
      kernel's timer is left alone unless the event arrives before all others. */
  lemma AddValid<E>(st: State<E>, event: E, clock: Clock)
    requires Valid(st) && event in st.info && !Pending(st, event)
    ensures Valid(Add(st, event, clock))
    ensures var st' := Add(st, event, clock);
            if st.pending != [] && st.pending[0].key <= st.info[event].arrive
            then st'.arming == st.arming && st'.ticks == st.ticks
            else st'.arming.Armed? && st'.arming.setAt == clock(st.ticks) && st'.ticks == st.ticks + 1
  {
    AddOrdered(st, event, clock);
    var e := Entry(st.info[event].arrive, event);
    if st.pending == [] || st.info[st.pending[0].event].arrive > e.key {
      RearmValid(st.(pending := Insert(st.pending, e)), clock);
    } else {
      assert st.pending[0] in st.pending;
      assert Insert(st.pending, e)[0] == st.pending[0];
    }
  }

  // ---- One scan ----

  lemma {:induction false} LiveSublist<E>(es: seq<Entry<E>>, info: map<E, Info>)
    requires forall e <- es :: e.event in info
    requires Sorted(es) && Distinct(es)
    ensures Sorted(Live(es, info)) && Distinct(Live(es, info))
  {
    if es != [] {
      var rest := es[1..];
      forall x | x in rest
        ensures x in es && es[0].key <= x.key && es[0].event != x.event
      {
        var i :| 0 <= i < |rest| && rest[i] == x;
        assert es[i + 1] == x;
      }
      LiveSublist(rest, info);
      LiveContents(rest, info);
      OrderCons(es[0], Live(rest, info));
      assert [] + Live(rest, info) == Live(rest, info);
    }
  }

  lemma OrderCons<E>(e: Entry<E>, es: seq<Entry<E>>)
    requires Sorted(es) && Distinct(es) && forall x <- es :: e.key <= x.key && e.event != x.event
    ensures Sorted([e] + es) && Distinct([e] + es)
  {
    var all := [e] + es;
    assert forall j :: 0 < j < |all| ==> all[j] == es[j - 1] && es[j - 1] in es;
  }

  /** The repeating events among the fired ones. */
  function Repeating<E>(fired: seq<Entry<E>>, info: map<E, Info>): set<E>
    requires forall f <- fired :: f.event in info
  {
    if fired == [] then {}
    else (if info[fired[0].event].repeated then {fired[0].event} else {}) + Repeating(fired[1..], info)
  }

  /** An event that comes back is due its interval after a reading taken meanwhile. */
  ghost predicate Comeback(before: Info, after: Info, clock: Clock, from: nat, to: nat) {
    && after == before.(arrive := after.arrive)
    && exists k: nat :: from <= k < to && after.arrive == clock(k) + before.interval
  }

  lemma ComebackBounds(before: Info, after: Info, clock: Clock, from: nat, to: nat)
    requires Comeback(before, after, clock, from, to) && Monotone(clock)
    ensures from < to && clock(from) + before.interval <= after.arrive <= clock(to - 1) + before.interval
  {
  }

  lemma ComebackWidens(before: Info, after: Info, clock: Clock, from: nat, to: nat, from': nat, to': nat)
    requires Comeback(before, after, clock, from, to) && from' <= from && to <= to'
    ensures Comeback(before, after, clock, from', to')
  {
    var k: nat :| from <= k < to && after.arrive == clock(k) + before.interval;
    assert from' <= k < to';
  }

  /** st' is st with the events of back pending again, and nothing else changed but the clock. */
  ghost predicate ReAdded<E>(st: State<E>, back: set<E>, st': State<E>, clock: Clock) {
    && Ordered(st') && st'.info.Keys == st.info.Keys && back <= st.info.Keys && st.ticks <= st'.ticks
    && (forall x <- st'.pending :: x in st.pending || (x.event in back && x.key == st'.info[x.event].arrive))
    && (forall x <- st.pending :: x in st'.pending)
    && (forall e <- back :: Entry(st'.info[e].arrive, e) in st'.pending)
    && (forall e <- back :: Comeback(st.info[e], st'.info[e], clock, st.ticks, st'.ticks))
    && (forall e <- st.info.Keys :: e !in back ==> st'.info[e] == st.info[e])
  }

  /** Restarting one event and adding it. */
  lemma ReAddedOne<E>(st: State<E>, event: E, clock: Clock)
    requires Ordered(st) && event in st.info && !Pending(st, event)
    ensures var st1 := Restarted(st, event, clock);
            Known(st1) && ReAdded(st, {event}, Add(st1, event, clock), clock)
  {
    var st1 := Restarted(st, event, clock);
    AddOrdered(st1, event, clock);
    assert st1.info[event].arrive == clock(st.ticks) + st.info[event].interval;
  }

  /** Bringing events back one after the other. */
  lemma ReAddedMore<E>(st: State<E>, event: E, st1: State<E>, back: set<E>, st': State<E>, clock: Clock)
    requires ReAdded(st, {event}, st1, clock) && ReAdded(st1, back, st', clock) && event !in back
    ensures ReAdded(st, {event} + back, st', clock)
  {
    hide Ordered, Comeback;
    assert st'.info[event] == st1.info[event];
    ComebackWidens(st.info[event], st'.info[event], clock, st.ticks, st1.ticks, st.ticks, st'.ticks);
    forall e | e in back
      ensures Comeback(st.info[e], st'.info[e], clock, st.ticks, st'.ticks)
    {
      assert st1.info[e] == st.info[e];
      ComebackWidens(st1.info[e], st'.info[e], clock, st1.ticks, st'.ticks, st.ticks, st'.ticks);
    }
  }

  lemma {:induction false} RepeatingContents<E>(fired: seq<Entry<E>>, info: map<E, Info>)
    requires forall f <- fired :: f.event in info
    ensures Repeating(fired, info) <= info.Keys
    ensures forall e <- Repeating(fired, info) :: e in info && info[e].repeated && exists f <- fired :: f.event == e
    ensures forall f <- fired :: info[f.event].repeated ==> f.event in Repeating(fired, info)
  {
    if fired != [] {
      RepeatingContents(fired[1..], info);
      assert fired == [fired[0]] + fired[1..];
      forall e | e in Repeating(fired[1..], info)
        ensures exists f <- fired :: f.event == e
      {
        var f :| f in fired[1..] && f.event == e;
        assert f in fired;
      }
      assert fired[0] in fired;
    }
  }

  lemma {:induction false} RepeatingSame<E>(fired: seq<Entry<E>>, info: map<E, Info>, info': map<E, Info>)
    requires forall f <- fired ::
               f.event in info && f.event in info' && info'[f.event].repeated == info[f.event].repeated
    ensures Repeating(fired, info') == Repeating(fired, info)
  {
    if fired != [] {
      RepeatingSame(fired[1..], info, info');
    }
  }

  lemma {:induction false} ReAddMeets<E>(st: State<E>, fired: seq<Entry<E>>, clock: Clock)
    requires Ordered(st)
    requires forall f <- fired :: f.event in st.info && !Pending(st, f.event)
    requires Distinct(fired)
    ensures ReAdded(st, Repeating(fired, st.info), ReAdd(st, fired, clock), clock)
    decreases |fired|
  {
    hide Ordered, Add, ReAdded;
    if fired == [] {
      NoneReAdded(st, clock);
    } else {
      var f := fired[0];
      var rest := fired[1..];
      forall g | g in rest
        ensures g in fired && g.event != f.event
      {
        var k :| 0 <= k < |rest| && rest[k] == g;
        assert fired[k + 1] == g;
      }
      if !st.info[f.event].repeated {
        ReAddMeets(st, rest, clock);
        assert {} + Repeating(rest, st.info) == Repeating(rest, st.info);
      } else {
        var st1 := Restarted(st, f.event, clock);
        ReAddedOne(st, f.event, clock);
        var st2 := Add(st1, f.event, clock);
        ReAddedFacts(st, f.event, st2, rest, clock);
        ReAddMeets(st2, rest, clock);
        RepeatingSame(rest, st.info, st2.info);
        RepeatingContents(rest, st.info);
        ReAddedMore(st, f.event, st2, Repeating(rest, st.info), ReAdd(st2, rest, clock), clock);
      }
    }
  }

  lemma NoneReAdded<E>(st: State<E>, clock: Clock)
    requires Ordered(st)
    ensures ReAdded(st, {}, st, clock)
  {
  }

  /** What the next event to come back may rely on. */
  lemma ReAddedFacts<E>(
    st: State<E>, event: E, st2: State<E>, rest: seq<Entry<E>>, clock: Clock)
    requires Ordered(st) && ReAdded(st, {event}, st2, clock)
    requires forall f <- rest :: f.event in st.info && !Pending(st, f.event) && f.event != event
    ensures Ordered(st2)
    ensures forall f <- rest :: f.event in st2.info && !Pending(st2, f.event) && st2.info[f.event] == st.info[f.event]
  {
    hide Ordered;
  }

  lemma SortedSplit<E>(p: seq<Entry<E>>, now: int, x: Entry<E>)
    requires Sorted(p)
    ensures var k := DueCount(p, now);
            && (x in p[..k] <==> x in p && x.key <= now)
            && (x in p[k..] <==> x in p && x.key > now)
  {
    var k := DueCount(p, now);
    assert x in p[..k] ==> x in p;
    assert x in p[k..] ==> x in p;
    if x in p {
      var i :| 0 <= i < |p| && p[i] == x;
      if i < k {
        assert p[..k][i] == x;
      } else {
        assert p[k..][i - k] == x;
        assert p[k].key <= p[i].key;
      }
    }
    if x in p[k..] {
      var i :| 0 <= i < |p| - k && p[k..][i] == x;
      assert p[k].key <= p[k + i].key;
    }
  }

  lemma PartsApart<E>(p: seq<Entry<E>>, k: nat, x: Entry<E>, y: Entry<E>)
    requires k <= |p| && Distinct(p) && x in p[..k] && y in p[k..]
    ensures x.event != y.event
  {
    var i :| 0 <= i < k && p[i] == x;
    var j :| 0 <= j < |p| - k && p[k..][j] == y;
    assert p[k + j] == y;
  }

  lemma PartsOrdered<E>(p: seq<Entry<E>>, k: nat)
    requires k <= |p| && Sorted(p) && Distinct(p)
    ensures Sorted(p[..k]) && Distinct(p[..k]) && Sorted(p[k..]) && Distinct(p[k..])
  {
  }

  /** Cutting the pending entries where they stop being due. */
  lemma PoppedSplit<E>(st: State<E>, clock: Clock)
    requires Ordered(st)
    ensures var now := clock(st.ticks);
            var due := st.pending[..DueCount(st.pending, now)];
            && Ordered(Popped(st, clock)) && Sorted(due) && Distinct(due)
            && (forall x <- due :: x in st.pending && x.key <= now)
            && (forall x <- Popped(st, clock).pending :: x in st.pending && x.key > now)
            && (forall x <- st.pending :: if x.key <= now then x in due else x in Popped(st, clock).pending)
            && (forall x <- due :: !Pending(Popped(st, clock), x.event))
  {
    hide Sorted, Distinct;
    var now := clock(st.ticks);
    var k := DueCount(st.pending, now);
    PartsOrdered(st.pending, k);
    forall x | x in st.pending
      ensures if x.key <= now then x in st.pending[..k] else x in st.pending[k..]
    {
      SortedSplit(st.pending, now, x);
    }
    forall x | x in st.pending[..k]
      ensures x in st.pending && x.key <= now
    {
      SortedSplit(st.pending, now, x);
    }
    forall x | x in st.pending[k..]
      ensures x in st.pending && x.key > now
    {
      SortedSplit(st.pending, now, x);
    }
    forall x, y | x in st.pending[..k] && y in st.pending[k..]
      ensures x.event != y.event
    {
      PartsApart(st.pending, k, x, y);
    }
  }

  lemma RearmKeeps<E>(st: State<E>, back: set<E>, st': State<E>, clock: Clock)
    requires ReAdded(st, back, st', clock)
    ensures Known(st') && ReAdded(st, back, Rearm(st', clock), clock)
  {
    hide Comeback, Sorted, Distinct;
    var st1 := Rearm(st', clock);
    forall e | e in back
      ensures Comeback(st.info[e], st1.info[e], clock, st.ticks, st1.ticks)
    {
      ComebackWidens(st.info[e], st'.info[e], clock, st.ticks, st'.ticks, st.ticks, st1.ticks);
    }
  }

  /** The partition made by one onTimer call. The entries due by the time of the scan are exactly those the
      scan takes out; those of them not cancelled are fired, in order of arrival; what stays pending is the
      rest and the fired repeating events, each due its interval after a reading taken during the scan; and
      the timer is left valid. */
  lemma OnTimerPartition<E>(st: State<E>, clock: Clock)
    requires Ordered(st)
    ensures Valid(OnTimer(st, clock))
    ensures var now := clock(st.ticks);
            var fired := Fired(st, clock);
            && (forall x <- fired :: x in st.pending && x.key <= now && !st.info[x.event].cancelled)
            && (forall x <- Popped(st, clock).pending :: x in st.pending && x.key > now)
            && (forall x <- st.pending ::
                  if x.key > now then x in Popped(st, clock).pending
                  else x in fired <==> !st.info[x.event].cancelled)
            && Sorted(fired) && Distinct(fired)
            && ReAdded(Popped(st, clock), Repeating(fired, st.info), OnTimer(st, clock), clock)
  {
    var now := clock(st.ticks);
    var due := st.pending[..DueCount(st.pending, now)];
    var fired := Fired(st, clock);
    hide Ordered, ReAdded, Valid, Sorted, Distinct, Rearm;
    PoppedSplit(st, clock);
    OrderedKnown(st);
    LiveSublist(due, st.info);
    LiveContents(due, st.info);
    var popped := Popped(st, clock);
    ReAddMeets(popped, fired, clock);
    var back := ReAdd(popped, fired, clock);
    ReAddedOrdered(popped, Repeating(fired, st.info), back, clock);
    RearmKeeps(popped, Repeating(fired, st.info), back, clock);
    RearmValid(back, clock);
  }

  lemma OnTimerValid<E>(st: State<E>, clock: Clock)
    requires Ordered(st)
    ensures Valid(OnTimer(st, clock))
  {
    OnTimerPartition(st, clock);
  }

  lemma OrderedKnown<E>(st: State<E>)
    requires Ordered(st)
    ensures Known(st)
  {
  }

  lemma ReAddedOrdered<E>(st: State<E>, back: set<E>, st': State<E>, clock: Clock)
    requires ReAdded(st, back, st', clock)
    ensures Ordered(st')
  {
  }
}
