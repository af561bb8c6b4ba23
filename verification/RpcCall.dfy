/** One remote call on the client: its callbacks, the timer that watches it, and how often its closure runs. */
module RpcCall {
  import opened TimerSpec
  import opened TimerRuns
  import Timers

  const ERROR_FAILED_DESERIALIZE: int := 10000003
  const ERROR_RPC_CALL_TIMEOUT: int := 10000007

  /** The controller's flags, which callbacks are outstanding, whether the read callback still holds its
      channel pointer, and how often the closure has run. */
  datatype Control = Control(
    hasClosure: bool, connecting: bool, writing: bool, reading: bool, channelHeld: bool,
    canceled: bool, failed: bool, errorCode: int, closureRuns: nat)

  function CallStarted(hasClosure: bool): Control {
    Control(hasClosure, true, false, false, true, false, false, 0, 0)
  }

  /** What the caller gets back: whether the response's bytes parse, and its error code. */
  datatype Answer = Answer(parses: bool, code: int)

  predicate Good(a: Answer) {
    a.parses && a.code == 0
  }

  function WithError(c: Control, code: int): Control {
    c.(errorCode := code, failed := true)
  }

  function ClosureRun(c: Control): Control {
    if c.hasClosure then c.(closureRuns := c.closureRuns + 1) else c
  }

  /** The task of the call's timer event. */
  function TimedOut(c: Control): Control {
    ClosureRun(WithError(c.(canceled := true), ERROR_RPC_CALL_TIMEOUT))
  }

  /** The connect callback; code is the client's error code, 0 for success. */
  function Connected(c: Control, code: int): Control {
    var d := c.(connecting := false);
    if code != 0 then WithError(d, code) else d.(writing := true)
  }

  function WriteDone(c: Control): Control {
    c.(writing := false, reading := true)
  }

  /** The read callback, apart from cancelling the timer event. It stays registered, but a good response
      makes it give up its channel pointer, which every later call of it goes through. */
  function Responded(c: Control, a: Answer): Control {
    if !a.parses then WithError(c, ERROR_FAILED_DESERIALIZE)
    else if a.code != 0 then WithError(c, a.code)
    else (if c.canceled then c else ClosureRun(c)).(channelHeld := false)
  }

  // ---- The callbacks on objects ----

  class RpcChannel {
    const hasClosure: bool
    const timerEvent: Timers.TimeEvent
    var connecting: bool
    var writing: bool
    var reading: bool
    var channelHeld: bool  // the read callback's captured channel is not null
    var isCanceled: bool   // of the controller
    var isFailed: bool
    var errorCode: int
    ghost var closureRuns: nat

    ghost function View(): Control
      reads this
    {
      Control(hasClosure, connecting, writing, reading, channelHeld, isCanceled, isFailed, errorCode, closureRuns)
    }

    constructor (hasClosure: bool, timerEvent: Timers.TimeEvent)
      ensures View() == CallStarted(hasClosure) && this.timerEvent == timerEvent
    {
      this.hasClosure, this.timerEvent := hasClosure, timerEvent;
      connecting, writing, reading, channelHeld := true, false, false, true;
      isCanceled, isFailed, errorCode, closureRuns := false, false, 0, 0;
    }

    method SetError(code: int)
      modifies this
      ensures View() == WithError(old(View()), code)
    {
      errorCode := code;
      isFailed := true;
    }

    method RunClosure()
      modifies this
      ensures View() == ClosureRun(old(View()))
    {
      if hasClosure {
        closureRuns := closureRuns + 1;
      }
    }

    /** Whatever happened before, the controller ends cancelled with the timeout error, and a closure that
        is there runs once more, after both are recorded. */
    method OnTimeout()
      modifies this
      ensures View() == TimedOut(old(View()))
      ensures isCanceled && isFailed && errorCode == 10000007
      ensures closureRuns == old(closureRuns) + (if hasClosure then 1 else 0)
      ensures connecting == old(connecting) && writing == old(writing) && reading == old(reading)
    {
      isCanceled := true;
      SetError(ERROR_RPC_CALL_TIMEOUT);
      RunClosure();
    }

    /** The request is written only if the connection stands; a failure is recorded, and the closure left to
        the timeout. */
    method OnConnect(code: int)
      modifies this
      ensures View() == Connected(old(View()), code)
      ensures code == 0 ==> writing && isFailed == old(isFailed) && errorCode == old(errorCode)
      ensures code != 0 ==> writing == old(writing) && isFailed && errorCode == code
      ensures closureRuns == old(closureRuns) && isCanceled == old(isCanceled)
    {
      connecting := false;
      if code != 0 {
        SetError(code);
        return;
      }
      writing := true;
    }

    method OnWritten()
      modifies this
      ensures View() == WriteDone(old(View()))
      ensures !writing && reading && connecting == old(connecting) && closureRuns == old(closureRuns)
      ensures isFailed == old(isFailed) && errorCode == old(errorCode) && isCanceled == old(isCanceled)
    {
      writing := false;
      reading := true;
    }

    /** The timer event is cancelled through the channel pointer, so the pointer must still be held. The
        closure runs on a good response to a call not cancelled, and a good response ends the pointer. */
    method OnResponse(a: Answer)
      requires channelHeld
      modifies this, timerEvent
      ensures View() == Responded(old(View()), a)
      ensures timerEvent.View() == old(timerEvent.View()).(cancelled := true)
      ensures channelHeld == !Good(a) && isCanceled == old(isCanceled)
      ensures closureRuns == old(closureRuns) + (if hasClosure && Good(a) && !isCanceled then 1 else 0)
      ensures !Good(a) ==> isFailed && errorCode == if a.parses then a.code else 10000003
      ensures Good(a) ==> isFailed == old(isFailed) && errorCode == old(errorCode)
    {
      timerEvent.SetCancel(true);
      if !a.parses {
        SetError(ERROR_FAILED_DESERIALIZE);
        return;
      }
      if a.code != 0 {
        SetError(a.code);
        return;
      }
      if !isCanceled {
        RunClosure();
      }
      channelHeld := false;
    }
  }

  // ---- The call among the other users of its event loop ----

  /** A call with its timer and the creation of its event. The history holds the number of runs of the timeout
      task and the responses delivered. undefined is the outcome of calling the read callback without its channel
      pointer. */
  datatype System<E(==)> = System(
    ctl: Control, run: Run<E>, event: E, birth: Birth, timeouts: nat, responses: seq<Answer>, undefined: bool)

  datatype Happening<E> =
    | Timer(step: Step<E>)
    | Connect(code: int)
    | Written
    | Response(a: Answer)

  /** CallMethod: creates the one-shot event with the controller's timeout and adds it to the timer. */
  function Begin<E>(r: Run<E>, event: E, timeout: int, hasClosure: bool, clock: Clock): System<E>
    requires Known(r.st) && event !in r.st.info && event !in r.added
  {
    var r1 := Next(r, Create(event, timeout, false), clock);
    System(CallStarted(hasClosure), Next(r1, AddEvent(event), clock), event,
           Birth(clock(r.st.ticks), timeout, false), 0, [], false)
  }

  /** Others create, add and cancel their own events; only the read callback cancels the call's. Nothing
      follows the undefined outcome. */
  predicate Possible<E>(s: System<E>, h: Happening<E>) {
    !s.undefined &&
    match h
    case Timer(step) => Enabled(s.run, step) && step != Cancel(s.event)
    case Connect(_) => s.ctl.connecting
    case Written => s.ctl.writing
    case Response(_) => s.ctl.reading && s.event in s.run.st.info
  }

  predicate Expires<E>(s: System<E>, step: Step<E>, clock: Clock)
    requires Known(s.run.st)
  {
    step.Scan? && exists f <- Fired(s.run.st, clock) :: f.event == s.event
  }

  function Happen<E>(s: System<E>, h: Happening<E>, clock: Clock): System<E>
    requires Known(s.run.st) && Possible(s, h)
  {
    match h
    case Timer(step) =>
      var run := Next(s.run, step, clock);
      if Expires(s, step, clock) then s.(run := run, ctl := TimedOut(s.ctl), timeouts := s.timeouts + 1)
      else s.(run := run)
    case Connect(code) => s.(ctl := Connected(s.ctl, code))
    case Written => s.(ctl := WriteDone(s.ctl))
    case Response(a) =>
      if !s.ctl.channelHeld then s.(undefined := true, responses := s.responses + [a])
      else s.(run := Next(s.run, Cancel(s.event), clock), ctl := Responded(s.ctl, a),
              responses := s.responses + [a])
  }

  predicate AnyGood(answers: seq<Answer>) {
    exists i :: 0 <= i < |answers| && Good(answers[i])
  }

  /** A response came after one that parsed and reported no error. */
  predicate GoodBeforeLast(answers: seq<Answer>) {
    exists i :: 0 <= i < |answers| - 1 && Good(answers[i])
  }

  /** The call's event is a one-shot event that was added; it is cancelled once a response came, and the
      controller is cancelled once it ran. The closure ran if the call timed out or a good response came. */
  ghost predicate CallInv<E>(s: System<E>, clock: Clock) {
    && Inv(s.run, clock)
    && s.event in s.run.st.info && s.event in s.run.added && !s.run.st.info[s.event].repeated
    && s.event in s.run.births && s.run.births[s.event] == s.birth
    && (s.responses != [] ==> s.run.st.info[s.event].cancelled)
    && s.timeouts == (if HasRun(s.run, s.event) then 1 else 0)
    && s.ctl.canceled == (s.timeouts == 1)
    && s.ctl.channelHeld == !AnyGood(s.responses)
    && s.undefined == GoodBeforeLast(s.responses)
    && s.ctl.closureRuns == (if s.ctl.hasClosure && (s.timeouts == 1 || AnyGood(s.responses)) then 1 else 0)
  }

  /** What any step of the timer leaves of an event's record. */
  lemma NextKeepsEvent<E>(r: Run<E>, step: Step<E>, clock: Clock, event: E)
    requires Inv(r, clock) && Enabled(r, step) && Monotone(clock) && event in r.st.info && event in r.added
    ensures Known(r.st)
    ensures var r' := Next(r, step, clock);
            && event in r'.st.info && event in r'.added
            && (event in r.births ==> event in r'.births && r'.births[event] == r.births[event])
            && r'.st.info[event].repeated == r.st.info[event].repeated
            && (r'.st.info[event].cancelled <==> r.st.info[event].cancelled || step == Cancel(event))
            && (HasRun(r', event) <==> HasRun(r, event) || (step.Scan? && Among(event, Fired(r.st, clock))))
  {
    hide Sorted, Distinct, OnTimer, Fired;
    match step {
      case Create(e, _, _) =>
      case AddEvent(e) => AddKnown(r.st, e, clock);
      case Cancel(e) =>
      case Scan =>
        OnTimerEffect(r.st, clock);
        var r' := Next(r, Scan, clock);
        FiresAmong(r, Fired(r.st, clock), r', clock(r.st.ticks), LastReading(r'.st, clock), event);
    }
  }

  lemma FiresAmong<E>(r: Run<E>, fired: seq<Entry<E>>, r': Run<E>, now: int, done: int, event: E)
    requires r'.fires == r.fires + Fires(fired, now, done)
    ensures HasRun(r', event) <==> HasRun(r, event) || Among(event, fired)
  {
    var n := |r.fires|;
    if HasRun(r', event) {
      var f :| f in r'.fires && f.event == event;
      var i :| 0 <= i < |r'.fires| && r'.fires[i] == f;
      if i < n {
        assert r.fires[i] in r.fires;
      } else {
        assert fired[i - n] in fired;
      }
    }
    if HasRun(r, event) {
      var f :| f in r.fires && f.event == event;
      assert f in r'.fires;
    }
    if Among(event, fired) {
      var f :| f in fired && f.event == event;
      var i :| 0 <= i < |fired| && fired[i] == f;
      assert r'.fires[n + i] in r'.fires;
    }
  }

  /** A scan runs a one-shot event's task only if it never ran and is not cancelled. */
  lemma FiresFresh<E>(r: Run<E>, clock: Clock, event: E)
    requires Inv(r, clock) && Monotone(clock)
    requires Known(r.st) && Among(event, Fired(r.st, clock))
    ensures event in r.st.info && !r.st.info[event].cancelled
    ensures !r.st.info[event].repeated ==> !HasRun(r, event)
  {
    OnTimerEffect(r.st, clock);
    hide Sorted, Distinct, Fired, OnTimer;
    var f :| f in Fired(r.st, clock) && f.event == event;
    assert f in r.st.pending;
    if HasRun(r, event) {
      var g :| g in r.fires && g.event == event;
    }
  }

  lemma BeginInv<E>(r: Run<E>, event: E, timeout: int, hasClosure: bool, clock: Clock)
    requires Inv(r, clock) && Monotone(clock) && event !in r.st.info && event !in r.added
    ensures Known(r.st) && CallInv(Begin(r, event, timeout, hasClosure, clock), clock)
    ensures Begin(r, event, timeout, hasClosure, clock).ctl.hasClosure == hasClosure
    ensures Begin(r, event, timeout, hasClosure, clock).responses == []
  {
    hide Inv, Next;
    CreateEnabled(r, event, timeout);
    StepInv(r, Create(event, timeout, false), clock);
    BeginFacts(r, event, timeout, clock);
    var r1 := Next(r, Create(event, timeout, false), clock);
    StepInv(r1, AddEvent(event), clock);
    AddedFacts(r1, event, clock);
  }

  lemma BeginFacts<E>(r: Run<E>, event: E, timeout: int, clock: Clock)
    requires Inv(r, clock) && event !in r.st.info && event !in r.added && Known(r.st)
    ensures var r1 := Next(r, Create(event, timeout, false), clock);
            && Enabled(r1, AddEvent(event)) && !r1.st.info[event].repeated && !HasRun(r1, event)
            && event in r1.births && r1.births[event] == Birth(clock(r.st.ticks), timeout, false)
  {
  }

  lemma CreateEnabled<E>(r: Run<E>, event: E, timeout: int)
    requires event !in r.st.info
    ensures Enabled(r, Create(event, timeout, false))
  {
  }

  lemma AddedFacts<E>(r: Run<E>, event: E, clock: Clock)
    requires Known(r.st) && Enabled(r, AddEvent(event))
    ensures var r' := Next(r, AddEvent(event), clock);
            r'.st.info == r.st.info && event in r'.added && r'.fires == r.fires && r'.births == r.births
  {
    AddKnown(r.st, event, clock);
  }

  lemma AnswerAdded(answers: seq<Answer>, a: Answer)
    ensures AnyGood(answers + [a]) <==> AnyGood(answers) || Good(a)
    ensures GoodBeforeLast(answers + [a]) <==> AnyGood(answers)
  {
    var next := answers + [a];
    assert forall i :: 0 <= i < |answers| ==> next[i] == answers[i];
    assert next[|answers|] == a;
  }

  /** Every callback and every step of the timer keeps the call's invariant. */
  lemma HappenInv<E>(s: System<E>, h: Happening<E>, clock: Clock)
    requires CallInv(s, clock) && Monotone(clock) && Possible(s, h)
    ensures Known(s.run.st) && CallInv(Happen(s, h, clock), clock)
    ensures Happen(s, h, clock).ctl.hasClosure == s.ctl.hasClosure
    ensures Happen(s, h, clock).event == s.event && Happen(s, h, clock).birth == s.birth
  {
    hide Inv, Next, HasRun, Fired, AnyGood, GoodBeforeLast;
    InvKnown(s.run, clock);
    NoAnswers();
    match h {
      case Timer(step) =>
        StepInv(s.run, step, clock);
        NextKeepsEvent(s.run, step, clock, s.event);
        if Expires(s, step, clock) {
          FiresFresh(s.run, clock, s.event);
        }
      case Connect(code) =>
      case Written =>
      case Response(a) =>
        AnswerAdded(s.responses, a);
        StepInv(s.run, Cancel(s.event), clock);
        NextKeepsEvent(s.run, Cancel(s.event), clock, s.event);
    }
  }

  lemma NoAnswers()
    ensures !AnyGood([]) && !GoodBeforeLast([])
  {
  }

  /** The happenings are possible one after the other and lead from s to s'. */
  ghost predicate Unfolds<E>(s: System<E>, hs: seq<Happening<E>>, clock: Clock, s': System<E>)
    decreases |hs|
  {
    if hs == [] then s' == s
    else Known(s.run.st) && Possible(s, hs[0]) && Unfolds(Happen(s, hs[0], clock), hs[1..], clock, s')
  }

  function AnswersIn<E>(hs: seq<Happening<E>>): seq<Answer> {
    if hs == [] then []
    else (if hs[0].Response? then [hs[0].a] else []) + AnswersIn(hs[1..])
  }

  lemma HappenAnswers<E>(s: System<E>, h: Happening<E>, clock: Clock)
    requires Known(s.run.st) && Possible(s, h)
    ensures Happen(s, h, clock).responses == s.responses + (if h.Response? then [h.a] else [])
  {
  }

  lemma {:induction false} UnfoldsInv<E>(s: System<E>, hs: seq<Happening<E>>, clock: Clock, s': System<E>)
    requires CallInv(s, clock) && Monotone(clock) && Unfolds(s, hs, clock, s')
    ensures CallInv(s', clock) && s'.ctl.hasClosure == s.ctl.hasClosure
    ensures s'.event == s.event && s'.birth == s.birth
    ensures s'.responses == s.responses + AnswersIn(hs)
    decreases |hs|
  {
    hide CallInv, Happen, Possible;
    if hs != [] {
      HappenInv(s, hs[0], clock);
      HappenAnswers(s, hs[0], clock);
      UnfoldsInv(Happen(s, hs[0], clock), hs[1..], clock, s');
    }
  }

  /** The closure runs at most once in every interleaving of timer activity, connection, write completion
      and any number of responses: exactly once if the call timed out or a response was good, else never. */
  lemma ClosureRunsExactly<E>(
    r: Run<E>, event: E, timeout: int, hs: seq<Happening<E>>, clock: Clock, s: System<E>)
    requires Inv(r, clock) && Monotone(clock) && event !in r.st.info && event !in r.added && Known(r.st)
    requires Unfolds(Begin(r, event, timeout, true, clock), hs, clock, s)
    ensures s.ctl.closureRuns == if s.timeouts > 0 || AnyGood(AnswersIn(hs)) then 1 else 0
    ensures s.timeouts <= 1 && (s.ctl.canceled <==> s.timeouts == 1)
  {
    hide Inv, Begin, AnyGood, GoodBeforeLast, Unfolds, HasRun;
    BeginInv(r, event, timeout, true, clock);
    UnfoldsInv(Begin(r, event, timeout, true, clock), hs, clock, s);
    assert [] + AnswersIn(hs) == AnswersIn(hs);
  }

  /** The call times out no earlier than its timeout after the reading taken when it was started: its event,
      if it ran, was due exactly then. */
  lemma TimeoutOnTime<E>(
    r: Run<E>, event: E, timeout: int, hasClosure: bool, hs: seq<Happening<E>>, clock: Clock, s: System<E>)
    requires Inv(r, clock) && Monotone(clock) && event !in r.st.info && event !in r.added && Known(r.st)
    requires Unfolds(Begin(r, event, timeout, hasClosure, clock), hs, clock, s)
    ensures s.timeouts == 1 <==> HasRun(s.run, event)
    ensures forall f <- s.run.fires :: f.event == event ==> f.due == clock(r.st.ticks) + timeout <= f.at
  {
    BeginInv(r, event, timeout, hasClosure, clock);
    UnfoldsInv(Begin(r, event, timeout, hasClosure, clock), hs, clock, s);
    hide Begin, Unfolds, AnyGood, GoodBeforeLast, HasRun, Next, Sound, Spaced, Silenced, Kept;
    forall f | f in s.run.fires && f.event == event
      ensures f.due == clock(r.st.ticks) + timeout <= f.at
    {
      var j :| 0 <= j < |s.run.fires| && s.run.fires[j] == f;
      assert DueRight(s.birth, s.run.fires[..j], event, f.due);
    }
  }

  /** The read callback goes through its released channel pointer exactly when a response arrives after a
      good one: it stays registered, but the pointer is gone. */
  lemma UndefinedIff<E>(
    r: Run<E>, event: E, timeout: int, hasClosure: bool, hs: seq<Happening<E>>, clock: Clock, s: System<E>)
    requires Inv(r, clock) && Monotone(clock) && event !in r.st.info && event !in r.added && Known(r.st)
    requires Unfolds(Begin(r, event, timeout, hasClosure, clock), hs, clock, s)
    ensures s.undefined <==> GoodBeforeLast(AnswersIn(hs))
  {
    hide Inv, Begin, AnyGood, GoodBeforeLast, Unfolds, HasRun;
    BeginInv(r, event, timeout, hasClosure, clock);
    UnfoldsInv(Begin(r, event, timeout, hasClosure, clock), hs, clock, s);
    assert [] + AnswersIn(hs) == AnswersIn(hs);
  }

  /** Such a run exists for every call: it connects, writes, and gets a good response and any other. */
  lemma SecondResponseUndefined<E>(
    r: Run<E>, event: E, timeout: int, hasClosure: bool, clock: Clock, second: Answer)
    returns (hs: seq<Happening<E>>, s: System<E>)
    requires Inv(r, clock) && Monotone(clock) && event !in r.st.info && event !in r.added && Known(r.st)
    ensures Unfolds(Begin(r, event, timeout, hasClosure, clock), hs, clock, s) && s.undefined
  {
    hide Inv, Next, AnyGood, GoodBeforeLast;
    BeginInv(r, event, timeout, hasClosure, clock);
    var s0 := Begin(r, event, timeout, hasClosure, clock);
    var h1: Happening<E>, h2: Happening<E> := Connect(0), Written;
    var h3: Happening<E>, h4: Happening<E> := Response(Answer(true, 0)), Response(second);
    HappenInv(s0, h1, clock);
    var s1 := Happen(s0, h1, clock);
    HappenInv(s1, h2, clock);
    var s2 := Happen(s1, h2, clock);
    HappenInv(s2, h3, clock);
    var s3 := Happen(s2, h3, clock);
    HappenInv(s3, h4, clock);
    s := Happen(s3, h4, clock);
    hs := [h1, h2, h3, h4];
    UnfoldsStep(s3, h4, [], clock, s);
    UnfoldsStep(s2, h3, [h4], clock, s);
    UnfoldsStep(s1, h2, [h3, h4], clock, s);
    UnfoldsStep(s0, h1, [h2, h3, h4], clock, s);
  }

  lemma UnfoldsStep<E>(s: System<E>, h: Happening<E>, rest: seq<Happening<E>>, clock: Clock, s': System<E>)
    requires Known(s.run.st) && Possible(s, h) && Unfolds(Happen(s, h, clock), rest, clock, s')
    ensures Unfolds(s, [h] + rest, clock, s')
  {
    assert ([h] + rest)[1..] == rest;
  }

  /** A closure run by the timeout finds the controller cancelled with the timeout error. */
  lemma TimeoutStep<E>(s: System<E>, clock: Clock, s': System<E>)
    requires Known(s.run.st) && Possible(s, Timer(Scan)) && Expires(s, Scan, clock)
    requires s' == Happen(s, Timer(Scan), clock)
    requires CallInv(s, clock) && Monotone(clock)
    ensures s'.ctl.canceled && s'.ctl.failed && s'.ctl.errorCode == ERROR_RPC_CALL_TIMEOUT
    ensures s.ctl.hasClosure ==> s'.ctl.closureRuns == 1
    ensures s.responses == []
  {
    HappenInv(s, Timer(Scan), clock);
    FiresFresh(s.run, clock, s.event);
    hide Inv, Next;
  }

  /** After a response the timeout task never runs again, whatever happens. */
  lemma {:induction false} NoTimeoutAfterResponse<E>(s: System<E>, hs: seq<Happening<E>>, clock: Clock, s': System<E>)
    requires CallInv(s, clock) && Monotone(clock) && s.responses != [] && Unfolds(s, hs, clock, s')
    ensures s'.timeouts == s.timeouts && s.responses <= s'.responses
    decreases |hs|
  {
    hide Inv, Next, Fired, AnyGood, GoodBeforeLast;
    if hs != [] {
      HappenInv(s, hs[0], clock);
      if hs[0].Timer? && Expires(s, hs[0].step, clock) {
        FiresFresh(s.run, clock, s.event);
      }
      NoTimeoutAfterResponse(Happen(s, hs[0], clock), hs[1..], clock, s');
    }
  }
}

/** What a call comes to, from the server's registry to the closure. */
module CallOutcomes {
  import opened TimerSpec
  import opened TimerRuns
  import opened RpcCall
  import Bytes
  import Pipeline
  import RpcDispatch
  import TinyPBFrame

  type Services = map<seq<Bytes.byte>, RpcDispatch.Service>

  type ReadDones = map<seq<Bytes.byte>, Pipeline.Callback>

  function AnswerTo(services: Services, request: TinyPBFrame.Message): TinyPBFrame.Message {
    TinyPBFrame.Sealed(RpcDispatch.ResponseOf(services, TinyPBFrame.Sealed(request)))
  }

  /** The read callback was called for the first of these messages, with their error codes. */
  predicate HeardFrom<E>(hs: seq<Happening<E>>, calls: seq<Pipeline.Call>) {
    && |AnswersIn(hs)| <= |calls|
    && forall i :: 0 <= i < |AnswersIn(hs)| ==> AnswersIn(hs)[i].code == calls[i].message.errorCode
  }

  lemma {:induction false} RoutedNone(readDones: ReadDones, ms: seq<TinyPBFrame.Message>)
    requires forall m <- ms :: m.msgId !in readDones
    ensures Pipeline.Routed(readDones, ms) == []
  {
    if ms != [] {
      RoutedNone(readDones, ms[1..]);
    }
  }

  lemma AnswerFacts(services: Services, request: TinyPBFrame.Message)
    ensures AnswerTo(services, request).errorCode == 0
    ensures AnswerTo(services, request).msgId
         == if RpcDispatch.Handled(services, TinyPBFrame.Sealed(request)) then TinyPBFrame.EffectiveId(request)
            else TinyPBFrame.DEFAULT_ID
  {
    RpcDispatch.ResponseCarriesIdIff(services, TinyPBFrame.Sealed(request), TinyPBFrame.EMPTY_MESSAGE);
    hide RpcDispatch.Handled, RpcDispatch.Answered, RpcDispatch.DispatchResult;
  }

  /** What reaches the read callback, however often the server sends its answer: nothing if the request did
      not reach the handler, and otherwise answers without an error code. */
  lemma HeardAnswers<E>(
    services: Services, request: TinyPBFrame.Message, readDones: ReadDones, arrived: seq<TinyPBFrame.Message>,
    hs: seq<Happening<E>>)
    requires TinyPBFrame.EffectiveId(request) in readDones && TinyPBFrame.DEFAULT_ID !in readDones
    requires forall m <- arrived :: m == AnswerTo(services, request)
    requires HeardFrom(hs, Pipeline.Routed(readDones, arrived))
    ensures !RpcDispatch.Handled(services, TinyPBFrame.Sealed(request)) ==> AnswersIn(hs) == []
    ensures forall i :: 0 <= i < |AnswersIn(hs)| ==> AnswersIn(hs)[i].code == 0
  {
    hide AnswerTo, RpcDispatch.Handled, AnswersIn;
    AnswerFacts(services, request);
    if RpcDispatch.Handled(services, TinyPBFrame.Sealed(request)) {
      Pipeline.RoutedAll(readDones, arrived);
      forall i | 0 <= i < |AnswersIn(hs)|
        ensures AnswersIn(hs)[i].code == 0
      {
        assert arrived[i] in arrived;
      }
    } else {
      RoutedNone(readDones, arrived);
    }
  }

  /** What becomes of a call, over every run of its client. If the request did not reach a handler, the read
      callback is never called and only the timeout runs the closure. If it did, the closure runs once if the
      call timed out or an answer was delivered whose bytes the client can parse. */
  lemma CallOutcome<E>(
    services: Services, request: TinyPBFrame.Message, readDones: ReadDones, arrived: seq<TinyPBFrame.Message>,
    r: Run<E>, event: E, timeout: int, hs: seq<Happening<E>>, clock: Clock, s: System<E>)
    requires TinyPBFrame.EffectiveId(request) in readDones && TinyPBFrame.DEFAULT_ID !in readDones
    requires forall m <- arrived :: m == AnswerTo(services, request)
    requires HeardFrom(hs, Pipeline.Routed(readDones, arrived))
    requires Inv(r, clock) && Monotone(clock) && event !in r.st.info && event !in r.added && Known(r.st)
    requires Unfolds(Begin(r, event, timeout, true, clock), hs, clock, s)
    ensures !RpcDispatch.Handled(services, TinyPBFrame.Sealed(request)) ==>
              AnswersIn(hs) == [] && s.ctl.closureRuns == s.timeouts && !s.undefined
    ensures RpcDispatch.Handled(services, TinyPBFrame.Sealed(request)) ==>
              s.ctl.closureRuns ==
                if s.timeouts > 0 || exists i :: 0 <= i < |AnswersIn(hs)| && AnswersIn(hs)[i].parses then 1 else 0
  {
    hide Inv, Begin, Unfolds, AnswersIn, AnswerTo, RpcDispatch.Handled, HeardFrom, Known;
    HeardAnswers(services, request, readDones, arrived, hs);
    ClosureRunsExactly(r, event, timeout, hs, clock, s);
    UndefinedIff(r, event, timeout, true, hs, clock, s);
  }
}
