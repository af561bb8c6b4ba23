/** The event loop's task queue and its set of watched descriptors. */
module EventLoopSpec {
  type Fd = int
  type Thread = nat

  /** The epoll events of an FdEvent. */
  datatype Mask = Mask(input: bool, output: bool)

  /** What a queued callback does; Null is an empty std::function. */
  datatype Task = Watch(fd: Fd) | Unwatch(fd: Fd) | User(id: nat) | Null

  datatype Entry = Entry(thread: Thread, task: Task)

  /** An epoll_ctl call that was carried out. */
  datatype Executed = Added(fd: Fd, mask: Mask) | Deleted(fd: Fd)

  /** pending and batch are m_pending_tasks and tmp_tasks; kernel is epoll's interest set; masks holds each
      FdEvent's own events. queued and popped record every task ever enqueued and every task taken out, ran
      the user callbacks run, requests the Watch and Unwatch requests carried out, executed the successful
      epoll_ctl calls, failures the number of failed ones. */
  datatype Loop = Loop(
    pending: seq<Entry>, batch: seq<Entry>, queued: seq<Entry>, popped: seq<Entry>, ran: seq<nat>,
    listenFds: set<Fd>, kernel: map<Fd, Mask>, masks: map<Fd, Mask>,
    requests: seq<Task>, executed: seq<Executed>, failures: nat)

  const START := Loop([], [], [], [], [], {}, map[], map[], [], [], 0)

  function MaskOf(masks: map<Fd, Mask>, fd: Fd): Mask {
    if fd in masks then masks[fd] else Mask(false, false)
  }

  /** ADD_TO_EPOLL: modifies a descriptor believed present, adds one believed absent. */
  function AddToEpoll(l: Loop, fd: Fd): Loop {
    var change := fd in l.listenFds;
    var mask := MaskOf(l.masks, fd);
    var ok := if change then fd in l.kernel else fd !in l.kernel;
    var l' := l.(listenFds := l.listenFds + {fd}, requests := l.requests + [Watch(fd)]);
    if ok then l'.(kernel := l.kernel[fd := mask], executed := l.executed + [Added(fd, mask)])
    else l'.(failures := l.failures + 1)
  }

  /** DEL_FROM_EPOLL: does nothing for a descriptor believed absent. */
  function DelFromEpoll(l: Loop, fd: Fd): Loop {
    var l' := l.(listenFds := l.listenFds - {fd}, requests := l.requests + [Unwatch(fd)]);
    if fd !in l.listenFds then l.(requests := l'.requests)
    else
      if fd in l.kernel then l'.(kernel := l.kernel - {fd}, executed := l.executed + [Deleted(fd)])
      else l'.(failures := l.failures + 1)
  }

  function Enqueue(l: Loop, e: Entry): Loop {
    l.(pending := l.pending + [e], queued := l.queued + [e])
  }

  function RunTask(l: Loop, task: Task): Loop {
    match task
    case Watch(fd) => AddToEpoll(l, fd)
    case Unwatch(fd) => DelFromEpoll(l, fd)
    case User(id) => l.(ran := l.ran + [id])
    case Null => l
  }

  /** The front task is taken out and run. */
  function RunFront(l: Loop): Loop
    requires l.batch != []
  {
    RunTask(l.(batch := l.batch[1..], popped := l.popped + [l.batch[0]]), l.batch[0].task)
  }

  /** Steps of the loop thread and of all others: enqueueing from any thread, the swap at the top of the
      loop, running one task, immediate requests of the loop thread, and changes of an FdEvent's events. */
  datatype Step =
    | Enq(e: Entry)
    | Swap
    | Pop
    | WatchNow(fd: Fd)
    | UnwatchNow(fd: Fd)
    | SetMask(fd: Fd, mask: Mask)

  predicate Enabled(l: Loop, step: Step) {
    match step
    case Swap => l.batch == []
    case Pop => l.batch != []
    case _ => true
  }

  function Next(l: Loop, step: Step): Loop
    requires Enabled(l, step)
  {
    match step
    case Enq(e) => Enqueue(l, e)
    case Swap => l.(batch := l.pending, pending := [])
    case Pop => RunFront(l)
    case WatchNow(fd) => AddToEpoll(l, fd)
    case UnwatchNow(fd) => DelFromEpoll(l, fd)
    case SetMask(fd, mask) => l.(masks := l.masks[fd := mask])
  }

  // ---- What every run keeps ----

  /** Whether a descriptor's last carried-out call added it, and with which events. */
  datatype Interest = Absent | Present(mask: Mask)

  function LastInterest(executed: seq<Executed>, fd: Fd): Interest {
    if executed == [] then Absent
    else
      var e := executed[|executed| - 1];
      if e.fd != fd then LastInterest(executed[..|executed| - 1], fd)
      else if e.Added? then Present(e.mask) else Absent
  }

  /** The user callbacks among tasks, in order. */
  function Users(es: seq<Entry>): seq<nat> {
    if es == [] then []
    else
      var e := es[|es| - 1];
      Users(es[..|es| - 1]) + if e.task.User? then [e.task.id] else []
  }

  lemma UsersNext(es: seq<Entry>, e: Entry)
    ensures Users(es + [e]) == Users(es) + if e.task.User? then [e.task.id] else []
  {
    assert (es + [e])[..|es|] == es;
  }

  ghost predicate Inv(l: Loop) {
    && l.queued == l.popped + l.batch + l.pending
    && l.ran == Users(l.popped)
    && l.failures == 0
    && l.kernel.Keys == l.listenFds
    && forall fd :: LastInterest(l.executed, fd) == if fd in l.kernel then Present(l.kernel[fd]) else Absent
  }

  lemma InvRan(l: Loop)
    requires Inv(l)
    ensures l.ran == Users(l.popped)
  {
  }

  lemma LastInterestNext(executed: seq<Executed>, e: Executed, fd: Fd)
    ensures LastInterest(executed + [e], fd)
         == if e.fd != fd then LastInterest(executed, fd) else if e.Added? then Present(e.mask) else Absent
  {
    assert (executed + [e])[..|executed|] == executed;
  }

  lemma AddInv(l: Loop, fd: Fd)
    requires Inv(l)
    ensures Inv(AddToEpoll(l, fd)) && AddToEpoll(l, fd).queued == l.queued && AddToEpoll(l, fd).popped == l.popped
  {
    hide LastInterest;
    forall other
      ensures LastInterest(l.executed + [Added(fd, MaskOf(l.masks, fd))], other)
           == if other != fd then LastInterest(l.executed, other) else Present(MaskOf(l.masks, fd))
    {
      LastInterestNext(l.executed, Added(fd, MaskOf(l.masks, fd)), other);
    }
  }

  lemma DelInv(l: Loop, fd: Fd)
    requires Inv(l)
    ensures Inv(DelFromEpoll(l, fd)) && DelFromEpoll(l, fd).queued == l.queued && DelFromEpoll(l, fd).popped == l.popped
  {
    hide LastInterest;
    forall other
      ensures LastInterest(l.executed + [Deleted(fd)], other)
           == if other != fd then LastInterest(l.executed, other) else Absent
    {
      LastInterestNext(l.executed, Deleted(fd), other);
    }
  }

  lemma StepInv(l: Loop, step: Step)
    requires Inv(l) && Enabled(l, step)
    ensures Inv(Next(l, step))
  {
    hide LastInterest, AddToEpoll, DelFromEpoll, Users;
    match step {
      case Enq(e) =>
        assert l.popped + l.batch + (l.pending + [e]) == (l.popped + l.batch + l.pending) + [e];
      case Swap =>
        assert l.popped + l.pending + [] == l.popped + [] + l.pending;
      case Pop =>
        var l1 := l.(batch := l.batch[1..], popped := l.popped + [l.batch[0]]);
        assert l1.popped + l1.batch + l1.pending == l.popped + l.batch + l.pending;
        UsersNext(l.popped, l.batch[0]);
        match l.batch[0].task {
          case Watch(fd) => AddInv(l1, fd);
          case Unwatch(fd) => DelInv(l1, fd);
          case _ =>
        }
      case WatchNow(fd) => AddInv(l, fd);
      case UnwatchNow(fd) => DelInv(l, fd);
      case SetMask(_, _) =>
    }
  }

  ghost predicate Leads(l: Loop, steps: seq<Step>, l': Loop)
    decreases |steps|
  {
    if steps == [] then l' == l
    else Enabled(l, steps[0]) && Leads(Next(l, steps[0]), steps[1..], l')
  }

  lemma {:induction false} RunInv(l: Loop, steps: seq<Step>, l': Loop)
    requires Inv(l) && Leads(l, steps, l')
    ensures Inv(l')
    decreases |steps|
  {
    hide Inv, Next, Enabled;
    if steps != [] {
      StepInv(l, steps[0]);
      RunInv(Next(l, steps[0]), steps[1..], l');
    }
  }

  function EnqueuedBy(steps: seq<Step>): seq<Entry> {
    if steps == [] then []
    else (if steps[0].Enq? then [steps[0].e] else []) + EnqueuedBy(steps[1..])
  }

  lemma NextQueued(l: Loop, step: Step)
    requires Enabled(l, step)
    ensures Next(l, step).queued == l.queued + (if step.Enq? then [step.e] else [])
  {
  }

  lemma {:induction false} RunQueued(l: Loop, steps: seq<Step>, l': Loop)
    requires Leads(l, steps, l')
    ensures l'.queued == l.queued + EnqueuedBy(steps)
    decreases |steps|
  {
    hide Next;
    if steps != [] {
      NextQueued(l, steps[0]);
      RunQueued(Next(l, steps[0]), steps[1..], l');
    }
  }

  /** In every interleaving tasks are run first in, first out, none lost and none repeated; the callbacks run
      are those of the tasks taken out, in the same order. */
  lemma TasksInOrder(steps: seq<Step>, l: Loop)
    requires Leads(START, steps, l)
    ensures EnqueuedBy(steps) == l.popped + l.batch + l.pending
    ensures l.ran == Users(l.popped)
  {
    RunInv(START, steps, l);
    RunQueued(START, steps, l);
    assert [] + EnqueuedBy(steps) == EnqueuedBy(steps);
  }

  lemma StepQueues(l: Loop, step: Step)
    requires Enabled(l, step) && step != Swap
    ensures Next(l, step).popped + Next(l, step).batch == l.popped + l.batch
    ensures Next(l, step).pending == l.pending + (if step.Enq? then [step.e] else [])
  {
    RequestKeeps(l);
    hide AddToEpoll, DelFromEpoll;
    match step {
      case Pop =>
        var l1 := l.(batch := l.batch[1..], popped := l.popped + [l.batch[0]]);
        RequestKeeps(l1);
      case _ =>
    }
  }

  lemma RequestKeeps(l: Loop)
    ensures forall fd :: AddToEpoll(l, fd).popped == l.popped && AddToEpoll(l, fd).batch == l.batch
                         && AddToEpoll(l, fd).pending == l.pending
    ensures forall fd :: DelFromEpoll(l, fd).popped == l.popped && DelFromEpoll(l, fd).batch == l.batch
                         && DelFromEpoll(l, fd).pending == l.pending
  {
  }

  /** A task enqueued while a batch is being run is run after the whole batch: until the next swap the
      loop only takes tasks of the batch. */
  lemma {:induction false} BatchFirst(l: Loop, steps: seq<Step>, l': Loop)
    requires Leads(l, steps, l') && Swap !in steps
    ensures l'.popped + l'.batch == l.popped + l.batch
    ensures l'.pending == l.pending + EnqueuedBy(steps)
    decreases |steps|
  {
    hide Next, Enabled;
    if steps != [] {
      assert steps[0] in steps;
      StepQueues(l, steps[0]);
      BatchFirst(Next(l, steps[0]), steps[1..], l');
    }
  }

  function OfThread(es: seq<Entry>, t: Thread): seq<Entry> {
    if es == [] then []
    else (if es[0].thread == t then [es[0]] else []) + OfThread(es[1..], t)
  }

  lemma {:induction false} OfThreadAppend(a: seq<Entry>, b: seq<Entry>, t: Thread)
    ensures OfThread(a + b, t) == OfThread(a, t) + OfThread(b, t)
  {
    if a == [] {
      assert a + b == b;
    } else {
      var rest := a[1..];
      OfThreadAppend(rest, b, t);
      assert a == [a[0]] + rest && a + b == [a[0]] + (rest + b);
      OfThreadCons(a[0], rest, t);
      OfThreadCons(a[0], rest + b, t);
    }
  }

  lemma OfThreadCons(e: Entry, es: seq<Entry>, t: Thread)
    ensures OfThread([e] + es, t) == (if e.thread == t then [e] else []) + OfThread(es, t)
  {
  }

  /** The requests a thread defers are executed in the order it made them. */
  lemma ThreadOrder(steps: seq<Step>, l: Loop, t: Thread)
    requires Leads(START, steps, l)
    ensures OfThread(l.popped, t) <= OfThread(EnqueuedBy(steps), t)
  {
    TasksInOrder(steps, l);
    OfThreadAppend(l.popped, l.batch + l.pending, t);
    assert l.popped + l.batch + l.pending == l.popped + (l.batch + l.pending);
  }

  /** In every interleaving the descriptors believed watched are those the kernel watches, no epoll_ctl
      call fails, and the kernel's events of each are those of its last carried-out addition. */
  lemma MirrorsKernel(steps: seq<Step>, l: Loop, fd: Fd)
    requires Leads(START, steps, l)
    ensures l.listenFds == l.kernel.Keys && l.failures == 0
    ensures fd in l.kernel <==> LastInterest(l.executed, fd).Present?
    ensures fd in l.kernel ==> l.kernel[fd] == LastInterest(l.executed, fd).mask
  {
    assert START.kernel.Keys == {};
    RunInv(START, steps, l);
  }

  // ---- What the kernel watches, told by the run itself ----

  /** What a step asks for: a change of a descriptor's events, or a request about it carried out. */
  datatype Mark = Listens(fd: Fd, mask: Mask) | Asked(task: Task)

  function MarksOf(l: Loop, step: Step): seq<Mark>
    requires Enabled(l, step)
  {
    match step
    case Pop => [Asked(l.batch[0].task)]
    case WatchNow(fd) => [Asked(Watch(fd))]
    case UnwatchNow(fd) => [Asked(Unwatch(fd))]
    case SetMask(fd, mask) => [Listens(fd, mask)]
    case _ => []
  }

  function Marks(l: Loop, steps: seq<Step>): seq<Mark>
    decreases |steps|
  {
    if steps == [] || !Enabled(l, steps[0]) then []
    else MarksOf(l, steps[0]) + Marks(Next(l, steps[0]), steps[1..])
  }

  /** The events last set for a descriptor; none before the first time. */
  function LastMask(marks: seq<Mark>, fd: Fd): Mask {
    if marks == [] then Mask(false, false)
    else
      var m := marks[|marks| - 1];
      if m.Listens? && m.fd == fd then m.mask else LastMask(marks[..|marks| - 1], fd)
  }

  /** What the last request about a descriptor leaves the kernel watching: the events set by then, or nothing. */
  function Wanted(marks: seq<Mark>, fd: Fd): Interest {
    if marks == [] then Absent
    else
      var m, before := marks[|marks| - 1], marks[..|marks| - 1];
      if m == Asked(Watch(fd)) then Present(LastMask(before, fd))
      else if m == Asked(Unwatch(fd)) then Absent
      else Wanted(before, fd)
  }

  function Watched(l: Loop, fd: Fd): Interest {
    if fd in l.kernel then Present(l.kernel[fd]) else Absent
  }

  ghost predicate Tracks(l: Loop, marks: seq<Mark>) {
    forall fd :: Watched(l, fd) == Wanted(marks, fd) && MaskOf(l.masks, fd) == LastMask(marks, fd)
  }

  lemma TaskTracks(l: Loop, task: Task, marks: seq<Mark>)
    requires l.kernel.Keys == l.listenFds && Tracks(l, marks)
    ensures Tracks(RunTask(l, task), marks + [Asked(task)])
  {
    assert (marks + [Asked(task)])[..|marks|] == marks;
  }

  lemma MarkAdded(marks: seq<Mark>, m: Mark)
    ensures forall fd :: LastMask(marks + [m], fd)
                      == if m.Listens? && m.fd == fd then m.mask else LastMask(marks, fd)
    ensures m.Listens? ==> forall fd :: Wanted(marks + [m], fd) == Wanted(marks, fd)
  {
    assert (marks + [m])[..|marks|] == marks;
  }

  lemma StepTracks(l: Loop, step: Step, marks: seq<Mark>)
    requires Inv(l) && Enabled(l, step) && Tracks(l, marks)
    ensures Tracks(Next(l, step), marks + MarksOf(l, step))
  {
    hide LastInterest;
    match step {
      case Pop =>
        var l1 := l.(batch := l.batch[1..], popped := l.popped + [l.batch[0]]);
        assert forall fd :: Watched(l1, fd) == Watched(l, fd);
        TaskTracks(l1, l.batch[0].task, marks);
      case WatchNow(fd) => TaskTracks(l, Watch(fd), marks);
      case UnwatchNow(fd) => TaskTracks(l, Unwatch(fd), marks);
      case SetMask(fd, mask) =>
        MarkAdded(marks, Listens(fd, mask));
        assert forall other :: Watched(Next(l, step), other) == Watched(l, other);
      case _ =>
        assert marks + [] == marks;
    }
  }

  lemma {:induction false} RunTracks(l: Loop, steps: seq<Step>, l': Loop, marks: seq<Mark>)
    requires Inv(l) && Tracks(l, marks) && Leads(l, steps, l')
    ensures Tracks(l', marks + Marks(l, steps))
    decreases |steps|
  {
    hide Inv, Tracks, Next, MarksOf;
    if steps == [] {
      assert marks + [] == marks;
    } else {
      StepInv(l, steps[0]);
      StepTracks(l, steps[0], marks);
      RunTracks(Next(l, steps[0]), steps[1..], l', marks + MarksOf(l, steps[0]));
      assert (marks + MarksOf(l, steps[0])) + Marks(Next(l, steps[0]), steps[1..])
          == marks + (MarksOf(l, steps[0]) + Marks(Next(l, steps[0]), steps[1..]));
    }
  }

  /** In every interleaving the kernel watches a descriptor exactly when the last request about it that was
      carried out was to watch it, and for the events last set before that request. */
  lemma KernelWatches(steps: seq<Step>, l: Loop, fd: Fd)
    requires Leads(START, steps, l)
    ensures Wanted(Marks(START, steps), fd) == if fd in l.kernel then Present(l.kernel[fd]) else Absent
  {
    assert START.kernel.Keys == {};
    RunTracks(START, steps, l, []);
    assert [] + Marks(START, steps) == Marks(START, steps);
  }

  // ---- Descriptors closed behind the loop ----

  /** close(2) removes a descriptor from the interest set without telling the loop. */
  function Closed(l: Loop, fd: Fd): Loop {
    l.(kernel := l.kernel - {fd})
  }

  predicate Mirrors(l: Loop) {
    l.kernel.Keys == l.listenFds
  }

  /** The loop believes it watches fd, and the kernel does not; all else agrees. */
  predicate Stale(l: Loop, fd: Fd) {
    fd in l.listenFds && l.kernel.Keys == l.listenFds - {fd}
  }

  /** How many of the requests fail while fd is stale: every Watch of it, and the Unwatch that ends this. */
  function Failing(requests: seq<Task>, fd: Fd): nat {
    if requests == [] then 0
    else if requests[0] == Unwatch(fd) then 1
    else (if requests[0] == Watch(fd) then 1 else 0) + Failing(requests[1..], fd)
  }

  lemma StaleTask(l: Loop, task: Task, fd: Fd) returns (done: seq<Task>)
    requires Stale(l, fd) || Mirrors(l)
    ensures |done| <= 1 && RunTask(l, task).requests == l.requests + done
    ensures done == if task.Watch? || task.Unwatch? then [task] else []
    ensures Mirrors(l) ==> Mirrors(RunTask(l, task)) && RunTask(l, task).failures == l.failures
    ensures Stale(l, fd) ==> if done == [Unwatch(fd)] then Mirrors(RunTask(l, task)) else Stale(RunTask(l, task), fd)
    ensures Stale(l, fd) ==> RunTask(l, task).failures == l.failures + Failing(done, fd)
  {
    FailingOne(fd);
    hide Failing;
    done := if task.Watch? || task.Unwatch? then [task] else [];
    if done == [] {
      assert l.requests + [] == l.requests;
    }
  }

  /** What one step does to a stale descriptor, and that it never makes one stale. */
  lemma StaleStep(l: Loop, step: Step, fd: Fd) returns (done: seq<Task>)
    requires Enabled(l, step) && (Stale(l, fd) || Mirrors(l))
    ensures |done| <= 1 && Next(l, step).requests == l.requests + done
    ensures Mirrors(l) ==> Mirrors(Next(l, step)) && Next(l, step).failures == l.failures
    ensures Stale(l, fd) ==> if done == [Unwatch(fd)] then Mirrors(Next(l, step)) else Stale(Next(l, step), fd)
    ensures Stale(l, fd) ==> Next(l, step).failures == l.failures + Failing(done, fd)
  {
    hide Failing, AddToEpoll, DelFromEpoll;
    FailingOne(fd);
    match step {
      case Pop =>
        var l1 := l.(batch := l.batch[1..], popped := l.popped + [l.batch[0]]);
        done := StaleTask(l1, l.batch[0].task, fd);
      case WatchNow(x) => done := StaleTask(l, Watch(x), fd);
      case UnwatchNow(x) => done := StaleTask(l, Unwatch(x), fd);
      case _ =>
        done := [];
        assert l.requests + [] == l.requests;
    }
  }

  lemma FailingOne(fd: Fd)
    ensures Failing([], fd) == 0
    ensures forall t :: Failing([t], fd) == if t == Watch(fd) || t == Unwatch(fd) then 1 else 0
  {
  }

  lemma FailingCons(first: seq<Task>, rest: seq<Task>, fd: Fd)
    requires |first| <= 1
    ensures Failing(first + rest, fd) == Failing(first, fd) + (if first == [Unwatch(fd)] then 0 else Failing(rest, fd))
  {
    if first == [] {
      assert first + rest == rest;
    } else {
      assert (first + rest)[1..] == rest && first[1..] == [];
    }
  }

  /** A stale descriptor stays stale, and every request for it fails, until one asks to stop watching it. */
  lemma {:induction false} StaleRun(l: Loop, steps: seq<Step>, l': Loop, fd: Fd) returns (done: seq<Task>)
    requires Leads(l, steps, l') && (Stale(l, fd) || Mirrors(l))
    ensures l'.requests == l.requests + done
    ensures Mirrors(l) ==> Mirrors(l') && l'.failures == l.failures
    ensures Stale(l, fd) ==> if Unwatch(fd) in done then Mirrors(l') else Stale(l', fd)
    ensures Stale(l, fd) ==> l'.failures == l.failures + Failing(done, fd)
    decreases |steps|
  {
    hide Next, Failing, Stale, Mirrors;
    FailingOne(fd);
    NotBoth(l, fd);
    if steps == [] {
      done := [];
      assert l.requests + [] == l.requests;
    } else {
      var l1 := Next(l, steps[0]);
      var first := StaleStep(l, steps[0], fd);
      NotBoth(l1, fd);
      var rest := StaleRun(l1, steps[1..], l', fd);
      FailingCons(first, rest, fd);
      done := first + rest;
      assert l.requests + (first + rest) == (l.requests + first) + rest;
      assert Unwatch(fd) in done <==> first == [Unwatch(fd)] || Unwatch(fd) in rest;
    }
  }

  lemma NotBoth(l: Loop, fd: Fd)
    ensures !(Stale(l, fd) && Mirrors(l))
  {
    assert Stale(l, fd) ==> fd in l.listenFds && fd !in l.kernel.Keys;
  }

  /** After a descriptor is closed behind the loop, in every run: the loop's book-keeping is right again if
      and only if the descriptor was not watched, or a request to stop watching it has been carried out;
      and exactly the requests for it up to that one fail. */
  lemma CloseBreaksIff(before: seq<Step>, l: Loop, fd: Fd, steps: seq<Step>, l': Loop) returns (done: seq<Task>)
    requires Leads(START, before, l) && Leads(Closed(l, fd), steps, l')
    ensures l'.requests == l.requests + done
    ensures l'.kernel.Keys == l'.listenFds <==> fd !in l.listenFds || Unwatch(fd) in done
    ensures l'.failures == if fd in l.listenFds then Failing(done, fd) else 0
  {
    hide Leads, Failing;
    MirrorsKernel(before, l, fd);
    var closed := Closed(l, fd);
    if fd in l.listenFds {
      assert Stale(closed, fd);
    } else {
      assert closed.kernel == l.kernel;
    }
    done := StaleRun(closed, steps, l', fd);
    NotBoth(l', fd);
  }

  /** Watched descriptors occur: one request of the loop's own thread is enough. */
  lemma WatchedReachable(fd: Fd)
    ensures Leads(START, [WatchNow(fd)], AddToEpoll(START, fd)) && fd in AddToEpoll(START, fd).listenFds
  {
    assert [WatchNow(fd)][1..] == [];
  }
}

/** The event loop as an object. */
module EventLoops {
  import opened EventLoopSpec

  class EventLoop {
    var pendingTasks: seq<Entry>       // m_pending_tasks
    var tmpTasks: seq<Entry>           // tmp_tasks
    var listenFds: set<Fd>             // m_listen_fds
    var kernel: map<Fd, Mask>          // epoll's interest set
    var masks: map<Fd, Mask>           // each FdEvent's m_listen_events
    const threadId: Thread             // m_thread_id
    ghost var queued: seq<Entry>
    ghost var popped: seq<Entry>
    ghost var ran: seq<nat>
    ghost var requests: seq<Task>
    ghost var executed: seq<Executed>
    ghost var failures: nat

    ghost function View(): Loop
      reads this
    {
      Loop(pendingTasks, tmpTasks, queued, popped, ran, listenFds, kernel, masks, requests, executed, failures)
    }

    constructor (threadId: Thread)
      ensures View() == START && this.threadId == threadId
    {
      this.threadId := threadId;
      pendingTasks, tmpTasks, listenFds, kernel, masks := [], [], {}, map[], map[];
      queued, popped, ran, requests, executed, failures := [], [], [], [], [], 0;
    }

    method AddTask(e: Entry)
      modifies this
      ensures View() == Enqueue(old(View()), e)
    {
      pendingTasks := pendingTasks + [e];
      queued := queued + [e];
    }

    /** epoll_ctl(2) with EPOLL_CTL_ADD or EPOLL_CTL_MOD. */
    method EpollSet(change: bool, fd: Fd, mask: Mask)
      modifies this`kernel, this`executed, this`failures
      ensures var ok := if change then fd in old(kernel) else fd !in old(kernel);
              && kernel == (if ok then old(kernel)[fd := mask] else old(kernel))
              && executed == (if ok then old(executed) + [Added(fd, mask)] else old(executed))
              && failures == (if ok then old(failures) else old(failures) + 1)
    {
      if change == (fd in kernel) {
        kernel := kernel[fd := mask];
        executed := executed + [Added(fd, mask)];
      } else {
        failures := failures + 1;
      }
    }

    method AddToEpollNow(fd: Fd)
      modifies this
      ensures View() == AddToEpoll(old(View()), fd)
    {
      requests := requests + [Watch(fd)];
      EpollSet(fd in listenFds, fd, MaskOf(masks, fd));
      listenFds := listenFds + {fd};
    }

    method DelFromEpollNow(fd: Fd)
      modifies this
      ensures View() == DelFromEpoll(old(View()), fd)
    {
      requests := requests + [Unwatch(fd)];
      if fd !in listenFds {
        return;
      }
      if fd in kernel {
        kernel := kernel - {fd};
        executed := executed + [Deleted(fd)];
      } else {
        failures := failures + 1;
      }
      listenFds := listenFds - {fd};
    }

    method AddEpollEvent(thread: Thread, fd: Fd)
      modifies this
      ensures View()
           == Next(old(View()), if thread == threadId then WatchNow(fd) else Enq(Entry(thread, Watch(fd))))
      ensures thread == threadId && fd in masks && old(kernel).Keys == old(listenFds) ==>
                masks == old(masks) && kernel == old(kernel)[fd := masks[fd]] && listenFds == kernel.Keys
      ensures thread != threadId ==> kernel == old(kernel) && listenFds == old(listenFds)
    {
      if thread == threadId {
        AddToEpollNow(fd);
      } else {
        AddTask(Entry(thread, Watch(fd)));
      }
    }

    method DeleteEpollEvent(thread: Thread, fd: Fd)
      modifies this
      ensures View()
           == Next(old(View()), if thread == threadId then UnwatchNow(fd) else Enq(Entry(thread, Unwatch(fd))))
      ensures thread == threadId && old(kernel).Keys == old(listenFds) ==>
                kernel == old(kernel) - {fd} && listenFds == kernel.Keys
      ensures thread != threadId ==> kernel == old(kernel) && listenFds == old(listenFds)
    {
      if thread == threadId {
        DelFromEpollNow(fd);
      } else {
        AddTask(Entry(thread, Unwatch(fd)));
      }
    }

    method PopFront()
      requires tmpTasks != []
      modifies this
      ensures View() == RunFront(old(View()))
    {
      var cb := tmpTasks[0];
      tmpTasks := tmpTasks[1..];
      popped := popped + [cb];
      match cb.task {
        case Watch(fd) => AddToEpollNow(fd);
        case Unwatch(fd) => DelFromEpollNow(fd);
        case User(cbId) => ran := ran + [cbId];
        case Null =>
      }
    }

    /** The task part of one round of the loop: swaps the queue out and runs it to its end. arriving[k] is
        what the batch's task k, or any other thread while it runs, enqueues. */
    method RunPendingTasks(arriving: seq<seq<Entry>>)
      requires Inv(View()) && tmpTasks == [] && |arriving| == |pendingTasks|
      modifies this
      ensures Inv(View()) && tmpTasks == []
      ensures popped == old(popped + pendingTasks) && ran == Users(popped)
      ensures pendingTasks == Joined(arriving) && queued == old(queued) + Joined(arriving)
    {
      hide AddToEpoll, DelFromEpoll, LastInterest, Inv;
      ghost var batch := pendingTasks;
      StepInv(View(), Swap);
      tmpTasks, pendingTasks := pendingTasks, [];
      var k := 0;
      JoinedNothing(arriving);
      while tmpTasks != []
        invariant Inv(View()) && k + |tmpTasks| == |arriving|
        invariant popped + tmpTasks == old(popped) + batch
        invariant pendingTasks == Joined(arriving[..k]) && queued == old(queued) + Joined(arriving[..k])
        decreases |tmpTasks|
      {
        ghost var l := View();
        StepInv(l, Pop);
        PopKeeps(l);
        PopFront();
        AddTasks(arriving[k]);
        JoinedNext(arriving, k, old(queued));
        k := k + 1;
      }
      assert arriving[..k] == arriving;
      InvRan(View());
    }

    method AddTasks(es: seq<Entry>)
      requires Inv(View())
      modifies this
      ensures Inv(View()) && tmpTasks == old(tmpTasks) && popped == old(popped)
      ensures pendingTasks == old(pendingTasks) + es && queued == old(queued) + es
    {
      hide Inv;
      for k := 0 to |es|
        invariant Inv(View()) && tmpTasks == old(tmpTasks) && popped == old(popped)
        invariant pendingTasks == old(pendingTasks) + es[..k] && queued == old(queued) + es[..k]
      {
        StepInv(View(), Enq(es[k]));
        AddTask(es[k]);
        assert es[..k + 1] == es[..k] + [es[k]];
      }
      assert es[..|es|] == es;
    }
  }

  function Joined(ess: seq<seq<Entry>>): seq<Entry> {
    if ess == [] then [] else Joined(ess[..|ess| - 1]) + ess[|ess| - 1]
  }

  lemma JoinedNothing(ess: seq<seq<Entry>>)
    ensures Joined(ess[..0]) == []
  {
  }

  lemma JoinedNext(ess: seq<seq<Entry>>, k: nat, before: seq<Entry>)
    requires k < |ess|
    ensures Joined(ess[..k + 1]) == Joined(ess[..k]) + ess[k]
    ensures (before + Joined(ess[..k])) + ess[k] == before + Joined(ess[..k + 1])
  {
    assert ess[..k + 1][..k] == ess[..k];
  }

  lemma PopKeeps(l: Loop)
    requires l.batch != []
    ensures RunFront(l).batch == l.batch[1..] && RunFront(l).popped == l.popped + [l.batch[0]]
    ensures RunFront(l).pending == l.pending && RunFront(l).queued == l.queued
  {
  }
}
