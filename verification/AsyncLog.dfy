/** The asynchronous log: producers, the timer's drain, and the writer thread. */
module AsyncLogSpec {
  import Bytes

  /** m_buffer of the logger, the vector asyncLoop has swapped out, the asynchronous logger's queue of
      vectors, whether the writer is busy with a vector and what is left of it, and the file. pushed records
      every message in push order, vectors every vector ever queued; taken counts those the writer took. */
  datatype Log = Log(
    front: seq<string>, inDrain: seq<string>, queue: seq<seq<string>>, busy: bool, batch: seq<string>,
    file: string, stopping: bool, stopped: bool, pushed: seq<string>, vectors: seq<seq<string>>, taken: nat)

  const START := Log([], [], [], false, [], "", false, false, [], [], 0)

  datatype Step =
    | Push(msg: string)   // pushLog, any thread
    | DrainSwap           // asyncLoop's swap
    | DrainPush           // asyncLoop's pushLogBuffer, skipped for an empty vector
    | Take                // the writer swaps the front vector out and pops it
    | Write               // the writer writes one message
    | Stop                // the stop flag is set
    | Test                // the writer, done with its vector, tests the flag

  /** One drain and one writer are active at a time; the writer waits for a non-empty queue. */
  predicate Enabled(l: Log, step: Step) {
    match step
    case Push(_) => true
    case DrainSwap => l.inDrain == []
    case DrainPush => true
    case Take => l.queue != [] && !l.busy && l.batch == [] && !l.stopped
    case Write => l.busy && l.batch != []
    case Stop => true
    case Test => l.busy && l.batch == []
  }

  function Next(l: Log, step: Step): Log
    requires Enabled(l, step)
  {
    match step
    case Push(msg) => l.(front := l.front + [msg], pushed := l.pushed + [msg])
    case DrainSwap => l.(inDrain := l.front, front := [])
    case DrainPush =>
      if l.inDrain == [] then l
      else l.(queue := l.queue + [l.inDrain], vectors := l.vectors + [l.inDrain], inDrain := [])
    case Take => l.(busy := true, batch := l.queue[0], queue := l.queue[1..], taken := l.taken + 1)
    case Write => l.(file := l.file + l.batch[0], batch := l.batch[1..])
    case Stop => l.(stopping := true)
    case Test => l.(busy := false, stopped := l.stopping)
  }

  function Text(msgs: seq<string>): string {
    if msgs == [] then "" else msgs[0] + Text(msgs[1..])
  }

  function Flat(queue: seq<seq<string>>): seq<string> {
    if queue == [] then [] else queue[0] + Flat(queue[1..])
  }

  /** What is not yet written, in the order in which it will be. */
  function Unwritten(l: Log): seq<string> {
    l.batch + Flat(l.queue) + l.inDrain + l.front
  }

  lemma {:induction false} TextAppend(a: seq<string>, b: seq<string>)
    ensures Text(a + b) == Text(a) + Text(b)
  {
    if a == [] {
      assert a + b == b;
    } else {
      hide Text;
      var rest := a[1..];
      TextAppend(rest, b);
      assert a == [a[0]] + rest && a + b == [a[0]] + (rest + b);
      TextCons(a[0], rest);
      TextCons(a[0], rest + b);
      Bytes.Assoc(a[0], Text(rest), Text(b));
    }
  }

  lemma TextCons(msg: string, msgs: seq<string>)
    ensures Text([msg] + msgs) == msg + Text(msgs)
  {
    assert ([msg] + msgs)[1..] == msgs;
  }

  lemma {:induction false} FlatAppend(a: seq<seq<string>>, b: seq<string>)
    ensures Flat(a + [b]) == Flat(a) + b
  {
    if a == [] {
      assert a + [b] == [b];
      assert Flat([b]) == b + [];
    } else {
      FlatAppend(a[1..], b);
      assert (a + [b])[1..] == a[1..] + [b];
      assert a[0] + (Flat(a[1..]) + b) == (a[0] + Flat(a[1..])) + b;
    }
  }

  /** Nothing is lost, repeated or reordered: the file continued by what is unwritten is what was pushed. */
  predicate Conserved(l: Log) {
    l.file + Text(Unwritten(l)) == Text(l.pushed)
  }

  lemma UnwrittenNext(l: Log, step: Step)
    requires Enabled(l, step) && !step.Write?
    ensures Unwritten(Next(l, step)) == Unwritten(l) + (if step.Push? then [step.msg] else [])
  {
    match step {
      case Push(msg) =>
        assert Unwritten(Next(l, step)) == l.batch + Flat(l.queue) + l.inDrain + (l.front + [msg]);
      case DrainSwap =>
        assert l.batch + Flat(l.queue) + l.front + [] == l.batch + Flat(l.queue) + [] + l.front;
      case DrainPush =>
        FlatAppend(l.queue, l.inDrain);
        assert l.batch + (Flat(l.queue) + l.inDrain) + [] + l.front == Unwritten(l);
      case Take =>
        assert l.queue[0] + Flat(l.queue[1..]) + l.inDrain + l.front
            == [] + (l.queue[0] + Flat(l.queue[1..])) + l.inDrain + l.front;
      case _ =>
    }
  }

  lemma WriteConserves(l: Log)
    requires Conserved(l) && Enabled(l, Write)
    ensures Conserved(Next(l, Write))
  {
    var rest := l.batch[1..] + Flat(l.queue) + l.inDrain + l.front;
    assert Unwritten(l) == [l.batch[0]] + rest;
    assert Unwritten(l)[1..] == rest;
    assert l.file + (l.batch[0] + Text(rest)) == (l.file + l.batch[0]) + Text(rest);
  }

  lemma PushConserves(l: Log, msg: string)
    requires Conserved(l)
    ensures Conserved(Next(l, Push(msg)))
  {
    UnwrittenNext(l, Push(msg));
    hide Unwritten, Text;
    AppendBoth(l.file, Unwritten(l), l.pushed, msg);
  }

  lemma AppendBoth(file: string, unwritten: seq<string>, pushed: seq<string>, msg: string)
    requires file + Text(unwritten) == Text(pushed)
    ensures file + Text(unwritten + [msg]) == Text(pushed + [msg])
  {
    hide Text;
    TextAppend(unwritten, [msg]);
    TextAppend(pushed, [msg]);
    var u, m := Text(unwritten), Text([msg]);
    assert file + (u + m) == (file + u) + m;
  }

  lemma StepConserves(l: Log, step: Step)
    requires Conserved(l) && Enabled(l, step)
    ensures Conserved(Next(l, step))
  {
    hide Unwritten, Text;
    match step {
      case Write => WriteConserves(l);
      case Push(msg) => PushConserves(l, msg);
      case _ =>
        UnwrittenNext(l, step);
        assert Unwritten(l) + [] == Unwritten(l);
    }
  }

  ghost predicate Leads(l: Log, steps: seq<Step>, l': Log)
    decreases |steps|
  {
    if steps == [] then l' == l
    else Enabled(l, steps[0]) && Leads(Next(l, steps[0]), steps[1..], l')
  }

  lemma {:induction false} RunConserves(l: Log, steps: seq<Step>, l': Log)
    requires Conserved(l) && Leads(l, steps, l')
    ensures Conserved(l')
    decreases |steps|
  {
    hide Conserved, Next, Enabled;
    if steps != [] {
      StepConserves(l, steps[0]);
      RunConserves(Next(l, steps[0]), steps[1..], l');
    }
  }

  /** The messages pushed by these steps, in order. */
  function PushedBy(steps: seq<Step>): seq<string> {
    if steps == [] then []
    else (if steps[0].Push? then [steps[0].msg] else []) + PushedBy(steps[1..])
  }

  lemma {:induction false} RunPushed(l: Log, steps: seq<Step>, l': Log)
    requires Leads(l, steps, l')
    ensures l'.pushed == l.pushed + PushedBy(steps)
    decreases |steps|
  {
    if steps != [] {
      assert Next(l, steps[0]).pushed == l.pushed + (if steps[0].Push? then [steps[0].msg] else []);
      RunPushed(Next(l, steps[0]), steps[1..], l');
    }
  }

  /** In every interleaving of producers, drains and the writer the file is a prefix of the pushed text, and
      it is all of it exactly when nothing but empty messages is left unwritten. */
  lemma LogConservation(steps: seq<Step>, l: Log)
    requires Leads(START, steps, l)
    ensures l.file + Text(Unwritten(l)) == Text(PushedBy(steps))
    ensures l.file <= Text(PushedBy(steps))
    ensures l.file == Text(PushedBy(steps)) <==> Text(Unwritten(l)) == ""
  {
    assert Unwritten(START) == [];
    RunConserves(START, steps, l);
    RunPushed(START, steps, l);
    assert [] + PushedBy(steps) == PushedBy(steps);
  }

  lemma LeadsOn(l: Log, step: Step, steps: seq<Step>, l': Log)
    requires Enabled(l, step) && Leads(Next(l, step), steps, l')
    ensures Leads(l, [step] + steps, l')
  {
    assert ([step] + steps)[1..] == steps;
  }

  /** What the drain or the writer does next; nothing is left to do when nothing is left unwritten. */
  function NextWork(l: Log): (step: Step)
    requires !l.stopped && Unwritten(l) != []
    ensures Enabled(l, step) && !step.Push? && step != Stop
  {
    if l.busy && l.batch != [] then Write
    else if l.busy then Test
    else if l.queue != [] && l.batch == [] then Take
    else if l.inDrain != [] then DrainPush
    else DrainSwap
  }

  /** Nothing is held back for good: while the writer is not told to stop, the drain and the writer alone can
      bring the file up to everything pushed so far. */
  lemma {:induction false} CatchesUp(l: Log) returns (steps: seq<Step>, l': Log)
    requires Conserved(l) && !l.stopping && !l.stopped && (!l.busy ==> l.batch == [])
    ensures Leads(l, steps, l') && l'.file == Text(l.pushed)
    ensures forall step <- steps :: !step.Push? && step != Stop
    decreases |l.front|, |l.inDrain|, |l.queue|, |l.batch|, l.busy
  {
    if Unwritten(l) == [] {
      steps, l' := [], l;
    } else {
      var step := NextWork(l);
      StepConserves(l, step);
      hide Unwritten, Text;
      var rest;
      rest, l' := CatchesUp(Next(l, step));
      LeadsOn(l, step, rest, l');
      steps := [step] + rest;
    }
  }

  // ---- Stopping ----

  /** The vectors taken make up the file and the rest of the current one; the others wait in order. A writer
      that has stopped is not busy, and one that is not busy has nothing left to write. */
  ghost predicate TakenInv(l: Log) {
    && l.taken <= |l.vectors| && l.queue == l.vectors[l.taken..]
    && l.file + Text(l.batch) == Text(Flat(l.vectors[..l.taken]))
    && (l.busy ==> !l.stopped) && (!l.busy ==> l.batch == [])
    && forall v <- l.vectors :: v != []
  }

  /** Taking the next vector leaves the file behind by its text. */
  lemma TakeKeeps(l: Log)
    requires TakenInv(l) && Enabled(l, Take)
    ensures TakenInv(Next(l, Take))
  {
    var n := l.taken;
    assert l.vectors[..n + 1] == l.vectors[..n] + [l.vectors[n]] && l.queue[0] == l.vectors[n];
    FlatAppend(l.vectors[..n], l.vectors[n]);
    TextAppend(Flat(l.vectors[..n]), l.vectors[n]);
    assert l.batch == [] && l.file + "" == l.file;
  }

  lemma StepTaken(l: Log, step: Step)
    requires TakenInv(l) && Enabled(l, step)
    ensures TakenInv(Next(l, step))
  {
    hide Text, Flat;
    match step {
      case Take => TakeKeeps(l);
      case Write =>
        TextCons(l.batch[0], l.batch[1..]);
        assert l.batch == [l.batch[0]] + l.batch[1..];
        assert l.file + (l.batch[0] + Text(l.batch[1..])) == (l.file + l.batch[0]) + Text(l.batch[1..]);
      case DrainPush =>
        if l.inDrain != [] {
          var vectors := l.vectors + [l.inDrain];
          assert vectors[..l.taken] == l.vectors[..l.taken] && vectors[l.taken..] == l.queue + [l.inDrain];
        }
      case _ =>
    }
  }

  /** What the stop flag still lets the writer take: nothing if it is busy or has stopped, else one vector. */
  function Allowance(l: Log): nat {
    if l.busy || l.stopped then 0 else 1
  }

  lemma {:induction false} StoppingRun(l: Log, steps: seq<Step>, l': Log)
    requires TakenInv(l) && Leads(l, steps, l')
    ensures TakenInv(l')
    ensures l.stopping ==> l'.stopping && l'.taken + Allowance(l') == l.taken + Allowance(l)
    decreases |steps|
  {
    hide TakenInv;
    if steps != [] {
      StepTaken(l, steps[0]);
      StoppingRun(Next(l, steps[0]), steps[1..], l');
    }
  }

  /** What is in the file when the writer has stopped: all vectors it had taken when the flag was set and,
      if it was waiting then, exactly one more. Every vector behind is lost for the file, with all that was
      still buffered, and whatever is pushed later; after the stop the file does not change. */
  lemma FileAtStop(before: seq<Step>, l: Log, steps: seq<Step>, l': Log)
    requires Leads(START, before, l) && l.stopping && Leads(l, steps, l') && l'.stopped
    ensures l'.taken == l.taken + Allowance(l) <= |l'.vectors|
    ensures l'.file == Text(Flat(l'.vectors[..l'.taken]))
    ensures Text(PushedBy(before) + PushedBy(steps))
         == l'.file + Text(Flat(l'.vectors[l'.taken..]) + l'.inDrain + l'.front)
    ensures l.stopped ==> l'.file == l.file
    ensures [] !in l'.vectors
  {
    assert START.vectors[..0] == [] && START.queue == START.vectors[0..];
    assert TakenInv(START);
    StoppingRun(START, before, l);
    StoppingRun(l, steps, l');
    AllSteps(before, l, steps, l');
    if l.stopped {
      NothingAfterStop(l, steps, l');
    }
  }

  lemma AllSteps(before: seq<Step>, l: Log, steps: seq<Step>, l': Log)
    requires Leads(START, before, l) && Leads(l, steps, l') && TakenInv(l') && l'.stopped
    ensures Text(PushedBy(before) + PushedBy(steps))
         == l'.file + Text(Flat(l'.vectors[l'.taken..]) + l'.inDrain + l'.front)
  {
    assert Unwritten(START) == [];
    RunConserves(START, before, l);
    RunConserves(l, steps, l');
    RunPushed(START, before, l);
    RunPushed(l, steps, l');
    assert [] + PushedBy(before) == PushedBy(before);
    hide Text, Flat;
    assert l'.batch + Flat(l'.queue) == Flat(l'.queue);
  }

  /** A writer that has stopped never writes again. */
  lemma {:induction false} NothingAfterStop(l: Log, steps: seq<Step>, l': Log)
    requires l.stopped && !l.busy && Leads(l, steps, l')
    ensures l'.stopped && l'.file == l.file
    decreases |steps|
  {
    if steps != [] {
      NothingAfterStop(Next(l, steps[0]), steps[1..], l');
    }
  }

  /** The flag alone stops nobody: a writer waiting at an empty queue neither stops nor writes until another
      vector is queued. */
  lemma {:induction false} WaitsForVector(l: Log, steps: seq<Step>, l': Log)
    requires l.queue == [] && !l.busy && !l.stopped && Leads(l, steps, l') && DrainPush !in steps
    ensures l'.queue == [] && !l'.busy && !l'.stopped && l'.file == l.file
    decreases |steps|
  {
    if steps != [] {
      assert steps[0] in steps;
      WaitsForVector(Next(l, steps[0]), steps[1..], l');
    }
  }
}

/** The log's two objects, reduced to their buffers. */
module AsyncLogs {
  import opened AsyncLogSpec

  class AsyncLogger {
    var buffer: seq<seq<string>>  // m_buffer
    var file: string
    var stopFlag: bool

    constructor ()
      ensures buffer == [] && file == "" && !stopFlag
    {
      buffer, file, stopFlag := [], "", false;
    }

    method PushLogBuffer(vec: seq<string>)
      modifies this`buffer
      ensures buffer == old(buffer) + [vec]
    {
      buffer := buffer + [vec];
    }

    /** One round of the writer thread on a non-empty queue. */
    method WriteBatch() returns (stop: bool)
      requires buffer != []
      modifies this`buffer, this`file
      ensures buffer == old(buffer)[1..] && file == old(file) + Text(old(buffer)[0]) && stop == stopFlag
    {
      var tmp := buffer[0];
      buffer := buffer[1..];
      ghost var before := file;
      for k := 0 to |tmp|
        invariant file == before + Text(tmp[..k])
        modifies this`file
      {
        TextAppend(tmp[..k], [tmp[k]]);
        assert tmp[..k + 1] == tmp[..k] + [tmp[k]];
        assert Text([tmp[k]]) == tmp[k] + "";
        if tmp[k] != "" {
          file := file + tmp[k];
        }
      }
      assert tmp[..|tmp|] == tmp;
      stop := stopFlag;
    }
  }

  class Logger {
    var buffer: seq<string>        // m_buffer
    const asyncLogger: AsyncLogger

    constructor (asyncLogger: AsyncLogger)
      ensures buffer == [] && this.asyncLogger == asyncLogger
    {
      this.asyncLogger := asyncLogger;
      buffer := [];
    }

    method PushLog(msg: string)
      modifies this
      ensures buffer == old(buffer) + [msg]
    {
      buffer := buffer + [msg];
    }

    /** The timer's callback; nothing pushed so far changes its place in the text to come. */
    method AsyncLoop()
      modifies this, asyncLogger
      ensures buffer == [] && asyncLogger.file == old(asyncLogger.file)
      ensures asyncLogger.buffer
           == if old(buffer) == [] then old(asyncLogger.buffer) else old(asyncLogger.buffer) + [old(buffer)]
      ensures Flat(asyncLogger.buffer) == old(Flat(asyncLogger.buffer) + buffer)
    {
      var tmp := buffer;
      buffer := [];
      FlatAppend(asyncLogger.buffer, tmp);
      if tmp != [] {
        asyncLogger.PushLogBuffer(tmp);
      }
    }
  }
}
