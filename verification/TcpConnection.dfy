/** The request pipeline of a connection: receiving, decoding, dispatching, encoding and routing. */
module Pipeline {
  import opened Bytes
  import opened Tcp
  import opened BufferSpec
  import opened TinyPBFrame
  import opened TinyPBDecoder
  import opened TinyPBLaws
  import opened RpcDispatch

  /** A registered completion function is named by a number; calls are recorded with the message passed. */
  type Callback = nat

  datatype Call = Call(callback: Callback, message: Message)

  function Responses(services: map<seq<byte>, Service>, requests: seq<Message>): (rs: seq<Message>)
    ensures |rs| == |requests|
    ensures forall i :: 0 <= i < |rs| ==> rs[i] == ResponseOf(services, requests[i])
  {
    seq(|requests|, i requires 0 <= i < |requests| => ResponseOf(services, requests[i]))
  }

  /** The calls a client makes for decoded messages: those with a registered identifier, in order. */
  function Routed(readDones: map<seq<byte>, Callback>, ms: seq<Message>): seq<Call> {
    if ms == [] then []
    else (if ms[0].msgId in readDones then [Call(readDones[ms[0].msgId], ms[0])] else []) + Routed(readDones, ms[1..])
  }

  lemma {:induction false} RoutedAppend(readDones: map<seq<byte>, Callback>, a: seq<Message>, b: seq<Message>)
    ensures Routed(readDones, a + b) == Routed(readDones, a) + Routed(readDones, b)
  {
    if a == [] {
      assert a + b == b;
    } else {
      assert (a + b)[1..] == a[1..] + b;
      RoutedAppend(readDones, a[1..], b);
    }
  }

  lemma RoutedNext(readDones: map<seq<byte>, Callback>, ms: seq<Message>, k: nat)
    requires k < |ms|
    ensures Routed(readDones, ms[..k + 1]) == Routed(readDones, ms[..k])
              + (if ms[k].msgId in readDones then [Call(readDones[ms[k].msgId], ms[k])] else [])
  {
    assert ms[..k + 1] == ms[..k] + [ms[k]];
    RoutedAppend(readDones, ms[..k], [ms[k]]);
    assert [ms[k]][1..] == [];
  }

  /** When every identifier is registered, each message reaches its own callback, in order. */
  lemma {:induction false} RoutedAll(readDones: map<seq<byte>, Callback>, ms: seq<Message>)
    requires forall m <- ms :: m.msgId in readDones
    ensures |Routed(readDones, ms)| == |ms|
    ensures forall i :: 0 <= i < |ms| ==> Routed(readDones, ms)[i] == Call(readDones[ms[i].msgId], ms[i])
  {
    if ms != [] {
      RoutedAll(readDones, ms[1..]);
    }
  }

  function Registered(readDones: map<seq<byte>, Callback>, ms: seq<Message>): seq<Message> {
    if ms == [] then []
    else (if ms[0].msgId in readDones then [ms[0]] else []) + Registered(readDones, ms[1..])
  }

  /** Messages with unregistered identifiers are ignored; the others reach their callbacks, in order. */
  lemma {:induction false} RoutedIgnores(readDones: map<seq<byte>, Callback>, ms: seq<Message>)
    ensures var kept := Registered(readDones, ms);
            && (forall m <- kept :: m in ms && m.msgId in readDones)
            && (forall m <- ms :: m.msgId in readDones ==> m in kept)
            && |Routed(readDones, ms)| == |kept|
            && forall i :: 0 <= i < |kept| ==> Routed(readDones, ms)[i] == Call(readDones[kept[i].msgId], kept[i])
  {
    if ms != [] {
      RoutedIgnores(readDones, ms[1..]);
      assert ms == [ms[0]] + ms[1..];
    }
  }

  /** The trailing bytes that a run of reads into that much free space leaves behind. */
  function Surviving(space: nat, arriving: seq<byte>): (kept: seq<byte>)
    requires space > 0
    ensures |kept| < space && |kept| <= |arriving|
    decreases |arriving|
  {
    if |arriving| < space then arriving else Surviving(space, arriving[space..])
  }

  /** What survives is a tail of what arrived, shorter by whole fillings of the free space. */
  lemma {:induction false} SurvivingTail(space: nat, arriving: seq<byte>) returns (fillings: nat)
    requires space > 0
    ensures fillings * space <= |arriving| && Surviving(space, arriving) == arriving[fillings * space..]
    decreases |arriving|
  {
    if |arriving| < space {
      fillings := 0;
    } else {
      var f := SurvivingTail(space, arriving[space..]);
      fillings := f + 1;
      assert fillings * space == space + f * space;
      assert arriving[space..][f * space..] == arriving[space + f * space..];
    }
  }

  /** Everything that arrives is kept exactly when it does not fill the free space. */
  lemma AllSurviveIff(space: nat, arriving: seq<byte>)
    requires space > 0
    ensures Surviving(space, arriving) == arriving <==> |arriving| < space
  {
  }

  /** All that arrives is lost when it fills the free space once, twice, or any number of times. */
  lemma {:induction false} NothingSurvives(space: nat, fillings: nat, arriving: seq<byte>)
    requires space > 0 && |arriving| == fillings * space
    ensures Surviving(space, arriving) == []
    decreases fillings
  {
    if fillings > 0 {
      assert fillings * space == space + (fillings - 1) * space;
      NothingSurvives(space, fillings - 1, arriving[space..]);
    }
  }

  /** What write(2) reports: how much it could take, or that the socket would block. */
  datatype WriteResult = Sent(rt: nat) | WouldBlock

  /** The bytes onWrite sends when the out-buffer holds contents. */
  function Transmitted(contents: seq<byte>, results: seq<WriteResult>): seq<byte> {
    if contents == [] || results == [] || results[0].WouldBlock? then []
    else if results[0].rt >= |contents| then contents
    else contents[..results[0].rt] + Transmitted(contents, results[1..])
  }

  lemma TransmittedNext(contents: seq<byte>, results: seq<WriteResult>, k: nat)
    requires k < |results|
    ensures Transmitted(contents, results[k..])
         == if contents == [] || results[k].WouldBlock? then []
            else if results[k].rt >= |contents| then contents
            else contents[..results[k].rt] + Transmitted(contents, results[k + 1..])
  {
    assert results[k..][1..] == results[k + 1..];
  }

  lemma TransmittedNothing(contents: seq<byte>)
    ensures Transmitted(contents, []) == []
  {
  }

  lemma NothingTransmitted(results: seq<WriteResult>)
    ensures Transmitted([], results) == []
  {
  }

  /** Everything was taken at once, before the socket blocked; or there was nothing to take. */
  ghost predicate WroteAll(contents: seq<byte>, results: seq<WriteResult>) {
    || contents == []
    || exists k :: 0 <= k < |results| && results[k].Sent? && results[k].rt >= |contents|
                   && forall j :: 0 <= j < k ==> results[j].Sent?
  }

  /** Nothing is sent once the socket blocks, nor once it has taken everything. */
  lemma {:induction false} SendingStops(contents: seq<byte>, a: seq<WriteResult>, b: seq<WriteResult>, rt: nat)
    ensures Transmitted(contents, a + [WouldBlock] + b) == Transmitted(contents, a)
    ensures rt >= |contents| ==>
              Transmitted(contents, a + [Sent(rt)] + b) == Transmitted(contents, a + [Sent(rt)])
  {
    if a == [] {
      assert [] + [WouldBlock] + b == [WouldBlock] + b && [] + [Sent(rt)] + b == [Sent(rt)] + b;
      assert [] + [Sent(rt)] == [Sent(rt)];
    } else {
      assert (a + [WouldBlock] + b)[1..] == a[1..] + [WouldBlock] + b;
      assert (a + [Sent(rt)] + b)[1..] == a[1..] + [Sent(rt)] + b && (a + [Sent(rt)])[1..] == a[1..] + [Sent(rt)];
      SendingStops(contents, a[1..], b, rt);
    }
  }

  // ---- What reaches the wire over several rounds ----

  /** The bytes a server sends when each batch of responses, put behind those held, is followed by one
      onWrite. What was sent stays in the out-buffer. */
  function Wire(batches: seq<seq<byte>>, held: seq<byte>, writes: seq<seq<WriteResult>>): seq<byte>
    requires |writes| == |batches|
  {
    if batches == [] then []
    else Transmitted(held + batches[0], writes[0]) + Wire(batches[1..], held + batches[0], writes[1..])
  }

  predicate Within(cs: seq<nat>, n: nat) {
    forall i :: 0 <= i < |cs| ==> cs[i] <= n
  }

  /** How many bytes each write of one onWrite takes when n are readable. */
  function Taken(n: nat, results: seq<WriteResult>): (cs: seq<nat>)
    ensures Within(cs, n)
  {
    if n == 0 || results == [] || results[0].WouldBlock? then []
    else if results[0].rt >= n then [n]
    else [results[0].rt] + Taken(n, results[1..])
  }

  /** The same over all rounds. */
  function TakenAll(batches: seq<seq<byte>>, held: nat, writes: seq<seq<WriteResult>>): (cs: seq<nat>)
    requires |writes| == |batches|
    ensures Within(cs, held + |Flatten(batches)|)
  {
    if batches == [] then []
    else Taken(held + |batches[0]|, writes[0]) + TakenAll(batches[1..], held + |batches[0]|, writes[1..])
  }

  /** The first cs[0] elements of t, then its first cs[1] elements, and so on. */
  function Prefixes<T>(t: seq<T>, cs: seq<nat>): seq<T>
    requires Within(cs, |t|)
  {
    if cs == [] then [] else t[..cs[0]] + Prefixes(t, cs[1..])
  }

  lemma PrefixesFirst<T>(t: seq<T>, c: nat, cs: seq<nat>)
    requires c <= |t| && Within(cs, |t|)
    ensures Within([c] + cs, |t|) && Prefixes(t, [c] + cs) == t[..c] + Prefixes(t, cs)
  {
  }

  lemma {:induction false} PrefixesAppend<T>(t: seq<T>, a: seq<nat>, b: seq<nat>)
    requires Within(a, |t|) && Within(b, |t|)
    ensures Prefixes(t, a + b) == Prefixes(t, a) + Prefixes(t, b)
  {
    if a == [] {
      assert a + b == b;
    } else {
      hide Prefixes;
      var tail := a[1..];
      assert a == [a[0]] + tail && a + b == [a[0]] + (tail + b);
      PrefixesAppend(t, tail, b);
      PrefixesFirst(t, a[0], tail);
      PrefixesFirst(t, a[0], tail + b);
      Assoc(t[..a[0]], Prefixes(t, tail), Prefixes(t, b));
    }
  }

  lemma {:induction false} PrefixesBehind<T>(t: seq<T>, u: seq<T>, cs: seq<nat>)
    requires Within(cs, |t|)
    ensures Prefixes(t + u, cs) == Prefixes(t, cs)
  {
    if cs != [] {
      assert (t + u)[..cs[0]] == t[..cs[0]];
      PrefixesBehind(t, u, cs[1..]);
    }
  }

  lemma {:induction false} TransmittedTaken(contents: seq<byte>, results: seq<WriteResult>)
    ensures Transmitted(contents, results) == Prefixes(contents, Taken(|contents|, results))
  {
    if contents != [] && results != [] && results[0].Sent? {
      if results[0].rt < |contents| {
        TransmittedTaken(contents, results[1..]);
      } else {
        assert Prefixes(contents, [|contents|]) == contents + Prefixes(contents, []);
      }
    }
  }

  /** Every write sends a prefix of all that was ever put into the out-buffer. */
  lemma {:induction false} WireTaken(batches: seq<seq<byte>>, held: seq<byte>, writes: seq<seq<WriteResult>>)
    requires |writes| == |batches|
    ensures Wire(batches, held, writes) == Prefixes(held + Flatten(batches), TakenAll(batches, |held|, writes))
  {
    if batches != [] {
      var now, later := held + batches[0], Flatten(batches[1..]);
      var cs := Taken(|now|, writes[0]);
      Assoc(held, batches[0], later);
      TransmittedTaken(now, writes[0]);
      PrefixesBehind(now, later, cs);
      WireTaken(batches[1..], now, writes[1..]);
      PrefixesAppend(now + later, cs, TakenAll(batches[1..], |now|, writes[1..]));
    }
  }

  function NonZero(cs: seq<nat>): (r: seq<nat>)
    ensures forall i :: 0 <= i < |r| ==> r[i] > 0
  {
    if cs == [] then [] else (if cs[0] == 0 then [] else [cs[0]]) + NonZero(cs[1..])
  }

  lemma {:induction false} PrefixesNonZero<T>(t: seq<T>, cs: seq<nat>)
    requires Within(cs, |t|)
    ensures Within(NonZero(cs), |t|) && Prefixes(t, cs) == Prefixes(t, NonZero(cs))
  {
    if cs != [] {
      PrefixesNonZero(t, cs[1..]);
      if cs[0] == 0 {
        assert NonZero(cs) == NonZero(cs[1..]);
      } else {
        assert NonZero(cs)[1..] == NonZero(cs[1..]);
      }
    }
  }

  /** The positions 0, 1, up to n. */
  function Positions(n: nat): (ps: seq<nat>)
    ensures |ps| == n && forall i :: 0 <= i < n ==> ps[i] == i
  {
    seq(n, i => i)
  }

  lemma PositionsOnce(n: nat, cs: seq<nat>)
    requires Within(cs, n) && forall i :: 0 <= i < |cs| ==> cs[i] > 0
    ensures Prefixes(Positions(n), cs) == Positions(n) <==> cs == if n == 0 then [] else [n]
  {
    var t := Positions(n);
    if |cs| == 1 {
      assert Prefixes(t, cs) == t[..cs[0]] + Prefixes(t, []);
      assert |t[..cs[0]]| == cs[0];
      assert t[..n] == t;
    } else if |cs| > 1 {
      assert Prefixes(t, cs) == t[..cs[0]] + (t[..cs[1]] + Prefixes(t, cs[1..][1..]));
      assert Prefixes(t, cs)[cs[0]] == 0;
    }
  }

  /** The bytes sent are prefixes of the responses' bytes, one per write. Position by position, each byte is
      sent exactly once and in order if and only if a single write takes bytes and takes them all: every
      other write that takes anything, be it a short one, sends bytes again. */
  lemma SentOnceIff(batches: seq<seq<byte>>, writes: seq<seq<WriteResult>>)
    requires |writes| == |batches|
    ensures var n, cs := |Flatten(batches)|, TakenAll(batches, 0, writes);
            && Wire(batches, [], writes) == Prefixes(Flatten(batches), cs)
            && (Prefixes(Positions(n), cs) == Positions(n) <==> NonZero(cs) == if n == 0 then [] else [n])
  {
    var cs := TakenAll(batches, 0, writes);
    WireTaken(batches, [], writes);
    assert [] + Flatten(batches) == Flatten(batches);
    PrefixesNonZero(Positions(|Flatten(batches)|), cs);
    PositionsOnce(|Flatten(batches)|, NonZero(cs));
  }

  /** Each onWrite's first write takes everything there is. */
  predicate Complete(batches: seq<seq<byte>>, held: nat, writes: seq<seq<WriteResult>>)
    requires |writes| == |batches|
  {
    batches == []
    || (&& writes[0] != [] && writes[0][0].Sent? && writes[0][0].rt >= held + |batches[0]|
        && Complete(batches[1..], held + |batches[0]|, writes[1..]))
  }

  lemma {:induction false} WireLength(batches: seq<seq<byte>>, held: seq<byte>, writes: seq<seq<WriteResult>>)
    requires |writes| == |batches| && Complete(batches, |held|, writes)
    ensures |Wire(batches, held, writes)| >= |Flatten(batches)| + (if batches == [] then 0 else |held|)
  {
    if batches != [] {
      WireLength(batches[1..], held + batches[0], writes[1..]);
    }
  }

  /** When the socket takes everything each time, the client gets exactly the responses if and only if no
      batch but the last holds any bytes. */
  lemma {:induction false} CompleteWritesIff(batches: seq<seq<byte>>, writes: seq<seq<WriteResult>>)
    requires |writes| == |batches| && Complete(batches, 0, writes)
    ensures Wire(batches, [], writes) == Flatten(batches) <==> forall i :: 0 <= i < |batches| - 1 ==> batches[i] == []
  {
    if batches != [] {
      var b, rest, later := batches[0], batches[1..], writes[1..];
      assert [] + b == b;
      assert Wire(batches, [], writes) == b + Wire(rest, b, later);
      WireLength(rest, b, later);
      if b == [] {
        CompleteWritesIff(rest, later);
        assert b + Wire(rest, b, later) == Wire(rest, b, later) && b + Flatten(rest) == Flatten(rest);
        assert forall i :: 0 <= i < |rest| - 1 ==> rest[i] == batches[i + 1];
        assert forall i :: 0 < i < |batches| - 1 ==> batches[i] == rest[i - 1];
      } else if rest == [] {
        assert Flatten(rest) == [] == Wire(rest, b, later);
      } else {
        assert |Wire(batches, [], writes)| > |Flatten(batches)|;
      }
    }
  }

  /** Two answers in two rounds: the first is sent twice. */
  lemma ResentInput(x: byte, y: byte)
    ensures Wire([[x], [y]], [], [[Sent(1)], [Sent(2)]]) == [x, x, y] != Flatten([[x], [y]])
  {
    var batches, writes := [[x], [y]], [[Sent(1)], [Sent(2)]];
    assert batches[1..] == [[y]] && writes[1..] == [[Sent(2)]];
    assert [] + [x] == [x] && [x] + [y] == [x, y];
    assert Wire([[y]], [x], [[Sent(2)]]) == [x, y] + Wire([], [x, y], []);
    assert Flatten([[y]]) == [y] + Flatten([]);
  }

  /** Two short writes and a block in one round: half the answer is sent twice, the other half never. */
  lemma ShortWriteInput(x: byte, y: byte)
    ensures Wire([[x, y]], [], [[Sent(1), Sent(1), WouldBlock]]) == [x, x]
  {
    var w := [Sent(1), Sent(1), WouldBlock];
    assert w[1..] == [Sent(1), WouldBlock] && w[1..][1..] == [WouldBlock];
    assert [] + [x, y] == [x, y] && [x, y][..1] == [x];
    assert Transmitted([x, y], w) == [x] + ([x] + Transmitted([x, y], [WouldBlock]));
  }

  function MessagesOf(calls: seq<Call>): (ms: seq<Message>)
    ensures |ms| == |calls| && forall i :: 0 <= i < |ms| ==> ms[i] == calls[i].message
  {
    seq(|calls|, i requires 0 <= i < |calls| => calls[i].message)
  }

  /** The completion calls of sent messages: each with its message sealed. */
  function SealedCalls(calls: seq<Call>): (cs: seq<Call>)
    ensures |cs| == |calls|
    ensures forall i :: 0 <= i < |cs| ==> cs[i] == Call(calls[i].callback, Sealed(calls[i].message))
  {
    seq(|calls|, i requires 0 <= i < |calls| => Call(calls[i].callback, Sealed(calls[i].message)))
  }

  datatype ConnectionType = Server | Client

  class TcpConnection {
    const connectionType: ConnectionType
    const inBuffer: TcpBuffer
    const outBuffer: TcpBuffer
    var readDones: map<seq<byte>, Callback>                 // m_read_dones
    var writeDones: seq<Call>                               // m_write_dones
    var listeningForWrite: bool                             // listenWrite was called
    ghost var invoked: seq<Call>                            // calls made so far, in order

    ghost function Footprint(): set<object>
      reads this, inBuffer, outBuffer
    {
      {this, inBuffer, outBuffer, inBuffer.buffer, outBuffer.buffer}
    }

    ghost predicate Valid()
      reads this, inBuffer, outBuffer, inBuffer.buffer, outBuffer.buffer
    {
      && inBuffer != outBuffer && inBuffer.buffer != outBuffer.buffer
      && inBuffer.Valid() && outBuffer.Valid()
    }

    constructor (connectionType: ConnectionType, bufferSize: nat)
      ensures Valid() && fresh(inBuffer) && fresh(outBuffer) && fresh(inBuffer.buffer) && fresh(outBuffer.buffer)
      ensures inBuffer.Contents() == [] && outBuffer.Contents() == []
      ensures readDones == map[] && writeDones == [] && invoked == []
      ensures this.connectionType == connectionType
    {
      this.connectionType := connectionType;
      inBuffer := new TcpBuffer(bufferSize);
      outBuffer := new TcpBuffer(bufferSize);
      readDones, writeDones, listeningForWrite, invoked := map[], [], false, [];
    }

    method PushSendMessage(message: Message, done: Callback)
      modifies this`writeDones
      ensures writeDones == old(writeDones) + [Call(done, message)]
    {
      writeDones := writeDones + [Call(done, message)];
    }

    /** map::insert: a callback already registered under the identifier stays. */
    method PushReadMessage(msgId: seq<byte>, done: Callback)
      modifies this`readDones
      ensures readDones == if msgId in old(readDones) then old(readDones) else old(readDones)[msgId := done]
    {
      if msgId !in readDones {
        readDones := readDones[msgId := done];
      }
    }

    /** The server branch of excute: one response per decoded request is appended to the out-buffer. */
    method ExcuteServer(dispatcher: RpcDispatcher)
      requires Valid() && |inBuffer.Contents()| <= INT_MAX && DecodeStream(inBuffer.Contents()).Messages?
      requires AllEncodable(Responses(dispatcher.serviceMap, DecodeStream(inBuffer.Contents()).ms))
      modifies this`listeningForWrite, inBuffer, outBuffer, outBuffer.buffer
      ensures Valid() && inBuffer.Contents() == [] && listeningForWrite
      ensures inBuffer.State() == Emptied(old(inBuffer.State()))
      ensures inBuffer.buffer == old(inBuffer.buffer) || fresh(inBuffer.buffer)
      ensures outBuffer.buffer == old(outBuffer.buffer) || fresh(outBuffer.buffer)
      ensures outBuffer.Contents() == old(outBuffer.Contents())
                + Frames(Responses(dispatcher.serviceMap, DecodeStream(old(inBuffer.Contents())).ms))
    {
      hide DecodeStream, Frames, Encodable, DispatchResult, Buf.Valid, TcpBuffer.Contents, Emptied;
      hide Handled, Answered, Fails, CarriesOutcome, ErrorText, Ascii;
      ghost var decoded := DecodeStream(inBuffer.Contents()).ms;
      var results := Decode([], inBuffer);
      assert results == decoded;
      var responses: seq<Message> := [];
      for i := 0 to |results|
        invariant |responses| == i
        invariant forall k :: 0 <= k < i ==> responses[k] == ResponseOf(dispatcher.serviceMap, results[k])
        modifies {}
      {
        var request, message := dispatcher.Dispatch(results[i], EMPTY_MESSAGE);
        responses := responses + [message];
      }
      assert responses == Responses(dispatcher.serviceMap, results);
      var sealed := Encode(responses, outBuffer);
      listeningForWrite := true;
    }

    /** The writing loop of onWrite over the results of write(2). The read index never moves, so every write
        starts from the same byte, and the bytes stay in the buffer. */
    method SendAll(results: seq<WriteResult>) returns (sent: seq<byte>, isWriteAll: bool)
      requires outBuffer.Valid()
      modifies this`listeningForWrite
      ensures sent == Transmitted(outBuffer.Contents(), results)
      ensures isWriteAll <==> WroteAll(outBuffer.Contents(), results)
      ensures listeningForWrite == (old(listeningForWrite) && !isWriteAll)
    {
      hide Transmitted, Buf.Valid;
      sent, isWriteAll := [], false;
      ghost var contents := outBuffer.Contents();
      assert results[0..] == results;
      TransmittedNothing(contents);
      var k := 0;
      while true
        invariant 0 <= k <= |results|
        invariant sent + Transmitted(contents, results[k..]) == Transmitted(contents, results)
        invariant forall j :: 0 <= j < k ==> results[j].Sent? && results[j].rt < |contents|
        modifies {}
        decreases |results| - k
      {
        var writeCount := outBuffer.ReadAble();
        if writeCount == 0 {
          isWriteAll := true;
          NothingTransmitted(results[k..]);
          break;
        }
        if k == |results| {
          assert results[k..] == [];
          break;
        }
        TransmittedNext(contents, results, k);
        if results[k].WouldBlock? {
          break;
        }
        var taken := Min(results[k].rt, writeCount);
        var chunk := outBuffer.buffer[outBuffer.readIdx..outBuffer.readIdx + taken];
        LivePrefix(outBuffer.State(), taken);
        assert chunk == contents[..taken];
        Assoc(sent, chunk, Transmitted(contents, results[k + 1..]));
        sent := sent + chunk;
        if results[k].rt >= writeCount {
          isWriteAll := true;
          break;
        }
        k := k + 1;
      }
      if isWriteAll {
        listeningForWrite := false;
      }
    }

    /** onWrite of a client: every queued message is encoded, and its completion function is called with it,
        whether or not the socket took the bytes. */
    method OnWriteClient(results: seq<WriteResult>) returns (sent: seq<byte>)
      requires Valid() && AllEncodable(MessagesOf(writeDones))
      modifies this`writeDones, this`invoked, this`listeningForWrite, outBuffer, outBuffer.buffer
      ensures Valid() && (outBuffer.buffer == old(outBuffer.buffer) || fresh(outBuffer.buffer))
      ensures outBuffer.Contents() == old(outBuffer.Contents()) + Frames(MessagesOf(old(writeDones)))
      ensures sent == Transmitted(outBuffer.Contents(), results)
      ensures writeDones == [] && invoked == old(invoked) + SealedCalls(old(writeDones))
      ensures listeningForWrite == (old(listeningForWrite) && !WroteAll(outBuffer.Contents(), results))
    {
      hide Frames, Encodable, Sealed, TcpBuffer.Contents, Buf.Valid;
      var messages: seq<Message> := [];
      for i := 0 to |writeDones|
        invariant messages == MessagesOf(writeDones[..i])
        modifies {}
      {
        messages := messages + [writeDones[i].message];
      }
      assert messages == MessagesOf(writeDones);
      var sealed := Encode(messages, outBuffer);
      var isWriteAll;
      sent, isWriteAll := SendAll(results);
      for i := 0 to |writeDones|
        invariant invoked == old(invoked) + SealedCalls(writeDones[..i])
        modifies this`invoked
      {
        invoked := invoked + [Call(writeDones[i].callback, sealed[i])];
      }
      assert SealedCalls(writeDones) == SealedCalls(writeDones[..|writeDones|]);
      writeDones := [];
    }

    /** The client branch of excute: every decoded message is handed to the callback of its identifier. */
    method ExcuteClient()
      requires Valid() && |inBuffer.Contents()| <= INT_MAX && DecodeStream(inBuffer.Contents()).Messages?
      modifies this`invoked, inBuffer
      ensures Valid() && inBuffer.Contents() == []
      ensures inBuffer.buffer == old(inBuffer.buffer) || fresh(inBuffer.buffer)
      ensures invoked == old(invoked) + Routed(readDones, DecodeStream(old(inBuffer.Contents())).ms)
    {
      hide DecodeStream, TcpBuffer.Valid, TcpBuffer.Contents;
      var result := Decode([], inBuffer);
      assert Routed(readDones, result[..0]) == [];
      for i := 0 to |result|
        invariant invoked == old(invoked) + Routed(readDones, result[..i])
        modifies this`invoked
      {
        var request := result[i];
        RoutedNext(readDones, result, i);
        if request.msgId in readDones {
          invoked := invoked + [Call(readDones[request.msgId], request)];
        }
      }
      assert result[..|result|] == result;
    }

    /** One read of onRead: makes room if there is none, lets the socket fill the free space, and moves the
        write index, which is refused when nothing stays free. */
    method ReadOnce(rest: seq<byte>) returns (rt: nat, readCount: nat)
      requires inBuffer.Valid() && FreeSpace(inBuffer.State()) > 0
      modifies inBuffer, inBuffer.buffer
      ensures inBuffer.Valid() && (inBuffer.buffer == old(inBuffer.buffer) || fresh(inBuffer.buffer))
      ensures readCount == FreeSpace(old(inBuffer.State())) && rt == Min(|rest|, readCount)
      ensures inBuffer.State() == Received(old(inBuffer.State()), rest[..rt])
    {
      hide Resized, Stored, WriteMoved, Buf.Valid, Zeros, WithRoom, Received, Step;
      ghost var b := inBuffer.State();
      RoomKept(b);
      RoomIs(b);
      var n := inBuffer.WriteAble();
      if n == 0 {
        inBuffer.ResizeBuffer(2 * inBuffer.size);
      }
      assert inBuffer.State() == WithRoom(b);
      readCount := inBuffer.WriteAble();
      rt := Min(|rest|, readCount);
      ReceivedIs(b, rest[..rt]);
      if rt > 0 {
        StoredValid(WithRoom(b), rest[..rt]);
        ReceivedEffect(b, rest[..rt]);
        inBuffer.Store(rest[..rt]);
        inBuffer.MoveWriteIndex(rt);
      }
    }

    /** onRead up to the call of excute, for the bytes the socket holds. */
    method ReceiveAll(arriving: seq<byte>)
      requires inBuffer.Valid() && inBuffer.size > 0
      modifies inBuffer, inBuffer.buffer
      ensures inBuffer.Valid() && (inBuffer.buffer == old(inBuffer.buffer) || fresh(inBuffer.buffer))
      ensures old(FreeSpace(inBuffer.State())) > 0
      ensures inBuffer.Contents()
           == old(inBuffer.Contents()) + Surviving(old(FreeSpace(inBuffer.State())), arriving)
      ensures old(FreeSpace(inBuffer.State())) == if old(inBuffer.writeIdx) < old(inBuffer.size)
              then old(inBuffer.size) - old(inBuffer.writeIdx)
              else 2 * old(inBuffer.size) - |old(inBuffer.Contents())|
      ensures ShapeOf(inBuffer.State())
           == Fuller(ShapeOf(WithRoom(old(inBuffer.State()))),
                     |Surviving(old(FreeSpace(inBuffer.State())), arriving)|)
    {
      hide Received, Buf.Valid, Surviving, WithRoom;
      var rest := arriving;
      ghost var shape := ShapeOf(WithRoom(inBuffer.State()));
      ghost var space := FreeSpace(inBuffer.State());
      ghost var contents := inBuffer.Contents();
      while true
        invariant inBuffer.Valid() && (inBuffer.buffer == old(inBuffer.buffer) || fresh(inBuffer.buffer))
        invariant FreeSpace(inBuffer.State()) == space > 0 && inBuffer.Contents() == contents
        invariant Surviving(space, rest) == Surviving(space, arriving)
        invariant ShapeOf(WithRoom(inBuffer.State())) == shape
        decreases |rest|
      {
        ghost var b := inBuffer.State();
        var rt, readCount := ReadOnce(rest);
        ReceivedEffect(b, rest[..rt]);
        SurvivingStep(space, rest);
        if rt != readCount {
          assert rest[..rt] == rest;
          break;
        }
        rest := rest[rt..];
      }
    }
  }

  /** Where a buffer's bytes lie, whatever they are. */
  datatype Shape = Shape(size: nat, r: nat, w: nat)

  function ShapeOf(b: Buf): Shape {
    Shape(|b.data|, b.r, b.w)
  }

  function Fuller(s: Shape, n: nat): Shape {
    s.(w := s.w + n)
  }

  /** The space the first read of onRead may fill: the free space, after doubling a full buffer. */
  function FreeSpace(b: Buf): int {
    if b.w == |b.data| then 2 * |b.data| - (b.w - b.r) else |b.data| - b.w
  }

  function WithRoom(b: Buf): Buf
    requires b.InRange()
  {
    if b.w == |b.data| then Step(b, Double) else b
  }

  /** The buffer after one read of those bytes. */
  function Received(b: Buf, bs: seq<byte>): Buf
    requires b.InRange() && |bs| <= FreeSpace(b)
  {
    var c := WithRoom(b);
    if bs == [] then c else Step(c, Fill(bs))
  }

  lemma RoomKept(b: Buf)
    requires b.Valid()
    ensures WithRoom(b).Valid() && WithRoom(b).Live() == b.Live()
    ensures FreeSpace(b) == |WithRoom(b).data| - WithRoom(b).w
  {
    assert WithRoom(b).Live() == b.Live();
  }

  lemma RoomIs(b: Buf)
    requires b.InRange()
    ensures WithRoom(b) == if b.w == |b.data| then Resized(b, 2 * |b.data|) else b
  {
  }

  lemma ReceivedIs(b: Buf, bs: seq<byte>)
    requires b.InRange() && |bs| <= FreeSpace(b)
    ensures var c := WithRoom(b);
            && c.w + |bs| <= |c.data|
            && Received(b, bs) == if bs == [] then c else WriteMoved(Stored(c, bs), |bs|)
  {
  }

  lemma StoredValid(b: Buf, bs: seq<byte>)
    requires b.Valid() && b.w + |bs| <= |b.data|
    ensures Stored(b, bs).Valid() && |Stored(b, bs).data| == |b.data|
  {
  }

  /** A read is kept exactly when some space stays free. */
  lemma ReceivedEffect(b: Buf, bs: seq<byte>)
    requires b.Valid() && |bs| <= FreeSpace(b) && FreeSpace(b) > 0
    ensures var c := Received(b, bs);
            && c.Valid()
            && (|bs| < FreeSpace(b) ==>
                  c.Live() == b.Live() + bs && ShapeOf(c) == Fuller(ShapeOf(WithRoom(b)), |bs|))
            && (|bs| == FreeSpace(b) ==>
                  c.Live() == b.Live() && FreeSpace(c) == FreeSpace(b)
                  && ShapeOf(WithRoom(c)) == ShapeOf(WithRoom(b)))
  {
    RoomKept(b);
    StoredTail(WithRoom(b), bs);
    hide Resized, Stored;
  }

  lemma SurvivingStep(space: nat, rest: seq<byte>)
    requires space > 0
    ensures Surviving(space, rest) == if |rest| < space then rest else Surviving(space, rest[space..])
  {
  }

  // ---- From request to response and back ----

  /** A response to a valid request is valid unless its payload is too long for the length field. */
  lemma ResponseValid(services: map<seq<byte>, Service>, request: Message)
    requires Valid(request) && Encodable(ResponseOf(services, Sealed(request)))
    ensures Valid(ResponseOf(services, Sealed(request)))
  {
    ResponseCarriesIdIff(services, Sealed(request), EMPTY_MESSAGE);
    assert ResponseOf(services, Sealed(request)).errorMsg == [];
  }

  /** The answer to a request, told by the registry: under the request's identifier and method, with what the
      named method's handler made of the request's bytes; the empty message under the default identifier if
      the request names no method or its bytes do not parse. */
  ghost predicate AnswersRight(services: map<seq<byte>, Service>, request: Message, answer: Message) {
    && (forall s, m :: Names(services, request, s, m) ==>
          var named := EMPTY_MESSAGE.(msgId := EffectiveId(request), methodName := request.methodName);
          match services[s][m](request.pbData)
          case BadRequest => answer == Sealed(EMPTY_MESSAGE)
          case BadReply(partial) => answer == Sealed(named.(pbData := partial))
          case Reply(pbData) => answer == Sealed(named.(pbData := pbData)))
    && ((forall s, m :: !Names(services, request, s, m)) ==> answer == Sealed(EMPTY_MESSAGE))
  }

  lemma AnswerRight(services: map<seq<byte>, Service>, request: Message)
    ensures AnswersRight(services, request, Sealed(ResponseOf(services, Sealed(request))))
  {
    ResponseCarriesReply(services, Sealed(request), EMPTY_MESSAGE);
    ResponseCarriesIdIff(services, Sealed(request), EMPTY_MESSAGE);
    hide DispatchResult, Sealed;
    SealedNames(request);
    assert forall s, m :: Names(services, request, s, m) ==> Names(services, Sealed(request), s, m);
    assert forall s, m :: Names(services, Sealed(request), s, m) ==> Names(services, request, s, m);
  }

  lemma SealedNames(request: Message)
    ensures Sealed(request).msgId == EffectiveId(request) && Sealed(request).methodName == request.methodName
    ensures Sealed(request).pbData == request.pbData
  {
  }

  /** Requests encoded into a server's empty in-buffer are answered one by one, in order: the bytes the
      server appends decode to one response per request. A response carries its request's identifier and
      method and what the handler made of its payload if the handler was reached; otherwise it is the empty
      message under the default identifier. */
  lemma EndToEnd(services: map<seq<byte>, Service>, requests: seq<Message>)
    requires AllValid(requests) && |Frames(requests)| <= INT_MAX
    requires AllEncodable(Responses(services, SealedAll(requests)))
    requires |Frames(Responses(services, SealedAll(requests)))| <= INT_MAX
    ensures DecodeStream(Frames(requests)) == Messages(SealedAll(requests))
    ensures var answers := SealedAll(Responses(services, SealedAll(requests)));
            && DecodeStream(Frames(Responses(services, SealedAll(requests)))) == Messages(answers)
            && |answers| == |requests|
            && forall i :: 0 <= i < |requests| ==>
                 if Handled(services, Sealed(requests[i]))
                 then answers[i].msgId == EffectiveId(requests[i])
                      && answers[i].methodName == requests[i].methodName && answers[i].errorCode == 0
                 else answers[i] == Sealed(EMPTY_MESSAGE)
    ensures forall i :: 0 <= i < |requests| ==>
              AnswersRight(services, requests[i], SealedAll(Responses(services, SealedAll(requests)))[i])
  {
    hide Frame, DecodeFrom, Handled, DispatchResult, Valid, Encodable;
    forall i | 0 <= i < |requests|
      ensures Valid(ResponseOf(services, Sealed(requests[i])))
    {
      assert requests[i] in requests;
      assert Responses(services, SealedAll(requests))[i] in Responses(services, SealedAll(requests));
      ResponseValid(services, requests[i]);
    }
    FramesRoundTrip(requests);
    FramesRoundTrip(Responses(services, SealedAll(requests)));
    forall i | 0 <= i < |requests|
      ensures var a := SealedAll(Responses(services, SealedAll(requests)))[i];
              if Handled(services, Sealed(requests[i]))
              then a.msgId == EffectiveId(requests[i]) && a.methodName == requests[i].methodName && a.errorCode == 0
              else a == Sealed(EMPTY_MESSAGE)
    {
      ResponseCarriesIdIff(services, Sealed(requests[i]), EMPTY_MESSAGE);
    }
    hide AnswersRight, Sealed;
    forall i | 0 <= i < |requests|
      ensures AnswersRight(services, requests[i], SealedAll(Responses(services, SealedAll(requests)))[i])
    {
      AnswerRight(services, requests[i]);
    }
  }

  /** A client that registered a callback under every identifier it used, and got every request handled,
      sees exactly those callbacks called, in request order, each with what the handler made of its request. */
  lemma CallbacksInOrder(services: map<seq<byte>, Service>, requests: seq<Message>, readDones: map<seq<byte>, Callback>)
    requires AllValid(requests) && |Frames(requests)| <= INT_MAX
    requires AllEncodable(Responses(services, SealedAll(requests)))
    requires |Frames(Responses(services, SealedAll(requests)))| <= INT_MAX
    requires forall m <- requests :: EffectiveId(m) in readDones && Handled(services, Sealed(m))
    ensures var answers := SealedAll(Responses(services, SealedAll(requests)));
            var calls := Routed(readDones, answers);
            && DecodeStream(Frames(Responses(services, SealedAll(requests)))) == Messages(answers)
            && |calls| == |requests|
            && forall i :: 0 <= i < |requests| ==>
                 && calls[i].callback == readDones[EffectiveId(requests[i])] && calls[i].message == answers[i]
                 && AnswersRight(services, requests[i], calls[i].message)
  {
    hide Frame, DecodeStream, Handled, DispatchResult, Valid, AnswersRight;
    EndToEnd(services, requests);
    var answers := SealedAll(Responses(services, SealedAll(requests)));
    forall m | m in answers
      ensures m.msgId in readDones
    {
      var i :| 0 <= i < |answers| && answers[i] == m;
      assert requests[i] in requests;
    }
    RoutedAll(readDones, answers);
  }

  /** A caller hears back exactly when its request reached the handler: the answer to any other request
      comes under the default identifier, for which nobody waits. */
  lemma HeardBackIff(services: map<seq<byte>, Service>, request: Message, readDones: map<seq<byte>, Callback>)
    requires EffectiveId(request) in readDones && DEFAULT_ID !in readDones
    ensures Routed(readDones, [Sealed(ResponseOf(services, Sealed(request)))]) != []
       <==> Handled(services, Sealed(request))
  {
    hide Handled, DispatchResult;
    ResponseCarriesIdIff(services, Sealed(request), EMPTY_MESSAGE);
    var answer := Sealed(ResponseOf(services, Sealed(request)));
    assert [answer][1..] == [];
  }

  /** Connects a client and a server buffer to buffer: the queued requests go out, are served, and the
      answers are routed. */
  method Exchange(client: TcpConnection, server: TcpConnection, dispatcher: RpcDispatcher)
    requires client.Valid() && server.Valid() && client.Footprint() !! server.Footprint()
    requires client.inBuffer.Contents() == [] && client.outBuffer.Contents() == []
    requires server.inBuffer.Contents() == [] && server.outBuffer.Contents() == []
    requires var requests := MessagesOf(client.writeDones);
             && AllValid(requests) && |Frames(requests)| <= INT_MAX
             && AllEncodable(Responses(dispatcher.serviceMap, SealedAll(requests)))
             && |Frames(Responses(dispatcher.serviceMap, SealedAll(requests)))| <= INT_MAX
    modifies client, client.Footprint(), server, server.Footprint()
    ensures client.invoked == old(client.invoked) + SealedCalls(old(client.writeDones))
              + Routed(client.readDones,
                       SealedAll(Responses(dispatcher.serviceMap, SealedAll(MessagesOf(old(client.writeDones))))))
    ensures client.readDones == old(client.readDones)
  {
    hide Frames, Sealed, DecodeStream, AllValid, TcpBuffer.Contents, Buf.Valid, Routed, Encodable, Handled;
    hide Transmitted, SealedAll, Responses, SealedCalls, MessagesOf, AllEncodable, Emptied, Handled, Flatten;
    ghost var requests := MessagesOf(client.writeDones);
    ghost var services := dispatcher.serviceMap;
    EndToEnd(services, requests);
    ValidEncodable(requests);
    var sent := client.OnWriteClient([Sent(INT_MAX)]);
    TransmittedAll(Frames(requests));
    Deliver(server.inBuffer, sent);
    var reply := Respond(server, dispatcher, [Sent(INT_MAX)]);
    TransmittedAll(Frames(Responses(services, SealedAll(requests))));
    Deliver(client.inBuffer, reply);
    client.ExcuteClient();
  }

  /** Bytes that arrive in an empty buffer. */
  method Deliver(buffer: TcpBuffer, bytes: seq<byte>)
    requires buffer.Valid() && buffer.Contents() == []
    modifies buffer, buffer.buffer
    ensures buffer.Valid() && (buffer.buffer == old(buffer.buffer) || fresh(buffer.buffer))
    ensures buffer.Contents() == bytes
  {
    buffer.WriteToBuffer(bytes);
  }

  /** The bytes decode, and the responses fit their length fields. */
  predicate Servable(services: map<seq<byte>, Service>, bytes: seq<byte>) {
    && |bytes| <= INT_MAX && DecodeStream(bytes).Messages?
    && AllEncodable(Responses(services, DecodeStream(bytes).ms))
  }

  /** The bytes a server answers to those it received. */
  function AnswerTo(services: map<seq<byte>, Service>, bytes: seq<byte>): seq<byte>
    requires Servable(services, bytes)
  {
    Frames(Responses(services, DecodeStream(bytes).ms))
  }

  function Answers(services: map<seq<byte>, Service>, inputs: seq<seq<byte>>): (rs: seq<seq<byte>>)
    requires forall i :: 0 <= i < |inputs| ==> Servable(services, inputs[i])
    ensures |rs| == |inputs|
    ensures forall i :: 0 <= i < |rs| ==> rs[i] == AnswerTo(services, inputs[i])
  {
    seq(|inputs|, i requires 0 <= i < |inputs| => AnswerTo(services, inputs[i]))
  }

  /** The server's part of a round: the requests received are served, and onWrite runs. */
  method Respond(server: TcpConnection, dispatcher: RpcDispatcher, results: seq<WriteResult>)
    returns (sent: seq<byte>)
    requires server.Valid() && Servable(dispatcher.serviceMap, server.inBuffer.Contents())
    modifies server`listeningForWrite, server.inBuffer, server.outBuffer, server.outBuffer.buffer
    ensures server.Valid() && server.inBuffer.Contents() == []
    ensures server.inBuffer.State() == Emptied(old(server.inBuffer.State()))
    ensures server.inBuffer.buffer == old(server.inBuffer.buffer) || fresh(server.inBuffer.buffer)
    ensures server.outBuffer.buffer == old(server.outBuffer.buffer) || fresh(server.outBuffer.buffer)
    ensures server.outBuffer.Contents()
         == old(server.outBuffer.Contents()) + AnswerTo(dispatcher.serviceMap, old(server.inBuffer.Contents()))
    ensures sent == Transmitted(server.outBuffer.Contents(), results)
    ensures server.listeningForWrite <==> !WroteAll(server.outBuffer.Contents(), results)
  {
    hide Frames, DecodeStream, TcpBuffer.Contents, Buf.Valid, Transmitted, Responses, AllEncodable, Emptied;
    hide WroteAll;
    server.ExcuteServer(dispatcher);
    var all;
    sent, all := server.SendAll(results);
  }

  /** Where both indices of an empty buffer of that size, at index at, are after n bytes came and were read. */
  function NextIndex(size: nat, at: nat, n: nat): nat {
    if n == 0 || at + n < size / 3 then at + n else 0
  }

  /** What is left, round by round, of the bytes arriving at an empty in-buffer that is emptied each time. */
  function Kept(size: nat, at: nat, inputs: seq<seq<byte>>): (kept: seq<seq<byte>>)
    requires at < size
    ensures |kept| == |inputs|
    decreases |inputs|
  {
    if inputs == [] then []
    else
      var now := Surviving(size - at, inputs[0]);
      [now] + Kept(size, NextIndex(size, at, |now|), inputs[1..])
  }

  /** Inputs of less than two thirds of the in-buffer always arrive whole, whatever came before. */
  lemma {:induction false} KeptWhole(size: nat, at: nat, inputs: seq<seq<byte>>)
    requires at == 0 < size || at < size / 3
    requires forall i :: 0 <= i < |inputs| ==> |inputs[i]| < size - size / 3
    ensures Kept(size, at, inputs) == inputs
    decreases |inputs|
  {
    if inputs != [] {
      KeptWhole(size, NextIndex(size, at, |inputs[0]|), inputs[1..]);
    }
  }

  lemma KeptNext(size: nat, at: nat, inputs: seq<seq<byte>>, i: nat, kept: seq<seq<byte>>)
    requires at < size && i < |inputs| == |kept| && Kept(size, at, inputs[i..]) == kept[i..]
    ensures kept[i] == Surviving(size - at, inputs[i]) && NextIndex(size, at, |kept[i]|) < size
    ensures Kept(size, NextIndex(size, at, |kept[i]|), inputs[i + 1..]) == kept[i + 1..]
  {
    assert inputs[i..][1..] == inputs[i + 1..];
    var now := Surviving(size - at, inputs[i]);
    var later := Kept(size, NextIndex(size, at, |now|), inputs[i + 1..]);
    assert kept[i..] == [now] + later;
    assert kept[i..][0] == kept[i] && kept[i..][1..] == kept[i + 1..] && ([now] + later)[1..] == later;
  }

  /** A round's effect on the place of the in-buffer's bytes. */
  lemma EmptiedShape(b: Buf, size: nat, at: nat, n: nat)
    requires b.Valid() && ShapeOf(b) == Shape(size, at, at + n)
    ensures ShapeOf(Emptied(b)) == Shape(size, NextIndex(size, at, n), NextIndex(size, at, n))
  {
    if n > 0 {
      AdjustedKeepsLive(b.(r := b.w));
    }
  }

  /** One round: bytes arrive, what is kept of them is served, and onWrite runs. */
  method ServeRound(
      server: TcpConnection, dispatcher: RpcDispatcher, input: seq<byte>, results: seq<WriteResult>,
      ghost size: nat, ghost at: nat, ghost kept: seq<byte>)
    returns (sent: seq<byte>)
    requires server.Valid() && ShapeOf(server.inBuffer.State()) == Shape(size, at, at) && at < size
    requires kept == Surviving(size - at, input) && Servable(dispatcher.serviceMap, kept)
    modifies server, server.inBuffer, server.outBuffer, server.inBuffer.buffer, server.outBuffer.buffer
    ensures server.Valid()
    ensures ShapeOf(server.inBuffer.State()) == Shape(size, NextIndex(size, at, |kept|), NextIndex(size, at, |kept|))
    ensures server.inBuffer.buffer == old(server.inBuffer.buffer) || fresh(server.inBuffer.buffer)
    ensures server.outBuffer.buffer == old(server.outBuffer.buffer) || fresh(server.outBuffer.buffer)
    ensures server.outBuffer.Contents()
         == old(server.outBuffer.Contents()) + AnswerTo(dispatcher.serviceMap, kept)
    ensures sent == Transmitted(server.outBuffer.Contents(), results)
  {
    hide Servable, AnswerTo, Transmitted, Surviving, Emptied, NextIndex;
    server.ReceiveAll(input);
    assert server.inBuffer.Contents() == kept;
    EmptiedShape(server.inBuffer.State(), size, at, |kept|);
    sent := Respond(server, dispatcher, results);
  }

  /** Round after round of arriving bytes: the bytes on the wire are those Wire gives for the answers to what
      is kept of them. Empty inputs are rounds in which the socket merely became writable again. */
  method ServeAll(
      server: TcpConnection, dispatcher: RpcDispatcher, inputs: seq<seq<byte>>, writes: seq<seq<WriteResult>>,
      ghost size: nat, ghost at: nat)
    returns (sent: seq<byte>)
    requires server.Valid() && |writes| == |inputs|
    requires ShapeOf(server.inBuffer.State()) == Shape(size, at, at) && at < size
    requires forall i :: 0 <= i < |inputs| ==> Servable(dispatcher.serviceMap, Kept(size, at, inputs)[i])
    modifies server, server.inBuffer, server.outBuffer, server.inBuffer.buffer, server.outBuffer.buffer
    ensures server.Valid() && server.inBuffer.Contents() == []
    ensures sent == Wire(Answers(dispatcher.serviceMap, Kept(size, at, inputs)),
                         old(server.outBuffer.Contents()), writes)
  {
    hide Servable, AnswerTo, Transmitted, Wire, Surviving, NextIndex, Kept, TcpBuffer.Contents, Buf.Valid;
    ghost var kept := Kept(size, at, inputs);
    ghost var answers := Answers(dispatcher.serviceMap, kept);
    ghost var held := server.outBuffer.Contents();
    ghost var index: nat := at;
    sent := [];
    assert answers[0..] == answers && writes[0..] == writes && kept[0..] == kept && inputs[0..] == inputs;
    for i := 0 to |inputs|
      invariant server.Valid() && server.outBuffer.Contents() == held
      invariant index < size && ShapeOf(server.inBuffer.State()) == Shape(size, index, index)
      invariant Kept(size, index, inputs[i..]) == kept[i..]
      invariant server.inBuffer.buffer == old(server.inBuffer.buffer) || fresh(server.inBuffer.buffer)
      invariant server.outBuffer.buffer == old(server.outBuffer.buffer) || fresh(server.outBuffer.buffer)
      invariant sent + Wire(answers[i..], held, writes[i..]) == Wire(answers, old(server.outBuffer.Contents()), writes)
    {
      WireNext(answers, held, writes, i);
      KeptNext(size, index, inputs, i, kept);
      var now := ServeRound(server, dispatcher, inputs[i], writes[i], size, index, kept[i]);
      index := NextIndex(size, index, |kept[i]|);
      held := held + answers[i];
      Assoc(sent, now, Wire(answers[i + 1..], held, writes[i + 1..]));
      sent := sent + now;
    }
    WireEnd(held);
    NothingUnread(server.inBuffer);
  }

  lemma NothingUnread(buffer: TcpBuffer)
    requires buffer.InRange() && ShapeOf(buffer.State()).r == ShapeOf(buffer.State()).w
    ensures buffer.Contents() == []
  {
  }

  lemma WireNext(batches: seq<seq<byte>>, held: seq<byte>, writes: seq<seq<WriteResult>>, i: nat)
    requires |writes| == |batches| && i < |batches|
    ensures Wire(batches[i..], held, writes[i..])
         == Transmitted(held + batches[i], writes[i]) + Wire(batches[i + 1..], held + batches[i], writes[i + 1..])
  {
    assert batches[i..][1..] == batches[i + 1..] && writes[i..][1..] == writes[i + 1..];
  }

  lemma WireEnd(held: seq<byte>)
    ensures Wire([], held, []) == []
  {
  }

  /** A write that can take everything sends everything. */
  lemma TransmittedAll(contents: seq<byte>)
    requires |contents| <= INT_MAX
    ensures Transmitted(contents, [Sent(INT_MAX)]) == contents && [] + contents == contents
  {
  }
}
