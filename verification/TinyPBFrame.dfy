/** TinyPB messages, the frames they are written as, and the frame writer. */
module TinyPBFrame {
  import opened Bytes
  import opened Tcp
  import opened BufferSpec

  const PB_START: byte := 0x02
  const PB_END: byte := 0x03
  const CHECK_SUM: int32 := 1
  const DEFAULT_ID: seq<byte> := [49, 50, 51, 52, 53, 54, 55, 56]  // "12345678"
  const ID_CAPACITY: nat := 128    // char msg_id[128]
  const TEXT_CAPACITY: nat := 512  // char method_name[512], error_info[512]

  /** TinyPBProtocol; the checksum field is left out because decoding never sets it. */
  datatype Message = Message(
    pkLen: int, msgIdLen: int, msgId: seq<byte>, methodNameLen: int, methodName: seq<byte>,
    errorCode: int32, errorMsgLen: int, errorMsg: seq<byte>, pbData: seq<byte>, parseSuccess: bool)

  const EMPTY_MESSAGE := Message(0, 0, [], 0, [], 0, 0, [], [], false)

  function EffectiveId(m: Message): seq<byte> {
    if m.msgId == [] then DEFAULT_ID else m.msgId
  }

  function FrameLength(m: Message): nat {
    26 + |EffectiveId(m)| + |m.methodName| + |m.errorMsg| + |m.pbData|
  }

  /** The message as encodeTinyPB leaves it: identifier defaulted, lengths filled in. */
  function Sealed(m: Message): Message {
    m.(msgId := EffectiveId(m), pkLen := FrameLength(m), msgIdLen := |EffectiveId(m)|,
       methodNameLen := |m.methodName|, errorMsgLen := |m.errorMsg|, parseSuccess := true)
  }

  /** The lengths fit the 32-bit fields. */
  predicate Encodable(m: Message) {
    FrameLength(m) <= INT_MAX
  }

  function Flatten(parts: seq<seq<byte>>): seq<byte> {
    if parts == [] then [] else parts[0] + Flatten(parts[1..])
  }

  /** The layout documented for the protocol, field by field. */
  function Parts(m: Message): seq<seq<byte>>
    requires Encodable(m)
  {
    [[PB_START],
     NetInt(FrameLength(m)),
     NetInt(|EffectiveId(m)|),
     EffectiveId(m),
     NetInt(|m.methodName|),
     m.methodName,
     NetInt(m.errorCode),
     NetInt(|m.errorMsg|),
     m.errorMsg,
     m.pbData,
     NetInt(CHECK_SUM),
     [PB_END]]
  }

  function Frame(m: Message): seq<byte>
    requires Encodable(m)
  {
    Flatten(Parts(m))
  }

  predicate AllEncodable(ms: seq<Message>) {
    forall m <- ms :: Encodable(m)
  }

  function Frames(ms: seq<Message>): seq<byte>
    requires AllEncodable(ms)
  {
    if ms == [] then [] else Frame(ms[0]) + Frames(ms[1..])
  }

  function SealedAll(ms: seq<Message>): (r: seq<Message>)
    ensures |r| == |ms|
    ensures forall k :: 0 <= k < |ms| ==> r[k] == Sealed(ms[k])
  {
    seq(|ms|, k requires 0 <= k < |ms| => Sealed(ms[k]))
  }

  lemma {:induction false} FramesAppend(ms: seq<Message>, m: Message)
    requires AllEncodable(ms) && Encodable(m)
    ensures AllEncodable(ms + [m]) && Frames(ms + [m]) == Frames(ms) + Frame(m)
  {
    hide Frame;
    var f := Frame(m);
    if ms == [] {
      assert ms + [m] == [m];
      assert Frames([m]) == f + Frames([]);
    } else {
      FramesAppend(ms[1..], m);
      assert (ms + [m])[1..] == ms[1..] + [m];
      Assoc(Frame(ms[0]), Frames(ms[1..]), f);
    }
  }

  // ---- Where the fields of a frame lie ----

  /** Writing the parts one after the other builds the whole. */
  lemma {:induction false} FlattenNext(parts: seq<seq<byte>>, k: nat)
    requires k < |parts|
    ensures Flatten(parts[..k + 1]) == Flatten(parts[..k]) + parts[k]
  {
    if k == 0 {
      assert parts[..1] == [parts[0]];
      assert Flatten([parts[0]]) == parts[0] + Flatten([]);
    } else {
      FlattenNext(parts[1..], k - 1);
      assert parts[..k + 1][1..] == parts[1..][..k] && parts[..k][1..] == parts[1..][..k - 1];
      Assoc(parts[0], Flatten(parts[1..][..k - 1]), parts[k]);
    }
  }

  /** The first parts are a prefix of the whole. */
  lemma {:induction false} FlattenPrefix(parts: seq<seq<byte>>, k: nat)
    requires k <= |parts|
    ensures Flatten(parts[..k]) <= Flatten(parts)
    decreases |parts| - k
  {
    if k == |parts| {
      assert parts[..k] == parts;
    } else {
      FlattenNext(parts, k);
      FlattenPrefix(parts, k + 1);
    }
  }

  /** Where part k starts. */
  function Offset(parts: seq<seq<byte>>, k: nat): nat
    requires k <= |parts|
  {
    if k == 0 then 0 else Offset(parts, k - 1) + |parts[k - 1]|
  }

  lemma {:induction false} OffsetIsLength(parts: seq<seq<byte>>, k: nat)
    requires k <= |parts|
    ensures Offset(parts, k) == |Flatten(parts[..k])|
  {
    if k == 0 {
      assert parts[..0] == [];
    } else {
      OffsetIsLength(parts, k - 1);
      FlattenNext(parts, k - 1);
    }
  }

  /** Part k lies between its offset and the next. */
  lemma PartAt(parts: seq<seq<byte>>, k: nat, s: seq<byte>)
    requires k < |parts| && Flatten(parts) <= s
    ensures Offset(parts, k + 1) <= |s| && s[Offset(parts, k)..Offset(parts, k + 1)] == parts[k]
  {
    FlattenNext(parts, k);
    FlattenPrefix(parts, k + 1);
    OffsetIsLength(parts, k);
    OffsetIsLength(parts, k + 1);
    assert s[..Offset(parts, k + 1)] == Flatten(parts[..k]) + parts[k];
  }

  /** An integer stored as a part is read back from there. */
  lemma IntSlice(s: seq<byte>, k: nat, v: int32)
    requires k + 4 <= |s| && s[k..k + 4] == NetInt(v)
    ensures IntAt(s, k) == v
  {
    IntAtInside(s[..k], v, s[k + 4..]);
    assert s == s[..k] + NetInt(v) + s[k + 4..];
  }

  /** p lists the fields of the frame of m. */
  ghost predicate IsLayout(p: seq<seq<byte>>, m: Message)
    requires Encodable(m)
  {
    && |p| == 12
    && p[0] == [PB_START] && p[1] == NetInt(FrameLength(m))
    && p[2] == NetInt(|EffectiveId(m)|) && p[3] == EffectiveId(m)
    && p[4] == NetInt(|m.methodName|) && p[5] == m.methodName
    && p[6] == NetInt(m.errorCode)
    && p[7] == NetInt(|m.errorMsg|) && p[8] == m.errorMsg
    && p[9] == m.pbData && p[10] == NetInt(CHECK_SUM) && p[11] == [PB_END]
    && Flatten(p) == Frame(m)
  }

  lemma Layout(m: Message) returns (p: seq<seq<byte>>)
    requires Encodable(m)
    ensures IsLayout(p, m)
  {
    p := Parts(m);
  }

  lemma FieldOffsets(p: seq<seq<byte>>, m: Message)
    requires Encodable(m) && IsLayout(p, m)
    ensures var a, b, c, d := |p[3]|, |p[5]|, |p[8]|, |p[9]|;
            && Offset(p, 0) == 0 && Offset(p, 1) == 1 && Offset(p, 2) == 5 && Offset(p, 3) == 9
            && Offset(p, 4) == 9 + a && Offset(p, 5) == 13 + a && Offset(p, 6) == 13 + a + b
            && Offset(p, 7) == 17 + a + b && Offset(p, 8) == 21 + a + b && Offset(p, 9) == 21 + a + b + c
            && Offset(p, 10) == 21 + a + b + c + d && Offset(p, 11) == 25 + a + b + c + d
            && Offset(p, 12) == 26 + a + b + c + d == |Flatten(p)|
  {
    assert p[..12] == p;
    OffsetIsLength(p, 12);
  }

  /** Every field of m is found in s at its documented offset. */
  ghost predicate HasFields(s: seq<byte>, m: Message)
  {
    var a, b, c := |EffectiveId(m)|, |m.methodName|, |m.errorMsg|;
    && FrameLength(m) <= |s|
    && s[0] == PB_START && s[FrameLength(m) - 1] == PB_END
    && IntAt(s, 1) == FrameLength(m)
    && IntAt(s, 5) == a && s[9..9 + a] == EffectiveId(m)
    && IntAt(s, 9 + a) == b && s[13 + a..13 + a + b] == m.methodName
    && IntAt(s, 13 + a + b) == m.errorCode
    && IntAt(s, 17 + a + b) == c && s[21 + a + b..21 + a + b + c] == m.errorMsg
    && s[21 + a + b + c..21 + a + b + c + |m.pbData|] == m.pbData
  }

  lemma FrameFields(m: Message, rest: seq<byte>)
    requires Encodable(m)
    ensures |Frame(m)| == FrameLength(m) && HasFields(Frame(m) + rest, m)
  {
    hide Frame, IntAt, NetInt, Flatten;
    var s := Frame(m) + rest;
    var p := Layout(m);
    FieldOffsets(p, m);
    PartAt(p, 0, s);
    PartAt(p, 1, s);
    PartAt(p, 2, s);
    PartAt(p, 3, s);
    PartAt(p, 4, s);
    PartAt(p, 5, s);
    PartAt(p, 6, s);
    PartAt(p, 7, s);
    PartAt(p, 8, s);
    PartAt(p, 9, s);
    PartAt(p, 11, s);
    var a, b, c := |p[3]|, |p[5]|, |p[8]|;
    IntSlice(s, 1, FrameLength(m));
    IntSlice(s, 5, a);
    IntSlice(s, 9 + a, b);
    IntSlice(s, 13 + a + b, m.errorCode);
    IntSlice(s, 17 + a + b, c);
    assert s[0] == s[0..1][0];
    var n := FrameLength(m) - 1;
    assert s[n] == s[n..n + 1][0];
  }

  lemma SmallInts()
    ensures NetInt(1) == [0, 0, 0, 1] && NetInt(8) == [0, 0, 0, 8]
  {
  }

  /** The constants on the wire: a frame starts with byte 2 and ends with a checksum of 1 and byte 3, and a
      message without an identifier goes out under the eight characters 12345678. */
  lemma FrameConstants(m: Message)
    requires Encodable(m)
    ensures var f, n := Frame(m), FrameLength(m);
            && |f| == n && f[0] == 2 && f[n - 5..n - 1] == [0, 0, 0, 1] && f[n - 1] == 3
            && (m.msgId == [] ==>
                  n == 34 + |m.methodName| + |m.errorMsg| + |m.pbData|
                  && f[5..9] == [0, 0, 0, 8] && f[9..17] == [49, 50, 51, 52, 53, 54, 55, 56])
            && (m.msgId != [] ==> n == 26 + |m.msgId| + |m.methodName| + |m.errorMsg| + |m.pbData|
                                  && f[9..9 + |m.msgId|] == m.msgId)
  {
    SmallInts();
    hide Frame, IntAt, NetInt, Flatten;
    var f := Frame(m);
    var p := Layout(m);
    FieldOffsets(p, m);
    PartAt(p, 0, f);
    PartAt(p, 2, f);
    PartAt(p, 3, f);
    PartAt(p, 10, f);
    PartAt(p, 11, f);
    assert f[0] == f[0..1][0];
    var n := FrameLength(m) - 1;
    assert f[n] == f[n..n + 1][0];
  }

  /** What a frame says about a message: everything but the stored lengths, the identifier after defaulting. */
  predicate SameContent(m: Message, m': Message) {
    && EffectiveId(m) == EffectiveId(m')
    && m.methodName == m'.methodName && m.errorCode == m'.errorCode
    && m.errorMsg == m'.errorMsg && m.pbData == m'.pbData
  }

  lemma FieldsDetermine(s: seq<byte>, m: Message, m': Message)
    requires HasFields(s, m) && HasFields(s, m')
    ensures SameContent(m, m') && FrameLength(m) == FrameLength(m')
  {
    hide IntAt;
  }

  /** Frames are prefix-free and injective: no frame starts with another unless they say the same. */
  lemma FramePrefixFree(m: Message, m': Message, rest: seq<byte>)
    requires Encodable(m) && Encodable(m')
    requires Frame(m) + rest == Frame(m')
    ensures rest == [] && SameContent(m, m')
  {
    hide HasFields, Frame, SameContent;
    var s := Frame(m');
    FrameFields(m, rest);
    FrameFields(m', []);
    assert s + [] == s;
    FieldsDetermine(s, m, m');
  }

  // ---- The writer ----

  /** The first at bytes are the first k parts. */
  ghost predicate Holds(buf: array<byte>, at: nat, parts: seq<seq<byte>>, k: nat)
    reads buf
  {
    k <= |parts| && at <= buf.Length == |Flatten(parts)| && buf[..at] == Flatten(parts[..k])
  }

  lemma NothingWritten(buf: array<byte>, parts: seq<seq<byte>>)
    requires buf.Length == |Flatten(parts)|
    ensures Holds(buf, 0, parts, 0)
  {
    assert buf[..0] == [] == Flatten(parts[..0]);
  }

  /** memcpy of part k of a frame behind the parts already written. */
  method CopyPart(buf: array<byte>, at: nat, src: seq<byte>, ghost parts: seq<seq<byte>>, ghost k: nat)
    returns (next: nat)
    requires Holds(buf, at, parts, k) && k < |parts| && src == parts[k]
    modifies buf
    ensures Holds(buf, next, parts, k + 1)
  {
    FlattenNext(parts, k);
    FlattenPrefix(parts, k + 1);
    forall j | 0 <= j < |src| {
      buf[at + j] := src[j];
    }
    next := at + |src|;
    assert buf[..next] == old(buf[..at]) + src;
  }

  /** The guarded memcpy of a string that may be empty. */
  method CopyNonEmpty(buf: array<byte>, at: nat, src: seq<byte>, ghost parts: seq<seq<byte>>, ghost k: nat)
    returns (next: nat)
    requires Holds(buf, at, parts, k) && k < |parts| && src == parts[k]
    modifies buf
    ensures Holds(buf, next, parts, k + 1)
  {
    if src != [] {
      next := CopyPart(buf, at, src, parts, k);
    } else {
      FlattenNext(parts, k);
      next := at;
    }
  }

  /** When only the last byte is missing, writing it completes the frame. */
  lemma LastPart(buf: array<byte>, at: nat, parts: seq<seq<byte>>)
    requires parts != [] && Holds(buf, at, parts, |parts| - 1) && |parts[|parts| - 1]| == 1
    ensures at == buf.Length - 1
    ensures Flatten(parts) == buf[..at] + parts[|parts| - 1]
  {
    FlattenNext(parts, |parts| - 1);
    assert parts[..|parts|] == parts;
  }

  /** Fills an allocated frame from front to back with a cursor. */
  method WriteFrame(buf: array<byte>, m: Message)
    requires m.msgId != [] && Encodable(m) && buf.Length == FrameLength(m)
    modifies buf
    ensures buf[..] == Frame(m)
  {
    hide Holds, Flatten, Offset, Frame, NetInt;
    ghost var p := Layout(m);
    FieldOffsets(p, m);
    NothingWritten(buf, p);
    var tmp := CopyPart(buf, 0, [PB_START], p, 0);
    tmp := CopyPart(buf, tmp, NetInt(buf.Length), p, 1);
    tmp := CopyPart(buf, tmp, NetInt(|m.msgId|), p, 2);
    tmp := CopyNonEmpty(buf, tmp, m.msgId, p, 3);
    tmp := CopyPart(buf, tmp, NetInt(|m.methodName|), p, 4);
    tmp := CopyNonEmpty(buf, tmp, m.methodName, p, 5);
    tmp := CopyPart(buf, tmp, NetInt(m.errorCode), p, 6);
    tmp := CopyPart(buf, tmp, NetInt(|m.errorMsg|), p, 7);
    tmp := CopyNonEmpty(buf, tmp, m.errorMsg, p, 8);
    tmp := CopyNonEmpty(buf, tmp, m.pbData, p, 9);
    tmp := CopyPart(buf, tmp, NetInt(CHECK_SUM), p, 10);
    LastPart(buf, tmp, p);
    buf[tmp] := PB_END;
    assert buf[..] == buf[..tmp] + [PB_END];
  }

  /** Defaults the identifier, allocates and writes the frame, and seals the message. */
  method EncodeTinyPB(message0: Message) returns (buf: array<byte>, len: nat, message: Message)
    requires Encodable(message0)
    ensures fresh(buf) && buf.Length == len == FrameLength(message0)
    ensures buf[..] == Frame(message0)
    ensures message == Sealed(message0)
  {
    message := message0;
    if message.msgId == [] {
      message := message.(msgId := DEFAULT_ID);
    }
    var pkgLen := 2 + 24 + |message.msgId| + |message.methodName| + |message.errorMsg| + |message.pbData|;
    buf := new byte[pkgLen];
    assert Parts(message) == Parts(message0);
    WriteFrame(buf, message);
    message := message.(pkLen := pkgLen, msgIdLen := |message.msgId|, methodNameLen := |message.methodName|,
                        errorMsgLen := |message.errorMsg|, parseSuccess := true);
    len := pkgLen;
  }

  method EncodeOne(message0: Message, outBuffer: TcpBuffer) returns (message: Message)
    requires Encodable(message0) && outBuffer.Valid()
    modifies outBuffer, outBuffer.buffer
    ensures outBuffer.Valid() && (outBuffer.buffer == old(outBuffer.buffer) || fresh(outBuffer.buffer))
    ensures outBuffer.Contents() == old(outBuffer.Contents()) + Frame(message0)
    ensures message == Sealed(message0)
  {
    var buf, len;
    buf, len, message := EncodeTinyPB(message0);
    if len != 0 {
      outBuffer.WriteToBuffer(buf[..]);
    }
  }

  /** Appends the frames of the messages to a buffer; the messages come back sealed. */
  method Encode(inMessage: seq<Message>, outBuffer: TcpBuffer) returns (sealed: seq<Message>)
    requires AllEncodable(inMessage)
    requires outBuffer.Valid()
    modifies outBuffer, outBuffer.buffer
    ensures outBuffer.Valid() && (outBuffer.buffer == old(outBuffer.buffer) || fresh(outBuffer.buffer))
    ensures outBuffer.Contents() == old(outBuffer.Contents()) + Frames(inMessage)
    ensures sealed == SealedAll(inMessage)
  {
    hide Frame, Sealed;
    sealed := [];
    ghost var before := outBuffer.Contents();
    assert before + Frames(inMessage[..0]) == before;
    for k := 0 to |inMessage|
      invariant outBuffer.Valid() && (outBuffer.buffer == old(outBuffer.buffer) || fresh(outBuffer.buffer))
      invariant outBuffer.Contents() == before + Frames(inMessage[..k])
      invariant |sealed| == k && forall j :: 0 <= j < k ==> sealed[j] == Sealed(inMessage[j])
    {
      var message := EncodeOne(inMessage[k], outBuffer);
      sealed := sealed + [message];
      FramesStep(inMessage, k, before);
    }
    assert inMessage[..|inMessage|] == inMessage;
  }

  lemma FramesStep(ms: seq<Message>, k: nat, before: seq<byte>)
    requires AllEncodable(ms) && k < |ms|
    ensures AllEncodable(ms[..k]) && AllEncodable(ms[..k + 1])
    ensures (before + Frames(ms[..k])) + Frame(ms[k]) == before + Frames(ms[..k + 1])
  {
    assert ms[..k + 1] == ms[..k] + [ms[k]];
    FramesAppend(ms[..k], ms[k]);
    Assoc(before, Frames(ms[..k]), Frame(ms[k]));
  }
}
