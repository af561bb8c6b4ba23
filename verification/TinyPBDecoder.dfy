/** The resynchronising stream parser: what it accepts, and the loops that compute it. */
module TinyPBDecoder {
  import opened Bytes
  import opened BufferSpec
  import opened Tcp
  import opened TinyPBFrame

  /** What std::string(const char*) makes of a zeroed array the bytes were copied into. */
  function CString(bs: seq<byte>): seq<byte> {
    if bs == [] || bs[0] == 0 then [] else [bs[0]] + CString(bs[1..])
  }

  /** It is everything before the first zero byte. */
  lemma {:induction false} CStringUpToZero(bs: seq<byte>)
    ensures CString(bs) <= bs && 0 !in CString(bs)
    ensures |CString(bs)| < |bs| ==> bs[|CString(bs)|] == 0
  {
    if bs != [] {
      CStringUpToZero(bs[1..]);
    }
  }

  /** n bytes at k can be copied into a zeroed array of that capacity and read back as a C string. */
  predicate Copyable(t: seq<byte>, k: nat, n: int, capacity: nat) {
    0 <= n && k + n <= |t| && (n < capacity || (n == capacity && 0 in t[k..k + n]))
  }

  // ---- One window ----

  /** Undefined stands for reads and writes out of bounds, which the code does not exclude. */
  datatype Parse = Undefined | Dropped | Parsed(m: Message)

  /** The field extraction from a window of t that starts at index start. Only the tests against the
      window's end guard the reads, so they may run past it, up to the end of t. */
  function ParseWindow(t: seq<byte>, start: nat, pkgLen: nat): Parse
    requires 1 <= pkgLen && start + pkgLen <= |t|
  {
    var end := start + pkgLen - 1;
    if start + 5 > end then Dropped
    else if start + 9 > |t| then Undefined
    else
      var idLen := IntAt(t, start + 5);
      if !Copyable(t, start + 9, idLen, ID_CAPACITY) then Undefined
      else ParseAfterId(t, start, pkgLen, idLen)
  }

  function ParseAfterId(t: seq<byte>, start: nat, pkgLen: nat, idLen: nat): Parse
    requires 1 <= pkgLen && start + pkgLen <= |t| && start + 9 + idLen <= |t|
  {
    var end := start + pkgLen - 1;
    var methodLenAt := start + 9 + idLen;
    if methodLenAt >= end then Dropped
    else if methodLenAt + 4 > |t| then Undefined
    else
      var methodLen := IntAt(t, methodLenAt);
      if !Copyable(t, methodLenAt + 4, methodLen, TEXT_CAPACITY) then Undefined
      else ParseAfterMethod(t, start, pkgLen, idLen, methodLen)
  }

  function ParseAfterMethod(t: seq<byte>, start: nat, pkgLen: nat, idLen: nat, methodLen: nat): Parse
    requires 1 <= pkgLen && start + pkgLen <= |t| && start + 13 + idLen + methodLen <= |t|
  {
    var end := start + pkgLen - 1;
    var errorCodeAt := start + 13 + idLen + methodLen;
    if errorCodeAt >= end then Dropped
    else if errorCodeAt + 4 > |t| then Undefined
    else if errorCodeAt + 4 >= end then Dropped
    else if errorCodeAt + 8 > |t| then Undefined
    else
      var errorLen := IntAt(t, errorCodeAt + 4);
      if !Copyable(t, errorCodeAt + 8, errorLen, TEXT_CAPACITY) then Undefined
      else ParseData(t, start, pkgLen, idLen, methodLen, errorLen)
  }

  function ParseData(t: seq<byte>, start: nat, pkgLen: nat, idLen: nat, methodLen: nat, errorLen: nat): Parse
    requires start + pkgLen <= |t|
  {
    if pkgLen < idLen + methodLen + errorLen + 26 then Undefined
    else Parsed(ParsedMessage(t, start, pkgLen, idLen, methodLen, errorLen))
  }

  /** The message whose fields have the given lengths. */
  function ParsedMessage(
    t: seq<byte>, start: nat, pkgLen: nat, idLen: nat, methodLen: nat, errorLen: nat): Message
    requires start + pkgLen <= |t| && idLen + methodLen + errorLen + 26 <= pkgLen
  {
    var methodAt := start + 13 + idLen;
    var errorCodeAt := methodAt + methodLen;
    var dataAt := errorCodeAt + 8 + errorLen;
    Message(pkgLen,
            idLen, CString(t[start + 9..start + 9 + idLen]),
            methodLen, CString(t[methodAt..methodAt + methodLen]),
            IntAt(t, errorCodeAt),
            errorLen, CString(t[errorCodeAt + 8..errorCodeAt + 8 + errorLen]),
            t[dataAt..dataAt + (pkgLen - idLen - methodLen - errorLen - 26)],
            true)
  }

  lemma IntAtSuffix(s: seq<byte>, k: nat, j: nat)
    requires k + j + 4 <= |s|
    ensures IntAt(s[k..], j) == IntAt(s, k + j)
  {
  }

  lemma SliceSuffix(s: seq<byte>, k: nat, lo: nat, hi: nat)
    requires lo <= hi && k + hi <= |s|
    ensures s[k..][lo..hi] == s[k + lo..k + hi]
  {
  }

  lemma CopyableSuffix(s: seq<byte>, k: nat, j: nat, n: int, capacity: nat)
    requires k + j <= |s|
    ensures Copyable(s[k..], j, n, capacity) == Copyable(s, k + j, n, capacity)
  {
    if 0 <= n && k + j + n <= |s| {
      SliceSuffix(s, k, j, j + n);
    }
  }

  lemma DataSuffix(s: seq<byte>, k: nat, start: nat, pkgLen: nat, idLen: nat, methodLen: nat, errorLen: nat)
    requires k + start + pkgLen <= |s|
    ensures ParseData(s[k..], start, pkgLen, idLen, methodLen, errorLen)
         == ParseData(s, k + start, pkgLen, idLen, methodLen, errorLen)
  {
    hide IntAt, CString;
    if idLen + methodLen + errorLen + 26 <= pkgLen {
      var e := start + 13 + idLen + methodLen;
      SliceSuffix(s, k, start + 9, start + 9 + idLen);
      SliceSuffix(s, k, start + 13 + idLen, e);
      IntAtSuffix(s, k, e);
      SliceSuffix(s, k, e + 8, e + 8 + errorLen);
      SliceSuffix(s, k, e + 8 + errorLen, start + pkgLen - 5);
    }
  }

  lemma AfterMethodSuffix(s: seq<byte>, k: nat, start: nat, pkgLen: nat, idLen: nat, methodLen: nat)
    requires 1 <= pkgLen && k + start + pkgLen <= |s| && k + start + 13 + idLen + methodLen <= |s|
    ensures ParseAfterMethod(s[k..], start, pkgLen, idLen, methodLen)
         == ParseAfterMethod(s, k + start, pkgLen, idLen, methodLen)
  {
    hide IntAt, ParseData;
    var e := start + 13 + idLen + methodLen;
    if e + 4 < start + pkgLen - 1 && k + e + 8 <= |s| {
      IntAtSuffix(s, k, e + 4);
      var errorLen := IntAt(s, k + e + 4);
      CopyableSuffix(s, k, e + 8, errorLen, TEXT_CAPACITY);
      if Copyable(s, k + e + 8, errorLen, TEXT_CAPACITY) {
        DataSuffix(s, k, start, pkgLen, idLen, methodLen, errorLen);
      }
    }
  }

  lemma AfterIdSuffix(s: seq<byte>, k: nat, start: nat, pkgLen: nat, idLen: nat)
    requires 1 <= pkgLen && k + start + pkgLen <= |s| && k + start + 9 + idLen <= |s|
    ensures ParseAfterId(s[k..], start, pkgLen, idLen) == ParseAfterId(s, k + start, pkgLen, idLen)
  {
    hide IntAt, ParseAfterMethod;
    var a := start + 9 + idLen;
    if a < start + pkgLen - 1 && k + a + 4 <= |s| {
      IntAtSuffix(s, k, a);
      var methodLen := IntAt(s, k + a);
      CopyableSuffix(s, k, a + 4, methodLen, TEXT_CAPACITY);
      if Copyable(s, k + a + 4, methodLen, TEXT_CAPACITY) {
        AfterMethodSuffix(s, k, start, pkgLen, idLen, methodLen);
      }
    }
  }

  /** What a window holds does not depend on the bytes before it. */
  lemma ParseSuffix(s: seq<byte>, k: nat, start: nat, pkgLen: nat)
    requires 1 <= pkgLen && k + start + pkgLen <= |s|
    ensures ParseWindow(s[k..], start, pkgLen) == ParseWindow(s, k + start, pkgLen)
  {
    hide IntAt, ParseAfterId;
    if k + start + 9 <= |s| {
      IntAtSuffix(s, k, start + 5);
      var idLen := IntAt(s, k + start + 5);
      CopyableSuffix(s, k, start + 9, idLen, ID_CAPACITY);
      if Copyable(s, k + start + 9, idLen, ID_CAPACITY) {
        AfterIdSuffix(s, k, start, pkgLen, idLen);
      }
    }
  }

  // ---- Finding windows ----

  /** What the inner loop finds: the end of the bytes, an index out of bounds or beyond int, or a window. A
      length field that is zero or negative puts the window's end before its start. */
  datatype Scan = NoWindow | OutOfRange | Window(start: nat, end: nat)

  /** The inner loop from index i of the received bytes. */
  function FindWindow(s: seq<byte>, i: nat): Scan
    decreases |s| - i
  {
    if i >= |s| then NoWindow
    else if s[i] != PB_START || i + 1 >= |s| then FindWindow(s, i + 1)
    else if i + 5 > |s| then OutOfRange
    else
      var end := i + IntAt(s, i + 1) - 1;
      if end < 0 || end >= INT_MAX then OutOfRange
      else if end < |s| && s[end] == PB_END then Window(i, end)
      else FindWindow(s, i + 1)
  }

  lemma {:induction false} FoundInside(s: seq<byte>, p: nat)
    requires FindWindow(s, p).Window?
    ensures var w := FindWindow(s, p);
            && p <= w.start && w.start + 5 <= |s| && w.end < |s|
            && s[w.start] == PB_START && s[w.end] == PB_END
            && w.end == w.start + IntAt(s, w.start + 1) - 1
            && forall q :: p <= q <= w.start ==> FindWindow(s, q) == w
    decreases |s| - p
  {
    hide IntAt;
    if FindWindow(s, p) == FindWindow(s, p + 1) {
      FoundInside(s, p + 1);
    }
  }

  datatype Decoded = Failed | Messages(ms: seq<Message>)

  function Prepend(ms: seq<Message>, d: Decoded): Decoded {
    if d.Failed? then Failed else Messages(ms + d.ms)
  }

  /** The messages decoded from index p on. Failed are reads and writes out of bounds, and accepted windows
      whose end lies before their start, which send the outer loop back. */
  function DecodeFrom(s: seq<byte>, p: nat): Decoded
    decreases |s| - p
  {
    match FindWindow(s, p)
    case NoWindow => Messages([])
    case OutOfRange => Failed
    case Window(start, end) =>
      FoundInside(s, p);
      if end < start then Failed
      else
        match ParseWindow(s, start, end - start + 1)
        case Undefined => Failed
        case Dropped => DecodeFrom(s, end + 1)
        case Parsed(m) => Prepend([m], DecodeFrom(s, end + 1))
  }

  function DecodeStream(s: seq<byte>): Decoded {
    DecodeFrom(s, 0)
  }

  // ---- The loops ----

  /** The field extraction as the code does it. */
  method ParseFields(tmp: seq<byte>, startIndex: nat, endIndex: nat, pkgLen: nat)
    returns (ok: bool, message: Message)
    requires startIndex <= endIndex < |tmp| && pkgLen == endIndex - startIndex + 1
    requires ParseWindow(tmp, startIndex, pkgLen) != Undefined
    ensures ParseWindow(tmp, startIndex, pkgLen) == if ok then Parsed(message) else Dropped
  {
    hide IntAt, CString;
    message := EMPTY_MESSAGE.(pkLen := pkgLen);
    var msgIdLenIndex := startIndex + 1 + 4;
    if msgIdLenIndex > endIndex {
      return false, message;
    }
    var msgIdLen := IntAt(tmp, msgIdLenIndex);
    var msgIdIndex := msgIdLenIndex + 4;
    var msgId := CString(tmp[msgIdIndex..msgIdIndex + msgIdLen]);
    var methodNameLenIndex := msgIdIndex + msgIdLen;
    if methodNameLenIndex >= endIndex {
      return false, message;
    }
    var methodNameLen := IntAt(tmp, methodNameLenIndex);
    var methodNameIndex := methodNameLenIndex + 4;
    var methodName := CString(tmp[methodNameIndex..methodNameIndex + methodNameLen]);
    var errorCodeIndex := methodNameIndex + methodNameLen;
    if errorCodeIndex >= endIndex {
      return false, message;
    }
    var errorCode := IntAt(tmp, errorCodeIndex);
    var errorInfoLenIndex := errorCodeIndex + 4;
    if errorInfoLenIndex >= endIndex {
      return false, message;
    }
    var errorMsgLen := IntAt(tmp, errorInfoLenIndex);
    var errorInfoIndex := errorInfoLenIndex + 4;
    var errorMsg := CString(tmp[errorInfoIndex..errorInfoIndex + errorMsgLen]);
    var pbDataLen := pkgLen - msgIdLen - methodNameLen - errorMsgLen - 2 - 24;
    var pbDataIndex := errorInfoIndex + errorMsgLen;
    var pbData := tmp[pbDataIndex..pbDataIndex + pbDataLen];
    message := Message(pkgLen, msgIdLen, msgId, methodNameLen, methodName, errorCode,
                       errorMsgLen, errorMsg, pbData, true);
    ok := true;
  }

  /** The inner loop: looks for the next window behind endIndex and leaves i at its start byte, or at
      the end of the bytes. */
  method NextWindow(tmp: seq<byte>, endIndex0: int)
    returns (i: nat, endIndex: int, pkgLen: int, parseSuccess: bool)
    requires -1 <= endIndex0 < |tmp|
    requires !FindWindow(tmp, endIndex0 + 1).OutOfRange?
    ensures endIndex0 < i <= |tmp| && parseSuccess == (i < |tmp|)
    ensures parseSuccess ==> pkgLen == endIndex - i + 1
    ensures if parseSuccess then 0 <= endIndex < |tmp| && FindWindow(tmp, endIndex0 + 1) == Window(i, endIndex)
            else endIndex == endIndex0 && FindWindow(tmp, endIndex0 + 1) == NoWindow
  {
    hide IntAt;
    endIndex, pkgLen, parseSuccess := endIndex0, 0, false;
    i := endIndex + 1;
    while i < |tmp|
      invariant endIndex0 < i <= |tmp|
      invariant FindWindow(tmp, i) == FindWindow(tmp, endIndex0 + 1)
    {
      if tmp[i] == PB_START {
        if i + 1 < |tmp| {
          pkgLen := IntAt(tmp, i + 1);
          var j := i + pkgLen - 1;
          if j >= |tmp| {
            i := i + 1;
            continue;
          }
          if tmp[j] == PB_END {
            endIndex := j;
            parseSuccess := true;
            break;
          }
        }
      }
      i := i + 1;
    }
  }

  /** Reads everything the buffer holds. */
  method Drain(inBuffer: TcpBuffer) returns (tmp: seq<byte>)
    requires inBuffer.Valid()
    modifies inBuffer
    ensures inBuffer.Valid() && (inBuffer.buffer == old(inBuffer.buffer) || fresh(inBuffer.buffer))
    ensures inBuffer.Contents() == [] && tmp == old(inBuffer.Contents())
    ensures inBuffer.State() == Emptied(old(inBuffer.State()))
  {
    var len := inBuffer.ReadAble();
    tmp := inBuffer.ReadFromBuffer([], len);
  }

  /** One round of the outer loop. */
  lemma DecodeStep(s: seq<byte>, p: nat, rest: seq<Message>) returns (q: Parse)
    requires FindWindow(s, p).Window? && DecodeFrom(s, p) == Messages(rest)
    ensures var w := FindWindow(s, p);
            && p <= w.start < w.end < |s|
            && q == ParseWindow(s, w.start, w.end - w.start + 1) && q != Undefined
            && (q == Dropped ==> DecodeFrom(s, w.end + 1) == Messages(rest))
            && (q.Parsed? ==> rest != [] && rest[0] == q.m && DecodeFrom(s, w.end + 1) == Messages(rest[1..]))
  {
    hide ParseWindow, FindWindow;
    FoundInside(s, p);
    var w := FindWindow(s, p);
    q := ParseWindow(s, w.start, w.end - w.start + 1);
    if q.Parsed? {
      var d := DecodeFrom(s, w.end + 1);
      assert rest == [q.m] + d.ms;
      assert rest[1..] == d.ms;
    }
  }

  lemma NeverOutOfRange(s: seq<byte>, p: nat)
    requires DecodeFrom(s, p).Messages?
    ensures !FindWindow(s, p).OutOfRange?
    ensures FindWindow(s, p).NoWindow? ==> DecodeFrom(s, p).ms == []
  {
  }

  lemma DecodeEmpty()
    ensures DecodeStream([]) == Messages([])
  {
    assert FindWindow([], 0) == NoWindow;
  }

  lemma FromTheStart(s: seq<byte>)
    ensures DecodeStream(s) == DecodeFrom(s, 0)
  {
  }

  lemma MoveHead<T>(done: seq<T>, rest: seq<T>)
    requires rest != []
    ensures (done + [rest[0]]) + rest[1..] == done + rest
  {
  }

  /** Drains the buffer and appends every message found in its bytes to the caller's list. */
  method Decode(outMessage0: seq<Message>, inBuffer: TcpBuffer) returns (outMessage: seq<Message>)
    requires inBuffer.Valid() && |inBuffer.Contents()| <= INT_MAX
    requires DecodeStream(inBuffer.Contents()).Messages?
    modifies inBuffer
    ensures inBuffer.Valid() && (inBuffer.buffer == old(inBuffer.buffer) || fresh(inBuffer.buffer))
    ensures inBuffer.Contents() == [] && inBuffer.State() == Emptied(old(inBuffer.State()))
    ensures outMessage == outMessage0 + DecodeStream(old(inBuffer.Contents())).ms
  {
    hide *;
    outMessage := outMessage0;
    var tmp := Drain(inBuffer);
    var len := |tmp|;
    var i: int := 0;
    var endIndex: int := -1;
    FromTheStart(tmp);
    ghost var rest := DecodeStream(tmp).ms;
    if len == 0 {
      DecodeEmpty();
    }
    while i < len
      invariant i <= len && (i == len ==> len == 0 && rest == []) && (i < len ==> -1 <= endIndex < len)
      invariant i < len ==> DecodeFrom(tmp, endIndex + 1) == Messages(rest)
      invariant outMessage + rest == outMessage0 + DecodeStream(tmp).ms
      modifies {}
      decreases len - endIndex
    {
      ghost var base := endIndex + 1;
      var pkgLen, parseSuccess;
      NeverOutOfRange(tmp, base);
      i, endIndex, pkgLen, parseSuccess := NextWindow(tmp, endIndex);
      if i >= len {
        return;
      }
      if parseSuccess {
        ghost var q := DecodeStep(tmp, base, rest);
        var ok, message := ParseFields(tmp, i, endIndex, pkgLen);
        if !ok {
          continue;
        }
        MoveHead(outMessage, rest);
        outMessage := outMessage + [message];
        rest := rest[1..];
      }
    }
  }
}
