/** What the frame writer and the stream parser guarantee together. */
module TinyPBLaws {
  import opened Bytes
  import opened TinyPBFrame
  import opened TinyPBDecoder

  /** The messages the fixed-size arrays and C strings of the parser can carry. */
  predicate Valid(m: Message) {
    && Encodable(m)
    && |EffectiveId(m)| < ID_CAPACITY && 0 !in EffectiveId(m)
    && |m.methodName| < TEXT_CAPACITY && 0 !in m.methodName
    && |m.errorMsg| < TEXT_CAPACITY && 0 !in m.errorMsg
  }

  predicate AllValid(ms: seq<Message>) {
    forall m <- ms :: Valid(m)
  }

  // ---- One frame ----

  lemma {:induction false} CStringWhole(bs: seq<byte>)
    requires 0 !in bs
    ensures CString(bs) == bs
  {
    if bs != [] {
      assert 0 !in bs[1..];
      CStringWhole(bs[1..]);
    }
  }

  lemma ParseFramed(s: seq<byte>, m: Message)
    requires Valid(m) && HasFields(s, m)
    ensures ParseWindow(s, 0, FrameLength(m)) == Parsed(Sealed(m))
  {
    hide IntAt, CString;
    var a, b, c := |EffectiveId(m)|, |m.methodName|, |m.errorMsg|;
    CStringWhole(EffectiveId(m));
    CStringWhole(m.methodName);
    CStringWhole(m.errorMsg);
    assert ParseWindow(s, 0, FrameLength(m)) == ParseAfterId(s, 0, FrameLength(m), a);
    assert ParseAfterId(s, 0, FrameLength(m), a) == ParseAfterMethod(s, 0, FrameLength(m), a, b);
    assert ParseAfterMethod(s, 0, FrameLength(m), a, b) == ParseData(s, 0, FrameLength(m), a, b, c);
    assert ParsedMessage(s, 0, FrameLength(m), a, b, c) == Sealed(m);
  }

  /** part lies in s at index p. */
  predicate Stands(s: seq<byte>, p: nat, part: seq<byte>) {
    p + |part| <= |s| && s[p..p + |part|] == part
  }

  lemma FindFrame(s: seq<byte>, p: nat, m: Message)
    requires p <= |s| && HasFields(s[p..], m) && p + FrameLength(m) <= INT_MAX
    ensures FindWindow(s, p) == Window(p, p + FrameLength(m) - 1)
  {
    hide IntAt;
    IntAtSuffix(s, p, 1);
    assert s[p] == s[p..][0] && s[p + FrameLength(m) - 1] == s[p..][FrameLength(m) - 1];
  }

  // ---- Gaps ----

  lemma {:induction false} FindSkips(s: seq<byte>, p: nat, k: nat)
    requires p <= k <= |s| && PB_START !in s[p..k]
    ensures FindWindow(s, p) == FindWindow(s, k)
    decreases k - p
  {
    if p < k {
      assert s[p] == s[p..k][0];
      assert s[p + 1..k] == s[p..k][1..];
      FindSkips(s, p + 1, k);
    }
  }

  /** Bytes without a start byte are skipped, whatever lies around them. */
  lemma DecodeGap(s: seq<byte>, p: nat, gap: seq<byte>)
    requires Stands(s, p, gap) && PB_START !in gap
    ensures DecodeFrom(s, p) == DecodeFrom(s, p + |gap|)
  {
    hide FindWindow, ParseWindow;
    FindSkips(s, p, p + |gap|);
  }

  /** A frame is decoded as its message, whatever lies around it. */
  lemma DecodeFrame(s: seq<byte>, p: nat, m: Message)
    requires Valid(m) && Stands(s, p, Frame(m)) && p + FrameLength(m) <= INT_MAX
    ensures |Frame(m)| == FrameLength(m)
    ensures DecodeFrom(s, p) == Prepend([Sealed(m)], DecodeFrom(s, p + FrameLength(m)))
  {
    hide FindWindow, ParseWindow, HasFields, Frame, Sealed;
    assert s[p..] == Frame(m) + s[p + |Frame(m)|..];
    FrameFields(m, s[p + |Frame(m)|..]);
    FindFrame(s, p, m);
    ParseFramed(s[p..], m);
    ParseSuffix(s, p, 0, FrameLength(m));
  }

  lemma {:induction false} CStringWholeOnly(bs: seq<byte>)
    requires CString(bs) == bs
    ensures 0 !in bs
  {
    if bs != [] {
      assert CString(bs)[1..] == bs[1..];
      CStringWholeOnly(bs[1..]);
      assert bs == [bs[0]] + bs[1..];
    }
  }

  /** Only valid messages come out of their frame's fields unchanged. */
  lemma ParseFramedOnly(s: seq<byte>, m: Message)
    requires Encodable(m) && HasFields(s, m) && ParseWindow(s, 0, FrameLength(m)) == Parsed(Sealed(m))
    ensures Valid(m)
  {
    hide IntAt, CString;
    var a, b, c := |EffectiveId(m)|, |m.methodName|, |m.errorMsg|;
    var n := FrameLength(m);
    assert ParseWindow(s, 0, n) == ParseAfterId(s, 0, n, a);
    assert ParseAfterId(s, 0, n, a) == ParseAfterMethod(s, 0, n, a, b);
    assert ParseAfterMethod(s, 0, n, a, b) == ParseData(s, 0, n, a, b, c);
    CStringWholeOnly(EffectiveId(m));
    CStringWholeOnly(m.methodName);
    CStringWholeOnly(m.errorMsg);
  }

  lemma ValidMeans(m: Message)
    requires Encodable(m)
    ensures Valid(m) <==>
              && |EffectiveId(m)| < 128 && 0 !in EffectiveId(m)
              && |m.methodName| < 512 && 0 !in m.methodName
              && |m.errorMsg| < 512 && 0 !in m.errorMsg
  {
  }

  lemma FrameRoundTripValid(m: Message)
    requires Encodable(m)
    ensures DecodeStream(Frame(m)) == Messages([Sealed(m)]) <==> Valid(m)
  {
    hide IntAt, FindWindow, ParseWindow, HasFields, Valid, Frame, Sealed;
    var s := Frame(m);
    FrameFields(m, []);
    assert s + [] == s && s[0..] == s;
    DecodeEnd(s);
    if Valid(m) {
      DecodeFrame(s, 0, m);
      assert [Sealed(m)] + [] == [Sealed(m)];
    } else {
      FindFrame(s, 0, m);
      var q := ParseWindow(s, 0, FrameLength(m));
      if q == Parsed(Sealed(m)) {
        ParseFramedOnly(s, m);
      } else if q.Parsed? {
        assert DecodeStream(s) == Messages([q.m] + []);
        assert ([q.m] + [])[0] == q.m;
      }
    }
  }

  /** A frame is decoded as its message exactly when the identifier is shorter than 128 bytes, the method
      name and the error text are shorter than 512, and none of the three contains a zero byte. */
  lemma FrameRoundTripIff(m: Message)
    requires Encodable(m)
    ensures DecodeStream(Frame(m)) == Messages([Sealed(m)]) <==>
              && |EffectiveId(m)| < 128 && 0 !in EffectiveId(m)
              && |m.methodName| < 512 && 0 !in m.methodName
              && |m.errorMsg| < 512 && 0 !in m.errorMsg
  {
    hide DecodeStream, Frame, Sealed, EffectiveId;
    FrameRoundTripValid(m);
    ValidMeans(m);
  }

  /** A request with an identifier of 128 letters. They fill the parser's array, so that no zero byte ends
      the string it makes of it. */
  const LONG_ID: Message := EMPTY_MESSAGE.(msgId := seq(ID_CAPACITY, _ => 65))

  lemma LongIdLost()
    ensures Encodable(LONG_ID) && DecodeStream(Frame(LONG_ID)) == Failed
  {
    hide IntAt, HasFields, Frame;
    var s := Frame(LONG_ID);
    FrameFields(LONG_ID, []);
    assert s + [] == s && s[0..] == s;
    FindFrame(s, 0, LONG_ID);
    LongIdFields(s);
  }

  lemma LongIdFields(s: seq<byte>)
    requires HasFields(s, LONG_ID)
    ensures ParseWindow(s, 0, FrameLength(LONG_ID)) == Undefined
  {
    hide IntAt;
    assert EffectiveId(LONG_ID) == LONG_ID.msgId;
    assert 0 !in LONG_ID.msgId;
  }

  // ---- Streams ----

  lemma PrependNothing(d: Decoded)
    ensures Prepend([], d) == d
  {
    assert d.Messages? ==> [] + d.ms == d.ms;
  }

  lemma PrependTwice(a: seq<Message>, b: seq<Message>, d: Decoded)
    ensures Prepend(a, Prepend(b, d)) == Prepend(a + b, d)
  {
    if d.Messages? {
      Assoc(a, b, d.ms);
    }
  }

  /** What a stream is made of, in any order: bytes between frames, and the frames of messages. */
  datatype Piece = Gap(bytes: seq<byte>) | Whole(m: Message)

  predicate Writable(pieces: seq<Piece>) {
    forall i :: 0 <= i < |pieces| ==> pieces[i].Whole? ==> Encodable(pieces[i].m)
  }

  predicate GapsStartFree(pieces: seq<Piece>) {
    forall i :: 0 <= i < |pieces| ==> pieces[i].Gap? ==> PB_START !in pieces[i].bytes
  }

  predicate FramesValid(pieces: seq<Piece>) {
    forall i :: 0 <= i < |pieces| ==> pieces[i].Whole? ==> Valid(pieces[i].m)
  }

  function PartsOf(pieces: seq<Piece>): (parts: seq<seq<byte>>)
    requires Writable(pieces)
    ensures |parts| == |pieces|
    ensures forall i :: 0 <= i < |parts| ==>
              parts[i] == if pieces[i].Gap? then pieces[i].bytes else Frame(pieces[i].m)
  {
    seq(|pieces|, i requires 0 <= i < |pieces| => if pieces[i].Gap? then pieces[i].bytes else Frame(pieces[i].m))
  }

  function Stream(pieces: seq<Piece>): seq<byte>
    requires Writable(pieces)
  {
    Flatten(PartsOf(pieces))
  }

  /** The messages of the frames from piece k on, sealed. */
  function Carried(pieces: seq<Piece>, k: nat): seq<Message>
    requires k <= |pieces|
    decreases |pieces| - k
  {
    if k == |pieces| then []
    else CarriedBy(pieces[k]) + Carried(pieces, k + 1)
  }

  function CarriedBy(piece: Piece): seq<Message> {
    match piece
    case Gap(_) => []
    case Whole(m) => [Sealed(m)]
  }

  lemma SubSlice(s: seq<byte>, a: nat, b: nat, lo: nat, hi: nat)
    requires lo <= hi <= b - a && a <= b <= |s|
    ensures s[a..b][lo..hi] == s[a + lo..a + hi]
  {
    var x, y := s[a..b][lo..hi], s[a + lo..a + hi];
    forall i | 0 <= i < hi - lo
      ensures x[i] == y[i]
    {
      assert x[i] == s[a..b][lo + i] == s[a + (lo + i)];
    }
    assert |x| == |y|;
  }

  lemma PartStands(parts: seq<seq<byte>>, k: nat, s: seq<byte>, p: nat)
    requires k < |parts| && Stands(s, p, Flatten(parts))
    ensures Stands(s, p + Offset(parts, k), parts[k])
    ensures Offset(parts, k + 1) == Offset(parts, k) + |parts[k]| <= |Flatten(parts)|
  {
    hide Flatten;
    var whole := Flatten(parts);
    PartAt(parts, k, whole);
    var lo, hi := Offset(parts, k), Offset(parts, k + 1);
    SubSlice(s, p, p + |whole|, lo, hi);
  }

  lemma OffsetEnd(parts: seq<seq<byte>>)
    ensures Offset(parts, |parts|) == |Flatten(parts)|
  {
    assert parts[..|parts|] == parts;
    OffsetIsLength(parts, |parts|);
  }

  lemma DecodePiece(piece: Piece, part: seq<byte>, s: seq<byte>, p: nat)
    requires piece.Gap? ==> part == piece.bytes && PB_START !in part
    requires piece.Whole? ==> Valid(piece.m) && part == Frame(piece.m)
    requires Stands(s, p, part) && p + |part| <= INT_MAX
    ensures DecodeFrom(s, p) == Prepend(CarriedBy(piece), DecodeFrom(s, p + |part|))
  {
    hide DecodeFrom, Frame, Sealed, Stands, HasFields, Prepend;
    match piece {
      case Gap(_) =>
        DecodeGap(s, p, part);
        PrependNothing(DecodeFrom(s, p));
      case Whole(m) =>
        FrameFields(m, []);
        DecodeFrame(s, p, m);
    }
  }

  /** Decoding goes on piece by piece. */
  lemma {:induction false} DecodePieces(
    pieces: seq<Piece>, parts: seq<seq<byte>>, k: nat, s: seq<byte>, p: nat, end: nat)
    requires Writable(pieces) && GapsStartFree(pieces) && FramesValid(pieces) && parts == PartsOf(pieces)
    requires k <= |pieces| && Stands(s, p, Flatten(parts)) && end == p + |Flatten(parts)| <= INT_MAX
    ensures DecodeFrom(s, p + Offset(parts, k)) == Prepend(Carried(pieces, k), DecodeFrom(s, end))
    decreases |pieces| - k
  {
    hide DecodeFrom, Frame, CarriedBy, Valid, Encodable, Stands, Flatten, Prepend;
    if k == |pieces| {
      OffsetEnd(parts);
      PrependNothing(DecodeFrom(s, end));
    } else {
      PartStands(parts, k, s, p);
      DecodePieces(pieces, parts, k + 1, s, p, end);
      DecodePiece(pieces[k], parts[k], s, p + Offset(parts, k));
      PrependTwice(CarriedBy(pieces[k]), Carried(pieces, k + 1), DecodeFrom(s, end));
    }
  }

  /** Frames among bytes without a start byte decode to exactly their messages, in order, with every field
      restored, whatever bytes the payloads contain and whatever lies before and behind the stream. */
  lemma StreamRoundTrip(before: seq<byte>, pieces: seq<Piece>, t: seq<byte>)
    requires Writable(pieces) && GapsStartFree(pieces) && FramesValid(pieces)
    requires |before| + |Stream(pieces)| <= INT_MAX
    ensures var s := (before + Stream(pieces)) + t;
            DecodeFrom(s, |before|) == Prepend(Carried(pieces, 0), DecodeFrom(s, |before + Stream(pieces)|))
  {
    hide DecodeFrom, Flatten, Prepend, Carried, PartsOf, Valid, Encodable;
    var s := (before + Stream(pieces)) + t;
    assert Stands(s, |before|, Stream(pieces));
    DecodePieces(pieces, PartsOf(pieces), 0, s, |before|, |before + Stream(pieces)|);
  }

  lemma DecodeEnd(s: seq<byte>)
    ensures DecodeFrom(s, |s|) == Messages([])
  {
    assert FindWindow(s, |s|) == NoWindow;
  }

  /** The whole law for one received buffer: gaps before, between and after the frames. */
  lemma DecodeStreamRoundTrip(pieces: seq<Piece>)
    requires Writable(pieces) && GapsStartFree(pieces) && FramesValid(pieces)
    requires |Stream(pieces)| <= INT_MAX
    ensures DecodeStream(Stream(pieces)) == Messages(Carried(pieces, 0))
  {
    hide DecodeFrom, Stream, Carried, GapsStartFree, FramesValid;
    var s := Stream(pieces);
    assert ([] + s) + [] == s;
    StreamRoundTrip([], pieces, []);
    DecodeEnd(s);
    assert Carried(pieces, 0) + [] == Carried(pieces, 0);
  }

  lemma ValidEncodable(ms: seq<Message>)
    requires AllValid(ms)
    ensures AllEncodable(ms)
  {
  }

  function Wholes(ms: seq<Message>): (pieces: seq<Piece>)
    ensures |pieces| == |ms| && forall i :: 0 <= i < |pieces| ==> pieces[i] == Whole(ms[i])
  {
    seq(|ms|, i requires 0 <= i < |ms| => Whole(ms[i]))
  }

  lemma {:induction false} FramesFlatten(ms: seq<Message>, parts: seq<seq<byte>>)
    requires AllEncodable(ms) && |parts| == |ms|
    requires forall i :: 0 <= i < |ms| ==> parts[i] == Frame(ms[i])
    ensures Flatten(parts) == Frames(ms)
  {
    hide Frame;
    if ms != [] {
      FramesFlatten(ms[1..], parts[1..]);
    }
  }

  lemma {:induction false} WholesCarried(ms: seq<Message>, k: nat)
    requires k <= |ms|
    ensures Carried(Wholes(ms), k) == SealedAll(ms)[k..]
    decreases |ms| - k
  {
    hide Sealed;
    if k < |ms| {
      WholesCarried(ms, k + 1);
      assert SealedAll(ms)[k..] == [SealedAll(ms)[k]] + SealedAll(ms)[k + 1..];
    }
  }

  /** What Encode writes, Decode reads back. */
  lemma FramesRoundTrip(ms: seq<Message>)
    requires AllValid(ms) && |Frames(ms)| <= INT_MAX
    ensures DecodeStream(Frames(ms)) == Messages(SealedAll(ms))
  {
    hide DecodeStream, Frame, Frames, Flatten, Valid, Encodable, Carried;
    ValidEncodable(ms);
    var pieces := Wholes(ms);
    forall i | 0 <= i < |ms|
      ensures Encodable(ms[i]) && Valid(ms[i])
    {
      assert ms[i] in ms;
    }
    FramesFlatten(ms, PartsOf(pieces));
    WholesCarried(ms, 0);
    DecodeStreamRoundTrip(pieces);
  }

  // ---- Cutting the stream in two ----

  lemma CopyableExtends(t: seq<byte>, b: seq<byte>, k: nat, n: int, capacity: nat)
    requires Copyable(t, k, n, capacity)
    ensures Copyable(t + b, k, n, capacity) && (t + b)[k..k + n] == t[k..k + n]
  {
    assert (t + b)[k..k + n] == t[k..k + n];
  }

  lemma IntAtExtends(t: seq<byte>, b: seq<byte>, k: nat)
    requires k + 4 <= |t|
    ensures IntAt(t + b, k) == IntAt(t, k)
  {
  }

  lemma SliceExtends(t: seq<byte>, b: seq<byte>, lo: nat, hi: nat)
    requires lo <= hi <= |t|
    ensures (t + b)[lo..hi] == t[lo..hi]
  {
  }

  lemma DataExtends(t: seq<byte>, b: seq<byte>, start: nat, pkgLen: nat, idLen: nat, methodLen: nat, errorLen: nat)
    requires start + pkgLen <= |t|
    ensures ParseData(t + b, start, pkgLen, idLen, methodLen, errorLen)
         == ParseData(t, start, pkgLen, idLen, methodLen, errorLen)
  {
    hide IntAt, CString;
    if idLen + methodLen + errorLen + 26 <= pkgLen {
      var e := start + 13 + idLen + methodLen;
      IntAtExtends(t, b, e);
      SliceExtends(t, b, start + 9, start + 9 + idLen);
      SliceExtends(t, b, start + 13 + idLen, e);
      SliceExtends(t, b, e + 8, e + 8 + errorLen);
      SliceExtends(t, b, e + 8 + errorLen, start + pkgLen - 5);
    }
  }

  lemma AfterMethodExtends(t: seq<byte>, b: seq<byte>, start: nat, pkgLen: nat, idLen: nat, methodLen: nat)
    requires 1 <= pkgLen && start + pkgLen <= |t| && start + 13 + idLen + methodLen <= |t|
    requires ParseAfterMethod(t, start, pkgLen, idLen, methodLen) != Undefined
    ensures ParseAfterMethod(t + b, start, pkgLen, idLen, methodLen)
         == ParseAfterMethod(t, start, pkgLen, idLen, methodLen)
  {
    hide IntAt, ParseData;
    var e := start + 13 + idLen + methodLen;
    if e + 4 < start + pkgLen - 1 {
      IntAtExtends(t, b, e + 4);
      var errorLen := IntAt(t, e + 4);
      CopyableExtends(t, b, e + 8, errorLen, TEXT_CAPACITY);
      DataExtends(t, b, start, pkgLen, idLen, methodLen, errorLen);
    }
  }

  /** A window whose reads stay in bounds is read the same when more bytes follow. */
  lemma ParseExtends(t: seq<byte>, b: seq<byte>, start: nat, pkgLen: nat)
    requires 1 <= pkgLen && start + pkgLen <= |t| && ParseWindow(t, start, pkgLen) != Undefined
    ensures ParseWindow(t + b, start, pkgLen) == ParseWindow(t, start, pkgLen)
  {
    hide IntAt, ParseAfterId;
    if start + 5 <= start + pkgLen - 1 {
      IntAtExtends(t, b, start + 5);
      var idLen := IntAt(t, start + 5);
      CopyableExtends(t, b, start + 9, idLen, ID_CAPACITY);
      AfterIdExtends(t, b, start, pkgLen, idLen);
    }
  }

  lemma AfterIdExtends(t: seq<byte>, b: seq<byte>, start: nat, pkgLen: nat, idLen: nat)
    requires 1 <= pkgLen && start + pkgLen <= |t| && start + 9 + idLen <= |t|
    requires ParseAfterId(t, start, pkgLen, idLen) != Undefined
    ensures ParseAfterId(t + b, start, pkgLen, idLen) == ParseAfterId(t, start, pkgLen, idLen)
  {
    hide IntAt, ParseAfterMethod;
    var a := start + 9 + idLen;
    if a < start + pkgLen - 1 {
      IntAtExtends(t, b, a);
      var methodLen := IntAt(t, a);
      CopyableExtends(t, b, a + 4, methodLen, TEXT_CAPACITY);
      AfterMethodExtends(t, b, start, pkgLen, idLen, methodLen);
    }
  }

  /** Every start byte from index p up to hi announces an extent that lies within s. */
  predicate Contained(s: seq<byte>, p: nat, hi: nat)
    requires hi <= |s|
  {
    forall i :: p <= i < hi && s[i] == PB_START ==> i + 5 <= |s| && i + IntAt(s, i + 1) <= |s|
  }

  /** From index p on, no start byte outside the windows the parser accepts waits for bytes behind s, and no
      accepted window ends before its start. */
  predicate Settled(s: seq<byte>, p: nat)
    decreases |s| - p
  {
    match FindWindow(s, p)
    case NoWindow => Contained(s, p, |s|)
    case OutOfRange => false
    case Window(start, end) =>
      FoundInside(s, p);
      start <= end && Contained(s, p, start) && Settled(s, end + 1)
  }

  /** Bytes behind settled ones change nothing in the scan up to the first window. */
  lemma {:induction false} FindExtends(t: seq<byte>, b: seq<byte>, p: nat)
    requires p <= |t| && !FindWindow(t, p).OutOfRange?
    requires Contained(t, p, if FindWindow(t, p).Window? then Min(FindWindow(t, p).start, |t|) else |t|)
    ensures FindWindow(t + b, p)
         == if FindWindow(t, p).Window? then FindWindow(t, p) else FindWindow(t + b, |t|)
    decreases |t| - p
  {
    hide IntAt;
    var w := FindWindow(t, p);
    if w.Window? {
      FoundInside(t, p);
    }
    if p < |t| && !(w.Window? && w.start == p) {
      assert t[p] == PB_START ==> p + 5 <= |t| && p + IntAt(t, p + 1) <= |t|;
      FindExtends(t, b, p + 1);
    }
    if p + 5 <= |t| {
      IntAtExtends(t, b, p + 1);
    }
  }

  /** Settled bytes decode to the same messages whether or not more bytes follow, and what follows is
      decoded from its own beginning. Dropped windows disturb neither side. */
  lemma {:induction false} DecodeAppend(a: seq<byte>, b: seq<byte>, p: nat)
    requires p <= |a| && Settled(a, p) && DecodeFrom(a, p).Messages?
    ensures DecodeFrom(a + b, p) == Prepend(DecodeFrom(a, p).ms, DecodeFrom(a + b, |a|))
    decreases |a| - p
  {
    hide FindWindow, ParseWindow, Prepend;
    var w := FindWindow(a, p);
    if w.Window? {
      var e := AppendStep(a, b, p);
      DecodeAppend(a, b, w.end + 1);
      PrependBoth(e, DecodeFrom(a, w.end + 1), DecodeFrom(a + b, |a|),
                  DecodeFrom(a, p), DecodeFrom(a + b, w.end + 1), DecodeFrom(a + b, p));
    } else {
      FindExtends(a, b, p);
      PrependNothing(DecodeFrom(a + b, |a|));
    }
  }

  /** The next window of a, with and without the bytes b behind: e is what it adds in both cases. */
  lemma AppendStep(a: seq<byte>, b: seq<byte>, p: nat) returns (e: seq<Message>)
    requires p <= |a| && Settled(a, p) && DecodeFrom(a, p).Messages? && FindWindow(a, p).Window?
    ensures var next := FindWindow(a, p).end + 1;
            && p < next <= |a| && Settled(a, next) && DecodeFrom(a, next).Messages?
            && DecodeFrom(a, p) == Prepend(e, DecodeFrom(a, next))
            && DecodeFrom(a + b, p) == Prepend(e, DecodeFrom(a + b, next))
  {
    hide FindWindow, ParseWindow, Prepend;
    FoundInside(a, p);
    FindExtends(a, b, p);
    var w := FindWindow(a, p);
    var q := DecodeWindow(a, p, DecodeFrom(a, p));
    ParseExtends(a, b, w.start, w.end - w.start + 1);
    var q' := DecodeWindow(a + b, p, DecodeFrom(a + b, p));
    e := EmittedBy(q);
    PrependInto(e, DecodeFrom(a, w.end + 1));
  }

  lemma PrependBoth(e: seq<Message>, later: Decoded, d: Decoded, alone: Decoded, next: Decoded, whole: Decoded)
    requires alone.Messages? && alone == Prepend(e, later)
    requires later.Messages? && next == Prepend(later.ms, d) && whole == Prepend(e, next)
    ensures whole == Prepend(alone.ms, d)
  {
    PrependTwice(e, later.ms, d);
  }

  function EmittedBy(q: Parse): seq<Message> {
    if q.Parsed? then [q.m] else []
  }

  /** What an accepted window adds. */
  lemma DecodeWindow(s: seq<byte>, p: nat, d: Decoded) returns (q: Parse)
    requires d == DecodeFrom(s, p) && FindWindow(s, p).Window?
    requires var w := FindWindow(s, p);
             w.start <= w.end < |s| && ParseWindow(s, w.start, w.end - w.start + 1) != Undefined
    ensures var w := FindWindow(s, p);
            q == ParseWindow(s, w.start, w.end - w.start + 1) && d == Prepend(EmittedBy(q), DecodeFrom(s, w.end + 1))
  {
    hide FindWindow, ParseWindow;
    var w := FindWindow(s, p);
    q := ParseWindow(s, w.start, w.end - w.start + 1);
    PrependNothing(DecodeFrom(s, w.end + 1));
  }

  lemma PrependInto(ms: seq<Message>, d: Decoded)
    requires Prepend(ms, d).Messages?
    ensures d.Messages? && Prepend(ms, d) == Messages(ms + d.ms)
  {
  }

  function Shifted(w: Scan, k: nat): Scan {
    match w
    case Window(start, end) => Window(start + k, end + k)
    case _ => w
  }

  /** Where both scans stay in range, the one behind the bytes a finds what the one without them finds. */
  lemma {:induction false} FindShift(a: seq<byte>, b: seq<byte>, i: nat)
    requires !FindWindow(b, i).OutOfRange? && !FindWindow(a + b, |a| + i).OutOfRange?
    ensures FindWindow(a + b, |a| + i) == Shifted(FindWindow(b, i), |a|)
    decreases |b| - i
  {
    hide IntAt;
    if i < |b| {
      if i + 5 <= |b| {
        IntAtBehind(a, b, i + 1);
      }
      if FindWindow(b, i) == FindWindow(b, i + 1) && FindWindow(a + b, |a| + i) == FindWindow(a + b, |a| + i + 1) {
        FindShift(a, b, i + 1);
      }
    }
  }

  lemma IntAtBehind(a: seq<byte>, b: seq<byte>, k: nat)
    requires k + 4 <= |b|
    ensures IntAt(a + b, |a| + k) == IntAt(b, k)
  {
    assert (a + b)[|a|..] == b;
    IntAtSuffix(a + b, |a|, k);
  }

  lemma ParseBehind(a: seq<byte>, b: seq<byte>, start: nat, pkgLen: nat)
    requires 1 <= pkgLen && start + pkgLen <= |b|
    ensures ParseWindow(a + b, |a| + start, pkgLen) == ParseWindow(b, start, pkgLen)
  {
    hide ParseWindow;
    assert (a + b)[|a|..] == b;
    ParseSuffix(a + b, |a|, start, pkgLen);
  }

  /** What decodes both alone and behind other bytes decodes to the same messages: apart from the range
      tests, the parser never looks back. */
  lemma {:induction false} DecodeShift(a: seq<byte>, b: seq<byte>, i: nat)
    requires DecodeFrom(b, i).Messages? && DecodeFrom(a + b, |a| + i).Messages?
    ensures DecodeFrom(a + b, |a| + i) == DecodeFrom(b, i)
    decreases |b| - i
  {
    hide FindWindow, ParseWindow;
    FindShift(a, b, i);
    var w := FindWindow(b, i);
    if w.Window? {
      FoundInside(b, i);
      ParseBehind(a, b, w.start, w.end - w.start + 1);
      DecodeShift(a, b, w.end + 1);
    }
  }

  /** Decoding is a homomorphism: two streams, one behind the other, give the messages of the first and then
      those of the second, each decoded alone. */
  lemma DecodeConcat(a: seq<byte>, b: seq<byte>)
    requires Settled(a, 0) && DecodeStream(a).Messages? && DecodeStream(b).Messages?
    requires DecodeFrom(a + b, |a|).Messages?
    ensures DecodeStream(a + b) == Messages(DecodeStream(a).ms + DecodeStream(b).ms)
  {
    hide DecodeFrom, Settled;
    DecodeAppend(a, b, 0);
    DecodeShift(a, b, 0);
  }

  // ---- Incomplete ends ----

  /** Every start byte of t but a last one announces, in full, an extent that goes beyond t, within the index
      range when before bytes precede t. */
  predicate Unfinished(t: seq<byte>, before: nat) {
    forall i :: 0 <= i < |t| - 1 && t[i] == PB_START ==>
      && i + 5 <= |t| && i + IntAt(t, i + 1) > |t|
      && before + i + IntAt(t, i + 1) <= INT_MAX
  }

  lemma {:induction false} UnfinishedPassed(a: seq<byte>, t: seq<byte>, i: nat)
    requires Unfinished(t, |a|) && i <= |t|
    ensures FindWindow(a + t, |a| + i) == NoWindow
    decreases |t| - i
  {
    hide IntAt;
    if i < |t| {
      UnfinishedPassed(a, t, i + 1);
      if i + 5 <= |t| {
        IntAtBehind(a, t, i + 1);
      }
      assert (a + t)[|a| + i] == t[i];
    }
  }

  /** An unfinished end, as every cut leaves, costs nothing: what came before it is decoded as if it had not
      arrived yet. */
  lemma UnfinishedEnd(a: seq<byte>, t: seq<byte>)
    requires Settled(a, 0) && DecodeStream(a).Messages? && Unfinished(t, |a|)
    ensures DecodeStream(a + t) == DecodeStream(a)
  {
    hide FindWindow, Settled, Unfinished, Prepend, DecodeFrom;
    DecodeAppend(a, t, 0);
    UnfinishedNothing(a, t);
    PrependToNothing(DecodeStream(a).ms);
  }

  lemma UnfinishedNothing(a: seq<byte>, t: seq<byte>)
    requires Unfinished(t, |a|)
    ensures DecodeFrom(a + t, |a|) == Messages([])
  {
    hide FindWindow, Unfinished;
    UnfinishedPassed(a, t, 0);
  }

  lemma PrependToNothing(ms: seq<Message>)
    ensures Prepend(ms, Messages([])) == Messages(ms)
  {
    assert ms + [] == ms;
  }

  /** For instance: valid frames in a row, and the first five bytes of one that is still coming, provided its
      length has no start byte in it. */
  lemma HeaderOfNext(ms: seq<Message>, next: Message)
    requires AllValid(ms) && Encodable(next) && |Frames(ms)| + FrameLength(next) <= INT_MAX
    requires PB_START !in NetInt(FrameLength(next))
    ensures DecodeStream(Frames(ms) + ([PB_START] + NetInt(FrameLength(next)))) == Messages(SealedAll(ms))
  {
    ValidEncodable(ms);
    hide IntAt, NetInt, DecodeStream, Settled, Frames, SealedAll, Valid, Encodable;
    FramesRoundTrip(ms);
    FramesSettled(ms);
    var t := [PB_START] + NetInt(FrameLength(next));
    assert t == [PB_START] + NetInt(FrameLength(next)) + [];
    IntAtInside([PB_START], FrameLength(next), []);
    assert forall i :: 0 < i < |t| ==> t[i] == NetInt(FrameLength(next))[i - 1];
    UnfinishedEnd(Frames(ms), t);
  }

  // ---- Settled streams ----

  /** Behind the bytes a, a settled stream that still fits the index range stays settled and decodes alike. */
  lemma {:induction false} SettledShift(a: seq<byte>, b: seq<byte>, i: nat)
    requires i <= |b| && Settled(b, i) && |a| + |b| <= INT_MAX
    ensures Settled(a + b, |a| + i) && DecodeFrom(a + b, |a| + i) == DecodeFrom(b, i)
    decreases |b| - i
  {
    hide FindWindow, ParseWindow, Contained;
    var w := FindWindow(b, i);
    if w.Window? {
      FoundInside(b, i);
      InRangeBehind(a, b, i);
      FindShift(a, b, i);
      ContainedBehind(a, b, i, w.start);
      ParseBehind(a, b, w.start, w.end - w.start + 1);
      SettledShift(a, b, w.end + 1);
    } else {
      InRangeBehind(a, b, i);
      FindShift(a, b, i);
      ContainedBehind(a, b, i, |b|);
    }
  }

  lemma {:induction false} InRangeBehind(a: seq<byte>, b: seq<byte>, i: nat)
    requires i <= |b| && !FindWindow(b, i).OutOfRange? && |a| + |b| <= INT_MAX
    requires Contained(b, i, if FindWindow(b, i).Window? then Min(FindWindow(b, i).start, |b|) else |b|)
    ensures !FindWindow(a + b, |a| + i).OutOfRange?
    decreases |b| - i
  {
    hide IntAt;
    var w := FindWindow(b, i);
    if w.Window? {
      FoundInside(b, i);
    }
    if i + 5 <= |b| {
      IntAtBehind(a, b, i + 1);
    }
    if i < |b| && !(w.Window? && w.start == i) {
      assert b[i] == PB_START ==> i + 5 <= |b| && i + IntAt(b, i + 1) <= |b|;
      InRangeBehind(a, b, i + 1);
    }
  }

  lemma ContainedBehind(a: seq<byte>, b: seq<byte>, i: nat, hi: nat)
    requires i <= hi <= |b| && Contained(b, i, hi)
    ensures Contained(a + b, |a| + i, |a| + hi)
  {
    hide IntAt;
    var s := a + b;
    forall k | |a| + i <= k < |a| + hi && s[k] == PB_START
      ensures k + 5 <= |s| && k + IntAt(s, k + 1) <= |s|
    {
      assert s[k] == b[k - |a|];
      IntAtBehind(a, b, k - |a| + 1);
    }
  }

  /** Bytes settled on both sides of a cut are settled as a whole. */
  lemma {:induction false} SettledJoin(a: seq<byte>, b: seq<byte>, p: nat)
    requires p <= |a| && Settled(a, p) && Settled(a + b, |a|)
    ensures Settled(a + b, p)
    decreases |a| - p
  {
    hide FindWindow, IntAt;
    var w := FindWindow(a, p);
    FindExtends(a, b, p);
    if w.Window? {
      FoundInside(a, p);
      ContainedAhead(a, b, p, w.start);
      SettledJoin(a, b, w.end + 1);
    } else {
      ContainedAhead(a, b, p, |a|);
      var v := FindWindow(a + b, |a|);
      if v.Window? {
        FoundInside(a + b, |a|);
      }
    }
  }

  lemma ContainedAhead(a: seq<byte>, b: seq<byte>, p: nat, hi: nat)
    requires hi <= |a| && Contained(a, p, hi)
    ensures Contained(a + b, p, hi)
  {
    hide IntAt;
    forall k | p <= k < hi && (a + b)[k] == PB_START
      ensures k + 5 <= |a + b| && k + IntAt(a + b, k + 1) <= |a + b|
    {
      assert (a + b)[k] == a[k];
      IntAtExtends(a, b, k + 1);
    }
  }

  /** Settled streams are closed under concatenation, and decoding them turns it into concatenation of
      messages, with no condition but the index range. */
  lemma SettledConcat(a: seq<byte>, b: seq<byte>)
    requires Settled(a, 0) && DecodeStream(a).Messages? && Settled(b, 0) && DecodeStream(b).Messages?
    requires |a| + |b| <= INT_MAX
    ensures Settled(a + b, 0)
    ensures DecodeStream(a + b) == Messages(DecodeStream(a).ms + DecodeStream(b).ms)
  {
    hide DecodeFrom, Settled;
    SettledShift(a, b, 0);
    SettledJoin(a, b, 0);
    DecodeAppend(a, b, 0);
  }

  /** A whole window: start byte, its own length, end byte; what lies between is arbitrary. */
  predicate Delimited(w: seq<byte>) {
    5 <= |w| && w[0] == PB_START && IntAt(w, 1) == |w| && w[|w| - 1] == PB_END
  }

  lemma FrameDelimited(m: Message)
    requires Encodable(m)
    ensures Delimited(Frame(m))
  {
    hide Frame, IntAt;
    FrameFields(m, []);
    assert Frame(m) + [] == Frame(m);
  }

  lemma SettledGap(gap: seq<byte>)
    requires PB_START !in gap
    ensures Settled(gap, 0)
  {
    hide IntAt;
    assert gap[0..|gap|] == gap;
    FindSkips(gap, 0, |gap|);
  }

  lemma SettledWindow(w: seq<byte>)
    requires Delimited(w) && |w| <= INT_MAX
    ensures Settled(w, 0)
  {
    hide IntAt;
    assert FindWindow(w, 0) == Window(0, |w| - 1);
    assert FindWindow(w, |w|) == NoWindow;
  }

  /** Any sequence of whole windows, acceptable or not, and bytes without a start byte is settled. */
  lemma {:induction false} PiecesSettled(pieces: seq<seq<byte>>)
    requires forall p <- pieces :: PB_START !in p || Delimited(p)
    requires |Flatten(pieces)| <= INT_MAX
    ensures Settled(Flatten(pieces), 0)
  {
    hide Delimited, Settled;
    if pieces == [] {
      SettledGap([]);
    } else {
      var first, rest := pieces[0], Flatten(pieces[1..]);
      PiecesSettled(pieces[1..]);
      if PB_START !in first {
        SettledGap(first);
      } else {
        SettledWindow(first);
      }
      SettledShift(first, rest, 0);
      SettledJoin(first, rest, 0);
    }
  }

  /** Streams of frames and start-free gaps are settled, whatever their messages: also those whose texts the
      parser cannot carry. */
  lemma StreamSettled(pieces: seq<Piece>)
    requires Writable(pieces) && GapsStartFree(pieces) && |Stream(pieces)| <= INT_MAX
    ensures Settled(Stream(pieces), 0)
  {
    hide Settled, Delimited, Frame, Flatten, Encodable;
    var parts := PartsOf(pieces);
    forall p | p in parts
      ensures PB_START !in p || Delimited(p)
    {
      var i :| 0 <= i < |parts| && parts[i] == p;
      if pieces[i].Whole? {
        FrameDelimited(pieces[i].m);
      }
    }
    PiecesSettled(parts);
  }

  lemma FramesSettled(ms: seq<Message>)
    requires AllValid(ms) && |Frames(ms)| <= INT_MAX
    ensures Settled(Frames(ms), 0)
  {
    hide Settled, Frame, Frames, Flatten, Valid, Encodable;
    ValidEncodable(ms);
    forall i | 0 <= i < |ms|
      ensures Encodable(ms[i])
    {
      assert ms[i] in ms;
    }
    FramesFlatten(ms, PartsOf(Wholes(ms)));
    StreamSettled(Wholes(ms));
  }

  /** A decoded message is never longer than the bytes it was decoded from. */
  lemma {:induction false} DecodedFits(s: seq<byte>, p: nat, m: Message)
    requires p <= |s| && DecodeFrom(s, p).Messages? && m in DecodeFrom(s, p).ms
    ensures m.pkLen <= |s| - p
    decreases |s| - p
  {
    hide FindWindow, ParseWindow;
    var w := FindWindow(s, p);
    FoundInside(s, p);
    var q := ParseWindow(s, w.start, w.end - w.start + 1);
    if q.Parsed? && m == q.m {
      ParsedLength(s, w.start, w.end - w.start + 1);
    } else {
      DecodedFits(s, w.end + 1, m);
    }
  }

  lemma ParsedLength(t: seq<byte>, start: nat, pkgLen: nat)
    requires 1 <= pkgLen && start + pkgLen <= |t| && ParseWindow(t, start, pkgLen).Parsed?
    ensures ParseWindow(t, start, pkgLen).m.pkLen == pkgLen
  {
  }

  /** A frame that arrives in two reads is decoded as its message exactly when one of them holds all of it. */
  lemma SplitFrame(m: Message, k: nat)
    requires Valid(m) && k <= |Frame(m)|
    ensures (&& DecodeStream(Frame(m)[..k]).Messages? && DecodeStream(Frame(m)[k..]).Messages?
             && DecodeStream(Frame(m)[..k]).ms + DecodeStream(Frame(m)[k..]).ms == [Sealed(m)])
       <==> k == 0 || k == |Frame(m)|
  {
    hide DecodeFrom, Frame, HasFields, EffectiveId;
    var f := Frame(m);
    assert f[0..|f|] == f;
    FrameFields(m, []);
    DecodeFrame(f, 0, m);
    hide Valid;
    DecodeEnd(f);
    DecodeEnd([]);
    assert f[..k] + f[k..] == f;
    var d1, d2 := DecodeStream(f[..k]), DecodeStream(f[k..]);
    if k == 0 || k == |f| {
      assert f[..|f|] == f && f[0..] == f;
      assert [Sealed(m)] + [] == [Sealed(m)] && [] + [Sealed(m)] == [Sealed(m)];
    } else if d1.Messages? && d2.Messages? && d1.ms + d2.ms == [Sealed(m)] {
      assert Sealed(m) == (d1.ms + d2.ms)[0];
      if Sealed(m) in d1.ms {
        DecodedFits(f[..k], 0, Sealed(m));
      } else {
        DecodedFits(f[k..], 0, Sealed(m));
      }
    }
  }

  // ---- Soundness and completeness of the windows ----

  /** A window of the received bytes, with what its fields gave. */
  datatype Found = Found(start: nat, end: nat, result: Parse)

  function Trace(s: seq<byte>, p: nat): seq<Found>
    decreases |s| - p
  {
    match FindWindow(s, p)
    case Window(start, end) =>
      FoundInside(s, p);
      if end < start then []
      else [Found(start, end, ParseWindow(s, start, end - start + 1))] + Trace(s, end + 1)
    case _ => []
  }

  function Emitted(tr: seq<Found>): seq<Message> {
    if tr == [] then []
    else (if tr[0].result.Parsed? then [tr[0].result.m] else []) + Emitted(tr[1..])
  }

  /** A complete window: a start byte, a length, and the end byte the length points at. */
  predicate Framed(s: seq<byte>, start: nat, end: nat) {
    && start + 5 <= |s| && end < |s| && s[start] == PB_START && s[end] == PB_END
    && IntAt(s, start + 1) == end - start + 1
  }

  /** The scan returns the leftmost framed window and nothing else. */
  lemma {:induction false} FindLeftmost(s: seq<byte>, p: nat)
    requires !FindWindow(s, p).OutOfRange?
    ensures var w := FindWindow(s, p);
            && (w.Window? ==> p <= w.start && Framed(s, w.start, w.end))
            && forall j, e :: p <= j && (w.Window? ==> j < w.start) ==> !Framed(s, j, e)
    decreases |s| - p
  {
    hide IntAt;
    if p < |s| {
      var w := FindWindow(s, p);
      if w == FindWindow(s, p + 1) {
        FindLeftmost(s, p + 1);
      }
    }
  }

  /** A start byte that is not the last byte and whose length cannot be read, or points outside the indices. */
  predicate Faulty(s: seq<byte>, i: nat) {
    && i + 1 < |s| && s[i] == PB_START
    && (i + 5 > |s| || i + IntAt(s, i + 1) < 1 || i + IntAt(s, i + 1) > 0x7FFF_FFFF)
  }

  /** A framed window or a faulty start byte at index i ends a scan. */
  ghost predicate Stops(s: seq<byte>, i: nat) {
    Faulty(s, i) || exists e :: Framed(s, i, e)
  }

  ghost predicate Passed(s: seq<byte>, p: nat, i: nat) {
    forall k :: p <= k < i ==> !Stops(s, k)
  }

  lemma PassedOne(s: seq<byte>, p: nat, i: nat)
    requires p < i
    ensures Passed(s, p, i) <==> !Stops(s, p) && Passed(s, p + 1, i)
  {
    hide Stops;
  }

  /** One index of the scan. */
  lemma ScanStep(s: seq<byte>, p: nat)
    requires p < |s|
    ensures Faulty(s, p) ==> FindWindow(s, p) == OutOfRange
    ensures forall e :: Framed(s, p, e) && !Faulty(s, p) ==> FindWindow(s, p) == Window(p, e)
    ensures !Stops(s, p) ==> FindWindow(s, p) == FindWindow(s, p + 1)
  {
    hide IntAt;
    if p + 5 <= |s| {
      var end := p + IntAt(s, p + 1) - 1;
      assert 0 <= end < |s| && s[p] == PB_START && s[end] == PB_END ==> Framed(s, p, end);
    }
  }

  /** The end of a scan at index i, with nothing before. */
  ghost predicate StopsAt(s: seq<byte>, p: nat, i: nat, w: Scan) {
    && p <= i && Passed(s, p, i)
    && match w
       case OutOfRange => Faulty(s, i)
       case Window(start, end) => start == i && Framed(s, i, end) && !Faulty(s, i)
       case NoWindow => i == |s|
  }

  lemma StopsAtEnd(s: seq<byte>, w: Scan)
    ensures FindWindow(s, |s|) == w <==> exists i :: StopsAt(s, |s|, i, w)
  {
    hide IntAt;
    if w == NoWindow {
      assert StopsAt(s, |s|, |s|, w);
    }
  }

  lemma StopsNext(s: seq<byte>, p: nat, i: nat, w: Scan)
    requires p < |s| && !Stops(s, p)
    ensures StopsAt(s, p, i, w) <==> StopsAt(s, p + 1, i, w)
  {
    hide Faulty, Framed, Passed;
    if p < i {
      PassedOne(s, p, i);
    }
  }

  /** What ends a scan, in terms of the bytes: it is out of range exactly at a faulty start byte, finds a
      window exactly at a framed one, whichever comes first, and finds nothing exactly when there is neither.
      In particular a start byte whose announced end lies behind the bytes received is passed over. */
  lemma {:induction false} ScanIff(s: seq<byte>, p: nat, w: Scan)
    requires p <= |s|
    ensures FindWindow(s, p) == w <==> exists i :: StopsAt(s, p, i, w)
    decreases |s| - p
  {
    hide Faulty, Framed;
    if p == |s| {
      StopsAtEnd(s, w);
    } else {
      ScanStep(s, p);
      ScanIff(s, p + 1, w);
      assert Passed(s, p, p);
      hide Passed;
      if Stops(s, p) {
        if FindWindow(s, p) == w {
          assert StopsAt(s, p, p, w);
        }
      } else {
        var next := p + 1;
        if i: nat :| StopsAt(s, next, i, w) {
          StopsNext(s, p, i, w);
        }
        if i: nat :| StopsAt(s, p, i, w) {
          StopsNext(s, p, i, w);
        }
      }
    }
  }

  // ---- What a window holds ----

  /** A length and as many bytes. */
  predicate HasText(t: seq<byte>, k: nat, text: seq<byte>) {
    k + 4 + |text| <= |t| && IntAt(t, k) == |text| && t[k + 4..k + 4 + |text|] == text
  }

  /** A text that a zeroed array gives back as a string: shorter than it, or filling it with a zero inside. */
  predicate Fits(text: seq<byte>, capacity: nat) {
    |text| < capacity || (|text| == capacity && 0 in text)
  }

  lemma TextAt(t: seq<byte>, k: nat, capacity: nat)
    requires k + 4 <= |t|
    ensures Copyable(t, k + 4, IntAt(t, k), capacity) <==> exists text :: HasText(t, k, text) && Fits(text, capacity)
  {
    hide IntAt;
    var n := IntAt(t, k);
    if Copyable(t, k + 4, n, capacity) {
      assert HasText(t, k, t[k + 4..k + 4 + n]) && Fits(t[k + 4..k + 4 + n], capacity);
    }
  }

  lemma TextFacts(t: seq<byte>, k: nat, text: seq<byte>, capacity: nat)
    requires HasText(t, k, text)
    ensures k + 4 + |text| <= |t| && IntAt(t, k) == |text| && t[k + 4..k + 4 + |text|] == text
    ensures Copyable(t, k + 4, |text|, capacity) <==> Fits(text, capacity)
  {
  }

  lemma OneText(t: seq<byte>, k: nat, x: seq<byte>, y: seq<byte>)
    requires HasText(t, k, x) && HasText(t, k, y)
    ensures x == y
  {
  }

  lemma NoText(t: seq<byte>, k: nat)
    requires k + 4 > |t|
    ensures forall text :: !HasText(t, k, text)
  {
  }

  /** The window of n bytes from start holds these texts, and they leave room for data, checksum and end. */
  predicate HoldsTexts(
    t: seq<byte>, start: nat, n: nat, id: seq<byte>, method_: seq<byte>, error: seq<byte>)
  {
    && HasText(t, start + 5, id) && Fits(id, 128)
    && HasText(t, start + 9 + |id|, method_) && Fits(method_, 512)
    && HasText(t, start + 17 + |id| + |method_|, error) && Fits(error, 512)
    && 26 + |id| + |method_| + |error| <= n
  }

  /** The message of these texts: the error code lies between method and error text, and the data is all
      that is left up to the last five bytes. */
  function MessageOf(
    t: seq<byte>, start: nat, n: nat, id: seq<byte>, method_: seq<byte>, error: seq<byte>): Message
    requires start + n <= |t| && 26 + |id| + |method_| + |error| <= n
  {
    Message(n, |id|, CString(id), |method_|, CString(method_), IntAt(t, start + 13 + |id| + |method_|),
            |error|, CString(error), t[start + 21 + |id| + |method_| + |error|..start + n - 5], true)
  }

  /** A window gives a message exactly when it holds three texts that fit, and then the message of these. */
  lemma ParsedIff(t: seq<byte>, start: nat, n: nat, m: Message)
    requires 1 <= n && start + n <= |t|
    ensures ParseWindow(t, start, n) == Parsed(m) <==>
              exists id, method_, error ::
                HoldsTexts(t, start, n, id, method_, error) && m == MessageOf(t, start, n, id, method_, error)
  {
    hide IntAt, CString, ParseWindow, HasText, Fits, MessageOf;
    if id, method_, error :|
         HoldsTexts(t, start, n, id, method_, error) && m == MessageOf(t, start, n, id, method_, error) {
      HoldsParsed(t, start, n, id, method_, error);
    }
    if ParseWindow(t, start, n).Parsed? {
      var id, method_, error := ParsedHolds(t, start, n);
      HoldsParsed(t, start, n, id, method_, error);
    }
  }

  lemma HoldsParsed(t: seq<byte>, start: nat, n: nat, id: seq<byte>, method_: seq<byte>, error: seq<byte>)
    requires 1 <= n && start + n <= |t| && HoldsTexts(t, start, n, id, method_, error)
    ensures ParseWindow(t, start, n) == Parsed(MessageOf(t, start, n, id, method_, error))
  {
    var a, b, c := |id|, |method_|, |error|;
    TextFacts(t, start + 5, id, ID_CAPACITY);
    TextFacts(t, start + 9 + a, method_, TEXT_CAPACITY);
    TextFacts(t, start + 17 + a + b, error, TEXT_CAPACITY);
    hide IntAt, CString, Copyable, HasText, Fits;
    assert ParseWindow(t, start, n) == ParseAfterId(t, start, n, a);
    assert ParseAfterId(t, start, n, a) == ParseAfterMethod(t, start, n, a, b);
    assert ParseAfterMethod(t, start, n, a, b) == ParseData(t, start, n, a, b, c);
    DataOf(t, start, n, id, method_, error);
  }

  lemma DataOf(t: seq<byte>, start: nat, n: nat, id: seq<byte>, method_: seq<byte>, error: seq<byte>)
    requires start + n <= |t| && HoldsTexts(t, start, n, id, method_, error)
    ensures ParseData(t, start, n, |id|, |method_|, |error|) == Parsed(MessageOf(t, start, n, id, method_, error))
  {
    hide IntAt, CString, Fits;
  }

  lemma ParsedHolds(t: seq<byte>, start: nat, n: nat)
    returns (id: seq<byte>, method_: seq<byte>, error: seq<byte>)
    requires 1 <= n && start + n <= |t| && ParseWindow(t, start, n).Parsed?
    ensures HoldsTexts(t, start, n, id, method_, error)
  {
    hide IntAt, CString;
    var a := IntAt(t, start + 5);
    id := t[start + 9..start + 9 + a];
    var b := IntAt(t, start + 9 + a);
    method_ := t[start + 13 + a..start + 13 + a + b];
    var c := IntAt(t, start + 17 + a + b);
    error := t[start + 21 + a + b..start + 21 + a + b + c];
  }

  /** The method reaches the window's last byte, or the error code behind it does. */
  predicate MethodTooLong(t: seq<byte>, start: nat, n: nat, id: seq<byte>, method_: seq<byte>) {
    && HasText(t, start + 9 + |id|, method_) && Fits(method_, 512)
    && (n <= 14 + |id| + |method_| || (n <= 18 + |id| + |method_| && start + 17 + |id| + |method_| <= |t|))
  }

  /** The id reaches the window's last byte, or what follows it does. */
  ghost predicate IdTooLong(t: seq<byte>, start: nat, n: nat, id: seq<byte>) {
    && HasText(t, start + 5, id) && Fits(id, 128)
    && (n <= 10 + |id| || exists method_ :: MethodTooLong(t, start, n, id, method_))
  }

  /** A window is dropped, without a message and without harm, exactly when it is five bytes short or its
      texts, as far as they fit, reach its last byte too early. */
  lemma DroppedIff(t: seq<byte>, start: nat, n: nat)
    requires 1 <= n && start + n <= |t|
    ensures ParseWindow(t, start, n) == Dropped <==> n <= 5 || exists id :: IdTooLong(t, start, n, id)
  {
    hide IntAt, ParseAfterId, HasText, Copyable, Fits, MethodTooLong;
    var k := start + 5;
    if n > 5 {
      if k + 4 > |t| {
        NoText(t, k);
      } else {
        TextAt(t, k, ID_CAPACITY);
        if id :| HasText(t, k, id) && Fits(id, 128) {
          TextFacts(t, k, id, ID_CAPACITY);
          DroppedAfterId(t, start, n, id);
          assert ParseWindow(t, start, n) == ParseAfterId(t, start, n, |id|);
          if other :| IdTooLong(t, start, n, other) {
            OneText(t, k, id, other);
          }
          assert ParseAfterId(t, start, n, |id|) == Dropped <==> IdTooLong(t, start, n, id);
        }
      }
    }
  }

  lemma DroppedAfterId(t: seq<byte>, start: nat, n: nat, id: seq<byte>)
    requires 1 <= n && start + n <= |t| && start + 9 + |id| <= |t|
    ensures ParseAfterId(t, start, n, |id|) == Dropped
       <==> n <= 10 + |id| || exists method_ :: MethodTooLong(t, start, n, id, method_)
  {
    hide IntAt, HasText, Copyable, Fits;
    var k := start + 9 + |id|;
    if n > 10 + |id| {
      if k + 4 > |t| {
        NoText(t, k);
      } else {
        TextAt(t, k, TEXT_CAPACITY);
        if method_ :| HasText(t, k, method_) && Fits(method_, 512) {
          TextFacts(t, k, method_, TEXT_CAPACITY);
          assert ParseAfterId(t, start, n, |id|) == ParseAfterMethod(t, start, n, |id|, |method_|);
          if other :| MethodTooLong(t, start, n, id, other) {
            OneText(t, k, method_, other);
          }
          assert ParseAfterMethod(t, start, n, |id|, |method_|) == Dropped
             <==> MethodTooLong(t, start, n, id, method_);
        }
      }
    }
  }

  /** The windows from index p on are framed, start behind p, and follow one another without overlap. */
  ghost predicate Orderly(s: seq<byte>, p: nat, tr: seq<Found>) {
    && (forall k :: 0 <= k < |tr| ==>
          && p <= tr[k].start < tr[k].end && Framed(s, tr[k].start, tr[k].end)
          && tr[k].result == ParseWindow(s, tr[k].start, tr[k].end - tr[k].start + 1))
    && (forall j, k :: 0 <= j < k < |tr| ==> tr[j].end < tr[k].start)
  }

  lemma OrderlyCons(s: seq<byte>, p: nat, f: Found, tr: seq<Found>)
    requires p <= f.start < f.end && Framed(s, f.start, f.end)
    requires f.result == ParseWindow(s, f.start, f.end - f.start + 1)
    requires Orderly(s, f.end + 1, tr)
    ensures Orderly(s, p, [f] + tr)
  {
    hide ParseWindow, IntAt;
  }

  /** Soundness: windows are framed, in order, disjoint, and the messages are those of the windows. */
  lemma {:induction false} TraceSound(s: seq<byte>, p: nat)
    requires DecodeFrom(s, p).Messages?
    ensures Orderly(s, p, Trace(s, p))
    ensures Emitted(Trace(s, p)) == DecodeFrom(s, p).ms
    decreases |s| - p
  {
    hide FindWindow, ParseWindow, Framed, Orderly;
    var w := FindWindow(s, p);
    FindLeftmost(s, p);
    if w.Window? {
      FoundInside(s, p);
      var q := DecodeStep(s, p, DecodeFrom(s, p).ms);
      TraceSound(s, w.end + 1);
      var f := Found(w.start, w.end, q);
      assert Trace(s, p) == [f] + Trace(s, w.end + 1);
      OrderlyCons(s, p, f, Trace(s, w.end + 1));
      assert Trace(s, p)[1..] == Trace(s, w.end + 1);
    } else {
      NoneOrderly(s, p);
    }
  }

  lemma NoneOrderly(s: seq<byte>, p: nat)
    ensures Orderly(s, p, [])
  {
  }

  /** Completeness: every framed window overlaps an accepted one, so nothing decodable is passed over. */
  lemma {:induction false} TraceComplete(s: seq<byte>, p: nat, start: nat, end: nat)
    requires p <= start && DecodeFrom(s, p).Messages? && Framed(s, start, end)
    ensures exists k :: 0 <= k < |Trace(s, p)| && Trace(s, p)[k].start <= start <= Trace(s, p)[k].end
    decreases |s| - p
  {
    hide FindWindow, ParseWindow, Framed;
    var w := FindWindow(s, p);
    FindLeftmost(s, p);
    FoundInside(s, p);
    var q := DecodeStep(s, p, DecodeFrom(s, p).ms);
    if start <= w.end {
      assert Trace(s, p)[0].start <= start <= Trace(s, p)[0].end;
    } else {
      var next := w.end + 1;
      TraceComplete(s, next, start, end);
      var k :| 0 <= k < |Trace(s, next)| && Trace(s, next)[k].start <= start <= Trace(s, next)[k].end;
      assert Trace(s, p)[k + 1] == Trace(s, next)[k];
    }
  }
}
