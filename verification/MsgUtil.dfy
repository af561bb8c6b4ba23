/** The message id generator: a decimal odometer seeded with random digits. */
module MsgIds {
  import opened Bytes

  const ID_LENGTH: nat := 20

  predicate Digits(s: string) {
    forall i :: 0 <= i < |s| ==> '0' <= s[i] <= '9'
  }

  function DigitValue(c: char): nat
    requires '0' <= c <= '9'
  {
    c as int - '0' as int
  }

  /** The number a digit string denotes, most significant digit first. */
  function Value(s: string): nat
    requires Digits(s)
  {
    if s == [] then 0 else 10 * Value(s[..|s| - 1]) + DigitValue(s[|s| - 1])
  }

  function Pow10(n: nat): nat {
    if n == 0 then 1 else 10 * Pow10(n - 1)
  }

  function Repeat(c: char, n: nat): (s: string)
    ensures |s| == n && forall i :: 0 <= i < n ==> s[i] == c
  {
    seq(n, _ => c)
  }

  predicate AllNines(s: string) {
    forall i :: 0 <= i < |s| ==> s[i] == '9'
  }

  /** Lexicographic order, as std::string compares. */
  predicate LexLess(a: string, b: string) {
    if b == [] then false
    else if a == [] then true
    else if a[0] != b[0] then a[0] < b[0]
    else LexLess(a[1..], b[1..])
  }

  /** Index i holds the last digit that is not a nine: it goes up and the nines behind it roll over. */
  predicate Carried(s: string, t: string, i: nat) {
    && |t| == |s| && i < |s| && '0' <= s[i] < '9'
    && (forall j :: i < j < |s| ==> s[j] == '9' && t[j] == '0')
    && t[i] == NextDigit(s[i])
    && (forall j :: 0 <= j < i ==> t[j] == s[j])
  }

  lemma {:induction false} CarriedValue(s: string, t: string, i: nat)
    requires Digits(s) && Carried(s, t, i)
    ensures Digits(t) && Value(t) == Value(s) + 1
  {
    var n := |s| - 1;
    var s', t' := s[..n], t[..n];
    if i == n {
      assert s' == t';
    } else {
      assert Carried(s', t', i);
      CarriedValue(s', t', i);
    }
  }

  lemma {:induction false} CarriedLex(s: string, t: string, i: nat)
    requires Carried(s, t, i)
    ensures LexLess(s, t)
  {
    if i > 0 {
      assert Carried(s[1..], t[1..], i - 1);
      CarriedLex(s[1..], t[1..], i - 1);
    }
  }

  lemma {:induction false} LexTransitive(a: string, b: string, c: string)
    requires LexLess(a, b) && LexLess(b, c)
    ensures LexLess(a, c)
  {
    if a != [] && b != [] && c != [] && a[0] == b[0] == c[0] {
      LexTransitive(a[1..], b[1..], c[1..]);
    }
  }

  lemma {:induction false} LexIrreflexive(a: string)
    ensures !LexLess(a, a)
  {
    if a != [] {
      LexIrreflexive(a[1..]);
    }
  }

  /** The thread's generator. */
  class MsgUtil {
    var msgIdNo: string     // t_msg_id_no
    var maxMsgIdNo: string  // t_max_msg_id_no

    ghost function View(): Gen
      reads this
    {
      Gen(msgIdNo, maxMsgIdNo)
    }

    ghost predicate Valid()
      reads this
    {
      Sound(View())
    }

    constructor ()
      ensures Valid() && View() == START
    {
      msgIdNo, maxMsgIdNo := [], [];
    }

    /** Either reseeds from the random bytes (too few when reading fails), appending nines to the maximum, or
        counts up in place. */
    method GenMsgID(random: seq<byte>) returns (id: string)
      requires Valid()
      modifies this
      ensures Valid()
      ensures Generates(old(View()), random, View(), id)
      ensures old(Reseeds(View())) && |random| == 20 ==>
                |id| == 20 && forall k :: 0 <= k < 20 ==> '0' <= id[k] <= '9' && DigitValue(id[k]) == random[k] % 10
    {
      if msgIdNo == [] || msgIdNo == maxMsgIdNo {
        if |random| != ID_LENGTH {
          return [];
        }
        ghost var g := View();
        var res := "";
        ghost var before := maxMsgIdNo;
        for i := 0 to ID_LENGTH
          invariant |res| == i && forall k :: 0 <= k < i ==> res[k] == SeedDigit(random[k])
          invariant maxMsgIdNo == before + Repeat('9', i)
          modifies this`maxMsgIdNo
        {
          res := res + [SeedDigit(random[i])];
          maxMsgIdNo := maxMsgIdNo + ['9'];
          assert Repeat('9', i) + ['9'] == Repeat('9', i + 1);
        }
        msgIdNo := res;
        SeededDigits(res, random);
        NinesGrow(before);
        assert Generates(g, random, View(), res);
      } else {
        ghost var s := msgIdNo;
        var i := |msgIdNo| - 1;
        while i >= 0 && msgIdNo[i] == '9'
          invariant -1 <= i < |msgIdNo|
          invariant forall j :: i < j < |msgIdNo| ==> msgIdNo[j] == '9'
          modifies {}
        {
          i := i - 1;
        }
        if i >= 0 {
          ghost var at := i;
          msgIdNo := msgIdNo[i := NextDigit(msgIdNo[i])];
          var j := i + 1;
          while j < |msgIdNo|
            invariant i < j <= |msgIdNo| == |s|
            invariant forall k :: 0 <= k < |s| ==>
              msgIdNo[k] == if k == i then NextDigit(s[i]) else if i < k < j then '0' else s[k]
            modifies this`msgIdNo
          {
            msgIdNo := msgIdNo[j := '0'];
            j := j + 1;
          }
          assert Carried(s, msgIdNo, at);
          CarriedValue(s, msgIdNo, at);
        }
      }
      id := msgIdNo;
    }
  }

  /** A random byte as a decimal digit. */
  function SeedDigit(b: byte): (c: char)
    ensures '0' <= c <= '9' && c as int - '0' as int == b % 10
  {
    (b % 10 + '0' as int) as char
  }

  function NextDigit(c: char): char
    requires '0' <= c < '9'
  {
    (c as int + 1) as char
  }

  predicate Seeded(s: string, random: seq<byte>) {
    |s| == |random| == ID_LENGTH && forall i :: 0 <= i < ID_LENGTH ==> s[i] == SeedDigit(random[i])
  }

  /** One step of the odometer; the all-nines string stays as it is. */
  ghost predicate Advanced(s: string, t: string) {
    if AllNines(s) then t == s else exists i :: Carried(s, t, i)
  }

  lemma SeededDigits(s: string, random: seq<byte>)
    requires Seeded(s, random)
    ensures Digits(s) && |s| == ID_LENGTH
  {
  }

  /** Seeds are equal exactly when their bytes agree modulo ten. */
  lemma SeedsEqualIff(s: string, random: seq<byte>, t: string, random': seq<byte>)
    requires Seeded(s, random) && Seeded(t, random')
    ensures s == t <==> forall k :: 0 <= k < 20 ==> random[k] % 10 == random'[k] % 10
  {
    if forall k :: 0 <= k < 20 ==> random[k] % 10 == random'[k] % 10 {
      assert forall k :: 0 <= k < 20 ==> s[k] == t[k];
    }
  }

  /** Every string of twenty digits is the seed of some bytes. */
  lemma EverySeed(s: string) returns (random: seq<byte>)
    requires Digits(s) && |s| == 20
    ensures Seeded(s, random)
  {
    random := seq(20, k requires 0 <= k < 20 => DigitValue(s[k]));
  }

  lemma NinesGrow(max: string)
    requires AllNines(max)
    ensures AllNines(max + Repeat('9', ID_LENGTH))
  {
  }

  // ---- Calls of the generator ----

  /** The thread's two strings. */
  datatype Gen = Gen(id: string, max: string)

  const START := Gen("", "")

  predicate Sound(g: Gen) {
    Digits(g.id) && AllNines(g.max)
  }

  predicate Reseeds(g: Gen) {
    g.id == "" || g.id == g.max
  }

  /** One call with the bytes read from the random device: the state it leaves and the id it returns. */
  ghost predicate Generates(g: Gen, random: seq<byte>, g': Gen, out: string) {
    if !Reseeds(g) then g'.id == out && Advanced(g.id, out) && g'.max == g.max
    else if |random| != ID_LENGTH then out == "" && g' == g
    else g'.id == out && Seeded(out, random) && g'.max == g.max + Repeat('9', ID_LENGTH)
  }

  lemma GeneratesSound(g: Gen, random: seq<byte>, g': Gen, out: string)
    requires Sound(g) && Generates(g, random, g', out)
    ensures Sound(g') && Digits(out)
    ensures |g.max| <= |g'.max|
  {
    if !Reseeds(g) {
      if !AllNines(g.id) {
        AdvancedIncrements(g.id, out);
      }
    } else if |random| == ID_LENGTH {
      SeededDigits(out, random);
      NinesGrow(g.max);
    }
  }

  /** A call returns the id before it in exactly two cases: it reseeds and draws the same digits, or it
      counts from all nines while the maximum is a longer string of nines. */
  lemma RepeatsIff(g: Gen, random: seq<byte>, g': Gen, out: string)
    requires Sound(g) && Generates(g, random, g', out) && g.id != ""
    ensures out == g.id <==> if Reseeds(g) then Seeded(g.id, random) else AllNines(g.id)
  {
    if !Reseeds(g) && !AllNines(g.id) {
      AdvancedIncrements(g.id, out);
    }
  }

  /** Calls one after the other: gs[k] is the state before call k, outs[k] what it returns. */
  ghost predicate Calls(gs: seq<Gen>, randoms: seq<seq<byte>>, outs: seq<string>) {
    && |gs| == |randoms| + 1 == |outs| + 1
    && Sound(gs[0])
    && forall k :: 0 <= k < |outs| ==> Generates(gs[k], randoms[k], gs[k + 1], outs[k])
  }

  lemma {:induction false} CallsSound(gs: seq<Gen>, randoms: seq<seq<byte>>, outs: seq<string>, k: nat)
    requires Calls(gs, randoms, outs) && k < |gs|
    ensures Sound(gs[k])
  {
    hide Generates, Sound;
    if k > 0 {
      CallsSound(gs, randoms, outs, k - 1);
      GeneratesSound(gs[k - 1], randoms[k - 1], gs[k], outs[k - 1]);
    }
  }

  /** The calls after i up to j all count: each follows a returned id that is not all nines. */
  ghost predicate Counting(outs: seq<string>, i: nat, j: nat) {
    i <= j < |outs| && outs[i] != "" && forall k :: i <= k < j ==> !AllNines(outs[k])
  }

  /** Away from all nines every call raises the number by one and the string in lexicographic order. */
  lemma AdvancedIncrements(s: string, t: string)
    requires Digits(s) && Advanced(s, t) && !AllNines(s)
    ensures |t| == |s| && Digits(t) && Value(t) == Value(s) + 1 && LexLess(s, t)
  {
    var i :| Carried(s, t, i);
    CarriedValue(s, t, i);
    CarriedLex(s, t, i);
  }

  lemma {:induction false} ValueBound(s: string)
    requires Digits(s)
    ensures Value(s) < Pow10(|s|)
    ensures Value(s) == Pow10(|s|) - 1 <==> AllNines(s)
  {
    if s != [] {
      var s' := s[..|s| - 1];
      ValueBound(s');
      assert s == s' + [s[|s| - 1]];
    }
  }

  lemma StateAfter(gs: seq<Gen>, randoms: seq<seq<byte>>, outs: seq<string>, k: nat)
    requires Calls(gs, randoms, outs) && k < |outs| && outs[k] != ""
    ensures gs[k + 1].id == outs[k]
  {
    assert Generates(gs[k], randoms[k], gs[k + 1], outs[k]);
  }

  /** Over every run of calls, ids that are not all nines are counted up from: each is one more than the one
      before, of the same length, and larger as a string. */
  lemma {:induction false} CallsCount(gs: seq<Gen>, randoms: seq<seq<byte>>, outs: seq<string>, i: nat, j: nat)
    requires Calls(gs, randoms, outs) && Counting(outs, i, j)
    ensures Digits(outs[i]) && Digits(outs[j]) && |outs[j]| == |outs[i]|
    ensures Value(outs[j]) == Value(outs[i]) + (j - i)
    ensures i < j ==> LexLess(outs[i], outs[j])
  {
    hide Value, LexLess, Advanced;
    CallsSound(gs, randoms, outs, j + 1);
    StateAfter(gs, randoms, outs, i);
    CallsSound(gs, randoms, outs, i + 1);
    if i < j {
      CallsCount(gs, randoms, outs, i, j - 1);
      StateAfter(gs, randoms, outs, j - 1);
      var before := gs[j];
      CallsSound(gs, randoms, outs, j);
      assert Generates(before, randoms[j], gs[j + 1], outs[j]);
      assert before.id == outs[j - 1] && !AllNines(before.id);
      AdvancedIncrements(before.id, outs[j]);
      if i < j - 1 {
        LexTransitive(outs[i], outs[j - 1], outs[j]);
      }
    }
  }

  /** So until all nines are returned the ids are all different and increase. */
  lemma CallsIncrease(gs: seq<Gen>, randoms: seq<seq<byte>>, outs: seq<string>, i: nat, j: nat)
    requires Calls(gs, randoms, outs) && Counting(outs, i, j) && i < j
    ensures Digits(outs[i]) && Digits(outs[j]) && Value(outs[i]) < Value(outs[j])
    ensures LexLess(outs[i], outs[j]) && outs[i] != outs[j]
  {
    CallsCount(gs, randoms, outs, i, j);
    LexIrreflexive(outs[i]);
  }

  /** An id of value v is followed by all nines exactly 10^length - 1 - v calls later. */
  lemma CallsUntilNines(gs: seq<Gen>, randoms: seq<seq<byte>>, outs: seq<string>, i: nat, j: nat)
    requires Calls(gs, randoms, outs) && Counting(outs, i, j)
    ensures Digits(outs[i]) && Value(outs[i]) + (j - i) < Pow10(|outs[i]|)
    ensures AllNines(outs[j]) <==> Value(outs[i]) + (j - i) == Pow10(|outs[i]|) - 1
  {
    CallsCount(gs, randoms, outs, i, j);
    ValueBound(outs[j]);
  }

  // ---- The generator that has stopped generating ----

  /** All nines, with a longer maximum: neither branch changes the id any more. */
  predicate Stuck(g: Gen) {
    g.id != "" && AllNines(g.id) && AllNines(g.max) && |g.id| < |g.max|
  }

  /** Once stuck, every later call returns the same id, whatever the random device gives. */
  lemma {:induction false} StuckForever(gs: seq<Gen>, randoms: seq<seq<byte>>, outs: seq<string>, i: nat, k: nat)
    requires Calls(gs, randoms, outs) && i <= k < |outs| && Stuck(gs[i])
    ensures gs[k] == gs[i] && outs[k] == gs[i].id
  {
    if i < k {
      StuckForever(gs, randoms, outs, i, k - 1);
      assert Generates(gs[k - 1], randoms[k - 1], gs[k], outs[k - 1]);
    }
    assert Generates(gs[k], randoms[k], gs[k + 1], outs[k]);
  }

  /** The first seed cannot get stuck: its maximum is no longer than its ids. The second seed always does:
      when an id is all nines and the maximum was lengthened before, the generator is stuck. */
  lemma StuckAtNines(g: Gen)
    requires Sound(g) && g.id != "" && |g.id| <= |g.max|
    ensures Stuck(g) <==> AllNines(g.id) && g.id != g.max
  {
    assert AllNines(g.id) && |g.id| == |g.max| ==> g.id == g.max;
  }

  /** The stuck state is reached from a fresh generator, for instance by two draws of nines. */
  lemma StuckReachable() returns (gs: seq<Gen>, randoms: seq<seq<byte>>, outs: seq<string>)
    ensures Calls(gs, randoms, outs) && gs[0] == START && Stuck(gs[|gs| - 1])
  {
    var r: seq<nat> := seq(ID_LENGTH, _ => 9);
    var nines := Repeat('9', ID_LENGTH);
    var g1, g2 := Gen(nines, nines), Gen(nines, nines + nines);
    assert START.max + nines == nines;
    assert Seeded(nines, r);
    assert Generates(START, r, g1, nines);
    assert Generates(g1, r, g2, nines);
    gs, randoms, outs := [START, g1, g2], [r, r], [nines, nines];
  }

  /** It is not only reached by unlucky draws: every run that reseeds a second time and then counts long
      enough ends stuck. */
  lemma SecondSeedSticks(gs: seq<Gen>, randoms: seq<seq<byte>>, outs: seq<string>, i: nat, j: nat)
    requires Calls(gs, randoms, outs) && Counting(outs, i, j)
    requires |outs[i]| < |gs[i + 1].max| && Digits(outs[i])
    requires Value(outs[i]) + (j - i) == Pow10(|outs[i]|) - 1
    ensures Stuck(gs[j + 1])
  {
    CallsUntilNines(gs, randoms, outs, i, j);
    CallsCount(gs, randoms, outs, i, j);
    CallsSound(gs, randoms, outs, j + 1);
    MaxGrows(gs, randoms, outs, i + 1, j + 1);
    assert Generates(gs[j], randoms[j], gs[j + 1], outs[j]);
  }

  lemma {:induction false} MaxGrows(gs: seq<Gen>, randoms: seq<seq<byte>>, outs: seq<string>, i: nat, k: nat)
    requires Calls(gs, randoms, outs) && i <= k < |gs|
    ensures |gs[i].max| <= |gs[k].max|
  {
    hide Generates, Sound;
    if i < k {
      MaxGrows(gs, randoms, outs, i, k - 1);
      CallsSound(gs, randoms, outs, k - 1);
      GeneratesSound(gs[k - 1], randoms[k - 1], gs[k], outs[k - 1]);
    }
  }
}

/** Generated ids as the identifiers of messages. */
module MsgIdFrames {
  import opened Bytes
  import opened MsgIds
  import opened TinyPBFrame
  import opened TinyPBDecoder
  import opened TinyPBLaws

  function IdBytes(id: string): (bs: seq<byte>)
    requires Digits(id)
    ensures |bs| == |id| && forall i :: 0 <= i < |id| ==> bs[i] == id[i] as int
  {
    seq(|id|, i requires 0 <= i < |id| => id[i] as int)
  }

  /** Every id a fresh generator ever returns is empty, after a failed reading, or has twenty digits. */
  lemma {:induction false} IdsOfTwenty(gs: seq<Gen>, randoms: seq<seq<byte>>, outs: seq<string>, k: nat)
    requires Calls(gs, randoms, outs) && gs[0] == START && k < |outs|
    ensures Digits(outs[k]) && (outs[k] == "" || |outs[k]| == 20)
    ensures gs[k + 1].id == "" || |gs[k + 1].id| == 20
  {
    CallsSound(gs, randoms, outs, k);
    GeneratesSound(gs[k], randoms[k], gs[k + 1], outs[k]);
    if k > 0 {
      IdsOfTwenty(gs, randoms, outs, k - 1);
    }
    if !Reseeds(gs[k]) && !AllNines(gs[k].id) {
      AdvancedIncrements(gs[k].id, outs[k]);
    }
  }

  /** Such an id survives the wire: a message that carries it is decoded as itself when its method name and
      error text fit. */
  lemma GeneratedIdRoundTrip(id: string, m: Message)
    requires Digits(id) && |id| == 20 && m.msgId == IdBytes(id) && Encodable(m)
    requires |m.methodName| < 512 && 0 !in m.methodName && |m.errorMsg| < 512 && 0 !in m.errorMsg
    ensures DecodeStream(Frame(m)) == Messages([Sealed(m)]) && Sealed(m).msgId == IdBytes(id)
  {
    hide DecodeStream, Frame;
    assert 0 !in m.msgId;
    FrameRoundTripIff(m);
  }
}
