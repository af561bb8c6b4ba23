/** When the parser's outer loop ends, on any bytes. */
module TinyPBLoop {
  import opened Bytes
  import opened TinyPBFrame
  import opened TinyPBDecoder

  /** The accepted window's fields are read or copied out of bounds. */
  predicate Overruns(s: seq<byte>, start: nat, end: nat) {
    start <= end < |s| && ParseWindow(s, start, end - start + 1) == Undefined
  }

  /** The outer loop's state: about to scan from an index, returned, or undefined because the scan or the
      fields of a window went out of bounds. */
  datatype Loop = At(next: nat) | Returned | Broken

  function Round(s: seq<byte>, l: Loop): Loop {
    match l
    case At(next) =>
      (match FindWindow(s, next)
       case NoWindow => Returned
       case OutOfRange => Broken
       case Window(start, end) => if Overruns(s, start, end) then Broken else At(end + 1))
    case _ => l
  }

  function After(s: seq<byte>, rounds: nat): Loop {
    if rounds == 0 then At(0) else Round(s, After(s, rounds - 1))
  }

  /** A round from index p that accepts a window ending before its start but not before p: the next round
      begins between the two and finds the same window. */
  predicate Trapped(s: seq<byte>, p: nat) {
    var w := FindWindow(s, p);
    w.Window? && p <= w.end + 1 <= w.start
  }

  /** How the loop's rounds from index p turn out, read off the bytes in one forward pass. Bad stands for a
      length field that is cut off or out of int range, for a window with overrunning fields, and for one
      that ends before p, which sends the loop back behind windows already taken. */
  datatype Outlook = Ends | Spins | Bad

  function Ahead(s: seq<byte>, p: nat): Outlook
    decreases |s| - p
  {
    match FindWindow(s, p)
    case NoWindow => Ends
    case OutOfRange => Bad
    case Window(start, end) =>
      FoundInside(s, p);
      if Overruns(s, start, end) then Bad
      else if start <= end then Ahead(s, end + 1)
      else if Trapped(s, p) then Spins else Bad
  }

  /** A trapped loop finds the same window in every later round and never returns. */
  lemma {:induction false} TrappedNeverReturns(s: seq<byte>, n: nat, more: nat)
    requires After(s, n).At? && Trapped(s, After(s, n).next)
    ensures After(s, n + more).At? && Trapped(s, After(s, n + more).next)
    ensures FindWindow(s, After(s, n + more).next) == FindWindow(s, After(s, n).next)
  {
    hide FindWindow;
    if more > 0 {
      TrappedNeverReturns(s, n, more - 1);
      FoundInside(s, After(s, n + more - 1).next);
    }
  }

  /** Following the pass: it comes to the round that returns, or to one that is trapped. */
  lemma {:induction false} AheadTells(s: seq<byte>, p: nat, n: nat) returns (k: nat)
    requires After(s, n) == At(p) && Ahead(s, p) != Bad
    ensures Ahead(s, p) == Ends ==> After(s, k) == Returned
    ensures Ahead(s, p) == Spins ==> After(s, k).At? && Trapped(s, After(s, k).next)
    decreases |s| - p
  {
    hide FindWindow, ParseWindow;
    var w := FindWindow(s, p);
    k := n;
    if w.Window? {
      FoundInside(s, p);
      if w.start <= w.end {
        assert After(s, n + 1) == At(w.end + 1);
        k := AheadTells(s, w.end + 1, n + 1);
      }
    } else {
      k := n + 1;
      assert After(s, k) == Returned;
    }
  }

  /** The outer loop returns exactly when the forward pass over the bytes ends without being trapped. */
  lemma LoopReturnsIff(s: seq<byte>)
    requires Ahead(s, 0) != Bad
    ensures (exists n :: After(s, n) == Returned) <==> Ahead(s, 0) == Ends
  {
    hide FindWindow, Ahead, Trapped;
    var k := AheadTells(s, 0, 0);
    if Ahead(s, 0) == Spins {
      forall n: nat
        ensures After(s, n) != Returned
      {
        if n >= k {
          TrappedNeverReturns(s, k, n - k);
        } else if After(s, n) == Returned {
          StaysReturned(s, n, k);
        }
      }
    }
  }

  /** Bad inputs included: if the loop returns at all, it does so within as many rounds as there are bytes
      and one, because a later round would start where an earlier one did. */
  lemma LoopReturnsSoonIff(s: seq<byte>)
    ensures (exists n :: After(s, n) == Returned) <==> After(s, |s| + 1) == Returned
  {
    var m := |s| + 1;
    if n: nat :| After(s, n) == Returned && After(s, m) != Returned {
      if n <= m {
        StaysReturned(s, n, m);
      } else {
        var i, j := Recurs(s, n);
        Cycles(s, i, j, n);
      }
    }
  }

  lemma {:induction false} NextInside(s: seq<byte>, n: nat)
    requires After(s, n).At?
    ensures After(s, n).next <= |s| && forall k: nat :: k <= n ==> After(s, k).At?
  {
    if n > 0 {
      NextInside(s, n - 1);
      FoundInside(s, After(s, n - 1).next);
    }
  }

  /** Rounds that are still running after more rounds than there are indices have met one of them twice. */
  lemma Recurs(s: seq<byte>, n: nat) returns (i: nat, j: nat)
    requires |s| + 1 < n && After(s, |s| + 1) != Returned && After(s, n) == Returned
    ensures i < j <= |s| + 1 && After(s, i).At? && After(s, j) == After(s, i)
  {
    var m := |s| + 1;
    StaysBroken(s, m, n);
    var nexts: seq<nat> := [];
    for k := 0 to m + 1
      invariant |nexts| == k
      invariant forall q :: 0 <= q < k ==> After(s, q) == At(nexts[q]) && nexts[q] <= |s|
    {
      NextInside(s, m);
      NextInside(s, k);
      nexts := nexts + [After(s, k).next];
    }
    i, j := Pigeonhole(nexts, |s|);
  }

  lemma {:induction false} StaysBroken(s: seq<byte>, n: nat, k: nat)
    requires n <= k && After(s, k) == Returned
    ensures After(s, n) != Broken
    decreases k - n
  {
    if n < k {
      StaysBroken(s, n + 1, k);
    }
  }

  /** Among more numbers than there are values up to max, two are equal. */
  lemma {:induction false} Pigeonhole(xs: seq<nat>, max: nat) returns (i: nat, j: nat)
    requires |xs| > max + 1 && forall k :: 0 <= k < |xs| ==> xs[k] <= max
    ensures i < j < |xs| && xs[i] == xs[j]
    decreases max
  {
    var last := |xs| - 1;
    if k :| 0 <= k < last && xs[k] == xs[last] {
      i, j := k, last;
    } else {
      assert xs[0] != xs[last] && 0 < max;
      // values above the last one move down by one, which leaves the last value's place free
      var ys: seq<nat> := seq(last, k requires 0 <= k < last => if xs[k] > xs[last] then xs[k] - 1 else xs[k]);
      i, j := Pigeonhole(ys, max - 1);
    }
  }

  lemma {:induction false} Cycles(s: seq<byte>, i: nat, j: nat, n: nat)
    requires i < j && After(s, i).At? && After(s, j) == After(s, i) && i <= n
    ensures After(s, n) != Returned
    decreases n
  {
    hide Round;
    if n >= j {
      SameRounds(s, i, j, n - j);
      Cycles(s, i, j, n - (j - i));
    } else if After(s, n) == Returned {
      StaysReturned(s, n, j);
    }
  }

  lemma {:induction false} SameRounds(s: seq<byte>, i: nat, j: nat, more: nat)
    requires After(s, j) == After(s, i)
    ensures After(s, j + more) == After(s, i + more)
  {
    hide Round;
    if more > 0 {
      SameRounds(s, i, j, more - 1);
    }
  }

  lemma {:induction false} StaysReturned(s: seq<byte>, n: nat, k: nat)
    requires n <= k && After(s, n) == Returned
    ensures After(s, k) == Returned
  {
    if n < k {
      StaysReturned(s, n, k - 1);
    }
  }

  /** An end byte, a start byte and four zero bytes at the head of the input make the loop spin forever. */
  lemma SpinningInput(s: seq<byte>, n: nat)
    requires 6 <= |s| && s[0] == PB_END && s[1] == PB_START && IntAt(s, 2) == 0
    ensures Ahead(s, 0) == Spins && After(s, n).At?
  {
    hide IntAt, ParseWindow;
    assert FindWindow(s, 1) == Window(1, 0);
    assert FindWindow(s, 0) == Window(1, 0);
    TrappedNeverReturns(s, 0, n);
  }

  /** The bytes the parser can decode, frames with any payload among them, are those with a good outlook. */
  lemma {:induction false} DecodesIff(s: seq<byte>, p: nat)
    ensures DecodeFrom(s, p).Messages? <==> Ahead(s, p) == Ends
    decreases |s| - p
  {
    hide FindWindow, ParseWindow, Trapped;
    var w := FindWindow(s, p);
    if w.Window? {
      FoundInside(s, p);
      if w.start <= w.end {
        DecodesIff(s, w.end + 1);
      }
    }
  }

  /** On every input the parser can decode, the loop returns. */
  lemma DecodedReturns(s: seq<byte>) returns (n: nat)
    requires DecodeStream(s).Messages?
    ensures After(s, n) == Returned
  {
    hide Ahead, DecodeFrom;
    DecodesIff(s, 0);
    n := AheadTells(s, 0, 0);
  }
}
