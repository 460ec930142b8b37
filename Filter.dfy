/** vFilterTask: a moving average over the last N samples, N chosen over the UART. */
module Filter {
  import opened Common

  function Sum(s: seq<nat>): nat
  {
    if s == [] then 0 else s[0] + Sum(s[1..])
  }

  function Reverse(s: seq<nat>): (r: seq<nat>)
    ensures |r| == |s|
  {
    if s == [] then [] else Reverse(s[1..]) + [s[0]]
  }

  /** The history after one step with window n: the new sample at index 0, the first
      n - 1 old entries one place further on, the entries from n onwards untouched. */
  function Shift(h: seq<nat>, n: WindowSize, x: nat): (r: seq<nat>)
    requires |h| == MaxWindow
    ensures |r| == MaxWindow
    ensures r[0] == x
    ensures forall i :: 1 <= i < n ==> r[i] == h[i - 1]
    ensures forall i :: n <= i < MaxWindow ==> r[i] == h[i]
  {
    [x] + h[..n - 1] + h[n..]
  }

  /** The value the task sends on: the sum of the first n entries, accumulated in a
      32-bit unsigned variable, divided by n with truncation. */
  function Average(h: seq<nat>, n: WindowSize): (avg: nat)
    requires n <= |h|
    ensures avg * n <= Sum(h[..n]) % U32 < avg * n + n
  {
    (Sum(h[..n]) % U32) / n
  }

  /** The history after feeding the samples xs in order with a fixed window. */
  function Feed(h: seq<nat>, n: WindowSize, xs: seq<nat>): (r: seq<nat>)
    requires |h| == MaxWindow
    ensures |r| == MaxWindow
    decreases |xs|
  {
    if xs == [] then h else Feed(Shift(h, n, xs[0]), n, xs[1..])
  }

  lemma {:induction false} SumAppend(s: seq<nat>, x: nat)
    ensures Sum(s + [x]) == Sum(s) + x
  {
    if s != [] {
      assert (s + [x])[1..] == s[1..] + [x];
      SumAppend(s[1..], x);
    }
  }

  lemma {:induction false} SumReverse(s: seq<nat>)
    ensures Sum(Reverse(s)) == Sum(s)
  {
    if s != [] {
      SumReverse(s[1..]);
      SumAppend(Reverse(s[1..]), s[0]);
    }
  }

  lemma {:induction false} ReverseAppend(a: seq<nat>, b: seq<nat>)
    ensures Reverse(a + b) == Reverse(b) + Reverse(a)
  {
    if a == [] {
      assert a + b == b;
    } else {
      assert (a + b)[1..] == a[1..] + b;
      ReverseAppend(a[1..], b);
    }
  }

  /** Sums of entries that are all at most m are at most m times the count. */
  lemma {:induction false} SumBound(s: seq<nat>, m: nat)
    requires forall i :: 0 <= i < |s| ==> s[i] <= m
    ensures Sum(s) <= m * |s|
  {
    if s != [] {
      SumBound(s[1..], m);
    }
  }

  lemma AddMod(a: nat, x: nat)
    ensures (a % U32 + x) % U32 == (a + x) % U32
  {
    var q := a / U32;
    assert a == q * U32 + a % U32;
    assert a + x == (a % U32 + x) + q * U32;
  }

  /** With samples of at most 127 the 32-bit sum cannot wrap, the result is the true
      truncated mean, and it is again at most 127. */
  lemma AverageOfBoundedSamples(h: seq<nat>, n: WindowSize)
    requires n <= |h|
    requires forall i :: 0 <= i < n ==> h[i] <= 127
    ensures Sum(h[..n]) < U32
    ensures Average(h, n) == Sum(h[..n]) / n
    ensures Average(h, n) <= 127
  {
    SumBound(h[..n], 127);
  }

  /** One filter step keeps the output within the sensor's range. */
  lemma StepOutputBounded(h: seq<nat>, n: WindowSize, x: nat)
    requires |h| == MaxWindow
    requires forall i :: 0 <= i < MaxWindow ==> h[i] <= 127
    requires x <= 127
    ensures forall i :: 0 <= i < MaxWindow ==> Shift(h, n, x)[i] <= 127
    ensures Average(Shift(h, n, x), n) <= 127
  {
    var r := Shift(h, n, x);
    assert forall i :: 0 <= i < MaxWindow ==> r[i] <= 127 by {
      forall i | 0 <= i < MaxWindow ensures r[i] <= 127 {
        if i == 0 {
        } else if i < n {
          assert r[i] == h[i - 1];
        } else {
          assert r[i] == h[i];
        }
      }
    }
    AverageOfBoundedSamples(r, n);
  }

  /** After feeding xs, the window holds the newest samples first, followed by the
      older window. */
  lemma {:induction false} FeedWindow(h: seq<nat>, n: WindowSize, xs: seq<nat>)
    requires |h| == MaxWindow
    ensures Feed(h, n, xs)[..n] == (Reverse(xs) + h[..n])[..n]
    decreases |xs|
  {
    if xs != [] {
      var h1 := Shift(h, n, xs[0]);
      FeedWindow(h1, n, xs[1..]);
      assert h1[..n] == ([xs[0]] + h[..n])[..n];
      calc {
        Feed(h, n, xs)[..n];
        (Reverse(xs[1..]) + h1[..n])[..n];
        (Reverse(xs[1..]) + ([xs[0]] + h[..n])[..n])[..n];
        (Reverse(xs[1..]) + [xs[0]] + h[..n])[..n];
        (Reverse(xs) + h[..n])[..n];
      }
    }
  }

  /** Once at least n samples have been fed with window n, the window is exactly the
      last n samples, newest first. */
  lemma LatestWindow(h: seq<nat>, n: WindowSize, xs: seq<nat>)
    requires |h| == MaxWindow && |xs| >= n
    ensures Feed(h, n, xs)[..n] == Reverse(xs[|xs| - n..])
  {
    var m := |xs| - n;
    FeedWindow(h, n, xs);
    assert xs == xs[..m] + xs[m..];
    ReverseAppend(xs[..m], xs[m..]);
    assert Reverse(xs) + h[..n] == Reverse(xs[m..]) + (Reverse(xs[..m]) + h[..n]);
  }

  /** After n samples with window n, the output is the truncated mean of the last n
      samples (taken modulo 2^32 as the 32-bit accumulator does). */
  lemma WindowAverage(h: seq<nat>, n: WindowSize, xs: seq<nat>)
    requires |h| == MaxWindow && |xs| >= n
    ensures Average(Feed(h, n, xs), n) == (Sum(xs[|xs| - n..]) % U32) / n
  {
    LatestWindow(h, n, xs);
    SumReverse(xs[|xs| - n..]);
  }

  /** Samples 10, 20, 30 with N = 3 average to 20, whatever the history held before. */
  lemma ReferenceScenario(h: seq<nat>)
    requires |h| == MaxWindow
    ensures Average(Feed(h, 3, [10, 20, 30]), 3) == 20
  {
    var xs: seq<nat> := [10, 20, 30];
    WindowAverage(h, 3, xs);
    assert xs[|xs| - 3..] == xs;
    assert Sum(xs) == 60 by {
      assert Sum(xs[1..][1..]) == 30 by {
        assert xs[1..][1..][1..] == [];
      }
    }
    assert (60 % U32) / 3 == 20;
  }

  /** The task's state: array, aux and the window size N. */
  class FilterTask {
    var history: array<nat>  // the source's array[MAX_VALUE_N], newest sample first
    var aux: array<nat>      // the scratch copy aux[MAX_VALUE_N]
    var n: WindowSize        // the global N

    ghost predicate Valid()
      reads this, history
    {
      history.Length == MaxWindow && aux.Length == MaxWindow && history != aux &&
      forall i :: 0 <= i < MaxWindow ==> history[i] < U32
    }

    constructor ()
      ensures Valid() && fresh(history) && fresh(aux) && n == 1
      ensures history[..] == seq(MaxWindow, _ => 0) && aux[..] == seq(MaxWindow, _ => 0)
    {
      history := new nat[MaxWindow](_ => 0);
      aux := new nat[MaxWindow](_ => 0);
      n := 1;
    }

    /** One iteration of the task's loop after a sample has been received: take a
        window size if one is pending, shift the sample in, return the average. */
    method Step(sample: nat, polled: Option<WindowSize>) returns (avg: nat)
      requires Valid() && sample < U32
      modifies this, history, aux
      ensures Valid() && history == old(history) && aux == old(aux)
      ensures n == if polled.Some? then polled.value else old(n)
      ensures history[..] == Shift(old(history[..]), n, sample)
      ensures aux[..n] == old(history[..])[..n] && aux[n..] == old(aux[..])[n..]
      ensures avg == Average(history[..], n)
    {
      if polled.Some? {
        n := polled.value;
      }
      CopyPrefix(history, aux, n);
      assert aux[..n] == old(history[..])[..n];
      ShiftIn(history, aux, n, sample);
      var total := WindowSum(history, n);
      QuotientNat(total, n);
      avg := total / n;
    }
  }

  /** The first loop of the step: aux[i] = array[i] for i < N. */
  method CopyPrefix(src: array<nat>, dst: array<nat>, n: WindowSize)
    requires src.Length == MaxWindow && dst.Length == MaxWindow && src != dst
    modifies dst
    ensures dst[..n] == src[..n] && dst[n..] == old(dst[n..])
  {
    for i := 0 to n
      invariant forall k :: 0 <= k < i ==> dst[k] == src[k]
      invariant forall k :: i <= k < MaxWindow ==> dst[k] == old(dst[k])
    {
      dst[i] := src[i];
    }
  }

  /** The second loop and the store of the new sample: array[i + 1] = aux[i] for
      i < N - 1, then array[0] = the sample. */
  method ShiftIn(window: array<nat>, scratch: array<nat>, n: WindowSize, sample: nat)
    requires window.Length == MaxWindow && scratch.Length == MaxWindow && window != scratch
    requires scratch[..n] == window[..n]
    modifies window
    ensures window[..] == Shift(old(window[..]), n, sample)
  {
    for i := 0 to n - 1
      invariant forall k :: 1 <= k <= i ==> window[k] == scratch[k - 1]
      invariant forall k :: i < k < MaxWindow ==> window[k] == old(window[k])
      invariant window[0] == old(window[0])
    {
      window[i + 1] := scratch[i];
    }
    window[0] := sample;
  }

  /** The third loop: the sum of array[0..N) in a 32-bit unsigned accumulator. */
  method WindowSum(window: array<nat>, n: WindowSize) returns (acc: nat)
    requires window.Length == MaxWindow
    ensures acc == Sum(window[..n]) % U32
  {
    acc := 0;
    for i := 0 to n
      invariant acc == Sum(window[..i]) % U32
    {
      SumSplit(window[..i + 1]);
      assert window[..i + 1][..i] == window[..i];
      AddMod(Sum(window[..i]), window[i]);
      acc := (acc + window[i]) % U32;
    }
  }

  lemma QuotientNat(a: nat, n: WindowSize)
    ensures 0 <= a / n <= a
  {
  }

  lemma SumSplit(s: seq<nat>)
    requires s != []
    ensures Sum(s) == Sum(s[..|s| - 1]) + s[|s| - 1]
  {
    assert s == s[..|s| - 1] + [s[|s| - 1]];
    SumAppend(s[..|s| - 1], s[|s| - 1]);
  }
}
