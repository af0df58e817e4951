/** The carry-preserving scroll-step extraction of `pointing_device_task_user`
    in SCROLLING: a signed `int16_t` counter absorbs one axis of motion, and
    whole thresholds are taken out of it while its magnitude is strictly
    greater than the threshold; what is left is carried to the next tick. */
module Scroll {
  import opened Ints

  /** The signed amount the extraction loop takes out of a counter `c`:
      one threshold per pass while `my_abs` of the counter is strictly
      greater than the threshold, subtracted from a positive counter and
      added to a negative one (counted negative). A counter equal to the
      threshold is kept, and so is -32768, whose `my_abs` wraps. */
  function Taken(c: int16, th: int): int
    requires 1 <= th
    decreases if c < 0 then -(c as int) else c as int
  {
    if MyAbs(c) <= th then 0
    else if c > 0 then th + Taken(c - th, th)
    else -th + Taken(c + th, th)
  }

  /** A counter at most one threshold from zero gives nothing up; one past
      it keeps between one unit and one threshold on its own side of zero. */
  lemma {:induction false} TakenBounds(c: int16, th: int)
    requires 1 <= th
    ensures MyAbs(c) <= th ==> Taken(c, th) == 0
    ensures MyAbs(c) > th && c > 0 ==> 0 < c - Taken(c, th) <= th
    ensures MyAbs(c) > th && c < 0 ==> -th <= c - Taken(c, th) < 0
    decreases if c < 0 then -(c as int) else c as int
  {
    if MyAbs(c) > th {
      if c > 0 {
        TakenBounds((c - th) as int16, th);
      } else {
        TakenBounds((c + th) as int16, th);
      }
    }
  }

  /** What the loop leaves in the counter, carried to the next tick. */
  function Rest(c: int16, th: int): int16
    requires 1 <= th
  {
    TakenBounds(c, th);
    c - Taken(c, th)
  }

  /** The carried counter lies within one threshold of zero, on the side
      the counter was on, unless the counter was -32768, which the loop
      does not touch. */
  lemma RestBounds(c: int16, th: int)
    requires 1 <= th
    ensures c != -0x8000 ==> -th <= Rest(c, th) <= th
    ensures c > th ==> 0 < Rest(c, th)
    ensures c < -th && c != -0x8000 ==> Rest(c, th) < 0
  {
    TakenBounds(c, th);
  }

  /** The number of passes of the loop, signed as Taken is. */
  function Steps(c: int16, th: int): int
    requires 1 <= th
    decreases if c < 0 then -(c as int) else c as int
  {
    if MyAbs(c) <= th then 0
    else if c > 0 then 1 + Steps(c - th, th)
    else Steps(c + th, th) - 1
  }

  /** Every pass takes exactly one threshold. */
  lemma {:induction false} TakenIsSteps(c: int16, th: int)
    requires 1 <= th
    ensures Taken(c, th) == Steps(c, th) * th
    decreases if c < 0 then -(c as int) else c as int
  {
    if MyAbs(c) <= th {
    } else if c > 0 {
      TakenIsSteps(c - th, th);
      MulStep(Steps(c - th, th), th);
    } else {
      TakenIsSteps(c + th, th);
      MulStep(Steps(c + th, th) - 1, th);
    }
  }

  /** The loop's step count in closed form: for a counter past the
      threshold it is the C quotient (|c| - 1) / th, with the counter's sign,
      so the remainder lies in [1, th] on the counter's side of zero. */
  lemma StepsClosedForm(c: int16, th: int)
    requires 1 <= th && c != -0x8000
    ensures c > th ==> Steps(c, th) == (c - 1) / th
    ensures c < -th ==> Steps(c, th) == -((-c - 1) / th)
    ensures -th <= c <= th ==> Steps(c, th) == 0
  {
    TakenIsSteps(c, th);
    TakenBounds(c, th);
    var k := Steps(c, th);
    if c > th {
      DivModUnique(c - 1, th, k, c - Taken(c, th) - 1);
    } else if c < -th {
      DivModUnique(-c - 1, th, -k, Taken(c, th) - c - 1);
    }
  }

  /** The extraction loop of keymap.c, on one axis: `counter` is the axis's
      counter after the tick's motion was added, `th` the step threshold;
      returns the counter that is carried over and `rep`, the `int8_t` that
      accumulated minus one threshold per pass (and so wraps once the
      amount taken passes 127). */
  method ExtractSteps(counter: int16, th: int16) returns (c: int16, rep: int8)
    requires 1 <= th
    ensures c == Rest(counter, th)
    ensures rep == Wrap8(-Taken(counter, th))
  {
    c, rep := counter, 0;
    while MyAbs(c) > th
      invariant Extracting(counter, th, c, rep)
      decreases if c < 0 then -(c as int) else c as int
    {
      ExtractingPass(counter, th, c, rep);
      if c < 0 {
        c := c + th;
        rep := Wrap8(rep + th);
      } else {
        c := c - th;
        rep := Wrap8(rep - th);
      }
    }
  }

  /** The loop's invariant: what the counter has given up so far plus
      what is still to be taken from it is what is taken from the original
      counter, and the accumulator holds that amount, negated and wrapped to
      `int8_t`. */
  predicate Extracting(counter: int16, th: int, c: int16, rep: int8)
    requires 1 <= th
  {
    counter - c + Taken(c, th) == Taken(counter, th) && rep == Wrap8(c - counter)
  }

  /** One pass of the loop keeps the invariant. */
  lemma ExtractingPass(counter: int16, th: int, c: int16, rep: int8)
    requires 1 <= th && MyAbs(c) > th && Extracting(counter, th, c, rep)
    ensures c < 0 ==> -0x8000 <= c + th < 0x8000 && Extracting(counter, th, (c + th) as int16, Wrap8(rep + th))
    ensures c >= 0 ==> -0x8000 <= c - th < 0x8000 && Extracting(counter, th, (c - th) as int16, Wrap8(rep - th))
  {
    OnePass(c, th);
    AccumulatorStep(counter, c, rep, th);
  }

  /** One pass of the loop takes one threshold off a counter past it, on
      the counter's side of zero, without leaving the `int16_t` range. */
  lemma OnePass(c: int16, th: int)
    requires 1 <= th && MyAbs(c) > th
    ensures c < 0 ==> -0x8000 <= c + th < 0x8000 && Taken(c, th) == -th + Taken((c + th) as int16, th)
    ensures c >= 0 ==> -0x8000 <= c - th < 0x8000 && Taken(c, th) == th + Taken((c - th) as int16, th)
  {
  }

  /** One pass on the `int8_t` accumulator keeps it equal to the wrapped
      amount the counter has moved. */
  lemma AccumulatorStep(counter: int, c: int, rep: int8, th: int)
    requires rep == Wrap8(c - counter)
    ensures Wrap8(rep + th) == Wrap8(c + th - counter)
    ensures Wrap8(rep - th) == Wrap8(c - th - counter)
  {
    Wrap8Add(c - counter, th);
    Wrap8Add(c - counter, -th);
  }

  /** What one tick reports: while the amount taken fits the `int8_t`
      accumulator, dividing it by the threshold (C division, as the
      conversion to `h` and `v` does) gives back the signed number of steps,
      which then fits an `int8_t` too. */
  lemma StepsReported(c: int16, th: int)
    requires 1 <= th
    requires -0x7f <= Taken(c, th) <= 0x7f
    ensures -0x7f <= Steps(c, th) <= 0x7f
    ensures CDiv(Wrap8(-Taken(c, th)), th) == -Steps(c, th)
    ensures CDiv(-(Wrap8(-Taken(c, th)) as int), th) == Steps(c, th)
  {
    TakenIsSteps(c, th);
    StepsFit(c, th);
    AccumulatorHoldsTaken(c, th);
    CDivExactNeg(Steps(c, th), th);
    CDivExact(Steps(c, th), th);
  }

  lemma StepsFit(c: int16, th: int)
    requires 1 <= th
    requires -0x7f <= Steps(c, th) * th <= 0x7f
    ensures -0x7f <= Steps(c, th) <= 0x7f
  {
    CDivExact(Steps(c, th), th);
  }

  lemma AccumulatorHoldsTaken(c: int16, th: int)
    requires 1 <= th
    requires -0x7f <= Steps(c, th) * th <= 0x7f
    ensures Wrap8(-Taken(c, th)) == -(Steps(c, th) * th)
  {
    TakenIsSteps(c, th);
  }

  /** A counter carried within one threshold plus one report's `int8_t`
      delta yields at most 127 steps up and 128 down in a tick. */
  lemma StepsOfCarried(c: int16, th: int)
    requires 1 <= th && c != -0x8000 && -th - 0x80 <= c <= th + 0x7f
    ensures -0x80 <= Steps(c, th) <= 0x7f
  {
    var k := Steps(c, th);
    TakenIsSteps(c, th);
    TakenBounds(c, th);
    if k > 0x7f {
      MulStep(k - 1, th);
      MulAtLeast(th, k - 1);
    }
    if k < -0x80 {
      MulNegLeft(k, th);
      MulStep(-k - 1, th);
      MulAtLeast(th, -k - 1);
    }
  }

  /** Total of a sequence of per-tick deltas. */
  function Sum(ds: seq<int>): int
  {
    if ds == [] then 0 else ds[0] + Sum(ds[1..])
  }

  /** One counter fed `ds` tick by tick: the counter left at the end and
      the total signed number of steps emitted. */
  function Run(c: int16, ds: seq<int8>, th: int): (int16, int)
    requires 1 <= th
    decreases |ds|
  {
    if ds == [] then (c, 0)
    else
      var c0 := Wrap16(c + ds[0]);
      var r := Run(Rest(c0, th), ds[1..], th);
      (r.0, Steps(c0, th) + r.1)
  }

  lemma MulAdd(a: int, b: int, th: int)
    ensures a * th + b * th == (a + b) * th
  {
  }

  /** Nothing is lost: as long as the counter cannot wrap (a threshold at
      most 32767 - 128), the motion fed in equals the steps emitted times
      the threshold plus the carried counter at the end, and the counter
      stays within one threshold of zero. */
  lemma {:induction false} RunConserves(c: int16, ds: seq<int8>, th: int)
    requires 1 <= th <= 0x7fff - 0x80 && -th <= c <= th
    ensures c + Sum(ds) == Run(c, ds, th).0 + Run(c, ds, th).1 * th
    ensures -th <= Run(c, ds, th).0 <= th
    decreases |ds|
  {
    if ds != [] {
      var c0 := Wrap16(c + ds[0]);
      assert c0 == c + ds[0];
      var r := Run(Rest(c0, th), ds[1..], th);
      RestBounds(c0, th);
      RunConserves(Rest(c0, th), ds[1..], th);
      assert Rest(c0, th) + Sum(ds[1..]) == r.0 + r.1 * th;
      TakenIsSteps(c0, th);
      MulAdd(Steps(c0, th), r.1, th);
      assert Run(c, ds, th) == (r.0, Steps(c0, th) + r.1);
    }
  }

  /** `n` ticks of the same delta (or of the same report). */
  function Repeat<T>(d: T, n: nat): (ds: seq<T>)
    ensures |ds| == n && forall i :: 0 <= i < n ==> ds[i] == d
  {
    if n == 0 then [] else [d] + Repeat(d, n - 1)
  }

  /** A steady stream of +1 never leaves the counter empty or past the
      threshold: once anything was fed, the carried counter lies in
      [1, th]. With RunConserves this makes the steps emitted after `n`
      ticks the quotient (c + n - 1) / th: a step is emitted on the tick that
      takes the counter past the threshold, not on the tick that reaches
      it. */
  lemma {:induction false} SteadyStream(c: int16, n: nat, th: int)
    requires 1 <= th <= 0x7fff - 0x80 && 0 <= c <= th && c + n >= 1
    ensures 1 <= Run(c, Repeat<int8>(1, n), th).0 <= th
    decreases n
  {
    if n > 0 {
      var c0 := Wrap16(c + 1);
      assert c0 == c + 1;
      assert Repeat<int8>(1, n)[1..] == Repeat<int8>(1, n - 1);
      RestBounds(c0, th);
      SteadyStream(Rest(c0, th), n - 1, th);
    }
  }

  /** For any threshold that cannot wrap, `th` ticks of +1 from an empty
      counter emit no step and leave exactly `th` in the counter; tick
      th + 1 emits the first step and leaves 1. */
  lemma FirstStep(th: int)
    requires 1 <= th <= 0x7fff - 0x80
    ensures Run(0, Repeat<int8>(1, th), th) == (th as int16, 0)
    ensures Run(0, Repeat<int8>(1, th + 1), th) == (1, 1)
  {
    var r := Run(0, Repeat<int8>(1, th), th);
    SteadyStream(0, th, th);
    RunConserves(0, Repeat<int8>(1, th), th);
    RepeatSum(1, th);
    assert th == r.0 + r.1 * th;
    OnlyMultipleBelow(r.1, th, th - r.0);
    var r' := Run(0, Repeat<int8>(1, th + 1), th);
    SteadyStream(0, th + 1, th);
    RunConserves(0, Repeat<int8>(1, th + 1), th);
    RepeatSum(1, th + 1);
    assert th + 1 == r'.0 + r'.1 * th;
    MulStep(r'.1 - 1, th);
    OnlyMultipleBelow(r'.1 - 1, th, 1 - r'.0);
  }

  /** A multiple of `th` strictly between -th and th is zero. */
  lemma OnlyMultipleBelow(k: int, th: int, m: int)
    requires 1 <= th && m == k * th && -th < m < th
    ensures k == 0
  {
    if k >= 1 {
      MulAtLeast(k, th);
    } else if k <= -1 {
      MulAtLeast(-k, th);
    }
  }

  lemma {:induction false} RepeatSum(d: int8, n: nat)
    ensures Sum(Repeat(d, n)) == n * d
  {
    if n > 0 {
      assert Repeat(d, n)[1..] == Repeat(d, n - 1);
      RepeatSum(d, n - 1);
    }
  }
}
