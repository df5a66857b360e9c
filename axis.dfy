/**
 * Axis arithmetic of the scatter plot in assignment2/script.js: the linear
 * map from a data domain to a pixel length, the padding step, and the
 * loop that lays out tick values symmetrically around zero.
 */
module Axis {

  /** The padding divides each domain into this many steps. */
  const Steps: int := 8

  /** `normalize(v, lo, hi, scale)`: the linear map taking `[lo, hi]` onto `[0, scale]`. */
  function Normalize(v: real, lo: real, hi: real, scale: real): real
    requires lo != hi
  {
    ((v - lo) / (hi - lo)) * scale
  }

  /** The inverse map, from a pixel offset back to a domain value. */
  function Denormalize(p: real, lo: real, hi: real, scale: real): real
    requires scale != 0.0
  {
    lo + (p / scale) * (hi - lo)
  }

  /** The domain's ends go to the ends of the pixel range. */
  lemma NormalizeEnds(lo: real, hi: real, scale: real)
    requires lo != hi
    ensures Normalize(lo, lo, hi, scale) == 0.0
    ensures Normalize(hi, lo, hi, scale) == scale
  {
  }

  /** A larger value never lands to the left of a smaller one. */
  lemma NormalizeMonotone(u: real, v: real, lo: real, hi: real, scale: real)
    requires lo < hi && 0.0 <= scale && u <= v
    ensures Normalize(u, lo, hi, scale) <= Normalize(v, lo, hi, scale)
  {
    var a, b := (u - lo) / (hi - lo), (v - lo) / (hi - lo);
    assert a <= b;
    assert a * scale <= b * scale;
  }

  /** With a positive scale a strictly larger value lands strictly further right. */
  lemma NormalizeStrict(u: real, v: real, lo: real, hi: real, scale: real)
    requires lo < hi && 0.0 < scale && u < v
    ensures Normalize(u, lo, hi, scale) < Normalize(v, lo, hi, scale)
  {
    var a, b := (u - lo) / (hi - lo), (v - lo) / (hi - lo);
    assert a < b;
    assert a * scale < b * scale;
  }

  /** A value inside the domain lands inside the pixel range. */
  lemma NormalizeWithin(v: real, lo: real, hi: real, scale: real)
    requires lo < hi && 0.0 <= scale && lo <= v <= hi
    ensures 0.0 <= Normalize(v, lo, hi, scale) <= scale
  {
    NormalizeMonotone(lo, v, lo, hi, scale);
    NormalizeMonotone(v, hi, lo, hi, scale);
    NormalizeEnds(lo, hi, scale);
  }

  /** Mapping a value to pixels and back gives the value. */
  lemma NormalizeRoundTrip(v: real, lo: real, hi: real, scale: real)
    requires lo != hi && scale != 0.0
    ensures Denormalize(Normalize(v, lo, hi, scale), lo, hi, scale) == v
  {
    var a := (v - lo) / (hi - lo);
    assert (a * scale) / scale == a;
    assert a * (hi - lo) == v - lo;
  }

  // ---------------------------------------------------------------------
  // Padding step
  // ---------------------------------------------------------------------

  /**
   * `Math.floor((hi - lo) / steps)`, as the source computes the padding and
   * tick step: the number of whole eighths of the span.
   */
  function PadStep(lo: real, hi: real): (step: int)
    ensures lo <= hi ==> 0 <= step
    ensures (Steps * step) as real <= hi - lo < (Steps * (step + 1)) as real
  {
    ((hi - lo) / Steps as real).Floor
  }

  /**
   * The step with the evidently intended guarantee that it is positive:
   * the source's step when that is at least 1, and 1 otherwise.
   */
  function TickStep(lo: real, hi: real): (step: int)
    ensures step >= 1
    ensures PadStep(lo, hi) >= 1 ==> step == PadStep(lo, hi)
    ensures lo <= hi ==> (Steps * (step - 1)) as real <= hi - lo
  {
    var s := PadStep(lo, hi);
    if s >= 1 then s else 1
  }

  /** Any span of at least eight whole units keeps the source's step unchanged. */
  lemma TickStepAgrees(lo: real, hi: real)
    requires hi - lo >= Steps as real
    ensures TickStep(lo, hi) == PadStep(lo, hi) >= 1
  {
  }

  // ---------------------------------------------------------------------
  // Tick generation
  // ---------------------------------------------------------------------

  /** The loop guard at `index`: the positive or the negative candidate is in bounds. */
  predicate Guard(step: int, lo: real, hi: real, index: nat)
  {
    (index * step) as real <= hi || (-(index * step)) as real >= lo
  }

  /**
   * The tick values emitted in the round with the given index: the
   * positive candidate when it is at most `hi`, then the negative one when
   * it is at least `lo`.
   */
  function TicksAt(step: int, lo: real, hi: real, index: nat): (ts: seq<int>)
    ensures |ts| <= 2
    ensures (index * step) as real <= hi ==> index * step in ts
    ensures (-(index * step)) as real >= lo ==> -(index * step) in ts
    ensures forall v :: v in ts ==>
      (v == index * step && v as real <= hi) || (v == -(index * step) && lo <= v as real)
  {
    var v := index * step;
    (if v as real <= hi then [v] else []) + (if (-v) as real >= lo then [-v] else [])
  }

  /** The tick values emitted by rounds `0, 1, ..., n - 1`, in order: at most two per round. */
  function Emitted(step: int, lo: real, hi: real, n: nat): (ts: seq<int>)
    ensures |ts| <= 2 * n
  {
    if n == 0 then [] else Emitted(step, lo, hi, n - 1) + TicksAt(step, lo, hi, n - 1)
  }

  /** A value that is a tick on the positive or the negative side. */
  predicate IsTick(step: int, lo: real, hi: real, v: int)
    requires step > 0
  {
    v % step == 0 && ((0 <= v && v as real <= hi) || (v <= 0 && lo <= v as real))
  }

  /** Multiples of a positive step leave no remainder. */
  lemma MultipleMod(k: int, step: int)
    requires step > 0
    ensures (k * step) % step == 0
  {
    var q, r := (k * step) / step, (k * step) % step;
    assert k * step == q * step + r;
    assert (k - q) * step == r;
    if k - q >= 1 {
      assert false;
    } else if k - q <= -1 {
      assert false;
    }
  }

  /** A value with no remainder is its quotient times the step. */
  lemma ModZeroMultiple(v: int, step: int)
    requires step > 0 && v % step == 0
    ensures (v / step) * step == v
  {
  }

  /** Once the guard fails it fails for every later index. */
  lemma GuardStaysFalse(step: int, lo: real, hi: real, n: nat, k: nat)
    requires step > 0 && n <= k && !Guard(step, lo, hi, n)
    ensures !Guard(step, lo, hi, k)
  {
    assert n * step <= k * step;
  }

  lemma {:induction false} TicksAtIn(step: int, lo: real, hi: real, n: nat, k: nat, v: int)
    requires k < n && v in TicksAt(step, lo, hi, k)
    ensures v in Emitted(step, lo, hi, n)
    decreases n
  {
    if k < n - 1 {
      TicksAtIn(step, lo, hi, n - 1, k, v);
    }
  }

  lemma {:induction false} EmittedAreTicks(step: int, lo: real, hi: real, n: nat, v: int)
    requires step > 0 && v in Emitted(step, lo, hi, n)
    ensures IsTick(step, lo, hi, v)
    decreases n
  {
    var prev := Emitted(step, lo, hi, n - 1);
    if v in prev {
      EmittedAreTicks(step, lo, hi, n - 1, v);
    } else {
      var k := n - 1;
      assert v == k * step || v == -(k * step);
      MultipleMod(k, step);
      MultipleMod(-k, step);
      assert -(k * step) == (-k) * step;
    }
  }

  /**
   * After the loop stops at round `n`, the emitted values are exactly the
   * multiples of the step that lie in `[0, hi]` or in `[lo, 0]`.
   */
  lemma EmittedExactly(step: int, lo: real, hi: real, n: nat)
    requires step > 0 && !Guard(step, lo, hi, n)
    ensures forall v :: v in Emitted(step, lo, hi, n) <==> IsTick(step, lo, hi, v)
  {
    forall v | IsTick(step, lo, hi, v) ensures v in Emitted(step, lo, hi, n) {
      var m: nat := if v >= 0 then v / step else -(v / step);
      ModZeroMultiple(v, step);
      assert m * step == (if v >= 0 then v else -v);
      if m >= n {
        GuardStaysFalse(step, lo, hi, n, m);
      }
      TicksAtIn(step, lo, hi, n, m, v);
    }
    forall v | v in Emitted(step, lo, hi, n) ensures IsTick(step, lo, hi, v) {
      EmittedAreTicks(step, lo, hi, n, v);
    }
  }

  /**
   * When the domain straddles zero the ticks are symmetric: a tick whose
   * mirror image is in bounds has its mirror image among the ticks too.
   */
  lemma TicksSymmetric(step: int, lo: real, hi: real, n: nat, v: int)
    requires step > 0 && !Guard(step, lo, hi, n) && lo <= 0.0 <= hi
    requires v in Emitted(step, lo, hi, n) && lo <= (-v) as real <= hi
    ensures -v in Emitted(step, lo, hi, n)
  {
    EmittedExactly(step, lo, hi, n);
    ModZeroMultiple(v, step);
    MultipleMod(-(v / step), step);
    assert -v == (-(v / step)) * step;
  }

  /**
   * With a step of 0 and a lower bound at most 0 the guard holds at every
   * index: the source's loop never ends.
   */
  lemma ZeroStepGuardHolds(lo: real, hi: real, index: nat)
    requires lo <= 0.0
    ensures Guard(0, lo, hi, index)
  {
  }

  /**
   * As written, a domain `[0, 5]` (a clamped minimum of 0 and a largest
   * value of 5) gets step 0, and its padded domain keeps the guard of the
   * tick loop true for every index.
   */
  lemma NarrowDomainNeverEnds(index: nat)
    ensures PadStep(0.0, 5.0) == 0
    ensures Guard(PadStep(0.0, 5.0), 0.0 - PadStep(0.0, 5.0) as real, 5.0 + PadStep(0.0, 5.0) as real, index)
  {
    ZeroStepGuardHolds(0.0, 5.0, index);
  }

  /** While the guard holds the index stays within the larger bound's magnitude. */
  lemma GuardBounded(step: int, lo: real, hi: real, index: nat)
    requires step > 0 && Guard(step, lo, hi, index)
    ensures index <= (if hi > -lo then hi else -lo).Floor
  {
    assert index <= index * step;
  }

  /**
   * The tick loop for one axis: index runs 0, 1, 2, ... while the guard
   * holds, emitting `index * step` if it is at most `hi` and
   * `-index * step` if it is at least `lo`.
   */
  method AxisTicks(step: int, lo: real, hi: real) returns (ticks: seq<int>, rounds: nat)
    requires step > 0
    ensures ticks == Emitted(step, lo, hi, rounds)
    ensures forall k :: 0 <= k < rounds ==> Guard(step, lo, hi, k)
    ensures !Guard(step, lo, hi, rounds)
    ensures forall v :: v in ticks <==> IsTick(step, lo, hi, v)
  {
    ghost var bound := (if hi > -lo then hi else -lo).Floor;
    var index: nat := 0;
    ticks := [];
    while Guard(step, lo, hi, index)
      invariant ticks == Emitted(step, lo, hi, index)
      invariant forall k :: 0 <= k < index ==> Guard(step, lo, hi, k)
      decreases bound + 1 - index
    {
      GuardBounded(step, lo, hi, index);
      var valX := index * step;
      ghost var before := ticks;
      if valX as real <= hi {
        ticks := ticks + [valX];
      }
      if (-valX) as real >= lo {
        ticks := ticks + [-valX];
      }
      assert ticks == before + TicksAt(step, lo, hi, index);
      index := index + 1;
    }
    rounds := index;
    EmittedExactly(step, lo, hi, rounds);
  }
}
