/**
 * A load source: a consumer (positive load) or a producer (negative load) whose output
 * is recomputed from its base load and variability on every read. The random draw
 * the simulator takes on each read is a parameter here.
 */
module Sources {
  import opened Common

  const Producer: string := "PRODUCER"
  const Consumer: string := "CONSUMER"

  datatype LoadSource = LoadSource(sourceId: string, kind: string, baseLoad: real, variabilityFactor: real)

  /** A uniform draw from [0, 1), as Math.random() returns. */
  predicate IsDraw(r: real)
  {
    0.0 <= r < 1.0
  }

  /** The constructor: the variability factor is clamped to [0, 1]; nothing else is changed. */
  function NewLoadSource(sourceId: string, kind: string, baseLoad: real, variability: real): (s: LoadSource)
    ensures s.sourceId == sourceId && s.kind == kind && s.baseLoad == baseLoad
    ensures 0.0 <= s.variabilityFactor <= 1.0
    ensures 0.0 <= variability <= 1.0 ==> s.variabilityFactor == variability
    ensures variability < 0.0 ==> s.variabilityFactor == 0.0
    ensures variability > 1.0 ==> s.variabilityFactor == 1.0
  {
    LoadSource(sourceId, kind, baseLoad, Min(1.0, Max(0.0, variability)))
  }

  /** The relative fluctuation (r - 0.5) * 2 * v of one read. */
  function Variation(v: real, r: real): (x: real)
    requires 0.0 <= v && IsDraw(r)
    ensures -v <= x <= v
    ensures v > 0.0 ==> x < v
    ensures v == 0.0 ==> x == 0.0
  {
    var x := Spread(r) * v;
    ScaleBounds(Spread(r), v, x);
    x
  }

  /** The draw moved from [0, 1) to [-1, 1). */
  function Spread(r: real): (d: real)
    requires IsDraw(r)
    ensures -1.0 <= d < 1.0
  {
    (r - 0.5) * 2.0
  }

  /** Scaling a factor in [-1, 1) by a non-negative v lands in [-v, v], strictly below v when v > 0. */
  lemma ScaleBounds(d: real, v: real, x: real)
    requires -1.0 <= d < 1.0 && v >= 0.0 && x == d * v
    ensures -v <= x <= v
    ensures v > 0.0 ==> x < v
    ensures v == 0.0 ==> x == 0.0
  {
    MulNonNeg(d + 1.0, v);
    assert (d + 1.0) * v == d * v + v;
    MulNonNeg(1.0 - d, v);
    assert (1.0 - d) * v == v - d * v;
    if v > 0.0 {
      MulPos(1.0 - d, v);
    }
  }

  /** One read of the source's output with the draw r: negative for producers, positive otherwise. */
  function CurrentLoad(s: LoadSource, r: real): (out: real)
    requires 0.0 <= s.variabilityFactor && IsDraw(r)
    ensures s.kind == Producer ==> out <= 0.0
    ensures s.kind != Producer ==> out >= 0.0
    ensures Abs(out) == Abs(s.baseLoad * (1.0 + Variation(s.variabilityFactor, r)))
  {
    var load := s.baseLoad * (1.0 + Variation(s.variabilityFactor, r));
    if s.kind == Producer then -Abs(load) else Abs(load)
  }

  /** With no variability the output is exactly plus or minus the base load, whatever the draw. */
  lemma ZeroVariabilityIsExact(s: LoadSource, r: real)
    requires s.variabilityFactor == 0.0 && IsDraw(r)
    ensures CurrentLoad(s, r) == if s.kind == Producer then -Abs(s.baseLoad) else Abs(s.baseLoad)
  {
    assert Variation(0.0, r) == 0.0;
    assert s.baseLoad * (1.0 + 0.0) == s.baseLoad;
  }

  /** For a non-negative base load the magnitude lies within base * (1 -/+ v). */
  lemma MagnitudeWithinVariability(s: LoadSource, r: real)
    requires 0.0 <= s.variabilityFactor <= 1.0 && IsDraw(r) && s.baseLoad >= 0.0
    ensures s.baseLoad * (1.0 - s.variabilityFactor) <= Abs(CurrentLoad(s, r))
    ensures Abs(CurrentLoad(s, r)) <= s.baseLoad * (1.0 + s.variabilityFactor)
  {
    var v, b := s.variabilityFactor, s.baseLoad;
    var f := 1.0 + Variation(v, r);
    var lo, mid, hi := b * (1.0 - v), b * f, b * (1.0 + v);
    MulMonotone(b, 1.0 - v, f, lo, mid);
    MulMonotone(b, f, 1.0 + v, mid, hi);
    MulNonNeg(b, 1.0 - v);
    assert Abs(mid) == mid;
  }
}
