/** Facts of real arithmetic the interpolation and frame computations rest
    on, each stated on its own so the solver sees nothing else. */
module Arith {

  /** A part smaller than the whole is a fraction in [0, 1). */
  lemma FractionBelowOne(part: real, whole: real)
    requires 0.0 <= part < whole
    ensures 0.0 <= part / whole < 1.0
    ensures (part / whole) * whole == part
  {
  }

  /** Scaling by a fraction in [0, 1] keeps a difference between zero and
      itself. */
  lemma ScaleWithin(d: real, ratio: real)
    requires 0.0 <= ratio <= 1.0
    ensures 0.0 <= d ==> 0.0 <= d * ratio <= d
    ensures d <= 0.0 ==> d <= d * ratio <= 0.0
  {
  }

  /** A difference scaled by a ratio, then by a span, is the difference
      scaled by the part the ratio stands for. */
  lemma ScaleLine(d: real, ratio: real, span: real, part: real)
    requires ratio * span == part
    ensures (d * ratio) * span == d * part
  {
  }

  /** Dividing by the frame rate and scaling to milliseconds is undone by
      scaling back to seconds and multiplying by the frame rate. */
  lemma PerFrameRoundTrip(frame: real, fps: real)
    requires fps != 0.0
    ensures (frame / fps * 1000.0) * fps == frame * 1000.0
    ensures (frame / fps * 1000.0) / 1000.0 * fps == frame
  {
  }
}
