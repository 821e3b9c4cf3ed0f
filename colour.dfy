/** The colour an edge is drawn in, as a function of its connection weight
    (`ModelDiagram.getWeightColour`). Channels are reals because the
    interpolated channel is computed from the floating-point weight. */
module Colour {

  datatype Rgb = Rgb(r: real, g: real, b: real)

  /** The dim end of the ramp. */
  const Low: real := 42.0
  /** The bright end of the ramp. */
  const High: real := 210.0

  /** Background colour of the window; also the node fill colour. */
  const DarkMode: Rgb := Rgb(29.0, 29.0, 29.0)
  /** Default outline colour of a node. */
  const White: Rgb := Rgb(255.0, 255.0, 255.0)

  predicate InRamp(v: real) {
    Low <= v <= High
  }

  /** The two-sided clamp applied to the interpolated channel: above High
      becomes High, below Low becomes Low, anything else is kept. */
  function Clamp(v: real): (c: real)
    ensures InRamp(c)
    ensures InRamp(v) ==> c == v
    ensures v > High ==> c == High
    ensures v < Low ==> c == Low
  {
    if v > High then High else if v < Low then Low else v
  }

  /** Non-negative weights fade from grey-white towards blue; negative
      weights use the red side, with the source's own interpolation
      `42 + 168 * w`, which lies below 42 for every negative `w`. */
  function WeightColour(w: real): (c: Rgb)
    ensures InRamp(c.r) && InRamp(c.g) && InRamp(c.b)
    ensures w >= 0.0 ==> c.b == High && c.r == c.g
    ensures w < 0.0 ==> c.r == High && c.g == c.b
  {
    if w >= 0.0 then
      var interpolation := Clamp(High + (Low - High) * w);
      Rgb(interpolation, interpolation, High)
    else
      var interpolation := Clamp(Low + (High - Low) * w);
      Rgb(High, interpolation, interpolation)
  }

  /** The two ends of the positive ramp: zero is white-grey and one is blue. */
  lemma WeightColourEnds()
    ensures WeightColour(0.0) == Rgb(High, High, High)
    ensures WeightColour(1.0) == Rgb(Low, Low, High)
  {
  }

  /** Between 0 and 1 the red and green channels follow the straight line
      from 210 down to 42 exactly. */
  lemma WeightColourInterpolates(w: real)
    requires 0.0 <= w <= 1.0
    ensures WeightColour(w) == Rgb(High - 168.0 * w, High - 168.0 * w, High)
  {
  }

  /** A larger non-negative weight is never lighter: red and green are
      non-increasing in the weight. */
  lemma WeightColourMonotone(v: real, w: real)
    requires 0.0 <= v <= w
    ensures WeightColour(w).r <= WeightColour(v).r
    ensures WeightColour(w).g <= WeightColour(v).g
  {
  }

  /** Every weight above 1 is clamped to the colour of 1. */
  lemma WeightColourSaturatesAbove(w: real)
    requires w >= 1.0
    ensures WeightColour(w) == WeightColour(1.0)
  {
  }

  /** As written, the negative branch never interpolates: every negative
      weight, -0.5 and -1 and anything below -1 included, gets the same
      saturated red. */
  lemma NegativeWeightsSaturate(w: real)
    requires w < 0.0
    ensures WeightColour(w) == Rgb(High, Low, Low)
  {
  }

  /** A weight outside [-1, 1] gets the colour of the nearer end of that
      interval. */
  lemma WeightColourClampsRange(w: real)
    ensures w > 1.0 ==> WeightColour(w) == WeightColour(1.0)
    ensures w < -1.0 ==> WeightColour(w) == WeightColour(-1.0)
  {
  }

  /** The colour determines the sign of the weight: blue at full strength
      with red below it means non-negative; red at full strength with blue
      below it means negative. Only zero's colour has all three channels at
      full strength. */
  lemma WeightColourSign(w: real)
    ensures WeightColour(w).r < High ==> w > 0.0
    ensures WeightColour(w).b < High ==> w < 0.0
    ensures WeightColour(w) == Rgb(High, High, High) <==> w == 0.0
  {
  }
}
