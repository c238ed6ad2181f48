/** `autoscaleTextSize`: the font scale at which a caption fits the frame
    with 100 pixels of padding on either side. The text measurement
    `cv.getTextSize(text, font, fontScale, thickness)[0][0]` is the function
    `measure`, from whole-number scale to text width in pixels. */
module FontScale {

  const PaddingHorizontal := 100

  /** `imageWidth - paddingHorizontal * 2`. */
  function MaxTextWidth(imageWidth: int): int
  {
    imageWidth - PaddingHorizontal * 2
  }

  /** Wider text at larger scales, as text measurement behaves. */
  ghost predicate Monotone(measure: int -> int)
  {
    forall a, b :: 1 <= a <= b ==> measure(a) <= measure(b)
  }

  /** `autoscaleTextSize` as written: increase the scale from 1 until the text
      no longer fits, then step back one. */
  method AutoscaleTextSize(imageWidth: int, measure: int -> int) returns (scale: int)
    requires exists s :: 1 <= s && measure(s) >= MaxTextWidth(imageWidth)
    ensures 0 <= scale
    ensures measure(scale + 1) >= MaxTextWidth(imageWidth)
    ensures forall t :: 1 <= t <= scale ==> measure(t) < MaxTextWidth(imageWidth)
    ensures scale == 0 <==> measure(1) >= MaxTextWidth(imageWidth)
    // for a monotone measurement no larger scale fits either: the result is
    // the maximum scale the docstring promises (0 when none fits)
    ensures Monotone(measure) ==> forall t :: scale < t ==> measure(t) >= MaxTextWidth(imageWidth)
  {
    var maxTextWidth := MaxTextWidth(imageWidth);
    ghost var bound :| 1 <= bound && measure(bound) >= maxTextWidth;
    var fontScale := 1;
    var textWidth := measure(fontScale);

    while textWidth < maxTextWidth
      invariant 1 <= fontScale <= bound
      invariant textWidth == measure(fontScale)
      invariant forall t :: 1 <= t < fontScale ==> measure(t) < maxTextWidth
      decreases bound - fontScale
    {
      fontScale := fontScale + 1;
      textWidth := measure(fontScale);
    }

    return fontScale - 1;
  }

  /** The scale clamped to the baseline 1, so that text already too wide at
      scale 1 is still drawn at scale 1 instead of 0. */
  method AutoscaleTextSizeClamped(imageWidth: int, measure: int -> int) returns (scale: int)
    requires exists s :: 1 <= s && measure(s) >= MaxTextWidth(imageWidth)
    ensures 1 <= scale
    ensures measure(1) >= MaxTextWidth(imageWidth) ==> scale == 1
    ensures measure(1) < MaxTextWidth(imageWidth) ==>
      && measure(scale) < MaxTextWidth(imageWidth)
      && measure(scale + 1) >= MaxTextWidth(imageWidth)
      && forall t :: 1 <= t <= scale ==> measure(t) < MaxTextWidth(imageWidth)
    ensures Monotone(measure) && measure(1) < MaxTextWidth(imageWidth) ==>
      forall t :: scale < t ==> measure(t) >= MaxTextWidth(imageWidth)
  {
    scale := AutoscaleTextSize(imageWidth, measure);
    if scale == 0 {
      scale := 1;
    }
  }
}
