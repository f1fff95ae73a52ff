/** `calculateDimensions`: rendered reel geometry from an image's natural size.

    The uploaded image is a strip of three reels side by side, each reel
    `TotalFrames` symbols tall. Each reel column is rendered
    `RenderedReelWidth` pixels wide, so the rendered height of one symbol
    follows from the aspect ratio of one symbol in the image. */
module Geometry {
  import opened Cyclic

  /** Whole frames shown between the masks. */
  const VisibleFrames: nat := 3
  /** Frames on one reel strip. */
  const TotalFrames: nat := 21
  /** Reel columns side by side in the image. */
  const ReelCount: nat := 3
  /** Rendered width of one reel column, in pixels. */
  const RenderedReelWidth: real := 100.0

  /** Rendered reel geometry, in pixels. */
  datatype Dimensions = Dimensions(viewportHeight: real, totalHeight: real, frameHeight: real)

  /** The geometry in force before any image has been measured. */
  const InitialDimensions: Dimensions := Dimensions(300.0, 2100.0, 100.0)

  /** A positive frame height and a strip exactly `TotalFrames` frames tall:
      what every geometry the editor holds satisfies. */
  predicate Consistent(d: Dimensions)
  {
    d.frameHeight > 0.0 && d.totalHeight == TotalFrames as real * d.frameHeight
  }

  /** A geometry measured from an image: consistent, and a viewport of the
      visible frames plus half a frame of padding above and below. */
  predicate Derived(d: Dimensions)
  {
    Consistent(d) && d.viewportHeight == (VisibleFrames + 1) as real * d.frameHeight
  }

  /** The top of frame `n`, `n` frames of height `frameHeight` down the strip. */
  function FrameTop(n: nat, frameHeight: real): real
  {
    if n == 0 then 0.0 else FrameTop(n - 1, frameHeight) + frameHeight
  }

  /** `n` frames are `n` times one frame. */
  lemma {:induction false} FrameTopIsProduct(n: nat, frameHeight: real)
    ensures FrameTop(n, frameHeight) == n as real * frameHeight
  {
    if n > 0 {
      FrameTopIsProduct(n - 1, frameHeight);
      var before: nat := n - 1;
      assert before as real * frameHeight + frameHeight == n as real * frameHeight;
    }
  }

  /** Frame tops add up: `a` frames and then `b` more are `a + b` frames. */
  lemma {:induction false} FrameTopAdd(a: nat, b: nat, frameHeight: real)
    ensures FrameTop(a, frameHeight) + FrameTop(b, frameHeight) == FrameTop(a + b, frameHeight)
  {
    if b > 0 {
      FrameTopAdd(a, b - 1, frameHeight);
    }
  }

  /** With a positive frame height, frame `a` ends at or above the top of
      any later frame `b`. */
  lemma {:induction false} FrameTopBelow(a: nat, b: nat, frameHeight: real)
    requires frameHeight > 0.0 && a < b
    ensures 0.0 <= FrameTop(a, frameHeight)
    ensures FrameTop(a, frameHeight) + frameHeight <= FrameTop(b, frameHeight)
  {
    if a + 1 < b {
      FrameTopBelow(a, b - 1, frameHeight);
    } else if a > 0 {
      FrameTopBelow(a - 1, a, frameHeight);
    }
  }

  /** Row `s` of frame `n` lies in frame `n`. */
  lemma FrameOfOffset(n: nat, s: real, frameHeight: real)
    requires frameHeight > 0.0 && 0.0 <= s < frameHeight
    ensures ((FrameTop(n, frameHeight) + s) / frameHeight).Floor == n
  {
    FrameTopIsProduct(n, frameHeight);
    FloorOfFrame(n, s, frameHeight);
  }

  /** Every `x` in the first `count` frames is row `x - FrameTop(j)` of a
      frame `j` among them, `j` being the floor of `x / frameHeight`. */
  lemma FrameIndex(x: real, frameHeight: real, count: nat)
    requires frameHeight > 0.0 && 0.0 <= x < FrameTop(count, frameHeight)
    ensures var j := (x / frameHeight).Floor;
            0 <= j < count && 0.0 <= x - FrameTop(j, frameHeight) < frameHeight
  {
    var j := (x / frameHeight).Floor;
    FloorScaled(x, frameHeight);
    FrameTopIsProduct(count, frameHeight);
    IndexBounds(j, x, frameHeight, count);
    FrameTopIsProduct(j, frameHeight);
  }

  /** A consistent geometry's strip is the top of frame `TotalFrames`. */
  lemma WholeStrip(d: Dimensions)
    requires Consistent(d)
    ensures FrameTop(TotalFrames, d.frameHeight) == d.totalHeight
  {
    FrameTopIsProduct(TotalFrames, d.frameHeight);
  }

  /** The geometry of an image `naturalWidth` by `naturalHeight` pixels. The
      rendered strip is the image scaled by one factor in both directions:
      its `ReelCount` columns of `RenderedReelWidth` pixels relate to the
      natural width exactly as its total height relates to the natural height. */
  function CalculateDimensions(naturalWidth: nat, naturalHeight: nat): (d: Dimensions)
    requires naturalWidth > 0 && naturalHeight > 0
    ensures Derived(d)
    ensures d.totalHeight * naturalWidth as real == ReelCount as real * RenderedReelWidth * naturalHeight as real
  {
    var singleReelWidth := naturalWidth as real / 3.0;
    var singleFrameHeight := naturalHeight as real / TotalFrames as real;
    var aspectRatio := singleFrameHeight / singleReelWidth;
    var renderedFrameHeight := RenderedReelWidth * aspectRatio;
    Dimensions(renderedFrameHeight * (VisibleFrames + 1) as real,
               renderedFrameHeight * TotalFrames as real,
               renderedFrameHeight)
  }

  /** One rendered frame is `100 * H / (7 * W)` pixels: the natural frame
      height `H / 21` against the natural reel width `W / 3`, scaled to a
      column of 100 pixels. */
  lemma FrameHeightClosedForm(naturalWidth: nat, naturalHeight: nat)
    requires naturalWidth > 0 && naturalHeight > 0
    ensures CalculateDimensions(naturalWidth, naturalHeight).frameHeight
            == 100.0 * naturalHeight as real / (7.0 * naturalWidth as real)
  {
  }

  /** A 300 by 2100 image (three columns of 100 pixels, 21 frames of 100
      pixels) renders at its natural size. */
  lemma CalculateExample()
    ensures CalculateDimensions(300, 2100) == Dimensions(400.0, 2100.0, 100.0)
  {
  }

  /** The layout depends only on the image's proportions: the same strip at
      `k` times the resolution has the same rendered geometry. */
  lemma ResolutionIndependent(naturalWidth: nat, naturalHeight: nat, k: nat)
    requires naturalWidth > 0 && naturalHeight > 0 && k > 0
    ensures CalculateDimensions(k * naturalWidth, k * naturalHeight)
            == CalculateDimensions(naturalWidth, naturalHeight)
  {
  }

  /** The initial geometry has a whole reel of frames but a viewport one frame
      short of `Derived`: it holds only once an image has been measured. */
  lemma InitialNotDerived()
    ensures Consistent(InitialDimensions)
    ensures !Derived(InitialDimensions)
  {
  }
}
