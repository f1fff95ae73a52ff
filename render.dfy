/** The per-column background and mask styles, and what they show.

    Each reel column is a viewport `RenderedReelWidth` pixels wide and
    `viewportHeight` tall that paints the whole strip image as a background
    tile three columns wide and `totalHeight` tall, repeated vertically.
    Two masks of half a frame hide the padding at the top and the bottom. */
module Render {
  import opened Cyclic
  import opened Geometry

  /** Width of the background tile, in percent of the viewport: all reels side by side. */
  const TileWidthPercent: nat := 300
  /** Step of the horizontal background origin from one column to the next, in percent. */
  const ColumnOriginStepPercent: nat := 50

  /** What the renderer is given for one column. */
  datatype PaintParams = PaintParams(
    viewportHeight: real,
    originXPercent: nat,
    originY: real,
    tileWidthPercent: nat,
    tileHeight: real,
    maskTop: real,
    maskBottom: real)

  /** The paint parameters of reel `column`, under geometry `d` and the
      current offsets. */
  function ColumnPaint(d: Dimensions, offsets: seq<real>, column: nat): (p: PaintParams)
    requires |offsets| == ReelCount && column < ReelCount
    ensures p.viewportHeight == d.viewportHeight
    ensures p.tileWidthPercent == TileWidthPercent && p.tileHeight == d.totalHeight
    ensures p.originXPercent == column * ColumnOriginStepPercent
    ensures p.maskTop == p.maskBottom && p.maskTop + p.maskBottom == d.frameHeight
    ensures p.maskTop - p.originY == offsets[column]
  {
    PaintParams(
      viewportHeight := d.viewportHeight,
      originXPercent := column * ColumnOriginStepPercent,
      originY := d.frameHeight * 0.5 - offsets[column],
      tileWidthPercent := TileWidthPercent,
      tileHeight := d.totalHeight,
      maskTop := d.frameHeight * 0.5,
      maskBottom := d.frameHeight * 0.5)
  }

  /** Where the tile's left edge falls, in pixels from the viewport's left
      edge. A percentage background position lines up that percentage of the
      tile with the same percentage of the viewport (CSS Backgrounds and
      Borders Module Level 3, section 3.6), so the edge sits at
      `(viewport width - tile width) * percent / 100`. */
  function TileLeft(p: PaintParams): real
  {
    var tileWidth := RenderedReelWidth * p.tileWidthPercent as real / 100.0;
    (RenderedReelWidth - tileWidth) * p.originXPercent as real / 100.0
  }

  /** The reel of the image (0 left, 1 centre, 2 right) under viewport column `x`. */
  function ReelUnder(p: PaintParams, x: real): int
  {
    ((x - TileLeft(p)) / RenderedReelWidth).Floor
  }

  /** The strip row, within one period of the vertical repetition, under
      viewport row `y`. */
  ghost function StripRow(p: PaintParams, y: real): real
    requires p.tileHeight > 0.0
  {
    Mod(y - p.originY, p.tileHeight)
  }

  /** Viewport row `y` lies between the two masks. */
  predicate Unmasked(p: PaintParams, y: real)
  {
    p.maskTop <= y < p.viewportHeight - p.maskBottom
  }

  /** Column `c` shows reel `c` of the image across its whole width: the left
      third for column 0, the centre third for column 1, the right third for
      column 2. */
  lemma ColumnShowsItsReel(d: Dimensions, offsets: seq<real>, column: nat, x: real)
    requires |offsets| == ReelCount && column < ReelCount
    requires 0.0 <= x < RenderedReelWidth
    ensures TileLeft(ColumnPaint(d, offsets, column)) == -(column as real * RenderedReelWidth)
    ensures ReelUnder(ColumnPaint(d, offsets, column), x) == column
  {
    FloorOfFrame(column, x, RenderedReelWidth);
  }

  /** Between the masks a measured geometry leaves exactly the visible frames. */
  lemma UnmaskedHeight(d: Dimensions, offsets: seq<real>, column: nat)
    requires Derived(d) && |offsets| == ReelCount && column < ReelCount
    ensures var p := ColumnPaint(d, offsets, column);
            p.viewportHeight - p.maskTop - p.maskBottom == VisibleFrames as real * d.frameHeight
  {
  }

  /** The vertical paint origin puts strip row `offset` under the top mask's
      lower edge, and the rows below it follow on round the strip: the
      window scrolls smoothly with the offset, at any sub-frame position. */
  lemma WindowFollowsOffset(d: Dimensions, offsets: seq<real>, column: nat, y: real)
    requires Consistent(d) && |offsets| == ReelCount && column < ReelCount
    ensures var p := ColumnPaint(d, offsets, column);
            StripRow(p, y) == Mod(offsets[column] + (y - p.maskTop), d.totalHeight)
  {
    var p := ColumnPaint(d, offsets, column);
    Congruent(y - p.originY, offsets[column] + (y - p.maskTop), d.totalHeight);
  }

  /** The frame of the strip under viewport row `y`: 0 for the strip's first
      `frameHeight` rows, and so on round to `TotalFrames - 1`. */
  ghost function FrameUnder(p: PaintParams, frameHeight: real, y: real): int
    requires p.tileHeight > 0.0 && frameHeight > 0.0
  {
    (StripRow(p, y) / frameHeight).Floor
  }

  /** Row `s` of frame `n` of the endlessly repeated strip is row `s` of
      frame `n % TotalFrames` of the image. */
  lemma RowRound(n: nat, s: real, d: Dimensions)
    requires Consistent(d)
    requires 0.0 <= s < d.frameHeight
    ensures Mod(FrameTop(n, d.frameHeight) + s, d.totalHeight)
            == FrameTop(n % TotalFrames, d.frameHeight) + s
  {
    var f, t := d.frameHeight, d.totalHeight;
    var m: nat := n % TotalFrames;
    WholeStrip(d);
    FrameTopBelow(m, TotalFrames, f);
    FrameTopTurns(n, d);
    ModUnique(FrameTop(n, f) + s, t, FrameTop(m, f) + s, n / TotalFrames);
  }

  /** Frame `n` of the repeated strip lies `n / TotalFrames` whole strips
      below frame `n % TotalFrames`. */
  lemma {:induction false} FrameTopTurns(n: nat, d: Dimensions)
    requires Consistent(d)
    ensures FrameTop(n, d.frameHeight)
            == FrameTop(n % TotalFrames, d.frameHeight) + (n / TotalFrames) as real * d.totalHeight
  {
    var f, t := d.frameHeight, d.totalHeight;
    if n >= TotalFrames {
      var before: nat := n - TotalFrames;
      var turns := n / TotalFrames;
      assert before % TotalFrames == n % TotalFrames && before / TotalFrames == turns - 1;
      FrameTopTurns(before, d);
      FrameTopAdd(before, TotalFrames, f);
      WholeStrip(d);
      OneMore(turns - 1, t);
    }
  }

  /** So that row lies in frame `n % TotalFrames`. */
  lemma FrameOfRow(n: nat, s: real, d: Dimensions)
    requires Consistent(d)
    requires 0.0 <= s < d.frameHeight
    ensures (Mod(FrameTop(n, d.frameHeight) + s, d.totalHeight) / d.frameHeight).Floor == n % TotalFrames
  {
    RowRound(n, s, d);
    FrameOfOffset(n % TotalFrames, s, d.frameHeight);
  }

  /** Row `y` of the window, `j` whole frames and `s` pixels below the top
      mask, of a reel settled on frame `k` is unmasked and shows frame
      `k + j`, counted round the strip. */
  lemma SettledRow(d: Dimensions, offsets: seq<real>, column: nat, k: nat, j: nat, s: real)
    requires Derived(d) && |offsets| == ReelCount && column < ReelCount
    requires k < TotalFrames && offsets[column] == FrameTop(k, d.frameHeight)
    requires j < VisibleFrames && 0.0 <= s < d.frameHeight
    ensures var p := ColumnPaint(d, offsets, column);
            var y := p.maskTop + FrameTop(j, d.frameHeight) + s;
            Unmasked(p, y) && FrameUnder(p, d.frameHeight, y) == (k + j) % TotalFrames
  {
    var p := ColumnPaint(d, offsets, column);
    var f, t := d.frameHeight, d.totalHeight;
    var y := p.maskTop + FrameTop(j, f) + s;
    var n: nat := k + j;
    SlotUnmasked(d, offsets, column, j, s);
    assert y - p.originY == FrameTop(n, f) + s by {
      FrameTopAdd(k, j, f);
    }
    Congruent(y - p.originY, FrameTop(n, f) + s, t);
    FrameOfRow(n, s, d);
    FrameOfStripRow(p, f, y, Mod(FrameTop(n, f) + s, t));
  }

  /** Every row of the `VisibleFrames` slots below the top mask is unmasked. */
  lemma SlotUnmasked(d: Dimensions, offsets: seq<real>, column: nat, j: nat, s: real)
    requires Derived(d) && |offsets| == ReelCount && column < ReelCount
    requires j < VisibleFrames && 0.0 <= s < d.frameHeight
    ensures var p := ColumnPaint(d, offsets, column);
            Unmasked(p, p.maskTop + FrameTop(j, d.frameHeight) + s)
  {
    FrameTopBelow(j, VisibleFrames, d.frameHeight);
    FrameTopIsProduct(VisibleFrames, d.frameHeight);
  }

  /** The frame under a row is the frame of the strip row it shows. */
  lemma FrameOfStripRow(p: PaintParams, frameHeight: real, y: real, row: real)
    requires p.tileHeight > 0.0 && frameHeight > 0.0
    requires StripRow(p, y) == row
    ensures FrameUnder(p, frameHeight, y) == (row / frameHeight).Floor
  {
  }

  /** A reel settled on frame `k` shows, between its masks, the frames `k`,
      `k + 1` and `k + 2` counted round the strip, one after the other from
      the top, each a whole frame tall. */
  lemma SettledWindow(d: Dimensions, offsets: seq<real>, column: nat, k: nat, y: real)
    requires Derived(d) && |offsets| == ReelCount && column < ReelCount
    requires k < TotalFrames && offsets[column] == FrameTop(k, d.frameHeight)
    requires Unmasked(ColumnPaint(d, offsets, column), y)
    ensures var p := ColumnPaint(d, offsets, column);
            var j := ((y - p.maskTop) / d.frameHeight).Floor;
            0 <= j < VisibleFrames as int &&
            FrameUnder(p, d.frameHeight, y) == (k + j) % TotalFrames
  {
    var p := ColumnPaint(d, offsets, column);
    var f := d.frameHeight;
    var below := y - p.maskTop;
    assert below < FrameTop(VisibleFrames, f) by {
      FrameTopIsProduct(VisibleFrames, f);
    }
    FrameIndex(below, f, VisibleFrames);
    var j: nat := (below / f).Floor;
    var s := below - FrameTop(j, f);
    SettledRow(d, offsets, column, k, j, s);
  }
}
