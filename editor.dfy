/** The `ReelEditor` component's state and its event handlers.

    The state holds the uploaded image, one vertical scroll offset per reel
    column, the free-text description and the rendered geometry. A slider
    sets one offset outright; a nudge moves it one frame up or down and wraps
    around the strip, so that an offset is a position on a cyclic coordinate
    of period `totalHeight`. */
module ReelEditor {
  import opened Cyclic
  import opened Geometry

  datatype Option<T> = None | Some(value: T)

  /** A nudge button: up shows the previous symbol, down the next one. */
  datatype Direction = Up | Down

  function Opposite(direction: Direction): Direction
  {
    if direction == Up then Down else Up
  }

  /** The signed distance of one nudge: minus one frame up, plus one frame down. */
  function Step(direction: Direction, frameHeight: real): (r: real)
    ensures r == frameHeight || r == -frameHeight
    ensures frameHeight > 0.0 ==> (r < 0.0 <==> direction == Up)
  {
    if direction == Up then -frameHeight else frameHeight
  }

  /** The offset one nudge leads to: one frame along the reel, reduced to the
      strip's period. */
  ghost function Nudged(offset: real, direction: Direction, d: Dimensions): (r: real)
    requires Consistent(d)
    ensures 0.0 <= r < d.totalHeight
  {
    Mod(offset + Step(direction, d.frameHeight), d.totalHeight)
  }

  /** The offset reached by `n` nudges in the same direction. */
  ghost function NudgedTimes(offset: real, direction: Direction, d: Dimensions, n: nat): real
    requires Consistent(d)
  {
    if n == 0 then offset else Nudged(NudgedTimes(offset, direction, d, n - 1), direction, d)
  }

  /** Nudging up from the top of the strip wraps to the last frame, never
      to a negative offset. */
  lemma NudgeUpFromZero(d: Dimensions)
    requires Consistent(d)
    ensures Nudged(0.0, Up, d) == d.totalHeight - d.frameHeight
  {
    ModUnique(-d.frameHeight, d.totalHeight, d.totalHeight - d.frameHeight, -1);
  }

  /** A nudge followed by one the other way restores any offset already on
      the strip. */
  lemma NudgeUndo(offset: real, direction: Direction, d: Dimensions)
    requires Consistent(d)
    requires 0.0 <= offset < d.totalHeight
    ensures Nudged(Nudged(offset, direction, d), Opposite(direction), d) == offset
  {
    var s := Step(direction, d.frameHeight);
    assert Step(Opposite(direction), d.frameHeight) == -s;
    ModAdd(offset + s, -s, d.totalHeight);
    ModTurns(offset, d.totalHeight, 0);
  }

  /** The signed distance covered by `n` nudges in one direction, before
      any wrapping. */
  function Travel(direction: Direction, frameHeight: real, n: nat): real
  {
    if n == 0 then 0.0 else Travel(direction, frameHeight, n - 1) + Step(direction, frameHeight)
  }

  /** `n` nudges travel `n` frames. */
  lemma {:induction false} TravelFrames(direction: Direction, frameHeight: real, n: nat)
    ensures Travel(direction, frameHeight, n) == n as real * Step(direction, frameHeight)
  {
    if n > 0 {
      TravelFrames(direction, frameHeight, n - 1);
      OneMore(n - 1, Step(direction, frameHeight));
    }
  }

  /** `n` nudges in one direction land where the whole distance travelled,
      reduced once to the strip's period, lands: wrapping at every step is
      the same as wrapping at the end. */
  lemma {:induction false} NudgedTimesClosedForm(offset: real, direction: Direction, d: Dimensions, n: nat)
    requires Consistent(d)
    ensures NudgedTimes(offset, direction, d, n)
            == if n == 0 then offset else Mod(offset + Travel(direction, d.frameHeight, n), d.totalHeight)
  {
    if n > 1 {
      NudgedTimesClosedForm(offset, direction, d, n - 1);
      ModAdd(offset + Travel(direction, d.frameHeight, n - 1), Step(direction, d.frameHeight), d.totalHeight);
    }
  }

  /** `TotalFrames` nudges in one direction bring a reel once round its
      strip, back to where it started. */
  lemma FullTurn(offset: real, direction: Direction, d: Dimensions)
    requires Consistent(d)
    requires 0.0 <= offset < d.totalHeight
    ensures NudgedTimes(offset, direction, d, TotalFrames) == offset
  {
    var t := d.totalHeight;
    NudgedTimesClosedForm(offset, direction, d, TotalFrames);
    TravelFrames(direction, d.frameHeight, TotalFrames);
    var k := if direction == Up then -1 else 1;
    assert Travel(direction, d.frameHeight, TotalFrames) == k as real * t;
    ModTurns(offset, t, k);
  }

  /** A frame on the strip is its own residue. */
  lemma FrameOnStrip(n: nat, d: Dimensions)
    requires Consistent(d) && n < TotalFrames
    ensures Mod(FrameTop(n, d.frameHeight), d.totalHeight) == FrameTop(n, d.frameHeight)
  {
    FrameTopBelow(n, TotalFrames, d.frameHeight);
    WholeStrip(d);
    ModInRange(FrameTop(n, d.frameHeight), d.totalHeight);
  }

  /** A reel settled on frame `k` moves to the next frame down, counted
      round the `TotalFrames` frames of the strip. */
  lemma NudgeDownOnGrid(k: nat, d: Dimensions)
    requires Consistent(d) && k < TotalFrames
    ensures Nudged(FrameTop(k, d.frameHeight), Down, d)
            == FrameTop((k + 1) % TotalFrames, d.frameHeight)
  {
    var f, next := d.frameHeight, k + 1;
    Congruent(FrameTop(k, f) + Step(Down, f), FrameTop(next, f), d.totalHeight);
    if next < TotalFrames {
      FrameOnStrip(next, d);
    } else {
      WholeStrip(d);
      ModPeriod(d.totalHeight);
    }
  }

  /** A reel settled on frame `k` moves to the previous frame up, counted
      round the `TotalFrames` frames of the strip. */
  lemma NudgeUpOnGrid(k: nat, d: Dimensions)
    requires Consistent(d) && k < TotalFrames
    ensures Nudged(FrameTop(k, d.frameHeight), Up, d)
            == FrameTop((k + TotalFrames - 1) % TotalFrames, d.frameHeight)
  {
    var f := d.frameHeight;
    if k > 0 {
      var previous: nat := k - 1;
      Congruent(FrameTop(k, f) + Step(Up, f), FrameTop(previous, f), d.totalHeight);
      FrameOnStrip(previous, d);
    } else {
      var last: nat := TotalFrames - 1;
      WholeStrip(d);
      assert FrameTop(last, f) == d.totalHeight - f;
      NudgeUpFromZero(d);
    }
  }

  /** The example scenario on a 300 by 2100 image: one nudge down from 0
      reaches 100, and two nudges up from 100 reach 2000. */
  lemma NudgeExample()
    ensures Nudged(0.0, Down, CalculateDimensions(300, 2100)) == 100.0
    ensures Nudged(Nudged(100.0, Up, CalculateDimensions(300, 2100)), Up, CalculateDimensions(300, 2100)) == 2000.0
  {
    var d := CalculateDimensions(300, 2100);
    CalculateExample();
    ModUnique(100.0, 2100.0, 100.0, 0);
    ModUnique(0.0, 2100.0, 0.0, 0);
    ModUnique(-100.0, 2100.0, 2000.0, -1);
  }

  /** The editor session. */
  class Editor {
    var imageSrc: Option<string>
    var offsets: array<real>
    var description: string
    var dimensions: Dimensions

    /** One offset per reel column and a consistent geometry. */
    ghost predicate Valid()
      reads this
    {
      offsets.Length == ReelCount && Consistent(dimensions)
    }

    /** The offsets, left to right. */
    ghost function Offsets(): seq<real>
      reads this, offsets
    {
      offsets[..]
    }

    /** No image, every reel at the top of its strip, an empty description
        and the initial geometry. */
    constructor ()
      ensures Valid() && fresh(offsets)
      ensures imageSrc == None && description == ""
      ensures Offsets() == [0.0, 0.0, 0.0]
      ensures dimensions == InitialDimensions
    {
      var reels := new real[ReelCount](_ => 0.0);
      assert reels[..] == [0.0, 0.0, 0.0];
      imageSrc := None;
      offsets := reels;
      description := "";
      dimensions := InitialDimensions;
    }

    /** A slider input: store `value` as the offset of reel `index`, exactly
        as given, leaving the other reels where they are. */
    method SetOffset(index: nat, value: real)
      requires Valid() && index < ReelCount
      modifies offsets
      ensures Valid()
      ensures Offsets() == old(Offsets())[index := value]
    {
      offsets[index] := value;
    }

    /** A nudge button: move reel `index` one frame in `direction`, wrapping
        around the strip. The remainder is taken as JavaScript's `%` takes it,
        with the period added back when it comes out negative. */
    method Nudge(index: nat, direction: Direction)
      requires Valid() && index < ReelCount
      modifies offsets
      ensures Valid()
      ensures Offsets() == old(Offsets())[index := Nudged(old(Offsets())[index], direction, dimensions)]
    {
      var currentOffset := offsets[index];
      var step := Step(direction, dimensions.frameHeight);
      var maxOffset := dimensions.totalHeight;
      var newOffset := TruncRem(currentOffset + step, maxOffset);
      if newOffset < 0.0 {
        newOffset := newOffset + maxOffset;
      }
      TruncRemFix(currentOffset + step, maxOffset);
      SetOffset(index, newOffset);
    }

    /** A file has been read: show the new image and put every reel back at
        the top of its strip. The geometry is left to `UpdateDimensions`,
        once the image has been decoded. */
    method ReadImage(src: string)
      requires Valid()
      modifies this, offsets
      ensures Valid() && offsets == old(offsets)
      ensures imageSrc == Some(src)
      ensures Offsets() == [0.0, 0.0, 0.0]
      ensures description == old(description) && dimensions == old(dimensions)
    {
      imageSrc := Some(src);
      offsets[0], offsets[1], offsets[2] := 0.0, 0.0, 0.0;
    }

    /** The image has been decoded at `naturalWidth` by `naturalHeight`:
        replace the geometry with the one measured from it. */
    method UpdateDimensions(naturalWidth: nat, naturalHeight: nat)
      requires Valid() && naturalWidth > 0 && naturalHeight > 0
      modifies this
      ensures Valid() && Derived(dimensions)
      ensures dimensions == CalculateDimensions(naturalWidth, naturalHeight)
      ensures offsets == old(offsets) && Offsets() == old(Offsets())
      ensures imageSrc == old(imageSrc) && description == old(description)
    {
      dimensions := CalculateDimensions(naturalWidth, naturalHeight);
    }

    /** A completed upload of an image of the given natural size: the new
        image, all reels at zero, the geometry measured afresh, whatever the
        state was before; the description is kept. */
    method LoadImage(src: string, naturalWidth: nat, naturalHeight: nat)
      requires Valid() && naturalWidth > 0 && naturalHeight > 0
      modifies this, offsets
      ensures Valid() && Derived(dimensions) && offsets == old(offsets)
      ensures imageSrc == Some(src)
      ensures Offsets() == [0.0, 0.0, 0.0]
      ensures dimensions == CalculateDimensions(naturalWidth, naturalHeight)
      ensures description == old(description)
    {
      ReadImage(src);
      UpdateDimensions(naturalWidth, naturalHeight);
    }
  }
}
