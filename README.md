# Reel editor model

A Dafny model of the reel editor from slot_reel, a small React tool for
pachislot reels. The user uploads an image holding three reel strips side
by side, each 21 symbols ("frames") tall. The editor shows each reel
through a window of three whole frames, with half a frame of padding
masked above and below. Each reel can be scrolled by a slider or nudged
one frame up or down, and the reel wraps round its 21 frames.

The model has four modules:

- `Cyclic` (`cyclic.dfy`) defines JavaScript's truncating `%` (`TruncRem`)
  and the Euclidean residue (`Mod`) that the nudge's sign fix is meant to
  produce. It also proves the residue facts the other modules use.
- `Geometry` (`geometry.dfy`) covers the dimension deriver:
  - the constants `VISIBLE_FRAMES`, `TOTAL_FRAMES` and `RENDERED_REEL_WIDTH`;
  - the `Dimensions` record and its initial value;
  - `CalculateDimensions`, which maps an image's natural size to its
    rendered geometry.
- `ReelEditor` (`editor.dfy`) covers the nudge arithmetic (`Nudged`) and
  the editor state as a class, `Editor`. The class holds the image source,
  the three reel offsets as a fixed array, the description and the
  dimensions. Its methods are the slider handler, the nudge handler, the
  upload reset and the dimension update.
- `Render` (`render.dfy`) covers the paint parameters of one reel column
  (`ColumnPaint`). It also states what the browser's background painting
  does with them:
  - horizontally, the percentage rule of CSS Backgrounds and Borders
    Module Level 3, section 3.6;
  - vertically, `repeat-y` tiling.

  From these, the module proves which reel and which frames a column shows.

All lengths are exact `real` numbers. The image's natural size is a pair of
positive natural numbers. A position on the frame grid is written
`FrameTop(k, frameHeight)`, the top of frame `k`: the sum of `k` frame
heights, which equals `k * frameHeight`.

## Model

| member | source | states |
|---|---|---|
| Cyclic.Trunc | src/components/ReelEditor.tsx:86 | the quotient behind JavaScript's `%`, rounded toward zero: at most `y` and within one of it for non-negative `y`, at least `y` and within one of it for negative `y` |
| Cyclic.TruncRem | src/components/ReelEditor.tsx:86 | JavaScript's `%` with a positive divisor: `x` is the remainder plus the quotient truncated toward zero times `m`; the remainder lies strictly between `-m` and `m` and takes the sign of the dividend |
| Cyclic.Mod | src/components/ReelEditor.tsx:86-87 | the residue the nudge is meant to produce lies in `[0, m)` and differs from `x` by a whole number of periods |
| Cyclic.ModUnique | src/components/ReelEditor.tsx:86-87 | the residue is the only value in `[0, m)` that differs from `x` by whole periods |
| Cyclic.TruncRemFix | src/components/ReelEditor.tsx:84-87 | adding the period to a negative `%` result, and keeping a non-negative one, gives exactly the Euclidean residue |
| Cyclic.ModAdd | src/components/ReelEditor.tsx:86-87 | reducing after each step is the same as reducing once at the end |
| Cyclic.ModTurns | src/components/ReelEditor.tsx:86-87 | a value already in `[0, m)` is unchanged by any whole number of turns |
| Geometry.CalculateDimensions | src/components/ReelEditor.tsx:37-57 | the measured geometry has a positive frame height, a strip of exactly 21 frames and a viewport of 3 + 1 frames; the strip is the image scaled by one factor, so 300 columns of width relate to the natural width as the total height relates to the natural height |
| Geometry.FrameHeightClosedForm | src/components/ReelEditor.tsx:42-47 | one rendered frame is `100 * H / (7 * W)` pixels |
| Geometry.CalculateExample | src/components/ReelEditor.tsx:42-50 | a 300 by 2100 image gives frame 100, viewport 400, strip 2100 |
| Geometry.ResolutionIndependent | src/components/ReelEditor.tsx:42-50 | scaling the image by any factor leaves the rendered geometry unchanged |
| Geometry.InitialNotDerived | src/components/ReelEditor.tsx:15-19 | the initial geometry has a whole strip of 21 frames of 100, but its viewport of 300 is not the 4 frames a measured geometry has |
| ReelEditor.Step | src/components/ReelEditor.tsx:81 | one nudge moves exactly one frame height, and for a positive frame height it is negative exactly when the direction is up |
| ReelEditor.Nudged | src/components/ReelEditor.tsx:79-90 | a nudged offset always lands in `[0, totalHeight)` |
| ReelEditor.NudgeUpFromZero | src/components/ReelEditor.tsx:81-87 | nudging up from offset 0 wraps to `totalHeight - frameHeight`, the last frame |
| ReelEditor.NudgeUndo | src/components/ReelEditor.tsx:79-90 | from any offset in range, a nudge followed by the opposite nudge restores the offset |
| ReelEditor.TravelFrames | src/components/ReelEditor.tsx:81 | `n` steps cover `n` frame heights, upward for Up and downward for Down |
| ReelEditor.NudgedTimesClosedForm | src/components/ReelEditor.tsx:79-90 | `n > 0` nudges in one direction give the residue of the offset plus `n` steps |
| ReelEditor.FullTurn | src/components/ReelEditor.tsx:79-90 | 21 nudges in one direction bring any in-range offset back to where it started |
| ReelEditor.NudgeDownOnGrid | src/components/ReelEditor.tsx:79-90 | nudging down from the top of frame `k` settles on the top of frame `(k + 1) mod 21` |
| ReelEditor.NudgeUpOnGrid | src/components/ReelEditor.tsx:79-90 | nudging up from the top of frame `k` settles on the top of frame `(k + 20) mod 21` |
| ReelEditor.NudgeExample | src/components/ReelEditor.tsx:79-90 | on the 300 by 2100 image, Down from 0 gives 100, and Up twice from 100 gives 2000 |
| ReelEditor.Editor.constructor | src/components/ReelEditor.tsx:10-19 | no image, offsets `[0, 0, 0]`, an empty description and the initial geometry |
| ReelEditor.Editor.SetOffset | src/components/ReelEditor.tsx:72-76 | the slider value is stored verbatim in the chosen reel; the other reels and the geometry are unchanged |
| ReelEditor.Editor.Nudge | src/components/ReelEditor.tsx:79-90 | the truncating `%` with the sign fix, written as in the handler, leaves the chosen reel at `Nudged` of its old offset; the other reels are unchanged |
| ReelEditor.Editor.ReadImage | src/components/ReelEditor.tsx:28-31 | the new image source is stored and all three offsets are reset to 0; the description and the geometry are kept |
| ReelEditor.Editor.UpdateDimensions | src/components/ReelEditor.tsx:37-61 | the geometry becomes `CalculateDimensions` of the natural size; the offsets, image and description are kept |
| ReelEditor.Editor.LoadImage | src/components/ReelEditor.tsx:24-61 | an upload followed by its image's load event: new image, offsets reset, measured geometry, and the description kept |
| Render.ColumnPaint | src/components/ReelEditor.tsx:116-141 | column `i` is painted with the viewport height, a 300% by `totalHeight` tile at `50 * i`% across, two equal masks that together make one frame, and a vertical origin that puts strip row `offsets[i]` at the top mask's edge; `UnmaskedHeight`, `ColumnShowsItsReel` and `SettledWindow` state what this shows |
| Render.ColumnShowsItsReel | src/components/ReelEditor.tsx:126-130 | with a 300% wide tile at `50 * i`% of the column, column `i` is drawn entirely from reel `i` of the image |
| Render.UnmaskedHeight | src/components/ReelEditor.tsx:116-141 | on a measured geometry the area between the two half-frame masks is exactly 3 frames tall |
| Render.WindowFollowsOffset | src/components/ReelEditor.tsx:124-130 | the strip row painted at height `y` is the offset plus the distance below the top mask, taken round the strip |
| Render.FrameOfRow | src/components/ReelEditor.tsx:124-126 | for every `n`, row `s` of frame `n` of the repeated strip belongs to frame `n mod 21` |
| Render.SlotUnmasked | src/components/ReelEditor.tsx:116-141 | every row of the 3 frame-tall slots below the top mask lies between the masks |
| Render.FrameTopTurns | src/components/ReelEditor.tsx:124-126 | for every `n`, frame `n` of the repeated strip lies `n div 21` whole strips below frame `n mod 21` |
| Render.RowRound | src/components/ReelEditor.tsx:124-130 | for every `n`, row `s` of frame `n` of the repeated strip is row `s` of frame `n mod 21` of the image |
| Render.SettledRow | src/components/ReelEditor.tsx:116-141 | when a reel rests on frame `k`, the row `s` pixels into visible slot `j` is unmasked and shows frame `(k + j) mod 21` |
| Render.SettledWindow | src/components/ReelEditor.tsx:116-141 | when a reel rests on frame `k`, every unmasked row shows frame `k`, `k + 1` or `k + 2` (mod 21), according to its slot |

## Left out

- Reading the file. `FileReader`'s asynchronous data-URL read (lines 24-34)
  is left out: `ReadImage` takes the resulting source string as a parameter.
- The hidden image's load event (lines 59-62, 100-107) is left out. Its
  handler is the only caller that reaches the dimension calculation, which
  is modelled as `UpdateDimensions` taking the natural size. `LoadImage`
  shows the order of the reader callback and that handler; other orders and
  repeated calls are not modelled.
- The `useEffect` cache check (lines 64-69) is left out because it never
  acts. It reads `imgRef.current`, but `imgRef` (line 21) is never attached:
  the hidden `<img>` at lines 101-106 has no `ref`. So `imgRef.current`
  stays null and the call at line 67 cannot run.
- Geometry.CalculateDimensions: requires a positive natural width and
  height. The source's results for the degenerate sizes are not modelled:
  - a zero width with a positive height divides by zero, and stores
    `Infinity` for all three dimensions;
  - a zero height with a positive width stores 0, 0 and 0, and the next
    nudge then computes `x % 0`, which is `NaN`;
  - a zero width and height compute `0 / 0` and store `NaN` for all three.
- ReelEditor.Editor.SetOffset and ReelEditor.Editor.Nudge: require an index
  below 3, the only indices the page passes (it maps over `[0, 1, 2]`).
  What JavaScript does with other indices is not modelled:
  - an integer index of 3 or more lengthens the copied tuple;
  - a negative or fractional index adds a plain property and leaves the
    length at 3;
  - `handleNudge` with an out-of-range index reads `undefined`, so it
    computes and stores `NaN`.
- ReelEditor.Editor.SetOffset stores any real value. The browser limits the
  range slider to `[0, totalHeight]` with a step of a tenth of a frame
  (lines 157-165); that clamping and rounding are not modelled.
- Numbers are exact reals. IEEE double rounding, `-0` and `NaN` are not
  modelled, and so "21 nudges return to the start" holds exactly only in
  the model.
- The label `(offset / frameHeight).toFixed(1)` (line 166) is display only,
  and is left out.
- The description textarea (lines 174-182) has no operation in this model.
  The `description` field is modelled only so that the other operations can
  be shown to keep it.
- Updates in place. React replaces the offsets tuple with a copy. Here the
  three offsets are a fixed array updated in place, and each method states
  the whole new contents.
- Render: markup, class names and the stylesheet are left out. The painting
  rules modelled are only the horizontal position of the 300% tile and
  vertical `repeat-y` tiling. Image decoding and sub-pixel sampling are not
  modelled.
- `src/App.tsx` and the stylesheet are not part of this model.
