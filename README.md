# Rod tracking: a verified model of the registration engine

`rodtrack.py` tracks one rod-like marker through a sequence of microscope
frames. The marker is a set of pixels, held as row and column lists `rr`, `rc`.
It also has a centroid `cr`, `cc` and per-pixel offsets `dcr`, `dcc` from that
centroid.

- `cent` recomputes the centroid and the offsets.
- `rodtransform` rotates the offsets about the centroid, translates them,
  rewrites the pixel lists and recentres.
- `diffind` is a brute-force aligner. It scores an `nrot x nt x nt` grid of
  pose hypotheses by mean squared grey-level difference between two frames.
  The order is angle outermost, then x, then y. It returns the first minimum
  minus the window centre.
- The trackers build a trajectory `rs`, `xp`, `yp`:
  - `seqapath` is anchored: it always compares frame 0 with frame `k + 1`,
    in a window centred on the running estimate, and never moves the region;
  - `seqpath` is incremental: it compares frame `k` with `k + 1` in a window
    centred on zero, then moves the region with `rodtransform`.

The project has three modules, one `.dfy` file each:

- `geometry.dfy` (`Geometry`): the region as a value. It holds element-wise
  sequence arithmetic in place of numpy's vector operations, the centroid
  invariant, and the pose transform `Transformed`. Cosine and sine are the
  fields of a `Trig` value with no properties assumed. Lemmas that need
  `cos(0) = 1` and `sin(0) = 0` require `ZeroAngle(trig)`.
- `search.dfy` (`Search`): the specification of the aligner. It defines the
  `linspace` grids, the enumeration order and its inverse `Decode`, and
  truncation toward zero of sample coordinates. It also defines sampling a
  frame, the score, the first minimum, and `BestDelta`, the result the search
  must produce. The scanning loops of `diffind` are methods here, proved
  against that specification.
- `rod.dfy` (`RodTrack`): the class `Rod`, holding the fields of the Python
  class `rod` (`rr`, `rc`, `cr`, `cc`, `dcr`, `dcc`, `rs`, `xp`, `yp` and
  the frames `ims`), and its methods `Cent`, `RodTransform`, `Diffind`,
  `Seqapath` and `Seqpath`. The module also specifies what a finished
  trajectory is:
  - `AnchoredPath` and `IncrementalPath`: every step is the delta the aligner
    returned at that step;
  - `AnchoredBlocked` and `IncrementalBlocked`: the step after the last one
    cannot be taken;
  - the lemmas that carry these facts from one loop step to the next.

Frames are immutable `seq<seq<real>>` values, held in a `const` of the class.
The tracker only reads them.

Sampling outside a frame: numpy raises `IndexError` for an index at or above
the frame's size and for one below minus that size, and counts an index in
`[-size, -1]` from the end. The model treats any truncated coordinate outside
`[0, rows) x [0, cols)` as the `OutOfBounds` outcome of the search.
An empty hypothesis grid (`nrot = 0` or `nt = 0`) makes `min` fail on an
empty list; that is the `NoHypotheses` outcome. A tracker whose step meets
either outcome, or runs past the last frame, stops with `Aborted(k)`. It keeps
the entries it appended before that step, as the Python lists do when the
exception propagates.

`Valid()` holds of every object the constructor makes, and every method
keeps it except the helper `Place`, which `RodTransform` always follows with
`Cent`. It states that there is at least one frame, that the region is
shaped and centred, and that the ghost constant `search`, the aligner that
`Diffind` computes, is pinned by `RodTrack.Implements`:

- `search` equals `BestDelta` on every shaped region and non-empty window;
- `search` is `NoHypotheses` on an empty window.

The path predicates are stated in terms of `search`. The `...Meaning` lemmas
turn them into statements about `BestDelta`.

Two behaviours of rodtrack.py differ from what a reader might expect, and
the model follows the code:

- **Self-alignment.** One might expect `diffind(n, n, …)`, with the zero
  hypothesis in the grid, to return `(0, 0, 0)`, and a static sequence to
  give an all-zero trajectory. Under the first-minimum tie-break of
  rodtrack.py:115 that can fail when a hypothesis enumerated before the
  zero pose also scores zero. On a uniform frame every hypothesis ties, and
  the search returns the first one,
  `(-dra, -dta, -dta)`: this is `Search.UniformFrameTiesToFirst`.
  `Search.SelfAlignmentScoresZero` proves that the middle hypothesis is the
  zero pose and scores zero, and so does the hypothesis chosen.
  `Search.SelfAlignmentZeroDelta` proves a sufficient condition: when every
  hypothesis enumerated before the middle one scores above zero, the search
  returns `(0, 0, 0)`. The condition is not necessary: an earlier hypothesis
  may itself be the zero delta, for instance when `dra = 0` and `nrot > 1`.
- **Running out of frames.** A too-short frame sequence is not reported
  before tracking starts. rodtrack.py finds it only inside the loop, when
  `ims[k + 1]` fails, after the earlier entries have been appended. The
  model's `Aborted` status reflects that.

## Model

| member | source | states |
|---|---|---|
| Geometry.Centre | rodtrack.py:44-49 | the centroid is the mean of each coordinate list and the offsets are coordinates minus centroid; the result is centred and keeps the pixel lists |
| Geometry.Mean | rodtrack.py:46-47 | numpy `mean` of a non-empty list: its sum over its length; `Geometry.MeanShift` and `Geometry.OffsetsFromMeanSumToZero` state its properties |
| Geometry.CentredInvariant | rodtrack.py:44-49 | after centring, `rr[i] == cr + dcr[i]` and `rc[i] == cc + dcc[i]` for every pixel, and each offset list sums to zero |
| Geometry.OffsetsFromMeanSumToZero | rodtrack.py:46-49 | offsets taken from the mean sum to zero |
| Geometry.CentreIsIdempotent | rodtrack.py:44-49 | a region is centred exactly when recentring its pixel lists gives it back, so a second `cent` changes nothing |
| Geometry.Transformed | rodtrack.py:71-81 | `rodtransform` on values gives a shaped, centred region with as many pixels as before |
| Geometry.PlaceRows | rodtrack.py:77-79 | new rows `cr + (dcc*sin + dcr*cos + ty)`, one per pixel, also the candidate rows at lines 106-107; `Geometry.PlaceZeroAngle` states their zero-angle form |
| Geometry.PlaceCols | rodtrack.py:76-80 | new columns `cc + (dcc*cos - dcr*sin + tx)`, one per pixel, also the candidate columns at lines 105-108; `Geometry.PlaceZeroAngle` states their zero-angle form |
| Geometry.TransformMovesCentroid | rodtrack.py:71-81 | for any angle, the transform moves the centroid by exactly `(ty, tx)` and the new offsets are the old ones rotated |
| Geometry.PlaceZeroAngle | rodtrack.py:76-80 | with cos 1 and sin 0 the placed pixels are the old pixels shifted by `ty` (rows) and `tx` (columns) |
| Geometry.TransformZeroAngle | rodtrack.py:71-81 | `rodtransform(0, [tx, ty])` shifts every row by `ty`, every column by `tx` and the centroid by `(ty, tx)`, and keeps the offsets and the pixel count |
| Geometry.TransformIdentity | rodtrack.py:71-81 | `rodtransform(0, [0, 0])` leaves a centred region unchanged |
| Search.Linspace | rodtrack.py:91-92 | `linspace(lo, hi, n)` has exactly `n` points |
| Search.LinspaceBounds | rodtrack.py:91-92 | the first grid point is `lo`, the last (for `n >= 2`) is `hi`, and every point lies in `[lo, hi]` |
| Search.GridPointBetween | rodtrack.py:91-92 | a point `i` of `m` equal steps from `lo` toward `hi` lies in `[lo, hi]`: the arithmetic of one `linspace` point |
| Search.Angles | rodtrack.py:91 | the angle steps `linspace(-dra, dra, nrot)`, with `nrot` entries |
| Search.Rotations | rodtrack.py:91 | the angles searched, `sr + linspace(-dra, dra, nrot)`, with `nrot` entries |
| Search.Steps | rodtrack.py:92 | the translation steps `tt = linspace(-dta, dta, nt)`, with `nt` entries |
| Search.LinspaceMiddle | rodtrack.py:91-92 | an odd symmetric grid has zero in the middle |
| Search.ZeroHypothesis | rodtrack.py:91-104 | in a window centred on zero with odd grids, the middle hypothesis is the zero pose |
| Search.Trunc | rodtrack.py:93-94 | `array(x, dtype=int)` truncates toward zero: the result lies within one of `x`, on the side of zero |
| Search.Decode | rodtrack.py:100-114 | the `p`-th hypothesis lies on the grid and has position `p` in the enumeration |
| Search.DecodeFlat | rodtrack.py:100-114 | `Decode` inverts the enumeration position `(i*nt + j)*nt + k` |
| Search.FlatCarry | rodtrack.py:100-114 | finishing the `ty` loop moves on to the next `tx`, and finishing the `tx` loop to the next angle |
| Search.EnumerationOrder | rodtrack.py:100-114 | entry `(i*nt + j)*nt + k` is hypothesis `(rots[i], stx + tt[j], sty + tt[k])`, and its delta is grid point `(i, j, k)` |
| Search.HypAt | rodtrack.py:112-114 | the `p`-th recorded hypothesis `(lsr[p], lsx[p], lsy[p])`; `Search.EnumerationOrder` states which grid point it is |
| Search.DeltaAt | rodtrack.py:116 | the delta returned for position `p`: the hypothesis minus the window centre; `Search.DeltaInWindow` bounds it |
| Search.DeltaInWindow | rodtrack.py:116 | every returned delta is a point of `linspace(-dra, dra, nrot)` and `linspace(-dta, dta, nt)`, for any half-ranges; when a half-range is not negative, the delta lies within `[-dra, dra]` and `[-dta, dta]` |
| Search.Score | rodtrack.py:111 | the mean squared difference of two samples is never negative, and it is zero when the samples agree |
| Search.InFrame | rodtrack.py:111 | every sample coordinate lies in the frame: the out-of-frame policy, under which the search is `OutOfBounds` (`Search.BestDeltaMeaning`) |
| Search.Sample | rodtrack.py:111 | numpy fancy indexing `f[rows, cols]`: one grey level per sample coordinate |
| Search.SquaredDiff | rodtrack.py:111 | `(a - b)**2` element-wise, one entry per pixel; `Search.MeanSquaredDiff` proves its mean non-negative |
| Search.MeanSquaredDiff | rodtrack.py:111 | a mean of squares is at least zero, and zero for equal vectors |
| Search.ScanStep | rodtrack.py:105-114 | the innermost step either finds a candidate outside the frame, and then the whole search is out of bounds, or appends that hypothesis's score and pose at the next enumeration position |
| Search.ScanAngle | rodtrack.py:101-114 | the two inner loops for one angle extend the scored lists by all `nt*nt` shifts, in order, or report a sample outside a frame |
| Search.ScanAll | rodtrack.py:96-114 | the three loops score all `nrot*nt*nt` hypotheses in enumeration order, or report a sample outside a frame |
| Search.Scores | rodtrack.py:100-114 | the score list has exactly `nrot*nt*nt` entries |
| Search.ScoredComplete | rodtrack.py:100-114 | a scan covering every hypothesis had all samples inside and produced exactly `Scores` |
| Search.FirstMinUnique | rodtrack.py:115 | there is at most one first minimum |
| Search.ArgMinIsFirstMin | rodtrack.py:115 | the left-to-right scan finds a first minimum |
| Search.ArgMin | rodtrack.py:115 | the position a left-to-right scan for the minimum ends at, a valid index; `Search.ArgMinCharacterised` proves it is exactly the first minimum |
| Search.FirstMin | rodtrack.py:115 | the position of the hypothesis chosen, below `nrot*nt*nt`; `Search.FirstMinScores` states its scores |
| Search.ArgMinCharacterised | rodtrack.py:115 | a position is the first minimum exactly when it is the scan's result |
| Search.MinOf | rodtrack.py:115 | `min` returns an element that is at most every element |
| Search.IndexOf | rodtrack.py:115 | `list.index` returns the first position holding the value |
| Search.IndexOfMin | rodtrack.py:115 | `lss.index(min(lss))` is the first minimum: at most every score and strictly below every earlier one |
| Search.FirstMinScores | rodtrack.py:111-115 | the chosen hypothesis scores at most every hypothesis and strictly less than every earlier one |
| Search.CompleteScan | rodtrack.py:100-115 | after a complete scan the lists hold `Scores` and the hypothesis at every position |
| Search.BestDeltaAt | rodtrack.py:115-116 | when every sample is inside, the search returns the delta of the first minimum |
| Search.BestDeltaOfScan | rodtrack.py:115-116 | a scan whose first minimum holds hypothesis `h` yields `h` minus the window centre |
| Search.BestDeltaMeaning | rodtrack.py:83-116 | for any half-ranges, the search is out of bounds exactly when some sample is outside a frame, and otherwise it picks the unique first minimum; when a half-range is not negative, the delta is bounded by it |
| Search.BestDelta | rodtrack.py:83-116 | what `diffind` returns: the first minimum's delta, or `OutOfBounds`; `Search.BestDeltaMeaning` states its meaning and `RodTrack.Rod.Diffind` is proved to compute it |
| Search.SelfAlignmentScoresZero | rodtrack.py:83-116 | a frame against itself, with a zero-centred odd window, has a zero-pose hypothesis scoring zero, and the chosen hypothesis scores zero |
| Search.UniformFrameTiesToFirst | rodtrack.py:115-116 | on a uniform frame against itself all scores tie and the search returns the first hypothesis, `(-dra, -dta, -dta)` |
| Search.SelfAlignmentZeroDelta | rodtrack.py:83-116 | a frame against itself, with a zero-centred odd window in which every hypothesis before the middle one scores above zero, gives the delta `(0, 0, 0)` |
| RodTrack.StopIndex | rodtrack.py:124-127 | the loop bound `lind`: `len(ims) + stop` for a negative `stop`, else `stop - 1`; the trackers' length clauses are stated with it |
| RodTrack.StepCount | rodtrack.py:130 | the number of iterations of `for k in range(start, lind)`: `max(0, lind - start)` |
| RodTrack.ExtendsLast | rodtrack.py:133-135 | appending the last entry plus `d` grows the trajectory by one, keeps its start, and makes `d` the last step |
| RodTrack.Searcher | rodtrack.py:83-116 | the aligner of `diffind`, written from `BestDelta`, satisfies `Implements` |
| RodTrack.SearchOutside | rodtrack.py:107-111 | when some sample is outside a frame, the aligner returns `OutOfBounds` |
| RodTrack.SearchFound | rodtrack.py:115-116 | the aligner returns the first minimum's hypothesis minus the window centre |
| RodTrack.ScanFinished | rodtrack.py:115-116 | after a complete scan the aligner's result is `(lsr[mini] - sr, lsx[mini] - stx, lsy[mini] - sty)` for the first minimum `mini` |
| RodTrack.AnchoredWindow | rodtrack.py:132 | the window built from the running estimate is non-empty exactly when the grid is |
| RodTrack.AnchoredStep | rodtrack.py:132-135 | step `t` of an anchored path: the aligner, run on frame 0 and frame `start + t + 1` in the window centred on entry `t`, found the recorded delta; `RodTrack.AnchoredStepMeaning` states it in terms of `BestDelta` |
| RodTrack.AnchoredPath | rodtrack.py:120-135 | the trajectory starts at `(0, cc, cr)` and every step is an anchored step; `RodTrack.Rod.Seqapath` establishes it |
| RodTrack.AnchoredBlockedMeaning | rodtrack.py:130-132 | an anchored step is blocked exactly when frame `k + 1` is missing, the grid is empty, or a sample falls outside a frame |
| RodTrack.AnchoredStepMeaning | rodtrack.py:130-135 | an anchored step is exactly a `BestDelta` search of frame 0 against frame `k + 1` in the running window that found the recorded delta |
| RodTrack.ExtendsKeepsWindow | rodtrack.py:132-135 | appending an entry keeps the window of every earlier step |
| RodTrack.AnchoredStepKept | rodtrack.py:130-135 | appending an entry keeps every earlier anchored step |
| RodTrack.AnchoredPathExtends | rodtrack.py:130-135 | an anchored path extended by an anchored step is an anchored path |
| RodTrack.AnchoredExtend | rodtrack.py:132-135 | appending the entry advanced by the delta the aligner found keeps the trajectory an anchored path |
| RodTrack.Origin | rodtrack.py:151 | the incremental window is centred on zero and non-empty exactly when the grid is |
| RodTrack.IncrementalStep | rodtrack.py:151-155 | step `t` of an incremental path: the aligner, run from the region then held on frames `k`, `k + 1` in the zero-centred window, found the recorded delta, and `rodtransform` by it gave the next region; `RodTrack.IncrementalStepMeaning` states it in terms of `BestDelta` |
| RodTrack.IncrementalPath | rodtrack.py:140-155 | the trajectory starts at `(0, cc, cr)` of the first region, and every step is an incremental step; `RodTrack.Rod.Seqpath` establishes it |
| RodTrack.IncrementalBlockedMeaning | rodtrack.py:150-151 | an incremental step is blocked exactly when frame `k + 1` is missing, the grid is empty, or a sample falls outside a frame |
| RodTrack.IncrementalStepMeaning | rodtrack.py:150-155 | an incremental step is exactly a `BestDelta` search of frame `k` against `k + 1` from the current region, followed by `rodtransform` by that delta |
| RodTrack.IncrementalStepKept | rodtrack.py:150-155 | appending an entry and a region keeps every earlier incremental step |
| RodTrack.IncrementalPathExtends | rodtrack.py:150-155 | an incremental path extended by an incremental step is an incremental path |
| RodTrack.IncrementalExtend | rodtrack.py:151-155 | appending the advanced entry and the moved region keeps the trajectory an incremental path |
| RodTrack.Replay | rodtrack.py:150-155 | replaying the recorded deltas through `rodtransform` gives a shaped region with the original pixel count |
| RodTrack.HistoryIsReplay | rodtrack.py:150-155 | the region held at every entry of an incremental path is fixed by the trajectory alone: it is the replay of its deltas |
| RodTrack.Rod.constructor | rodtrack.py:37-42 | the object takes the given pixel lists, centres them, and starts with an empty trajectory |
| RodTrack.Rod.Cent | rodtrack.py:44-49 | sets `cr`, `cc` to the means and `dcr`, `dcc` to the offsets, so that `rr == cr + dcr`, `rc == cc + dcc` and the offsets sum to zero; on a centred region it changes nothing |
| RodTrack.Rod.RodTransform | rodtrack.py:71-81 | the new region is `Transformed` of the old one by `(rot, tx, ty)`, and the object stays valid, so the region is centred |
| RodTrack.Rod.Place | rodtrack.py:73-80 | the pixel lists become `PlaceRows` and `PlaceCols` of the region before the call, with centroid and offsets left as they were |
| RodTrack.Rod.Diffind | rodtrack.py:83-116 | returns the aligner's result for the current region and frames `n`, `m`, which `Valid()` ties to `BestDelta`; changes no field |
| RodTrack.Rod.Seqapath | rodtrack.py:118-136 | leaves the region unchanged; the trajectory starts at `(0, cc, cr)` and every step is an anchored search from frame 0; a completed run has `max(0, lind - start) + 1` entries, with `lind` computed from `stop`; an aborted run stops at a blocked step before `lind` |
| RodTrack.Rod.AnchoredAdvance | rodtrack.py:131-135 | one loop step appends one anchored entry, or reports the step blocked and appends nothing |
| RodTrack.Rod.AnchoredApply | rodtrack.py:133-135 | appends the last entry advanced by the delta found, keeping the anchored path |
| RodTrack.Rod.Seqpath | rodtrack.py:138-156 | the trajectory starts at `(0, cc, cr)`; every step is an incremental search from the region then held, followed by `rodtransform`; the final region is the last in that history; completed and aborted runs have the same lengths and stop conditions as `Seqapath` |
| RodTrack.Rod.IncrementalAdvance | rodtrack.py:150-155 | one loop step appends one incremental entry and moves the region, or reports the step blocked and changes nothing |
| RodTrack.Rod.IncrementalApply | rodtrack.py:152-155 | appends the advanced entry and applies `rodtransform` by the delta found, keeping the incremental path |

## Left out

- `__init__` (rodtrack.py:23-35) reads image files and prints. The frames are a constructor parameter instead.
- `rodregion` (rodtrack.py:37-42) rasterises a polygon with `skimage.draw.polygon`, foreign code. The constructor takes the rasterised pixel lists, which must be non-empty, and centres them. An empty region, where numpy's mean is NaN, is excluded by that precondition.
- `rodrect` (rodtrack.py:51-62) computes the four corners of a rotated rectangle and passes them to `rodregion`, so its vertices define the tracked region. The constructor's rasterised pixel lists stand in for them. Only the corners it keeps in `ser`/`sec` are display-only.
- `rsshow` and `showpath` (rodtrack.py:64-69, 158-174) only draw, and do not affect tracking.
- `trackexample.py` is a driver script with no tracking logic of its own, and is not part of this model.
- All `print` calls are left out.
- Floating-point round-off and the real trigonometric functions are not modelled. Coordinates and grey levels are exact reals, and cosine and sine are arbitrary functions, with only `cos(0) = 1` and `sin(0) = 0` assumed where needed.
- That rotation by the angle and then by its negative gives the original region is not proved. It needs trigonometric identities the tracker does not use.
- That `diffind` finds a known integer shift between two frames exactly is not proved: under the tie-break it holds only when no earlier hypothesis scores as low.
- Search.InFrame: numpy's counting from the end for sample indices in `[-size, -1]` is not modelled. Such a coordinate counts as outside the frame, like one that is too large or below `-size`, where numpy also raises.
- RodTrack.Rod.Seqapath: a negative `start`, which would index frames from the end, is excluded by the type `nat`.
- RodTrack.Rod.Seqpath: a negative `start` is excluded by the type `nat`, as for `Seqapath`.
- Python's exceptions are not modelled as exceptions. An out-of-range sample or a missing frame becomes the `OutOfBounds` alignment or an `Aborted` status, and an empty grid becomes `NoHypotheses`.
- Frames are immutable values, not mutable 2-D arrays, so aliasing between frames and writes to them are not modelled. The tracker never writes to them.
- Search.Window and RodTrack.Grid: `nrot` and `nt` are natural numbers, so the `ValueError` that `linspace` raises for a negative count (rodtrack.py:91-92) is not modelled. A count of zero is modelled, as `NoHypotheses`.
- The defaults of `diffind`, `seqapath` and `seqpath` are not modelled: the caller passes a `Grid` or `Window` explicitly.
- Search.SelfAlignmentScoresZero proves that the chosen hypothesis scores zero, not that its delta is zero. The delta is zero when no hypothesis enumerated before the middle one also scores zero, a sufficient condition that `Search.SelfAlignmentZeroDelta` proves. `Search.UniformFrameTiesToFirst` shows a case where the delta is not zero.
- RodTrack.Rod.Diffind states its result through the ghost aligner `search`, which `Valid()` pins to `BestDelta`. The three loops run in `Search.ScanAll` and `Search.ScanAngle`, which the method calls.
