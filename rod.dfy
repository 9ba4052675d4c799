/**
 * The tracker object: a frame sequence, the marker region it holds and
 * updates, the brute-force aligner over it, and the two path trackers that
 * build a trajectory (`rs`, `xp`, `yp`) by repeated alignment.
 */
module RodTrack {
  import opened Geometry
  import opened Search

  /** How a tracking run ended: all steps done, or stopped at step `step`. */
  datatype Status = Completed | Aborted(step: int)

  /** The search resolution shared by every step of a run. */
  datatype Grid = Grid(dra: real, dta: real, nrot: nat, nt: nat)
  {
    predicate Ok() { nrot >= 1 && nt >= 1 }

    /** The window of this resolution centred on angle `sr` and shift `(stx, sty)`. */
    function At(sr: real, stx: real, sty: real): (w: Window)
      ensures w.Ok() == Ok()
    {
      Window(dra, nrot, dta, nt, sr, stx, sty)
    }
  }

  /** The last step bound of a run: `len(ims) + stop` for a negative stop, else `stop - 1`. */
  function StopIndex(frames: nat, stop: int): int
  {
    if stop < 0 then frames + stop else stop - 1
  }

  /** Number of loop steps of `for k in range(start, lind)`. */
  function StepCount(start: int, lind: int): nat
  {
    if lind > start then lind - start else 0
  }

  /** The delta recorded at step `t`: entry `t + 1` minus entry `t`. */
  function Step(rs: seq<real>, xp: seq<real>, yp: seq<real>, t: nat): Pose
    requires t + 1 < |rs| && |xp| == |rs| && |yp| == |rs|
  {
    Pose(rs[t + 1] - rs[t], xp[t + 1] - xp[t], yp[t + 1] - yp[t])
  }

  /** A trajectory starts at zero rotation and the region's centroid. */
  predicate Starts(g: Region, rs: seq<real>, xp: seq<real>, yp: seq<real>)
  {
    |rs| >= 1 && |xp| == |rs| && |yp| == |rs|
    && rs[0] == 0.0 && xp[0] == g.cc && yp[0] == g.cr
  }

  /** `rs2`, `xp2`, `yp2` are the trajectory with the last entry advanced by `d` appended. */
  predicate Extends(rs: seq<real>, xp: seq<real>, yp: seq<real>, d: Pose,
                    rs2: seq<real>, xp2: seq<real>, yp2: seq<real>)
  {
    && |rs| >= 1 && |xp| == |rs| && |yp| == |rs|
    && rs2 == rs + [rs[|rs| - 1] + d.rot]
    && xp2 == xp + [xp[|rs| - 1] + d.x]
    && yp2 == yp + [yp[|rs| - 1] + d.y]
  }

  /** The extended trajectory keeps its start and has `d` as its last step. */
  lemma ExtendsLast(g: Region, rs: seq<real>, xp: seq<real>, yp: seq<real>, d: Pose,
                    rs2: seq<real>, xp2: seq<real>, yp2: seq<real>)
    requires Extends(rs, xp, yp, d, rs2, xp2, yp2)
    ensures |rs2| == |rs| + 1 && |xp2| == |rs2| && |yp2| == |rs2|
    ensures Starts(g, rs, xp, yp) ==> Starts(g, rs2, xp2, yp2)
    ensures Step(rs2, xp2, yp2, |rs| - 1) == d
  {
  }

  /** The extended trajectory keeps every earlier step. */
  lemma ExtendsKeeps(rs: seq<real>, xp: seq<real>, yp: seq<real>, d: Pose,
                     rs2: seq<real>, xp2: seq<real>, yp2: seq<real>, u: nat)
    requires Extends(rs, xp, yp, d, rs2, xp2, yp2) && u < |rs|
    ensures |rs2| == |rs| + 1 && |xp2| == |rs2| && |yp2| == |rs2|
    ensures rs2[u] == rs[u] && xp2[u] == xp[u] && yp2[u] == yp[u] && xp2[0] == xp[0] && yp2[0] == yp[0]
    ensures u + 1 < |rs| ==> Step(rs2, xp2, yp2, u) == Step(rs, xp, yp, u)
  {
  }

  // ---------------------------------------------------------------------
  // The aligner

  /** An aligner: what one call of `diffind` returns for a region, two frames and a window. */
  type Aligner = (Region, Image, Image, Window) -> Alignment

  /**
   * `search` returns what `BestDelta` specifies wherever that is defined.
   * The statement is triggered only by `BestDelta` terms, so it stays out of
   * the way of proofs that reason about an aligner without unfolding it.
   */
  ghost predicate Implements(search: Aligner, trig: Trig)
  {
    && (forall g: Region, f1: Image, f2: Image, w: Window {:trigger BestDelta(g, f1, f2, trig, w)} ::
          g.Shaped() && w.Ok() ==> search(g, f1, f2, w) == BestDelta(g, f1, f2, trig, w))
    && (forall g: Region, f1: Image, f2: Image, w: Window {:trigger search(g, f1, f2, w)} ::
          !w.Ok() ==> search(g, f1, f2, w) == NoHypotheses)
  }

  /** The aligner `diffind` implements, with the trigonometric functions `trig`. */
  function Searcher(trig: Trig): (search: Aligner)
    ensures Implements(search, trig)
  {
    (g: Region, f1: Image, f2: Image, w: Window) =>
      if !w.Ok() then NoHypotheses
      else if g.Shaped() then BestDelta(g, f1, f2, trig, w)
      else OutOfBounds
  }

  /** A search in which some sample falls outside a frame is out of bounds. */
  lemma SearchOutside(search: Aligner, trig: Trig, g: Region, f1: Image, f2: Image, w: Window)
    requires Implements(search, trig) && g.Shaped() && w.Ok()
    requires !Inside(g, f1, f2, trig, w)
    ensures search(g, f1, f2, w) == OutOfBounds
  {
    assert BestDelta(g, f1, f2, trig, w) == OutOfBounds;
  }

  /**
   * A search whose scores are `s`, with first minimum `p` holding hypothesis
   * `h`, returns the delta of `h` from the window centre.
   */
  lemma SearchFound(search: Aligner, trig: Trig, g: Region, f1: Image, f2: Image, w: Window,
                    s: seq<real>, p: nat, h: Pose)
    requires Implements(search, trig) && g.Shaped() && w.Ok() && Inside(g, f1, f2, trig, w)
    requires s == Scores(g, f1, f2, trig, w) && IsFirstMin(s, p) && p < Total(w) && HypAt(w, p) == h
    ensures search(g, f1, f2, w) == Aligned(Pose(h.rot - w.sr, h.x - w.stx, h.y - w.sty))
  {
    BestDeltaOfScan(g, f1, f2, trig, w, s, p, h);
  }

  /**
   * After the three loops: the scored prefix covers every hypothesis, and
   * the search returns the delta of its first minimum from the window centre.
   */
  lemma ScanFinished(search: Aligner, trig: Trig, g: Region, f1: Image, f2: Image, w: Window,
                     lss: seq<real>, lsr: seq<real>, lsx: seq<real>, lsy: seq<real>, mini: nat)
    requires Implements(search, trig) && g.Shaped() && w.Ok() && RefInside(g, f1)
    requires ScoredPrefix(g, f1, f2, trig, w, lss, lsr, lsx, lsy) && |lss| == Total(w)
    requires IsFirstMin(lss, mini)
    ensures mini < |lsr| && mini < |lsx| && mini < |lsy|
    ensures search(g, f1, f2, w) == Aligned(Pose(lsr[mini] - w.sr, lsx[mini] - w.stx, lsy[mini] - w.sty))
  {
    CompleteScan(g, f1, f2, trig, w, lss, lsr, lsx, lsy, mini);
    SearchFound(search, trig, g, f1, f2, w, lss, mini, Pose(lsr[mini], lsx[mini], lsy[mini]));
  }

  // ---------------------------------------------------------------------
  // Anchored tracking (`seqapath`)

  /** The window of anchored step `t`: centred on the running estimate. */
  function AnchoredWindow(gr: Grid, rs: seq<real>, xp: seq<real>, yp: seq<real>, t: nat): (w: Window)
    requires t < |rs| && |xp| == |rs| && |yp| == |rs|
    ensures w.Ok() == gr.Ok()
  {
    gr.At(rs[t], xp[t] - xp[0], yp[t] - yp[0])
  }

  /**
   * Anchored step `t` (loop index `start + t`): the aligner, run on region
   * `g`, frame 0 and frame `start + t + 1` in the window centred on entry
   * `t`, found the delta recorded.
   */
  predicate AnchoredStep(search: Aligner, g: Region, ims: seq<Image>, gr: Grid,
                         start: nat, rs: seq<real>, xp: seq<real>, yp: seq<real>, t: nat)
    requires |ims| >= 1 && t + 1 < |rs| && |xp| == |rs| && |yp| == |rs|
  {
    var m := start + t + 1;
    m < |ims| && search(g, ims[0], ims[m], AnchoredWindow(gr, rs, xp, yp, t)) == Aligned(Step(rs, xp, yp, t))
  }

  /** Every step of the trajectory is an anchored step from region `g`. */
  predicate AnchoredPath(search: Aligner, g: Region, ims: seq<Image>, gr: Grid,
                         start: nat, rs: seq<real>, xp: seq<real>, yp: seq<real>)
    requires |ims| >= 1
  {
    Starts(g, rs, xp, yp)
    && forall t :: 0 <= t < |rs| - 1 ==> AnchoredStep(search, g, ims, gr, start, rs, xp, yp, t)
  }

  /** The step after the last entry cannot be taken: no frame, or a sample outside it. */
  predicate AnchoredBlocked(search: Aligner, g: Region, ims: seq<Image>, gr: Grid,
                            start: nat, rs: seq<real>, xp: seq<real>, yp: seq<real>)
    requires |ims| >= 1 && |rs| >= 1 && |xp| == |rs| && |yp| == |rs|
  {
    var m := start + |rs|;
    m >= |ims| || !search(g, ims[0], ims[m], AnchoredWindow(gr, rs, xp, yp, |rs| - 1)).Aligned?
  }

  /**
   * With the aligner of `diffind`, a blocked anchored step is a missing
   * frame, an empty grid, or a sample outside a frame.
   */
  lemma AnchoredBlockedMeaning(search: Aligner, trig: Trig, g: Region, ims: seq<Image>, gr: Grid,
                               start: nat, rs: seq<real>, xp: seq<real>, yp: seq<real>)
    requires Implements(search, trig) && g.Shaped()
    requires |ims| >= 1 && |rs| >= 1 && |xp| == |rs| && |yp| == |rs|
    ensures AnchoredBlocked(search, g, ims, gr, start, rs, xp, yp) <==>
              || start + |rs| >= |ims|
              || !gr.Ok()
              || !Inside(g, ims[0], ims[start + |rs|], trig, AnchoredWindow(gr, rs, xp, yp, |rs| - 1))
  {
    if start + |rs| < |ims| && gr.Ok() {
      assert BestDelta(g, ims[0], ims[start + |rs|], trig, AnchoredWindow(gr, rs, xp, yp, |rs| - 1))
          == search(g, ims[0], ims[start + |rs|], AnchoredWindow(gr, rs, xp, yp, |rs| - 1));
    }
  }

  /** With the aligner of `diffind`, an anchored step is exactly a `BestDelta` search. */
  lemma AnchoredStepMeaning(search: Aligner, trig: Trig, g: Region, ims: seq<Image>, gr: Grid,
                            start: nat, rs: seq<real>, xp: seq<real>, yp: seq<real>, t: nat)
    requires Implements(search, trig) && g.Shaped()
    requires |ims| >= 1 && t + 1 < |rs| && |xp| == |rs| && |yp| == |rs|
    ensures AnchoredStep(search, g, ims, gr, start, rs, xp, yp, t) <==>
              && start + t + 1 < |ims|
              && gr.Ok()
              && BestDelta(g, ims[0], ims[start + t + 1], trig, AnchoredWindow(gr, rs, xp, yp, t))
                 == Aligned(Step(rs, xp, yp, t))
  {
    if start + t + 1 < |ims| && gr.Ok() {
      assert BestDelta(g, ims[0], ims[start + t + 1], trig, AnchoredWindow(gr, rs, xp, yp, t))
          == search(g, ims[0], ims[start + t + 1], AnchoredWindow(gr, rs, xp, yp, t));
    }
  }

  /** The extended trajectory keeps every earlier window. */
  lemma ExtendsKeepsWindow(gr: Grid, rs: seq<real>, xp: seq<real>, yp: seq<real>, d: Pose,
                           rs2: seq<real>, xp2: seq<real>, yp2: seq<real>, u: nat)
    requires Extends(rs, xp, yp, d, rs2, xp2, yp2) && u < |rs|
    ensures |rs2| == |rs| + 1 && |xp2| == |rs2| && |yp2| == |rs2|
    ensures AnchoredWindow(gr, rs2, xp2, yp2, u) == AnchoredWindow(gr, rs, xp, yp, u)
  {
    ExtendsKeeps(rs, xp, yp, d, rs2, xp2, yp2, u);
  }

  /** Extending keeps every earlier anchored step. */
  lemma AnchoredStepKept(search: Aligner, g: Region, ims: seq<Image>, gr: Grid, start: nat,
                         rs: seq<real>, xp: seq<real>, yp: seq<real>, d: Pose,
                         rs2: seq<real>, xp2: seq<real>, yp2: seq<real>, u: nat)
    requires |ims| >= 1 && Extends(rs, xp, yp, d, rs2, xp2, yp2) && u + 1 < |rs|
    requires AnchoredStep(search, g, ims, gr, start, rs, xp, yp, u)
    ensures AnchoredStep(search, g, ims, gr, start, rs2, xp2, yp2, u)
  {
    ExtendsKeeps(rs, xp, yp, d, rs2, xp2, yp2, u);
    ExtendsKeepsWindow(gr, rs, xp, yp, d, rs2, xp2, yp2, u);
  }

  /** An anchored path extended by an anchored step is an anchored path. */
  lemma AnchoredPathExtends(search: Aligner, g: Region, ims: seq<Image>, gr: Grid, start: nat,
                            rs: seq<real>, xp: seq<real>, yp: seq<real>, d: Pose,
                            rs2: seq<real>, xp2: seq<real>, yp2: seq<real>)
    requires |ims| >= 1
    requires AnchoredPath(search, g, ims, gr, start, rs, xp, yp)
    requires Extends(rs, xp, yp, d, rs2, xp2, yp2) && |rs2| == |rs| + 1 && |xp2| == |rs2| && |yp2| == |rs2|
    requires AnchoredStep(search, g, ims, gr, start, rs2, xp2, yp2, |rs| - 1)
    ensures AnchoredPath(search, g, ims, gr, start, rs2, xp2, yp2)
  {
    ExtendsLast(g, rs, xp, yp, d, rs2, xp2, yp2);
    forall u | 0 <= u < |rs| - 1
      ensures AnchoredStep(search, g, ims, gr, start, rs2, xp2, yp2, u)
    {
      AnchoredStepKept(search, g, ims, gr, start, rs, xp, yp, d, rs2, xp2, yp2, u);
    }
  }

  /**
   * One anchored step: when the aligner, run against the next frame in the
   * window centred on the last entry, finds `d`, the path extended by `d`
   * is an anchored path.
   */
  lemma AnchoredExtend(search: Aligner, g: Region, ims: seq<Image>, gr: Grid, start: nat,
                       rs: seq<real>, xp: seq<real>, yp: seq<real>, d: Pose,
                       rs2: seq<real>, xp2: seq<real>, yp2: seq<real>)
    requires |ims| >= 1
    requires AnchoredPath(search, g, ims, gr, start, rs, xp, yp)
    requires Extends(rs, xp, yp, d, rs2, xp2, yp2) && start + |rs| < |ims|
    requires search(g, ims[0], ims[start + |rs|], AnchoredWindow(gr, rs, xp, yp, |rs| - 1)) == Aligned(d)
    ensures |rs2| == |rs| + 1 && |xp2| == |rs2| && |yp2| == |rs2|
    ensures AnchoredPath(search, g, ims, gr, start, rs2, xp2, yp2)
  {
    ExtendsLast(g, rs, xp, yp, d, rs2, xp2, yp2);
    ExtendsKeepsWindow(gr, rs, xp, yp, d, rs2, xp2, yp2, |rs| - 1);
    AnchoredPathExtends(search, g, ims, gr, start, rs, xp, yp, d, rs2, xp2, yp2);
  }

  // ---------------------------------------------------------------------
  // Incremental tracking (`seqpath`)

  /** The window of every incremental step: centred on zero. */
  function Origin(gr: Grid): (w: Window)
    ensures w.Ok() == gr.Ok() && w.sr == 0.0 && w.stx == 0.0 && w.sty == 0.0
  {
    gr.At(0.0, 0.0, 0.0)
  }

  /**
   * Incremental step `t` (loop index `k = start + t`): the aligner, run on
   * region `gs[t]`, frame `k` and frame `k + 1` in the window centred on
   * zero, found the delta recorded, and `rodtransform` by that delta gave
   * region `gs[t + 1]`.
   */
  predicate IncrementalStep(search: Aligner, trig: Trig, ims: seq<Image>, gr: Grid, start: nat,
                            gs: seq<Region>, rs: seq<real>, xp: seq<real>, yp: seq<real>, t: nat)
    requires t + 1 < |rs| && |xp| == |rs| && |yp| == |rs| && |gs| == |rs| && gs[t].Shaped()
  {
    var k := start + t;
    var d := Step(rs, xp, yp, t);
    && k + 1 < |ims|
    && search(gs[t], ims[k], ims[k + 1], Origin(gr)) == Aligned(d)
    && gs[t + 1] == Transformed(gs[t], trig, d.rot, d.x, d.y)
  }

  /** Every region of the history has the shape of a region. */
  predicate AllShaped(gs: seq<Region>)
  {
    forall t :: 0 <= t < |gs| ==> gs[t].Shaped()
  }

  /**
   * Every step of the trajectory is an incremental step, `gs` being the
   * regions the tracker held, one per entry, from `g0` on.
   */
  predicate IncrementalPath(search: Aligner, trig: Trig, g0: Region, ims: seq<Image>, gr: Grid, start: nat,
                            gs: seq<Region>, rs: seq<real>, xp: seq<real>, yp: seq<real>)
  {
    && Starts(g0, rs, xp, yp) && |gs| == |rs| && gs[0] == g0 && AllShaped(gs)
    && forall t :: 0 <= t < |rs| - 1 ==> IncrementalStep(search, trig, ims, gr, start, gs, rs, xp, yp, t)
  }

  /** The step after the last entry cannot be taken: no frame pair, or a sample outside a frame. */
  predicate IncrementalBlocked(search: Aligner, ims: seq<Image>, gr: Grid, start: nat, gs: seq<Region>,
                               rs: seq<real>)
    requires |rs| >= 1 && |gs| == |rs|
  {
    var k := start + |rs| - 1;
    k + 1 >= |ims| || !search(gs[|gs| - 1], ims[k], ims[k + 1], Origin(gr)).Aligned?
  }

  /**
   * With the aligner of `diffind`, a blocked incremental step is a missing
   * frame, an empty grid, or a sample outside a frame.
   */
  lemma IncrementalBlockedMeaning(search: Aligner, trig: Trig, ims: seq<Image>, gr: Grid, start: nat,
                                  gs: seq<Region>, rs: seq<real>)
    requires Implements(search, trig)
    requires |rs| >= 1 && |gs| == |rs| && gs[|gs| - 1].Shaped()
    ensures IncrementalBlocked(search, ims, gr, start, gs, rs) <==>
              || start + |rs| >= |ims|
              || !gr.Ok()
              || !Inside(gs[|gs| - 1], ims[start + |rs| - 1], ims[start + |rs|], trig, Origin(gr))
  {
    if start + |rs| < |ims| && gr.Ok() {
      assert BestDelta(gs[|gs| - 1], ims[start + |rs| - 1], ims[start + |rs|], trig, Origin(gr))
          == search(gs[|gs| - 1], ims[start + |rs| - 1], ims[start + |rs|], Origin(gr));
    }
  }

  /** With the aligner of `diffind`, an incremental step is exactly a `BestDelta` search and a transform. */
  lemma IncrementalStepMeaning(search: Aligner, trig: Trig, ims: seq<Image>, gr: Grid, start: nat,
                               gs: seq<Region>, rs: seq<real>, xp: seq<real>, yp: seq<real>, t: nat)
    requires Implements(search, trig)
    requires t + 1 < |rs| && |xp| == |rs| && |yp| == |rs| && |gs| == |rs| && gs[t].Shaped()
    ensures IncrementalStep(search, trig, ims, gr, start, gs, rs, xp, yp, t) <==>
              && start + t + 1 < |ims|
              && gr.Ok()
              && BestDelta(gs[t], ims[start + t], ims[start + t + 1], trig, Origin(gr)) == Aligned(Step(rs, xp, yp, t))
              && gs[t + 1] == Transformed(gs[t], trig, Step(rs, xp, yp, t).rot, Step(rs, xp, yp, t).x, Step(rs, xp, yp, t).y)
  {
    if start + t + 1 < |ims| && gr.Ok() {
      assert BestDelta(gs[t], ims[start + t], ims[start + t + 1], trig, Origin(gr))
          == search(gs[t], ims[start + t], ims[start + t + 1], Origin(gr));
    }
  }

  /** `gs2` is the history `gs` with the last region moved by `d` appended. */
  predicate HistoryExtends(gs: seq<Region>, trig: Trig, d: Pose, gs2: seq<Region>)
  {
    |gs| >= 1 && gs[|gs| - 1].Shaped() && gs2 == gs + [Transformed(gs[|gs| - 1], trig, d.rot, d.x, d.y)]
  }

  /** The extended history keeps the earlier regions and ends with the moved one. */
  lemma HistoryExtendsKeeps(gs: seq<Region>, trig: Trig, d: Pose, gs2: seq<Region>, u: nat)
    requires HistoryExtends(gs, trig, d, gs2) && u < |gs|
    ensures |gs2| == |gs| + 1 && gs2[u] == gs[u]
    ensures gs2[|gs|] == Transformed(gs[|gs| - 1], trig, d.rot, d.x, d.y)
  {
  }

  /** The extended history of a shaped history is shaped. */
  lemma HistoryExtendsShaped(gs: seq<Region>, trig: Trig, d: Pose, gs2: seq<Region>)
    requires HistoryExtends(gs, trig, d, gs2) && AllShaped(gs)
    ensures AllShaped(gs2)
  {
  }

  /** Extending keeps every earlier incremental step. */
  lemma IncrementalStepKept(search: Aligner, trig: Trig, ims: seq<Image>, gr: Grid, start: nat,
                            gs: seq<Region>, rs: seq<real>, xp: seq<real>, yp: seq<real>, d: Pose,
                            gs2: seq<Region>, rs2: seq<real>, xp2: seq<real>, yp2: seq<real>, u: nat)
    requires |gs| == |rs| && u + 1 < |rs| && gs[u].Shaped()
    requires Extends(rs, xp, yp, d, rs2, xp2, yp2) && HistoryExtends(gs, trig, d, gs2)
    requires IncrementalStep(search, trig, ims, gr, start, gs, rs, xp, yp, u)
    ensures |gs2| == |rs2| && gs2[u].Shaped()
    ensures IncrementalStep(search, trig, ims, gr, start, gs2, rs2, xp2, yp2, u)
  {
    ExtendsKeeps(rs, xp, yp, d, rs2, xp2, yp2, u);
    HistoryExtendsKeeps(gs, trig, d, gs2, u);
    HistoryExtendsKeeps(gs, trig, d, gs2, u + 1);
  }

  /** An incremental path extended by an incremental step is an incremental path. */
  lemma IncrementalPathExtends(search: Aligner, trig: Trig, g0: Region, ims: seq<Image>, gr: Grid, start: nat,
                               gs: seq<Region>, rs: seq<real>, xp: seq<real>, yp: seq<real>, d: Pose,
                               gs2: seq<Region>, rs2: seq<real>, xp2: seq<real>, yp2: seq<real>)
    requires IncrementalPath(search, trig, g0, ims, gr, start, gs, rs, xp, yp)
    requires Extends(rs, xp, yp, d, rs2, xp2, yp2) && HistoryExtends(gs, trig, d, gs2)
    requires |rs2| == |rs| + 1 && |xp2| == |rs2| && |yp2| == |rs2| && |gs2| == |rs2| && gs2[|rs| - 1].Shaped()
    requires IncrementalStep(search, trig, ims, gr, start, gs2, rs2, xp2, yp2, |rs| - 1)
    ensures IncrementalPath(search, trig, g0, ims, gr, start, gs2, rs2, xp2, yp2)
  {
    ExtendsLast(g0, rs, xp, yp, d, rs2, xp2, yp2);
    HistoryExtendsShaped(gs, trig, d, gs2);
    HistoryExtendsKeeps(gs, trig, d, gs2, 0);
    forall u | 0 <= u < |rs| - 1
      ensures IncrementalStep(search, trig, ims, gr, start, gs2, rs2, xp2, yp2, u)
    {
      IncrementalStepKept(search, trig, ims, gr, start, gs, rs, xp, yp, d, gs2, rs2, xp2, yp2, u);
    }
  }

  /**
   * One incremental step: when the aligner, run from the last region on the
   * current frame and the next in the window centred on zero, finds `d`,
   * the path extended by `d`, with the history extended by the region moved
   * by `d`, is an incremental path.
   */
  lemma IncrementalExtend(search: Aligner, trig: Trig, g0: Region, ims: seq<Image>, gr: Grid, start: nat,
                          gs: seq<Region>, rs: seq<real>, xp: seq<real>, yp: seq<real>, d: Pose,
                          gs2: seq<Region>, rs2: seq<real>, xp2: seq<real>, yp2: seq<real>)
    requires IncrementalPath(search, trig, g0, ims, gr, start, gs, rs, xp, yp)
    requires Extends(rs, xp, yp, d, rs2, xp2, yp2) && HistoryExtends(gs, trig, d, gs2)
    requires start + |rs| < |ims|
    requires search(gs[|gs| - 1], ims[start + |rs| - 1], ims[start + |rs|], Origin(gr)) == Aligned(d)
    ensures |rs2| == |rs| + 1 && |xp2| == |rs2| && |yp2| == |rs2| && |gs2| == |rs2|
    ensures IncrementalPath(search, trig, g0, ims, gr, start, gs2, rs2, xp2, yp2)
  {
    ExtendsLast(g0, rs, xp, yp, d, rs2, xp2, yp2);
    HistoryExtendsKeeps(gs, trig, d, gs2, |gs| - 1);
    IncrementalPathExtends(search, trig, g0, ims, gr, start, gs, rs, xp, yp, d, gs2, rs2, xp2, yp2);
  }

  /**
   * The region after the first `t` incremental steps, recomputed from the
   * trajectory alone: each step applies `rodtransform` with the delta
   * recorded.
   */
  function Replay(g0: Region, trig: Trig, rs: seq<real>, xp: seq<real>, yp: seq<real>, t: nat): (g: Region)
    requires g0.Shaped() && t < |rs| && |xp| == |rs| && |yp| == |rs|
    ensures g.Shaped() && |g.rr| == |g0.rr|
  {
    if t == 0 then g0
    else
      var d := Step(rs, xp, yp, t - 1);
      Transformed(Replay(g0, trig, rs, xp, yp, t - 1), trig, d.rot, d.x, d.y)
  }

  /** The history of an incremental path is determined by its trajectory. */
  lemma {:induction false} HistoryIsReplay(search: Aligner, trig: Trig, g0: Region, ims: seq<Image>, gr: Grid, start: nat,
                                           gs: seq<Region>, rs: seq<real>, xp: seq<real>, yp: seq<real>, t: nat)
    requires g0.Shaped()
    requires IncrementalPath(search, trig, g0, ims, gr, start, gs, rs, xp, yp) && t < |gs|
    ensures gs[t] == Replay(g0, trig, rs, xp, yp, t)
  {
    if t > 0 {
      HistoryIsReplay(search, trig, g0, ims, gr, start, gs, rs, xp, yp, t - 1);
      assert IncrementalStep(search, trig, ims, gr, start, gs, rs, xp, yp, t - 1);
      var d := Step(rs, xp, yp, t - 1);
      var g := Replay(g0, trig, rs, xp, yp, t - 1);
      assert gs[t] == Transformed(g, trig, d.rot, d.x, d.y);
    }
  }

  // ---------------------------------------------------------------------
  // The tracker object

  class Rod {
    /** The frames, read-only. */
    const ims: seq<Image>
    const trig: Trig
    /** What `Diffind` computes, as an aligner the path specifications refer to. */
    ghost const search: Aligner

    /** The region: pixel rows and columns, centroid, offsets. */
    var rr: seq<real>
    var rc: seq<real>
    var cr: real
    var cc: real
    var dcr: seq<real>
    var dcc: seq<real>

    /** The trajectory: cumulative rotation, x and y. */
    var rs: seq<real>
    var xp: seq<real>
    var yp: seq<real>

    function Current(): Region
      reads this`rr, this`rc, this`cr, this`cc, this`dcr, this`dcc
    {
      Region(rr, rc, cr, cc, dcr, dcc)
    }

    ghost predicate Valid()
      reads this`rr, this`rc, this`cr, this`cc, this`dcr, this`dcc
    {
      |ims| >= 1 && Current().Shaped() && Current().Centred() && Implements(search, trig)
    }

    /**
     * The object after loading the frames and defining the region from the
     * rasterised pixel lists `rr`, `rc`; the trajectory is empty.
     */
    constructor (ims: seq<Image>, trig: Trig, rr: seq<real>, rc: seq<real>)
      requires |ims| >= 1 && |rr| > 0 && |rc| == |rr|
      ensures this.ims == ims && this.trig == trig
      ensures Valid() && Current() == Centre(rr, rc)
      ensures rs == [] && xp == [] && yp == []
    {
      this.ims := ims;
      this.trig := trig;
      this.search := Searcher(trig);
      this.rr := rr;
      this.rc := rc;
      rs, xp, yp := [], [], [];
      new;
      Cent();
    }

    /**
     * `cent`: recompute the centroid and offsets from `rr`, `rc`.  A second
     * call changes nothing.
     */
    method Cent()
      requires |rr| > 0 && |rc| == |rr|
      modifies this`cr, this`cc, this`dcr, this`dcc
      ensures Current() == Centre(rr, rc)
      ensures cr == Mean(rr) && cc == Mean(rc)
      ensures forall i :: 0 <= i < |rr| ==> dcr[i] == rr[i] - cr && rr[i] == cr + dcr[i]
      ensures forall i :: 0 <= i < |rc| ==> dcc[i] == rc[i] - cc && rc[i] == cc + dcc[i]
      ensures Sum(dcr) == 0.0 && Sum(dcc) == 0.0
      ensures old(Current().Centred()) ==> Current() == old(Current())
    {
      cr := Mean(rr);
      cc := Mean(rc);
      dcr := Offsets(rr, cr);
      dcc := Offsets(rc, cc);
      CentredInvariant(Current());
    }

    /**
     * `rodtransform`: rotate the offsets by `rot`, translate by `(tx, ty)`,
     * rewrite the pixel lists about the old centroid, and recentre.
     */
    method RodTransform(rot: real, tx: real, ty: real)
      requires Valid()
      modifies this`rr, this`rc, this`cr, this`cc, this`dcr, this`dcc
      ensures Current() == Transformed(old(Current()), trig, rot, tx, ty)
      ensures Valid()
    {
      ghost var g := Current();
      Place(rot, tx, ty);
      Cent();
      assert Current() == Transformed(g, trig, rot, tx, ty);
    }

    /**
     * The first part of `rodtransform`: the pixel lists become the centroid
     * plus the rotated, translated offsets; centroid and offsets stay.
     */
    method Place(rot: real, tx: real, ty: real)
      requires Current().Shaped()
      modifies this`rr, this`rc
      ensures rr == PlaceRows(old(Current()), trig.cos(rot), trig.sin(rot), ty)
      ensures rc == PlaceCols(old(Current()), trig.cos(rot), trig.sin(rot), tx)
    {
      var corot := trig.cos(rot);
      var sirot := trig.sin(rot);
      var ndcc := Shift(Combine(dcc, dcr, corot, -sirot), tx);
      var ndcr := Shift(Combine(dcc, dcr, sirot, corot), ty);
      rr := Shift(ndcr, cr);
      rc := Shift(ndcc, cc);
    }

    /**
     * `diffind`: score every hypothesis of window `w` (angle outermost, then
     * x, then y) by the mean squared difference between the region's pixels
     * in frame `n` and the transformed pixels in frame `m`, and return the
     * first minimum's delta from the window centre.  A sample outside a frame
     * stops the search with `OutOfBounds`, an empty grid with
     * `NoHypotheses`.  With `Valid()`, the aligner `search` is the one
     * `Implements` pins to `BestDelta`.
     */
    method Diffind(n: nat, m: nat, w: Window) returns (res: Alignment)
      requires Valid() && n < |ims| && m < |ims|
      ensures res == search(Current(), ims[n], ims[m], w)
    {
      var g := Current();
      var f1, f2 := ims[n], ims[m];
      if !w.Ok() {
        return NoHypotheses;
      }
      if !InFrame(f1, TruncAll(rr), TruncAll(rc)) {
        SearchOutside(search, trig, g, f1, f2, w);
        return OutOfBounds;
      }
      var inside, lss, lsr, lsx, lsy := ScanAll(g, f1, f2, trig, w);
      if !inside {
        SearchOutside(search, trig, g, f1, f2, w);
        return OutOfBounds;
      }
      TotalPositive(w);
      var mini := IndexOfMin(lss);
      ScanFinished(search, trig, g, f1, f2, w, lss, lsr, lsx, lsy, mini);
      res := Aligned(Pose(lsr[mini] - w.sr, lsx[mini] - w.stx, lsy[mini] - w.sty));
    }

    /**
     * `seqapath`: track the original region.  Step `k` aligns frame 0 with
     * frame `k + 1`, the window centred on the running estimate; the region
     * is never changed.
     */
    method Seqapath(start: nat, stop: int, gr: Grid) returns (status: Status)
      requires Valid()
      modifies this`rs, this`xp, this`yp
      ensures Current() == old(Current())
      ensures |rs| >= 1 && |xp| == |rs| && |yp| == |rs|
      ensures AnchoredPath(search, Current(), ims, gr, start, rs, xp, yp)
      ensures status.Completed? ==> |rs| == StepCount(start, StopIndex(|ims|, stop)) + 1
      ensures status.Aborted? ==>
                && status.step == start + |rs| - 1 < StopIndex(|ims|, stop)
                && AnchoredBlocked(search, Current(), ims, gr, start, rs, xp, yp)
    {
      ghost var g := Current();
      rs := [0.0];
      xp := [cc];
      yp := [cr];
      var lind := StopIndex(|ims|, stop);
      var k := start;
      status := Completed;
      while k < lind && status.Completed?
        decreases lind - k, if status.Completed? then 1 else 0
        invariant start <= k && (k <= lind || k == start)
        invariant |rs| == k - start + 1 && |xp| == |rs| && |yp| == |rs|
        invariant Valid() && Current() == g
        invariant AnchoredPath(search, g, ims, gr, start, rs, xp, yp)
        invariant status.Aborted? ==> k < lind && status.step == k
                                      && AnchoredBlocked(search, g, ims, gr, start, rs, xp, yp)
      {
        var ok := AnchoredAdvance(g, start, gr, k);
        if ok {
          k := k + 1;
        } else {
          status := Aborted(k);
        }
      }
    }

    /**
     * The body of `seqapath`'s loop at index `k`: align frame 0 with frame
     * `k + 1` in the window centred on the last entry and append the entry
     * advanced by the delta found; `false` when the step cannot be taken.
     */
    method AnchoredAdvance(ghost g: Region, start: nat, gr: Grid, k: nat) returns (ok: bool)
      requires Valid() && Current() == g
      requires |rs| >= 1 && |xp| == |rs| && |yp| == |rs| && k == start + |rs| - 1
      requires AnchoredPath(search, g, ims, gr, start, rs, xp, yp)
      modifies this`rs, this`xp, this`yp
      ensures |xp| == |rs| && |yp| == |rs|
      ensures AnchoredPath(search, g, ims, gr, start, rs, xp, yp)
      ensures ok ==> |rs| == old(|rs|) + 1
      ensures !ok ==> |rs| == old(|rs|) && AnchoredBlocked(search, g, ims, gr, start, rs, xp, yp)
    {
      ok := false;
      if k + 1 < |ims| {
        var a := Diffind(0, k + 1, AnchoredWindow(gr, rs, xp, yp, |rs| - 1));
        if a.Aligned? {
          AnchoredApply(g, start, gr, a.delta);
          ok := true;
        }
      }
    }

    /** A successful anchored step by `d`: append the entry advanced by `d`. */
    method AnchoredApply(ghost g: Region, start: nat, gr: Grid, d: Pose)
      requires |ims| >= 1 && |rs| >= 1 && start + |rs| < |ims|
      requires AnchoredPath(search, g, ims, gr, start, rs, xp, yp)
      requires search(g, ims[0], ims[start + |rs|], AnchoredWindow(gr, rs, xp, yp, |rs| - 1)) == Aligned(d)
      modifies this`rs, this`xp, this`yp
      ensures |rs| == old(|rs|) + 1 && |xp| == |rs| && |yp| == |rs|
      ensures AnchoredPath(search, g, ims, gr, start, rs, xp, yp)
    {
      var rs1 := rs + [rs[|rs| - 1] + d.rot];
      var xp1 := xp + [xp[|rs| - 1] + d.x];
      var yp1 := yp + [yp[|rs| - 1] + d.y];
      AnchoredExtend(search, g, ims, gr, start, rs, xp, yp, d, rs1, xp1, yp1);
      rs, xp, yp := rs1, xp1, yp1;
    }

    /**
     * `seqpath`: track with an update in each step.  Step `k` aligns frame
     * `k` with frame `k + 1`, the window centred on zero, then moves the
     * region by the delta found.  `regions` is the region held at each
     * trajectory entry.
     */
    method Seqpath(start: nat, stop: int, gr: Grid) returns (status: Status, ghost regions: seq<Region>)
      requires Valid()
      modifies this
      ensures Valid()
      ensures |rs| >= 1 && |xp| == |rs| && |yp| == |rs|
      ensures IncrementalPath(search, trig, old(Current()), ims, gr, start, regions, rs, xp, yp)
      ensures Current() == regions[|regions| - 1]
      ensures status.Completed? ==> |rs| == StepCount(start, StopIndex(|ims|, stop)) + 1
      ensures status.Aborted? ==>
                && status.step == start + |rs| - 1 < StopIndex(|ims|, stop)
                && IncrementalBlocked(search, ims, gr, start, regions, rs)
    {
      ghost var g0 := Current();
      rs := [0.0];
      xp := [cc];
      yp := [cr];
      regions := [g0];
      var lind := StopIndex(|ims|, stop);
      var k := start;
      status := Completed;
      while k < lind && status.Completed?
        decreases lind - k, if status.Completed? then 1 else 0
        invariant start <= k && (k <= lind || k == start)
        invariant |rs| == k - start + 1 && |xp| == |rs| && |yp| == |rs|
        invariant Valid()
        invariant IncrementalPath(search, trig, g0, ims, gr, start, regions, rs, xp, yp)
        invariant Current() == regions[|regions| - 1]
        invariant status.Aborted? ==> k < lind && status.step == k
                                      && IncrementalBlocked(search, ims, gr, start, regions, rs)
      {
        var ok;
        ok, regions := IncrementalAdvance(g0, regions, start, gr, k);
        if ok {
          k := k + 1;
        } else {
          status := Aborted(k);
        }
      }
    }

    /**
     * The body of `seqpath`'s loop at index `k`: align frame `k` with frame
     * `k + 1` in the window centred on zero, append the entry advanced by
     * the delta found and move the region by it; `false` when the step
     * cannot be taken.
     */
    method IncrementalAdvance(ghost g0: Region, ghost gs: seq<Region>, start: nat, gr: Grid, k: nat)
      returns (ok: bool, ghost gs': seq<Region>)
      requires Valid()
      requires |rs| >= 1 && k == start + |rs| - 1
      requires IncrementalPath(search, trig, g0, ims, gr, start, gs, rs, xp, yp)
      requires Current() == gs[|gs| - 1]
      modifies this`rr, this`rc, this`cr, this`cc, this`dcr, this`dcc, this`rs, this`xp, this`yp
      ensures Valid() && |xp| == |rs| && |yp| == |rs|
      ensures IncrementalPath(search, trig, g0, ims, gr, start, gs', rs, xp, yp)
      ensures Current() == gs'[|gs'| - 1]
      ensures ok ==> |rs| == old(|rs|) + 1
      ensures !ok ==> |rs| == old(|rs|) && IncrementalBlocked(search, ims, gr, start, gs', rs)
    {
      ok := false;
      gs' := gs;
      if k + 1 < |ims| {
        var a := Diffind(k, k + 1, Origin(gr));
        if a.Aligned? {
          gs' := IncrementalApply(g0, gs, start, gr, a.delta);
          ok := true;
        }
      }
    }

    /**
     * A successful incremental step by `d`: append the entry advanced by `d`
     * and move the region by `d`.
     */
    method IncrementalApply(ghost g0: Region, ghost gs: seq<Region>, start: nat, gr: Grid, d: Pose)
      returns (ghost gs': seq<Region>)
      requires Valid() && |rs| >= 1 && start + |rs| < |ims|
      requires IncrementalPath(search, trig, g0, ims, gr, start, gs, rs, xp, yp)
      requires Current() == gs[|gs| - 1]
      requires search(gs[|gs| - 1], ims[start + |rs| - 1], ims[start + |rs|], Origin(gr)) == Aligned(d)
      modifies this`rr, this`rc, this`cr, this`cc, this`dcr, this`dcc, this`rs, this`xp, this`yp
      ensures Valid() && |rs| == old(|rs|) + 1 && |xp| == |rs| && |yp| == |rs|
      ensures IncrementalPath(search, trig, g0, ims, gr, start, gs', rs, xp, yp)
      ensures Current() == gs'[|gs'| - 1]
    {
      var rs1 := rs + [rs[|rs| - 1] + d.rot];
      var xp1 := xp + [xp[|rs| - 1] + d.x];
      var yp1 := yp + [yp[|rs| - 1] + d.y];
      gs' := gs + [Transformed(gs[|gs| - 1], trig, d.rot, d.x, d.y)];
      IncrementalExtend(search, trig, g0, ims, gr, start, gs, rs, xp, yp, d, gs', rs1, xp1, yp1);
      RodTransform(d.rot, d.x, d.y);
      rs, xp, yp := rs1, xp1, yp1;
    }
  }
}
