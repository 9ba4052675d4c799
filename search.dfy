/**
 * The brute-force aligner's specification: the search grid, the sampling of
 * frames at truncated coordinates, the mean squared difference score, and
 * the first-minimum choice.
 */
module Search {
  import opened Geometry

  /** A rigid pose, or a pose difference: rotation and translation in x and y. */
  datatype Pose = Pose(rot: real, x: real, y: real)

  /**
   * The search window of `diffind`: angular half-range and count, translation
   * half-range and count per axis, and the centre of the window.
   */
  datatype Window = Window(dra: real, nrot: nat, dta: real, nt: nat,
                           sr: real, stx: real, sty: real)
  {
    predicate Ok() { nrot >= 1 && nt >= 1 }
  }

  /**
   * What `diffind` ends with: a delta, or one of the two exceptions it can
   * raise: a sample outside a frame (numpy's index error) or an empty
   * hypothesis grid (`min` of an empty list).
   */
  datatype Alignment = Aligned(delta: Pose) | OutOfBounds | NoHypotheses

  // ---------------------------------------------------------------------
  // The grid

  /** numpy `linspace(lo, hi, n)`: one point gives `[lo]`. */
  function Linspace(lo: real, hi: real, n: nat): (r: seq<real>)
    ensures |r| == n
  {
    if n == 1 then [lo]
    else seq(n, i requires 0 <= i < n => lo + (i as real) * ((hi - lo) / ((n - 1) as real)))
  }

  lemma MulBetween(i: real, m: real, q: real)
    requires 0.0 <= i <= m && 0.0 <= q
    ensures 0.0 <= i * q <= m * q
  {
  }

  /** Every grid point lies in `[lo, hi]`; the ends are `lo` and (for n >= 2) `hi`. */
  lemma LinspaceBounds(lo: real, hi: real, n: nat)
    requires lo <= hi && n >= 1
    ensures var r := Linspace(lo, hi, n);
            && r[0] == lo
            && (n >= 2 ==> r[n - 1] == hi)
            && forall i :: 0 <= i < n ==> lo <= r[i] <= hi
  {
    if n >= 2 {
      var r := Linspace(lo, hi, n);
      var m := (n - 1) as real;
      forall i | 0 <= i < n ensures lo <= r[i] <= hi {
        assert r[i] == lo + (i as real) * ((hi - lo) / m);
        GridPointBetween(lo, hi, i as real, m);
      }
    }
  }

  /** A point `i` steps of `(hi - lo) / m` from `lo`, with `0 <= i <= m`, lies in `[lo, hi]`. */
  lemma GridPointBetween(lo: real, hi: real, i: real, m: real)
    requires lo <= hi && 0.0 <= i <= m && m > 0.0
    ensures lo <= lo + i * ((hi - lo) / m) <= hi
  {
    var q := (hi - lo) / m;
    assert m * q == hi - lo;
    MulBetween(i, m, q);
  }

  /** For an odd number of points symmetric about zero, the middle one is zero. */
  lemma LinspaceMiddle(d: real, n: nat)
    requires n % 2 == 1 && (n == 1 ==> d == 0.0)
    ensures Linspace(-d, d, n)[n / 2] == 0.0
  {
    if n > 1 {
      var h := n / 2;
      assert n - 1 == 2 * h;
      var m := (n - 1) as real;
      assert m == 2.0 * (h as real);
      assert (h as real) * ((d - -d) / m) == d;
    }
  }

  /** The angle steps: `linspace(-dra, dra, nrot)`. */
  function Angles(w: Window): (r: seq<real>)
    ensures |r| == w.nrot
  {
    Linspace(-w.dra, w.dra, w.nrot)
  }

  /** The angles searched: `sr + linspace(-dra, dra, nrot)`. */
  function Rotations(w: Window): (r: seq<real>)
    ensures |r| == w.nrot
  {
    Shift(Angles(w), w.sr)
  }

  /** The translation steps per axis: `linspace(-dta, dta, nt)`. */
  function Steps(w: Window): (r: seq<real>)
    ensures |r| == w.nt
  {
    Linspace(-w.dta, w.dta, w.nt)
  }

  /** The number of hypotheses scored. */
  function Total(w: Window): nat
  {
    w.nrot * w.nt * w.nt
  }

  /** Position of hypothesis (i, j, k) in the enumeration. */
  function Flat(nt: nat, i: nat, j: nat, k: nat): nat
  {
    (i * nt + j) * nt + k
  }

  lemma MulAtLeast(x: int, d: int)
    requires x >= 1 && d > 0
    ensures x * d >= d
  {
  }

  /** A multiple of `d` strictly between `-d` and `d` is zero. */
  lemma SmallMultiple(x: int, d: int)
    requires d > 0 && -d < x * d < d
    ensures x == 0
  {
    if x >= 1 {
      MulAtLeast(x, d);
      assert false;
    } else if x <= -1 {
      MulAtLeast(-x, d);
      assert false;
    }
  }

  lemma DivModUnique(q: int, d: int, a: int, b: int)
    requires d > 0 && 0 <= b < d && q == a * d + b
    ensures q / d == a && q % d == b
  {
    var a', b' := q / d, q % d;
    assert (a - a') * d == b' - b;
    SmallMultiple(a - a', d);
  }

  lemma DivBelow(p: int, d: int, c: int)
    requires d > 0 && 0 <= p < c * d
    ensures 0 <= p / d < c
  {
    var a := p / d;
    assert p == a * d + p % d;
    if a >= c {
      MulAtLeast(a - c + 1, d);
      assert false;
    }
  }

  /**
   * The inverse of `Flat`: the grid position of the `p`-th hypothesis, with
   * rotation outermost, then x, then y.
   */
  function Decode(nrot: nat, nt: nat, p: nat): (ijk: (nat, nat, nat))
    requires nt >= 1 && p < nrot * nt * nt
    ensures ijk.0 < nrot && ijk.1 < nt && ijk.2 < nt
    ensures Flat(nt, ijk.0, ijk.1, ijk.2) == p
  {
    DivBelow(p, nt, nrot * nt);
    DivBelow(p / nt, nt, nrot);
    assert p == (p / nt) * nt + p % nt;
    assert p / nt == ((p / nt) / nt) * nt + (p / nt) % nt;
    ((p / nt) / nt, (p / nt) % nt, p % nt)
  }

  /** Finishing the innermost loop moves to the next `j`; finishing `j` moves to the next `i`. */
  lemma FlatCarry(nt: nat, i: nat, j: nat)
    ensures Flat(nt, i, j, nt) == Flat(nt, i, j + 1, 0)
    ensures Flat(nt, i, nt, 0) == Flat(nt, i + 1, 0, 0)
    ensures Flat(nt, i, 0, 0) == i * nt * nt
  {
    assert (i * nt + j) * nt + nt == (i * nt + j + 1) * nt;
    assert (i * nt + nt) * nt == ((i + 1) * nt) * nt;
  }

  lemma MulMonotone(x: int, y: int, d: int)
    requires x <= y && d >= 0
    ensures x * d <= y * d
  {
  }

  /** `Decode` and `Flat` are mutually inverse on the grid. */
  lemma DecodeFlat(nrot: nat, nt: nat, i: nat, j: nat, k: nat)
    requires i < nrot && j < nt && k < nt
    ensures Flat(nt, i, j, k) < nrot * nt * nt
    ensures Decode(nrot, nt, Flat(nt, i, j, k)) == (i, j, k)
  {
    var row := i * nt + j;
    assert (i + 1) * nt == i * nt + nt;
    MulMonotone(i + 1, nrot, nt);
    assert row + 1 <= nrot * nt;
    var p := row * nt + k;
    assert (row + 1) * nt == row * nt + nt;
    MulMonotone(row + 1, nrot * nt, nt);
    assert p < nrot * nt * nt;
    DivModUnique(p, nt, row, k);
    DivModUnique(row, nt, i, j);
  }

  /** The `p`-th hypothesis: `(rots[i], stx + tt[j], sty + tt[k])`. */
  function HypAt(w: Window, p: nat): Pose
    requires w.Ok() && p < Total(w)
  {
    var (i, j, k) := Decode(w.nrot, w.nt, p);
    Pose(Rotations(w)[i], w.stx + Steps(w)[j], w.sty + Steps(w)[k])
  }

  /** The delta `diffind` returns for hypothesis `p`: the hypothesis minus the window centre. */
  function DeltaAt(w: Window, p: nat): Pose
    requires w.Ok() && p < Total(w)
  {
    var h := HypAt(w, p);
    Pose(h.rot - w.sr, h.x - w.stx, h.y - w.sty)
  }

  /**
   * Enumeration order: entry `(i*nt + j)*nt + k` of the score list belongs to
   * `(rots[i], stx + tt[j], sty + tt[k])`, and its delta is grid point
   * `(i, j, k)` of the window's linspaces.
   */
  lemma EnumerationOrder(w: Window, i: nat, j: nat, k: nat)
    requires w.Ok() && i < w.nrot && j < w.nt && k < w.nt
    ensures Flat(w.nt, i, j, k) < Total(w)
    ensures HypAt(w, Flat(w.nt, i, j, k))
         == Pose(w.sr + Angles(w)[i], w.stx + Steps(w)[j], w.sty + Steps(w)[k])
    ensures DeltaAt(w, Flat(w.nt, i, j, k)) == Pose(Angles(w)[i], Steps(w)[j], Steps(w)[k])
  {
    DecodeFlat(w.nrot, w.nt, i, j, k);
  }

  /**
   * Every delta lies on the window's grid, so within `[-dra, dra]` and
   * `[-dta, dta]`.
   */
  lemma DeltaInWindow(w: Window, p: nat)
    requires w.Ok() && p < Total(w)
    ensures var d := DeltaAt(w, p);
            && (exists i :: 0 <= i < w.nrot && d.rot == Angles(w)[i])
            && (exists j :: 0 <= j < w.nt && d.x == Steps(w)[j])
            && (exists k :: 0 <= k < w.nt && d.y == Steps(w)[k])
            && (w.dra >= 0.0 ==> -w.dra <= d.rot <= w.dra)
            && (w.dta >= 0.0 ==> -w.dta <= d.x <= w.dta && -w.dta <= d.y <= w.dta)
  {
    var (i, j, k) := Decode(w.nrot, w.nt, p);
    var d := DeltaAt(w, p);
    assert d.rot == Angles(w)[i] && d.x == Steps(w)[j] && d.y == Steps(w)[k];
    if w.dra >= 0.0 {
      LinspaceBounds(-w.dra, w.dra, w.nrot);
    }
    if w.dta >= 0.0 {
      LinspaceBounds(-w.dta, w.dta, w.nt);
    }
  }

  // ---------------------------------------------------------------------
  // Sampling and scoring

  /** `array(x, dtype=int)`: truncation toward zero. */
  function Trunc(x: real): (r: int)
    ensures x >= 0.0 ==> r as real <= x < r as real + 1.0
    ensures x < 0.0 ==> r as real - 1.0 < x <= r as real
  {
    if x >= 0.0 then x.Floor else -((-x).Floor)
  }

  function TruncAll(s: seq<real>): (r: seq<int>)
    ensures |r| == |s|
  {
    seq(|s|, i requires 0 <= i < |s| => Trunc(s[i]))
  }

  /** A grey-level frame: `f[r][c]` is the pixel in row `r`, column `c`. */
  type Image = seq<seq<real>>

  /** Every sample coordinate `(rows[i], cols[i])` lies inside frame `f`. */
  predicate InFrame(f: Image, rows: seq<int>, cols: seq<int>)
  {
    |rows| == |cols|
    && forall i :: 0 <= i < |rows| ==> 0 <= rows[i] < |f| && 0 <= cols[i] < |f[rows[i]]|
  }

  /** numpy fancy indexing `f[rows, cols]`. */
  function Sample(f: Image, rows: seq<int>, cols: seq<int>): (v: seq<real>)
    requires InFrame(f, rows, cols)
    ensures |v| == |rows|
  {
    seq(|rows|, i requires 0 <= i < |rows| => f[rows[i]][cols[i]])
  }

  /** `(a - b)**2`, element-wise. */
  function SquaredDiff(a: seq<real>, b: seq<real>): (r: seq<real>)
    requires |a| == |b|
    ensures |r| == |a|
  {
    seq(|a|, i requires 0 <= i < |a| => (a[i] - b[i]) * (a[i] - b[i]))
  }

  /**
   * `mean((f1[r, c] - f2[rr, rc])**2)`: the mean squared difference between
   * two samples, which is never negative, and zero when the two samples agree.
   */
  function Score(f1: Image, r: seq<int>, c: seq<int>,
                 f2: Image, rr: seq<int>, rc: seq<int>): (s: real)
    requires |r| > 0 && |rr| == |r|
    requires InFrame(f1, r, c) && InFrame(f2, rr, rc)
    ensures s >= 0.0
    ensures Sample(f1, r, c) == Sample(f2, rr, rc) ==> s == 0.0
  {
    MeanSquaredDiff(Sample(f1, r, c), Sample(f2, rr, rc));
    Mean(SquaredDiff(Sample(f1, r, c), Sample(f2, rr, rc)))
  }

  lemma MeanSquaredDiff(a: seq<real>, b: seq<real>)
    requires |a| == |b| && |a| > 0
    ensures Mean(SquaredDiff(a, b)) >= 0.0
    ensures a == b ==> Mean(SquaredDiff(a, b)) == 0.0
  {
    var d := SquaredDiff(a, b);
    SumNonNegative(d);
    if a == b {
      SumOfZeros(d);
    }
  }

  lemma {:induction false} SumOfZeros(s: seq<real>)
    requires forall i :: 0 <= i < |s| ==> s[i] == 0.0
    ensures Sum(s) == 0.0
  {
    if |s| > 0 {
      SumOfZeros(s[1..]);
    }
  }

  /** The reference sample: the region's own pixels, truncated. */
  predicate RefInside(g: Region, f: Image)
  {
    InFrame(f, TruncAll(g.rr), TruncAll(g.rc))
  }

  /** Candidate rows of hypothesis `h`: the placed offsets, truncated. */
  function CandRows(g: Region, trig: Trig, h: Pose): (r: seq<int>)
    requires g.Shaped()
    ensures |r| == |g.rr|
  {
    TruncAll(PlaceRows(g, trig.cos(h.rot), trig.sin(h.rot), h.y))
  }

  function CandCols(g: Region, trig: Trig, h: Pose): (r: seq<int>)
    requires g.Shaped()
    ensures |r| == |g.rc|
  {
    TruncAll(PlaceCols(g, trig.cos(h.rot), trig.sin(h.rot), h.x))
  }

  predicate CandInside(g: Region, f: Image, trig: Trig, h: Pose)
    requires g.Shaped()
  {
    InFrame(f, CandRows(g, trig, h), CandCols(g, trig, h))
  }

  /** The policy for sampling outside a frame: the search needs every sample inside. */
  predicate Inside(g: Region, f1: Image, f2: Image, trig: Trig, w: Window)
    requires g.Shaped() && w.Ok()
  {
    RefInside(g, f1) && forall p :: 0 <= p < Total(w) ==> CandInside(g, f2, trig, HypAt(w, p))
  }

  /** The score of hypothesis `h`: reference in `f1` against candidate in `f2`. */
  function PoseScore(g: Region, f1: Image, f2: Image, trig: Trig, h: Pose): real
    requires g.Shaped() && RefInside(g, f1) && CandInside(g, f2, trig, h)
  {
    Score(f1, TruncAll(g.rr), TruncAll(g.rc), f2, CandRows(g, trig, h), CandCols(g, trig, h))
  }

  /** The score of the `p`-th hypothesis. */
  function ScoreAt(g: Region, f1: Image, f2: Image, trig: Trig, w: Window, p: nat): real
    requires g.Shaped() && w.Ok() && p < Total(w)
    requires RefInside(g, f1) && CandInside(g, f2, trig, HypAt(w, p))
  {
    PoseScore(g, f1, f2, trig, HypAt(w, p))
  }

  /**
   * The first `|lss|` entries of the score and hypothesis lists, as the
   * enumeration produces them.
   */
  ghost predicate ScoredPrefix(g: Region, f1: Image, f2: Image, trig: Trig, w: Window,
                               lss: seq<real>, lsr: seq<real>, lsx: seq<real>, lsy: seq<real>)
    requires g.Shaped() && w.Ok() && RefInside(g, f1)
  {
    && |lss| <= Total(w) && |lsr| == |lss| && |lsx| == |lss| && |lsy| == |lss|
    && forall p :: 0 <= p < |lss| ==>
         CandInside(g, f2, trig, HypAt(w, p))
         && lss[p] == ScoreAt(g, f1, f2, trig, w, p)
         && Pose(lsr[p], lsx[p], lsy[p]) == HypAt(w, p)
  }

  /**
   * The body of the innermost loop at `(i, j, k)`: hypothesis
   * `(rot, tx, ty)`, the next in the enumeration, puts its candidate pixels
   * either outside the frame, and then the whole search is out of bounds,
   * or inside, and then its score extends the prefix.
   */
  lemma ScanStep(g: Region, f1: Image, f2: Image, trig: Trig, w: Window,
                 lss: seq<real>, lsr: seq<real>, lsx: seq<real>, lsy: seq<real>,
                 i: nat, j: nat, k: nat, rot: real, tx: real, ty: real)
    requires g.Shaped() && w.Ok() && RefInside(g, f1)
    requires ScoredPrefix(g, f1, f2, trig, w, lss, lsr, lsx, lsy)
    requires i < w.nrot && j < w.nt && k < w.nt && |lss| == Flat(w.nt, i, j, k)
    requires rot == Rotations(w)[i] && tx == w.stx + Steps(w)[j] && ty == w.sty + Steps(w)[k]
    ensures |lss| < Total(w) && HypAt(w, |lss|) == Pose(rot, tx, ty)
    ensures var crr := TruncAll(PlaceRows(g, trig.cos(rot), trig.sin(rot), ty));
            var crc := TruncAll(PlaceCols(g, trig.cos(rot), trig.sin(rot), tx));
            && (!InFrame(f2, crr, crc) ==> !Inside(g, f1, f2, trig, w))
            && (InFrame(f2, crr, crc) ==>
                  ScoredPrefix(g, f1, f2, trig, w, lss + [Score(f1, TruncAll(g.rr), TruncAll(g.rc), f2, crr, crc)],
                               lsr + [rot], lsx + [tx], lsy + [ty]))
  {
    EnumerationOrder(w, i, j, k);
    var n := |lss|;
    var h := Pose(rot, tx, ty);
    assert HypAt(w, n) == h;
    var crr := TruncAll(PlaceRows(g, trig.cos(rot), trig.sin(rot), ty));
    var crc := TruncAll(PlaceCols(g, trig.cos(rot), trig.sin(rot), tx));
    assert crr == CandRows(g, trig, h) && crc == CandCols(g, trig, h);
    if InFrame(f2, crr, crc) {
      var v := Score(f1, TruncAll(g.rr), TruncAll(g.rc), f2, crr, crc);
      assert v == ScoreAt(g, f1, f2, trig, w, n);
      var lss', lsr', lsx', lsy' := lss + [v], lsr + [rot], lsx + [tx], lsy + [ty];
      forall p | 0 <= p < |lss'|
        ensures CandInside(g, f2, trig, HypAt(w, p))
             && lss'[p] == ScoreAt(g, f1, f2, trig, w, p)
             && Pose(lsr'[p], lsx'[p], lsy'[p]) == HypAt(w, p)
      {
        if p < n {
          assert lss'[p] == lss[p] && lsr'[p] == lsr[p] && lsx'[p] == lsx[p] && lsy'[p] == lsy[p];
        }
      }
      assert ScoredPrefix(g, f1, f2, trig, w, lss', lsr', lsx', lsy');
    } else {
      assert !CandInside(g, f2, trig, HypAt(w, n));
    }
  }

  /**
   * The two inner loops of `diffind` for angle index `i`: score every shift
   * `(tx, ty)`, x outermost, appending to the lists; `false` as soon as a
   * sample falls outside the frame, and then the whole search is out of
   * bounds.
   */
  method ScanAngle(g: Region, f1: Image, f2: Image, trig: Trig, w: Window, i: nat,
                   lss: seq<real>, lsr: seq<real>, lsx: seq<real>, lsy: seq<real>)
    returns (inside: bool, lss': seq<real>, lsr': seq<real>, lsx': seq<real>, lsy': seq<real>)
    requires g.Shaped() && w.Ok() && RefInside(g, f1) && i < w.nrot
    requires ScoredPrefix(g, f1, f2, trig, w, lss, lsr, lsx, lsy) && |lss| == Flat(w.nt, i, 0, 0)
    ensures inside ==> ScoredPrefix(g, f1, f2, trig, w, lss', lsr', lsx', lsy') && |lss'| == Flat(w.nt, i + 1, 0, 0)
    ensures !inside ==> !Inside(g, f1, f2, trig, w)
  {
    var r := TruncAll(g.rr);
    var c := TruncAll(g.rc);
    var tt := Steps(w);
    var rot := Rotations(w)[i];
    var corot := trig.cos(rot);
    var sirot := trig.sin(rot);
    lss', lsr', lsx', lsy' := lss, lsr, lsx, lsy;
    var j := 0;
    FlatCarry(w.nt, i, 0);
    while j < w.nt
      invariant 0 <= j <= w.nt
      invariant |lss'| == Flat(w.nt, i, j, 0)
      invariant ScoredPrefix(g, f1, f2, trig, w, lss', lsr', lsx', lsy')
    {
      var tx := w.stx + tt[j];
      var k := 0;
      while k < w.nt
        invariant 0 <= k <= w.nt
        invariant |lss'| == Flat(w.nt, i, j, k)
        invariant ScoredPrefix(g, f1, f2, trig, w, lss', lsr', lsx', lsy')
      {
        var ty := w.sty + tt[k];
        var crr := TruncAll(PlaceRows(g, corot, sirot, ty));
        var crc := TruncAll(PlaceCols(g, corot, sirot, tx));
        ScanStep(g, f1, f2, trig, w, lss', lsr', lsx', lsy', i, j, k, rot, tx, ty);
        if !InFrame(f2, crr, crc) {
          return false, lss', lsr', lsx', lsy';
        }
        lss' := lss' + [Score(f1, r, c, f2, crr, crc)];
        lsr' := lsr' + [rot];
        lsx' := lsx' + [tx];
        lsy' := lsy' + [ty];
        k := k + 1;
      }
      FlatCarry(w.nt, i, j);
      j := j + 1;
    }
    FlatCarry(w.nt, i + 1, 0);
    inside := true;
  }

  /**
   * The three loops of `diffind`: score every hypothesis of the window in
   * enumeration order; `false` as soon as a sample falls outside a frame.
   */
  method ScanAll(g: Region, f1: Image, f2: Image, trig: Trig, w: Window)
    returns (inside: bool, lss: seq<real>, lsr: seq<real>, lsx: seq<real>, lsy: seq<real>)
    requires g.Shaped() && w.Ok() && RefInside(g, f1)
    ensures inside ==> ScoredPrefix(g, f1, f2, trig, w, lss, lsr, lsx, lsy) && |lss| == Total(w)
    ensures !inside ==> !Inside(g, f1, f2, trig, w)
  {
    lss, lsr, lsx, lsy := [], [], [], [];
    var i := 0;
    while i < w.nrot
      invariant 0 <= i <= w.nrot
      invariant |lss| == Flat(w.nt, i, 0, 0)
      invariant ScoredPrefix(g, f1, f2, trig, w, lss, lsr, lsx, lsy)
    {
      inside, lss, lsr, lsx, lsy := ScanAngle(g, f1, f2, trig, w, i, lss, lsr, lsx, lsy);
      if !inside {
        return;
      }
      i := i + 1;
    }
    inside := true;
  }

  /** The scores of all hypotheses, in enumeration order: the list `lss`. */
  function Scores(g: Region, f1: Image, f2: Image, trig: Trig, w: Window): (s: seq<real>)
    requires g.Shaped() && w.Ok() && Inside(g, f1, f2, trig, w)
    ensures |s| == Total(w)
  {
    seq(Total(w), p requires 0 <= p < Total(w) => ScoreAt(g, f1, f2, trig, w, p))
  }

  /** A prefix covering every hypothesis: every sample was inside and the list is `Scores`. */
  lemma ScoredComplete(g: Region, f1: Image, f2: Image, trig: Trig, w: Window,
                       lss: seq<real>, lsr: seq<real>, lsx: seq<real>, lsy: seq<real>)
    requires g.Shaped() && w.Ok() && RefInside(g, f1)
    requires ScoredPrefix(g, f1, f2, trig, w, lss, lsr, lsx, lsy) && |lss| == Total(w)
    ensures Inside(g, f1, f2, trig, w)
    ensures lss == Scores(g, f1, f2, trig, w)
  {
  }

  // ---------------------------------------------------------------------
  // The first minimum, `lss.index(min(lss))`

  /** `p` is `s.index(min(s))`: at most every entry and strictly below every earlier one. */
  predicate IsFirstMin(s: seq<real>, p: nat)
  {
    && p < |s|
    && (forall q :: 0 <= q < |s| ==> s[p] <= s[q])
    && (forall q :: 0 <= q < p ==> s[p] < s[q])
  }

  /** The first minimum is unique. */
  lemma FirstMinUnique(s: seq<real>, p: nat, q: nat)
    requires IsFirstMin(s, p) && IsFirstMin(s, q)
    ensures p == q
  {
    var sp, sq := s[p], s[q];
    if p < q {
      assert false;
    } else if q < p {
      assert false;
    }
  }

  /**
   * The first minimum by a left-to-right scan that moves only on a strictly
   * smaller entry.
   */
  function ArgMin(s: seq<real>): (p: nat)
    requires |s| > 0
    ensures p < |s|
    decreases |s|
  {
    if |s| == 1 then 0
    else
      var n := |s| - 1;
      var p := ArgMin(s[..n]);
      if s[n] < s[p] then n else p
  }

  lemma {:induction false} ArgMinIsFirstMin(s: seq<real>)
    requires |s| > 0
    ensures IsFirstMin(s, ArgMin(s))
    decreases |s|
  {
    if |s| > 1 {
      var n := |s| - 1;
      ArgMinIsFirstMin(s[..n]);
      var p := ArgMin(s[..n]);
      assert forall q :: 0 <= q < n ==> s[..n][q] == s[q];
    }
  }

  /** A position is the first minimum exactly when it is `ArgMin`. */
  lemma ArgMinCharacterised(s: seq<real>, p: nat)
    requires |s| > 0
    ensures IsFirstMin(s, p) <==> p == ArgMin(s)
  {
    ArgMinIsFirstMin(s);
    if IsFirstMin(s, p) {
      FirstMinUnique(s, p, ArgMin(s));
    }
  }

  /** Python `min` over a non-empty list. */
  method MinOf(s: seq<real>) returns (v: real)
    requires |s| > 0
    ensures v in s
    ensures forall i :: 0 <= i < |s| ==> v <= s[i]
  {
    v := s[0];
    var i := 1;
    while i < |s|
      invariant 1 <= i <= |s|
      invariant v in s[..i]
      invariant forall j :: 0 <= j < i ==> v <= s[j]
    {
      if s[i] < v {
        v := s[i];
      }
      i := i + 1;
    }
  }

  /** Python `list.index`: the first position holding `v`. */
  method IndexOf(s: seq<real>, v: real) returns (k: nat)
    requires v in s
    ensures k < |s| && s[k] == v
    ensures forall j :: 0 <= j < k ==> s[j] != v
  {
    k := 0;
    while s[k] != v
      invariant k < |s|
      invariant v in s[k..]
      invariant forall j :: 0 <= j < k ==> s[j] != v
      decreases |s| - k
    {
      k := k + 1;
    }
  }

  /** `lss.index(min(lss))`: the two scans find the first minimum. */
  method IndexOfMin(s: seq<real>) returns (k: nat)
    requires |s| > 0
    ensures IsFirstMin(s, k) && k == ArgMin(s)
  {
    var v := MinOf(s);
    k := IndexOf(s, v);
    forall q | 0 <= q < k ensures s[k] < s[q] {
      assert s[q] != v && v <= s[q];
    }
    ArgMinCharacterised(s, k);
  }

  lemma TotalPositive(w: Window)
    requires w.Ok()
    ensures Total(w) >= 1
  {
    MulAtLeast(w.nrot, w.nt);
    MulAtLeast(w.nrot * w.nt, w.nt);
  }

  /** The hypothesis `diffind` picks: the first minimum of the scores. */
  function FirstMin(g: Region, f1: Image, f2: Image, trig: Trig, w: Window): (p: nat)
    requires g.Shaped() && w.Ok() && Inside(g, f1, f2, trig, w)
    ensures p < Total(w)
  {
    TotalPositive(w);
    ArgMin(Scores(g, f1, f2, trig, w))
  }

  /**
   * What `diffind` returns: the delta of the first minimum from the window
   * centre, or `OutOfBounds` when a sample falls outside a frame.
   */
  function BestDelta(g: Region, f1: Image, f2: Image, trig: Trig, w: Window): Alignment
    requires g.Shaped() && w.Ok()
  {
    if Inside(g, f1, f2, trig, w) then Aligned(DeltaAt(w, FirstMin(g, f1, f2, trig, w)))
    else OutOfBounds
  }

  /**
   * A complete scan: every sample was inside, the list is `Scores`, and the
   * hypothesis lists hold the hypothesis of the position `mini`.
   */
  lemma CompleteScan(g: Region, f1: Image, f2: Image, trig: Trig, w: Window,
                     lss: seq<real>, lsr: seq<real>, lsx: seq<real>, lsy: seq<real>, mini: nat)
    requires g.Shaped() && w.Ok() && RefInside(g, f1)
    requires ScoredPrefix(g, f1, f2, trig, w, lss, lsr, lsx, lsy) && |lss| == Total(w)
    requires mini < |lss|
    ensures Inside(g, f1, f2, trig, w) && lss == Scores(g, f1, f2, trig, w)
    ensures mini < Total(w) && mini < |lsr| && mini < |lsx| && mini < |lsy|
    ensures Pose(lsr[mini], lsx[mini], lsy[mini]) == HypAt(w, mini)
  {
    ScoredComplete(g, f1, f2, trig, w, lss, lsr, lsx, lsy);
  }

  /**
   * A search whose scores are `s`, with first minimum `p` holding hypothesis
   * `h`, returns the delta of `h` from the window centre.
   */
  lemma BestDeltaOfScan(g: Region, f1: Image, f2: Image, trig: Trig, w: Window, s: seq<real>, p: nat, h: Pose)
    requires g.Shaped() && w.Ok() && Inside(g, f1, f2, trig, w)
    requires s == Scores(g, f1, f2, trig, w) && IsFirstMin(s, p) && p < Total(w) && HypAt(w, p) == h
    ensures BestDelta(g, f1, f2, trig, w) == Aligned(Pose(h.rot - w.sr, h.x - w.stx, h.y - w.sty))
  {
    BestDeltaAt(g, f1, f2, trig, w, s, p);
    DeltaOfHyp(w, p, h);
  }

  lemma DeltaOfHyp(w: Window, p: nat, h: Pose)
    requires w.Ok() && p < Total(w) && HypAt(w, p) == h
    ensures DeltaAt(w, p) == Pose(h.rot - w.sr, h.x - w.stx, h.y - w.sty)
  {
  }

  /** Where every sample is inside, the search returns the delta of the first minimum. */
  lemma BestDeltaAt(g: Region, f1: Image, f2: Image, trig: Trig, w: Window, s: seq<real>, p: nat)
    requires g.Shaped() && w.Ok() && Inside(g, f1, f2, trig, w)
    requires s == Scores(g, f1, f2, trig, w) && IsFirstMin(s, p)
    ensures p < Total(w) && BestDelta(g, f1, f2, trig, w) == Aligned(DeltaAt(w, p))
  {
    ArgMinCharacterised(s, p);
  }

  /**
   * The search fails exactly when a sample is outside a frame.  Otherwise it
   * picks the unique first minimum of the scores, and its delta is a point
   * of the window's grid.
   */
  lemma BestDeltaMeaning(g: Region, f1: Image, f2: Image, trig: Trig, w: Window)
    requires g.Shaped() && w.Ok()
    ensures BestDelta(g, f1, f2, trig, w).OutOfBounds? <==> !Inside(g, f1, f2, trig, w)
    ensures Inside(g, f1, f2, trig, w) ==>
              forall q :: IsFirstMin(Scores(g, f1, f2, trig, w), q) <==> q == FirstMin(g, f1, f2, trig, w)
    ensures BestDelta(g, f1, f2, trig, w).Aligned? ==>
              var d := BestDelta(g, f1, f2, trig, w).delta;
              && (w.dra >= 0.0 ==> -w.dra <= d.rot <= w.dra)
              && (w.dta >= 0.0 ==> -w.dta <= d.x <= w.dta && -w.dta <= d.y <= w.dta)
  {
    if Inside(g, f1, f2, trig, w) {
      var s := Scores(g, f1, f2, trig, w);
      var p := FirstMin(g, f1, f2, trig, w);
      forall q ensures IsFirstMin(s, q) <==> q == p {
        ArgMinCharacterised(s, q);
      }
      DeltaInWindow(w, p);
    }
  }

  /**
   * The score of the chosen hypothesis is at most every hypothesis's score
   * and strictly below the score of every hypothesis enumerated before it.
   */
  lemma FirstMinScores(g: Region, f1: Image, f2: Image, trig: Trig, w: Window, q: nat)
    requires g.Shaped() && w.Ok() && Inside(g, f1, f2, trig, w) && q < Total(w)
    ensures ScoreAt(g, f1, f2, trig, w, FirstMin(g, f1, f2, trig, w)) <= ScoreAt(g, f1, f2, trig, w, q)
    ensures q < FirstMin(g, f1, f2, trig, w) ==>
              ScoreAt(g, f1, f2, trig, w, FirstMin(g, f1, f2, trig, w)) < ScoreAt(g, f1, f2, trig, w, q)
  {
    var s := Scores(g, f1, f2, trig, w);
    var p := FirstMin(g, f1, f2, trig, w);
    ArgMinIsFirstMin(s);
    assert s[p] == ScoreAt(g, f1, f2, trig, w, p) && s[q] == ScoreAt(g, f1, f2, trig, w, q);
  }

  /** Position of the middle hypothesis of the grid. */
  function Middle(w: Window): nat
  {
    Flat(w.nt, w.nrot / 2, w.nt / 2, w.nt / 2)
  }

  /** The middle hypothesis of a window centred on zero with odd grids is the zero pose. */
  lemma ZeroHypothesis(w: Window)
    requires w.Ok() && w.sr == 0.0 && w.stx == 0.0 && w.sty == 0.0
    requires w.nrot % 2 == 1 && (w.nrot == 1 ==> w.dra == 0.0)
    requires w.nt % 2 == 1 && (w.nt == 1 ==> w.dta == 0.0)
    ensures Middle(w) < Total(w) && HypAt(w, Middle(w)) == Pose(0.0, 0.0, 0.0)
  {
    var i, j := w.nrot / 2, w.nt / 2;
    EnumerationOrder(w, i, j, j);
    LinspaceMiddle(w.dra, w.nrot);
    LinspaceMiddle(w.dta, w.nt);
  }

  /**
   * A frame searched against itself, from a centred region, with a window
   * centred on zero whose grids have an odd number of points: the middle
   * hypothesis is the zero pose and scores zero, so the first minimum
   * scores zero too.
   */
  lemma SelfAlignmentScoresZero(g: Region, f: Image, trig: Trig, w: Window)
    requires ZeroAngle(trig) && g.Shaped() && g.Centred()
    requires w.Ok() && w.sr == 0.0 && w.stx == 0.0 && w.sty == 0.0
    requires w.nrot % 2 == 1 && (w.nrot == 1 ==> w.dra == 0.0)
    requires w.nt % 2 == 1 && (w.nt == 1 ==> w.dta == 0.0)
    requires Inside(g, f, f, trig, w)
    ensures Middle(w) < Total(w) && ScoreAt(g, f, f, trig, w, Middle(w)) == 0.0
    ensures ScoreAt(g, f, f, trig, w, FirstMin(g, f, f, trig, w)) == 0.0
  {
    ZeroHypothesis(w);
    var z := Middle(w);
    var h := HypAt(w, z);
    assert trig.cos(h.rot) == 1.0 && trig.sin(h.rot) == 0.0 && h.x == 0.0 && h.y == 0.0;
    PlaceZeroAngle(g, 0.0, 0.0);
    var r, c := TruncAll(g.rr), TruncAll(g.rc);
    assert CandRows(g, trig, h) == r;
    assert CandCols(g, trig, h) == c;
    assert ScoreAt(g, f, f, trig, w, z) == Score(f, r, c, f, r, c);
    assert ScoreAt(g, f, f, trig, w, z) == 0.0;
    var s := Scores(g, f, f, trig, w);
    var p := FirstMin(g, f, f, trig, w);
    ArgMinIsFirstMin(s);
    assert s[p] <= s[z];
  }

  /** A frame whose every pixel has the grey level `v`. */
  predicate Uniform(f: Image, v: real)
  {
    forall r, c :: 0 <= r < |f| && 0 <= c < |f[r]| ==> f[r][c] == v
  }

  /**
   * On a uniform frame searched against itself every hypothesis scores zero,
   * so the tie goes to the first hypothesis enumerated: the search returns
   * `(-dra, -dta, -dta)`, whatever the window centre.
   */
  lemma UniformFrameTiesToFirst(g: Region, f: Image, v: real, trig: Trig, w: Window)
    requires g.Shaped() && w.Ok() && Uniform(f, v) && Inside(g, f, f, trig, w)
    ensures BestDelta(g, f, f, trig, w) == Aligned(Pose(-w.dra, -w.dta, -w.dta))
  {
    var s := Scores(g, f, f, trig, w);
    var r, c := TruncAll(g.rr), TruncAll(g.rc);
    forall p | 0 <= p < Total(w) ensures s[p] == 0.0 {
      var h := HypAt(w, p);
      var a, b := Sample(f, r, c), Sample(f, CandRows(g, trig, h), CandCols(g, trig, h));
      assert forall q :: 0 <= q < |a| ==> a[q] == v;
      assert forall q :: 0 <= q < |b| ==> b[q] == v;
      assert a == b;
    }
    TotalPositive(w);
    assert IsFirstMin(s, 0);
    BestDeltaAt(g, f, f, trig, w, s, 0);
    EnumerationOrder(w, 0, 0, 0);
    assert Angles(w)[0] == -w.dra && Steps(w)[0] == -w.dta;
  }

  /**
   * Self-alignment returns the zero delta exactly when the tie-break lets
   * it: if every hypothesis enumerated before the middle one scores above
   * zero, the search of a frame against itself returns `(0, 0, 0)`.
   */
  lemma SelfAlignmentZeroDelta(g: Region, f: Image, trig: Trig, w: Window)
    requires ZeroAngle(trig) && g.Shaped() && g.Centred()
    requires w.Ok() && w.sr == 0.0 && w.stx == 0.0 && w.sty == 0.0
    requires w.nrot % 2 == 1 && (w.nrot == 1 ==> w.dra == 0.0)
    requires w.nt % 2 == 1 && (w.nt == 1 ==> w.dta == 0.0)
    requires Inside(g, f, f, trig, w)
    requires forall q :: 0 <= q < Middle(w) && q < Total(w) ==> ScoreAt(g, f, f, trig, w, q) > 0.0
    ensures BestDelta(g, f, f, trig, w) == Aligned(Pose(0.0, 0.0, 0.0))
  {
    SelfAlignmentScoresZero(g, f, trig, w);
    var z := Middle(w);
    var s := Scores(g, f, f, trig, w);
    assert s[z] == 0.0;
    assert IsFirstMin(s, z);
    BestDeltaAt(g, f, f, trig, w, s, z);
    ZeroHypothesis(w);
  }
}
