/**
 * The marker region and the pose transform.
 *
 * A region is a list of pixel coordinates (rows `rr`, columns `rc`), its
 * centroid (`cr`, `cc`) and the offsets of every pixel from the centroid
 * (`dcr`, `dcc`).  Coordinates are reals; numpy's vectorised arithmetic in
 * rodtrack.py is written as element-wise sequence functions.
 */
module Geometry {

  /** The trigonometric functions, taken as uninterpreted parameters. */
  datatype Trig = Trig(cos: real -> real, sin: real -> real)

  /** The only facts about cos and sin the model relies on. */
  predicate ZeroAngle(t: Trig) {
    t.cos(0.0) == 1.0 && t.sin(0.0) == 0.0
  }

  // ---------------------------------------------------------------------
  // Element-wise sequence arithmetic

  function Sum(s: seq<real>): real
  {
    if |s| == 0 then 0.0 else s[0] + Sum(s[1..])
  }

  /** numpy `mean` of a non-empty vector. */
  function Mean(s: seq<real>): real
    requires |s| > 0
  {
    Sum(s) / (|s| as real)
  }

  /** `s + c`, element-wise. */
  function Shift(s: seq<real>, c: real): (r: seq<real>)
    ensures |r| == |s|
  {
    seq(|s|, i requires 0 <= i < |s| => s[i] + c)
  }

  /** `s - c`, element-wise. */
  function Offsets(s: seq<real>, c: real): (r: seq<real>)
    ensures |r| == |s|
  {
    seq(|s|, i requires 0 <= i < |s| => s[i] - c)
  }

  /** `a*p + b*q`, element-wise. */
  function Combine(a: seq<real>, b: seq<real>, p: real, q: real): (r: seq<real>)
    requires |a| == |b|
    ensures |r| == |a|
  {
    seq(|a|, i requires 0 <= i < |a| => a[i] * p + b[i] * q)
  }

  lemma {:induction false} SumShift(s: seq<real>, c: real)
    ensures Sum(Shift(s, c)) == Sum(s) + (|s| as real) * c
  {
    if |s| > 0 {
      assert Shift(s, c)[1..] == Shift(s[1..], c);
      SumShift(s[1..], c);
    }
  }

  lemma {:induction false} SumOffsets(s: seq<real>, c: real)
    ensures Sum(Offsets(s, c)) == Sum(s) - (|s| as real) * c
  {
    if |s| > 0 {
      assert Offsets(s, c)[1..] == Offsets(s[1..], c);
      SumOffsets(s[1..], c);
    }
  }

  lemma SumCombine(a: seq<real>, b: seq<real>, p: real, q: real)
    requires |a| == |b|
    ensures Sum(Combine(a, b, p, q)) == Sum(a) * p + Sum(b) * q
  {
    SumLinear(Combine(a, b, p, q), a, b, p, q);
  }

  /** The sum of a list whose entries are `a[i]*p + b[i]*q` is `Sum(a)*p + Sum(b)*q`. */
  lemma {:induction false} SumLinear(c: seq<real>, a: seq<real>, b: seq<real>, p: real, q: real)
    requires |a| == |c| && |b| == |c|
    requires forall i :: 0 <= i < |c| ==> c[i] == a[i] * p + b[i] * q
    ensures Sum(c) == Sum(a) * p + Sum(b) * q
  {
    if |c| > 0 {
      SumLinear(c[1..], a[1..], b[1..], p, q);
      Regroup(Sum(c), c[0], Sum(c[1..]), Sum(a), a[0], Sum(a[1..]), Sum(b), b[0], Sum(b[1..]), p, q);
    }
  }

  /** The arithmetic step of `SumLinear`, on plain reals. */
  lemma Regroup(sc: real, c0: real, sc1: real, sa: real, a0: real, sa1: real, sb: real, b0: real, sb1: real,
                p: real, q: real)
    requires sc == c0 + sc1 && c0 == a0 * p + b0 * q && sc1 == sa1 * p + sb1 * q
    requires sa == a0 + sa1 && sb == b0 + sb1
    ensures sc == sa * p + sb * q
  {
  }

  lemma {:induction false} SumNonNegative(s: seq<real>)
    requires forall i :: 0 <= i < |s| ==> s[i] >= 0.0
    ensures Sum(s) >= 0.0
  {
    if |s| > 0 {
      SumNonNegative(s[1..]);
    }
  }

  /** The mean of a vector shifted by `c` is the mean shifted by `c`. */
  lemma MeanShift(s: seq<real>, c: real)
    requires |s| > 0
    ensures Mean(Shift(s, c)) == Mean(s) + c
  {
    SumShift(s, c);
    var n := |s| as real;
    assert (Sum(s) + n * c) / n == Sum(s) / n + c;
  }

  /** Offsets from the mean sum to zero. */
  lemma OffsetsFromMeanSumToZero(s: seq<real>)
    requires |s| > 0
    ensures Sum(Offsets(s, Mean(s))) == 0.0
  {
    SumOffsets(s, Mean(s));
    var n := |s| as real;
    assert n * (Sum(s) / n) == Sum(s);
  }

  // ---------------------------------------------------------------------
  // The region

  datatype Region = Region(rr: seq<real>, rc: seq<real>,
                           cr: real, cc: real,
                           dcr: seq<real>, dcc: seq<real>)
  {
    /** All four coordinate lists have one entry per pixel, and there is one. */
    predicate Shaped() {
      |rr| > 0 && |rc| == |rr| && |dcr| == |rr| && |dcc| == |rr|
    }

    /** The state `cent` establishes. */
    predicate Centred() {
      |rr| > 0 && |rc| > 0
      && cr == Mean(rr) && cc == Mean(rc)
      && dcr == Offsets(rr, cr) && dcc == Offsets(rc, cc)
    }
  }

  /**
   * `cent` on coordinate lists: the centroid is the mean of each coordinate
   * and the offsets are the coordinates minus the centroid.
   */
  function Centre(rr: seq<real>, rc: seq<real>): (g: Region)
    requires |rr| > 0 && |rc| == |rr|
    ensures g.rr == rr && g.rc == rc && g.Shaped() && g.Centred()
  {
    var cr := Mean(rr);
    var cc := Mean(rc);
    Region(rr, rc, cr, cc, Offsets(rr, cr), Offsets(rc, cc))
  }

  /**
   * The centroid invariant: every coordinate is its centroid plus its offset,
   * and the offsets sum to zero.
   */
  lemma CentredInvariant(g: Region)
    requires g.Centred()
    ensures |g.dcr| == |g.rr| && |g.dcc| == |g.rc|
    ensures forall i :: 0 <= i < |g.rr| ==> g.rr[i] == g.cr + g.dcr[i]
    ensures forall i :: 0 <= i < |g.rc| ==> g.rc[i] == g.cc + g.dcc[i]
    ensures Sum(g.dcr) == 0.0 && Sum(g.dcc) == 0.0
  {
    OffsetsFromMeanSumToZero(g.rr);
    OffsetsFromMeanSumToZero(g.rc);
  }

  /** A centred region is exactly what `cent` computes from its coordinates. */
  lemma CentreIsIdempotent(g: Region)
    requires g.Shaped()
    ensures g.Centred() <==> Centre(g.rr, g.rc) == g
  {
  }

  // ---------------------------------------------------------------------
  // The pose transform

  /**
   * Row coordinates after rotating the offsets by the angle whose cosine and
   * sine are `co`, `si` and translating by `ty`: `cr + (dcc*si + dcr*co + ty)`.
   */
  function PlaceRows(g: Region, co: real, si: real, ty: real): (r: seq<real>)
    requires g.Shaped()
    ensures |r| == |g.rr|
  {
    Shift(Shift(Combine(g.dcc, g.dcr, si, co), ty), g.cr)
  }

  /** Column coordinates: `cc + (dcc*co - dcr*si + tx)`. */
  function PlaceCols(g: Region, co: real, si: real, tx: real): (r: seq<real>)
    requires g.Shaped()
    ensures |r| == |g.rc|
  {
    Shift(Shift(Combine(g.dcc, g.dcr, co, -si), tx), g.cc)
  }

  /** `rodtransform` on values: place the rotated, translated offsets, then `cent`. */
  function Transformed(g: Region, trig: Trig, rot: real, tx: real, ty: real): (h: Region)
    requires g.Shaped()
    ensures h.Shaped() && h.Centred() && |h.rr| == |g.rr|
  {
    var co := trig.cos(rot);
    var si := trig.sin(rot);
    Centre(PlaceRows(g, co, si, ty), PlaceCols(g, co, si, tx))
  }

  /**
   * Rotation is about the centroid: from a centred region, `rodtransform`
   * moves the centroid by exactly the translation (whatever the angle), and
   * the new offsets are the old offsets rotated.
   */
  lemma TransformMovesCentroid(g: Region, trig: Trig, rot: real, tx: real, ty: real)
    requires g.Shaped() && g.Centred()
    ensures var h := Transformed(g, trig, rot, tx, ty);
            && h.cr == g.cr + ty && h.cc == g.cc + tx
            && h.dcr == Combine(g.dcc, g.dcr, trig.sin(rot), trig.cos(rot))
            && h.dcc == Combine(g.dcc, g.dcr, trig.cos(rot), -trig.sin(rot))
  {
    var co, si := trig.cos(rot), trig.sin(rot);
    CentredInvariant(g);
    var n := |g.rr| as real;
    var rows := Combine(g.dcc, g.dcr, si, co);
    var cols := Combine(g.dcc, g.dcr, co, -si);
    SumCombine(g.dcc, g.dcr, si, co);
    SumCombine(g.dcc, g.dcr, co, -si);
    assert Mean(rows) == 0.0;
    assert Mean(cols) == 0.0;
    MeanShift(rows, ty);
    MeanShift(Shift(rows, ty), g.cr);
    MeanShift(cols, tx);
    MeanShift(Shift(cols, tx), g.cc);
  }

  /** With cos = 1 and sin = 0, placing a centred region's offsets translates its pixels. */
  lemma PlaceZeroAngle(g: Region, tx: real, ty: real)
    requires g.Shaped() && g.Centred()
    ensures forall i :: 0 <= i < |g.rr| ==> PlaceRows(g, 1.0, 0.0, ty)[i] == g.rr[i] + ty
    ensures forall i :: 0 <= i < |g.rc| ==> PlaceCols(g, 1.0, 0.0, tx)[i] == g.rc[i] + tx
    ensures ty == 0.0 ==> PlaceRows(g, 1.0, 0.0, ty) == g.rr
    ensures tx == 0.0 ==> PlaceCols(g, 1.0, 0.0, tx) == g.rc
  {
    CentredInvariant(g);
  }

  /**
   * With a zero angle, `rodtransform` of a centred region translates every
   * pixel (rows by `ty`, columns by `tx`) and keeps the offsets.
   */
  lemma TransformZeroAngle(g: Region, trig: Trig, tx: real, ty: real)
    requires ZeroAngle(trig)
    requires g.Shaped() && g.Centred()
    ensures var h := Transformed(g, trig, 0.0, tx, ty);
            && |h.rr| == |g.rr| && |h.rc| == |g.rc|
            && (forall i :: 0 <= i < |g.rr| ==> h.rr[i] == g.rr[i] + ty)
            && (forall i :: 0 <= i < |g.rc| ==> h.rc[i] == g.rc[i] + tx)
            && h.cr == g.cr + ty && h.cc == g.cc + tx
            && h.dcr == g.dcr && h.dcc == g.dcc
  {
    PlaceZeroAngle(g, tx, ty);
    TransformMovesCentroid(g, trig, 0.0, tx, ty);
  }

  /** `rodtransform(0, [0, 0])` leaves a centred region as it is. */
  lemma TransformIdentity(g: Region, trig: Trig)
    requires ZeroAngle(trig)
    requires g.Shaped() && g.Centred()
    ensures Transformed(g, trig, 0.0, 0.0, 0.0) == g
  {
    TransformZeroAngle(g, trig, 0.0, 0.0);
    var h := Transformed(g, trig, 0.0, 0.0, 0.0);
    assert h.rr == g.rr;
    assert h.rc == g.rc;
  }
}
