/** The 2-D sample arrays a frame holds, after the transpose done on reading:
    the outer index runs over detector columns, the inner one over rows. */
module Planes {

  /** `columns[x][y]` is the sample in column x, row y. The height is kept
      explicitly, as numpy keeps the shape (w, h) even when w is 0. */
  datatype Plane = Plane(columns: seq<seq<real>>, height: nat)

  /** Every column holds `height` samples: the array is rectangular. */
  predicate WellFormed(p: Plane) {
    forall x :: 0 <= x < |p.columns| ==> |p.columns[x]| == p.height
  }

  function Width(p: Plane): nat {
    |p.columns|
  }

  /** numpy's shape equality, the one condition element-wise `+=` and `-=`
      are modelled to accept. */
  predicate SameShape(a: Plane, b: Plane) {
    |a.columns| == |b.columns| && a.height == b.height
  }

  /** A sample position inside the plane. */
  predicate InPlane(p: Plane, x: int, y: int) {
    0 <= x < |p.columns| && 0 <= y < p.height
  }

  /** `np.transpose` of a FITS data array given as `rows[y][x]`, with `width`
      entries per row. */
  function Transpose(rows: seq<seq<real>>, width: nat): (p: Plane)
    requires forall y :: 0 <= y < |rows| ==> |rows[y]| == width
    ensures WellFormed(p) && Width(p) == width && p.height == |rows|
    ensures forall x, y :: InPlane(p, x, y) ==> p.columns[x][y] == rows[y][x]
  {
    Plane(seq(width, x requires 0 <= x < width => seq(|rows|, y requires 0 <= y < |rows| => rows[y][x])), |rows|)
  }

  /** Element-wise sum, numpy's `a += b` on equal shapes. */
  function Plus(a: Plane, b: Plane): (r: Plane)
    requires WellFormed(a) && WellFormed(b) && SameShape(a, b)
    ensures WellFormed(r) && SameShape(r, a)
    ensures forall x, y :: InPlane(a, x, y) ==> r.columns[x][y] == a.columns[x][y] + b.columns[x][y]
  {
    Plane(seq(|a.columns|, x requires 0 <= x < |a.columns| =>
            seq(a.height, y requires 0 <= y < a.height => a.columns[x][y] + b.columns[x][y])), a.height)
  }

  /** Element-wise difference, numpy's `a -= b` on equal shapes. */
  function Minus(a: Plane, b: Plane): (r: Plane)
    requires WellFormed(a) && WellFormed(b) && SameShape(a, b)
    ensures WellFormed(r) && SameShape(r, a)
    ensures forall x, y :: InPlane(a, x, y) ==> r.columns[x][y] == a.columns[x][y] - b.columns[x][y]
  {
    Plane(seq(|a.columns|, x requires 0 <= x < |a.columns| =>
            seq(a.height, y requires 0 <= y < a.height => a.columns[x][y] - b.columns[x][y])), a.height)
  }

  /** True division of every sample by a positive count, numpy's `a / n`. */
  function Divide(a: Plane, n: nat): (r: Plane)
    requires WellFormed(a) && n > 0
    ensures WellFormed(r) && SameShape(r, a)
    ensures forall x, y :: InPlane(a, x, y) ==> r.columns[x][y] == a.columns[x][y] / (n as real)
  {
    Plane(seq(|a.columns|, x requires 0 <= x < |a.columns| =>
            seq(a.height, y requires 0 <= y < a.height => a.columns[x][y] / (n as real))), a.height)
  }

  /** Two rectangular planes of one shape with the same samples are equal. */
  lemma Extensional(a: Plane, b: Plane)
    requires WellFormed(a) && WellFormed(b) && SameShape(a, b)
    requires forall x, y :: InPlane(a, x, y) ==> a.columns[x][y] == b.columns[x][y]
    ensures a == b
  {
    forall x | 0 <= x < |a.columns|
      ensures a.columns[x] == b.columns[x]
    {
      assert forall y :: 0 <= y < a.height ==> a.columns[x][y] == b.columns[x][y] by {
        forall y | 0 <= y < a.height ensures a.columns[x][y] == b.columns[x][y] {
          assert InPlane(a, x, y);
        }
      }
    }
  }

  /** Subtracting what was added gives back the original samples. */
  lemma MinusPlus(a: Plane, b: Plane)
    requires WellFormed(a) && WellFormed(b) && SameShape(a, b)
    ensures Minus(Plus(a, b), b) == a
  {
    var s := Plus(a, b);
    var d := Minus(s, b);
    assert forall x, y :: InPlane(d, x, y) ==> d.columns[x][y] == a.columns[x][y] by {
      forall x, y | InPlane(d, x, y) ensures d.columns[x][y] == a.columns[x][y] {
        assert InPlane(s, x, y) && InPlane(a, x, y);
      }
    }
    Extensional(d, a);
  }

  /** Adding what was subtracted gives back the original samples. */
  lemma PlusMinus(a: Plane, b: Plane)
    requires WellFormed(a) && WellFormed(b) && SameShape(a, b)
    ensures Plus(Minus(a, b), b) == a
  {
    var s := Minus(a, b);
    var d := Plus(s, b);
    assert forall x, y :: InPlane(d, x, y) ==> d.columns[x][y] == a.columns[x][y] by {
      forall x, y | InPlane(d, x, y) ensures d.columns[x][y] == a.columns[x][y] {
        assert InPlane(s, x, y) && InPlane(a, x, y);
      }
    }
    Extensional(d, a);
  }
}
