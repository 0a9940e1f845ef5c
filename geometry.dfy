/**
 * Canvas geometry shared by the whole editor: integer points, the 10x10 box
 * overlap test of modules/utils.py and the edge weight of the solver.
 */
module Geometry {

  /** A canvas coordinate pair; mouse positions and generator draws are integers. */
  datatype Point = Point(x: int, y: int)

  /** Every node is drawn as a box of this size whose top-left corner is its position. */
  const BOX_WIDTH: int := 10
  const BOX_HEIGHT: int := 10

  /** Edge weights are kept in ten-thousandths of a pixel: the solver rounds to 4 decimals. */
  const WEIGHT_SCALE: nat := 10000

  function Abs(n: int): nat
  {
    if n < 0 then -n else n
  }

  /**
   * The overlap test: both points are top-left corners of 10x10 boxes and the
   * comparison is strict, so boxes that only touch do not overlap.
   */
  predicate Collide(a: Point, b: Point)
    ensures Collide(a, b) <==> Abs(a.x - b.x) < BOX_WIDTH && Abs(a.y - b.y) < BOX_HEIGHT
  {
    a.x < b.x + BOX_WIDTH && a.x + BOX_WIDTH > b.x && a.y < b.y + BOX_HEIGHT && a.y + BOX_HEIGHT > b.y
  }

  lemma CollideSymmetric(a: Point, b: Point)
    ensures Collide(a, b) == Collide(b, a)
  {
  }

  lemma CollideReflexive(a: Point)
    ensures Collide(a, a)
  {
  }

  /** Points exactly one box apart on either axis do not overlap. */
  lemma TouchingBoxesDoNotCollide(a: Point)
    ensures !Collide(a, Point(a.x + BOX_WIDTH, a.y))
    ensures !Collide(a, Point(a.x, a.y + BOX_HEIGHT))
    ensures Collide(a, Point(a.x + BOX_WIDTH - 1, a.y + BOX_HEIGHT - 1))
  {
  }

  /** Largest natural number whose square does not exceed n. */
  function ISqrt(n: nat): (r: nat)
    ensures r * r <= n < (r + 1) * (r + 1)
  {
    assert n < (n + 1) * (n + 1);
    ISqrtBetween(n, 0, n + 1)
  }

  /** The integer square root of n by bisection of [lo, hi), where lo^2 <= n < hi^2. */
  function ISqrtBetween(n: nat, lo: nat, hi: nat): (r: nat)
    requires lo < hi && lo * lo <= n < hi * hi
    ensures lo <= r < hi && r * r <= n < (r + 1) * (r + 1)
    decreases hi - lo
  {
    if lo + 1 == hi then lo
    else
      var mid := (lo + hi) / 2;
      if mid * mid <= n then ISqrtBetween(n, mid, hi) else ISqrtBetween(n, lo, mid)
  }

  function SquaredLength(a: Point, b: Point): nat
  {
    (b.x - a.x) * (b.x - a.x) + (b.y - a.y) * (b.y - a.y)
  }

  /** The edge weight of calculate_distance: the length of the segment ab rounded to 4 decimals, in units of 0.0001. */
  function Distance(a: Point, b: Point): nat
  {
    (ISqrt(4 * (WEIGHT_SCALE * WEIGHT_SCALE * SquaredLength(a, b))) + 1) / 2
  }

  /**
   * Distance(a, b) is the integer nearest to sqrt(N), where N is the squared
   * length scaled by 10^8: (r - 1/2)^2 <= N < (r + 1/2)^2 (an exact half cannot occur).
   */
  lemma DistanceRounds(a: Point, b: Point)
    ensures var n := WEIGHT_SCALE * WEIGHT_SCALE * SquaredLength(a, b); var r := Distance(a, b);
      4 * n < (2 * r + 1) * (2 * r + 1) && (r > 0 ==> (2 * r - 1) * (2 * r - 1) <= 4 * n)
  {
    var n := WEIGHT_SCALE * WEIGHT_SCALE * SquaredLength(a, b);
    NearestFromRoot(n, ISqrt(4 * n));
  }

  lemma NearestFromRoot(n: nat, s: nat)
    requires s * s <= 4 * n < (s + 1) * (s + 1)
    ensures var r := (s + 1) / 2;
      4 * n < (2 * r + 1) * (2 * r + 1) && (r > 0 ==> (2 * r - 1) * (2 * r - 1) <= 4 * n)
  {
    var r := (s + 1) / 2;
    if s % 2 == 0 {
      assert 2 * r == s;
      if r > 0 {
        SquareMonotonic(s - 1, s);
      }
    } else {
      assert 2 * r == s + 1;
      assert (s + 1) * (s + 1) <= (2 * r + 1) * (2 * r + 1);
    }
  }

  lemma SquareMonotonic(a: nat, b: nat)
    requires a <= b
    ensures a * a <= b * b
  {
    assert a * a <= a * b <= b * b;
  }

  lemma DistanceSymmetric(a: Point, b: Point)
    ensures Distance(a, b) == Distance(b, a)
  {
    assert SquaredLength(a, b) == SquaredLength(b, a);
  }

  lemma DistanceZeroOnEqualPoints(a: Point)
    ensures Distance(a, a) == 0
  {
    assert SquaredLength(a, a) == 0;
  }
}
