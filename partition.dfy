/**
 * Column-stripe partitioning of the image across the N workers.
 *
 * `resize` sets threadWidth := width / N with Java's int division, which
 * truncates toward zero; `update` hands worker i the half-open column range
 * [i * threadWidth, (i + 1) * threadWidth).  The width % N columns left over
 * at the right edge belong to no worker.
 */
module Partition {

  import opened Arith

  /** A worker's half-open column range [xMin, xMax). */
  datatype Stripe = Stripe(xMin: int, xMax: int)

  predicate Covers(s: Stripe, x: int)
  {
    s.xMin <= x < s.xMax
  }

  /** Java's `a / n` for a positive divisor: the quotient rounds toward zero. */
  function JavaDiv(a: int, n: int): (q: int)
    requires n >= 1
    ensures a >= 0 ==> q >= 0 && q * n <= a < q * n + n
    ensures a < 0 ==> q <= 0 && q * n - n < a <= q * n
  {
    if a >= 0 then
      DivBounds(a, n);
      assert a / n >= 0 by {
        if a / n < 0 {
          MulMonotone(a / n, -1, n);
        }
      }
      a / n
    else
      var m := (-a) / n;
      DivBounds(-a, n);
      assert (-m) * n == -(m * n);
      -m
  }

  /** Worker i's stripe for a stripe width tw. */
  function StripeOf(i: int, tw: int): Stripe
  {
    Stripe(i * tw, (i + 1) * tw)
  }

  /** The bounds `update` gives the n workers, in the order of the thread list. */
  function Stripes(n: nat, tw: int): (p: seq<Stripe>)
    ensures |p| == n
  {
    seq(n, i => StripeOf(i, tw))
  }

  /** The stripe width is positive exactly when there are at least as many columns as workers. */
  lemma StripeWidthPositive(width: int, n: int)
    requires n >= 1
    ensures JavaDiv(width, n) > 0 <==> width >= n
  {
  }

  /**
   * The stripes start at column 0, follow each other without gaps, are
   * pairwise disjoint, stay inside [0, width) and end at width - width % n,
   * so that fewer than n columns are dropped.
   */
  lemma PartitionSpec(width: int, n: int)
    requires n >= 1 && width >= 0
    ensures var tw := JavaDiv(width, n); var p := Stripes(n, tw);
      && p[0].xMin == 0
      && (forall i :: 0 <= i < n - 1 ==> p[i].xMax == p[i + 1].xMin)
      && (forall i :: 0 <= i < n ==> 0 <= p[i].xMin <= p[i].xMax <= width)
      && (forall i, j :: 0 <= i < j < n ==> p[i].xMax <= p[j].xMin)
      && p[n - 1].xMax == width - width % n
      && 0 <= width % n < n
  {
    var tw := JavaDiv(width, n);
    var p := Stripes(n, tw);
    assert tw == width / n;
    assert n * tw == width - width % n by {
      assert width == n * (width / n) + width % n;
    }
    assert tw >= 0;
    forall i | 0 <= i < n
      ensures 0 <= p[i].xMin <= p[i].xMax <= width
    {
      assert p[i] == StripeOf(i, tw);
      MulMonotone(0, i, tw);
      MulMonotone(i, i + 1, tw);
      MulMonotone(i + 1, n, tw);
    }
    forall i, j | 0 <= i < j < n
      ensures p[i].xMax <= p[j].xMin
    {
      assert p[i] == StripeOf(i, tw) && p[j] == StripeOf(j, tw);
      MulMonotone(i + 1, j, tw);
    }
  }

  /** A column belongs to the stripe x / tw and to no other stripe. */
  lemma StripeOfColumn(x: int, tw: int)
    requires tw > 0
    ensures Covers(StripeOf(x / tw, tw), x)
    ensures forall i :: Covers(StripeOf(i, tw), x) ==> i == x / tw
  {
    var q := x / tw;
    DivBounds(x, tw);
    assert (q + 1) * tw == q * tw + tw;
    forall i | Covers(StripeOf(i, tw), x)
      ensures i == q
    {
      if i < q {
        MulMonotone(i + 1, q, tw);
      } else if i > q {
        MulMonotone(q + 1, i, tw);
      }
    }
  }

  /**
   * Column x of the image is drawn by worker x / tw when x < n * tw, by that
   * worker only, and by no worker when x is one of the trailing columns.
   */
  lemma ColumnOwner(width: int, n: int, x: int)
    requires n >= 1 && JavaDiv(width, n) > 0 && 0 <= x < width
    ensures var tw := JavaDiv(width, n);
      && (x < n * tw ==> 0 <= x / tw < n && Covers(StripeOf(x / tw, tw), x))
      && (forall i :: 0 <= i < n && Covers(StripeOf(i, tw), x) ==> i == x / tw)
      && (x >= n * tw ==> forall i :: 0 <= i < n ==> !Covers(StripeOf(i, tw), x))
  {
    var tw := JavaDiv(width, n);
    StripeOfColumn(x, tw);
    var q := x / tw;
    if x < n * tw && q >= n {
      MulMonotone(n, q, tw);
    }
    if x >= n * tw {
      forall i | 0 <= i < n
        ensures !Covers(StripeOf(i, tw), x)
      {
        MulMonotone(i + 1, n, tw);
      }
    }
  }
}
