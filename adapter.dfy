/**
 * The list adapter of the demo (RvAdapter): it classifies adapter positions as
 * headers or content rows and finds, for any position, the header that governs it.
 * Every fourth row, starting at position 0, is a header.
 */
module Adapter {

  /** View-type codes returned by ItemViewType. */
  const HEADER: int := 1
  const CONTENT: int := 2

  /** Rows per group: a header followed by three content rows. */
  const GROUP_SIZE: int := 4

  /**
   * Kotlin's `%` on Int: the remainder truncates toward zero, so it takes the
   * sign of the dividend (Dafny's own `%` is Euclidean and never negative).
   */
  function KotlinRem(a: int, b: int): (r: int)
    requires b != 0
    ensures -(if b < 0 then -b else b) < r < (if b < 0 then -b else b)
    ensures a >= 0 ==> r >= 0
    ensures a < 0 ==> r <= 0
  {
    var m := (if a < 0 then -a else a) % (if b < 0 then -b else b);
    if a < 0 then -m else m
  }

  /** Kotlin's `/` on Int: the quotient truncates toward zero. */
  function KotlinQuot(a: int, b: int): int
    requires b != 0
  {
    var q := (if a < 0 then -a else a) / (if b < 0 then -b else b);
    if (a < 0) == (b < 0) then q else -q
  }

  /**
   * KotlinRem is the remainder of truncated division: together with the truncated
   * quotient it recomposes the dividend, so `a - KotlinRem(a, b)` is a multiple of `b`.
   */
  lemma KotlinRemIsRemainder(a: int, b: int)
    requires b != 0
    ensures a == KotlinQuot(a, b) * b + KotlinRem(a, b)
  {
    var ua := if a < 0 then -a else a;
    var ub := if b < 0 then -b else b;
    var q := ua / ub;
    assert ua == q * ub + ua % ub;
    if a < 0 && b < 0 {
      assert a == q * b - ua % ub;
    } else if a < 0 {
      assert a == (-q) * b - ua % ub;
    } else if b < 0 {
      assert a == (-q) * b + ua % ub;
    }
  }

  /**
   * Whether the row at `itemPosition` is a header. A truncated remainder is zero
   * exactly when the Euclidean one is, so this holds exactly for the multiples of
   * four, negative positions included.
   */
  predicate IsHeader(itemPosition: int)
    ensures IsHeader(itemPosition) <==> itemPosition % GROUP_SIZE == 0
  {
    KotlinRem(itemPosition, GROUP_SIZE) == 0
  }

  /** The view type of a row; it is HEADER exactly for the rows IsHeader accepts. */
  function ItemViewType(position: int): (t: int)
    ensures t == HEADER || t == CONTENT
    ensures t == HEADER <==> IsHeader(position)
  {
    if KotlinRem(position, GROUP_SIZE) == 0 then HEADER else CONTENT
  }

  /**
   * What the backward scan computes: the first header met walking down from
   * `itemPosition` (inclusive) while the position stays non-negative, else 0.
   * The first position is always examined, even a negative one.
   */
  function HeaderPositionFor(itemPosition: int): (r: int)
    ensures itemPosition >= 0 ==> 0 <= r <= itemPosition
    ensures itemPosition < 0 ==> r == itemPosition || r == 0
    decreases if itemPosition < 0 then 0 else itemPosition
  {
    if IsHeader(itemPosition) then itemPosition
    else if itemPosition - 1 >= 0 then HeaderPositionFor(itemPosition - 1)
    else 0
  }

  /**
   * For a non-negative position the scan lands on a header at or before it, and
   * no header lies strictly between the two: it is the governing header.
   */
  lemma {:induction false} HeaderPositionIsGoverning(itemPosition: int)
    requires itemPosition >= 0
    ensures 0 <= HeaderPositionFor(itemPosition) <= itemPosition
    ensures IsHeader(HeaderPositionFor(itemPosition))
    ensures forall q :: HeaderPositionFor(itemPosition) < q <= itemPosition ==> !IsHeader(q)
  {
    if !IsHeader(itemPosition) {
      assert itemPosition != 0;
      HeaderPositionIsGoverning(itemPosition - 1);
    }
  }

  /** A header governs itself; in particular position 0 resolves to 0. */
  lemma HeaderPositionOfHeader(itemPosition: int)
    requires IsHeader(itemPosition)
    ensures HeaderPositionFor(itemPosition) == itemPosition
  {
  }

  /**
   * For a negative position the loop body runs once: the position itself is
   * returned when it is a multiple of four, and the fallback 0 otherwise.
   */
  lemma HeaderPositionForNegative(itemPosition: int)
    requires itemPosition < 0
    ensures HeaderPositionFor(itemPosition) == if itemPosition % GROUP_SIZE == 0 then itemPosition else 0
  {
  }

  /** With groups of four the governing header is the position rounded down to a multiple of four. */
  lemma {:induction false} HeaderPositionClosedForm(itemPosition: int)
    requires itemPosition >= 0
    ensures HeaderPositionFor(itemPosition) == itemPosition - itemPosition % GROUP_SIZE
  {
    if !IsHeader(itemPosition) {
      HeaderPositionClosedForm(itemPosition - 1);
    }
  }

  /**
   * The adapter's do-while loop: test the current position, stop at a header,
   * otherwise step back and go round again while the position is non-negative.
   */
  method GetHeaderPositionForItem(itemPosition: int) returns (headerPosition: int)
    ensures headerPosition == HeaderPositionFor(itemPosition)
    ensures itemPosition >= 0 ==> headerPosition == itemPosition - itemPosition % GROUP_SIZE
  {
    var position := itemPosition;
    headerPosition := 0;
    while true
      invariant headerPosition == 0
      invariant HeaderPositionFor(position) == HeaderPositionFor(itemPosition)
      decreases if position < 0 then 0 else position + 1
    {
      if IsHeader(position) {
        headerPosition := position;
        break;
      }
      position := position - 1;
      if position < 0 {
        break;
      }
    }
    if itemPosition >= 0 {
      HeaderPositionClosedForm(itemPosition);
    }
  }
}
