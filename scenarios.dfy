/**
 * Concrete frames of the demo list (200 rows, a header every fourth row), worked
 * through the draw decision.
 */
module Scenarios {
  import opened Adapter
  import opened StickyHeader

  /** Rows 10 to 18, 50 pixels each, scrolled so that row 10 is 20 pixels above the top. */
  function RowsFromTen(): seq<Child>
  {
    seq(9, k => Child(10 + k, -20 + 50 * k, 30 + 50 * k, 50))
  }

  /** Top row 10: header 8 is pinned flush, since the row straddling its bottom edge is content row 11. */
  lemma ScenarioPinnedFlush()
    ensures DrawDecision(RowsFromTen(), 60) == DrawAt(8, 0)
  {
    var rows := RowsFromTen();
    HeaderPositionClosedForm(10);
    assert !InContact(rows, 0, 60, 8, 60);
    assert InContact(rows, 1, 60, 8, 60);
    PinnedFlush(rows, 60);
  }

  /** Rows 11 to 18, scrolled so that header row 12 has its top 40 pixels below the list's top. */
  function RowsWithIncomingHeader(): seq<Child>
  {
    seq(8, k => Child(11 + k, -10 + 50 * k, 40 + 50 * k, 50))
  }

  /**
   * The incoming header 12 is inside the pinned header's 60 pixels: header 8 is
   * pushed up by 20 pixels, so its bottom meets header 12's top.
   */
  lemma ScenarioHandOff()
    ensures DrawDecision(RowsWithIncomingHeader(), 60) == DrawAt(8, -20)
  {
    var rows := RowsWithIncomingHeader();
    HeaderPositionClosedForm(11);
    assert !InContact(rows, 0, 60, 8, 60);
    assert InContact(rows, 1, 60, 8, 60);
    HandOffTranslation(rows, 60, 1);
  }

  /** A top row without an adapter position, or no row at all, draws nothing. */
  lemma ScenarioUnresolvable(rest: seq<Child>, measuredHeight: int)
    ensures DrawDecision([Child(NO_POSITION, 0, 50, 50)] + rest, measuredHeight) == Skip
    ensures DrawDecision([], measuredHeight) == Skip
  {
    DrawSkippedIff([Child(NO_POSITION, 0, 50, 50)] + rest, measuredHeight);
    DrawSkippedIff([], measuredHeight);
  }

  /** Rows 4 to 8 with short rows: header row 8 sits at index 4, which equals the pinned header's position 4. */
  function RowsWithIndexCoincidence(): seq<Child>
  {
    [Child(4, -8, 2, 10), Child(5, 2, 12, 10), Child(6, 12, 22, 10), Child(7, 22, 32, 10), Child(8, 32, 38, 6)]
  }

  /**
   * The contact scan compares the header's adapter position with the row's index:
   * header row 8 at index 4 gets no tolerance because the pinned header is row 4,
   * so no row is in contact and header 4 stays flush although the top of header
   * row 8 is already under it. At any other index the same row would be in contact.
   */
  lemma ScenarioIndexCoincidence()
    ensures DrawDecision(RowsWithIndexCoincidence(), 40) == DrawAt(4, 0)
    ensures IsHeader(RowsWithIndexCoincidence()[4].adapterPos) && RowsWithIndexCoincidence()[4].top < 40
    ensures HeightTolerance(40, 4, 4, RowsWithIndexCoincidence()[4]) == 0
    ensures EffectiveBottom(40, 4, 5, RowsWithIndexCoincidence()[4]) > 40
  {
    var rows := RowsWithIndexCoincidence();
    HeaderPositionOfHeader(4);
    forall j | 0 <= j < |rows| ensures !InContact(rows, j, 40, 4, 40) {
    }
    PinnedFlush(rows, 40);
  }
}
