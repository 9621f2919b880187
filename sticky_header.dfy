/**
 * The sticky-header overlay (StickHeaderItemDecoration). Once per draw pass it
 * finds the header governing the topmost visible row, lays that header out at the
 * top of the list, looks for a visible row straddling the header's bottom edge,
 * and either pins the header flush at the top or slides it up by as much as an
 * incoming header has pushed into it.
 *
 * Android views are abstracted away: a visible row is a Child record, the
 * header's measured height is an input, and drawing is a returned Draw value.
 */
module StickyHeader {
  import opened Adapter

  datatype Option<T> = None | Some(value: T)

  /** RecyclerView.NO_POSITION: the row has no adapter position (e.g. it is being removed). */
  const NO_POSITION: int := -1

  /** A visible (laid-out) row of the list, in the list's coordinates. */
  datatype Child = Child(adapterPos: int, top: int, bottom: int, height: int)

  /** The vertical bounds of the freshly laid-out header view. */
  datatype HeaderLayout = HeaderLayout(top: int, bottom: int)
  {
    function Height(): int { bottom - top }
  }

  /**
   * What one draw pass paints: nothing, or the header for `headerPos` shifted
   * vertically by `translation` (0 is flush with the top of the list).
   */
  datatype Draw = Skip | DrawAt(headerPos: int, translation: int)

  /**
   * The correction added to a row's bottom during the contact scan: the pinned
   * header's height minus the row's own height, for a row that is a header and
   * whose enumeration index differs from the current header's adapter position.
   */
  function HeightTolerance(stickyHeaderHeight: int, currentHeaderPos: int, i: int, child: Child): (r: int)
    ensures r != 0 ==> currentHeaderPos != i && IsHeader(child.adapterPos)
    ensures r == 0 || r == stickyHeaderHeight - child.height
  {
    if currentHeaderPos != i && IsHeader(child.adapterPos) then stickyHeaderHeight - child.height else 0
  }

  /** A row's bottom as the contact scan sees it: the tolerance counts only while the row's top is below the list's top. */
  function EffectiveBottom(stickyHeaderHeight: int, currentHeaderPos: int, i: int, child: Child): (r: int)
    ensures child.top <= 0 ==> r == child.bottom
    ensures r == child.bottom || r == child.bottom + (stickyHeaderHeight - child.height)
  {
    if child.top > 0 then child.bottom + HeightTolerance(stickyHeaderHeight, currentHeaderPos, i, child)
    else child.bottom
  }

  /** Row `i` straddles the contact point: it starts at or above it and (effectively) ends below it. */
  predicate InContact(children: seq<Child>, i: nat, contactPoint: int, currentHeaderPos: int, stickyHeaderHeight: int)
    requires i < |children|
    ensures InContact(children, i, contactPoint, currentHeaderPos, stickyHeaderHeight) && children[i].top <= 0
        ==> children[i].bottom > contactPoint
  {
    EffectiveBottom(stickyHeaderHeight, currentHeaderPos, i, children[i]) > contactPoint
    && children[i].top <= contactPoint
  }

  /** The first row at index `from` or later that is in contact, if any. */
  function FirstContactFrom(children: seq<Child>, contactPoint: int, currentHeaderPos: int,
                            stickyHeaderHeight: int, from: nat): (r: Option<nat>)
    requires from <= |children|
    ensures r.Some? ==> from <= r.value < |children|
    ensures r.Some? ==> InContact(children, r.value, contactPoint, currentHeaderPos, stickyHeaderHeight)
    decreases |children| - from
  {
    if from == |children| then None
    else if InContact(children, from, contactPoint, currentHeaderPos, stickyHeaderHeight) then Some(from)
    else FirstContactFrom(children, contactPoint, currentHeaderPos, stickyHeaderHeight, from + 1)
  }

  /** The row in contact with the header's bottom edge, as the scan over all visible rows finds it. */
  function ChildInContact(children: seq<Child>, contactPoint: int, currentHeaderPos: int,
                          stickyHeaderHeight: int): (r: Option<nat>)
    ensures r.Some? ==> r.value < |children| && InContact(children, r.value, contactPoint, currentHeaderPos, stickyHeaderHeight)
  {
    FirstContactFrom(children, contactPoint, currentHeaderPos, stickyHeaderHeight, 0)
  }

  /** No row before the one the scan returns is in contact; when it returns nothing, no row is. */
  lemma {:induction false} FirstContactFromIsLowest(children: seq<Child>, contactPoint: int, currentHeaderPos: int,
                                                    stickyHeaderHeight: int, from: nat)
    requires from <= |children|
    ensures match FirstContactFrom(children, contactPoint, currentHeaderPos, stickyHeaderHeight, from)
      case Some(k) => forall j :: from <= j < k ==> !InContact(children, j, contactPoint, currentHeaderPos, stickyHeaderHeight)
      case None => forall j :: from <= j < |children| ==> !InContact(children, j, contactPoint, currentHeaderPos, stickyHeaderHeight)
    decreases |children| - from
  {
    if from < |children| && !InContact(children, from, contactPoint, currentHeaderPos, stickyHeaderHeight) {
      FirstContactFromIsLowest(children, contactPoint, currentHeaderPos, stickyHeaderHeight, from + 1);
    }
  }

  /**
   * The scan returns the lowest-index row in contact, and nothing exactly when no
   * visible row is in contact.
   */
  lemma ChildInContactIsLowest(children: seq<Child>, contactPoint: int, currentHeaderPos: int,
                               stickyHeaderHeight: int)
    ensures ChildInContact(children, contactPoint, currentHeaderPos, stickyHeaderHeight) == None
        <==> forall j :: 0 <= j < |children| ==> !InContact(children, j, contactPoint, currentHeaderPos, stickyHeaderHeight)
    ensures forall k: nat ::
        ChildInContact(children, contactPoint, currentHeaderPos, stickyHeaderHeight) == Some(k)
        <==> (k < |children| && InContact(children, k, contactPoint, currentHeaderPos, stickyHeaderHeight)
              && forall j :: 0 <= j < k ==> !InContact(children, j, contactPoint, currentHeaderPos, stickyHeaderHeight))
  {
    FirstContactFromIsLowest(children, contactPoint, currentHeaderPos, stickyHeaderHeight, 0);
  }

  /**
   * The effective bottom differs from the row's bottom only for a header row,
   * at an index other than the current header's position, whose top is below the
   * list's top; it is then the bottom corrected by the height difference.
   */
  lemma EffectiveBottomRule(stickyHeaderHeight: int, currentHeaderPos: int, i: int, child: Child)
    ensures EffectiveBottom(stickyHeaderHeight, currentHeaderPos, i, child) != child.bottom
        ==> currentHeaderPos != i && IsHeader(child.adapterPos) && child.top > 0
    ensures currentHeaderPos != i && IsHeader(child.adapterPos) && child.top > 0
        ==> EffectiveBottom(stickyHeaderHeight, currentHeaderPos, i, child)
            == child.bottom + (stickyHeaderHeight - child.height)
  {
  }

  /** The translation of a hand-off: the incoming header's top minus the pinned header's height. */
  function MoveHeaderTranslation(nextHeader: Child, currentHeader: HeaderLayout): (r: int)
    ensures currentHeader.top == 0 ==> r + currentHeader.bottom == nextHeader.top
  {
    nextHeader.top - currentHeader.Height()
  }

  /**
   * The whole decision of one draw pass, given the visible rows and the height
   * the header measures to. The cached height is the measured one by the time it
   * is read, so the decision depends on nothing else.
   */
  function DrawDecision(children: seq<Child>, measuredHeight: int): (d: Draw)
    ensures d.DrawAt? ==> |children| > 0 && d.headerPos == HeaderPositionFor(children[0].adapterPos)
    ensures d.DrawAt? ==> d.translation <= 0
  {
    if |children| == 0 || children[0].adapterPos == NO_POSITION then Skip
    else
      var headerPos := HeaderPositionFor(children[0].adapterPos);
      var header := HeaderLayout(0, measuredHeight);
      match ChildInContact(children, header.bottom, headerPos, measuredHeight)
      case Some(k) =>
        if IsHeader(children[k].adapterPos) then DrawAt(headerPos, MoveHeaderTranslation(children[k], header))
        else DrawAt(headerPos, 0)
      case None => DrawAt(headerPos, 0)
  }

  /** A pass draws nothing exactly when no row is visible or the top row has no adapter position. */
  lemma DrawSkippedIff(children: seq<Child>, measuredHeight: int)
    ensures DrawDecision(children, measuredHeight) == Skip
        <==> |children| == 0 || children[0].adapterPos == NO_POSITION
  {
  }

  /**
   * When the top row has a valid position, the header drawn is the one governing
   * it: the position rounded down to a multiple of four, a header at or before it.
   */
  lemma DrawnHeaderGoverns(children: seq<Child>, measuredHeight: int)
    requires |children| > 0 && children[0].adapterPos >= 0
    ensures DrawDecision(children, measuredHeight).DrawAt?
    ensures DrawDecision(children, measuredHeight).headerPos
        == children[0].adapterPos - children[0].adapterPos % GROUP_SIZE
    ensures IsHeader(DrawDecision(children, measuredHeight).headerPos)
    ensures 0 <= DrawDecision(children, measuredHeight).headerPos <= children[0].adapterPos
  {
    HeaderPositionClosedForm(children[0].adapterPos);
    HeaderPositionIsGoverning(children[0].adapterPos);
  }

  /**
   * Hand-off: when the lowest-index row straddling the header's bottom edge is a
   * header, the pinned header is shifted up so that its bottom edge sits exactly
   * on that row's top; the shift is never downward.
   */
  lemma HandOffTranslation(children: seq<Child>, measuredHeight: int, k: nat)
    requires |children| > 0 && children[0].adapterPos != NO_POSITION
    requires k < |children|
    requires InContact(children, k, measuredHeight, HeaderPositionFor(children[0].adapterPos), measuredHeight)
    requires forall j :: 0 <= j < k ==>
      !InContact(children, j, measuredHeight, HeaderPositionFor(children[0].adapterPos), measuredHeight)
    requires IsHeader(children[k].adapterPos)
    ensures DrawDecision(children, measuredHeight)
        == DrawAt(HeaderPositionFor(children[0].adapterPos), children[k].top - measuredHeight)
    ensures DrawDecision(children, measuredHeight).translation + measuredHeight == children[k].top
    ensures DrawDecision(children, measuredHeight).translation <= 0
  {
    ChildInContactIsLowest(children, measuredHeight, HeaderPositionFor(children[0].adapterPos), measuredHeight);
  }

  /**
   * Pinned: when no row straddles the header's bottom edge, or the first one that
   * does is a content row, the header is drawn flush with the top.
   */
  lemma PinnedFlush(children: seq<Child>, measuredHeight: int)
    requires |children| > 0 && children[0].adapterPos != NO_POSITION
    requires forall k: nat ::
      k < |children| && InContact(children, k, measuredHeight, HeaderPositionFor(children[0].adapterPos), measuredHeight)
      && (forall j :: 0 <= j < k ==>
            !InContact(children, j, measuredHeight, HeaderPositionFor(children[0].adapterPos), measuredHeight))
      ==> !IsHeader(children[k].adapterPos)
    ensures DrawDecision(children, measuredHeight) == DrawAt(HeaderPositionFor(children[0].adapterPos), 0)
  {
    ChildInContactIsLowest(children, measuredHeight, HeaderPositionFor(children[0].adapterPos), measuredHeight);
  }

  /** The header is never drawn below its resting place at the top of the list. */
  lemma TranslationNeverDownward(children: seq<Child>, measuredHeight: int)
    ensures DrawDecision(children, measuredHeight).DrawAt? ==> DrawDecision(children, measuredHeight).translation <= 0
  {
  }

  /** The overlay; it caches the height of the header it last measured. */
  class StickHeaderItemDecoration {
    var stickyHeaderHeight: int

    constructor ()
      ensures stickyHeaderHeight == 0
    {
      stickyHeaderHeight := 0;
    }

    /**
     * Lays the header out at the list's origin with the height it measured to, and
     * caches that height.
     */
    method FixLayoutSize(measuredHeight: int) returns (header: HeaderLayout)
      modifies this
      ensures stickyHeaderHeight == measuredHeight
      ensures header == HeaderLayout(0, measuredHeight)
      ensures header.Height() == stickyHeaderHeight
    {
      stickyHeaderHeight := measuredHeight;
      header := HeaderLayout(0, stickyHeaderHeight);
    }

    /**
     * Scans the visible rows in order and stops at the first one straddling the
     * contact point, using the cached header height for the tolerance.
     */
    method GetChildInContact(children: seq<Child>, contactPoint: int, currentHeaderPos: int)
      returns (childInContact: Option<nat>)
      ensures childInContact == ChildInContact(children, contactPoint, currentHeaderPos, stickyHeaderHeight)
      ensures childInContact.Some? ==>
        (childInContact.value < |children|
         && InContact(children, childInContact.value, contactPoint, currentHeaderPos, stickyHeaderHeight)
         && forall j :: 0 <= j < childInContact.value ==>
              !InContact(children, j, contactPoint, currentHeaderPos, stickyHeaderHeight))
      ensures childInContact.None? ==>
        forall j :: 0 <= j < |children| ==> !InContact(children, j, contactPoint, currentHeaderPos, stickyHeaderHeight)
    {
      childInContact := None;
      for i := 0 to |children|
        invariant childInContact == None
        invariant FirstContactFrom(children, contactPoint, currentHeaderPos, stickyHeaderHeight, i)
               == ChildInContact(children, contactPoint, currentHeaderPos, stickyHeaderHeight)
      {
        var heightTolerance := 0;
        var child := children[i];
        if currentHeaderPos != i {
          var isChildHeader := IsHeader(child.adapterPos);
          if isChildHeader {
            heightTolerance := stickyHeaderHeight - child.height;
          }
        }
        var childBottomPosition: int;
        if child.top > 0 {
          childBottomPosition := child.bottom + heightTolerance;
        } else {
          childBottomPosition := child.bottom;
        }
        if childBottomPosition > contactPoint {
          if child.top <= contactPoint {
            childInContact := Some(i);
            break;
          }
        }
      }
      ChildInContactIsLowest(children, contactPoint, currentHeaderPos, stickyHeaderHeight);
    }

    /**
     * One draw pass. It leaves the cached height alone when it bails out, and
     * otherwise caches the measured height before scanning; what it draws is
     * DrawDecision of its inputs, whatever height was cached before.
     */
    method OnDrawOver(children: seq<Child>, measuredHeight: int) returns (d: Draw)
      modifies this
      ensures d == DrawDecision(children, measuredHeight)
      ensures stickyHeaderHeight == if d == Skip then old(stickyHeaderHeight) else measuredHeight
    {
      if |children| == 0 {
        return Skip;
      }
      var topChild := children[0];
      var topChildPosition := topChild.adapterPos;
      if topChildPosition == NO_POSITION {
        return Skip;
      }
      var headerPos := GetHeaderPositionForItem(topChildPosition);
      var currentHeader := FixLayoutSize(measuredHeight);
      var contactPoint := currentHeader.bottom;
      var childInContact := GetChildInContact(children, contactPoint, headerPos);
      if childInContact.Some? && IsHeader(children[childInContact.value].adapterPos) {
        return DrawAt(headerPos, MoveHeaderTranslation(children[childInContact.value], currentHeader));
      }
      return DrawAt(headerPos, 0);
    }
  }

  /**
   * Two passes over the same rows with the same measured height draw the same
   * thing, and leave the cached height as a single pass would.
   */
  method DrawTwice(decoration: StickHeaderItemDecoration, children: seq<Child>, measuredHeight: int)
    returns (first: Draw, second: Draw)
    modifies decoration
    ensures first == second
    ensures first == DrawDecision(children, measuredHeight)
    ensures decoration.stickyHeaderHeight
        == if first == Skip then old(decoration.stickyHeaderHeight) else measuredHeight
  {
    first := decoration.OnDrawOver(children, measuredHeight);
    second := decoration.OnDrawOver(children, measuredHeight);
  }
}
