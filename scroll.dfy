/** The scroll-offset rules of the window procedure (bars.c): the upper
    bound `offsetMax` puts on the offset, and the new offset after a
    scroll-bar request or a turn of the mouse wheel. The handlers that
    store the offset are App.Dashboard.OnSize, OnVScroll and OnMouseWheel;
    this module gives them their meaning. */
module Scroll {
  import opened CInt
  import opened Layout

  /** `WHEEL_DELTA`: the wheel delta of one notch. */
  const WheelDelta: int := 120

  /** The largest offset `offsetMax` allows: the height of one row per bar
      plus one, less the window height. */
  function ContentLimit(barCount: int, windowHeight: int): int {
    (barCount + 1) * RowHeight - windowHeight
  }

  /** `offsetMax`: an offset above the limit is lowered to it; any other
      offset is kept. */
  function OffsetMax(barCount: int, windowHeight: int, offset: int): (r: int)
    ensures r <= offset && r <= ContentLimit(barCount, windowHeight)
    ensures r == offset || r == ContentLimit(barCount, windowHeight)
  {
    if offset > ContentLimit(barCount, windowHeight) then ContentLimit(barCount, windowHeight) else offset
  }

  /** The offset is kept exactly when it is within the limit. */
  lemma OffsetMaxKeeps(barCount: int, windowHeight: int, offset: int)
    ensures OffsetMax(barCount, windowHeight, offset) == offset <==> offset <= ContentLimit(barCount, windowHeight)
  {
  }

  /** Applying the bound twice is applying it once. */
  lemma OffsetMaxIdempotent(barCount: int, windowHeight: int, offset: int)
    ensures OffsetMax(barCount, windowHeight, OffsetMax(barCount, windowHeight, offset)) ==
            OffsetMax(barCount, windowHeight, offset)
  {
  }

  /** The `LOWORD(wParam)` codes of `WM_VSCROLL` that the handler tells
      apart; every other code leaves the offset as it was before the
      bounds are applied. */
  datatype ScrollRequest = LineUp | LineDown | ThumbPosition | ThumbTrack | OtherRequest

  /** The offset after the `switch`: one row up or down, or the thumb
      position `HIWORD(wParam)`. */
  function Stepped(request: ScrollRequest, thumb: int, offset: int): (r: int)
    ensures request == LineUp ==> r == offset - RowHeight
    ensures request == LineDown ==> r == offset + RowHeight
    ensures request.ThumbPosition? || request.ThumbTrack? ==> r == thumb
    ensures request == OtherRequest ==> r == offset
  {
    match request
    case LineUp => offset - (BarHeight + BarSpacing)
    case LineDown => offset + (BarHeight + BarSpacing)
    case ThumbPosition => thumb
    case ThumbTrack => thumb
    case OtherRequest => offset
  }

  /** The offset after `WM_VSCROLL`: the step, then `max(·, 0)`, then
      `offsetMax`. */
  function VScrolled(barCount: int, windowHeight: int, request: ScrollRequest, thumb: int, offset: int): int {
    OffsetMax(barCount, windowHeight, Max(Stepped(request, thumb, offset), 0))
  }

  /** The offset after `WM_MOUSEWHEEL`: whole notches only, one row per
      notch, then `offsetMax`; no lower bound is applied. */
  function WheelScrolled(barCount: int, windowHeight: int, delta: int, offset: int): int {
    OffsetMax(barCount, windowHeight, offset - Div(delta, WheelDelta) * RowHeight)
  }

  /** After a scroll-bar request the offset lies between 0 and the limit
      when the content is taller than the window; when it is not, the
      offset becomes the limit, which is negative. */
  lemma VScrollBounds(barCount: int, windowHeight: int, request: ScrollRequest, thumb: int, offset: int)
    ensures var r := VScrolled(barCount, windowHeight, request, thumb, offset);
            var limit := ContentLimit(barCount, windowHeight);
            (limit >= 0 ==> 0 <= r <= limit) && (limit < 0 ==> r == limit)
  {
  }

  /** Within the bounds, a line down followed by a line up returns to the
      starting offset. */
  lemma LineDownThenUp(barCount: int, windowHeight: int, offset: int)
    requires 0 <= offset && offset + RowHeight <= ContentLimit(barCount, windowHeight)
    ensures VScrolled(barCount, windowHeight, LineUp, 0,
                      VScrolled(barCount, windowHeight, LineDown, 0, offset)) == offset
  {
  }

  /** Dragging the thumb to a position within the bounds puts the offset
      there. */
  lemma ThumbSetsOffset(barCount: int, windowHeight: int, thumb: int, offset: int)
    requires 0 <= thumb <= ContentLimit(barCount, windowHeight)
    ensures VScrolled(barCount, windowHeight, ThumbTrack, thumb, offset) == thumb
    ensures VScrolled(barCount, windowHeight, ThumbPosition, thumb, offset) == thumb
  {
  }

  /** Each whole notch moves the offset one row, up for a positive delta,
      before the bound is applied. */
  lemma {:induction false} WheelNotches(barCount: int, windowHeight: int, notches: int, offset: int)
    ensures WheelScrolled(barCount, windowHeight, notches * WheelDelta, offset) ==
            OffsetMax(barCount, windowHeight, offset - notches * RowHeight)
  {
    var q := Div(notches * WheelDelta, WheelDelta);
    var rest := notches * WheelDelta - q * WheelDelta;
    assert rest == (notches - q) * WheelDelta;
    assert Abs(rest) < WheelDelta;
    assert q == notches;
  }

  /** A delta smaller than one notch does not move the offset. */
  lemma PartialNotchIgnored(barCount: int, windowHeight: int, delta: int, offset: int)
    requires -WheelDelta < delta < WheelDelta
    ensures WheelScrolled(barCount, windowHeight, delta, offset) == OffsetMax(barCount, windowHeight, offset)
  {
  }

  /** Unlike the scroll bar, the wheel can leave the offset negative even
      when the content is taller than the window. */
  lemma WheelCanGoNegative()
    ensures ContentLimit(10, 100) > 0
    ensures WheelScrolled(10, 100, 120, 0) == -80
  {
  }
}
