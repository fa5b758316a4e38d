/**
 Placement of the suggestion popup next to a text field
 (`calculatePopupPosition`): one of four quadrants chosen from the free
 space around the field, then the coordinates clamped into the viewport.
 Coordinates are CSS pixels, modelled as reals.
 */
module PopupPosition {

  /** The field's bounding rectangle, relative to the viewport. */
  datatype Rect = Rect(left: real, top: real, right: real, bottom: real)

  /** Window size and scroll offsets. */
  datatype Viewport = Viewport(width: real, height: real, scrollX: real, scrollY: real)

  datatype Placement = BelowRight | BelowLeft | AboveRight | AboveLeft
  {
    predicate IsAbove() { this == AboveRight || this == AboveLeft }
    predicate IsLeft() { this == BelowLeft || this == AboveLeft }
  }

  /** Assumed popup size. */
  const PopupWidth: real := 300.0
  const PopupHeight: real := 250.0
  /** Gap kept between the popup and the field, and between the popup and the viewport edge. */
  const Margin: real := 5.0

  datatype Position = Position(x: real, y: real, placement: Placement)

  function Max(a: real, b: real): real { if a >= b then a else b }
  function Min(a: real, b: real): real { if a <= b then a else b }

  /** `Math.max(lo, Math.min(v, hi))`: `lo` wins when the range is empty. */
  function ClampInto(v: real, lo: real, hi: real): (c: real)
    ensures c >= lo
    ensures lo <= hi ==> c <= hi
    ensures lo <= v <= hi ==> c == v
    ensures v < lo ==> c == lo
    ensures lo <= hi < v ==> c == hi
  {
    Max(lo, Min(v, hi))
  }

  /** The popup goes above the field when it does not fit below and there is more room above. */
  predicate GoesAbove(r: Rect, v: Viewport)
  {
    var spaceAbove := r.top;
    var spaceBelow := v.height - r.bottom;
    spaceBelow < PopupHeight && spaceAbove > spaceBelow
  }

  /** The popup is right-aligned with the field when it does not fit to the right and there is more room on the left. */
  predicate GoesLeft(r: Rect, v: Viewport)
  {
    var spaceLeft := r.left;
    var spaceRight := v.width - r.right;
    spaceRight < PopupWidth && spaceLeft > spaceRight
  }

  function CalculatePopupPosition(r: Rect, v: Viewport): (p: Position)
    // the quadrant
    ensures p.placement.IsAbove() <==> GoesAbove(r, v)
    ensures p.placement.IsLeft() <==> GoesLeft(r, v)
    // never past the top-left margin of the visible page
    ensures p.x >= v.scrollX + Margin && p.y >= v.scrollY + Margin
    // inside the bottom-right margin whenever the viewport can hold the popup
    ensures v.width >= PopupWidth + 2.0 * Margin ==> p.x + PopupWidth <= v.scrollX + v.width - Margin
    ensures v.height >= PopupHeight + 2.0 * Margin ==> p.y + PopupHeight <= v.scrollY + v.height - Margin
  {
    var placement :=
      if GoesAbove(r, v) then (if GoesLeft(r, v) then AboveLeft else AboveRight)
      else (if GoesLeft(r, v) then BelowLeft else BelowRight);
    var x := if placement.IsLeft() then r.right - PopupWidth + v.scrollX else r.left + v.scrollX;
    var y := if placement.IsAbove() then r.top + v.scrollY - PopupHeight - Margin
             else r.bottom + v.scrollY + Margin;
    Position(
      ClampInto(x, v.scrollX + Margin, v.scrollX + v.width - PopupWidth - Margin),
      ClampInto(y, v.scrollY + Margin, v.scrollY + v.height - PopupHeight - Margin),
      placement)
  }

  /** Where the popup lands when it fits unclamped: a right placement lines
      its left edge up with the field's, a left placement its right edge;
      below sits `Margin` under the field, above ends `Margin` over it. */
  lemma AnchoredWhenItFits(r: Rect, v: Viewport)
    ensures var p := CalculatePopupPosition(r, v);
            var ax := if p.placement.IsLeft() then r.right + v.scrollX - PopupWidth else r.left + v.scrollX;
            var ay := if p.placement.IsAbove() then r.top + v.scrollY - Margin - PopupHeight
                      else r.bottom + v.scrollY + Margin;
            && (v.scrollX + Margin <= ax <= v.scrollX + v.width - PopupWidth - Margin ==> p.x == ax)
            && (v.scrollY + Margin <= ay <= v.scrollY + v.height - PopupHeight - Margin ==> p.y == ay)
  {
  }

  /** A field with room for the popup underneath and to its right gets the default placement. */
  lemma DefaultPlacement(r: Rect, v: Viewport)
    requires v.height - r.bottom >= PopupHeight && v.width - r.right >= PopupWidth
    ensures CalculatePopupPosition(r, v).placement == BelowRight
  {
  }
}
