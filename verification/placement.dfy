/** Caption placement in `extract_frames` (generate_subtitles.py lines
    95-97): the caption is centred horizontally on the frame and its baseline
    sits a fixed inset above the bottom edge, given the text's measured
    width and height. */
module Placement {

  /** Pixels between the bottom of the text box and the frame's bottom edge. */
  const BOTTOM_INSET: int := 10

  /** Python's `int(d / 2)`: halves and truncates toward zero (Dafny's `/`
      rounds toward negative infinity for negative d, so the two cases are
      written out). */
  function HalfTowardZero(d: int): (h: int)
    ensures d >= 0 ==> 0 <= h && d - 1 <= 2 * h <= d
    ensures d < 0 ==> h <= 0 && d <= 2 * h <= d + 1
  {
    if d >= 0 then d / 2 else -((-d) / 2)
  }

  /** `text_x` of line 96. */
  function TextX(frameWidth: int, textWidth: int): (x: int)
    ensures var left, right := x, frameWidth - (x + textWidth);
      if textWidth <= frameWidth then 0 <= left <= right <= left + 1
      else right <= left <= 0 && left <= right + 1
  {
    HalfTowardZero(frameWidth - textWidth)
  }

  /** `text_y` of line 97. OpenCV draws text upward from this baseline, so
      the caption occupies rows [y - textHeight, y]: its top stays inside the
      frame exactly when `2 * textHeight + 10 <= frameHeight`. */
  function TextY(frameHeight: int, textHeight: int): (y: int)
    ensures 0 <= textHeight ==> y <= frameHeight - BOTTOM_INSET
    ensures 0 <= textHeight && 2 * textHeight + BOTTOM_INSET <= frameHeight
      ==> 0 <= y - textHeight && y < frameHeight
    ensures 0 <= y - textHeight <==> 2 * textHeight + BOTTOM_INSET <= frameHeight
  {
    frameHeight - textHeight - BOTTOM_INSET
  }

  /** A caption no wider than the frame fits inside it, with left and right
      margins that differ by at most one pixel (the extra pixel on the right). */
  lemma CentredCaptionFits(frameWidth: int, textWidth: int)
    requires 0 <= textWidth <= frameWidth
    ensures 0 <= TextX(frameWidth, textWidth)
    ensures TextX(frameWidth, textWidth) + textWidth <= frameWidth
    ensures var left := TextX(frameWidth, textWidth);
      var right := frameWidth - (left + textWidth);
      right - left == (frameWidth - textWidth) % 2
  {
  }

  /** A caption wider than the frame overhangs both edges by amounts that
      differ by at most one pixel; because `int()` truncates toward zero, the
      extra pixel overhangs on the right. */
  lemma WideCaptionOverhangs(frameWidth: int, textWidth: int)
    requires frameWidth < textWidth
    ensures TextX(frameWidth, textWidth) <= 0
    ensures TextX(frameWidth, textWidth) + textWidth >= frameWidth
    ensures var overLeft := -TextX(frameWidth, textWidth);
      var overRight := TextX(frameWidth, textWidth) + textWidth - frameWidth;
      overRight - overLeft == (textWidth - frameWidth) % 2
  {
  }
}
