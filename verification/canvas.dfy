/** What the media-kit renderers share (assets/media_kits/generate_media_kits.py):
    the page unit, the canvas calls they make and the section title.

    A renderer is modelled by the drawing calls it issues, in order, and by
    the vertical cursor it returns. Page coordinates are in points, measured
    upwards from the bottom of the page, and are exact reals; colours, fonts
    and line widths are not modelled. */
module Canvas {

  /** One inch in points. */
  const Inch: real := 72.0

  /** Left edge of the text column. */
  const TextLeft: real := 0.75 * Inch

  /** The canvas calls the renderers make. */
  datatype DrawCall =
    | DrawString(x: real, y: real, text: string)
    | DrawCentredString(x: real, y: real, text: string)
    | Line(x1: real, y1: real, x2: real, y2: real)
    | Rect(x: real, y: real, w: real, h: real)

  function Min(a: int, b: int): int
  {
    if a <= b then a else b
  }

  /** A section title with the rule beneath it (`draw_section_title`). */
  function SectionTitle(title: string, y: real): (r: seq<DrawCall>)
    ensures |r| == 2 && r[0].DrawString? && r[1].Line?
    ensures r[0].text == title && r[0].y == y
    ensures r[1].x1 == r[0].x < r[1].x2 && r[1].y1 == r[1].y2 < y
  {
    [DrawString(TextLeft, y, title), Line(TextLeft, y - 0.1 * Inch, 7.75 * Inch, y - 0.1 * Inch)]
  }

}
