/**
 * The PDF document as an abstract command log. The document is a list of
 * pages; each page is the list of drawing commands issued while it was the
 * current page. A new document has one empty page and addPage appends one.
 */
module Jspdf {
  /** A4 page size in points. */
  const A4_WIDTH: real := 592.28
  const A4_HEIGHT: real := 841.89

  datatype Cmd =
    | ContentImage(x: real, y: real, w: real, h: real)   // the content raster
    | WhiteRect(x: real, y: real, width: int, height: int)// a white filled rectangle
    | HeaderImage(x: real, y: real, w: real, h: real)
    | FooterImage(x: real, y: real, w: real, h: real, now: int, count: int)

  type Doc = seq<seq<Cmd>>

  /** Math.ceil. */
  function Ceil(x: real): (c: int)
    ensures x <= c as real < x + 1.0
  {
    -((-x).Floor)
  }

  /**
   * addBlank: a white rectangle whose width and height are rounded up to
   * whole points, so it covers at least the requested area.
   */
  function AddBlank(x: real, y: real, width: real, height: real): (c: Cmd)
    ensures c.WhiteRect? && c.x == x && c.y == y
    ensures width <= c.width as real < width + 1.0
    ensures height <= c.height as real < height + 1.0
  {
    WhiteRect(x, y, Ceil(width), Ceil(height))
  }

  /**
   * Height of a raster drawn at `width`: the rasteriser keeps the element's
   * aspect ratio `aspect` (canvas height over canvas width).
   */
  function CanvasHeight(width: real, aspect: real): real {
    width * aspect
  }
}
