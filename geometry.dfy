/** The placement of the embedded view inside the window's content area. */
module Geometry {
  /** A rectangle as Electron reports and accepts bounds. */
  datatype Rect = Rect(x: int, y: int, width: int, height: int)

  /** The height reserved for the host UI above the view. */
  const HeaderHeight := 120

  /** The view's bounds: the full content width, from the bottom of the header to the bottom of the content. */
  function ViewBounds(content: Rect): (r: Rect)
    ensures r.x == 0 && r.y == HeaderHeight
    ensures r.width == content.width
    ensures r.y + r.height == content.height
  {
    Rect(0, HeaderHeight, content.width, content.height - HeaderHeight)
  }

  /** `inner` lies inside a `width` by `height` area whose origin is the content's corner. */
  predicate FitsIn(inner: Rect, width: int, height: int)
  {
    0 <= inner.x && 0 <= inner.y && 0 <= inner.width && 0 <= inner.height &&
    inner.x + inner.width <= width && inner.y + inner.height <= height
  }

  /**
   * When the content is at least as tall as the header, the view fits the
   * content exactly below the header; when it is shorter, the view's height
   * is negative.
   */
  lemma ViewFillsBelowHeader(content: Rect)
    requires 0 <= content.width
    ensures HeaderHeight <= content.height ==> FitsIn(ViewBounds(content), content.width, content.height)
    ensures ViewBounds(content).height < 0 <==> content.height < HeaderHeight
  {
  }
}
