/**
 * The size of the recording canvas (public/script.js, `updateCanvasSize`).
 * The canvas is as wide as the page's client area but never narrower than
 * 800 pixels, and as high as the window less 100 pixels but never lower than
 * 600 pixels.
 */
module Canvas {
  import opened Numeric

  const MinWidth: nat := 800
  const MinHeight: nat := 600
  /** Vertical space kept free for the page's controls. */
  const HeightMargin: nat := 100

  /** Width the canvas is given for a page whose client area is `clientWidth` wide. */
  function CanvasWidth(clientWidth: int): (w: int)
    ensures MinWidth <= w && clientWidth <= w
    ensures w == clientWidth || w == MinWidth
  {
    Max(clientWidth, MinWidth)
  }

  /** Height the canvas is given for a window whose inner height is `innerHeight`. */
  function CanvasHeight(innerHeight: int): (h: int)
    ensures MinHeight <= h && innerHeight - HeightMargin <= h
    ensures h == MinHeight || h == innerHeight - HeightMargin
  {
    Max(MinHeight, innerHeight - HeightMargin)
  }

  /**
   * The `<canvas>` element the client records from: its two dimensions and
   * whether its 2-D drawing context has been obtained yet.
   */
  class RecordCanvas {
    var width: nat
    var height: nat
    var hasContext: bool

    /**
     * A canvas element before the client has sized it: the HTML default of
     * 300 by 150 and no context. The client resizes it with
     * `UpdateCanvasSize` as soon as the page loads.
     */
    constructor ()
      ensures width == 300 && height == 150 && !hasContext
    {
      width, height, hasContext := 300, 150, false;
    }

    /**
     * Resizes the canvas for the current page and window size and obtains the
     * drawing context if there is none yet. Called on load, on every window
     * resize and whenever a video is added to the page.
     */
    method UpdateCanvasSize(clientWidth: int, innerHeight: int)
      modifies this
      ensures width == CanvasWidth(clientWidth) && height == CanvasHeight(innerHeight)
      ensures MinWidth <= width && MinHeight <= height
      ensures hasContext
    {
      width := CanvasWidth(clientWidth);
      height := CanvasHeight(innerHeight);
      if !hasContext {
        hasContext := true;
      }
    }
  }
}
