/** The header's scroll effect in script.js. */
module HeaderScroll {

  /** The `#header` element, reduced to its `scrolled` class. */
  class Header {
    var scrolled: bool
  }

  /** The header is styled as scrolled past this many pixels. */
  const Threshold: real := 50.0

  /**
   * The scroll handler: `scrolled` is set exactly when the page is scrolled past the threshold,
   * whatever it was before. Without a `#header` element the handler throws (ok is false).
   */
  method OnScroll(header: Header?, scrollY: real) returns (ok: bool)
    modifies header
    ensures ok <==> header != null
    ensures header != null ==> (header.scrolled <==> scrollY > Threshold)
  {
    if header == null {
      return false;
    }
    if scrollY > Threshold {
      header.scrolled := true;
    } else {
      header.scrolled := false;
    }
    return true;
  }
}
