/** The one piece of page structure the handlers share: an element whose text they rewrite. */
module Dom {
  /** A page element, reduced to its text content (textContent / innerHTML read as plain text). */
  class Element {
    var text: string
  }
}
