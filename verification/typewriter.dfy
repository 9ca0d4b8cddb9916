/**
 * The typing effect of script.js (`typeWriter`): the hero subtitle is emptied and then one
 * character is appended per timer tick. Each `setTimeout(type, ...)` callback is one call of
 * `Type`; the delays are not modelled.
 */
module Typewriter {
  import opened Dom

  /** One run of `typeWriter(element, text)`: the captured cursor `i` and whether a tick is due. */
  class TypingRun {
    const element: Element
    const text: string
    var i: nat
    var pending: bool

    /** The element holds exactly the first i characters; once no tick is due, all of them. */
    ghost predicate Valid()
      reads this, element
    {
      && i <= |text|
      && element.text == text[..i]
      && (!pending ==> i == |text|)
    }

    /** `typeWriter(element, text)`: reset the cursor and the element, and schedule a tick. */
    constructor (element: Element, text: string)
      modifies element
      ensures Valid()
      ensures this.element == element && this.text == text
      ensures i == 0 && pending && element.text == ""
    {
      this.element := element;
      this.text := text;
      i := 0;
      pending := true;
      element.text := "";
    }

    /** One tick of `type`: append the next character and schedule another tick, if any is left. */
    method Type()
      requires Valid()
      modifies this, element
      ensures Valid()
      ensures old(i) < |text| ==>
        i == old(i) + 1 && element.text == old(element.text) + [text[old(i)]] && pending
      ensures old(i) >= |text| ==> i == old(i) && element.text == old(element.text) && !pending
    {
      if i < |text| {
        element.text := element.text + [text[i]];
        i := i + 1;
        pending := true;
      } else {
        pending := false;
      }
    }
  }

  /**
   * The host's timers for one run: ticks happen while one is scheduled. After k ticks from
   * the cursor's start the element holds the first k characters more; the run ends holding
   * the whole text, after one tick per remaining character and a last tick that adds nothing.
   */
  method TypeAll(tw: TypingRun) returns (ticks: nat)
    requires tw.Valid()
    modifies tw, tw.element
    ensures tw.Valid() && !tw.pending
    ensures tw.element.text == tw.text
    ensures ticks == if old(tw.pending) then |tw.text| - old(tw.i) + 1 else 0
  {
    ticks := 0;
    while tw.pending
      invariant tw.Valid()
      invariant old(tw.pending) ==> tw.i == old(tw.i) + (if tw.pending then ticks else ticks - 1)
      invariant !old(tw.pending) ==> ticks == 0 && !tw.pending
      invariant tw.element.text == tw.text[..tw.i]
      decreases |tw.text| - tw.i, tw.pending
    {
      tw.Type();
      ticks := ticks + 1;
    }
    assert tw.text[..|tw.text|] == tw.text;
  }

  /** The load handler: type the subtitle's own text into it, when `.hero-subtitle` exists. */
  method OnLoad(subtitle: Element?) returns (tw: TypingRun?)
    modifies subtitle
    ensures subtitle == null ==> tw == null
    ensures subtitle != null ==>
      && tw != null && fresh(tw) && tw.Valid()
      && tw.element == subtitle && tw.text == old(subtitle.text)
      && tw.i == 0 && tw.pending && subtitle.text == ""
  {
    if subtitle == null {
      tw := null;
    } else {
      tw := new TypingRun(subtitle, subtitle.text);
    }
  }
}
