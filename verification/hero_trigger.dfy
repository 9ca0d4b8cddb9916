/**
 * The one-shot trigger of the stat counter in script.js: an intersection observer on the
 * `.hero` element that starts an `animateStats` timer and stops observing the hero.
 */
module HeroTrigger {

  /** How many entries of a callback batch report the hero as intersecting. */
  function CountIntersecting(entries: seq<bool>): (n: nat)
    ensures n <= |entries|
    ensures n == 0 <==> true !in entries
  {
    if entries == [] then 0
    else CountIntersecting(entries[..|entries| - 1]) + (if entries[|entries| - 1] then 1 else 0)
  }

  /**
   * `heroObserver` and its one target. `observing` is whether the hero is still observed;
   * `scheduled` counts the `setTimeout(animateStats, 1000)` timers its callback has started.
   */
  class HeroObserver {
    var observing: bool
    var scheduled: nat

    /** No timer has been started while the hero is still observed. */
    ghost predicate Valid()
      reads this
    {
      observing ==> scheduled == 0
    }

    /** Creating the observer, and `heroObserver.observe(heroSection)` only when `.hero` exists. */
    constructor (heroPresent: bool)
      ensures Valid()
      ensures observing == heroPresent && scheduled == 0
    {
      observing := heroPresent;
      scheduled := 0;
    }

    /**
     * The observer callback on one batch of entries for the hero, given by their
     * `isIntersecting` flags: each intersecting entry starts a timer and unobserves the hero.
     */
    method Callback(entries: seq<bool>)
      modifies this
      ensures scheduled == old(scheduled) + CountIntersecting(entries)
      ensures observing == (old(observing) && true !in entries)
    {
      for i := 0 to |entries|
        invariant scheduled == old(scheduled) + CountIntersecting(entries[..i])
        invariant observing == (old(observing) && true !in entries[..i])
      {
        assert entries[..i + 1][..i] == entries[..i];
        if entries[i] {
          scheduled := scheduled + 1;
          observing := false;
        }
      }
      assert entries[..|entries|] == entries;
    }

    /**
     * The host hands a batch to the callback only while the hero is observed. The first batch
     * with an intersecting entry starts its timers and ends observation; after that no
     * visibility change starts anything.
     */
    method Deliver(entries: seq<bool>)
      requires Valid()
      modifies this
      ensures Valid()
      ensures old(observing) ==> scheduled == CountIntersecting(entries) && observing == (true !in entries)
      ensures !old(observing) ==> scheduled == old(scheduled) && !observing
    {
      if observing {
        Callback(entries);
      }
    }
  }
}
