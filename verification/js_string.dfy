/**
 * `String.prototype.includes`, which script.js uses both on stat texts (the `.` and `+`
 * tests) and on link `href`s.
 */
module JsString {

  /** `needle` occurs in `haystack` starting at `start`. */
  predicate OccursAt(haystack: string, needle: string, start: nat) {
    start + |needle| <= |haystack| && haystack[start..start + |needle|] == needle
  }

  /** `String.prototype.includes`: does `needle` occur anywhere in `haystack`? */
  function Includes(haystack: string, needle: string): (r: bool)
    ensures needle == [] ==> r
    ensures r ==> |needle| <= |haystack|
  {
    OccursAt(haystack, needle, 0) || (haystack != [] && Includes(haystack[1..], needle))
  }

  /** An occurrence one position further on in `haystack` is an occurrence in its tail. */
  lemma OccursAtTail(haystack: string, needle: string, start: nat)
    requires haystack != []
    ensures OccursAt(haystack, needle, start + 1) <==> OccursAt(haystack[1..], needle, start)
  {
    if start + 1 + |needle| <= |haystack| {
      assert haystack[start + 1..start + 1 + |needle|] == haystack[1..][start..start + |needle|];
    }
  }

  /** Every occurrence is found. */
  lemma {:induction false} IncludesComplete(haystack: string, needle: string, start: nat)
    requires OccursAt(haystack, needle, start)
    ensures Includes(haystack, needle)
    decreases start
  {
    if start > 0 {
      OccursAtTail(haystack, needle, start - 1);
      IncludesComplete(haystack[1..], needle, start - 1);
    }
  }

  /** A found needle occurs somewhere. */
  lemma {:induction false} IncludesSound(haystack: string, needle: string) returns (start: nat)
    requires Includes(haystack, needle)
    ensures OccursAt(haystack, needle, start)
    decreases |haystack|
  {
    if OccursAt(haystack, needle, 0) {
      start := 0;
    } else {
      var later := IncludesSound(haystack[1..], needle);
      OccursAtTail(haystack, needle, later);
      start := later + 1;
    }
  }

  /** `Includes` holds exactly when there is a position where the needle occurs. */
  lemma IncludesIff(haystack: string, needle: string)
    ensures Includes(haystack, needle) <==> exists start: nat :: OccursAt(haystack, needle, start)
  {
    if Includes(haystack, needle) {
      var start := IncludesSound(haystack, needle);
    }
    forall start: nat | OccursAt(haystack, needle, start)
      ensures Includes(haystack, needle)
    {
      IncludesComplete(haystack, needle, start);
    }
  }

  /** For a one-character needle, `includes` is membership. */
  lemma IncludesChar(haystack: string, c: char)
    ensures Includes(haystack, [c]) <==> c in haystack
  {
    IncludesIff(haystack, [c]);
    if c in haystack {
      var start :| 0 <= start < |haystack| && haystack[start] == c;
      assert haystack[start..start + 1] == [c];
      assert OccursAt(haystack, [c], start);
    }
    if Includes(haystack, [c]) {
      var start: nat :| OccursAt(haystack, [c], start);
      assert haystack[start] == haystack[start..start + 1][0];
    }
  }
}
