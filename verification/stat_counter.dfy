/**
 * The stat counter of script.js (`animateStats` / `updateStat`), with exact rational
 * arithmetic in place of floating point and each `requestAnimationFrame` callback as
 * one explicit call of `UpdateStat`.
 */
module StatCounter {
  import opened Optional
  import opened StatText
  import opened Dom

  // The counter divides its target into 30 increments (`target / 30`). The 30 is written
  // as a literal throughout so that the arithmetic about it stays linear.

  /** `target / 30`; with a NaN target the increment is never added, so 0 stands for it. */
  function Increment(target: Option<nat>): (r: real)
    ensures target.Some? ==> 30.0 * r == target.value as real
  {
    if target.Some? then target.value as real / 30.0 else 0.0
  }

  /**
   * The value of `current` after n calls of `updateStat`: each of the first 30 calls adds the
   * increment, and `current` stays put from then on. With a target of 0 or NaN it stays 0.
   */
  function Progress(target: Option<nat>, n: nat): real
    decreases n
  {
    if n == 0 || target.None? || target.value == 0 then 0.0
    else if n > 30 then Progress(target, 30)
    else Progress(target, n - 1) + Increment(target)
  }

  /** Exact arithmetic: after n <= 30 increments `current` is n * target / 30. */
  lemma {:induction false} ProgressClosed(t: nat, n: nat)
    requires t >= 1 && n <= 30
    ensures Progress(Some(t), n) == (n * t) as real / 30.0
  {
    if n > 0 {
      ProgressClosed(t, n - 1);
      assert n * t == (n - 1) * t + t;
    }
  }

  /** For a positive target, n * target < 30 * target exactly when n < 30. */
  lemma ScaledBelow(t: nat, n: nat)
    requires t >= 1
    ensures n * t < 30 * t <==> n < 30
  {
    if n < 30 {
      var d: nat := 30 - n;
      assert 30 * t == n * t + d * t;
      assert d * t >= 1 * t;
    } else {
      var d: nat := n - 30;
      assert n * t == 30 * t + d * t;
      assert d * t >= 0;
    }
  }

  /** `current < target` holds exactly before the 30th increment. */
  lemma ProgressBelowTarget(t: nat, n: nat)
    requires t >= 1
    ensures Progress(Some(t), n) < t as real <==> n < 30
  {
    var m := if n < 30 then n else 30;
    assert Progress(Some(t), n) == Progress(Some(t), m);
    ProgressClosed(t, m);
    ScaledBelow(t, m);
    assert (m * t) as real / 30.0 < t as real <==> m * t < 30 * t;
  }

  /**
   * The number shown by the k-th call of `updateStat` (k >= 1): k * target / 30 rounded up,
   * which is `Math.ceil(current)` at that call.
   */
  function FrameValue(target: nat, k: nat): (r: nat)
    ensures 30 * (r - 1) < k * target <= 30 * r
  {
    (k * target + 29) / 30
  }

  /** `FrameValue` is the ceiling of `current` after k <= 30 increments. */
  lemma FrameValueIsCeil(target: nat, k: nat)
    requires k <= 30
    ensures (FrameValue(target, k) - 1) as real < Progress(Some(target), k) <= FrameValue(target, k) as real
  {
    var m := k * target;
    var q := FrameValue(target, k);
    if target >= 1 {
      ProgressClosed(target, k);
    } else {
      assert m == 0;
    }
    assert Progress(Some(target), k) == m as real / 30.0;
    assert 30 * q <= m + 29 < 30 * q + 30;
  }

  /** While counting to a target of at least 1, every shown number lies in [1, target]. */
  lemma FrameValueBounds(target: nat, k: nat)
    requires target >= 1 && 1 <= k <= 30
    ensures 1 <= FrameValue(target, k) <= target
  {
    assert k * target - target == (k - 1) * target;
    assert 30 * target - k * target == (30 - k) * target;
    assert target <= k * target <= 30 * target;
  }

  /** The shown numbers never decrease from one frame to the next. */
  lemma FrameValueMonotone(target: nat, j: nat, k: nat)
    requires j <= k <= 30
    ensures FrameValue(target, j) <= FrameValue(target, k)
  {
    ScaledMonotone(target, j, k);
    RoundUpMonotone(j * target, k * target);
  }

  lemma ScaledMonotone(t: nat, j: nat, k: nat)
    requires j <= k
    ensures j * t <= k * t
  {
    assert k * t - j * t == (k - j) * t;
  }

  lemma RoundUpMonotone(a: nat, b: nat)
    requires a <= b
    ensures (a + 29) / 30 <= (b + 29) / 30
  {
  }

  /** The 30th frame shows the target itself. */
  lemma FrameValueLast(target: nat)
    ensures FrameValue(target, 30) == target
  {
  }

  /**
   * Everything the counter writes into a stat element whose text is `original`, in order:
   * nothing for a decimal value; the original text alone when the target is NaN or 0;
   * otherwise 30 counting frames and then the original text.
   */
  function Writes(original: string): (w: seq<string>)
    ensures HasDecimalPoint(original) <==> w == []
    ensures w != [] ==> w[|w| - 1] == original
    ensures |w| <= 31
  {
    if HasDecimalPoint(original) then []
    else match Target(original)
      case Some(t) => if t >= 1 then CountingFrames(t, HasPlus(original)) + [original] else [original]
      case None => [original]
  }

  /** The 30 counting frames for a target, shown with or without `+`. */
  function CountingFrames(t: nat, plus: bool): (frames: seq<string>)
    ensures |frames| == 30
  {
    seq(30, k requires 0 <= k < 30 => FrameText(FrameValue(t, k + 1), plus))
  }

  /** A target of 0, or no digit at all, writes the original text with no counting frame. */
  lemma WritesNoCount(original: string)
    requires !HasDecimalPoint(original)
    requires Target(original) == None || Target(original) == Some(0)
    ensures Writes(original) == [original]
  {
  }

  /** The k-th counting frame's text (0-based), for a target of at least 1. */
  lemma WritesFrame(original: string, t: nat, k: nat)
    requires !HasDecimalPoint(original) && Target(original) == Some(t) && t >= 1
    requires k < 30
    ensures |Writes(original)| == 31
    ensures Writes(original)[k] == FrameText(FrameValue(t, k + 1), HasPlus(original))
  {
    assert Writes(original) == CountingFrames(t, HasPlus(original)) + [original];
  }

  /** One counting frame reads back as its number, lies in [1, target] and ends in `+` iff the original has one. */
  lemma CountingFrame(original: string, t: nat, k: nat)
    requires !HasDecimalPoint(original) && Target(original) == Some(t) && t >= 1 && k < 30
    ensures |Writes(original)| == 31
    ensures Target(Writes(original)[k]) == Some(FrameValue(t, k + 1))
    ensures 1 <= FrameValue(t, k + 1) <= t
    ensures HasPlus(original) <==> Writes(original)[k][|Writes(original)[k]| - 1] == '+'
  {
    WritesFrame(original, t, k);
    FrameValueBounds(t, k + 1);
    FrameTextTarget(FrameValue(t, k + 1), HasPlus(original));
  }

  /**
   * A target of at least 1 gives exactly 30 counting frames and then the original text.
   * Frame k reads back as a number (the text's digits) in [1, target], with `+` exactly when
   * the original has one; the numbers never decrease and the last one is the target.
   */
  lemma WritesCounting(original: string, t: nat)
    requires !HasDecimalPoint(original) && Target(original) == Some(t) && t >= 1
    ensures |Writes(original)| == 31
    ensures Writes(original)[30] == original
    ensures forall k :: 0 <= k < 30 ==>
      && Target(Writes(original)[k]) == Some(FrameValue(t, k + 1))
      && 1 <= FrameValue(t, k + 1) <= t
      && (HasPlus(original) <==> Writes(original)[k][|Writes(original)[k]| - 1] == '+')
    ensures forall j, k :: 1 <= j <= k <= 30 ==> FrameValue(t, j) <= FrameValue(t, k)
    ensures FrameValue(t, 30) == t
  {
    WritesFrame(original, t, 0);
    forall k | 0 <= k < 30 {
      CountingFrame(original, t, k);
    }
    forall j, k | 1 <= j <= k <= 30
      ensures FrameValue(t, j) <= FrameValue(t, k)
    {
      FrameValueMonotone(t, j, k);
    }
    FrameValueLast(t);
  }

  /** Extending a prefix by the next element. */
  lemma TakeOneMore<T>(s: seq<T>, n: nat)
    requires n < |s|
    ensures s[..n] + [s[n]] == s[..n + 1]
  {
  }

  /**
   * A call of `updateStat` that finds `current < target` is one of the first 30: it moves
   * `current` one increment on and writes the next counting frame.
   */
  lemma CountingCall(original: string, t: nat, n: nat, current: real, increment: real, shown: int)
    requires !HasDecimalPoint(original) && Target(original) == Some(t) && t >= 1
    requires current == Progress(Some(t), n) && current < t as real
    requires increment == Increment(Some(t))
    requires (shown - 1) as real < current + increment <= shown as real
    ensures n + 1 < |Writes(original)|
    ensures current + increment == Progress(Some(t), n + 1)
    ensures shown == FrameValue(t, n + 1)
    ensures Writes(original)[n] == FrameText(shown, HasPlus(original))
  {
    ProgressBelowTarget(t, n);
    WritesFrame(original, t, n);
    assert current + increment == Progress(Some(t), n + 1);
    FrameValueIsCeil(t, n + 1);
  }

  /**
   * A call of `updateStat` that finds `current` not below the target, made while a frame was
   * requested, is the last one: it writes the original text, the last entry of `Writes`.
   */
  lemma StoppingCall(original: string, n: nat, current: real)
    requires !HasDecimalPoint(original) && n < |Writes(original)|
    requires current == Progress(Target(original), n)
    requires !(Target(original).Some? && current < Target(original).value as real)
    ensures n == |Writes(original)| - 1
    ensures Progress(Target(original), n + 1) == current
    ensures Writes(original)[n] == original
  {
    var target := Target(original);
    if target.Some? && target.value >= 1 {
      ProgressBelowTarget(target.value, n);
      WritesFrame(original, target.value, 0);
    }
  }

  /**
   * One animation run of `updateStat` over one stat element: the closure's captured
   * `originalText`, `target`, `increment` and `current`, whether a next frame is requested,
   * and (ghost) the log of texts written so far.
   */
  class CounterRun {
    const stat: Element
    const originalText: string
    const target: Option<nat>
    const increment: real
    var current: real
    var pending: bool
    ghost var written: seq<string>

    ghost predicate Valid()
      reads this, stat
    {
      && !HasDecimalPoint(originalText)
      && target == Target(originalText)
      && increment == Increment(target)
      && |written| <= |Writes(originalText)|
      && written == Writes(originalText)[..|written|]
      && (written != [] ==> stat.text == written[|written| - 1])
      && (pending <==> |written| < |Writes(originalText)|)
      && current == Progress(target, |written|)
    }

    /** The set-up in `animateStats` for a stat without a decimal point, before the first call. */
    constructor (stat: Element)
      requires !HasDecimalPoint(stat.text)
      ensures Valid()
      ensures this.stat == stat && originalText == stat.text
      ensures target == Target(stat.text) && current == 0.0
      ensures pending && written == []
    {
      this.stat := stat;
      originalText := stat.text;
      target := Target(stat.text);
      increment := Increment(Target(stat.text));
      current := 0.0;
      pending := true;
      written := [];
    }

    /** `current < target`, where a comparison with NaN is false. */
    predicate Counting()
      reads this
    {
      target.Some? && current < target.value as real
    }

    /**
     * One call of `updateStat`. While counting it adds the increment and shows the rounded-up
     * value (with `+` when the original has one) and requests another frame; otherwise it
     * writes the original text back and requests nothing. Each call made while a frame was
     * requested writes the next text of `Writes(originalText)`.
     */
    method UpdateStat()
      requires Valid()
      modifies this, stat
      ensures Valid()
      ensures old(Counting()) ==>
        && current == old(current) + increment && pending
        && (FrameValue(target.value, |written|) - 1) as real < current <= FrameValue(target.value, |written|) as real
        && stat.text == FrameText(FrameValue(target.value, |written|), HasPlus(originalText))
      ensures !old(Counting()) ==> current == old(current) && stat.text == originalText && !pending
      ensures old(pending) ==> written == old(written) + [Writes(originalText)[|old(written)|]]
      ensures !old(pending) ==> written == old(written) && stat.text == originalText
    {
      var n := |written|;
      if target.Some? && current < target.value as real {
        ghost var before := written;
        var next := current + increment;
        var shown := Ceil(next);
        CountingCall(originalText, target.value, n, current, increment, shown);
        TakeOneMore(Writes(originalText), n);
        current := next;
        stat.text := FrameText(shown, HasPlus(originalText));
        pending := true;
        written := before + [stat.text];
      } else {
        if pending {
          StoppingCall(originalText, n, current);
          TakeOneMore(Writes(originalText), n);
          written := written + [originalText];
        }
        stat.text := originalText;
        pending := false;
      }
    }
  }

  /**
   * Two runs on the same stat break the round trip. If a second `animateStats` starts after a
   * first run on "50+" has made its first write, it reads that frame, "2+", as its original
   * text. Both runs make 31 writes, so the second run writes last, and its last write leaves
   * "2+" showing instead of "50+".
   */
  lemma OverlappingRunsWitness()
    ensures |Writes("50+")| == 31 && Writes("50+")[0] == "2+" && Writes("50+")[30] == "50+"
    ensures |Writes("2+")| == 31 && Writes("2+")[30] == "2+" != "50+"
  {
    assert NatToString(50) == "50" by {
      assert NatToString(5) == "5";
    }
    assert FrameText(50, true) == "50+";
    FrameTextTarget(50, true);
    assert FrameText(2, true) == "2+";
    FrameTextTarget(2, true);
    WritesCounting("50+", 50);
    WritesFrame("50+", 50, 0);
    assert FrameValue(50, 1) == 2;
    WritesCounting("2+", 2);
  }

  /**
   * The host's frame loop for one run: it calls `updateStat` for as long as a frame is
   * requested. It stops after at most 31 calls, with the element holding its original text.
   */
  method DriveToEnd(run: CounterRun) returns (frames: nat)
    requires run.Valid()
    modifies run, run.stat
    ensures run.Valid() && !run.pending
    ensures run.written == Writes(run.originalText)
    ensures run.stat.text == run.originalText
    ensures frames == |Writes(run.originalText)| - |old(run.written)| && frames <= 31
  {
    var total := |Writes(run.originalText)|;
    frames := 0;
    while run.pending
      invariant run.Valid()
      invariant frames == |run.written| - |old(run.written)|
      decreases total - |run.written|
    {
      run.UpdateStat();
      frames := frames + 1;
    }
    assert run.written == Writes(run.originalText);
  }

  /**
   * What `animateStats` leaves for one stat whose text was `original`: a stat with a decimal
   * point keeps its text and has no run; any other has a run over it that has made its first
   * call of `updateStat`.
   */
  ghost predicate Started(stat: Element, original: string, run: CounterRun?)
    reads stat, run
    reads if run != null then {run.stat} else {}
  {
    if HasDecimalPoint(original) then run == null && stat.text == original
    else
      && run != null && run.stat == stat && run.originalText == original
      && run.Valid() && |run.written| == 1
  }

  /** The `forEach` body of `animateStats` for one stat. */
  method StartRun(stat: Element) returns (run: CounterRun?)
    modifies stat
    ensures Started(stat, old(stat.text), run)
    ensures run != null ==> fresh(run)
  {
    if HasDecimalPoint(stat.text) {
      return null;
    }
    run := new CounterRun(stat);
    run.UpdateStat();
  }

  /** `animateStats` over the `.stat-number` elements, each independently. */
  method AnimateStats(stats: seq<Element>) returns (runs: seq<CounterRun?>)
    requires forall i, j :: 0 <= i < j < |stats| ==> stats[i] != stats[j]
    modifies set e | e in stats
    ensures |runs| == |stats|
    ensures forall i :: 0 <= i < |stats| ==> Started(stats[i], old(stats[i].text), runs[i])
    ensures forall i :: 0 <= i < |stats| && runs[i] != null ==> fresh(runs[i])
  {
    runs := [];
    for i := 0 to |stats|
      invariant |runs| == i
      invariant forall j :: i <= j < |stats| ==> stats[j].text == old(stats[j].text)
      invariant forall j :: 0 <= j < i ==> Started(stats[j], old(stats[j].text), runs[j])
      invariant forall j :: 0 <= j < i && runs[j] != null ==> fresh(runs[j])
    {
      var run := StartRun(stats[i]);
      runs := runs + [run];
    }
  }
}
