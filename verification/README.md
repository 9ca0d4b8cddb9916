# Portfolio page script: a verified model of its event-handler logic

`script.js` is the one browser script of a personal portfolio page. Most of it wires the page
to browser events, but a few of its handlers hold small exact rules. This project states those
rules in Dafny and proves what they promise. Page elements become records or small classes
(a text, a few class flags). Each timer or animation-frame callback becomes one explicit method
call. The modelled parts are:

- **Stat counter** (`animateStats` / `updateStat`). A stat whose text contains `.` is never
  touched. Otherwise the target is `parseInt` of the text's digit characters, and each frame
  adds `target / 30` to `current`. While `current < target`, a frame shows `Math.ceil(current)`,
  with `+` appended when the original text has a `+`, and requests another frame. Otherwise it
  writes the original text back. `Writes` is the full list of texts one run writes, and
  `CounterRun.UpdateStat` is proved to write exactly that list. Further lemmas prove:
  - a positive target gives exactly 30 counting frames, then the original text;
  - each counting frame reads back as a number in `[1, target]`;
  - the frame numbers never decrease, and the 30th one is the target;
  - a target of 0, or text with no digit (NaN), writes the original text with no counting frame.
- **One-shot trigger** (`heroObserver`). The first callback batch with an intersecting entry
  starts the `animateStats` timer and stops observing the hero. Later visibility changes start
  nothing. Without a `.hero` element nothing is observed.
- **Typewriter** (`typeWriter`). The subtitle is emptied, and each tick appends the next
  character. The element always holds the first `i` characters. It ends with the whole text
  after one tick per character, plus a last tick that adds nothing and schedules nothing.
- **Active navigation link**. The scroll handler picks the id of the last section, in document
  order, with `scrollY >= offsetTop - 200`, or `""` when there is none. Each link is then
  active iff its `href` contains that id, so an empty id makes every link active.
  `Includes` (`String.prototype.includes`, shared with the `.` and `+` tests of the counter) is
  proved equal to "occurs at some position".
- **Mobile menu**. Four flags: button active, nav list active, overlay shown, body scroll
  locked. Toggling keeps overlay and scroll lock equal to the nav list's state. Toggling also
  keeps the button in step with the nav list when it was in step before. Closing (overlay click
  or link click) always reaches the closed state, so repeating it changes nothing.
- **Header**. After the scroll handler runs, `scrolled` is set iff `scrollY > 50`, whatever it
  was before.

Arithmetic is exact: `current` and the increment are Dafny `real`s (rationals), not IEEE
doubles. `scrollY` is a `real` too, since browsers can report fractional scroll positions.

Where the code and a plain reading of the feature differ, the model follows the code:

- The `+` is re-appended when the original text contains `+` anywhere, not only at its end
  (script.js:178).
- Text without digits gives a NaN target, not 0. Every comparison with NaN is false, so this
  behaves like a target of 0: the first call writes the original text back.
- A section without an `id` attribute sets the current id to `null`. `includes(null)` then
  searches for the text `"null"`, and the model does the same (`AttrText`).
- A link without an `href` makes `getAttribute("href").includes` throw. The loop stops at that
  link: it has already lost `active`, and the later links keep their state
  (`HighlightLinks` returns `false`).
- `unobserve` does not drop entries already handed to the callback. So one batch holding
  several intersecting entries for the hero starts one timer per entry.
  `HeroObserver.Callback` states this count exactly. Across batches, the trigger still fires at
  most once. The runs started by two such timers overlap on each stat, and the stat can end on
  a frame instead of its original text (`OverlappingRunsWitness`).
- Set-up of the mobile menu only adds the hidden overlay. It keeps whatever `active` classes
  and body overflow the page already has, so the menu starts closed only on a page where all
  three are off.

Files: `optional.dfy` (Option), `dom.dfy` (an element's text), `js_string.dfy` (`includes`),
`stat_text.dfy` (the pure
parsing and formatting of the counter), `stat_counter.dfy`, `hero_trigger.dfy`,
`typewriter.dfy`, `active_nav.dfy`, `mobile_menu.dfy`, `header.dfy`.

## Model

| member | source | states |
|---|---|---|
| StatText.HasDecimalPoint | script.js:166 | `originalText.includes(".")`, defined through `Includes`, holds iff the text contains a `.` |
| StatText.HasPlus | script.js:178 | `originalText.includes("+")`, defined through `Includes`, holds iff the text contains a `+` anywhere |
| StatText.StripNonDigits | script.js:170 | the result holds digits only, is no longer than the text, and is the text itself when the text is all digits |
| StatText.StripNonDigitsAppend | script.js:170 | stripping distributes over concatenation, so exactly the text's digits are kept, in order |
| StatText.StripNonDigitsEmpty | script.js:170 | the stripped text is empty iff the text has no digit |
| StatText.ParseDigits | script.js:170 | `parseInt` of a digit string is NaN (None) exactly for the empty string |
| StatText.Target | script.js:170 | `parseInt` of the stripped text, with None for NaN; what it yields is stated by `TargetOfText` |
| StatText.TargetOfText | script.js:170 | the target is NaN iff the text has no digit, and otherwise the decimal value of its digits in order |
| StatText.NatToString | script.js:177-181 | a number's text is non-empty, all digits, and has no leading zero |
| StatText.NatToStringRoundTrip | script.js:177-181 | reading a number's decimal text back gives the number |
| StatText.Ceil | script.js:177 | `Math.ceil`: the result r satisfies r - 1 < x <= r |
| StatText.FrameText | script.js:177-181 | the text of a frame, `String(displayValue)` then `+` when asked for; what it reads back as is stated by `FrameTextTarget` |
| StatText.FrameTextTarget | script.js:177-181 | a frame's text parses back (digits only) to the shown number, and ends in `+` iff `+` was asked for |
| StatCounter.Increment | script.js:171 | `target / 30`: thirty increments add up to the target |
| StatCounter.Progress | script.js:172-176 | `current` after n calls: the increment is added on each call that finds `current < target`; its closed form is stated by `ProgressClosed` |
| StatCounter.FrameValue | script.js:177 | the number shown on the k-th call is the integer ceiling of k * target / 30: 30 * (r - 1) < k * target <= 30 * r |
| StatCounter.ProgressClosed | script.js:171-176 | with exact arithmetic, `current` after n <= 30 increments is n * target / 30 |
| StatCounter.ProgressBelowTarget | script.js:175 | `current < target` holds exactly before the 30th increment |
| StatCounter.FrameValueIsCeil | script.js:176-177 | the frame number k * target / 30 rounded up is the ceiling of `current` after k increments |
| StatCounter.FrameValueBounds | script.js:176-177 | for a positive target, every frame number from the 1st to the 30th lies in [1, target] |
| StatCounter.FrameValueMonotone | script.js:176-177 | frame numbers never decrease from one frame to a later one |
| StatCounter.FrameValueLast | script.js:171-177 | the 30th frame shows the target itself |
| StatCounter.Writes | script.js:164-188 | a stat with `.` gets no write; every other run writes at most 31 texts and ends with the original text |
| StatCounter.CountingFrames | script.js:177-181 | there are 30 counting frames |
| StatCounter.WritesNoCount | script.js:170-185 | a target of 0 or NaN writes the original text once, with no counting frame |
| StatCounter.WritesFrame | script.js:176-181 | frame k of a positive target's run shows the (k+1)-th frame number, with `+` iff the original has one |
| StatCounter.CountingFrame | script.js:176-181 | each counting frame reads back as its number, lies in [1, target] and ends in `+` iff the original has one |
| StatCounter.WritesCounting | script.js:171-188 | a positive target gives 31 writes: 30 frames whose numbers are in [1, target], never decrease and end at the target, then the original text |
| StatCounter.CountingCall | script.js:175-182 | a call that finds `current < target` is one of the first 30; `current` moves one increment on and the shown ceiling is the next frame of `Writes` |
| StatCounter.StoppingCall | script.js:183-185 | a call that finds `current` not below the target (or NaN) is the last write, and writes the original text |
| StatCounter.CounterRun.constructor | script.js:165-172 | the run captures the original text, parses the target, and starts at `current` = 0 with no write yet |
| StatCounter.CounterRun.Counting | script.js:175 | the branch test `current < target` of the next call |
| StatCounter.CounterRun.UpdateStat | script.js:174-186 | the code's branch (add, show the ceiling with `+`, request a frame / write the original, stop), and each requested call writes the next entry of `Writes` while keeping the run invariant |
| StatCounter.DriveToEnd | script.js:182-188 | calling back while a frame is requested stops after at most 31 calls, with exactly `Writes` written and the original text shown |
| StatCounter.OverlappingRunsWitness | script.js:165-188 | two runs on one stat: a second run started after the first frame of "50+" takes "2+" as its original text, makes its last write after the first run's, and leaves "2+" showing |
| StatCounter.StartRun | script.js:164-189 | a stat with `.` keeps its text and gets no run; any other gets a fresh valid run that has made its first write |
| StatCounter.AnimateStats | script.js:162-190 | every stat is handled independently as in `StartRun` |
| HeroTrigger.CountIntersecting | script.js:194-198 | the count is at most the batch size and is 0 iff no entry intersects |
| HeroTrigger.HeroObserver.constructor | script.js:193-205 | the hero is observed iff it exists, and no timer is started yet |
| HeroTrigger.HeroObserver.Callback | script.js:193-200 | each intersecting entry starts one timer, and observation ends iff some entry intersects |
| HeroTrigger.HeroObserver.Deliver | script.js:195-198 | while observing, a batch starts its timers and ends observation if any entry intersects; once not observing, nothing changes; no timer exists while observing |
| Typewriter.TypingRun.constructor | script.js:117-130 | the cursor is 0, the element is empty, and a tick is scheduled |
| Typewriter.TypingRun.Type | script.js:121-127 | a tick before the end appends the next character and schedules another; at the end it changes nothing and schedules nothing; the element always holds the first i characters |
| Typewriter.TypeAll | script.js:121-129 | the ticks end with the element holding the whole text, after one tick per remaining character plus one |
| Typewriter.OnLoad | script.js:133-139 | with a subtitle, a run over its own text starts and empties it; without one, nothing happens |
| ActiveNav.Reached | script.js:148 | `window.scrollY >= sectionTop - 200` |
| ActiveNav.LastReached | script.js:143-151 | the index found is a reached section with no reached section after it; None means no section is reached |
| ActiveNav.AttrText | script.js:149 | an attribute value as text: an absent attribute (null) reads as `"null"` when passed to `includes` |
| ActiveNav.CurrentId | script.js:143-151 | the id the scan settles on: `""` when `LastReached` finds no section, else that section's id as text |
| ActiveNav.ScanSections | script.js:143-151 | the loop ends with the id of the last reached section, `"null"` for a missing id, or `""` when none is reached |
| JsString.Includes | script.js:155 | the empty needle is always included; an included needle is no longer than the haystack |
| JsString.IncludesComplete | script.js:155 | every position where the needle occurs makes `includes` hold |
| JsString.IncludesSound | script.js:155 | when `includes` holds, the needle occurs at some position |
| JsString.IncludesIff | script.js:155 | `includes` holds iff the needle occurs at some position |
| JsString.IncludesChar | script.js:166 | for a one-character needle, `includes` holds iff the character is in the text |
| ActiveNav.FirstMissingHref | script.js:153-158 | every link before the returned position has an `href`, and the link at it has none |
| ActiveNav.HighlightLinks | script.js:153-158 | each link up to the first without `href` is active iff its `href` includes the id; that link loses `active`; later links are untouched; success iff every link has an `href` |
| ActiveNav.OnScroll | script.js:142-159 | links are marked against the last reached section's id, and all of them (up to a missing `href`) are active when no section is reached |
| MobileMenu.Menu.constructor | script.js:54-68 | the overlay starts hidden; from a closed page the menu starts closed and consistent |
| MobileMenu.Menu.Toggle | script.js:77-90 | both classes flip; overlay and scroll lock follow the nav list; the consistency invariant is kept when button and nav list agreed |
| MobileMenu.Menu.Close | script.js:93-110 | from any state the menu ends closed and consistent, so repeating it changes nothing |
| MobileMenu.SetupMobileMenu | script.js:47-68 | no menu without both the button and the nav list; otherwise a fresh menu with the overlay hidden and the page's own `active` classes and overflow kept, closed iff all three were off, and out of step when the nav list was already active |
| HeaderScroll.OnScroll | script.js:17-26 | `scrolled` is set iff `scrollY > 50`, whatever it was before; a missing header makes the handler fail |

## Left out

- StatCounter.WritesCounting: assumes exact rational arithmetic. With IEEE doubles, repeated
  `target / 30` additions can land just below or above the target. A 31st counting frame, or a
  frame showing target + 1, is then possible.
- StatCounter.DriveToEnd: its bound of 31 calls holds for exact arithmetic only, for the reason
  above.
- StatText.TargetOfText: `parseInt` loses precision on digit strings above 2^53. The model
  parses them exactly.
- StatText.NatToString: JavaScript writes numbers of 10^21 and above in exponent form. The model
  always writes plain digits.
- Timing: the 1000 ms animation delay, the 1500 ms and 100 ms typing delays, and frame pacing
  are not modelled. Each callback is one explicit call. Runs for different stats are
  independent, and their interleaving by the browser is not modelled.
- StatCounter.DriveToEnd: assumes the run is the only one writing its stat. When one observer
  batch starts two `animateStats` timers, two runs overlap on the same stat. The second reads a
  frame of the first as its original text, and the stat ends on that frame instead of its
  original text (`OverlappingRunsWitness`). Overlapping runs on one stat are not modelled
  beyond this witness.
- The `animateStats` timer started by the hero observer is only counted
  (`HeroObserver.scheduled`). Its firing is a separate call of `AnimateStats`.
- DOM querying, event registration and the IntersectionObserver options (script.js:2-14,
  29-44, 193-200) are replaced by parameters: element lists, a presence flag and batches of
  `isIntersecting` flags.
- Typewriter: `innerHTML` HTML parsing is not modelled, and the text is a plain character
  sequence. JavaScript's UTF-16 code units are treated as characters.
- Smooth scrolling on anchor clicks (script.js:1-14): a `window.scrollTo` call to
  `offsetTop - 80`, a foreign call with no rule to state.
- Fade-in reveal (script.js:28-44), card hover transforms (script.js:207-225), the overlay's
  inline CSS and the injected style sheet (script.js:56-74), the footer year (script.js:240-242,
  263-265), the `loaded` class and forced reflow (script.js:256-262) and the console message
  (script.js:244-253): cosmetic effects, a clock read, or output.
- `debounce` (script.js:227-238): timer-based and never called in the file.
- The overlay's opacity and visibility are always set together, so they are one flag. The
  body's overflow is either "hidden" or "", so it is one flag too.
