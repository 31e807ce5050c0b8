# Portfolio script rules, modelled in Dafny

`js/script.js` drives a one-page portfolio site. Most of it is DOM and
animation glue. Four parts of it follow exact integer and string rules, and
this project models those four and proves their properties:

- **The hero typing effect** (`typeRole`). A cursor `(roleIdx, charIdx,
  deleting)` runs over four fixed role strings. Each tick displays a prefix
  of the current role and moves `charIdx` by one. The tick that finishes
  typing a role arms a 2000 ms pause timer, and when that timer fires,
  deleting starts. The tick on which deletion empties the role moves on to
  the next role, wrapping around the list. Ticks keep running during the
  pause, so `charIdx` overshoots the role's length. `substring` clamps its
  arguments, so the whole role stays on screen meanwhile. Module `Typing`
  models this with pure transition functions `Next`, `Shown` and `Pause`,
  and a class `TypingEffect` whose `Tick` and `PauseElapsed` methods update
  the cursor in place. `JsText` models `substring`.
- **The heading scramble frame** (`scramble`). At each animation frame, a
  prefix of the final text is resolved. The next three positions show random
  capital letters, and the rest shows the final text. Spaces and newlines are
  always copied through. The last frame sets the text to exactly the final
  text. Module `Scramble` models this: `Resolved` gives the resolved count,
  the method `BuildFrame` runs the frame's loop, and the function `Scrambled`
  specifies that loop.
- **The project carousel** (`h-track`). An interval tick and the next button
  make the same decision. When `scrollLeft >= maxScroll - 10`, they scroll to
  0. Otherwise they scroll one card (401 px) further. A paused tick does
  nothing. The previous button scrolls one card back. Module `Carousel`
  models the decision and the browser's clamping of scroll positions. Its
  class `Track` holds `scrollLeft` and `isPaused`.
- **The contact form guard**. The submit button switches to its "Message
  Sent" state only when the name, email and message fields are all present
  and non-empty. Module `ContactForm` models this.

The script's timers (`setTimeout`, `setInterval`, `requestAnimationFrame`)
are replaced by event methods that a caller invokes in any order.
`Math.random` and DOM reads are replaced by inputs.

Two consequences of the code that are easy to miss:

- From 0, on a track five cards wide showing one card, four auto-advance
  ticks reach 1604 px, the end of the track, and the fifth tick wraps to 0.
  `Carousel.FiveCardTrack` proves this.
- While the pause is pending, the whole role stays on screen, not only a
  proper prefix of it. `Typing.Shown` states this.

One behaviour of the code that the model keeps: a release timer from a button
click (`Carousel.Track.Resume`) clears `isPaused` even if the pointer is
still over the track. Auto-advance then resumes under a hovering pointer
until the pointer leaves and re-enters.

## Model

| member | source | states |
|---|---|---|
| `JsText.Substring` | js/script.js:108-110 | `substring` is the slice of the string between its two bounds, taken in increasing order and each clamped into `[0, length]`. So it is never longer than the string, and its length is the distance between the clamped bounds |
| `JsText.SubstringFromZero` | js/script.js:108-110 | `substring(0, k)` is a prefix of the string whose length is `k` clamped into `[0, length]`. It is the whole string when `k` is at least the length, and empty when `k <= 0` |
| `JsText.SubstringSymmetric` | js/script.js:108-110 | swapping the two arguments of `substring` does not change its result |
| `Typing.RolesNonEmpty` | js/script.js:96-101 | every one of the four roles is non-empty |
| `Typing.Shown` | js/script.js:107-110 | each tick displays a prefix of the current role. Its length is `charIdx + 1` when typing or `charIdx - 1` when deleting, clamped into the role. When `charIdx` exceeds the role length (the pause window), the whole role is displayed |
| `Typing.Next` | js/script.js:111-113 | a tick keeps the cursor invariant: `roleIdx` in range, `charIdx >= 0`, and `charIdx >= 1` while deleting. `charIdx` moves by exactly +1 when typing and -1 when deleting. `roleIdx` changes exactly when deleting reaches 0, to `(roleIdx + 1) % 4`, and `deleting` is reset on that tick. A tick never sets `deleting`. The pause is armed exactly when typing reaches the role length, and never while another pause is pending |
| `Typing.Pause` | js/script.js:112 | the firing pause timer is the only thing that starts deleting. It starts from a fully typed role and keeps the cursor invariant |
| `Typing.Ticks` | js/script.js:114 | any number of ticks keeps the cursor invariant, and keeps the role unless deleting was under way |
| `Typing.TypingRun` | js/script.js:111-112 | `n` typing ticks from index `c` reach index `c + n` of the same role, still typing. The pause is armed exactly when the role length lies in `(c, c + n]` |
| `Typing.DeletingRun` | js/script.js:111-113 | deleting from index `c` takes exactly `c` ticks to empty the role. The tick that empties it moves to the start of the next role, typing again |
| `Typing.RoleCycle` | js/script.js:106-114 | typing a role plus any overshoot, then the pause, then deleting, ends at the start of the next role modulo the list |
| `Typing.RoleAfterIsModulo` | js/script.js:113 | `k` successive `(roleIdx + 1) % roles.length` steps from role `r` land on role `(r + k) % roles.length` |
| `Typing.CyclesAdvance` | js/script.js:106-114 | `k` successive role cycles from the start of role `r` end at the start of the role `k` places further on |
| `Typing.FullCycleReturnsToInitial` | js/script.js:96-116 | one cycle through all four roles, with any overshoot in each, returns to the initial cursor `(0, 0, false)` |
| `Typing.TypingEffect.constructor` | js/script.js:103 | the script starts at role 0, index 0, typing, with no pause pending |
| `Typing.TypingEffect.Tick` | js/script.js:106-115 | one `typeRole` call updates the cursor as `Next` says and sets the element's text to `Shown`. It returns 35 ms when the tick leaves the cursor deleting, otherwise 80 ms |
| `Typing.TypingEffect.PauseElapsed` | js/script.js:112 | the armed pause timer firing sets `deleting`, clears the pending pause and leaves the text alone |
| `Scramble.Resolved` | js/script.js:186-187 | the resolved count never exceeds the text length. It is 0 at the first frame, and it equals the length exactly when the duration has passed (progress capped at 1) |
| `Scramble.ResolvedMonotonic` | js/script.js:186-187 | later frames never resolve fewer positions |
| `Scramble.Scrambled` | js/script.js:188-194 | the frame text has the length of the final text. Every space and newline is copied. Positions below `resolved`, and from `resolved + 3` on, equal the final text. Other positions in `[resolved, resolved + 3)` are letters A-Z |
| `Scramble.FullyResolvedIsFinal` | js/script.js:191 | with every position resolved, the frame text is exactly the final text |
| `Scramble.OnlyWindowDiffers` | js/script.js:190-193 | a frame differs from the final text only at non-whitespace positions inside the three-character window |
| `Scramble.BuildFrame` | js/script.js:188-194 | the frame loop builds exactly `Scrambled(finalText, resolved, glyphs)` |
| `Scramble.Frame` | js/script.js:184-198 | a frame requests another frame exactly while the duration has not passed. Its text is the scrambled text for the resolved count. Once the duration has passed, the text is exactly the final text |
| `Carousel.ClampScroll` | js/script.js:293-295 | the browser settles a scroll request inside `[0, maxScroll]`. An in-range target is kept, a negative one lands on 0, and one past the end lands on `maxScroll` |
| `Carousel.Advance` | js/script.js:291-296 | one advance stays inside the track. It lands on 0 exactly when `scrollLeft >= maxScroll - 10`. Otherwise it lands exactly one card (401 px) further on, or on `maxScroll` when less than a card remains |
| `Carousel.Retreat` | js/script.js:327 | the previous button moves back exactly one card, or to 0 when less than a card from the start |
| `Carousel.Advances` | js/script.js:289-297 | any number of unpaused ticks keeps the track inside its scroll range |
| `Carousel.AutoAdvanceWraps` | js/script.js:289-297 | from any position, auto-advance reaches 0 after `TicksToWrap` ticks and not before. That count is at most the number of cards left plus two |
| `Carousel.FiveCardTrack` | js/script.js:283-297 | on a track five cards wide showing one card, four ticks reach the end (1604 px), and the fifth tick wraps to 0 |
| `Carousel.Track.constructor` | js/script.js:282-285 | the track starts at scroll position 0, not paused |
| `Carousel.Track.AutoTick` | js/script.js:289-297 | a paused tick leaves the scroll position unchanged. An unpaused tick applies `Advance` |
| `Carousel.Track.NextClick` | js/script.js:312-321 | the next button pauses and applies the same `Advance` as an unpaused tick |
| `Carousel.Track.PrevClick` | js/script.js:325-329 | the previous button pauses and applies `Retreat` |
| `Carousel.Track.Hold` | js/script.js:303-305 | mouse enter and touch start (and mouse down, line 336) set `isPaused` |
| `Carousel.Track.Resume` | js/script.js:304-307 | mouse leave, and each release timer (lines 307, 320, 328, 345) when it fires, clear `isPaused` |
| `ContactForm.SubmitButton.Click` | js/script.js:378-388 | with every field filled in, the button ends in the sent state ("Message Sent", opacity 0.6, default cursor, no pointer events). With any field missing or empty, the text and all three styles are unchanged. A sent button stays sent, and the button is in the sent state afterwards exactly when it already was or every field is filled in |

## Left out

- Loader timer, nav toggles, the scroll-reveal library setup, section fade-in, skill bars and smooth scroll (js/script.js:4-11, 62-91, 218-241, 363-371): they only flip DOM classes and hold no rule to model.
- Cursor dot, ring easing and magnetic offset (js/script.js:16-57): floating-point smoothing and DOM transforms.
- Animated grid (`drawGrid`, js/script.js:121-175): floating-point geometry, trigonometry and canvas drawing.
- Stat counters (`animateCount`, js/script.js:246-273): floating-point ease-out, `parseFloat` and `toFixed` formatting.
- Carousel mouse and touch dragging (js/script.js:333-360): floating-point multipliers on pointer coordinates. Only their effect on `isPaused` is kept (`Hold`, `Resume`).
- The scramble trigger (js/script.js:202-216): the intersection observer and the `data-original` attribute are browser plumbing. Each trigger starts an independent `Scramble.Frame` sequence. The trigger always uses the default 500 ms duration (line 182), which `Scramble.Frame` takes as its `duration` input.
- Timing itself: tick intervals, the 2000 ms pause, the 3000 ms interval and the release delays are not modelled. Only the order of events is. `Typing.TypingEffect.PauseElapsed` may fire at any tick after the pause is armed. `Carousel.Track.Resume` may fire at any time, and the number of outstanding release timers is not tracked.
- `Scramble.Resolved`: computed in exact rational arithmetic from whole-millisecond timestamps. The floating-point rounding of `progress * finalText.length`, and the case where a first frame timestamp of 0 leaves `start` unset, are not modelled.
- Scramble glyphs: `Math.random` becomes one glyph index in `[0, 26)` per position, given as input. The model does not capture that only window positions consume a random number.
- Strings are sequences of Dafny characters. JavaScript's UTF-16 code-unit indexing of `finalText[i]` is not modelled.
- `Carousel.Track`: smooth scrolling is taken to finish before the next event. The track's widths are fixed for its lifetime, so a window resize is not modelled.
