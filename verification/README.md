# Entornet Fibra landing page: the decision rules of `script.js`

This project models the small state machines inside the landing page's
behaviour script. Each one is an immutable state record with pure step
functions and lemmas over runs of events:

- **Jitter oscillator** (`jitterCounter`): once a speed counter has settled,
  it alternates between `base + 1` and `base`.
- **Counter frame loop** (`animateCounter`): counts from 0 towards the target
  in fixed increments, writes the exact target last, and hands speed-meter
  counters to the jitter.
- **Counter observer** (the `IntersectionObserver` callback): starts a
  counter when its element intersects and carries a `data-value`, and then
  stops observing that element.
  - `parseInt(value, 10)` is modelled as its ECMAScript definition.
- **Plan tabs** (the tab click handler): the clicked button becomes the only
  active one, and each panel is active exactly when its category matches.
- **Testimonial slider**: shows exactly one card and advances modulo the
  number of cards.
- **Promotional modal**: shown at most once per session, behind the
  `gamerModalSeen` session flag. Also modelled: its show/hide functions and
  its close listeners.
- **`debounce`**: a single timeout slot that every call replaces.
- **Contact message**: the greeting, then one `name: value` line per
  property.
  - This passes through `Object.fromEntries` and `Object.entries`. Both are
    modelled with their ECMAScript property ordering: array-index keys come
    first, in ascending order.
  - A repeated field name, such as a group of checkboxes, gives one line. It
    stands at the place of the name's first field and carries the value of
    its last field.

Time, animation frames and intervals are modelled as discrete events. The
DOM is reduced to the flags and attributes each rule reads or writes.
`sessionStorage` is a single boolean. Numbers are exact: counters use `real`
and integers are unbounded.

The toggle flag starts cleared, so the first tick writes `base + 1`
(script.js:42, 49); `Jitter.StartedAlternates` proves the sequence
`base + 1, base, base + 1, ...`.

Files:

| file | module |
|---|---|
| `wrappers.dfy` | `Wrappers` (`Option`) |
| `jitter.dfy` | `Jitter` |
| `counter.dfy` | `Counter` |
| `parse_int.dfy` | `JsParseInt` |
| `observer.dfy` | `Observer` |
| `tabs.dfy` | `Tabs` |
| `testimonials.dfy` | `Testimonials` |
| `modal.dfy` | `Modal` |
| `debounce.dfy` | `Debounce` |
| `js_object.dfy` | `JsObject` |
| `contact_message.dfy` | `ContactMessage` |

## Model

| member | source | states |
|---|---|---|
| Jitter.Start | script.js:41-42 | a new oscillator keeps the base value with the toggle flag cleared |
| Jitter.Tick | script.js:45-52 | a tick writes `base` when toggled and `base + 1` otherwise, then flips the flag, so the next tick writes the other value |
| Jitter.RunClosedForm | script.js:45-52 | tick `i` of any oscillator writes `base + 1` exactly when the flag, flipped `i` times from its start, is cleared |
| Jitter.StartedAlternates | script.js:41-52 | a started oscillator writes `base + 1` on even ticks and `base` on odd ticks, beginning with `base + 1` |
| Jitter.StrictlyAlternates | script.js:45-52 | two successive ticks never write the same value, and ticks two apart always do |
| Counter.IncrementAdmissible | script.js:11 | with a duration longer than one frame, the per-frame increment `target / (duration / 16.67)` lets the loop terminate for every integer target |
| Counter.Frames | script.js:14-29 | the frame loop always ends, and its last write is the exact target |
| Counter.FramesFromZero | script.js:10-29 | starting from 0, write `i` before the last is `floor` of `current` after `i + 1` increments, still below the target, and the loop stops at the first frame reaching the target |
| Counter.Animate | script.js:9-29 | every write but the last is progress strictly below the target; the last write is the exact target, made by the first frame that reaches it; jitter starts on the target exactly when the counter is inside a speed meter |
| Counter.TextsBounded | script.js:14-23 | for a non-negative target, every displayed text lies in `[0, target]`, the texts never count down, and the last one is the target |
| JsParseInt.TrimStart | script.js:172 | `parseInt`'s leading-white-space skip removes exactly a maximal prefix of ECMAScript white space |
| JsParseInt.DigitPrefix | script.js:172 | the digits `parseInt` reads are the longest run of decimal digits at the front |
| JsParseInt.ParseInt | script.js:172 | `parseInt(s, 10)` is `NaN` exactly when no digit follows the white space and the optional sign |
| JsParseInt.ParseDecimal | script.js:172 | `parseInt` recovers any integer from its decimal text, whatever white space precedes it and whatever non-digit follows it |
| Observer.Init | script.js:183-185 | every counter element starts observed and no animation has started |
| Observer.RequestFor | script.js:168-174 | the animation a firing entry starts targets its element, with `parseInt` of its `data-value` and duration 2000 |
| Observer.HandleEntry | script.js:166-177 | an intersecting entry with a non-empty `data-value` starts one animation and unobserves its element; any other entry changes nothing |
| Observer.CallbackEffect | script.js:165-180 | a batch appends exactly its firing entries' animations, in batch order, and unobserves exactly their elements |
| Observer.NoValueStaysObserved | script.js:167-171 | an intersecting element without a usable `data-value` is not animated and stays observed |
| Observer.CallbackKeepsAtMostOnce | script.js:165-180 | a batch the browser delivers keeps every element animated at most once, with animated elements unobserved |
| Observer.AnimatedAtMostOnce | script.js:165-185 | over any run of delivered batches from page load, each counter is animated at most once |
| Observer.RepeatedEntryAnimatesTwice | script.js:166-177 | the callback does not recheck observation, so a batch naming an element twice animates it twice |
| Tabs.Click | script.js:137-155 | without panels or without a truthy `data-tab`, a click changes nothing; otherwise the clicked button is the only active button, a panel is active exactly when its `data-category` equals the key, and no attribute changes |
| Tabs.ClickSelects | script.js:144-154 | after an effective click the set of active buttons is exactly the clicked one, and the set of active panels is exactly those of the key's category |
| Tabs.ClickForgetsHistory | script.js:144-154 | the result of a click does not depend on which tab was active before |
| Tabs.ClickIdempotent | script.js:139-155 | clicking the same button twice is the same as clicking it once |
| Tabs.GamerScenario | script.js:140-154 | clicking the `gamer` button deactivates the `residencial` button and panel and activates the `gamer` ones |
| Testimonials.Show | script.js:389-395 | after `showTestimonial(index)` exactly the card at `index` is displayed, and only it fades in |
| Testimonials.Init | script.js:388-402 | on load the index is 0, and the cards are untouched when there are none |
| Testimonials.Next | script.js:397-400 | `nextTestimonial` advances the index to `(i + 1) mod n` |
| Testimonials.InitValid | script.js:402 | the initial page shows card 0 alone |
| Testimonials.NextValid | script.js:397-400 | each rotation leaves the index in `[0, n)` with exactly that card shown |
| Testimonials.AfterShows | script.js:397-403 | after `k` ticks the slider shows card `k mod n` and no other |
| Testimonials.Periodic | script.js:398 | the rotation repeats every `n` ticks |
| Modal.Show | script.js:222-226 | `showGamerModal` activates the overlay when it exists and touches nothing else |
| Modal.Hide | script.js:228-232 | `hideGamerModal` deactivates the overlay when it exists and touches nothing else |
| Modal.AfterLoad | script.js:197-217 | without a loading screen nothing happens; otherwise the loading screen hides; if the flag is absent, the modal opens exactly when the show function and the overlay exist, and the flag is set either way; if the flag is present, neither the modal nor the flag changes |
| Modal.HandleClick | script.js:235-249 | the close and "Conhecer" buttons and a click on the backdrop close the modal; a click inside the dialog changes nothing |
| Modal.Visit | script.js:205-212 | a load shows the modal only if the flag was absent, and it always leaves the flag set when it shows it; a set flag stays set and suppresses the modal |
| Modal.SeenSuppresses | script.js:205 | once the flag is set, no later load of the session shows the modal |
| Modal.AtMostOncePerSession | script.js:205-212 | the modal is shown at most once per session, whatever each load's page provides |
| Modal.ReloadScenario | script.js:197-212 | the first load of a session shows the modal and a reload does not |
| Modal.SkippedRevealSuppresses | script.js:207-211 | the flag is set even when the reveal was skipped, so the session never shows the modal |
| Debounce.Create | script.js:105-106 | a new debounced function has no pending timeout and has run nothing |
| Debounce.Step | script.js:107-114 | a call replaces the pending timeout with one due `wait` later that carries its arguments, and runs nothing; letting time pass runs `func` once, with the captured arguments, if the timeout falls due; the slot stays within `wait` of now |
| Debounce.RunWellTimed | script.js:112-113 | over any event sequence, at most one timeout is pending, never more than `wait` ahead; earlier runs of `func` are kept; `func` runs at most once per event |
| Debounce.BurstPending | script.js:112-113 | during a burst of calls less than `wait` apart nothing runs, and afterwards one timeout is pending, due `wait` after the last call, with that call's arguments |
| Debounce.QuietFires | script.js:108-110 | a pending timeout due `wait` from now runs `func` once with its arguments after `wait` of quiet, and empties the slot |
| Debounce.OncePerBurst | script.js:105-114 | a burst followed by `wait` of quiet runs `func` exactly once, `wait` after the last call, with the last call's arguments |
| JsObject.Put | script.js:370 | defining a property keeps an existing name in its place with the new value, and appends a new name at the end |
| JsObject.FromEntries | script.js:370 | `Object.fromEntries` gives every name once, has the same names as the pairs, and gives each name the value of its last pair |
| JsObject.FromEntriesDistinct | script.js:370 | pairs with distinct names come back unchanged and in order |
| JsObject.FirstKeysOrder | script.js:370 | the first-occurrence names of a list are ordered by where each name first occurs |
| JsObject.FromEntriesKeyOrder | script.js:370 | for any pairs, repeated names included, `Object.fromEntries` lists each name once, at the place of its first pair |
| JsObject.FromEntriesMerged | script.js:370 | for any pairs, `Object.fromEntries` is the first-occurrence names, each paired with the value of its last pair |
| JsObject.RepeatedNameScenario | script.js:370 | a repeated form field keeps its first position and takes its last value |
| JsObject.SortByIndex | script.js:373 | the array-index properties, sorted by ascending index, as a permutation of the input |
| JsObject.Entries | script.js:373 | `Object.entries` lists every property exactly once |
| JsObject.EntriesOrder | script.js:373 | array-index keys come first, in ascending order, and the other keys keep insertion order |
| JsObject.EntriesWithoutIndices | script.js:373 | without array-index keys, `Object.entries` lists the properties in insertion order |
| ContactMessage.Message | script.js:369-375 | every message starts with the fixed greeting |
| ContactMessage.LinesAppend | script.js:373-375 | the lines of two lists of fields are the lines of the first followed by those of the second |
| ContactMessage.MessageInFormOrder | script.js:369-375 | a form with distinct, non-numeric field names yields the greeting, then one `name: value` line per field in form order |
| ContactMessage.MessageMergesRepeats | script.js:369-375 | for a form whose field names are not array indices, repeated names included, the message is the greeting, then one `name: value` line per distinct name, in order of its first field, with the value of its last field |

## Left out

- Jitter.Start: takes the integer target as the base and does not model `parseInt(String(target), 10)` at script.js:41 on Numbers. For a target whose magnitude is 10^21 or more, `String` gives exponent notation, so the script's base becomes the leading digits of that notation: 1 for 10^21 (`"1e+21"`), 2 for 2·10^21, -4 for -4·10^21. At or above 2^53, `numBaseValue + 1` rounds to the nearest double, so a tick may write the base itself (2^53 + 1 rounds to 2^53) or base + 2 (2^53 + 3 rounds to 2^53 + 4). Neither case matches `Jitter.StrictlyAlternates`'s `base + 1`. For a `NaN` target on a speed-meter element, `jitterCounter(element, NaN)` writes "NaN" every second. The model is faithful for integer targets of magnitude below 2^53, where the re-parse returns the target (`JsParseInt.ParseDecimal`) and the addition is exact.
- Counter.Animate: takes the increment as a parameter and does not derive it from the duration. The duration is 2000 at its only call site (script.js:174). `Counter.IncrementAdmissible` connects the source's formula to the loop's termination condition.
- Counter.Animate: uses exact `real` arithmetic, not IEEE doubles. Rounding of `current += increment` is not modelled.
- Counter.Animate: the 1000 ms start delay (script.js:33) is not modelled.
- Counter.Animate: starting the jitter's 1000 ms interval is not modelled. The animation records the oscillator it starts.
- JsParseInt.ParseInt: results are unbounded integers. Doubles above 2^53 are not rounded, and `-0` is not distinguished from `0`.
- Observer.HandleEntry: a `NaN` target is carried as `None`. The animation `animateCounter` would then run (a single frame writing `NaN`, then the jitter described under `Jitter.Start`) is not modelled.
- Observer: `IntersectionObserver` geometry (threshold 0.5, the -100px bottom margin) is not modelled. "Intersecting" is an input flag.
- Observer: the browser's delivery discipline is an assumption (`Delivered`), not a consequence of the code. `Observer.RepeatedEntryAnimatesTwice` shows why it is needed.
- Modal.AfterLoad: `typeof showGamerModal === 'function'` is kept as a parameter. In the script it is a hoisted top-level declaration, so it is always a function.
- Modal.AfterLoad: the 7000 ms timer is one step, and the `load` event and the timer are not interleaved with clicks.
- Modal: `sessionStorage` is one boolean. Its string value `'true'` is not modelled.
- Debounce: `setTimeout` is a discrete clock with explicit `Elapse` events.
  - A timeout due exactly at the end of an elapse fires within it.
  - `clearTimeout` inside `later` (script.js:109) clears an already-fired timer and so has no effect.
  - The debounced parallax handler (script.js:342-360) that uses `debounce` is not modelled.
- ContactMessage: form values are strings; file inputs are not modelled.
- ContactMessage: `encodeURIComponent` and `window.open` (script.js:377-378) are not modelled. They are an ECMAScript built-in and a browser call.
- Testimonials: the 5000 ms interval is abstracted to ticks. With no cards, nothing is scheduled.
- Particle emitter (script.js:58-100): left out. It depends on `Math.random`, float geometry and animation-completion callbacks.
- Parallax, magnetic buttons and 3D tilt: left out. They are floating-point transforms of mouse and scroll coordinates.
- Custom cursor, ripple, tooltips, smooth scroll, the mobile menu, the injected CSS keyframes and `AOS.init`: left out as DOM and third-party plumbing.
