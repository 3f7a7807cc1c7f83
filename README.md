# Simply Forever site script: form validation, gallery filter, debounce and throttle

This project models the parts of the Simply Forever website's `script.js` that
have behaviour worth stating, and proves properties of the model in Dafny.

- **Text** (`text.dfy`): `String.prototype.trim` and the ECMAScript whitespace
  set. The same set is the regex class `\s`, so one `IsWs` predicate serves both.
- **Email** (`email.dfy`): the pattern `/^[^\s@]+@[^\s@]+\.[^\s@]+$/` is kept as
  data, a list of terms. `Matches` gives it the meaning of `RegExp.prototype.test`
  on an anchored pattern. `MatchesIffShaped` proves the pattern accepts exactly
  these strings:
  - no whitespace and exactly one `@`;
  - a non-empty part before the `@`;
  - a `.` after the `@` with at least one character on each side.
- **Forms** (`forms.dfy`): `validateField`, and the submit, blur and input
  listeners of `initFormHandling`. It also covers `showFormSuccess` and the
  5000 ms banner timer on a virtual clock. A form is a class:
  - `fields` is an array of field records: value, default value, `required`,
    `type`, inline border colour and parent container;
  - `errors` maps each container to the texts of its error-message nodes, in
    document order. The source finds these nodes with
    `field.parentNode.querySelector('.error-message')`, so they belong to
    containers, not to fields;
  - `banners` holds the success banners;
  - `clock` is the virtual time of the latest event, so a submission and a
    timer can only be applied in time order.
- **Gallery** (`gallery.dfy`): the click listener of a category button. Categories
  are optional strings because `getAttribute` yields `null` when the attribute is
  absent.
- **Timing** (`timing.dfy`): `debounce` and `throttle` as state machines over a
  virtual clock. Each wrapper has a class holding its closure state and pure step
  functions that specify the class's methods. Trace-level definitions
  (`Debounced`, `Throttled`) say which calls of a chronological list run. The
  replay lemmas prove that the step functions meet those definitions.
- **Announce** (`announce.dfy`): `announceToScreenReader`, modelled as appending
  the message to a log. **Wrappers** (`wrappers.dfy`): an `Option` type.

Clocks are parameters (`now`, `at`, `until`). Timers are pending entries with a
due time. When a call and a due timer fall on the same instant, the timer fires
first.

Behaviour of the code worth knowing:

- **Error messages are per container, not per field.** In `ContainerOutcome`,
  whether a container ends with a message depends only on the last required
  field in it, in document order. `SharedContainerLastFieldWins` gives two
  required fields in one container, a blank one followed by a filled one. The
  submission fails, yet no message remains.
- **Banners can pile up.** Each successful submission appends its own banner.
  Each banner is removed 5000 ms later by its own timer. Two successful
  submissions within 5000 ms therefore show two banners; nothing keeps it to one.
- **The email domain needs an inner dot.** A `.` only somewhere in the domain is
  not enough. The regex needs at least one character before the dot and at least
  one after it.
- **The input listener never clears anything.** It clears the border and the
  container's first error message only when the border string is exactly `"red"`.
  The listeners only ever write `"#FF0000"` or `""`. So in every state reachable
  from a freshly loaded form (`Form.Reachable`), the input listener changes
  nothing. `Form.Input` states this, and `Blur` and `Submit` preserve
  `Reachable`.
- **Submitting does not check the email shape.** The submit listener only tests
  that required fields are non-blank. A required email field holding `x` lets the
  form through, although `validateField` rejects it on blur
  (`SubmitSkipsEmailShape`).

## Model

| member | source | states |
|---|---|---|
| Text.LeadingWs | script.js:213 | counts the whitespace `trim` cuts from the front: every character before the count is whitespace, and the one at the count, if any, is not |
| Text.TrailingWs | script.js:213 | counts the whitespace `trim` cuts from the back: every character in that tail is whitespace, and the one before it, if any, is not |
| Text.TrimStart | script.js:213 | the result is the suffix of the input left after cutting leading whitespace only, and does not start with whitespace |
| Text.TrimEnd | script.js:213 | the result is the prefix of the input left after cutting trailing whitespace only, and does not end with whitespace |
| Text.Trim | script.js:213 | `trim` returns the middle slice of the value starting at `LeadingWs`, with only whitespace cut from both ends; the slice is empty or starts and ends with non-whitespace |
| Text.TrimUnique | script.js:213 | any slice of the value with only whitespace around it, empty or starting and ending with non-whitespace, is what `trim` returns: the contract of `Trim` determines it |
| Text.TrimIgnoresPadding | script.js:213 | whitespace added before and after a value does not change what `trim` returns |
| Text.BlankIffAllWs | script.js:154 | `!value.trim()` holds exactly when the value consists of whitespace only |
| Text.TrimIdempotent | script.js:213 | trimming an already trimmed value changes nothing |
| Email.Matches | script.js:223 | the anchored test of a pattern against a whole string, with backtracking over `+`; a match consumes at least one character per term |
| Email.PlusSplit | script.js:223 | a `[^\s@]+` term followed by the rest of the pattern matches exactly when some non-empty prefix is all in the class and the rest matches the remainder |
| Email.DomainMatch | script.js:223 | the domain part `[^\s@]+\.[^\s@]+` matches exactly when the string splits at an inner `.` into two non-empty parts free of whitespace and `@` |
| Email.WordMatch | script.js:223 | `^[^\s@]+$` matches exactly the non-empty strings free of whitespace and `@` |
| Email.MatchSplits | script.js:223-224 | a value the whole pattern matches splits into local part, `@`, host, `.`, and last part, each non-empty and free of whitespace and `@` |
| Email.SplitMatches | script.js:223-224 | a value made of those five parts is matched by the whole pattern |
| Email.MatchesIffShaped | script.js:223-224 | the pattern `/^[^\s@]+@[^\s@]+\.[^\s@]+$/` matches v iff v has no whitespace, exactly one `@`, a non-empty local part, and a `.` with a character on each side after the `@` (both directions) |
| Email.EmailTest | script.js:223-224 | `emailRegex.test(value)` is true exactly when the value is email-shaped: no whitespace, one `@`, a non-empty local part, an inner `.` after the `@` |
| Forms.ValidateField | script.js:212-232 | the field is rejected iff it is required with a blank trimmed value, or is of type `email` with a non-blank trimmed value that fails the email shape |
| Forms.Form.Blur | script.js:193-195 | the blur listener returns validateField's verdict; it sets the border to `#FF0000` exactly when the verdict is false and to `""` otherwise; it changes no other field, no error message and no banner |
| Forms.RequiredFilledIff | script.js:150-155 | the loop's `isValid` ends true iff every required field has a non-blank trimmed value |
| Forms.OptionalFieldIgnored | script.js:150 | swapping one optional field for another changes neither the outcome nor any error message |
| Forms.ContainerOutcome | script.js:159-174 | after the loop, a container that held at most one message holds `["This field is required"]` if its last required field in document order is blank, holds nothing if that field is filled, and is untouched if it has no required field |
| Forms.AtMostOneMessageKept | script.js:159-167 | the loop never leaves two error messages in a container that held at most one |
| Forms.ResubmitChangesNoMessage | script.js:159-174 | submitting the same values a second time leaves every container's messages as the first submission left them: no duplicate is created |
| Forms.SharedContainerLastFieldWins | script.js:159-174 | for any two required fields in one container, one blank and one filled: the submission fails either way, but blank-then-filled leaves no message while filled-then-blank leaves the required message |
| Forms.SubmitSkipsEmailShape | script.js:150-155 | a required email field with a non-blank value of the wrong shape passes the submit check although `validateField` rejects it |
| Forms.Form.constructor | script.js:143-145 | a form loaded at time `start` has its fields, no error message, no banner and its clock at `start`; if no field has an inline border, the state is reachable |
| Forms.Form.Input | script.js:197-206 | the input listener clears the border and the container's first message only when the border reads `"red"`; in every reachable state it changes nothing |
| Forms.Form.ShowSuccess | script.js:235-258 | appends one banner with the fixed thank-you text, due for removal 5000 ms later, announces "Form submitted successfully", and moves the clock to `now` |
| Forms.Form.ResetValues | script.js:183 | every field gets its default value back and nothing else about it changes |
| Forms.Form.CheckField | script.js:153-174 | one loop visit: a blank required field makes `isValid` false, gets the red border and makes its container's first message the required text (creating it if absent); a filled required field gets `""` and its container's first message is removed; an optional field changes nothing |
| Forms.Form.CheckFields | script.js:150-174 | the loop ends with `isValid` equal to `RequiredFilled` of the fields, the messages equal to `ErrorsAfter` of them and every field `Marked`, in document order |
| Forms.Form.Submit | script.js:146-188 | the outcome is the fold of the loop over the fields; the error messages are `ErrorsAfter` of the fields; required fields get the red border iff blank and `""` otherwise. On success one banner is added, values are reset and success is announced. On failure values and banners are unchanged and "Please fix the form errors before submitting" is announced. Reachability is preserved, and the clock moves to `now` |
| Forms.Unexpired | script.js:251-254 | no banner left at time `now` has its removal time already reached, and the list never grows (which banners stay, and how often, is `UnexpiredMultiplicity`) |
| Forms.UnexpiredMultiplicity | script.js:251-254 | each banner whose removal time is still ahead stays as many times as it was shown; each expired one is gone |
| Forms.UnexpiredAppend | script.js:251-254 | the timers keep the banners in order: expiring two runs of banners one after the other equals expiring each and joining the results |
| Forms.Form.ExpireBanners | script.js:252-254 | firing the banner timers due by `now`, no earlier than the form's clock, leaves `Unexpired` of the banners, touches no message, and moves the clock to `now` |
| Gallery.AnnouncementNamesTrimmedLabel | script.js:134-135 | two buttons are announced alike exactly when their trimmed labels agree: the announcement names the label without ambiguity |
| Gallery.AnnouncementIgnoresPadding | script.js:134-135 | whitespace around the button text does not change the announcement |
| Gallery.Gallery.DeactivateAll | script.js:116-119 | every button loses the active class and reads `aria-pressed="false"`, nothing else about it changes |
| Gallery.Gallery.ShowCategory | script.js:124-131 | each item of the selected category (every item for `"all"`) is displayed `block` with the fade-in animation; every other item is displayed `none` |
| Gallery.Gallery.Click | script.js:112-136 | the clicked button alone becomes active with `aria-pressed` `"true"`, every other button becomes inactive with `"false"`; each item is displayed `block` with the fade-in animation iff it is shown, `none` otherwise; a button without `data-category` (null) shows exactly the items without one; the announcement uses the button's trimmed text |
| Announce.Announcer.Announce | script.js:324-344 | the message is appended to what has been announced |
| Timing.DebounceReplay | script.js:349-358 | after a run of calls, the clock is at the last call and the only pending timer carries the last call's arguments, due `wait` ms after it |
| Timing.DebounceReplayRuns | script.js:349-358 | replaying chronological calls and letting time run on runs the function exactly for the calls that no further call follows within `wait` ms |
| Timing.DebounceFromFresh | script.js:349-358 | from a fresh wrapper, the function runs with exactly the arguments the debounce definition lists |
| Timing.LastCallWins | script.js:352-357 | a burst of calls less than `wait` apart, then `wait` quiet ms, runs the function once, with the last call's arguments |
| Timing.Debouncer.AdvanceTo | script.js:352-355 | letting time pass runs a due pending call with its captured arguments and clears it |
| Timing.Debouncer.Invoke | script.js:351-358 | a call cancels any pending timer and schedules the function with this call's arguments `wait` ms later |
| Timing.ThrottleReplay | script.js:362-373 | replaying calls keeps `inThrottle` set exactly while its release timer is pending |
| Timing.ThrottleReplayRuns | script.js:362-373 | a call runs iff no run happened in the `limit` ms before it; calls inside the window are dropped |
| Timing.ThrottleFromFresh | script.js:362-373 | from a fresh wrapper, the function runs with exactly the arguments the throttle definition lists |
| Timing.Throttler.AdvanceTo | script.js:370 | when the release timer is due, `inThrottle` is cleared |
| Timing.ThrottleCall | script.js:364-372 | a call inside an open window is dropped and changes nothing else; any other call runs and opens a window that closes `limit` ms later; the timer stays pending exactly while `inThrottle` is set |
| Timing.Throttler.Invoke | script.js:364-372 | a call outside the window runs the function, sets `inThrottle` and schedules its release `limit` ms later; a call inside the window does nothing |

## Left out

- Mobile navigation, outside-click, link-click, Escape key and resize handlers (script.js:14-53, 309-320, 410-426): they only flip classes on DOM nodes and read the window width.
- Copy-IP button (script.js:56-103): an asynchronous clipboard call with an `execCommand` fallback, both browser APIs.
- Smooth scrolling (script.js:261-284): depends on layout (`offsetTop`), `window.scrollTo` and focus.
- Gallery keyboard access and the main-content id (script.js:287-306): attribute setting and synthetic clicks.
- Lazy loading, page visibility, global error logging, service-worker stub (script.js:377-451): `IntersectionObserver`, document events and console output.
- Announce.Announcer.Announce: the live-region node, its styling and its removal after 1000 ms are presentation; only the message log is kept.
- Inline styles other than the field border (error-message colour and size, banner `cssText`): these are presentation.
- `event.preventDefault()` (script.js:147) runs on every submit, so the form is never submitted and the page never navigates. The model has no submission or navigation to prevent, so the call is not represented.
- Forms.Form.ResetValues: `form.reset()` restores values only; checkedness and selectedness of controls are not modelled.
- Forms.Form.Submit: error messages are keyed by parent container. A message inside a nested descendant of that container, which `querySelector` would also find, is not modelled.
- Forms.Form.Submit: the listeners are modelled on one list of fields. The source loops over `[required]` elements for submit and binds blur and input to `input, textarea, select`; the model assumes every field is such a control.
- Timing.Debouncer.Invoke: `wait` and `limit` are non-negative integers. JavaScript's clamping of negative or non-numeric delays is not modelled. Nor is the `this` binding that throttle passes to the wrapped function.
- Timing.Debouncer.AdvanceTo: events at one virtual instant are ordered timers first. Real event-loop ordering at equal times is not modelled.
