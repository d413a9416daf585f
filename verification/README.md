# Random wheel picker, modelled in Dafny

The repository is one browser widget (`random_wheel/script.js`): the user
types options into a list, the options are drawn as coloured pie slices on a
canvas, and a spin button turns the wheel with an eased animation and then
announces a result. As written, that result is `undefined` for almost every
spin (see Findings); the model also gives the intended lookup of the option
under the pointer. This project models the three pure
parts behind the DOM and canvas calls, plus the event loop that ties them
together:

- **Option registry** (`registry.dfy`, `text.dfy`): the `options` array as
  `addOption` (trim, reject empty or already present text, append) and the
  delete buttons (`splice(index, 1)`) change it. It is a `seq<string>`. The
  invariant is that labels are non-empty, trimmed and unique.
- **Slice layout** (`layout.dfy`, `angles.dfy`): the arithmetic of
  `drawWheel`. For N options each slice is `2π/N` wide and starts at
  `i·2π/N + rotation`. Its label is turned to the slice's bisector, and it is
  filled with `colors[i % 12]`.
- **Spin controller** (`spin.dfy`): `spin` and its `animate` callback as an
  explicit Idle/Spinning state. `Spin` starts a session. `Step(state, now)` is
  one animation frame: clamped progress, cubic ease-out, a move toward the
  target, and a return to Idle exactly when progress reaches 1.
- **Result lookup** (`winner.dfy`): the slice index read off at the end of a
  spin. It is modelled both as written, with JavaScript's truncating `%`, and
  as corrected, with a floored remainder. See Findings.
- **Widget** (`widget.dfy`): the page state and its four events, which are
  add, delete, spin click and animation frame. Invariants and the
  one-announcement-per-session property are proved over any event sequence.

Angles are exact `real`s. `Math.PI` is written as 3.141592653589793, the
shortest decimal that rounds to the double nearest to π; only its positivity
matters to the proofs. Timestamps, `Math.random()` draws and the text typed
are parameters of the events.

Points of the code worth knowing when reading the model:
- `script.js:128-130` reduces the rotation with JavaScript's truncating `%`.
  With frame timestamps in order the rotation never goes below 0
  (`Widget.RotationStaysNonNegative`), so `-normalizedRotation / sliceAngle` lies
  in `(-N, 0]`, and the index is negative for every rotation that is not a
  whole number of turns; `options[...]` is then `undefined`. The model
  states this as written and also gives the floored lookup that picks the
  slice under the pointer (see Findings).
- `spinBtn.disabled` is only set inside `spin()` (script.js:101, 125), after
  the guard at script.js:98. With fewer than two options the click reaches
  `spin()` and is ignored there, which is what `Spin` models.
- `if (!startTime)` (script.js:111) treats a first-frame timestamp of 0 as
  "not yet set". `SessionStart` models this, so a zero start is taken again
  at the next frame.
- Each frame eases from the current rotation, not from the rotation at the
  start of the spin (script.js:117). `SpinControl.RemainingDistance` states
  that each frame leaves `(1 - p)^3` of the then-remaining distance, so the
  path depends on the frame cadence.

## Model

| member | source | states |
|---|---|---|
| Text.TrimStart | random_wheel/script.js:75 | the result is the suffix of the input starting at its first non-white-space character; everything dropped is white space |
| Text.TrimEnd | random_wheel/script.js:75 | the result is the prefix of the input ending at its last non-white-space character; everything dropped is white space |
| Text.Trim | random_wheel/script.js:75 | `trim()` returns a trimmed contiguous slice of the input, with only white space cut on either side |
| Text.TrimIdentity | random_wheel/script.js:75 | trimming leaves a string unchanged exactly when it has no white space at either end |
| Text.TrimIdempotent | random_wheel/script.js:75 | trimming twice equals trimming once |
| Text.TrimEmpty | random_wheel/script.js:75-76 | the trimmed value is empty (falsy) exactly when the input is all white space |
| Registry.Add | random_wheel/script.js:74-77 | an add grows the list by at most one; earlier labels are untouched; it grows exactly when the trimmed text is non-empty and not present, and then the new last label is that text; membership afterwards is old membership plus the accepted text; the invariant is preserved |
| Registry.RemoveAt | random_wheel/script.js:144-147 | deleting position i shortens the list by one, keeps the labels before i and shifts those after i down by one, removes exactly one occurrence of the deleted label (multiset), preserves the invariant, and leaves the deleted label absent |
| Registry.Splice | random_wheel/script.js:146-147 | `splice(index, 1)` for any integer: in range it is `RemoveAt`, negative indices count from the end (clamped to 0), indices past the end change nothing; the invariant is preserved |
| Registry.AddThenRemoveLast | random_wheel/script.js:76-77 | deleting the label just accepted restores the list |
| Registry.AddTwice | random_wheel/script.js:76 | adding the same text twice has the effect of adding it once |
| Registry.RemoveThenAdd | random_wheel/script.js:76-77 | re-adding a deleted label puts it at the end of the list |
| Layout.ColourIndex | random_wheel/script.js:47 | `i % colors.length` is always a valid palette index and is `i` for the first twelve slices |
| Layout.ColourRepeats | random_wheel/script.js:13-17 | slices `i` and `i + 12` get the same colour |
| Layout.NeighboursDiffer | random_wheel/script.js:13-17 | neighbouring slices `i`, `i + 1` always differ in colour |
| Layout.WrapAroundColours | random_wheel/script.js:47 | the last and first slices share a colour exactly when N is 1 more than a multiple of 12 |
| Layout.SliceAngle | random_wheel/script.js:33 | the slice angle is positive and N slices make exactly one full turn |
| Layout.SliceOf | random_wheel/script.js:38-60 | slice i carries option i, starts at `i·2π/N + rotation` and ends one slice angle later (these two angles are `Layout.StartAngle` and `Layout.EndAngle`, lines 39-40), has its label angle exactly on its bisector, and is filled with `colors[i % 12]` |
| Layout.DrawWheel | random_wheel/script.js:19-62 | the placeholder is drawn exactly when there are no options; otherwise one slice per option, slice i being the loop's slice i |
| Layout.Contiguous | random_wheel/script.js:39-40 | slice i ends exactly where slice i+1 starts |
| Layout.SpansFullTurn | random_wheel/script.js:33-40 | the first slice starts at the rotation and the last ends a full turn later |
| Layout.WidthsSumToFullTurn | random_wheel/script.js:33-40 | the widths of the drawn slices add up to exactly 2π |
| Layout.SliceCovering | random_wheel/script.js:33-40 | every angle of the turn from the rotation lies in some slice |
| Layout.SlicesDisjoint | random_wheel/script.js:39-40 | no angle lies in two slices |
| SpinControl.Spin | random_wheel/script.js:97-105 | a click while spinning or with fewer than 2 options changes nothing; otherwise a session starts at the current rotation with a target between 10π and 12π ahead |
| SpinControl.SpinIgnoredWhileSpinning | random_wheel/script.js:98 | a second spin request leaves the first session unchanged |
| SpinControl.SpinOffsetIsRandomTurn | random_wheel/script.js:103-105 | beyond the five full turns, the target lies `random` of a turn ahead |
| SpinControl.SessionStart | random_wheel/script.js:107-111 | the first frame fixes the start; a stored start of 0 is falsy and is replaced by the frame's timestamp; a stored non-zero start is kept |
| SpinControl.Progress | random_wheel/script.js:112-113 | progress is at most 1, non-negative for frames after the start, exactly 1 once the duration has elapsed, and the elapsed fraction before |
| SpinControl.EaseOut | random_wheel/script.js:116 | the ease-out is at most 1, lies in [0, 1] on [0, 1], is 0 at 0, and reaches 1 exactly at progress 1 |
| SpinControl.EaseOutMonotonic | random_wheel/script.js:116 | later progress gives no smaller ease |
| SpinControl.Step | random_wheel/script.js:110-126 | a frame keeps the target; the rotation never passes it and, for an in-order frame, never moves back; the session ends exactly when the duration has elapsed, with the wheel exactly on the target; otherwise the start time is recorded |
| SpinControl.RemainingDistance | random_wheel/script.js:117 | after a frame at progress p, `(1 - p)^3` of the remaining distance is left |
| SpinControl.RunFramesBounded | random_wheel/script.js:110-122 | `RunFrames` runs one frame per timestamp while the session lasts, as `requestAnimationFrame(animate)` re-schedules it (lines 121-122); over non-decreasing frame timestamps the rotation only moves forward, never passes the target, and the target stays fixed |
| SpinControl.RunFramesFinishes | random_wheel/script.js:111-126 | once a frame arrives `Duration` after the first (non-zero) one, the session is over and the wheel rests on its target |
| Winner.JsRemainder | random_wheel/script.js:128-130 | JavaScript `%` takes the sign of the dividend, stays within one divisor of 0, differs from the dividend by the truncated quotient times the divisor, and returns dividends smaller than the divisor unchanged |
| Winner.FlooredRemainder | random_wheel/script.js:128-130 | the floored remainder lies in [0, m) and differs from x by a whole multiple of m |
| Winner.WinnerIndexAsWritten | random_wheel/script.js:128-130 | the index as written, with both `%` truncating, lies in `[-N, N)`; negative values are possible |
| Winner.ResolveAsWritten | random_wheel/script.js:128-131 | as written, the result is `undefined` for an empty wheel and exactly when the index is negative; otherwise it is `options[index]` with the index as written; for a non-negative rotation that is not a whole number of turns it is `undefined` |
| Winner.AsWrittenIndexNegative | random_wheel/script.js:128-130 | as written, every non-negative rotation that is not a whole number of turns gives a negative index |
| Winner.AsWrittenHalfTurnIsUndefined | random_wheel/script.js:128-131 | as written, half a turn on a two-option wheel announces `undefined` |
| Winner.PointerTurns | random_wheel/script.js:128 | the pointer sits at a whole number of turns lying in `[rotation, rotation + 2π)` |
| Winner.PointerTurnsUnique | random_wheel/script.js:128 | only one whole number of turns lies in `[rotation, rotation + 2π)`, so the pointer's turn is determined by the rotation |
| Winner.PointerAngle | random_wheel/script.js:128 | the pointer's angle is a whole number of turns, and the first one at or after the rotation |
| Winner.WinnerIndex | random_wheel/script.js:128-130 | the corrected lookup returns an index in [0, N), and the pointer lies inside that slice |
| Winner.Resolve | random_wheel/script.js:128-131 | the corrected result is `undefined` only for an empty wheel, and is otherwise the option under the pointer |
| Winner.AsWrittenAgreesWhenDefined | random_wheel/script.js:128-130 | for any rotation, where the code as written finds an option, it is the one the corrected lookup finds |
| Winner.AsWrittenAgreesNegative | random_wheel/script.js:128-130 | for a negative rotation the code as written is right: its index is never negative and equals the corrected lookup's |
| Widget.Handle | random_wheel/script.js:74-153 | every event preserves the registry and spin invariants; a session starts exactly on a spin click while Idle with 2 or more options; an announcement is made exactly when a frame ends a session, and names the option under the pointer by the corrected lookup (see Findings and Left out); a click while spinning changes nothing; a running session's target never changes |
| Widget.RunKeepsInvariant | random_wheel/script.js:74-153 | any event sequence keeps labels non-empty, trimmed and unique, and keeps the spin within its target |
| Widget.ReachableStatesValid | random_wheel/script.js:8-11 | every state reachable from page load satisfies the invariant |
| Widget.OneAnnouncementPerSession | random_wheel/script.js:97-131 | sessions never overlap, and each one produces exactly one announcement |
| Widget.HandleForward | random_wheel/script.js:107-125 | an event whose frame timestamp is no earlier than the last one keeps the rotation non-negative and the recorded start no later than that frame |
| Widget.RotationStaysNonNegative | random_wheel/script.js:97-125 | over events whose frame timestamps never go back, the rotation never becomes negative |
| Widget.ReachableRotationNonNegative | random_wheel/script.js:97-131 | from page load with in-order frames, the rotation is never negative, so the lookup as written gives `undefined` whenever the wheel is not at a whole number of turns |

## Findings

| source | as written | input that shows it | evidently intended | confidence | as-written member | corrected member |
|---|---|---|---|---|---|---|
| random_wheel/script.js:128-130 | `options[Math.floor((-normalizedRotation / sliceAngle) % options.length)]` with JavaScript's truncating `%` | options `["A", "B"]`, final rotation π: `-1 % 2` is `-1`, `options[-1]` is `undefined`, and the alert shows "undefined". The same holds for every non-negative final rotation that is not a whole number of turns, and with in-order frames the rotation is never negative (`Widget.ReachableRotationNonNegative`). | a floored remainder, giving the index in [0, N) of the slice under the pointer | high (proved on exact reals; not executed) | Winner.AsWrittenIndexNegative | Winner.WinnerIndex |

`Winner.AsWrittenHalfTurnIsUndefined` shows the concrete case, and
`Winner.ResolveAsWritten` is the lookup as written. The truncating `%`
would be right for a negative rotation (`Winner.AsWrittenAgreesNegative`);
the wheel only ever turns the other way. `Widget.Handle` uses the
corrected `Winner.Resolve`.

## Left out

- Canvas drawing: `clearRect`, `arc`, `fill`, `stroke`, fonts, text alignment, the placeholder disc's size and colours, and the hub circle. These are rendering calls with no result to check. `DrawWheel` keeps only which picture is drawn and the slice arithmetic.
- DOM wiring: element lookups, rebuilding the list with `innerHTML` (which interpolates labels unescaped), event listeners, clearing the input field after an add, and `spinBtn.disabled`. These are I/O; each handler is one case of `Widget.Handle`.
- `requestAnimationFrame` and wall-clock time: a frame is an event carrying its timestamp. A frame while Idle does nothing, because then no callback is scheduled. `Widget.Handle` accepts frame timestamps in any order, while the browser's never go back; the properties that need in-order frames (`SpinControl.RunFramesBounded`, `Widget.RotationStaysNonNegative`) require it.
- `Math.random()` is a parameter in [0, 1). `alert` is the `Announce` output.
- IEEE-754 rounding: all arithmetic is exact over reals. For example, the last frame lands exactly on the target, and `Math.PI` is an exact decimal.
- `parseInt` of `data-index`: the index is an integer. A NaN index can arrive only through markup that a label injects via the unescaped `innerHTML` (script.js:89-91), which is left out with the DOM; `splice(NaN, 1)` would act as `Splice(options, 0)`.
- Strings are sequences of Unicode scalar values, not UTF-16 code units. The white-space set is the ECMAScript one, listed code point by code point.
- SpinControl.RunFramesFinishes: requires a non-zero first timestamp. With a zero first timestamp the code takes the start again at the next frame, and the lemma does not cover that case.
- Widget.Handle: the end-of-spin announcement is the corrected lookup `Winner.Resolve`, not the truncating lookup of script.js:128-131, which announces `undefined` for every rotation that is not a whole number of turns. The code as written is `Winner.ResolveAsWritten`; `Winner.AsWrittenIndexNegative` and `Winner.AsWrittenAgreesWhenDefined` relate the two.
