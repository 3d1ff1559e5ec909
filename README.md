# TypeWriterView: a typewriter animation, modelled in Dafny

TypeWriterView is an Android widget that wraps an EditText and reveals a
text one character at a time. `animateText(t)` stores the text, resets the
index, clears the EditText and posts the `characterAdder` runnable on a
Handler. Each run of the runnable does four things:

- shows the prefix `text[0..textIndex)` and puts the caret after it
- increments `textIndex`
- while the index is at most the text's length, posts itself again after
  `delay` milliseconds and tells an optional Callback of a character
  (`onCharacterTyped`)
- otherwise marks the view finished and calls `onAnimationEnd`

The model has two modules.

- `TypewriterModel` (typewriter_model.dfy) holds the pure state machine.
  - A `View` value has the widget's animation fields.
  - It also has what the animation touches in its collaborators:
    - the Handler's queue: `pending`, plus `postedDelay`, the delay the
      pending run was posted with
    - the EditText: `displayed` and `selection`
    - the Callback: `callbackSet`, plus the log `events` of calls made on it
  - `Tick` is one run of the runnable as written. `FixedTick` is the
    corrected run (see Findings).
  - `Dispatch(v, n, fixed)` is the Handler running the pending run up to
    `n` times. It returns `None` once a run has thrown.
  - The lemmas cover single operations and whole sessions.
- `TypewriterWidget` (typewriter_view.dfy) holds the class `TypeWriterView`.
  - It has the same fields, updated in place by its methods.
  - Each method's contract equates the new state with the model's
    transition of the old state.

`onCharacterTyped` is meant to report each character once, in order.
The code reads `text.charAt(textIndex)` after the increment, guarded only by
`textIndex <= length`. So it reports the character after the one the next
run shows, and it throws on the run that shows all but the last character.
The model states the code as written and, beside it, the corrected run.

## Model

| member | source | states |
|---|---|---|
| TypewriterModel.CharAt | AnimationTesting/src/main/java/com/trevore/animationtesting/TypeWriterView.java:51 | charAt gives a character exactly for an index inside the text, and that character is the text's; otherwise it is the out-of-bounds case |
| TypewriterModel.Initial | AnimationTesting/src/main/java/com/trevore/animationtesting/TypeWriterView.java:25-40 | the field initialisers as a view; what it satisfies is stated by InitialIsIdle |
| TypewriterModel.AnimateText | AnimationTesting/src/main/java/com/trevore/animationtesting/TypeWriterView.java:99-108 | animateText as a transition; what it does is stated by AnimateTextResets |
| TypewriterModel.TickReporting | AnimationTesting/src/main/java/com/trevore/animationtesting/TypeWriterView.java:42-59 | one run of the character adder, parameterised by the index the callback reads; stated by TickKeepsConsistent, TickAdvances, TickRepostsOrFinishes and TickEvents |
| TypewriterModel.Tick | AnimationTesting/src/main/java/com/trevore/animationtesting/TypeWriterView.java:42-59 | the run as written, reading charAt(textIndex) after the increment; stated by TickFaultsIff and the lemmas on TickReporting |
| TypewriterModel.FixedTick | AnimationTesting/src/main/java/com/trevore/animationtesting/TypeWriterView.java:42-59 | the corrected run, reading the index the run started from; stated by FixedTickReportsNextShown and the lemmas on TickReporting |
| TypewriterModel.Dispatch | AnimationTesting/src/main/java/com/trevore/animationtesting/TypeWriterView.java:49 | the Handler rerunning the posted runnable up to n times, stopping at an uncaught exception; its ensures keeps a pending run runnable, and DispatchKeeps, DispatchSplit, FixedSession and WrittenSessionFaults state what it reaches |
| TypewriterModel.SetCharacterDelay | AnimationTesting/src/main/java/com/trevore/animationtesting/TypeWriterView.java:146-148 | setCharacterDelay as a transition; stated by SetCharacterDelayOnlyDelay |
| TypewriterModel.SetCallback | AnimationTesting/src/main/java/com/trevore/animationtesting/TypeWriterView.java:159-161 | setCallback as a transition; stated by SetCallbackOnlyCallback |
| TypewriterModel.IsFinishedAnimating | AnimationTesting/src/main/java/com/trevore/animationtesting/TypeWriterView.java:122-124 | the finished flag; AnimateTextResets states it is false after animateText, TickRepostsOrFinishes that it is set exactly when no run stays pending |
| TypewriterModel.InitialIsIdle | AnimationTesting/src/main/java/com/trevore/animationtesting/TypeWriterView.java:25-40 | the initial fields are finished, idle (nothing posted), delay 200, no callback, and satisfy the invariant |
| TypewriterModel.AnimateTextResets | AnimationTesting/src/main/java/com/trevore/animationtesting/TypeWriterView.java:99-108 | animateText installs t, resets the index, clears the EditText, un-finishes, leaves exactly one run pending posted with the current delay, fires no callback, keeps delay and callback, and establishes the invariant from any state |
| TypewriterModel.TickKeepsConsistent | AnimationTesting/src/main/java/com/trevore/animationtesting/TypeWriterView.java:42-59 | every run, either version, keeps the invariant: pending iff not finished, 0 <= textIndex <= length+1, EditText showing text[..textIndex-1] |
| TypewriterModel.TickAdvances | AnimationTesting/src/main/java/com/trevore/animationtesting/TypeWriterView.java:45-47 | a run shows text[..textIndex], sets the selection to textIndex, advances textIndex by exactly one, and changes neither text, delay nor callback |
| TypewriterModel.TickRepostsOrFinishes | AnimationTesting/src/main/java/com/trevore/animationtesting/TypeWriterView.java:48-56 | a run reposts itself with the current delay iff the advanced index is at most the length; otherwise it finishes, leaves nothing pending, shows the whole text and reports the end once when a callback is set |
| TypewriterModel.TickEvents | AnimationTesting/src/main/java/com/trevore/animationtesting/TypeWriterView.java:50-56 | without a callback a run logs nothing; a reposting run logs the character it reads; the finishing run logs the end |
| TypewriterModel.TickFaultsIff | AnimationTesting/src/main/java/com/trevore/animationtesting/TypeWriterView.java:47-51 | as written, a run throws iff a callback is set and the advanced index equals the length; the exception is charAt(length) on length; otherwise a reposting run reports text[textIndex+1] |
| TypewriterModel.FixedTickReportsNextShown | AnimationTesting/src/main/java/com/trevore/animationtesting/TypeWriterView.java:50-51 | the corrected run never throws and reports the character at the index it started from |
| TypewriterModel.SetCharacterDelayOnlyDelay | AnimationTesting/src/main/java/com/trevore/animationtesting/TypeWriterView.java:146-148 | setCharacterDelay changes only the delay; the pending run keeps its posted delay; the invariant is kept |
| TypewriterModel.SetCallbackOnlyCallback | AnimationTesting/src/main/java/com/trevore/animationtesting/TypeWriterView.java:159-161 | setCallback changes only whether a callback is set; with none set no run logs anything |
| TypewriterModel.AllReported | AnimationTesting/src/main/java/com/trevore/animationtesting/TypeWriterView.java:163-166 | the reported log over a whole text has one onCharacterTyped per character, in text order |
| TypewriterModel.DispatchKeeps | AnimationTesting/src/main/java/com/trevore/animationtesting/TypeWriterView.java:42-59 | any number of Handler runs keeps the invariant, the text, the delay and the callback |
| TypewriterModel.FixedRunState | AnimationTesting/src/main/java/com/trevore/animationtesting/TypeWriterView.java:45-49 | n corrected runs from index k reach index k+n, and a run is still pending iff k+n <= length |
| TypewriterModel.FixedRunEvents | AnimationTesting/src/main/java/com/trevore/animationtesting/TypeWriterView.java:50-56 | n corrected runs from index k log text[k..k+n) and, when the session ends, the end; without a callback they log nothing |
| TypewriterModel.WrittenRun | AnimationTesting/src/main/java/com/trevore/animationtesting/TypeWriterView.java:47-51 | as written, n runs from index k that stay short of the last character log text[k+1..k+n+1), each one character ahead |
| TypewriterModel.WrittenRunFaults | AnimationTesting/src/main/java/com/trevore/animationtesting/TypeWriterView.java:47-51 | as written, from the start of a non-empty text with a callback, length-1 runs log text[1..], and every longer run of the Handler ends in the exception |
| TypewriterModel.WrittenSessionFaults | AnimationTesting/src/main/java/com/trevore/animationtesting/TypeWriterView.java:47-51 | after animateText(t) with a callback and t non-empty, the session as written never completes: it logs t[1..] but never makes the call for position 0, never logs the end, and the run at index length-1 throws |
| TypewriterModel.OneCharacterFaultsAtOnce | AnimationTesting/src/main/java/com/trevore/animationtesting/TypeWriterView.java:47-51 | with a callback and one character, the very first run throws charAt(1) on length 1 |
| TypewriterModel.WithoutCallbackSameRun | AnimationTesting/src/main/java/com/trevore/animationtesting/TypeWriterView.java:50-51 | without a callback the run as written and the corrected run produce the same views for any number of runs |
| TypewriterModel.FixedSession | AnimationTesting/src/main/java/com/trevore/animationtesting/TypeWriterView.java:42-59 | corrected: animateText(t) is followed by exactly length+1 runs; after each of the first length a run is pending; after the last the view is finished, shows t with the caret at its end, and a set callback has logged every character of t in order and then the end |
| TypewriterModel.SessionWithoutCallback | AnimationTesting/src/main/java/com/trevore/animationtesting/TypeWriterView.java:42-59 | as written and without a callback, a session equals the corrected one; after length+1 runs it is finished, shows t and has logged nothing |
| TypewriterModel.EmptyTextSession | AnimationTesting/src/main/java/com/trevore/animationtesting/TypeWriterView.java:45-56 | animating the empty text takes one run in either version: it shows nothing, finishes, and logs only the end when a callback is set |
| TypewriterWidget.TypeWriterView.constructor | AnimationTesting/src/main/java/com/trevore/animationtesting/TypeWriterView.java:25-40 | the field initialisers give the model's initial view, which satisfies the invariant |
| TypewriterWidget.TypeWriterView.AnimateText | AnimationTesting/src/main/java/com/trevore/animationtesting/TypeWriterView.java:99-108 | the new state is the model's animateText transition of the old one; the invariant holds, one run is pending with the current delay |
| TypewriterWidget.TypeWriterView.RunCharacterAdder | AnimationTesting/src/main/java/com/trevore/animationtesting/TypeWriterView.java:42-59 | the new state and outcome are the model's run (as written or corrected); it keeps the invariant, shows text[..textIndex], advances the index by one, and throws iff it is the code as written, a callback is set, and the new index equals the length |
| TypewriterWidget.TypeWriterView.IsFinishedAnimating | AnimationTesting/src/main/java/com/trevore/animationtesting/TypeWriterView.java:122-124 | returns the finished flag, which in every valid state is true exactly when no run is pending |
| TypewriterWidget.TypeWriterView.SetCharacterDelay | AnimationTesting/src/main/java/com/trevore/animationtesting/TypeWriterView.java:146-148 | changes the delay field only, and keeps the invariant |
| TypewriterWidget.TypeWriterView.SetCallback | AnimationTesting/src/main/java/com/trevore/animationtesting/TypeWriterView.java:159-161 | changes only whether a callback is set, and keeps the invariant |

## Left out

- The constructors and `init` (lines 62-93) are left out. They only create
  the EditText, attach it and set input type, cursor and background. The
  model's constructor stands for the field initialisers.
- `getEditText`, `setTextColor` and `onInterceptTouchEvent` are left out.
  They expose the EditText or style it, and do not affect the animation.
- Real time and the Handler's message queue are not modelled. A delay is a
  stored number, and `Dispatch` runs the pending run n times in a row. The
  Handler holds at most one copy of the character adder: `animateText`
  removes it before posting it. So `pending` is a boolean.
- Threads are not modelled. Every method runs on the UI thread.
- `CharSequence` is modelled as a `seq<JChar>`, where `JChar` is a
  16-bit UTF-16 code unit like Java's `char`, so lengths, indices and
  surrogate pairs count as in Java. Spans, styling and the
  identity of the object passed in are not kept.
- `animateText(null)` is not modelled: the text is a `seq<JChar>`, which
  cannot be null. In Java the call is accepted and the next run throws a
  NullPointerException at `text.subSequence` on line 45.
- The Java `text` field is null until `animateText` is called. The model
  starts it empty. That is harmless, because no run is posted before
  `animateText`.
- The EditText's `setText`, `setSelection` and `getText().clear()` are
  modelled by their effect on the shown text and the caret only.
- The Callback is modelled as present or absent, plus the log of calls made
  on it. What a client callback does in response is not modelled.
- The model uses `int` rather than Java `int` and `long`, so wrap-around
  is not modelled. `textIndex` is at most the text's length plus one, so
  it overflows only for a text of 2^31 - 1 characters. `delay` is only
  stored.
- The other widget variants in the repository are not part of this model.

## Findings

| source | as written | input that shows it | evidently intended | confidence | as-written member | corrected member |
|---|---|---|---|---|---|---|
| AnimationTesting/src/main/java/com/trevore/animationtesting/TypeWriterView.java:47-51 | `textIndex++` comes before `callback.onCharacterTyped(text.charAt(textIndex))`, so the call reads one past the character the run shows next, and reads index `length` on the run at index `length - 1` | a callback set and `animateText("a")`: the first run calls `charAt(1)` on a text of length 1 and throws; for longer texts `text[0]` is never reported, and the session stops before the last character is shown and before `onAnimationEnd` | report `text.charAt(textIndex - 1)`: the run that starts at index k shows `text[..k]` and reports `text[k]`, the character the next run adds to the display, so that each character is reported once, in order, followed by the end | not executed | TypewriterModel.WrittenSessionFaults | TypewriterModel.FixedSession |
