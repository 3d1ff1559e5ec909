/** The state machine behind TypeWriterView, written on values.

  A `View` holds the widget's animation fields together with the parts of
  its collaborators that the animation touches: the Handler's queue (at
  most one pending run of the character adder, and the delay it was
  posted with), the EditText (displayed text and selection) and the
  Callback (whether one is set, and the log of calls made on it).
  Time is opaque: a delay is only a stored number.
 */
module TypewriterModel {

  datatype Option<T> = None | Some(value: T)

  /** A Java char: one UTF-16 code unit. A character outside the Basic
      Multilingual Plane is two of them (a surrogate pair), and a lone
      surrogate is one. */
  newtype JChar = x: int | 0 <= x < 0x1_0000

  /** One call made on TypeWriterView.Callback. */
  datatype Event = CharTyped(c: JChar) | AnimationEnd

  /** How one run of the character adder ends. */
  datatype Outcome =
    | Reposted                                  // it posted itself again
    | Finished                                  // it ended the session
    | IndexOutOfBounds(index: int, length: int) // charAt threw out of run()

  datatype View = View(
    text: seq<JChar>,       // the text being animated
    textIndex: int,        // characters the next tick will show
    delay: int,            // milliseconds between characters
    finished: bool,
    callbackSet: bool,     // callback != null
    pending: bool,         // the Handler holds the character adder
    postedDelay: int,      // the delay the pending run was posted with
    displayed: seq<JChar>,  // the EditText's content
    selection: int,        // the EditText's caret
    events: seq<Event>)    // calls made on the callback, oldest first

  datatype Step = Step(view: View, outcome: Outcome)

  const DefaultDelay: int := 200

  /** The field initialisers. The Java text starts as null; no tick can run
      before animateText, so the model starts it empty. */
  function Initial(): View {
    View([], 0, DefaultDelay, true, false, false, 0, [], 0, [])
  }

  /** CharSequence.charAt: the character, or None where Java throws. */
  function CharAt(s: seq<JChar>, i: int): (r: Option<JChar>)
    ensures r.Some? <==> 0 <= i < |s|
    ensures r.Some? ==> r.value == s[i]
  {
    if 0 <= i < |s| then Some(s[i]) else None
  }

  /** How many characters are on display while textIndex has the given value:
      the last tick showed textIndex - 1 of them. */
  function ShownLength(textIndex: int): int {
    if textIndex <= 0 then 0 else textIndex - 1
  }

  /** The calls onCharacterTyped(t[k]), ..., onCharacterTyped(t[m - 1]), in order. */
  function Reports(t: seq<JChar>, k: int, m: int): (r: seq<Event>)
    requires 0 <= k && m <= |t|
    ensures |r| == if k <= m then m - k else 0
    decreases m - k
  {
    if k >= m then [] else [CharTyped(t[k])] + Reports(t, k + 1, m)
  }

  /** The invariant every reachable view keeps. A session is running exactly
      when a tick is pending; the EditText then shows the prefix the last tick
      put there; a finished view shows all of its text. */
  predicate Consistent(v: View) {
    && (v.pending <==> !v.finished)
    && 0 <= v.textIndex <= |v.text| + 1
    && (v.pending ==> v.textIndex <= |v.text|)
    && v.displayed == v.text[..ShownLength(v.textIndex)]
    && v.selection == ShownLength(v.textIndex)
    && (v.finished ==> v.textIndex == |v.text| + 1 || (v.textIndex == 0 && v.text == []))
  }

  /** animateText: a new session on t; the pending run, if any, is removed
      and one run is posted with the current delay. */
  function AnimateText(v: View, t: seq<JChar>): View {
    v.(text := t, textIndex := 0, finished := false,
       displayed := [], selection := 0,
       pending := true, postedDelay := v.delay)
  }

  function SetCharacterDelay(v: View, millis: int): View {
    v.(delay := millis)
  }

  function SetCallback(v: View, present: bool): View {
    v.(callbackSet := present)
  }

  function IsFinishedAnimating(v: View): bool {
    v.finished
  }

  /** What a run of the character adder needs: the Handler only runs it while
      it is posted, and subSequence(0, textIndex) needs textIndex in range. */
  predicate Runnable(v: View) {
    v.pending && 0 <= v.textIndex <= |v.text|
  }

  /** One run of the character adder whose character callback reads index
      `reported` of the text. The Handler has removed the run from its queue
      before calling it. */
  function TickReporting(v: View, reported: int): Step
    requires Runnable(v)
  {
    var shown := v.(pending := false,
                    displayed := v.text[..v.textIndex],
                    selection := v.textIndex,
                    textIndex := v.textIndex + 1);
    if shown.textIndex <= |shown.text| then
      var posted := shown.(pending := true, postedDelay := shown.delay);
      if !posted.callbackSet then Step(posted, Reposted)
      else
        match CharAt(posted.text, reported)
        case Some(c) => Step(posted.(events := posted.events + [CharTyped(c)]), Reposted)
        case None => Step(posted, IndexOutOfBounds(reported, |posted.text|))
    else
      var ended := shown.(finished := true);
      Step(if ended.callbackSet then ended.(events := ended.events + [AnimationEnd]) else ended,
           Finished)
  }

  /** characterAdder.run() as written: the character reported is
      text.charAt(textIndex) read after the increment. */
  function Tick(v: View): Step
    requires Runnable(v)
  {
    TickReporting(v, v.textIndex + 1)
  }

  /** The corrected run: it reports text.charAt(textIndex - 1) after the
      increment, the character at the index the tick started from. */
  function FixedTick(v: View): Step
    requires Runnable(v)
  {
    TickReporting(v, v.textIndex)
  }

  function Next(v: View, fixed: bool): Step
    requires Runnable(v)
  {
    if fixed then FixedTick(v) else Tick(v)
  }

  /** The Handler running the pending character adder up to n times, with the
      run as written (fixed == false) or corrected (fixed == true). None means
      a run threw; the exception is uncaught and ends the process. */
  function Dispatch(v: View, n: nat, fixed: bool): (r: Option<View>)
    requires v.pending ==> Runnable(v)
    ensures r.Some? && r.value.pending ==> Runnable(r.value)
    decreases n
  {
    if n == 0 || !v.pending then Some(v)
    else
      var s := Next(v, fixed);
      if s.outcome.IndexOutOfBounds? then None
      else Dispatch(s.view, n - 1, fixed)
  }

  // ---------------------------------------------------------------------
  // Single operations

  lemma InitialIsIdle()
    ensures Consistent(Initial())
    ensures Initial().finished && !Initial().pending
    ensures Initial().delay == DefaultDelay && !Initial().callbackSet
  {
  }

  /** animateText resets the session and leaves exactly one tick pending, posted
      with the current delay; it fires no callback, so a session it cuts short
      never reports its end. */
  lemma AnimateTextResets(v: View, t: seq<JChar>)
    ensures var w := AnimateText(v, t);
      && Consistent(w)
      && w.text == t && w.textIndex == 0 && !w.finished && !IsFinishedAnimating(w)
      && w.displayed == [] && w.selection == 0
      && w.pending && w.postedDelay == v.delay
      && w.events == v.events && w.delay == v.delay && w.callbackSet == v.callbackSet
  {
  }

  /** Every tick keeps the invariant. */
  lemma TickKeepsConsistent(v: View, reported: int)
    requires Consistent(v) && v.pending
    ensures Consistent(TickReporting(v, reported).view)
  {
  }

  /** A tick shows text[..textIndex], puts the caret at textIndex, and
      advances textIndex by exactly one; it never changes the text, the
      delay or the callback. */
  lemma TickAdvances(v: View, reported: int)
    requires Runnable(v)
    ensures var w := TickReporting(v, reported).view;
      && w.displayed == v.text[..v.textIndex]
      && w.selection == v.textIndex
      && w.textIndex == v.textIndex + 1
      && w.text == v.text && w.delay == v.delay && w.callbackSet == v.callbackSet
  {
  }

  /** A tick posts itself again, with the current delay, exactly when the
      advanced textIndex is at most |text|; otherwise it marks the view
      finished, leaves nothing pending and reports the end once if a
      callback is set. */
  lemma TickRepostsOrFinishes(v: View, reported: int)
    requires Consistent(v) && v.pending
    ensures var s := TickReporting(v, reported);
      && (s.view.pending <==> v.textIndex + 1 <= |v.text|)
      && (s.view.pending ==> s.view.postedDelay == v.delay && !s.view.finished)
      && (s.outcome == Finished <==> !s.view.pending)
      && (!s.view.pending ==>
            && s.view.finished && s.view.textIndex == |v.text| + 1
            && s.view.displayed == v.text
            && s.view.events == v.events + (if v.callbackSet then [AnimationEnd] else []))
  {
  }

  /** What a tick that does not throw adds to the callback log. */
  lemma TickEvents(v: View, reported: int)
    requires Runnable(v)
    ensures var s := TickReporting(v, reported);
      && (!v.callbackSet ==> s.view.events == v.events)
      && (v.callbackSet && v.textIndex < |v.text| && 0 <= reported < |v.text| ==>
            s.view.events == v.events + [CharTyped(v.text[reported])])
      && (v.callbackSet && v.textIndex == |v.text| ==> s.view.events == v.events + [AnimationEnd])
  {
  }

  /** As written, a tick throws exactly when a callback is set and the tick
      shows |text| - 1 characters: it reads index |text|. Otherwise a
      reposting tick with a callback reports text[textIndex + 1], the
      character after the one the next tick adds. */
  lemma TickFaultsIff(v: View)
    requires Runnable(v)
    ensures Tick(v).outcome.IndexOutOfBounds? <==> v.callbackSet && v.textIndex + 1 == |v.text|
    ensures Tick(v).outcome.IndexOutOfBounds? ==> Tick(v).outcome == IndexOutOfBounds(|v.text|, |v.text|)
    ensures Tick(v).outcome == Reposted && v.callbackSet ==>
              Tick(v).view.events == v.events + [CharTyped(v.text[v.textIndex + 1])]
  {
  }

  /** The corrected tick never throws, and a reposting tick with a callback
      reports the character the next tick adds to the display. */
  lemma FixedTickReportsNextShown(v: View)
    requires Runnable(v)
    ensures !FixedTick(v).outcome.IndexOutOfBounds?
    ensures FixedTick(v).outcome == Reposted && v.callbackSet ==>
              FixedTick(v).view.events == v.events + [CharTyped(v.text[v.textIndex])]
  {
  }

  /** setCharacterDelay changes the delay and nothing else; in particular the
      pending tick keeps the delay it was posted with. */
  lemma SetCharacterDelayOnlyDelay(v: View, millis: int)
    requires Consistent(v)
    ensures var w := SetCharacterDelay(v, millis);
      && Consistent(w) && w.delay == millis
      && w == v.(delay := millis) && w.postedDelay == v.postedDelay
  {
  }

  /** setCallback changes only whether a callback is set; with none set, no
      tick adds to the log. */
  lemma SetCallbackOnlyCallback(v: View, present: bool)
    requires Consistent(v)
    ensures var w := SetCallback(v, present);
      && Consistent(w) && w == v.(callbackSet := present)
      && (!present && w.pending ==> Tick(w).view.events == v.events && FixedTick(w).view.events == v.events)
  {
  }

  // ---------------------------------------------------------------------
  // Whole sessions

  /** Reports(t, k, m) tells of t[k + i] as its i-th call. */
  lemma {:induction false} ReportsAt(t: seq<JChar>, k: int, m: int, i: int)
    requires 0 <= k && m <= |t| && 0 <= i < m - k
    ensures Reports(t, k, m)[i] == CharTyped(t[k + i])
    decreases i
  {
    if i > 0 {
      ReportsAt(t, k + 1, m, i - 1);
    }
  }

  /** Reports(t, 0, |t|) tells of every character of t, in order. */
  lemma AllReported(t: seq<JChar>)
    ensures |Reports(t, 0, |t|)| == |t|
    ensures forall i :: 0 <= i < |t| ==> Reports(t, 0, |t|)[i] == CharTyped(t[i])
  {
    forall i | 0 <= i < |t| ensures Reports(t, 0, |t|)[i] == CharTyped(t[i]) {
      ReportsAt(t, 0, |t|, i);
    }
  }

  /** Ticks keep the invariant, the text, the delay and the callback. */
  lemma {:induction false} DispatchKeeps(v: View, n: nat, fixed: bool)
    requires Consistent(v)
    ensures var r := Dispatch(v, n, fixed);
      r.Some? ==> Consistent(r.value) && r.value.text == v.text
                  && r.value.delay == v.delay && r.value.callbackSet == v.callbackSet
    decreases n
  {
    if n > 0 && v.pending {
      var s := Next(v, fixed);
      TickKeepsConsistent(v, if fixed then v.textIndex else v.textIndex + 1);
      TickAdvances(v, if fixed then v.textIndex else v.textIndex + 1);
      if !s.outcome.IndexOutOfBounds? {
        DispatchKeeps(s.view, n - 1, fixed);
      }
    }
  }

  /** Running the Handler a + b times is running it a times and then b times. */
  lemma {:induction false} DispatchSplit(v: View, a: nat, b: nat, fixed: bool)
    requires v.pending ==> Runnable(v)
    ensures Dispatch(v, a + b, fixed) ==
              match Dispatch(v, a, fixed)
              case None => None
              case Some(w) => Dispatch(w, b, fixed)
    decreases a
  {
    if a > 0 && v.pending {
      var s := Next(v, fixed);
      if !s.outcome.IndexOutOfBounds? {
        DispatchSplit(s.view, a - 1, b, fixed);
      }
    }
  }

  /** One tick, seen from the Handler: the view after it, which the
      remaining n - 1 dispatches continue from. */
  lemma DispatchStep(v: View, n: nat, fixed: bool) returns (u: View)
    requires Runnable(v) && n > 0
    requires !Next(v, fixed).outcome.IndexOutOfBounds?
    ensures u.pending ==> Runnable(u)
    ensures Dispatch(v, n, fixed) == Dispatch(u, n - 1, fixed)
    ensures u.text == v.text && u.callbackSet == v.callbackSet
    ensures u.textIndex == v.textIndex + 1
    ensures u.pending <==> v.textIndex < |v.text|
    ensures !v.callbackSet ==> u.events == v.events
    ensures v.callbackSet && v.textIndex == |v.text| ==> u.events == v.events + [AnimationEnd]
    ensures fixed && v.callbackSet && v.textIndex < |v.text| ==>
              u.events == v.events + [CharTyped(v.text[v.textIndex])]
    ensures !fixed && v.callbackSet && v.textIndex + 1 < |v.text| ==>
              u.events == v.events + [CharTyped(v.text[v.textIndex + 1])]
  {
    u := Next(v, fixed).view;
    TickEvents(v, if fixed then v.textIndex else v.textIndex + 1);
  }

  /** Log l followed by the calls onCharacterTyped(t[k]), ...,
      onCharacterTyped(t[m - 1]) and, when m passes the end of t, by
      onAnimationEnd(); built one call at a time, as ticks build it. */
  function Logged(l: seq<Event>, t: seq<JChar>, k: int, m: int): seq<Event>
    requires 0 <= k <= m <= |t| + 1
    decreases m - k
  {
    if k == m then l
    else if k == |t| then l + [AnimationEnd]
    else Logged(l + [CharTyped(t[k])], t, k + 1, m)
  }

  /** One corrected tick, seen from the Handler. */
  lemma FixedDispatchStep(v: View, n: nat) returns (u: View)
    requires Runnable(v) && n > 0
    ensures u.pending ==> Runnable(u)
    ensures Dispatch(v, n, true) == Dispatch(u, n - 1, true)
    ensures u.text == v.text && u.callbackSet == v.callbackSet
    ensures u.textIndex == v.textIndex + 1
    ensures u.pending <==> v.textIndex < |v.text|
    ensures !v.callbackSet ==> u.events == v.events
    ensures v.callbackSet && v.textIndex == |v.text| ==> u.events == v.events + [AnimationEnd]
    ensures v.callbackSet && v.textIndex < |v.text| ==>
              u.events == v.events + [CharTyped(v.text[v.textIndex])]
  {
    FixedTickReportsNextShown(v);
    u := DispatchStep(v, n, true);
  }

  /** With the corrected tick, n ticks from a running view leave textIndex
      at k + n (k = textIndex) and the session running iff k + n <= |text|. */
  lemma {:induction false} FixedRunState(v: View, n: nat)
    requires Runnable(v)
    requires v.textIndex + n <= |v.text| + 1
    ensures Dispatch(v, n, true).Some?
    ensures Dispatch(v, n, true).value.textIndex == v.textIndex + n
    ensures Dispatch(v, n, true).value.pending <==> v.textIndex + n <= |v.text|
    decreases n
  {
    if n > 0 {
      var u := FixedDispatchStep(v, n);
      if v.textIndex < |v.text| {
        FixedRunState(u, n - 1);
      }
    }
  }

  /** With the corrected tick, n ticks from a running view tell a set
      callback of text[k], ..., text[k + n - 1] and, when the session
      ends, of the end. */
  lemma {:induction false} FixedRunEvents(v: View, n: nat)
    requires Runnable(v)
    requires v.textIndex + n <= |v.text| + 1
    ensures Dispatch(v, n, true).Some?
    ensures v.callbackSet ==>
              Dispatch(v, n, true).value.events == Logged(v.events, v.text, v.textIndex, v.textIndex + n)
    ensures !v.callbackSet ==> Dispatch(v, n, true).value.events == v.events
    decreases n
  {
    FixedRunState(v, n);
    if n > 0 {
      var u := FixedDispatchStep(v, n);
      if v.textIndex < |v.text| {
        FixedRunEvents(u, n - 1);
      } else {
        assert Dispatch(u, 0, true) == Some(u);
      }
    }
  }

  /** Logged is the log followed by the calls Reports describes. */
  lemma {:induction false} LoggedIsReports(l: seq<Event>, t: seq<JChar>, k: int, m: int)
    requires 0 <= k <= |t| && k <= m <= |t| + 1
    ensures m <= |t| ==> Logged(l, t, k, m) == l + Reports(t, k, m)
    ensures m == |t| + 1 ==> Logged(l, t, k, m) == l + Reports(t, k, |t|) + [AnimationEnd]
    decreases m - k
  {
    if k < m && k < |t| {
      var c := [CharTyped(t[k])];
      var rest := Reports(t, k + 1, if m <= |t| then m else |t|);
      LoggedIsReports(l + c, t, k + 1, m);
      assert (l + c) + rest == l + (c + rest);
    } else if k < m {
      assert Reports(t, k, |t|) == [];
      assert l + [] == l;
    }
  }

  /** As written, n ticks from a running view with a callback, none of which
      reaches the last character, tell the callback of text[k + 1], ...,
      text[k + n] (k = textIndex): each reports the character after the one
      it shows next. */
  lemma {:induction false} WrittenRun(v: View, n: nat)
    requires Runnable(v) && v.callbackSet
    requires v.textIndex + n < |v.text|
    ensures Dispatch(v, n, false).Some?
    ensures Dispatch(v, n, false).value.textIndex == v.textIndex + n
    ensures Dispatch(v, n, false).value.pending
    ensures Dispatch(v, n, false).value.text == v.text
    ensures Dispatch(v, n, false).value.callbackSet
    ensures Dispatch(v, n, false).value.events == Logged(v.events, v.text, v.textIndex + 1, v.textIndex + n + 1)
    decreases n
  {
    if n > 0 {
      TickFaultsIff(v);
      var u := DispatchStep(v, n, false);
      WrittenRun(u, n - 1);
    }
  }

  /** A tick that throws ends every longer run of the Handler. */
  lemma FaultEndsRun(w: View, b: nat, fixed: bool)
    requires Runnable(w) && b > 0
    requires Next(w, fixed).outcome.IndexOutOfBounds?
    ensures Dispatch(w, b, fixed) == None
  {
  }

  /** As written, a run with a callback from the start of a non-empty text
      tells the callback of text[1..] over |text| - 1 ticks, and the next
      tick throws. */
  lemma WrittenRunFaults(s: View)
    requires Runnable(s) && s.callbackSet && s.textIndex == 0 && |s.text| >= 1
    ensures var r := Dispatch(s, |s.text| - 1, false);
      && r.Some? && r.value.pending && r.value.textIndex == |s.text| - 1
      && r.value.events == s.events + Reports(s.text, 1, |s.text|)
      && Tick(r.value).outcome == IndexOutOfBounds(|s.text|, |s.text|)
    ensures forall n: nat :: n >= |s.text| ==> Dispatch(s, n, false) == None
  {
    var m := |s.text| - 1;
    WrittenRun(s, m);
    var w := Dispatch(s, m, false).value;
    LoggedIsReports(s.events, s.text, 1, |s.text|);
    TickFaultsIff(w);
    assert Next(w, false) == Tick(w);
    forall n: nat | n >= |s.text| ensures Dispatch(s, n, false) == None {
      DispatchSplit(s, m, n - m, false);
      FaultEndsRun(w, n - m, false);
    }
  }

  /** As written, a session with a callback over a non-empty text never
      completes. Its first |text| - 1 ticks tell the callback of text[1..]
      (never of text[0]); the next tick reads charAt(|text|) and throws, so
      the last character is never shown and onAnimationEnd() never runs. */
  lemma WrittenSessionFaults(v: View, t: seq<JChar>)
    requires v.callbackSet && |t| >= 1
    ensures var r := Dispatch(AnimateText(v, t), |t| - 1, false);
      && r.Some? && r.value.pending && r.value.textIndex == |t| - 1
      && r.value.events == v.events + Reports(t, 1, |t|)
      && Tick(r.value).outcome == IndexOutOfBounds(|t|, |t|)
    ensures forall n: nat :: n >= |t| ==> Dispatch(AnimateText(v, t), n, false) == None
  {
    WrittenRunFaults(AnimateText(v, t));
  }

  /** The smallest input that shows it: one character and a callback make
      the very first tick throw. */
  lemma OneCharacterFaultsAtOnce(v: View, c: JChar)
    requires v.callbackSet
    ensures Tick(AnimateText(v, [c])).outcome == IndexOutOfBounds(1, 1)
    ensures Dispatch(AnimateText(v, [c]), 1, false) == None
  {
  }

  /** Without a callback the character read is never used, so the run as
      written and the corrected run agree. */
  lemma {:induction false} WithoutCallbackSameRun(v: View, n: nat)
    requires v.pending ==> Runnable(v)
    requires !v.callbackSet
    ensures Dispatch(v, n, false) == Dispatch(v, n, true)
    decreases n
  {
    if n > 0 && v.pending {
      assert Tick(v) == FixedTick(v);
      TickFaultsIff(v);
      TickAdvances(v, v.textIndex + 1);
      WithoutCallbackSameRun(Tick(v).view, n - 1);
    }
  }

  /** The corrected session: animateText(t) is followed by exactly |t| + 1
      ticks. After each of the first |t| a tick is still pending; after the
      last, the EditText shows all of t, the view is finished, and a set
      callback has been told of t[0], ..., t[|t| - 1] and then of the end. */
  lemma FixedSession(v: View, t: seq<JChar>)
    ensures var r := Dispatch(AnimateText(v, t), |t| + 1, true);
      && r.Some? && r.value.finished && !r.value.pending
      && r.value.displayed == t && r.value.selection == |t|
      && (v.callbackSet ==> r.value.events == v.events + Reports(t, 0, |t|) + [AnimationEnd])
      && (!v.callbackSet ==> r.value.events == v.events)
    ensures forall j: nat :: j <= |t| ==>
              Dispatch(AnimateText(v, t), j, true).Some? && Dispatch(AnimateText(v, t), j, true).value.pending
  {
    var s := AnimateText(v, t);
    AnimateTextResets(v, t);
    FixedRunState(s, |t| + 1);
    FixedRunEvents(s, |t| + 1);
    LoggedIsReports(v.events, t, 0, |t| + 1);
    DispatchKeeps(s, |t| + 1, true);
    assert t[..|t|] == t;
    forall j: nat | j <= |t|
      ensures Dispatch(s, j, true).Some? && Dispatch(s, j, true).value.pending
    {
      FixedRunState(s, j);
    }
  }

  /** Without a callback the session as written is the corrected one: every
      number of ticks gives the same view, and |t| + 1 of them show all of t
      and finish. */
  lemma SessionWithoutCallback(v: View, t: seq<JChar>)
    requires !v.callbackSet
    ensures forall n: nat :: Dispatch(AnimateText(v, t), n, false) == Dispatch(AnimateText(v, t), n, true)
    ensures var r := Dispatch(AnimateText(v, t), |t| + 1, false);
      r.Some? && r.value.finished && r.value.displayed == t && r.value.events == v.events
  {
    var s := AnimateText(v, t);
    forall n: nat ensures Dispatch(s, n, false) == Dispatch(s, n, true) {
      WithoutCallbackSameRun(s, n);
    }
    FixedSession(v, t);
  }

  /** Animating the empty text takes one tick, in either version: it shows
      nothing, finishes, and tells a set callback of the end alone. */
  lemma EmptyTextSession(v: View, fixed: bool)
    ensures var r := Dispatch(AnimateText(v, []), 1, fixed);
      && r.Some? && r.value.finished && !r.value.pending && r.value.displayed == []
      && (v.callbackSet ==> r.value.events == v.events + [AnimationEnd])
      && (!v.callbackSet ==> r.value.events == v.events)
  {
  }

}
