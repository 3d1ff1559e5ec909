/** TypeWriterView as an object: the Java fields, updated in place by its
    methods. Each method is tied to the transition of TypewriterModel that
    it performs, so every property proved there about sessions holds of the
    object. */
module TypewriterWidget {
  import opened TypewriterModel

  class TypeWriterView {
    var text: seq<JChar>
    var textIndex: int
    var delay: int
    var finished: bool
    var callbackSet: bool
    // The Handler's queue: whether it holds the character adder, and the
    // delay that run was posted with.
    var pending: bool
    var postedDelay: int
    // The EditText's content and caret.
    var displayed: seq<JChar>
    var selection: int
    // The calls made on the callback so far.
    var events: seq<Event>

    /** The object's state as a value of the model. */
    function Model(): View
      reads this
    {
      View(text, textIndex, delay, finished, callbackSet, pending, postedDelay,
           displayed, selection, events)
    }

    ghost predicate Valid()
      reads this
    {
      Consistent(Model())
    }

    /** The field initialisers: delay 200, finished, no callback, nothing
        posted and an empty EditText. */
    constructor ()
      ensures Model() == Initial()
      ensures Valid()
    {
      text, textIndex, delay, finished, callbackSet := [], 0, DefaultDelay, true, false;
      pending, postedDelay, displayed, selection, events := false, 0, [], 0, [];
      InitialIsIdle();
    }

    /** animateText(t): start a new session, cancelling any pending tick. */
    method AnimateText(t: seq<JChar>)
      modifies this
      ensures Model() == TypewriterModel.AnimateText(old(Model()), t)
      ensures Valid() && !finished && pending && postedDelay == delay
      ensures text == t && textIndex == 0 && displayed == [] && selection == 0
    {
      text := t;
      textIndex := 0;
      finished := false;
      displayed, selection := [], 0;
      // removeCallbacks followed by postDelayed: exactly one tick is pending.
      pending := false;
      pending, postedDelay := true, delay;
      AnimateTextResets(old(Model()), t);
    }

    /** characterAdder.run(), called by the Handler. With corrected == false
        it is the code as written, which reads text.charAt(textIndex) after
        the increment; with corrected == true it reads text[k], where k is
        the index the run started from: the character the next run adds to
        the display. An outcome IndexOutOfBounds is the exception that
        escapes run(). */
    method RunCharacterAdder(corrected: bool) returns (outcome: Outcome)
      requires pending && 0 <= textIndex <= |text|
      modifies this
      ensures Step(Model(), outcome) == Next(old(Model()), corrected)
      ensures old(Valid()) ==> Valid()
      ensures displayed == old(text[..textIndex]) && selection == old(textIndex)
      ensures textIndex == old(textIndex) + 1
      ensures text == old(text) && delay == old(delay) && callbackSet == old(callbackSet)
      ensures outcome.IndexOutOfBounds? <==> !corrected && callbackSet && textIndex == |text|
    {
      ghost var before := Model();
      // The Handler has taken the run off its queue.
      pending := false;
      displayed := text[..textIndex];
      selection := textIndex;
      textIndex := textIndex + 1;
      if textIndex <= |text| {
        pending, postedDelay := true, delay;
        outcome := Reposted;
        if callbackSet {
          var read := if corrected then textIndex - 1 else textIndex;
          match CharAt(text, read)
          case Some(c) =>
            events := events + [CharTyped(c)];
          case None =>
            outcome := IndexOutOfBounds(read, |text|);
        }
      } else {
        finished := true;
        outcome := Finished;
        if callbackSet {
          events := events + [AnimationEnd];
        }
      }
      assert Step(Model(), outcome) == Next(before, corrected);
      ghost var r := if corrected then before.textIndex else before.textIndex + 1;
      TickAdvances(before, r);
      TickFaultsIff(before);
      FixedTickReportsNextShown(before);
      if old(Valid()) {
        TickKeepsConsistent(before, r);
      }
    }

    /** isFinishedAnimating(): a session is over exactly when no tick is
        pending. */
    method IsFinishedAnimating() returns (b: bool)
      requires Valid()
      ensures b == finished
      ensures b <==> !pending
      ensures b <==> TypewriterModel.IsFinishedAnimating(Model())
    {
      b := finished;
    }

    /** setCharacterDelay(millis): later ticks wait millis; the pending one
        keeps the delay it was posted with. */
    method SetCharacterDelay(millis: int)
      modifies this`delay
      ensures Model() == TypewriterModel.SetCharacterDelay(old(Model()), millis)
      ensures Valid() <==> old(Valid())
    {
      delay := millis;
    }

    /** setCallback(c), with present == (c != null). */
    method SetCallback(present: bool)
      modifies this`callbackSet
      ensures Model() == TypewriterModel.SetCallback(old(Model()), present)
      ensures Valid() <==> old(Valid())
    {
      callbackSet := present;
    }
  }
}
