/**
 * The `App` component's mention editing (src/App.js:73-207, 274-278) as a
 * state machine. Each handler is one atomic step over the state as it was
 * when the event arrived; what the text area reports (its selection and its
 * value) comes in as parameters, and `query` stands for the search box's
 * state: `None` keeps the dropdown hidden.
 */
module MentionEditor {
  import opened Wrappers
  import opened JsText
  import opened Triggers
  import opened Spans

  class Editor {
    /** The text of the text area. */
    var value: string
    /** The text before the last input event; absent until the first one. */
    var prevValue: Option<string>
    /** The selection seen at the last key-down or click. */
    var prevSelection: Option<Selection>
    /** The offset of the active `@` trigger. */
    var atPos: Option<nat>
    /** The inserted names, as inclusive character ranges. */
    var mentions: seq<Span>
    /** Set by an input event, consumed by the next key-up. */
    var hasInput: bool
    /** The query last pushed to the search box. */
    var query: Option<string>

    /**
     * A pending input always has the text from before it, mentions only
     * exist after a selection was seen, and the dropdown is only open for an
     * active trigger and a query with no special character.
     */
    ghost predicate Valid()
      reads this
    {
      && (hasInput ==> prevValue.Some?)
      && (mentions != [] ==> prevSelection.Some?)
      && (query.Some? ==> atPos.Some? && !HasSpecialCharacter(query.value))
    }

    /** The `useState` / `useRef` initial values. */
    constructor ()
      ensures Valid()
      ensures value == "" && prevValue == None && prevSelection == None && atPos == None
      ensures mentions == [] && !hasInput && query == None
    {
      value := "";
      prevValue := None;
      prevSelection := None;
      atPos := None;
      mentions := [];
      hasInput := false;
      query := None;
    }

    /** `onKeyDown`: remember the selection before the key takes effect. */
    method OnKeyDown(selectionStart: nat, selectionEnd: nat)
      requires Valid()
      modifies this`prevSelection
      ensures Valid()
      ensures prevSelection == Some(Selection(selectionStart, selectionEnd))
    {
      prevSelection := Some(Selection(selectionStart, selectionEnd));
    }

    /** `onClick`: the same snapshot as a key-down. */
    method OnClick(selectionStart: nat, selectionEnd: nat)
      requires Valid()
      modifies this`prevSelection
      ensures Valid()
      ensures prevSelection == Some(Selection(selectionStart, selectionEnd))
    {
      OnKeyDown(selectionStart, selectionEnd);
    }

    /** `onInput`: flag the edit and keep the text from before it. */
    method OnInput(eValue: string)
      requires Valid()
      modifies this`hasInput, this`prevValue, this`value
      ensures Valid()
      ensures hasInput && prevValue == Some(old(value)) && value == eValue
    {
      hasInput := true;
      prevValue := Some(value);
      value := eValue;
    }

    /** `_reset`: drop the trigger and hide the dropdown. */
    method Reset()
      requires Valid()
      modifies this`atPos, this`query
      ensures Valid()
      ensures atPos == None && query == None
    {
      atPos := None;
      query := None;
    }

    /** `checkMentionTag(v, end)`: start, feed or cancel the trigger from the caret `end`. */
    method CheckMentionTag(v: string, end: nat)
      requires Valid()
      modifies this`atPos, this`query
      ensures Valid()
      ensures Trigger(atPos, query) == NextTrigger(v, end, Trigger(old(atPos), old(query)))
    {
      ghost var before := Trigger(atPos, query);
      var typed := TypedTriggerTest(v, end);
      if typed {
        atPos := Some(end - 1);
        assert Trigger(atPos, query) == NextTrigger(v, end, before);
      } else if atPos.Some? {
        var q := Substring(v, atPos.value + 1, end);
        if !HasSpecialCharacter(q) {
          query := Some(q);
          assert NextTrigger(v, end, before) == Trigger(atPos, Some(q));
        } else {
          Reset();
          assert NextTrigger(v, end, before) == Trigger(None, None);
        }
      }
      // Otherwise the source rescans from `getNearestAtData(v, atPos)` with
      // `atPos` undefined; that scan returns null at once, so nothing changes.
    }

    /**
     * The pending-input branch of `onKeyUp`: adjust the mentions, then check
     * for a trigger. With no selection seen yet there are no mentions, so the
     * pass, which would read the missing selection only inside its loop,
     * yields none.
     */
    method ApplyInput(tStart: nat, tEnd: nat, tValue: string)
      requires Valid() && hasInput
      modifies this`atPos, this`query, this`mentions
      ensures Valid()
      ensures prevSelection.Some? ==>
        mentions == Adjusted(old(mentions), Edit(|tValue| - |prevValue.value|, tStart, prevSelection.value))
      ensures prevSelection.None? ==> mentions == []
      ensures Trigger(atPos, query) == NextTrigger(tValue, tEnd, Trigger(old(atPos), old(query)))
      ensures
        && prevSelection.Some? && WellFormed(old(mentions), |prevValue.value|)
        && EditFits(Edit(|tValue| - |prevValue.value|, tStart, prevSelection.value), |prevValue.value|, |tValue|)
        ==> WellFormed(mentions, |tValue|)
    {
      if prevSelection.Some? {
        var prevLen := |prevValue.value|;
        ghost var e := Edit(|tValue| - prevLen, tStart, prevSelection.value);
        var adjusted := ModifyMentions(mentions, tValue, prevValue.value, tStart, prevSelection.value);
        assert WellFormed(mentions, prevLen) && EditFits(e, prevLen, |tValue|) ==> WellFormed(adjusted, |tValue|) by {
          if WellFormed(mentions, prevLen) && EditFits(e, prevLen, |tValue|) {
            AdjustedKeepsWellFormed(mentions, e, prevLen, |tValue|);
          }
        }
        mentions := adjusted;
      }
      ghost var adjusted := mentions;
      CheckMentionTag(tValue, tEnd);
      assert mentions == adjusted;
    }

    /**
     * `onKeyUp`: a caret at or before the trigger cancels it; otherwise a
     * pending input adjusts the mentions and then checks for a trigger.
     */
    method OnKeyUp(tStart: nat, tEnd: nat, tValue: string)
      requires Valid()
      modifies this`atPos, this`query, this`mentions, this`hasInput
      ensures Valid() && !hasInput
      ensures old(atPos).Some? && tEnd <= old(atPos).value ==>
        atPos == None && query == None && mentions == old(mentions)
      ensures !(old(atPos).Some? && tEnd <= old(atPos).value) && old(hasInput) ==>
        && (prevSelection.Some? ==>
              mentions == Adjusted(old(mentions), Edit(|tValue| - |prevValue.value|, tStart, prevSelection.value)))
        && (prevSelection.None? ==> mentions == [])
        && Trigger(atPos, query) == NextTrigger(tValue, tEnd, Trigger(old(atPos), old(query)))
      ensures !(old(atPos).Some? && tEnd <= old(atPos).value) && !old(hasInput) ==>
        atPos == old(atPos) && query == old(query) && mentions == old(mentions)
      ensures
        && !(old(atPos).Some? && tEnd <= old(atPos).value) && old(hasInput) && prevSelection.Some?
        && WellFormed(old(mentions), |prevValue.value|)
        && EditFits(Edit(|tValue| - |prevValue.value|, tStart, prevSelection.value), |prevValue.value|, |tValue|)
        ==> WellFormed(mentions, |tValue|)
    {
      // The source clears the flag once after the branches; clearing it in
      // each branch is the same step.
      if atPos.Some? && tEnd <= atPos.value {
        Reset();
        hasInput := false;
      } else if hasInput {
        ApplyInput(tStart, tEnd, tValue);
        hasInput := false;
      } else {
        hasInput := false;
      }
    }

    /** JavaScript's `!pString` on the text from before the last input. */
    predicate NoPrevText()
      reads this
    {
      prevValue.None? || prevValue == Some("")
    }

    /**
     * `onMention(user)`: replace the trigger and its query in the text from
     * before the last input with the chosen name, record the name as a
     * mention, and return where the caret goes. Nothing happens while that
     * text is absent or empty.
     */
    method OnMention(user: string) returns (caret: Option<nat>)
      requires Valid() && query.Some? && (!NoPrevText() ==> prevSelection.Some?)
      modifies this`value, this`mentions, this`atPos, this`query
      ensures Valid()
      ensures old(NoPrevText()) ==>
        && caret == None && value == old(value) && mentions == old(mentions)
        && atPos == old(atPos) && query == old(query)
      ensures !old(NoPrevText()) ==>
        var at := old(atPos).value;
        && value == Splice(old(prevValue).value, at, user, prevSelection.value.end)
        && (at <= |old(prevValue).value| ==> value[at..at + |user|] == user)
        && mentions == SortByStart(old(mentions) + [Span(at, at + |user| - 1)])
        && SortedByStart(mentions)
        && caret == Some(at + |user|)
        && atPos == None && query == None
    {
      if NoPrevText() {
        return None;
      }
      var pString := prevValue.value;
      var at := atPos.value;
      var nextString := Splice(pString, at, user, prevSelection.value.end);
      var added := Span(at, at + |user| - 1);
      var sorted := SortByStart(mentions + [added]);
      assert SortedByStart(sorted) by { AddSorted(mentions, added); }
      value := nextString;
      mentions := sorted;
      caret := Some(at + |user|);
      atPos := None;
      query := None;
    }

    /** `onBlur`: leaving for anything but the suggestion list hides the dropdown. */
    method OnBlur(relatedTargetId: Option<string>)
      requires Valid()
      modifies this`query
      ensures Valid()
      ensures query == if relatedTargetId == Some("search-list") then old(query) else None
    {
      if relatedTargetId != Some("search-list") {
        query := None;
      }
    }
  }

  /** The trigger steps the scenario below takes. */
  lemma TriggerValues()
    ensures NextTrigger("@", 1, Trigger(None, None)) == Trigger(Some(0), None)
    ensures NextTrigger("@a", 2, Trigger(Some(0), None)) == Trigger(Some(0), Some("a"))
  {
    assert TypedTrigger("@", 1);
    assert !TypedTrigger("@a", 2) && Substring("@a", 1, 2) == "a";
  }

  /**
   * Typing "@a" into an empty box: the `@` only arms the trigger, and the
   * next character opens the dropdown with the query "a".
   */
  method TriggerScenario() {
    TriggerValues();
    var editor := new Editor();
    editor.OnKeyDown(0, 0);
    editor.OnInput("@");
    assert editor.atPos == None && editor.query == None && editor.hasInput;
    editor.OnKeyUp(1, 1, "@");
    assert editor.atPos == Some(0) && editor.query == None;

    editor.OnKeyDown(1, 1);
    editor.OnInput("@a");
    assert editor.atPos == Some(0) && editor.query == None && editor.hasInput;
    editor.OnKeyUp(2, 2, "@a");
    assert editor.query == Some("a");
  }

  /** The values the choice below works with. */
  lemma ChoiceValues()
    ensures !HasSpecialCharacter("x")
    ensures Splice("Hi @ more", 3, "Alice", 4) == "Hi Alice more"
    ensures SortByStart([] + [Span(3, 7)]) == [Span(3, 7)]
  {
    assert "Hi @ more"[..3] + "Alice" + "Hi @ more"[4..] == "Hi Alice more";
  }

  /**
   * Choosing "Alice" after "x" was typed behind the trigger of "Hi @ more":
   * the name replaces "@" in the text from before that keystroke, and the
   * caret lands right after it.
   */
  method ChoiceScenario() {
    ChoiceValues();
    var editor := new Editor();
    editor.value, editor.prevValue := "Hi @x more", Some("Hi @ more");
    editor.prevSelection := Some(Selection(4, 4));
    editor.atPos, editor.query := Some(3), Some("x");
    assert editor.Valid() && !editor.NoPrevText();
    var caret := editor.OnMention("Alice");
    assert editor.value == "Hi Alice more";
    assert editor.mentions == [Span(3, 7)];
    assert caret == Some(8) && editor.atPos == None && editor.query == None;
  }

  /** The values the scenario below works with. */
  lemma ShiftValues()
    ensures NextTrigger("@a Bob", 1, Trigger(None, None)) == Trigger(Some(0), None)
    ensures Adjusted([Span(2, 4)], Edit(1, 1, Selection(0, 0))) == [Span(3, 5)]
  {
    assert TypedTrigger("@a Bob", 1);
  }

  /**
   * In "a Bob" with a mention on "Bob", typing "@" at the start shifts the
   * mention one place to the right and arms the trigger there.
   */
  method ShiftScenario() {
    var editor := new Editor();
    editor.value, editor.prevValue := "a Bob", Some("a Bob");
    editor.prevSelection := Some(Selection(5, 5));
    editor.mentions := [Span(2, 4)];

    editor.OnKeyDown(0, 0);
    editor.OnInput("@a Bob");
    assert editor.prevSelection == Some(Selection(0, 0)) && editor.prevValue == Some("a Bob");
    assert editor.atPos == None && editor.query == None && editor.hasInput;
    assert |"@a Bob"| - |"a Bob"| == 1;
    ShiftValues();
    editor.OnKeyUp(1, 1, "@a Bob");
    assert editor.mentions == [Span(3, 5)] && editor.atPos == Some(0);
  }

  /**
   * A caret that ends at or before the trigger cancels it without adjusting
   * the mentions, even for a pending input. Continuing the scenario above, a
   * backspace removes the "@": the trigger is cancelled and the mention stays
   * at `{3, 5}`, past the end of the five-character text, although the edit
   * satisfies `EditFits`.
   */
  method CancelScenario() {
    var editor := new Editor();
    editor.value, editor.prevValue := "@a Bob", Some("a Bob");
    editor.prevSelection := Some(Selection(0, 0));
    editor.mentions, editor.atPos := [Span(3, 5)], Some(0);

    editor.OnKeyDown(1, 1);
    editor.OnInput("a Bob");
    assert EditFits(Edit(-1, 0, Selection(1, 1)), 6, 5);
    editor.OnKeyUp(0, 0, "a Bob");
    assert editor.mentions == [Span(3, 5)] && editor.atPos == None;
    assert |editor.value| == 5 && editor.mentions[0].end == 5;
    assert !WellFormed(editor.mentions, |editor.value|);
  }

  /** The values the key-repeat scenario below works with. */
  lemma KeyRepeatValues()
    ensures Adjusted([Span(3, 5)], Edit(-1, 0, Selection(1, 1))) == [Span(2, 4)]
    ensures NextTrigger(" Bob", 0, Trigger(None, None)) == Trigger(None, None)
    ensures WellFormed([Span(3, 5)], 6) && !WellFormed([Span(3, 5)], 5) && !WellFormed([Span(2, 4)], 4)
    ensures EditFits(Edit(-1, 0, Selection(1, 1)), 5, 4)
  {
    assert [Span(3, 5)][0].end == 5 && [Span(2, 4)][0].end == 4;
  }

  /** The values the fast-typing scenario below works with. */
  lemma FastTypingValues()
    ensures Adjusted([Span(3, 5)], Edit(1, 2, Selection(1, 1))) == [Span(4, 6)]
    ensures NextTrigger("abHi Bob", 2, Trigger(None, None)) == Trigger(None, None)
    ensures WellFormed([Span(4, 6)], 8)
  {
    assert !TypedTrigger("abHi Bob", 2);
  }

  /**
   * A held backspace fires two inputs before one key-up. `prevValue` then
   * holds the text after the first deletion only, so the pass shifts by one
   * place where two characters went: in "ab Bob" the mention on "Bob" ends
   * past the end of " Bob". The edit the key-up sees satisfies `EditFits`;
   * the spans were already out of step with `prevValue`.
   */
  method KeyRepeatScenario() {
    KeyRepeatValues();
    var editor := new Editor();
    editor.value := "ab Bob";
    editor.prevSelection := Some(Selection(6, 6));
    editor.mentions := [Span(3, 5)];

    editor.OnKeyDown(2, 2);
    editor.OnInput("a Bob");
    editor.OnKeyDown(1, 1);
    editor.OnInput(" Bob");
    assert editor.prevValue == Some("a Bob") && editor.prevSelection == Some(Selection(1, 1));
    assert editor.atPos == None && editor.query == None && editor.hasInput;
    assert |" Bob"| - |"a Bob"| == -1;
    ghost var text := editor.value;
    assert |text| == 4;
    editor.OnKeyUp(0, 0, " Bob");
    assert editor.mentions == [Span(2, 4)] && editor.value == text;
    assert !WellFormed(editor.mentions, |editor.value|);
  }

  /**
   * Typing fast: the key-down and input of "b" arrive before the key-up of
   * "a". That key-up measures the second input against the selection of the
   * second key-down, and the pass shifts the mention by one place where two
   * characters were typed: in "abHi Bob" it covers " Bo" instead of "Bob".
   * The key-up of "b" that follows finds no pending input and changes nothing.
   */
  method FastTypingScenario() {
    FastTypingValues();
    var editor := new Editor();
    editor.value := "Hi Bob";
    editor.prevSelection := Some(Selection(6, 6));
    editor.mentions := [Span(3, 5)];

    editor.OnKeyDown(0, 0);
    editor.OnInput("aHi Bob");
    editor.OnKeyDown(1, 1);
    editor.OnInput("abHi Bob");
    assert editor.prevValue == Some("aHi Bob") && editor.prevSelection == Some(Selection(1, 1));
    assert editor.atPos == None && editor.query == None && editor.hasInput;
    assert |"abHi Bob"| - |"aHi Bob"| == 1;
    ghost var text := editor.value;
    assert |text| == 8 && text[4..7] == " Bo";
    editor.OnKeyUp(2, 2, "abHi Bob");
    assert editor.mentions == [Span(4, 6)] && editor.value == text && !editor.hasInput;
    assert WellFormed(editor.mentions, |editor.value|) && editor.value[4..7] == " Bo";
  }

  /**
   * An input that no key-down or click preceded, such as a paste from the
   * context menu: the pass over the (empty) mentions reads no selection,
   * and the typed "@" still arms the trigger.
   */
  method UnseenSelectionScenario() {
    var editor := new Editor();
    editor.OnInput("@");
    editor.OnKeyUp(1, 1, "@");
    assert editor.mentions == [] && editor.atPos == Some(0) && editor.prevSelection == None;
  }
}
