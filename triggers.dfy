/**
 * Detecting an `@` trigger and the query typed after it (src/App.js:6-22,
 * 66-71, 136-158): which characters end a query, where a trigger may start,
 * the backward scan for the nearest `@`, and the decision that
 * `checkMentionTag` takes on every key-up that follows an edit.
 */
module Triggers {
  import opened Wrappers
  import opened JsText

  /** The characters of the class tested by `checkSpecialCharacters`. */
  const SpecialCharacters: set<char> :=
    { '`', '!', '@', '#', '$', '%', '^', '&', '*', '(', ')', '_', '+', '-', '=',
      '[', ']', '{', '}', ';', '\'', ':', '"', '\\', '|', ',', '.', '<', '>',
      '/', '?', '~', '\n' }

  /** Letters, digits and the space: characters a plain name is made of. */
  predicate IsPlain(c: char) {
    ('a' <= c <= 'z') || ('A' <= c <= 'Z') || ('0' <= c <= '9') || c == ' '
  }

  /** `checkSpecialCharacters`: the string has a character of the special class. */
  function HasSpecialCharacter(s: string): (b: bool)
    ensures b <==> exists i :: 0 <= i < |s| && s[i] in SpecialCharacters
    ensures (forall i :: 0 <= i < |s| ==> IsPlain(s[i])) ==> !b
  {
    if s == [] then false
    else s[0] in SpecialCharacters || HasSpecialCharacter(s[1..])
  }

  /**
   * `checkAtSignAvailable`: an `@` at `pos` starts a trigger at the start or
   * after whitespace. The source tests `\s` against the text of `s[pos - 1]`,
   * which is `"undefined"` past the end of `s`.
   */
  function AtSignAvailable(s: string, pos: nat): (b: bool)
    ensures b <==> pos == 0 || TestsWhitespace(CharText(s, pos - 1))
  {
    if pos == 0 then true
    else if pos - 1 < |s| then
      assert CharText(s, pos - 1)[0] == s[pos - 1];
      IsWhitespace(s[pos - 1])
    else
      var t := CharText(s, pos - 1);
      assert forall i :: 0 <= i < |t| ==> 'a' <= t[i] <= 'z';
      false
  }

  /** What `getNearestAtData` returns when it finds an `@`. */
  datatype AtData = AtData(position: nat, query: string)

  /**
   * `getNearestAtData`: walk back from `pos` to the nearest `@`, prepending
   * every character passed over to the query. Past the end of `str` the
   * template literal spells `undefined`.
   */
  method GetNearestAtData(str: string, pos: nat) returns (r: Option<AtData>)
    ensures r.None? <==> forall k :: 0 <= k <= pos && k < |str| ==> str[k] != '@'
    ensures r.Some? ==>
      && r.value.position <= pos && r.value.position < |str|
      && str[r.value.position] == '@'
      && (forall k :: r.value.position < k <= pos && k < |str| ==> str[k] != '@')
      && r.value.query == Spelled(str, r.value.position + 1, pos + 1)
    ensures r.Some? && pos < |str| ==> r.value.query == str[r.value.position + 1..pos + 1]
  {
    var curr: int := pos;
    var qString := "";
    while curr >= 0
      invariant -1 <= curr <= pos
      invariant qString == Spelled(str, curr + 1, pos + 1)
      invariant forall k :: curr < k <= pos && k < |str| ==> str[k] != '@'
    {
      var c := CharText(str, curr);
      if c == "@" {
        assert str[curr] == '@';
        if pos < |str| {
          SpelledInside(str, curr + 1, pos + 1);
        }
        return Some(AtData(curr, qString));
      }
      assert c + qString == Spelled(str, curr, pos + 1);
      qString := c + qString;
      curr := curr - 1;
    }
    return None;
  }

  /** The trigger state `checkMentionTag` reads and writes: `atPos` and the search box's query. */
  datatype Trigger = Trigger(atPos: Option<nat>, query: Option<string>)

  /** The character before the caret `end` is an `@` that may start a trigger. */
  predicate TypedTrigger(v: string, end: nat) {
    1 <= end <= |v| && v[end - 1] == '@' && AtSignAvailable(v, end - 1)
  }

  /**
   * The test `checkMentionTag` makes on the caret `end`: the text of
   * `v[end - 1]` is `"@"` and an `@` may start a trigger there. It is
   * `TypedTrigger`, also when `end` is past the text.
   */
  function TypedTriggerTest(v: string, end: nat): (b: bool)
    ensures b == TypedTrigger(v, end)
  {
    end >= 1 && CharText(v, end - 1) == "@" && AtSignAvailable(v, end - 1)
  }

  /**
   * The new trigger state after `checkMentionTag(v, end)`. A typed trigger
   * only moves `atPos` (the dropdown opens on the next character); an
   * active trigger forwards the text after it as the query, or is cancelled
   * when that text has a special character. With no active trigger the
   * source rescans with `getNearestAtData(v, undefined)`, which returns
   * null at once, so nothing changes.
   */
  function NextTrigger(v: string, end: nat, t: Trigger): (r: Trigger)
    ensures TypedTrigger(v, end) ==> r == Trigger(Some(end - 1), t.query)
    ensures r.atPos.Some? ==> r.atPos == t.atPos || (TypedTrigger(v, end) && r.atPos == Some(end - 1))
    ensures !TypedTrigger(v, end) && t.atPos.Some? ==>
      var q := Substring(v, t.atPos.value + 1, end);
      r == (if HasSpecialCharacter(q) then Trigger(None, None) else Trigger(t.atPos, Some(q)))
    ensures r.query.Some? ==> r.query == t.query || !HasSpecialCharacter(r.query.value)
    ensures !TypedTrigger(v, end) && t.atPos.None? ==> r == t
  {
    if TypedTrigger(v, end) then
      Trigger(Some(end - 1), t.query)
    else if t.atPos.Some? then
      var q := Substring(v, t.atPos.value + 1, end);
      if !HasSpecialCharacter(q) then Trigger(t.atPos, Some(q)) else Trigger(None, None)
    else
      t
  }

  /** Typing `@` right after a character that is not whitespace never starts a trigger there. */
  lemma AtAfterWordDoesNotActivate(v: string, end: nat, t: Trigger)
    requires 2 <= end <= |v| && v[end - 1] == '@' && !IsWhitespace(v[end - 2])
    requires t.atPos != Some(end - 1)
    ensures NextTrigger(v, end, t).atPos != Some(end - 1)
  {
  }
}
