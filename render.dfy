/**
 * `renderByMention` (src/App.js:216-272): the overlay that shows the text
 * with every mention highlighted, as a list of segments (the JSX spans and
 * their styles are not modelled).
 */
module Render {
  import opened JsText
  import opened Spans

  /** One `<span>` of the overlay: its text, and whether it has the mention tint. */
  datatype Segment = Segment(text: string, highlighted: bool)

  /** The plain text before the first mention, when it does not start the text. */
  function Lead(text: string, spans: seq<Span>, i: nat): seq<Segment>
    requires i < |spans|
  {
    if i == 0 && spans[i].start > 0 then [Segment(Slice(text, 0, spans[i].start), false)] else []
  }

  /** The plain text after mention `i`: up to the next mention, or after the last one the rest of the text. */
  function After(text: string, spans: seq<Span>, i: nat): seq<Segment>
    requires i < |spans|
  {
    var m := spans[i];
    (if i < |spans| - 1 then [Segment(Slice(text, m.end + 1, spans[i + 1].start), false)] else [])
    + (if i == |spans| - 1 && m.end < |text| - 1 then [Segment(Slice(text, m.end + 1, |text|), false)] else [])
  }

  /** The text a mention highlights: `slice(start, end + 1)`. */
  function MentionText(text: string, m: Span): string {
    Slice(text, m.start, m.end + 1)
  }

  /** The fragment `mentions.map` emits for mention `i`. */
  function Fragment(text: string, spans: seq<Span>, i: nat): seq<Segment>
    requires i < |spans|
  {
    Lead(text, spans, i) + [Segment(MentionText(text, spans[i]), true)] + After(text, spans, i)
  }

  function RenderFrom(text: string, spans: seq<Span>, i: nat): seq<Segment>
    requires i <= |spans|
    decreases |spans| - i
  {
    if i == |spans| then [] else Fragment(text, spans, i) + RenderFrom(text, spans, i + 1)
  }

  /**
   * `renderByMention`: the whole text as one plain segment when there is no
   * mention; otherwise, whatever the spans, one highlighted segment per
   * mention, in order, holding `slice(start, end + 1)` of the text.
   */
  function RenderByMention(text: string, spans: seq<Span>): (r: seq<Segment>)
    ensures |spans| == 0 ==> r == [Segment(text, false)]
    ensures |Highlights(r)| == |spans|
    ensures forall k :: 0 <= k < |spans| ==> Highlights(r)[k] == MentionText(text, spans[k])
  {
    if |spans| == 0 then
      assert Highlights([Segment(text, false)]) == Tinted(Segment(text, false)) + Highlights([]);
      [Segment(text, false)]
    else
      RenderFromHighlights(text, spans, 0);
      RenderFrom(text, spans, 0)
  }

  /** The text the segments show, in order. */
  function Concat(segments: seq<Segment>): string {
    if |segments| == 0 then "" else segments[0].text + Concat(segments[1..])
  }

  /** The text of a segment, if it is highlighted. */
  function Tinted(segment: Segment): seq<string> {
    if segment.highlighted then [segment.text] else []
  }

  /** The texts of the highlighted segments, in order. */
  function Highlights(segments: seq<Segment>): seq<string> {
    if |segments| == 0 then [] else Tinted(segments[0]) + Highlights(segments[1..])
  }

  lemma Associative<T>(x: seq<T>, y: seq<T>, z: seq<T>)
    ensures (x + y) + z == x + (y + z)
  {
  }

  lemma {:induction false} ConcatAppend(a: seq<Segment>, b: seq<Segment>)
    ensures Concat(a + b) == Concat(a) + Concat(b)
  {
    if |a| == 0 {
      assert a + b == b;
    } else {
      var t, r := a[0].text, a[1..];
      assert (a + b)[0] == a[0] && (a + b)[1..] == r + b;
      assert Concat(a + b) == t + Concat(r + b);
      assert Concat(a) == t + Concat(r);
      ConcatAppend(r, b);
      Associative(t, Concat(r), Concat(b));
    }
  }

  lemma {:induction false} HighlightsAppend(a: seq<Segment>, b: seq<Segment>)
    ensures Highlights(a + b) == Highlights(a) + Highlights(b)
  {
    if |a| == 0 {
      assert a + b == b;
    } else {
      var t, r := Tinted(a[0]), a[1..];
      assert (a + b)[0] == a[0] && (a + b)[1..] == r + b;
      assert Highlights(a + b) == t + Highlights(r + b);
      assert Highlights(a) == t + Highlights(r);
      HighlightsAppend(r, b);
      Associative(t, Highlights(r), Highlights(b));
    }
  }

  /** Where the text shown by the fragment of mention `i` ends. */
  function FragmentEnd(text: string, spans: seq<Span>, i: nat): int
    requires i < |spans|
  {
    if i < |spans| - 1 then spans[i + 1].start else |text|
  }

  /** What the fragment of mention `i` needs of the mentions: it lies in the text, before the next one. */
  predicate FragmentFits(text: string, spans: seq<Span>, i: nat)
    requires i < |spans|
  {
    && 0 <= spans[i].start <= spans[i].end < |text|
    && (i < |spans| - 1 ==> spans[i].end < spans[i + 1].start <= |text|)
  }

  lemma LeadShows(text: string, spans: seq<Span>, i: nat)
    requires i < |spans| && FragmentFits(text, spans, i)
    ensures Concat(Lead(text, spans, i)) == if i == 0 then text[..spans[0].start] else ""
  {
  }

  lemma AfterShows(text: string, spans: seq<Span>, i: nat)
    requires i < |spans| && FragmentFits(text, spans, i)
    ensures Concat(After(text, spans, i)) == text[spans[i].end + 1..FragmentEnd(text, spans, i)]
  {
  }

  /** The segments around a mention are never highlighted. */
  lemma PlainAround(text: string, spans: seq<Span>, i: nat)
    requires i < |spans|
    ensures Highlights(Lead(text, spans, i)) == [] && Highlights(After(text, spans, i)) == []
  {
  }

  lemma Concat3(a: seq<Segment>, b: seq<Segment>, c: seq<Segment>)
    ensures Concat(a + b + c) == Concat(a) + (Concat(b) + Concat(c))
  {
    assert a + b + c == a + (b + c);
    ConcatAppend(a, b + c);
    ConcatAppend(b, c);
  }

  lemma Highlights3(a: seq<Segment>, b: seq<Segment>, c: seq<Segment>)
    ensures Highlights(a + b + c) == Highlights(a) + Highlights(b) + Highlights(c)
  {
    HighlightsAppend(a + b, c);
    HighlightsAppend(a, b);
  }

  /** The highlighted segment of a mention inside the text shows exactly the mention. */
  lemma MentionShows(text: string, m: Span)
    requires 0 <= m.start <= m.end < |text|
    ensures Concat([Segment(MentionText(text, m), true)]) == text[m.start..m.end + 1]
  {
    var mention := [Segment(MentionText(text, m), true)];
    assert Concat(mention) == mention[0].text + Concat([]);
  }

  lemma FragmentParts(text: string, spans: seq<Span>, i: nat)
    requires i < |spans|
    ensures Concat(Fragment(text, spans, i))
      == Concat(Lead(text, spans, i)) + (Concat([Segment(MentionText(text, spans[i]), true)]) + Concat(After(text, spans, i)))
  {
    var mention := [Segment(MentionText(text, spans[i]), true)];
    assert Fragment(text, spans, i) == Lead(text, spans, i) + mention + After(text, spans, i);
    Concat3(Lead(text, spans, i), mention, After(text, spans, i));
  }

  /** A mention and the plain text after it show the text from its start to the next mention. */
  lemma MentionThenAfter(text: string, spans: seq<Span>, i: nat)
    requires i < |spans| && FragmentFits(text, spans, i)
    ensures Concat([Segment(MentionText(text, spans[i]), true)]) + Concat(After(text, spans, i))
      == text[spans[i].start..FragmentEnd(text, spans, i)]
  {
    MentionShows(text, spans[i]);
    AfterShows(text, spans, i);
    SliceSplit(text, spans[i].start, spans[i].end + 1, FragmentEnd(text, spans, i));
  }

  lemma FragmentConcat(text: string, spans: seq<Span>, i: nat)
    requires i < |spans| && FragmentFits(text, spans, i)
    ensures Concat(Fragment(text, spans, i))
      == (if i == 0 then text[..spans[0].start] else "") + text[spans[i].start..FragmentEnd(text, spans, i)]
  {
    FragmentParts(text, spans, i);
    LeadShows(text, spans, i);
    MentionThenAfter(text, spans, i);
  }

  lemma FragmentHighlights(text: string, spans: seq<Span>, i: nat)
    requires i < |spans|
    ensures Highlights(Fragment(text, spans, i)) == [MentionText(text, spans[i])]
  {
    var m := spans[i];
    var lead := Lead(text, spans, i);
    var mention := [Segment(MentionText(text, m), true)];
    var after := After(text, spans, i);
    assert Fragment(text, spans, i) == lead + mention + after;
    Highlights3(lead, mention, after);
    PlainAround(text, spans, i);
    assert Highlights(mention) == [mention[0].text] + Highlights([]);
  }

  lemma SliceSplit(t: string, a: int, b: int, c: int)
    requires 0 <= a <= b <= c <= |t|
    ensures t[a..c] == t[a..b] + t[b..c]
  {
  }

  lemma RenderFromUnfolds(text: string, spans: seq<Span>, i: nat)
    requires i < |spans|
    ensures Concat(RenderFrom(text, spans, i)) == Concat(Fragment(text, spans, i)) + Concat(RenderFrom(text, spans, i + 1))
  {
    ConcatAppend(Fragment(text, spans, i), RenderFrom(text, spans, i + 1));
  }

  lemma RenderFromUnfoldsHighlights(text: string, spans: seq<Span>, i: nat)
    requires i < |spans|
    ensures Highlights(RenderFrom(text, spans, i)) == Highlights(Fragment(text, spans, i)) + Highlights(RenderFrom(text, spans, i + 1))
  {
    HighlightsAppend(Fragment(text, spans, i), RenderFrom(text, spans, i + 1));
  }

  lemma TextRejoins(head: string, text: string, s: int, e: int)
    requires 0 <= s <= e <= |text|
    ensures (head + text[s..e]) + text[e..] == head + text[s..]
  {
    SliceSplit(text, s, e, |text|);
    Associative(head, text[s..e], text[e..]);
  }

  /** One step of the induction below: fragment `i` followed by what the later fragments show. */
  lemma RenderFromConcatStep(text: string, spans: seq<Span>, i: nat)
    requires i < |spans| && FragmentFits(text, spans, i)
    requires i + 1 < |spans| ==> Concat(RenderFrom(text, spans, i + 1)) == text[spans[i + 1].start..]
    ensures Concat(RenderFrom(text, spans, i))
      == (if i == 0 then text[..spans[0].start] else "") + text[spans[i].start..]
  {
    var e := FragmentEnd(text, spans, i);
    RenderFromUnfolds(text, spans, i);
    FragmentConcat(text, spans, i);
    if i + 1 == |spans| {
      assert Concat(RenderFrom(text, spans, i + 1)) == text[e..];
    }
    TextRejoins(if i == 0 then text[..spans[0].start] else "", text, spans[i].start, e);
  }

  lemma WellFormedFits(text: string, spans: seq<Span>, i: nat)
    requires WellFormed(spans, |text|) && i < |spans|
    ensures FragmentFits(text, spans, i)
  {
    if i < |spans| - 1 {
      assert spans[i].end < spans[i + 1].start;
    }
  }

  lemma {:induction false} RenderFromConcat(text: string, spans: seq<Span>, i: nat)
    requires WellFormed(spans, |text|) && i < |spans|
    ensures Concat(RenderFrom(text, spans, i))
      == (if i == 0 then text[..spans[0].start] else "") + text[spans[i].start..]
    decreases |spans| - i
  {
    WellFormedFits(text, spans, i);
    if i + 1 < |spans| {
      RenderFromConcat(text, spans, i + 1);
    }
    RenderFromConcatStep(text, spans, i);
  }

  /** Prepending the text of mention `i` to the texts of the mentions after it gives the texts from `i` on. */
  lemma MentionTextsCons(text: string, spans: seq<Span>, i: nat, rest: seq<string>)
    requires i < |spans| && |rest| == |spans| - (i + 1)
    requires forall k :: 0 <= k < |rest| ==> rest[k] == MentionText(text, spans[i + 1 + k])
    ensures forall k :: 0 <= k < |spans| - i ==>
      ([MentionText(text, spans[i])] + rest)[k] == MentionText(text, spans[i + k])
  {
    var h := [MentionText(text, spans[i])] + rest;
    forall k | 0 < k < |spans| - i
      ensures h[k] == MentionText(text, spans[i + k])
    {
      assert h[k] == rest[k - 1];
      assert i + 1 + (k - 1) == i + k;
    }
  }

  lemma {:induction false} RenderFromHighlights(text: string, spans: seq<Span>, i: nat)
    requires i < |spans|
    ensures |Highlights(RenderFrom(text, spans, i))| == |spans| - i
    ensures forall k :: 0 <= k < |spans| - i ==>
      Highlights(RenderFrom(text, spans, i))[k] == MentionText(text, spans[i + k])
    decreases |spans| - i
  {
    FragmentHighlights(text, spans, i);
    RenderFromUnfoldsHighlights(text, spans, i);
    var rest := Highlights(RenderFrom(text, spans, i + 1));
    if i + 1 < |spans| {
      RenderFromHighlights(text, spans, i + 1);
    } else {
      assert RenderFrom(text, spans, i + 1) == [];
      assert rest == [];
    }
    MentionTextsCons(text, spans, i, rest);
  }

  /** With at least one well-formed mention, the fragments concatenate to the text. */
  lemma RenderFromIsText(text: string, spans: seq<Span>)
    requires WellFormed(spans, |text|) && spans != []
    ensures Concat(RenderFrom(text, spans, 0)) == text
  {
    RenderFromConcat(text, spans, 0);
    assert text == text[..spans[0].start] + text[spans[0].start..];
  }

  /** For well-formed mentions the overlay's segments concatenate to the text. */
  lemma RenderConcatIsText(text: string, spans: seq<Span>)
    requires WellFormed(spans, |text|)
    ensures Concat(RenderByMention(text, spans)) == text
  {
    if spans != [] {
      RenderFromIsText(text, spans);
      assert RenderByMention(text, spans) == RenderFrom(text, spans, 0);
    } else {
      assert Concat([Segment(text, false)]) == text + Concat([]);
    }
  }

  /** Inside the text, a mention's text is the plain slice from its start to its end. */
  lemma MentionTextsInside(text: string, spans: seq<Span>)
    requires WellFormed(spans, |text|)
    ensures forall k :: 0 <= k < |spans| ==> MentionText(text, spans[k]) == text[spans[k].start..spans[k].end + 1]
  {
  }

  /**
   * For well-formed mentions the overlay shows exactly the text, and its
   * highlighted segments are the mentions' texts, one per mention, in order.
   */
  lemma RenderShowsText(text: string, spans: seq<Span>)
    requires WellFormed(spans, |text|)
    ensures Concat(RenderByMention(text, spans)) == text
    ensures |Highlights(RenderByMention(text, spans))| == |spans|
    ensures forall k :: 0 <= k < |spans| ==>
      Highlights(RenderByMention(text, spans))[k] == text[spans[k].start..spans[k].end + 1]
    ensures spans == [] ==> RenderByMention(text, spans) == [Segment(text, false)]
  {
    RenderConcatIsText(text, spans);
    MentionTextsInside(text, spans);
  }
}
