/**
 * Mention spans and how they follow edits (src/App.js:105-124, 186-207):
 * the one left-to-right pass of `modifyMentions` that keeps, shifts or drops
 * each span, the stable sort by `start` that `onMention` applies, and the
 * splice that puts a chosen name into the text.
 */
module Spans {
  import opened JsText

  /** A mention: the inclusive character range `[start, end]` of an inserted name. */
  datatype Span = Span(start: int, end: int)

  /** A `{selectionStart, selectionEnd}` snapshot of the text area. */
  datatype Selection = Selection(start: nat, end: nat)

  /**
   * What `modifyMentions` reads about one edit: the length change `diff`,
   * the caret start after the edit, and the selection snapshot from before it.
   */
  datatype Edit = Edit(diff: int, caret: nat, before: Selection)

  datatype Fate = Keep | Shift | Drop

  /** The branch `modifyMentions` takes for one span. */
  function FateOf(m: Span, e: Edit): (f: Fate)
    ensures f == Keep ==> e.diff != 0
    ensures e.diff == 0 ==> (f == Shift <==> m.start > e.before.end)
    ensures f == Drop ==> m.start <= e.before.end
  {
    if (e.diff < 0 && m.end < e.caret) || (e.diff > 0 && m.end < e.before.start) then Keep
    else if m.start > e.before.end then Shift
    else Drop
  }

  function Shifted(m: Span, diff: int): (r: Span)
    ensures r.end - r.start == m.end - m.start
  {
    Span(m.start + diff, m.end + diff)
  }

  /** What the pass pushes for one span. */
  function Moved(m: Span, e: Edit): (r: seq<Span>)
    ensures |r| == if FateOf(m, e) == Drop then 0 else 1
  {
    match FateOf(m, e)
    case Keep => [m]
    case Shift => [Shifted(m, e.diff)]
    case Drop => []
  }

  /** The span list after the pass over `spans`, in the order the pass pushes. */
  function Adjusted(spans: seq<Span>, e: Edit): (r: seq<Span>)
    ensures |r| <= |spans|
  {
    if spans == [] then []
    else Adjusted(spans[..|spans| - 1], e) + Moved(spans[|spans| - 1], e)
  }

  /** The indices in `spans` of the spans that survive the pass, in order. */
  function Survivors(spans: seq<Span>, e: Edit): seq<nat> {
    if spans == [] then []
    else
      var i := |spans| - 1;
      Survivors(spans[..i], e) + (if FateOf(spans[i], e) == Drop then [] else [i])
  }

  /**
   * `modifyMentions`: one pass over the current spans, pushing each kept span
   * as it is and each shifted span moved by `diff = |newInput| - |prevValue|`.
   */
  method ModifyMentions(prev: seq<Span>, newInput: string, prevValue: string, start: nat, prevSelection: Selection)
    returns (newValue: seq<Span>)
    ensures newValue == Adjusted(prev, Edit(|newInput| - |prevValue|, start, prevSelection))
  {
    var diff := |newInput| - |prevValue|;
    ghost var e := Edit(diff, start, prevSelection);
    newValue := [];
    for i := 0 to |prev|
      invariant newValue == Adjusted(prev[..i], e)
    {
      var m := prev[i];
      assert prev[..i + 1][..i] == prev[..i];
      if (diff < 0 && m.end < start) || (diff > 0 && m.end < prevSelection.start) {
        newValue := newValue + [m];
      } else if m.start > prevSelection.end {
        newValue := newValue + [Span(m.start + diff, m.end + diff)];
      }
    }
    assert prev[..|prev|] == prev;
  }

  /**
   * The pass adds no span and keeps the input order: every span it produces
   * comes from a surviving source span, unchanged when kept and moved by
   * `diff` (so of the same width) when shifted; every span that is not
   * dropped is produced.
   */
  lemma {:induction false} AdjustedTracksSources(spans: seq<Span>, e: Edit)
    ensures |Survivors(spans, e)| == |Adjusted(spans, e)| <= |spans|
    ensures forall k, l :: 0 <= k < l < |Survivors(spans, e)| ==> Survivors(spans, e)[k] < Survivors(spans, e)[l]
    ensures forall k :: 0 <= k < |Survivors(spans, e)| ==>
      var i := Survivors(spans, e)[k];
      && i < |spans|
      && FateOf(spans[i], e) != Drop
      && Adjusted(spans, e)[k] == (if FateOf(spans[i], e) == Keep then spans[i] else Shifted(spans[i], e.diff))
      && Adjusted(spans, e)[k].end - Adjusted(spans, e)[k].start == spans[i].end - spans[i].start
    ensures forall i :: 0 <= i < |spans| && FateOf(spans[i], e) != Drop ==> i in Survivors(spans, e)
  {
    SurvivorsOrdered(spans, e);
    AdjustedAtSurvivors(spans, e);
  }

  /** The surviving indices: increasing, in range, exactly those not dropped. */
  lemma {:induction false} SurvivorsOrdered(spans: seq<Span>, e: Edit)
    ensures |Survivors(spans, e)| <= |spans|
    ensures forall k :: 0 <= k < |Survivors(spans, e)| ==>
      Survivors(spans, e)[k] < |spans| && FateOf(spans[Survivors(spans, e)[k]], e) != Drop
    ensures forall k, l :: 0 <= k < l < |Survivors(spans, e)| ==> Survivors(spans, e)[k] < Survivors(spans, e)[l]
    ensures forall i :: 0 <= i < |spans| && FateOf(spans[i], e) != Drop ==> i in Survivors(spans, e)
  {
    if spans != [] {
      var n := |spans| - 1;
      var init := spans[..n];
      SurvivorsOrdered(init, e);
      assert forall i :: 0 <= i < n ==> init[i] == spans[i];
      var prior := Survivors(init, e);
      if FateOf(spans[n], e) == Drop {
        assert Survivors(spans, e) == prior;
      } else {
        assert Survivors(spans, e) == prior + [n];
      }
    }
  }

  /** The span the pass produces at each surviving index is its source, kept or shifted. */
  lemma {:induction false} AdjustedAtSurvivors(spans: seq<Span>, e: Edit)
    ensures |Survivors(spans, e)| == |Adjusted(spans, e)|
    ensures forall k :: 0 <= k < |Survivors(spans, e)| ==>
      Survivors(spans, e)[k] < |spans| &&
      Adjusted(spans, e)[k]
        == (if FateOf(spans[Survivors(spans, e)[k]], e) == Keep then spans[Survivors(spans, e)[k]]
            else Shifted(spans[Survivors(spans, e)[k]], e.diff))
  {
    if spans != [] {
      var n := |spans| - 1;
      var init := spans[..n];
      AdjustedAtSurvivors(init, e);
      assert forall i :: 0 <= i < n ==> init[i] == spans[i];
    }
  }

  /** When the edit lies after every span, the pass returns the spans unchanged. */
  lemma {:induction false} AdjustedAllKept(spans: seq<Span>, e: Edit)
    requires forall i :: 0 <= i < |spans| ==> FateOf(spans[i], e) == Keep
    ensures Adjusted(spans, e) == spans
  {
    if spans != [] {
      var n := |spans| - 1;
      assert Moved(spans[n], e) == [spans[n]];
      AdjustedAllKept(spans[..n], e);
      assert spans == spans[..n] + [spans[n]];
    }
  }

  /** With no length change only spans starting after the old selection end survive, untouched. */
  lemma {:induction false} AdjustedWithoutLengthChange(spans: seq<Span>, e: Edit)
    requires e.diff == 0
    ensures forall m :: m in Adjusted(spans, e) <==> m in spans && m.start > e.before.end
  {
    if spans != [] {
      var n := |spans| - 1;
      AdjustedWithoutLengthChange(spans[..n], e);
      assert spans == spans[..n] + [spans[n]];
    }
  }

  /**
   * Spans the editor can render: each inside a text of length `len`, with
   * `start <= end`, sorted by `start` and pairwise disjoint.
   */
  ghost predicate WellFormed(spans: seq<Span>, len: nat) {
    && (forall i :: 0 <= i < |spans| ==> 0 <= spans[i].start <= spans[i].end < len)
    && (forall i, j :: 0 <= i < j < |spans| ==> spans[i].end < spans[j].start)
  }

  /**
   * The edits under which the pass keeps spans well formed, for a text of
   * `prevLen` that became `newLen` long: a forward selection, a caret inside
   * the new text, and for a deletion a caret no further right than
   * `before.end + 1 + diff`. Typing, backspace, a one-character forward
   * delete and deleting or replacing a selection satisfy it; a forward
   * delete of several characters at once (Ctrl+Delete, say) does not.
   */
  ghost predicate EditFits(e: Edit, prevLen: nat, newLen: nat) {
    && e.diff == newLen - prevLen
    && e.before.start <= e.before.end
    && e.caret <= newLen
    && (e.diff < 0 ==> e.caret <= e.before.end + 1 + e.diff)
  }

  lemma MovedSpanInBounds(m: Span, e: Edit, prevLen: nat, newLen: nat)
    requires 0 <= m.start <= m.end < prevLen
    requires EditFits(e, prevLen, newLen) && FateOf(m, e) != Drop
    ensures var r := if FateOf(m, e) == Keep then m else Shifted(m, e.diff);
      0 <= r.start <= r.end < newLen
  {
  }

  lemma MovedPairOrdered(a: Span, b: Span, e: Edit, prevLen: nat, newLen: nat)
    requires 0 <= a.start <= a.end < b.start <= b.end
    requires EditFits(e, prevLen, newLen) && FateOf(a, e) != Drop && FateOf(b, e) != Drop
    ensures var ra := if FateOf(a, e) == Keep then a else Shifted(a, e.diff);
      var rb := if FateOf(b, e) == Keep then b else Shifted(b, e.diff);
      ra.end < rb.start
  {
  }

  /** For an edit satisfying `EditFits`, the pass keeps the spans sorted, disjoint and in bounds. */
  lemma AdjustedKeepsWellFormed(spans: seq<Span>, e: Edit, prevLen: nat, newLen: nat)
    requires WellFormed(spans, prevLen) && EditFits(e, prevLen, newLen)
    ensures WellFormed(Adjusted(spans, e), newLen)
  {
    AdjustedTracksSources(spans, e);
    var r := Adjusted(spans, e);
    var idx := Survivors(spans, e);
    forall k | 0 <= k < |r|
      ensures 0 <= r[k].start <= r[k].end < newLen
    {
      MovedSpanInBounds(spans[idx[k]], e, prevLen, newLen);
    }
    forall k, l | 0 <= k < l < |r|
      ensures r[k].end < r[l].start
    {
      MovedPairOrdered(spans[idx[k]], spans[idx[l]], e, prevLen, newLen);
    }
  }

  ghost predicate SortedByStart(spans: seq<Span>) {
    forall i, j :: 0 <= i < j < |spans| ==> spans[i].start <= spans[j].start
  }

  /** Put `x` after every span of `sorted` whose start is not greater than its own. */
  function InsertByStart(sorted: seq<Span>, x: Span): (r: seq<Span>)
    ensures |r| == |sorted| + 1
  {
    if sorted == [] then [x]
    else if x.start < sorted[0].start then [x] + sorted
    else [sorted[0]] + InsertByStart(sorted[1..], x)
  }

  /** `spans.sort((a, b) => a.start - b.start)`: a stable insertion sort by `start`. */
  function SortByStart(spans: seq<Span>): (r: seq<Span>)
    ensures |r| == |spans|
  {
    if spans == [] then []
    else InsertByStart(SortByStart(spans[..|spans| - 1]), spans[|spans| - 1])
  }

  lemma {:induction false} InsertByStartElements(sorted: seq<Span>, x: Span)
    ensures |InsertByStart(sorted, x)| == |sorted| + 1
    ensures forall m :: m in InsertByStart(sorted, x) <==> m in sorted || m == x
    ensures multiset(InsertByStart(sorted, x)) == multiset(sorted) + multiset{x}
  {
    if sorted != [] && x.start >= sorted[0].start {
      InsertByStartElements(sorted[1..], x);
      assert sorted == [sorted[0]] + sorted[1..];
    }
  }

  lemma ConsSorted(h: Span, rest: seq<Span>)
    requires SortedByStart(rest) && forall j :: 0 <= j < |rest| ==> h.start <= rest[j].start
    ensures SortedByStart([h] + rest)
  {
    var r := [h] + rest;
    forall i, j | 0 <= i < j < |r|
      ensures r[i].start <= r[j].start
    {
      assert r[j] == rest[j - 1];
      if i > 0 {
        assert r[i] == rest[i - 1];
      }
    }
  }

  lemma {:induction false} InsertByStartSorts(sorted: seq<Span>, x: Span)
    requires SortedByStart(sorted)
    ensures SortedByStart(InsertByStart(sorted, x))
  {
    if sorted == [] {
    } else if x.start < sorted[0].start {
      ConsSorted(x, sorted);
    } else {
      var tail := sorted[1..];
      var rest := InsertByStart(tail, x);
      assert SortedByStart(tail);
      InsertByStartSorts(tail, x);
      InsertByStartElements(tail, x);
      forall j | 0 <= j < |rest|
        ensures sorted[0].start <= rest[j].start
      {
        assert rest[j] in rest;
      }
      ConsSorted(sorted[0], rest);
    }
  }

  /** The sort returns its input sorted by `start`, as a permutation. */
  lemma {:induction false} SortByStartSorts(spans: seq<Span>)
    ensures SortedByStart(SortByStart(spans))
    ensures multiset(SortByStart(spans)) == multiset(spans)
  {
    if spans != [] {
      var n := |spans| - 1;
      SortByStartSorts(spans[..n]);
      InsertByStartSorts(SortByStart(spans[..n]), spans[n]);
      InsertByStartElements(SortByStart(spans[..n]), spans[n]);
      assert spans == spans[..n] + [spans[n]];
    }
  }

  /** Adding one span and sorting gives the old spans and the new one, sorted by `start`. */
  lemma AddSorted(spans: seq<Span>, x: Span)
    ensures SortedByStart(SortByStart(spans + [x]))
    ensures multiset(SortByStart(spans + [x])) == multiset(spans) + multiset{x}
  {
    SortByStartSorts(spans + [x]);
  }

  /** Sorting a sorted list changes nothing. */
  lemma {:induction false} SortByStartOfSorted(spans: seq<Span>)
    requires SortedByStart(spans)
    ensures SortByStart(spans) == spans
  {
    if spans != [] {
      var n := |spans| - 1;
      SortByStartOfSorted(spans[..n]);
      InsertAtEnd(spans[..n], spans[n]);
      assert spans == spans[..n] + [spans[n]];
    }
  }

  lemma {:induction false} InsertAtEnd(sorted: seq<Span>, x: Span)
    requires forall i :: 0 <= i < |sorted| ==> sorted[i].start <= x.start
    ensures InsertByStart(sorted, x) == sorted + [x]
  {
    if sorted != [] {
      InsertAtEnd(sorted[1..], x);
      assert sorted == [sorted[0]] + sorted[1..];
    }
  }

  /** So appending one span to a sorted list and sorting inserts it after the spans that start no later. */
  lemma AppendThenSort(sorted: seq<Span>, x: Span)
    requires SortedByStart(sorted)
    ensures SortByStart(sorted + [x]) == InsertByStart(sorted, x)
  {
    assert (sorted + [x])[..|sorted|] == sorted;
    SortByStartOfSorted(sorted);
  }

  /** `[p.slice(0, at), name, p.slice(selEnd)].join("")`. */
  function Splice(p: string, at: nat, name: string, selEnd: nat): (r: string)
    ensures at <= selEnd <= |p| ==> r == p[..at] + name + p[selEnd..]
    ensures at <= |p| ==> |r| >= at + |name| && r[at..at + |name|] == name
  {
    var head := Slice(p, 0, at);
    assert at <= |p| ==> head == p[..at];
    head + name + SliceFrom(p, selEnd)
  }

  /** Well-formed spans are sorted by `start`. */
  lemma WellFormedSorted(spans: seq<Span>, len: nat)
    requires WellFormed(spans, len)
    ensures SortedByStart(spans)
  {
    forall i, j | 0 <= i < j < |spans|
      ensures spans[i].start <= spans[j].start
    {
      assert spans[i].end < spans[j].start;
    }
  }

  /** A span in bounds that starts after every existing one ends extends well-formed spans. */
  lemma WellFormedAppend(spans: seq<Span>, len: nat, x: Span, newLen: nat)
    requires WellFormed(spans, len) && forall i :: 0 <= i < |spans| ==> spans[i].end < x.start
    requires 0 <= x.start <= x.end < newLen
    ensures WellFormed(spans + [x], newLen)
  {
    var r := spans + [x];
    forall i | 0 <= i < |r|
      ensures 0 <= r[i].start <= r[i].end < newLen
    {
      if i < |spans| {
        assert r[i] == spans[i];
      }
    }
    forall i, j | 0 <= i < j < |r|
      ensures r[i].end < r[j].start
    {
      assert r[i] == spans[i];
      if j < |spans| {
        assert r[j] == spans[j];
      }
    }
  }

  /**
   * When every existing mention ends before the trigger, the mention list that
   * `onMention` builds is well formed for the spliced text, and the new span
   * is simply added last.
   */
  lemma MentionAddedAfterOthers(spans: seq<Span>, p: string, at: nat, name: string, selEnd: nat)
    requires WellFormed(spans, |p|) && forall i :: 0 <= i < |spans| ==> spans[i].end < at
    requires at <= selEnd <= |p| && name != []
    ensures var added := Span(at, at + |name| - 1);
      && SortByStart(spans + [added]) == spans + [added]
      && WellFormed(spans + [added], |Splice(p, at, name, selEnd)|)
  {
    var added := Span(at, at + |name| - 1);
    WellFormedSorted(spans, |p|);
    AppendThenSort(spans, added);
    InsertAtEnd(spans, added);
    WellFormedAppend(spans, |p|, added, |Splice(p, at, name, selEnd)|);
  }
}
