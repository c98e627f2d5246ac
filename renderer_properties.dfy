/** What the renderer promises, proved about the specification functions of
    module Renderer: how lookups determine word widths, that the wrapper is
    greedy and keeps words whole, what each composed row holds, and the shape
    of the assembled output. */
module RendererProperties {
  import opened Results
  import opened Text
  import opened Fonts
  import opened Renderer

  // ---------------------------------------------------------------------------
  // Widths

  /** Column counts add up over concatenation. */
  lemma {:induction false} ColumnsAppend(font: Font, a: string, b: string)
    ensures Columns(font, a + b) == Columns(font, a) + Columns(font, b)
    decreases |b|
  {
    if |b| == 0 {
      assert a + b == a;
    } else {
      var b' := b[..|b| - 1];
      assert (a + b)[..|a + b| - 1] == a + b';
      ColumnsAppend(font, a, b');
    }
  }

  /** `calculate_word_width` succeeds exactly when every character resolves,
      and then returns the column count; otherwise its error names the first
      character that resolves to nothing, upper-cased, and the font. */
  lemma {:induction false} WordWidthMeaning(font: Font, s: string)
    ensures WordWidth(font, s).Success? <==> forall k :: 0 <= k < |s| ==> GetCharacter(font, s[k]).Success?
    ensures WordWidth(font, s).Success? ==> WordWidth(font, s).value == Columns(font, s)
    ensures WordWidth(font, s).Failure? ==>
      exists k :: 0 <= k < |s| && GetCharacter(font, s[k]).Failure?
        && (forall j :: 0 <= j < k ==> GetCharacter(font, s[j]).Success?)
        && WordWidth(font, s).error == CharacterNotSupported(ToAsciiUppercase(s[k]), font.name)
    decreases |s|
  {
    if |s| > 0 {
      var init := s[..|s| - 1];
      WordWidthMeaning(font, init);
      assert forall k :: 0 <= k < |init| ==> init[k] == s[k];
      if WordWidth(font, init).Success? {
        WordWidthResolves(font, init);
        if GetCharacter(font, s[|s| - 1]).Failure? {
          var k := |s| - 1;
          assert forall j :: 0 <= j < k ==> GetCharacter(font, s[j]).Success?;
        }
      }
    }
  }

  // ---------------------------------------------------------------------------
  // The wrapper is greedy

  /** The words of the groups, in order. */
  function Concat(groups: seq<seq<string>>): seq<string> {
    if |groups| == 0 then [] else Concat(groups[..|groups| - 1]) + groups[|groups| - 1]
  }

  lemma ConcatSnoc(groups: seq<seq<string>>, g: seq<string>)
    ensures Concat(groups + [g]) == Concat(groups) + g
  {
    assert (groups + [g])[..|groups|] == groups;
  }

  /** `groups` cuts `words`, in order, into non-empty lines. */
  ghost predicate IsGrouping(groups: seq<seq<string>>, words: seq<string>) {
    Concat(groups) == words && forall i :: 0 <= i < |groups| ==> groups[i] != []
  }

  /** Every line break was needed: the first word of each line after the first
      failed the fit test against the whole line before it. */
  ghost predicate BreaksForced(font: Font, maxWidth: nat, spacing: nat, groups: seq<seq<string>>) {
    forall i :: 1 <= i < |groups| && groups[i] != [] ==>
      BreaksBefore(maxWidth, spacing, false, Columns(font, Join(groups[i - 1], ' ')), Columns(font, groups[i][0]))
  }

  /** Every word after the first on a line passed the fit test against the
      words before it on that line. */
  ghost predicate JoinsFit(font: Font, maxWidth: nat, spacing: nat, groups: seq<seq<string>>) {
    forall i, j :: 0 <= i < |groups| && 1 <= j < |groups[i]| ==>
      !BreaksBefore(maxWidth, spacing, false, Columns(font, Join(groups[i][..j], ' ')), Columns(font, groups[i][j]))
  }

  /** The lines a wrapper state stands for: the closed ones and a non-empty current one. */
  function Groups(st: WrapState): seq<seq<string>> {
    if st.current == [] then st.closed else st.closed + [st.current]
  }

  ghost predicate WrapInvariant(font: Font, maxWidth: nat, spacing: nat, st: WrapState, done: seq<string>) {
    && IsGrouping(Groups(st), done)
    && (st.current == [] ==> st.closed == [] && st.width == 0)
    && st.width == Columns(font, Join(st.current, ' '))
    && BreaksForced(font, maxWidth, spacing, Groups(st))
    && JoinsFit(font, maxWidth, spacing, Groups(st))
  }

  /** The width of a line with one more word: the line, a space glyph and the word. */
  lemma LineWidthSnoc(font: Font, line: seq<string>, w: string)
    requires line != []
    ensures Columns(font, Join(line + [w], ' ')) == Columns(font, Join(line, ' ')) + GlyphWidth(font, ' ') + Columns(font, w)
  {
    JoinSnoc(line, w, ' ');
    ColumnsAppend(font, Join(line, ' ') + [' '], w);
    ColumnsAppend(font, Join(line, ' '), [' ']);
    assert [' '][..0] == [];
  }

  /** Closing the last line before a word that failed the fit test keeps every break forced. */
  lemma BreaksForcedNewGroup(font: Font, maxWidth: nat, spacing: nat, gs: seq<seq<string>>, g: seq<string>)
    requires BreaksForced(font, maxWidth, spacing, gs)
    requires |gs| > 0 && g != [] ==>
      BreaksBefore(maxWidth, spacing, false, Columns(font, Join(gs[|gs| - 1], ' ')), Columns(font, g[0]))
    ensures BreaksForced(font, maxWidth, spacing, gs + [g])
  {
    var ng := gs + [g];
    forall i | 1 <= i < |ng| && ng[i] != []
      ensures BreaksBefore(maxWidth, spacing, false, Columns(font, Join(ng[i - 1], ' ')), Columns(font, ng[i][0]))
    {
      assert ng[i - 1] == gs[i - 1];
      if i < |gs| { assert ng[i] == gs[i]; }
    }
  }

  /** A new line of one word adds no join to check. */
  lemma JoinsFitNewGroup(font: Font, maxWidth: nat, spacing: nat, gs: seq<seq<string>>, w: string)
    requires JoinsFit(font, maxWidth, spacing, gs)
    ensures JoinsFit(font, maxWidth, spacing, gs + [[w]])
  {
    var ng := gs + [[w]];
    forall i, j | 0 <= i < |ng| && 1 <= j < |ng[i]|
      ensures !BreaksBefore(maxWidth, spacing, false, Columns(font, Join(ng[i][..j], ' ')), Columns(font, ng[i][j]))
    {
      assert i < |gs| && ng[i] == gs[i];
    }
  }

  /** Adding a word to the last line leaves the breaks as they were. */
  lemma BreaksForcedExtendLast(font: Font, maxWidth: nat, spacing: nat, closed: seq<seq<string>>, cur: seq<string>, w: string)
    requires cur != [] && BreaksForced(font, maxWidth, spacing, closed + [cur])
    ensures BreaksForced(font, maxWidth, spacing, closed + [cur + [w]])
  {
    var gs := closed + [cur];
    var ng := closed + [cur + [w]];
    forall i | 1 <= i < |ng| && ng[i] != []
      ensures BreaksBefore(maxWidth, spacing, false, Columns(font, Join(ng[i - 1], ' ')), Columns(font, ng[i][0]))
    {
      assert ng[i - 1] == gs[i - 1];
      assert ng[i][0] == gs[i][0];
    }
  }

  /** Adding a word that passed the fit test to the last line keeps every join fitting. */
  lemma JoinsFitExtendLast(font: Font, maxWidth: nat, spacing: nat, closed: seq<seq<string>>, cur: seq<string>, w: string)
    requires JoinsFit(font, maxWidth, spacing, closed + [cur])
    requires !BreaksBefore(maxWidth, spacing, false, Columns(font, Join(cur, ' ')), Columns(font, w))
    ensures JoinsFit(font, maxWidth, spacing, closed + [cur + [w]])
  {
    var gs := closed + [cur];
    var ng := closed + [cur + [w]];
    forall i, j | 0 <= i < |ng| && 1 <= j < |ng[i]|
      ensures !BreaksBefore(maxWidth, spacing, false, Columns(font, Join(ng[i][..j], ' ')), Columns(font, ng[i][j]))
    {
      if i < |closed| {
        assert ng[i] == gs[i];
      } else if j < |cur| {
        assert ng[i][..j] == gs[i][..j] && ng[i][j] == gs[i][j];
      } else {
        assert ng[i][..j] == cur && ng[i][j] == w;
      }
    }
  }

  /** A step that opens a new line keeps the invariant. */
  lemma WrapStepNewLine(font: Font, maxWidth: nat, spacing: nat, st: WrapState, done: seq<string>, w: string, wordWidth: nat)
    requires WrapInvariant(font, maxWidth, spacing, st, done)
    requires wordWidth == Columns(font, w) && w != []
    requires st.current != [] && BreaksBefore(maxWidth, spacing, false, st.width, wordWidth)
    ensures WrapInvariant(font, maxWidth, spacing, WrapState(st.closed + [st.current], [w], wordWidth), done + [w])
  {
    var gs := Groups(st);
    assert Groups(WrapState(st.closed + [st.current], [w], wordWidth)) == gs + [[w]];
    ConcatSnoc(gs, [w]);
    assert Join([w], ' ') == w;
    BreaksForcedNewGroup(font, maxWidth, spacing, gs, [w]);
    JoinsFitNewGroup(font, maxWidth, spacing, gs, w);
  }

  /** Adding a word to the last line keeps a grouping of the words so far. */
  lemma IsGroupingExtendLast(closed: seq<seq<string>>, cur: seq<string>, w: string, done: seq<string>)
    requires IsGrouping(closed + [cur], done)
    ensures IsGrouping(closed + [cur + [w]], done + [w])
  {
    var gs := closed + [cur];
    var ng := closed + [cur + [w]];
    ConcatSnoc(closed, cur);
    ConcatSnoc(closed, cur + [w]);
    forall i | 0 <= i < |ng| ensures ng[i] != [] {
      if i < |closed| { assert ng[i] == gs[i]; }
    }
  }

  /** A step that adds a word to a non-empty line keeps the invariant. */
  lemma WrapStepSameLine(font: Font, maxWidth: nat, spacing: nat, st: WrapState, done: seq<string>, w: string, wordWidth: nat)
    requires WrapInvariant(font, maxWidth, spacing, st, done)
    requires wordWidth == Columns(font, w)
    requires st.current != [] && !BreaksBefore(maxWidth, spacing, false, st.width, wordWidth)
    ensures WrapInvariant(font, maxWidth, spacing,
      WrapState(st.closed, st.current + [w], st.width + GlyphWidth(font, ' ') + wordWidth), done + [w])
  {
    var cur := st.current;
    var next := WrapState(st.closed, cur + [w], st.width + GlyphWidth(font, ' ') + wordWidth);
    assert Groups(st) == st.closed + [cur] && Groups(next) == st.closed + [cur + [w]];
    assert IsGrouping(Groups(next), done + [w]) by {
      IsGroupingExtendLast(st.closed, cur, w, done);
    }
    assert next.width == Columns(font, Join(next.current, ' ')) by {
      LineWidthSnoc(font, cur, w);
    }
    assert BreaksForced(font, maxWidth, spacing, Groups(next)) by {
      BreaksForcedExtendLast(font, maxWidth, spacing, st.closed, cur, w);
    }
    assert JoinsFit(font, maxWidth, spacing, Groups(next)) by {
      JoinsFitExtendLast(font, maxWidth, spacing, st.closed, cur, w);
    }
  }

  /** The first word opens the first line. */
  lemma WrapStepFirstWord(font: Font, maxWidth: nat, spacing: nat, w: string)
    requires w != []
    ensures WrapInvariant(font, maxWidth, spacing, WrapState([], [w], Columns(font, w)), [w])
  {
    var next := WrapState([], [w], Columns(font, w));
    assert Groups(next) == [[w]];
    assert IsGrouping([[w]], [w]) by {
      ConcatSnoc([], [w]);
      assert [] + [[w]] == [[w]] && [] + [w] == [w];
    }
    assert Join([w], ' ') == w;
  }

  /** One pass of the loop keeps the invariant. */
  lemma WrapStepKeepsInvariant(font: Font, maxWidth: nat, spacing: nat, st: WrapState, done: seq<string>, w: string, next: WrapState)
    requires WrapInvariant(font, maxWidth, spacing, st, done)
    requires w != [] && WrapStep(font, maxWidth, spacing, st, w) == Success(next)
    ensures WrapInvariant(font, maxWidth, spacing, next, done + [w])
  {
    WordWidthResolves(font, w);
    var wordWidth := WordWidth(font, w).value;
    var brk := BreaksBefore(maxWidth, spacing, st.current == [], st.width, wordWidth);
    var st1 := if brk then WrapState(st.closed + [st.current], [], 0) else st;
    WrapStepCases(font, maxWidth, spacing, st, w, wordWidth, st1);
    if st.current == [] {
      assert st.closed == [] && done == [] by {
        assert Groups(st) == st.closed;
      }
      WrapStepFirstWord(font, maxWidth, spacing, w);
      assert done + [w] == [w];
    } else if brk {
      WrapStepNewLine(font, maxWidth, spacing, st, done, w, wordWidth);
    } else {
      WrapStepSameLine(font, maxWidth, spacing, st, done, w, wordWidth);
    }
  }

  /** The greedy grouping of `words`: a grouping whose breaks are all forced
      and whose joins all fit. */
  ghost predicate GreedyGrouping(font: Font, maxWidth: nat, spacing: nat, groups: seq<seq<string>>, words: seq<string>) {
    IsGrouping(groups, words) && BreaksForced(font, maxWidth, spacing, groups) && JoinsFit(font, maxWidth, spacing, groups)
  }

  /** With every word placed, the invariant says the lines are the greedy grouping. */
  lemma WrapInvariantAtEnd(font: Font, maxWidth: nat, spacing: nat, st: WrapState, words: seq<string>)
    requires WrapInvariant(font, maxWidth, spacing, st, words)
    ensures GreedyGrouping(font, maxWidth, spacing, Groups(st), words)
  {
  }

  lemma {:induction false} WrapFromKeepsInvariant(font: Font, maxWidth: nat, spacing: nat, st: WrapState,
                                                  words: seq<string>, i: nat, groups: seq<seq<string>>)
    requires i <= |words| && forall k :: 0 <= k < |words| ==> words[k] != []
    requires WrapInvariant(font, maxWidth, spacing, st, words[..i])
    requires WrapFrom(font, maxWidth, spacing, st, words, i) == Success(groups)
    ensures GreedyGrouping(font, maxWidth, spacing, groups, words)
    decreases |words| - i
  {
    if i == |words| {
      assert words[..i] == words;
      assert groups == Groups(st);
      WrapInvariantAtEnd(font, maxWidth, spacing, st, words);
    } else {
      var next := WrapFromStep(font, maxWidth, spacing, st, words, i, groups);
      WrapFromKeepsInvariant(font, maxWidth, spacing, next, words, i + 1, groups);
    }
  }

  /** One word of `WrapFrom`: the step succeeds, keeps the invariant and leaves the same result to come. */
  lemma WrapFromStep(font: Font, maxWidth: nat, spacing: nat, st: WrapState,
                     words: seq<string>, i: nat, groups: seq<seq<string>>) returns (next: WrapState)
    requires i < |words| && words[i] != []
    requires WrapInvariant(font, maxWidth, spacing, st, words[..i])
    requires WrapFrom(font, maxWidth, spacing, st, words, i) == Success(groups)
    ensures WrapInvariant(font, maxWidth, spacing, next, words[..i + 1])
    ensures WrapFrom(font, maxWidth, spacing, next, words, i + 1) == Success(groups)
  {
    assert words[..i + 1] == words[..i] + [words[i]];
    assert WrapStep(font, maxWidth, spacing, st, words[i]).Success?;
    next := WrapStep(font, maxWidth, spacing, st, words[i]).value;
    WrapStepKeepsInvariant(font, maxWidth, spacing, st, words[..i], words[i], next);
  }

  /** The wrapper's lines are the words in order, no line empty, every break
      forced by the fit test and every word kept on its line passed it: the
      greedy line breaking the fit test defines. */
  lemma WrapIsGreedy(font: Font, maxWidth: nat, spacing: nat, words: seq<string>)
    requires forall k :: 0 <= k < |words| ==> words[k] != []
    requires Wrap(font, maxWidth, spacing, words).Success?
    ensures IsGrouping(Wrap(font, maxWidth, spacing, words).value, words)
    ensures BreaksForced(font, maxWidth, spacing, Wrap(font, maxWidth, spacing, words).value)
    ensures JoinsFit(font, maxWidth, spacing, Wrap(font, maxWidth, spacing, words).value)
  {
    var st := WrapState([], [], 0);
    assert Groups(st) == [] && words[..0] == [];
    WrapFromKeepsInvariant(font, maxWidth, spacing, st, words, 0, Wrap(font, maxWidth, spacing, words).value);
  }

  lemma {:induction false} ConcatCons(groups: seq<seq<string>>)
    requires |groups| > 0
    ensures Concat(groups) == groups[0] + Concat(groups[1..])
    decreases |groups|
  {
    var init := groups[..|groups| - 1];
    var last := groups[|groups| - 1];
    if |groups| == 1 {
      assert groups[1..] == [];
      assert Concat(groups) == Concat([]) + groups[0];
    } else {
      ConcatCons(init);
      assert init[1..] + [last] == groups[1..];
      ConcatSnoc(init[1..], last);
    }
  }

  /** The greedy conditions hold of the lines after the first. */
  lemma GreedyTail(font: Font, maxWidth: nat, spacing: nat, groups: seq<seq<string>>, words: seq<string>)
    requires GreedyGrouping(font, maxWidth, spacing, groups, words) && |groups| > 0
    ensures |groups[0]| <= |words| && GreedyGrouping(font, maxWidth, spacing, groups[1..], words[|groups[0]|..])
  {
    ConcatCons(groups);
    var t := groups[1..];
    assert Concat(t) == words[|groups[0]|..];
    forall i | 1 <= i < |t| && t[i] != []
      ensures BreaksBefore(maxWidth, spacing, false, Columns(font, Join(t[i - 1], ' ')), Columns(font, t[i][0]))
    {
      assert t[i] == groups[i + 1] && t[i - 1] == groups[i];
    }
    forall i, j | 0 <= i < |t| && 1 <= j < |t[i]|
      ensures !BreaksBefore(maxWidth, spacing, false, Columns(font, Join(t[i][..j], ' ')), Columns(font, t[i][j]))
    {
      assert t[i] == groups[i + 1];
    }
  }

  /** The first line of a greedy grouping is no shorter than the first line of another. */
  lemma FirstGroupLongest(font: Font, maxWidth: nat, spacing: nat, g1: seq<seq<string>>, g2: seq<seq<string>>, words: seq<string>)
    requires GreedyGrouping(font, maxWidth, spacing, g1, words) && GreedyGrouping(font, maxWidth, spacing, g2, words)
    requires |g1| > 0 && |g2| > 0
    ensures |g1[0]| >= |g2[0]|
  {
    var a, b := g1[0], g2[0];
    var m := |a|;
    ConcatCons(g1);
    ConcatCons(g2);
    if m < |b| {
      assert words[..m] == a && b[..m] == a && b[m] == words[m];
      assert |g1| > 1;
      ConcatCons(g1[1..]);
      assert false;
    }
  }

  /** There is only one greedy grouping of a sequence of words. */
  lemma {:induction false} GreedyGroupingUnique(font: Font, maxWidth: nat, spacing: nat,
                                                g1: seq<seq<string>>, g2: seq<seq<string>>, words: seq<string>)
    requires GreedyGrouping(font, maxWidth, spacing, g1, words) && GreedyGrouping(font, maxWidth, spacing, g2, words)
    ensures g1 == g2
    decreases |words|
  {
    if |g1| == 0 || |g2| == 0 {
      if |g1| > 0 { ConcatCons(g1); }
      if |g2| > 0 { ConcatCons(g2); }
    } else {
      assert g1[0] == g2[0] by {
        FirstGroupLongest(font, maxWidth, spacing, g1, g2, words);
        FirstGroupLongest(font, maxWidth, spacing, g2, g1, words);
        ConcatCons(g1);
        ConcatCons(g2);
        assert g1[0] == words[..|g1[0]|] == g2[0];
      }
      GreedyTail(font, maxWidth, spacing, g1, words);
      GreedyTail(font, maxWidth, spacing, g2, words);
      GreedyGroupingUnique(font, maxWidth, spacing, g1[1..], g2[1..], words[|g1[0]|..]);
      assert g1 == [g1[0]] + g1[1..];
      assert g2 == [g2[0]] + g2[1..];
    }
  }

  /** The wrapper computes exactly the greedy grouping: when it succeeds, its
      result is a greedy grouping of the words, and any greedy grouping of the
      words is its result. */
  lemma WrapIsTheGreedyGrouping(font: Font, maxWidth: nat, spacing: nat, words: seq<string>, groups: seq<seq<string>>)
    requires forall k :: 0 <= k < |words| ==> words[k] != []
    requires Wrap(font, maxWidth, spacing, words).Success?
    ensures Wrap(font, maxWidth, spacing, words).value == groups <==> GreedyGrouping(font, maxWidth, spacing, groups, words)
  {
    WrapIsGreedy(font, maxWidth, spacing, words);
    if GreedyGrouping(font, maxWidth, spacing, groups, words) {
      GreedyGroupingUnique(font, maxWidth, spacing, groups, Wrap(font, maxWidth, spacing, words).value, words);
    }
  }

  /** A word measures to its column count in a font with the `?` fallback. */
  lemma MeasuredWithFallback(font: Font, w: string)
    requires '?' in font.characters
    ensures WordWidth(font, w) == Success(Columns(font, w))
  {
    forall k | 0 <= k < |w| ensures GetCharacter(font, w[k]).Success? {
      LookupTotalWithFallback(font, w[k]);
    }
    WordWidthMeaning(font, w);
  }

  /** Two words share a line exactly when the second passes the fit test
      against the first. */
  lemma WrapTwoWords(font: Font, maxWidth: nat, spacing: nat, a: string, b: string)
    requires '?' in font.characters
    ensures Wrap(font, maxWidth, spacing, [a, b]) ==
      if BreaksBefore(maxWidth, spacing, false, Columns(font, a), Columns(font, b))
      then Success([[a], [b]]) else Success([[a, b]])
  {
    var words := [a, b];
    var st0 := WrapState([], [], 0);
    MeasuredWithFallback(font, a);
    MeasuredWithFallback(font, b);
    LookupTotalWithFallback(font, ' ');
    WrapStepCases(font, maxWidth, spacing, st0, a, Columns(font, a), st0);
    var st1 := WrapState([], [a], Columns(font, a));
    assert WrapFrom(font, maxWidth, spacing, st0, words, 0) == WrapFrom(font, maxWidth, spacing, st1, words, 1);
    var brk := BreaksBefore(maxWidth, spacing, false, Columns(font, a), Columns(font, b));
    var st1' := if brk then WrapState([[a]], [], 0) else st1;
    WrapStepCases(font, maxWidth, spacing, st1, b, Columns(font, b), st1');
    var st2 := WrapStep(font, maxWidth, spacing, st1, b).value;
    assert WrapFrom(font, maxWidth, spacing, st1, words, 1) == WrapFrom(font, maxWidth, spacing, st2, words, 2);
    assert WrapFrom(font, maxWidth, spacing, st2, words, 2) == Success(st2.closed + [st2.current]) by {
      assert st2.current != [];
    }
    if brk {
      assert st2 == WrapState([[a]], [b], Columns(font, b));
      assert [[a]] + [[b]] == [[a], [b]];
    } else {
      assert [a] + [b] == [a, b];
      assert st2.closed == [] && st2.current == [a, b];
      assert [] + [[a, b]] == [[a, b]];
    }
  }

  lemma ConcatNonEmpty(groups: seq<seq<string>>)
    requires |groups| > 0 && groups[|groups| - 1] != []
    ensures Concat(groups) != []
  {
  }

  /** A forced break implies a width limit. */
  lemma ForcedBreakNeedsLimit(font: Font, maxWidth: nat, spacing: nat, groups: seq<seq<string>>, i: nat)
    requires BreaksForced(font, maxWidth, spacing, groups)
    requires 1 <= i < |groups| && groups[i] != []
    ensures maxWidth > 0
  {
    assert BreaksBefore(maxWidth, spacing, false, Columns(font, Join(groups[i - 1], ' ')), Columns(font, groups[i][0]));
  }

  /** With no width limit (`max_width` 0) all the words land on one line. */
  lemma NoLimitOneLine(font: Font, spacing: nat, words: seq<string>)
    requires words != [] && forall k :: 0 <= k < |words| ==> words[k] != []
    requires Wrap(font, 0, spacing, words).Success?
    ensures Wrap(font, 0, spacing, words).value == [words]
  {
    var groups := Wrap(font, 0, spacing, words).value;
    WrapIsGreedy(font, 0, spacing, words);
    assert |groups| > 0;
    if |groups| > 1 {
      ForcedBreakNeedsLimit(font, 0, spacing, groups, 1);
      assert false;
    }
    assert groups == [] + [groups[0]];
    ConcatSnoc([], groups[0]);
    assert Concat(groups) == groups[0];
  }

  /** Under a width limit, a word wider than the limit sits on a line of its own. */
  lemma OversizeWordAlone(font: Font, maxWidth: nat, spacing: nat, words: seq<string>, i: nat, j: nat)
    requires maxWidth > 0 && forall k :: 0 <= k < |words| ==> words[k] != []
    requires Wrap(font, maxWidth, spacing, words).Success?
    requires i < |Wrap(font, maxWidth, spacing, words).value|
    requires j < |Wrap(font, maxWidth, spacing, words).value[i]|
    requires Columns(font, Wrap(font, maxWidth, spacing, words).value[i][j]) > maxWidth
    ensures Wrap(font, maxWidth, spacing, words).value[i] == [Wrap(font, maxWidth, spacing, words).value[i][j]]
  {
    var g := Wrap(font, maxWidth, spacing, words).value[i];
    WrapIsGreedy(font, maxWidth, spacing, words);
    if j > 0 {
      assert false;
    }
    assert g[..1] == [g[0]];
    if |g| > 1 {
      assert false;
    }
  }

  /** When the gap the fit test allows is at least the space glyph's width,
      every line of two or more words fits the width limit. */
  lemma LinesFit(font: Font, maxWidth: nat, spacing: nat, words: seq<string>, i: nat)
    requires maxWidth > 0 && spacing >= GlyphWidth(font, ' ')
    requires forall k :: 0 <= k < |words| ==> words[k] != []
    requires Wrap(font, maxWidth, spacing, words).Success?
    requires i < |Wrap(font, maxWidth, spacing, words).value|
    requires |Wrap(font, maxWidth, spacing, words).value[i]| >= 2
    ensures Columns(font, Join(Wrap(font, maxWidth, spacing, words).value[i], ' ')) <= maxWidth
  {
    var g := Wrap(font, maxWidth, spacing, words).value[i];
    var n := |g| - 1;
    assert g == g[..n] + [g[n]];
    assert !BreaksBefore(maxWidth, spacing, false, Columns(font, Join(g[..n], ' ')), Columns(font, g[n])) by {
      WrapIsGreedy(font, maxWidth, spacing, words);
    }
    LineWidthSnoc(font, g[..n], g[n]);
  }

  /** Joining the lines with single spaces gives back the words joined with single spaces. */
  lemma {:induction false} JoinLines(groups: seq<seq<string>>)
    requires |groups| > 0 && forall i :: 0 <= i < |groups| ==> groups[i] != []
    ensures Join(Lines(groups), ' ') == Join(Concat(groups), ' ')
    decreases |groups|
  {
    var init := groups[..|groups| - 1];
    var g := groups[|groups| - 1];
    assert groups == init + [g];
    LinesSnoc(init, g);
    ConcatSnoc(init, g);
    if |init| == 0 {
      assert Lines(groups) == [Join(g, ' ')];
      assert Concat(groups) == g;
    } else {
      JoinLines(init);
      JoinSnoc(Lines(init), Join(g, ' '), ' ');
      ConcatNonEmpty(init);
      JoinAppend(Concat(init), g, ' ');
    }
  }

  /** Wrapping never splits or reorders a word: the wrapped lines, joined with
      single spaces, are the text's words joined with single spaces. */
  lemma WrapKeepsWords(font: Font, maxWidth: nat, spacing: nat, text: string)
    requires Wrap(font, maxWidth, spacing, Words(text)).Success?
    ensures Join(Lines(Wrap(font, maxWidth, spacing, Words(text)).value), ' ') == Join(Words(text), ' ')
  {
    var groups := Wrap(font, maxWidth, spacing, Words(text)).value;
    WrapIsGreedy(font, maxWidth, spacing, Words(text));
    if |groups| > 0 {
      JoinLines(groups);
    }
  }

  /** A measured word has all its characters resolved, so a font with the `?`
      fallback and a space glyph wraps any words without failure. */
  lemma {:induction false} WrapFromSucceeds(font: Font, maxWidth: nat, spacing: nat, st: WrapState, words: seq<string>, i: nat)
    requires '?' in font.characters && i <= |words|
    ensures WrapFrom(font, maxWidth, spacing, st, words, i).Success?
    decreases |words| - i
  {
    if i < |words| {
      WordWidthMeaning(font, words[i]);
      forall k | 0 <= k < |words[i]| ensures GetCharacter(font, words[i][k]).Success? {
        LookupTotalWithFallback(font, words[i][k]);
      }
      LookupTotalWithFallback(font, ' ');
      var wordWidth := WordWidth(font, words[i]).value;
      var st1 := if BreaksBefore(maxWidth, spacing, st.current == [], st.width, wordWidth)
                 then WrapState(st.closed + [st.current], [], 0) else st;
      WrapStepCases(font, maxWidth, spacing, st, words[i], wordWidth, st1);
      WrapFromSucceeds(font, maxWidth, spacing, WrapStep(font, maxWidth, spacing, st, words[i]).value, words, i + 1);
    }
  }

  // ---------------------------------------------------------------------------
  // The line composer

  /** Rows of glyph runs concatenate: row `i` of `a + b` is row `i` of `a` followed by row `i` of `b`. */
  lemma {:induction false} LineRowAppend(a: seq<Glyph>, b: seq<Glyph>, i: nat)
    ensures LineRow(a + b, i) == LineRow(a, i) + LineRow(b, i)
    decreases |b|
  {
    if |b| == 0 {
      assert a + b == a;
    } else {
      var b', last := b[..|b| - 1], b[|b| - 1];
      assert (a + b)[..|a + b| - 1] == a + b' && (a + b)[|a + b| - 1] == last;
      assert LineRow(a + b, i) == LineRow(a + b', i) + GlyphRow(last, i);
      LineRowAppend(a, b', i);
      assert LineRow(b, i) == LineRow(b', i) + GlyphRow(last, i);
    }
  }

  /** Resolving a line succeeds exactly when every character resolves, and
      then yields each character's glyph, in order. */
  lemma {:induction false} ResolveAllMeaning(font: Font, chars: string)
    ensures ResolveAll(font, chars).Success? <==> forall k :: 0 <= k < |chars| ==> GetCharacter(font, chars[k]).Success?
    ensures ResolveAll(font, chars).Success? ==>
      |ResolveAll(font, chars).value| == |chars| &&
      forall k :: 0 <= k < |chars| ==> ResolveAll(font, chars).value[k] == GetCharacter(font, chars[k]).value
    decreases |chars|
  {
    if |chars| > 0 {
      var init := chars[..|chars| - 1];
      ResolveAllMeaning(font, init);
      assert forall k :: 0 <= k < |init| ==> init[k] == chars[k];
    }
  }

  lemma {:induction false} ResolveAllAppend(font: Font, a: string, b: string)
    requires ResolveAll(font, a + b).Success?
    ensures ResolveAll(font, a).Success? && ResolveAll(font, b).Success?
    ensures ResolveAll(font, a + b).value == ResolveAll(font, a).value + ResolveAll(font, b).value
    decreases |b|
  {
    if |b| == 0 {
      assert a + b == a;
    } else {
      var b' := b[..|b| - 1];
      assert (a + b)[..|a + b| - 1] == a + b';
      assert (a + b)[|a + b| - 1] == b[|b| - 1];
      ResolveAllAppend(font, a, b');
    }
  }

  /** A composed line has `min(target, font height)` rows, or `target` empty
      rows for a line with no characters; it fails exactly when some
      character resolves to no glyph. */
  lemma ComposeLineShape(font: Font, chars: string, targetHeight: nat)
    ensures ComposeLine(chars, font, targetHeight).Success? <==>
      forall k :: 0 <= k < |chars| ==> GetCharacter(font, chars[k]).Success?
    ensures ComposeLine(chars, font, targetHeight).Success? ==>
      |ComposeLine(chars, font, targetHeight).value| == (if chars == [] then targetHeight else RenderHeight(font, targetHeight))
    ensures chars == [] ==> forall i :: 0 <= i < targetHeight ==> ComposeLine(chars, font, targetHeight).value[i] == []
  {
    ResolveAllMeaning(font, chars);
  }

  /** Row `i` of a one-character line is that glyph's row `i`, or as many
      spaces as the glyph is wide when the glyph has no such row. */
  lemma ComposeOneCharacter(font: Font, c: char, targetHeight: nat, i: nat)
    requires GetCharacter(font, c).Success? && i < RenderHeight(font, targetHeight)
    ensures ComposeLine([c], font, targetHeight).Success?
    ensures var g := GetCharacter(font, c).value;
      ComposeLine([c], font, targetHeight).value[i] == if i < |g.data| then g.data[i] else Spaces(g.width)
  {
    var cs := [c];
    var g := GetCharacter(font, c).value;
    assert cs[..0] == [] && cs[0] == c;
    assert ResolveAll(font, cs[..0]) == Success([]);
    assert [] + [g] == [g];
    assert ResolveAll(font, cs) == Success([g]);
    assert [g][..0] == [];
    assert LineRow([g], i) == LineRow([], i) + GlyphRow(g, i);
  }

  /** Composing places glyphs side by side with nothing between them: each row
      of the line `a + b` is that row of `a` followed by that row of `b`. */
  lemma ComposeConcatenates(font: Font, a: string, b: string, targetHeight: nat, i: nat)
    requires a != [] && b != [] && i < RenderHeight(font, targetHeight)
    requires ComposeLine(a + b, font, targetHeight).Success?
    ensures ComposeLine(a, font, targetHeight).Success? && ComposeLine(b, font, targetHeight).Success?
    ensures ComposeLine(a + b, font, targetHeight).value[i]
         == ComposeLine(a, font, targetHeight).value[i] + ComposeLine(b, font, targetHeight).value[i]
  {
    ResolveAllAppend(font, a, b);
    LineRowAppend(ResolveAll(font, a).value, ResolveAll(font, b).value, i);
  }

  /** When every glyph's rows are as wide as the glyph, every composed row is
      exactly as wide as the line's column count. */
  lemma {:induction false} RowWidthIsColumns(font: Font, chars: string, i: nat)
    requires ResolveAll(font, chars).Success?
    requires forall k :: 0 <= k < |chars| ==>
      GetCharacter(font, chars[k]).Success? && RowsMatchWidth(GetCharacter(font, chars[k]).value)
    ensures |LineRow(ResolveAll(font, chars).value, i)| == Columns(font, chars)
    decreases |chars|
  {
    if |chars| > 0 {
      var init := chars[..|chars| - 1];
      var c := chars[|chars| - 1];
      assert forall k :: 0 <= k < |init| ==> init[k] == chars[k];
      RowWidthIsColumns(font, init, i);
      var gs := ResolveAll(font, chars).value;
      assert gs == ResolveAll(font, init).value + [GetCharacter(font, c).value];
      assert gs[..|gs| - 1] == ResolveAll(font, init).value;
    }
  }

  // ---------------------------------------------------------------------------
  // Output assembly

  /** The output's lines, top to bottom: each block's rows, with one empty line between blocks. */
  function StackedLines(blocks: seq<seq<string>>): seq<string> {
    if |blocks| == 0 then []
    else if |blocks| == 1 then blocks[0]
    else StackedLines(blocks[..|blocks| - 1]) + [[]] + blocks[|blocks| - 1]
  }

  lemma {:induction false} TerminatedIsJoin(rows: seq<string>)
    requires |rows| > 0
    ensures Terminated(rows) == Join(rows, '\n') + "\n"
    decreases |rows|
  {
    var init := rows[..|rows| - 1];
    assert rows == init + [rows[|rows| - 1]];
    if |init| > 0 {
      TerminatedIsJoin(init);
      JoinSnoc(init, rows[|rows| - 1], '\n');
    }
  }

  /** The stacked blocks are the stacked lines, each followed by a line break. */
  lemma {:induction false} StackedIsJoin(blocks: seq<seq<string>>)
    ensures StackedLines(blocks) == [] ==> Stacked(blocks) == []
    ensures StackedLines(blocks) != [] ==> Stacked(blocks) == Join(StackedLines(blocks), '\n') + "\n"
    decreases |blocks|
  {
    if |blocks| == 1 && blocks[0] != [] {
      TerminatedIsJoin(blocks[0]);
    } else if |blocks| > 1 {
      var init := blocks[..|blocks| - 1];
      var b := blocks[|blocks| - 1];
      StackedIsJoin(init);
      StackedSnocIsJoin(Stacked(init), StackedLines(init), b);
    }
  }

  /** One more block on a stack that is its lines, each followed by a line break. */
  lemma StackedSnocIsJoin(stacked: string, sl: seq<string>, b: seq<string>)
    requires sl == [] ==> stacked == []
    requires sl != [] ==> stacked == Join(sl, '\n') + "\n"
    ensures sl + [[]] + b != []
    ensures stacked + "\n" + Terminated(b) == Join(sl + [[]] + b, '\n') + "\n"
  {
    if sl != [] {
      JoinSnoc(sl, [], '\n');
    } else {
      assert sl + [[]] == [[]];
    }
    if b != [] {
      TerminatedIsJoin(b);
      JoinAppend(sl + [[]], b, '\n');
    } else {
      assert sl + [[]] + b == sl + [[]];
    }
  }

  /** The output is the stacked lines joined with line breaks: no trailing
      line break, one blank line between blocks. */
  lemma AssembleIsJoin(blocks: seq<seq<string>>)
    ensures Assemble(blocks) == Join(StackedLines(blocks), '\n')
  {
    StackedIsJoin(blocks);
    if StackedLines(blocks) != [] {
      var j := Join(StackedLines(blocks), '\n');
      assert (j + "\n")[..|j|] == j;
    }
  }

  /** `k` blocks of `h` rows stack to `k * h + k - 1` lines. */
  lemma {:induction false} StackedLinesCount(blocks: seq<seq<string>>, h: nat)
    requires |blocks| > 0 && forall i :: 0 <= i < |blocks| ==> |blocks[i]| == h
    ensures |StackedLines(blocks)| == |blocks| * h + |blocks| - 1
    decreases |blocks|
  {
    if |blocks| > 1 {
      var k := |blocks|;
      StackedLinesCount(blocks[..k - 1], h);
      assert (k - 1) * h + h == k * h;
    }
  }

  /** Splitting the output at its line breaks recovers the stacked lines,
      provided no row holds a line break: `k` blocks of `h >= 1` rows give
      `k * h + k - 1` lines. */
  lemma OutputLines(blocks: seq<seq<string>>, h: nat)
    requires |blocks| > 0 && h > 0
    requires forall i :: 0 <= i < |blocks| ==> |blocks[i]| == h
    requires forall i, r :: 0 <= i < |blocks| && 0 <= r < |blocks[i]| ==> '\n' !in blocks[i][r]
    ensures Split(Assemble(blocks), '\n') == StackedLines(blocks)
    ensures |Split(Assemble(blocks), '\n')| == |blocks| * h + |blocks| - 1
  {
    AssembleIsJoin(blocks);
    StackedLinesCount(blocks, h);
    StackedLinesNewlineFree(blocks);
    SplitJoin(StackedLines(blocks), '\n');
  }

  lemma {:induction false} StackedLinesNewlineFree(blocks: seq<seq<string>>)
    requires forall i, r :: 0 <= i < |blocks| && 0 <= r < |blocks[i]| ==> '\n' !in blocks[i][r]
    ensures forall j, k :: 0 <= j < |StackedLines(blocks)| && 0 <= k < |StackedLines(blocks)[j]| ==> StackedLines(blocks)[j][k] != '\n'
    decreases |blocks|
  {
    if |blocks| > 1 {
      var init := blocks[..|blocks| - 1];
      assert forall i :: 0 <= i < |init| ==> init[i] == blocks[i];
      StackedLinesNewlineFree(init);
    }
  }

  // ---------------------------------------------------------------------------
  // Rendering

  /** Each word of each line is one of the words, so none is empty. */
  lemma {:induction false} GroupWordsNonEmpty(groups: seq<seq<string>>)
    requires forall k :: 0 <= k < |Concat(groups)| ==> Concat(groups)[k] != []
    ensures forall i, j :: 0 <= i < |groups| && 0 <= j < |groups[i]| ==> groups[i][j] != []
    decreases |groups|
  {
    if |groups| > 0 {
      var init := groups[..|groups| - 1];
      var g := groups[|groups| - 1];
      assert Concat(groups) == Concat(init) + g;
      forall k | 0 <= k < |Concat(init)| ensures Concat(init)[k] != [] {
        assert Concat(groups)[k] == Concat(init)[k];
      }
      GroupWordsNonEmpty(init);
      forall i, j | 0 <= i < |groups| && 0 <= j < |groups[i]| ensures groups[i][j] != [] {
        if i < |init| {
          assert groups[i] == init[i];
        } else {
          assert groups[i][j] == Concat(groups)[|Concat(init)| + j];
        }
      }
    }
  }

  /** A line of non-empty words has characters. */
  lemma JoinNonEmpty(parts: seq<string>, sep: char)
    requires |parts| > 0 && parts[|parts| - 1] != []
    ensures Join(parts, sep) != []
  {
  }

  /** A font with the `?` fallback composes every line, each to its own block. */
  lemma {:induction false} ComposeAllSucceeds(font: Font, height: nat, lines: seq<string>)
    requires '?' in font.characters
    ensures ComposeAll(font, height, lines).Success?
    ensures |ComposeAll(font, height, lines).value| == |lines|
    ensures forall i :: 0 <= i < |lines| ==>
      ComposeLine(lines[i], font, height).Success? &&
      ComposeAll(font, height, lines).value[i] == ComposeLine(lines[i], font, height).value
    decreases |lines|
  {
    if |lines| > 0 {
      var init := lines[..|lines| - 1];
      ComposeAllSucceeds(font, height, init);
      var last := lines[|lines| - 1];
      forall k | 0 <= k < |last| ensures GetCharacter(font, last[k]).Success? {
        LookupTotalWithFallback(font, last[k]);
      }
      ComposeLineShape(font, last, height);
      assert forall i :: 0 <= i < |init| ==> init[i] == lines[i];
    }
  }

  /** Every font lookup happens first: an unregistered font name fails, even for empty text. */
  lemma RenderUnknownFont(text: string, options: RenderOptions)
    requires options.fontName !in Registry
    ensures Render(text, options) == Failure(FontNotFound(options.fontName))
  {
  }

  /** Empty or all-whitespace text renders as the empty string with a registered font. */
  lemma RenderBlankText(text: string, options: RenderOptions)
    requires options.fontName in Registry && Blank(text)
    ensures Render(text, options) == Success([])
  {
    WordsEmptyIffBlank(text);
  }

  /** With a registered font rendering never fails: both built-in fonts carry
      the `?` fallback and a space glyph. */
  lemma RenderRegisteredSucceeds(text: string, options: RenderOptions)
    requires options.fontName in Registry
    ensures Render(text, options).Success?
  {
    var font := Registry[options.fontName];
    BuiltInLookupsSucceed(options.fontName, ' ');
    var words := Words(text);
    WrapFromSucceeds(font, options.maxWidth, options.spacing, WrapState([], [], 0), words, 0);
    var groups := Wrap(font, options.maxWidth, options.spacing, words).value;
    ComposeAllSucceeds(font, options.height, Lines(groups));
  }

  /** No row of a run of glyphs without line breaks holds a line break. */
  lemma {:induction false} LineRowNewlineFree(glyphs: seq<Glyph>, r: nat)
    requires forall k :: 0 <= k < |glyphs| ==> GlyphNewlineFree(glyphs[k])
    ensures '\n' !in LineRow(glyphs, r)
    decreases |glyphs|
  {
    if |glyphs| > 0 {
      var init := glyphs[..|glyphs| - 1];
      assert forall k :: 0 <= k < |init| ==> init[k] == glyphs[k];
      LineRowNewlineFree(init, r);
      var g := glyphs[|glyphs| - 1];
      if r < |g.data| {
        assert forall k :: 0 <= k < |g.data[r]| ==> g.data[r][k] != '\n';
      }
    }
  }

  /** A non-empty line composed in a built-in font has `min(height, font
      height)` rows, none holding a line break. */
  lemma ComposedBlockShape(name: string, line: string, height: nat)
    requires name in Registry && line != []
    ensures ComposeLine(line, Registry[name], height).Success?
    ensures |ComposeLine(line, Registry[name], height).value| == RenderHeight(Registry[name], height)
    ensures forall r :: 0 <= r < |ComposeLine(line, Registry[name], height).value| ==>
      '\n' !in ComposeLine(line, Registry[name], height).value[r]
  {
    var font := Registry[name];
    BuiltInLookupsSucceed(name, ' ');
    forall k | 0 <= k < |line| ensures GetCharacter(font, line[k]).Success? {
      LookupTotalWithFallback(font, line[k]);
    }
    ComposeLineShape(font, line, height);
    ResolveAllMeaning(font, line);
    BuiltInFontsNewlineFree(name);
    var glyphs := ResolveAll(font, line).value;
    forall k | 0 <= k < |glyphs| ensures GlyphNewlineFree(glyphs[k]) {
      var u := ToAsciiUppercase(line[k]);
      if u in font.characters {
        assert glyphs[k] == font.characters[u];
      } else {
        assert glyphs[k] == font.characters['?'];
      }
    }
    forall r | 0 <= r < RenderHeight(font, height) ensures '\n' !in LineRow(glyphs, r) {
      LineRowNewlineFree(glyphs, r);
    }
  }

  /** The shape of rendered text in a registered font: with `k` logical lines
      after wrapping and `h = min(height, font height)` rows per line, the
      output holds `k * h + k - 1` lines (each block's rows, a blank line
      between blocks, no trailing line break); with no width limit `k` is 1. */
  lemma RenderLineCount(text: string, options: RenderOptions)
    requires options.fontName in Registry && !Blank(text)
    requires RenderHeight(Registry[options.fontName], options.height) > 0
    ensures Render(text, options).Success?
    ensures Wrap(Registry[options.fontName], options.maxWidth, options.spacing, Words(text)).Success?
    ensures var k := |Wrap(Registry[options.fontName], options.maxWidth, options.spacing, Words(text)).value|;
            var h := RenderHeight(Registry[options.fontName], options.height);
            k > 0 && |Split(Render(text, options).value, '\n')| == k * h + k - 1
    ensures options.maxWidth == 0 ==>
      |Split(Render(text, options).value, '\n')| == RenderHeight(Registry[options.fontName], options.height)
  {
    var font := Registry[options.fontName];
    var h := RenderHeight(font, options.height);
    var words := Words(text);
    WordsEmptyIffBlank(text);
    RenderRegisteredSucceeds(text, options);
    BuiltInLookupsSucceed(options.fontName, ' ');
    WrapFromSucceeds(font, options.maxWidth, options.spacing, WrapState([], [], 0), words, 0);
    var groups := Wrap(font, options.maxWidth, options.spacing, words).value;
    WrapIsGreedy(font, options.maxWidth, options.spacing, words);
    GroupWordsNonEmpty(groups);
    var lines := Lines(groups);
    ComposeAllSucceeds(font, options.height, lines);
    var blocks := ComposeAll(font, options.height, lines).value;
    forall i | 0 <= i < |blocks|
      ensures |blocks[i]| == h && forall r :: 0 <= r < |blocks[i]| ==> '\n' !in blocks[i][r]
    {
      JoinNonEmpty(groups[i], ' ');
      ComposedBlockShape(options.fontName, lines[i], options.height);
    }
    RenderOfBlocks(text, options, groups, blocks);
    OutputLines(blocks, h);
    if options.maxWidth == 0 {
      NoLimitOneLine(font, options.spacing, words);
    }
  }

  /** Non-blank text in a registered font renders as the assembly of its
      wrapped and composed lines. */
  lemma RenderOfBlocks(text: string, options: RenderOptions, groups: seq<seq<string>>, blocks: seq<seq<string>>)
    requires options.fontName in Registry && !Blank(text)
    requires Wrap(Registry[options.fontName], options.maxWidth, options.spacing, Words(text)) == Success(groups)
    requires ComposeAll(Registry[options.fontName], options.height, Lines(groups)) == Success(blocks)
    ensures Render(text, options) == Success(Assemble(blocks))
  {
    WordsEmptyIffBlank(text);
  }

  /** With no width limit, rendering non-blank text in a registered font gives
      exactly the rows of one composed line: the words joined with single spaces. */
  lemma RenderSingleLine(text: string, options: RenderOptions)
    requires options.fontName in Registry && !Blank(text) && options.maxWidth == 0
    requires RenderHeight(Registry[options.fontName], options.height) > 0
    ensures Render(text, options).Success?
    ensures ComposeLine(Join(Words(text), ' '), Registry[options.fontName], options.height).Success?
    ensures Split(Render(text, options).value, '\n')
         == ComposeLine(Join(Words(text), ' '), Registry[options.fontName], options.height).value
  {
    var font := Registry[options.fontName];
    var words := Words(text);
    var line := Join(words, ' ');
    NoLimitSingleBlock(text, options);
    var block := ComposeLine(line, font, options.height).value;
    JoinNonEmpty(words, ' ');
    ComposedBlockShape(options.fontName, line, options.height);
    RenderOfBlocks(text, options, [words], [block]);
    OutputLines([block], RenderHeight(font, options.height));
  }

  /** With no width limit the words form one logical line, composed to one block. */
  lemma NoLimitSingleBlock(text: string, options: RenderOptions)
    requires options.fontName in Registry && !Blank(text) && options.maxWidth == 0
    ensures Wrap(Registry[options.fontName], 0, options.spacing, Words(text)) == Success([Words(text)])
    ensures ComposeLine(Join(Words(text), ' '), Registry[options.fontName], options.height).Success?
    ensures ComposeAll(Registry[options.fontName], options.height, Lines([Words(text)]))
         == Success([ComposeLine(Join(Words(text), ' '), Registry[options.fontName], options.height).value])
  {
    var font := Registry[options.fontName];
    var words := Words(text);
    WordsEmptyIffBlank(text);
    BuiltInLookupsSucceed(options.fontName, ' ');
    WrapFromSucceeds(font, 0, options.spacing, WrapState([], [], 0), words, 0);
    NoLimitOneLine(font, options.spacing, words);
    var line := Join(words, ' ');
    assert Lines([words]) == [line];
    ComposeAllSucceeds(font, options.height, [line]);
    assert ComposeLine(line, font, options.height).Success? by {
      assert [line][..0] == [] && [line][0] == line;
    }
    var block := ComposeLine(line, font, options.height).value;
    assert ComposeAll(font, options.height, [line]) == Success([block]) by {
      assert [line][..0] == [] && [line][0] == line;
      assert ComposeAll(font, options.height, []) == Success([]);
      assert [] + [block] == [block];
    }
  }

  // ---------------------------------------------------------------------------
  // The fit test with the gap the accumulator actually adds

  /** The wrapper with the fit test charging, for the gap before a word, the
      width the line then actually grows by: the space glyph's width. */
  function FittedWrap(font: Font, maxWidth: nat, words: seq<string>): Result<seq<seq<string>>, FontError> {
    Wrap(font, maxWidth, GlyphWidth(font, ' '), words)
  }

  /** Under the corrected fit test every line fits the width limit, unless it
      holds a single word that alone is wider. */
  lemma FittedWrapLinesFit(font: Font, maxWidth: nat, words: seq<string>, i: nat)
    requires maxWidth > 0 && forall k :: 0 <= k < |words| ==> words[k] != []
    requires FittedWrap(font, maxWidth, words).Success?
    requires i < |FittedWrap(font, maxWidth, words).value|
    ensures var g := FittedWrap(font, maxWidth, words).value[i];
      Columns(font, Join(g, ' ')) <= maxWidth || (|g| == 1 && Columns(font, g[0]) > maxWidth)
  {
    var g := FittedWrap(font, maxWidth, words).value[i];
    WrapIsGreedy(font, maxWidth, GlyphWidth(font, ' '), words);
    if |g| >= 2 {
      LinesFit(font, maxWidth, GlyphWidth(font, ' '), words, i);
    } else {
      assert g == [g[0]];
      assert Join(g, ' ') == g[0];
    }
  }

  /** `render_text_with_shadow` never fails: it always picks a registered font. */
  lemma ShadowEntryRenders(text: string, maxWidth: nat, height: nat, enableShadow: bool)
    ensures Render(text, ShadowOptions(maxWidth, height, enableShadow)).Success?
  {
    RenderRegisteredSucceeds(text, ShadowOptions(maxWidth, height, enableShadow));
  }

  /** `render_text_with_options` never fails: it always picks a registered font. */
  lemma LegacyEntryRenders(text: string, maxWidth: nat, enableShadow: bool)
    ensures Render(text, LegacyOptions(maxWidth, enableShadow)).Success?
  {
    RenderRegisteredSucceeds(text, LegacyOptions(maxWidth, enableShadow));
  }

  /** `render_character` in a registered font succeeds, and splitting its output
      at line breaks gives back the glyph's rows. */
  lemma RenderCharacterRows(ch: char, name: string)
    requires name in Registry
    ensures RenderCharacter(ch, name).Success?
    ensures var g := GetCharacter(Registry[name], ch).value;
            g.data != [] ==> Split(RenderCharacter(ch, name).value, '\n') == g.data
  {
    var font := Registry[name];
    BuiltInLookupsSucceed(name, ch);
    BuiltInFontsNewlineFree(name);
    var g := GetCharacter(font, ch).value;
    var u := ToAsciiUppercase(ch);
    assert GlyphNewlineFree(g) by {
      if u in font.characters { assert g == font.characters[u]; } else { assert g == font.characters['?']; }
    }
    if g.data != [] {
      SplitJoin(g.data, '\n');
    }
  }

  /** `render_character` with an unregistered font name fails with `FontNotFound`. */
  lemma RenderCharacterUnknownFont(ch: char, name: string)
    requires name !in Registry
    ensures RenderCharacter(ch, name) == Failure(FontNotFound(name))
  {
  }
}
