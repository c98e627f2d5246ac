/** The renderer: the greedy word wrapper measured in glyph columns, the line
    composer that lays glyph rows side by side, and the assembly of the output
    block. Each routine that works step by step is a method proved equal to a
    specification function; the properties of those functions are proved in
    module RendererProperties. */
module Renderer {
  import opened Results
  import opened Text
  import opened Fonts

  /** `RenderOptions`. `spacing` is the allowance the wrapper's fit test adds
      between the line and the next word. */
  datatype RenderOptions = RenderOptions(fontName: string, maxWidth: nat, height: nat, spacing: nat)

  /** `RenderOptions::default()`: the "standard" font, no width limit, 5 rows. */
  function DefaultOptions(): (o: RenderOptions)
    ensures o.fontName in Registry && o.maxWidth == 0
  {
    RenderOptions("standard", 0, 5, 1)
  }

  // ---------------------------------------------------------------------------
  // Widths

  /** Width of the glyph a character resolves to; 0 if it resolves to none. */
  function GlyphWidth(font: Font, c: char): nat {
    match GetCharacter(font, c)
    case Success(g) => g.width
    case Failure(_) => 0
  }

  /** Columns a run of characters occupies: its glyph widths summed, no gap between glyphs. */
  function Columns(font: Font, s: string): nat {
    if |s| == 0 then 0 else Columns(font, s[..|s| - 1]) + GlyphWidth(font, s[|s| - 1])
  }

  /** What `calculate_word_width` computes: the summed glyph widths of the
      characters, or the failure of the first lookup that fails. */
  function WordWidth(font: Font, s: string): (r: Result<nat, FontError>)
    ensures r.Success? ==> r.value == Columns(font, s)
    ensures r.Failure? ==> r.error.CharacterNotSupported? && r.error.fontName == font.name
  {
    if |s| == 0 then Success(0)
    else
      var w :- WordWidth(font, s[..|s| - 1]);
      var g :- GetCharacter(font, s[|s| - 1]);
      Success(w + g.width)
  }

  /** A failure on a prefix is the failure of the whole run. */
  lemma {:induction false} WordWidthFailurePersists(font: Font, s: string, j: nat)
    requires j <= |s| && WordWidth(font, s[..j]).Failure?
    ensures WordWidth(font, s) == WordWidth(font, s[..j])
    decreases |s|
  {
    if j < |s| {
      var init := s[..|s| - 1];
      assert init[..j] == s[..j];
      WordWidthFailurePersists(font, init, j);
    } else {
      assert s[..j] == s;
    }
  }

  /** A measured run has every character resolved, and its width is its column count. */
  lemma {:induction false} WordWidthResolves(font: Font, s: string)
    requires WordWidth(font, s).Success?
    ensures forall k :: 0 <= k < |s| ==> GetCharacter(font, s[k]).Success?
    ensures WordWidth(font, s).value == Columns(font, s)
    decreases |s|
  {
    if |s| > 0 {
      var init := s[..|s| - 1];
      WordWidthResolves(font, init);
      forall k | 0 <= k < |s| ensures GetCharacter(font, s[k]).Success? {
        if k < |s| - 1 { assert s[k] == init[k]; }
      }
    }
  }

  /** `calculate_word_width`. */
  method CalculateWordWidth(chars: string, font: Font) returns (r: Result<nat, FontError>)
    ensures r == WordWidth(font, chars)
  {
    var width := 0;
    for i := 0 to |chars|
      invariant WordWidth(font, chars[..i]) == Success(width)
    {
      assert chars[..i + 1][..i] == chars[..i];
      var charInfo := GetCharacter(font, chars[i]);
      if charInfo.Failure? {
        WordWidthFailurePersists(font, chars, i + 1);
        return Failure(charInfo.error);
      }
      width := width + charInfo.value.width;
    }
    assert chars[..|chars|] == chars;
    return Success(width);
  }

  // ---------------------------------------------------------------------------
  // Line composer

  /** Every character resolved to its glyph, in order; the first failed lookup aborts. */
  function ResolveAll(font: Font, chars: string): Result<seq<Glyph>, FontError> {
    if |chars| == 0 then Success([])
    else
      var init :- ResolveAll(font, chars[..|chars| - 1]);
      var g :- GetCharacter(font, chars[|chars| - 1]);
      Success(init + [g])
  }

  /** Row `i` of a glyph: its own row `i`, or `width` spaces if it has no such row. */
  function GlyphRow(g: Glyph, i: nat): string {
    if i < |g.data| then g.data[i] else Spaces(g.width)
  }

  /** Row `i` of a run of glyphs: their rows `i` side by side, nothing between them. */
  function LineRow(glyphs: seq<Glyph>, i: nat): string {
    if |glyphs| == 0 then [] else LineRow(glyphs[..|glyphs| - 1], i) + GlyphRow(glyphs[|glyphs| - 1], i)
  }

  /** `cmp::min(target_height, font.height)`. */
  function RenderHeight(font: Font, targetHeight: nat): (h: nat)
    ensures h <= targetHeight && h <= font.height
    ensures h == targetHeight || h == font.height
  {
    if targetHeight < font.height then targetHeight else font.height
  }

  /** What `render_character_line` returns for a logical line. */
  function ComposeLine(chars: string, font: Font, targetHeight: nat): (r: Result<seq<string>, FontError>)
    ensures chars == [] ==> r.Success? && forall i :: 0 <= i < |r.value| ==> r.value[i] == []
    ensures r.Success? ==> |r.value| == if chars == [] then targetHeight else RenderHeight(font, targetHeight)
  {
    if |chars| == 0 then Success(seq(targetHeight, _ => []))
    else
      var glyphs :- ResolveAll(font, chars);
      var h := RenderHeight(font, targetHeight);
      Success(seq(h, i requires 0 <= i < h => LineRow(glyphs, i)))
  }

  /** A line whose characters all resolve is composed without failure. */
  lemma {:induction false} ResolveAllSucceeds(font: Font, chars: string, targetHeight: nat)
    requires forall k :: 0 <= k < |chars| ==> GetCharacter(font, chars[k]).Success?
    ensures ResolveAll(font, chars).Success?
    ensures ComposeLine(chars, font, targetHeight).Success?
    decreases |chars|
  {
    if |chars| > 0 {
      var init := chars[..|chars| - 1];
      assert forall k :: 0 <= k < |init| ==> init[k] == chars[k];
      ResolveAllSucceeds(font, init, targetHeight);
    }
  }

  /** The inner loop of `render_character_line`: every output row gets the
      glyph's row of the same index, or the glyph's width in spaces. */
  method AppendGlyphRows(outputLines: array<string>, fontChar: Glyph)
    modifies outputLines
    ensures forall l :: 0 <= l < outputLines.Length ==> outputLines[l] == old(outputLines[l]) + GlyphRow(fontChar, l)
  {
    for lineIdx := 0 to outputLines.Length
      invariant forall l :: 0 <= l < lineIdx ==> outputLines[l] == old(outputLines[l]) + GlyphRow(fontChar, l)
      invariant forall l :: lineIdx <= l < outputLines.Length ==> outputLines[l] == old(outputLines[l])
    {
      if lineIdx < |fontChar.data| {
        outputLines[lineIdx] := outputLines[lineIdx] + fontChar.data[lineIdx];
      } else {
        outputLines[lineIdx] := outputLines[lineIdx] + Spaces(fontChar.width);
      }
    }
  }

  /** `render_character_line`: the output rows are filled in place, glyph by glyph. */
  method RenderCharacterLine(chars: string, font: Font, targetHeight: nat) returns (r: Result<seq<string>, FontError>)
    ensures r == ComposeLine(chars, font, targetHeight)
  {
    if |chars| == 0 {
      return Success(seq(targetHeight, _ => []));
    }
    var fontChars := ResolveAll(font, chars);
    if fontChars.Failure? {
      return Failure(fontChars.error);
    }
    var glyphs := fontChars.value;
    var renderHeight := RenderHeight(font, targetHeight);
    var outputLines := new string[renderHeight](_ => []);
    for k := 0 to |glyphs|
      invariant forall l :: 0 <= l < renderHeight ==> outputLines[l] == LineRow(glyphs[..k], l)
    {
      assert glyphs[..k + 1][..k] == glyphs[..k];
      AppendGlyphRows(outputLines, glyphs[k]);
    }
    assert glyphs[..|glyphs|] == glyphs;
    assert outputLines[..] == seq(renderHeight, i requires 0 <= i < renderHeight => LineRow(glyphs, i));
    return Success(outputLines[..]);
  }

  // ---------------------------------------------------------------------------
  // Word wrapper

  /** The wrapper's loop state, kept as words: the closed lines, the words of
      the current line, and the width accumulated for the current line. */
  datatype WrapState = WrapState(closed: seq<seq<string>>, current: seq<string>, width: nat)

  /** The fit test: the current line is closed before a word only if there is
      a width limit, the line has something on it, and the line's width plus
      `spacing` plus the word's width exceeds the limit. */
  predicate BreaksBefore(maxWidth: nat, spacing: nat, lineEmpty: bool, lineWidth: nat, wordWidth: nat) {
    maxWidth > 0 && !lineEmpty && lineWidth + spacing + wordWidth > maxWidth
  }

  /** One pass of the loop over words: measure the word, close the line if the
      fit test says so, then append a space (counted with the space glyph's
      width) unless the line is empty, and the word. */
  function WrapStep(font: Font, maxWidth: nat, spacing: nat, st: WrapState, word: string): (r: Result<WrapState, FontError>)
    ensures WordWidth(font, word).Failure? ==> r == Failure(WordWidth(font, word).error)
    ensures r.Success? ==> r.value.current != [] && r.value.current[|r.value.current| - 1] == word
  {
    var wordWidth :- WordWidth(font, word);
    var st1 :=
      if BreaksBefore(maxWidth, spacing, st.current == [], st.width, wordWidth)
      then WrapState(st.closed + [st.current], [], 0)
      else st;
    if st1.current == [] then
      Success(WrapState(st1.closed, [word], wordWidth))
    else
      var space :- GetCharacter(font, ' ');
      Success(WrapState(st1.closed, st1.current + [word], st1.width + space.width + wordWidth))
  }

  /** WrapStep unfolded, once the word is measured and the fit test decided. */
  lemma WrapStepCases(font: Font, maxWidth: nat, spacing: nat, st: WrapState, word: string, wordWidth: nat, st1: WrapState)
    requires WordWidth(font, word) == Success(wordWidth)
    requires st1 == if BreaksBefore(maxWidth, spacing, st.current == [], st.width, wordWidth)
                    then WrapState(st.closed + [st.current], [], 0) else st
    ensures st1.current == [] ==>
      WrapStep(font, maxWidth, spacing, st, word) == Success(WrapState(st1.closed, [word], wordWidth))
    ensures st1.current != [] && GetCharacter(font, ' ').Failure? ==>
      WrapStep(font, maxWidth, spacing, st, word) == Failure(GetCharacter(font, ' ').error)
    ensures st1.current != [] && GetCharacter(font, ' ').Success? ==>
      WrapStep(font, maxWidth, spacing, st, word)
      == Success(WrapState(st1.closed, st1.current + [word], st1.width + GetCharacter(font, ' ').value.width + wordWidth))
  {
  }

  /** The loop from word `i` on, then the final flush of a non-empty line. */
  function WrapFrom(font: Font, maxWidth: nat, spacing: nat, st: WrapState, words: seq<string>, i: nat)
    : Result<seq<seq<string>>, FontError>
    requires i <= |words|
    decreases |words| - i
  {
    if i == |words| then
      Success(if st.current == [] then st.closed else st.closed + [st.current])
    else
      var next :- WrapStep(font, maxWidth, spacing, st, words[i]);
      WrapFrom(font, maxWidth, spacing, next, words, i + 1)
  }

  /** The greedy wrapper: the words grouped, in order, into logical lines. */
  function Wrap(font: Font, maxWidth: nat, spacing: nat, words: seq<string>): Result<seq<seq<string>>, FontError> {
    WrapFrom(font, maxWidth, spacing, WrapState([], [], 0), words, 0)
  }

  /** The characters of each logical line: its words with one space between them. */
  function Lines(groups: seq<seq<string>>): (lines: seq<string>)
    ensures |lines| == |groups|
  {
    seq(|groups|, i requires 0 <= i < |groups| => Join(groups[i], ' '))
  }

  lemma LinesSnoc(groups: seq<seq<string>>, g: seq<string>)
    ensures Lines(groups + [g]) == Lines(groups) + [Join(g, ' ')]
  {
    assert forall i :: 0 <= i < |groups| ==> (groups + [g])[i] == groups[i];
  }

  /** The line composer applied to each logical line; the first failure aborts. */
  function ComposeAll(font: Font, height: nat, lines: seq<string>): Result<seq<seq<string>>, FontError> {
    if |lines| == 0 then Success([])
    else
      var init :- ComposeAll(font, height, lines[..|lines| - 1]);
      var block :- ComposeLine(lines[|lines| - 1], font, height);
      Success(init + [block])
  }

  // ---------------------------------------------------------------------------
  // Output assembly

  /** Every row followed by a line break. */
  function Terminated(rows: seq<string>): string {
    if |rows| == 0 then [] else Terminated(rows[..|rows| - 1]) + rows[|rows| - 1] + "\n"
  }

  /** The blocks' terminated rows, with one extra line break before every block but the first. */
  function Stacked(blocks: seq<seq<string>>): string {
    if |blocks| == 0 then []
    else Stacked(blocks[..|blocks| - 1]) + (if |blocks| > 1 then "\n" else "") + Terminated(blocks[|blocks| - 1])
  }

  /** The stacked blocks with one trailing line break removed, if there is one. */
  function Assemble(blocks: seq<seq<string>>): string {
    var out := Stacked(blocks);
    if |out| > 0 && out[|out| - 1] == '\n' then out[..|out| - 1] else out
  }

  /** The end of `render_text_with_options_internal`: each block's rows pushed
      with a line break after each, an extra line break before every block but
      the first, and the last line break popped. */
  method AssembleOutput(resultLines: seq<seq<string>>) returns (finalOutput: string)
    ensures finalOutput == Assemble(resultLines)
  {
    finalOutput := [];
    for i := 0 to |resultLines|
      invariant finalOutput == Stacked(resultLines[..i])
    {
      assert resultLines[..i + 1][..i] == resultLines[..i];
      if i > 0 {
        finalOutput := finalOutput + ['\n'];
      }
      var lineRows := resultLines[i];
      ghost var blockStart := finalOutput;
      for j := 0 to |lineRows|
        invariant finalOutput == blockStart + Terminated(lineRows[..j])
      {
        assert lineRows[..j + 1][..j] == lineRows[..j];
        finalOutput := finalOutput + lineRows[j];
        finalOutput := finalOutput + ['\n'];
      }
      assert lineRows[..|lineRows|] == lineRows;
    }
    assert resultLines[..|resultLines|] == resultLines;

    if |finalOutput| > 0 && finalOutput[|finalOutput| - 1] == '\n' {
      finalOutput := finalOutput[..|finalOutput| - 1];
    }
  }

  // ---------------------------------------------------------------------------
  // Rendering

  /** What `render_text_with_options_internal` returns: look the font up (before
      anything else), render empty or blank text as "", otherwise wrap the
      words, compose each logical line and assemble the blocks. */
  function Render(text: string, options: RenderOptions): (r: Result<string, FontError>)
    ensures options.fontName !in Registry ==> r == Failure(FontNotFound(options.fontName))
    ensures options.fontName in Registry && Blank(text) ==> r == Success([])
  {
    var font :- GetFont(options.fontName);
    if |text| == 0 then Success([])
    else
      var words := Words(text);
      WordsEmptyIffBlank(text);
      if |words| == 0 then Success([])
      else
        var groups :- Wrap(font, options.maxWidth, options.spacing, words);
        var blocks :- ComposeAll(font, options.height, Lines(groups));
        Success(Assemble(blocks))
  }

  /** `render_character_line` on the current line, pushed onto `result_lines`.
      The `?` on that call cannot fire: every character on the line has been
      resolved before it was pushed onto the line. */
  method PushRenderedLine(font: Font, height: nat, resultLines: seq<seq<string>>, lineChars: string,
                          ghost closed: seq<seq<string>>, ghost current: seq<string>)
    returns (newResultLines: seq<seq<string>>)
    requires ComposeAll(font, height, Lines(closed)) == Success(resultLines)
    requires lineChars == Join(current, ' ')
    requires forall k :: 0 <= k < |lineChars| ==> GetCharacter(font, lineChars[k]).Success?
    ensures ComposeAll(font, height, Lines(closed + [current])) == Success(newResultLines)
    ensures |newResultLines| == |resultLines| + 1
  {
    var lineOutput := RenderCharacterLine(lineChars, font, height);
    ResolveAllSucceeds(font, lineChars, height);
    LinesSnoc(closed, current);
    assert (Lines(closed) + [lineChars])[..|closed|] == Lines(closed);
    newResultLines := resultLines + [lineOutput.value];
  }

  /** The loop of `render_text_with_options_internal` that pushes a measured
      word's characters onto the line, adding each glyph's width. */
  method AppendWord(font: Font, word: string, lineChars: string, lineWidth: nat) returns (newChars: string, newWidth: nat)
    requires forall k :: 0 <= k < |word| ==> GetCharacter(font, word[k]).Success?
    ensures newChars == lineChars + word
    ensures newWidth == lineWidth + Columns(font, word)
  {
    newChars, newWidth := lineChars, lineWidth;
    for j := 0 to |word|
      invariant newChars == lineChars + word[..j]
      invariant newWidth == lineWidth + Columns(font, word[..j])
    {
      assert word[..j + 1][..j] == word[..j];
      var ch := word[j];
      newChars := newChars + [ch];
      // `unwrap_or_else` is never taken: `calculate_word_width` resolved every character of the word.
      newWidth := newWidth + GetCharacter(font, ch).value.width;
    }
    assert word[..|word|] == word;
  }

  /** How the loop's variables stand for a wrapper state: the current line's
      characters and width, every character on it resolved, and the blocks of
      the closed lines already composed. */
  ghost predicate LineState(font: Font, height: nat, st: WrapState,
                            resultLines: seq<seq<string>>, lineChars: string, lineWidth: nat) {
    && lineChars == Join(st.current, ' ') && lineWidth == st.width
    && (|lineChars| > 0 <==> st.current != [])
    && (st.current == [] ==> st.width == 0)
    && (forall k :: 0 <= k < |lineChars| ==> GetCharacter(font, lineChars[k]).Success?)
    && ComposeAll(font, height, Lines(st.closed)) == Success(resultLines)
  }

  /** The break test of the loop: when the word does not fit, the current line
      is composed and pushed, and a new empty line begins. */
  method CloseLineIfFull(font: Font, options: RenderOptions, wordWidth: nat,
                         resultLines: seq<seq<string>>, lineChars: string, lineWidth: nat, ghost st: WrapState)
    returns (newResultLines: seq<seq<string>>, newChars: string, newWidth: nat, ghost st1: WrapState)
    requires LineState(font, options.height, st, resultLines, lineChars, lineWidth)
    ensures st1 == if BreaksBefore(options.maxWidth, options.spacing, st.current == [], st.width, wordWidth)
                   then WrapState(st.closed + [st.current], [], 0) else st
    ensures LineState(font, options.height, st1, newResultLines, newChars, newWidth)
  {
    newResultLines, newChars, newWidth, st1 := resultLines, lineChars, lineWidth, st;
    if options.maxWidth > 0 && |lineChars| > 0 && lineWidth + options.spacing + wordWidth > options.maxWidth {
      newResultLines := PushRenderedLine(font, options.height, resultLines, lineChars, st.closed, st.current);
      newChars := [];
      newWidth := 0;
      st1 := WrapState(st.closed + [st.current], [], 0);
    }
  }

  /** The rest of a pass of the loop: a space (counted with the space glyph's
      width) unless the line is empty, then the word's characters. */
  method AppendSpaceAndWord(font: Font, height: nat, word: string, wordWidth: nat,
                            resultLines: seq<seq<string>>, lineChars: string, lineWidth: nat, ghost st1: WrapState)
    returns (status: Result<(), FontError>, newChars: string, newWidth: nat, ghost next: WrapState)
    requires |word| > 0 && WordWidth(font, word) == Success(wordWidth)
    requires LineState(font, height, st1, resultLines, lineChars, lineWidth)
    ensures status.Failure? ==> st1.current != [] && GetCharacter(font, ' ') == Failure(status.error)
    ensures status.Success? ==> st1.current == [] || GetCharacter(font, ' ').Success?
    ensures status.Success? && st1.current == [] ==> next == WrapState(st1.closed, [word], wordWidth)
    ensures status.Success? && st1.current != [] ==>
      next == WrapState(st1.closed, st1.current + [word], st1.width + GetCharacter(font, ' ').value.width + wordWidth)
    ensures status.Success? ==> LineState(font, height, next, resultLines, newChars, newWidth)
  {
    WordWidthResolves(font, word);
    status := Success(());
    newChars, newWidth, next := lineChars, lineWidth, st1;
    if |newChars| > 0 {
      var space := GetCharacter(font, ' ');
      if space.Failure? {
        status := Failure(space.error);
        return;
      }
      newChars := newChars + [' '];
      newWidth := newWidth + space.value.width;
    }
    ghost var spaced := newChars;
    newChars, newWidth := AppendWord(font, word, newChars, newWidth);
    if st1.current == [] {
      next := WrapState(st1.closed, [word], wordWidth);
    } else {
      JoinSnoc(st1.current, word, ' ');
      next := WrapState(st1.closed, st1.current + [word], newWidth);
    }
    assert forall k :: 0 <= k < |spaced| ==> newChars[k] == spaced[k];
  }

  /** One pass of the loop once the word is measured: close the line if the
      word does not fit, then append a space (if the line is not empty) and
      the word's characters, adding their widths. */
  method PlaceWord(font: Font, options: RenderOptions, word: string, wordWidth: nat,
                   resultLines: seq<seq<string>>, lineChars: string, lineWidth: nat, ghost st: WrapState)
    returns (status: Result<(), FontError>, newResultLines: seq<seq<string>>, newChars: string, newWidth: nat,
             ghost next: WrapState)
    requires |word| > 0 && WordWidth(font, word) == Success(wordWidth)
    requires LineState(font, options.height, st, resultLines, lineChars, lineWidth)
    ensures status.Failure? ==> WrapStep(font, options.maxWidth, options.spacing, st, word) == Failure(status.error)
    ensures status.Success? ==> WrapStep(font, options.maxWidth, options.spacing, st, word) == Success(next)
    ensures status.Success? ==> LineState(font, options.height, next, newResultLines, newChars, newWidth)
  {
    ghost var st1;
    newResultLines, newChars, newWidth, st1 := CloseLineIfFull(font, options, wordWidth, resultLines, lineChars, lineWidth, st);
    WrapStepCases(font, options.maxWidth, options.spacing, st, word, wordWidth, st1);
    status, newChars, newWidth, next := AppendSpaceAndWord(font, options.height, word, wordWidth, newResultLines, newChars, newWidth, st1);
  }

  /** `render_text_with_options_internal`. */
  method RenderTextWithOptionsInternal(text: string, options: RenderOptions) returns (r: Result<string, FontError>)
    ensures r == Render(text, options)
  {
    var fontLookup := GetFont(options.fontName);
    if fontLookup.Failure? {
      return Failure(fontLookup.error);
    }
    var font := fontLookup.value;
    if |text| == 0 {
      return Success([]);
    }
    var words := Words(text);
    if |words| == 0 {
      return Success([]);
    }

    var resultLines: seq<seq<string>> := [];
    var currentLineChars: string := [];
    var currentLineWidth: nat := 0;
    ghost var st := WrapState([], [], 0);
    for i := 0 to |words|
      invariant WrapFrom(font, options.maxWidth, options.spacing, st, words, i)
             == Wrap(font, options.maxWidth, options.spacing, words)
      invariant LineState(font, options.height, st, resultLines, currentLineChars, currentLineWidth)
    {
      var word := words[i];
      var wordWidthResult := CalculateWordWidth(word, font);
      if wordWidthResult.Failure? {
        return Failure(wordWidthResult.error);
      }
      var status;
      status, resultLines, currentLineChars, currentLineWidth, st :=
        PlaceWord(font, options, word, wordWidthResult.value, resultLines, currentLineChars, currentLineWidth, st);
      if status.Failure? {
        return Failure(status.error);
      }
    }

    if |currentLineChars| > 0 {
      resultLines := PushRenderedLine(font, options.height, resultLines, currentLineChars, st.closed, st.current);
    }

    var finalOutput := AssembleOutput(resultLines);
    return Success(finalOutput);
  }

  // ---------------------------------------------------------------------------
  // Entry points

  /** `render_text`: the named font, the given width limit and height. */
  method RenderText(text: string, fontName: string, maxWidth: nat, height: nat) returns (r: Result<string, FontError>)
    ensures r == Render(text, RenderOptions(fontName, maxWidth, height, 1))
  {
    r := RenderTextWithOptionsInternal(text, RenderOptions(fontName, maxWidth, height, 1));
  }

  /** The options `render_text_with_shadow` chooses: the shadow font at 7 rows,
      or the solid font at the requested height; the font name argument is ignored. */
  function ShadowOptions(maxWidth: nat, height: nat, enableShadow: bool): (o: RenderOptions)
    ensures o.fontName in Registry && o.maxWidth == maxWidth && o.spacing == 1
    ensures Registry[o.fontName] == if enableShadow then StandardShadow else StandardSolid
    ensures enableShadow ==> o.height == Registry[o.fontName].height
    ensures !enableShadow ==> o.height == height
  {
    RegistryShape();
    if enableShadow then RenderOptions("standard_shadow", maxWidth, 7, 1)
    else RenderOptions("standard_solid", maxWidth, height, 1)
  }

  /** `render_text_with_shadow`. */
  method RenderTextWithShadow(text: string, fontName: string, maxWidth: nat, height: nat, enableShadow: bool)
    returns (r: Result<string, FontError>)
    ensures r == Render(text, ShadowOptions(maxWidth, height, enableShadow))
  {
    r := RenderTextWithOptionsInternal(text, ShadowOptions(maxWidth, height, enableShadow));
  }

  /** The options `render_text_with_options` chooses: the shadow font at 7 rows
      or the solid font at 5; the font name, height and lowercase arguments are ignored. */
  function LegacyOptions(maxWidth: nat, enableShadow: bool): (o: RenderOptions)
    ensures o.fontName in Registry && o.maxWidth == maxWidth && o.spacing == 1
    ensures Registry[o.fontName] == if enableShadow then StandardShadow else StandardSolid
    ensures o.height == Registry[o.fontName].height
  {
    RegistryShape();
    if enableShadow then RenderOptions("standard_shadow", maxWidth, 7, 1)
    else RenderOptions("standard_solid", maxWidth, 5, 1)
  }

  /** `render_text_with_options`. */
  method RenderTextWithOptions(text: string, fontName: string, maxWidth: nat, height: nat, enableShadow: bool, lowercase: bool)
    returns (r: Result<string, FontError>)
    ensures r == Render(text, LegacyOptions(maxWidth, enableShadow))
  {
    r := RenderTextWithOptionsInternal(text, LegacyOptions(maxWidth, enableShadow));
  }

  /** `render_character`: the glyph's rows joined with line breaks, no wrapping. */
  function RenderCharacter(ch: char, fontName: string): (r: Result<string, FontError>)
    ensures r.Success? <==> fontName in Registry
    ensures fontName !in Registry ==> r == Failure(FontNotFound(fontName))
  {
    var font :- GetFont(fontName);
    BuiltInLookupsSucceed(fontName, ch);
    match GetCharacter(font, ch)
    case Success(g) => Success(Join(g.data, '\n'))
    case Failure(e) => Failure(e)
  }
}
