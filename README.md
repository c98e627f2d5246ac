# blocklet renderer, modelled in Dafny

blocklet turns text into large letters drawn with Unicode block and
box-drawing characters. This project models the core of that pipeline:

- **Glyph lookup** (`src/font.rs`). A font maps characters to glyphs. Each glyph
  has a width, a height and rows of text. `get_character` upper-cases ASCII
  letters, falls back to the `'?'` glyph and fails with `CharacterNotSupported`
  only when `'?'` is missing too. `get_font` reads a fixed registry in which
  `"standard"` is another name for `"standard_shadow"`.
- **The greedy word wrapper** (the word loop of
  `render_text_with_options_internal` in `src/renderer.rs`). The text is split on
  whitespace. Each word is measured in glyph columns. The current line is
  closed before a word only when there is a width limit (`max_width > 0`), the
  line is not empty, and `width + spacing + word_width > max_width`.
- **The line composer** (`render_character_line`). It puts glyph rows side by
  side and pads a glyph that has no such row with `width` spaces. A non-empty
  line yields `min(target_height, font.height)` rows. An empty line yields
  `target_height` empty rows.
- **Output assembly and the entry points.** Blocks are stacked with a blank line
  between them, and the last line break is removed. `render_text`,
  `render_text_with_shadow` and `render_text_with_options` only choose the
  options. `render_character` joins one glyph's rows with line breaks.

The Dafny files are:

- `results.dfy`: the `Result` type with `:-` propagation, standing in for Rust's `?`.
- `text.dfy`: `split_whitespace` (`Words`), joining, splitting on `'\n'` (to
  count output lines as the tests' `lines()` does), and runs of spaces.
- `fonts.dfy`: `FontError`, `Glyph` (`FontCharacter`), `Font`, `GetCharacter`,
  `GetFont` and the registry.
- `renderer.rs` becomes `renderer.dfy`:
  - Specification functions: `WordWidth`, `ComposeLine`, `WrapStep`/`Wrap`,
    `Assemble` and `Render`.
  - Imperative methods that follow the Rust loops. Each is proved equal to its
    specification function:
    - `CalculateWordWidth`
    - `RenderCharacterLine`, which fills an `array<string>` of output rows in place
    - `AssembleOutput`
    - `RenderTextWithOptionsInternal`
- `renderer_properties.dfy`: what the renderer promises, proved about the specification functions.
- `examples.dfy`: each unit test of `src/renderer.rs` as a lemma about its concrete input, plus the inputs behind "Findings".

The wrapper is characterised in full:

- `WrapIsGreedy` proves that the wrapper's lines are the words in order, with
  no empty line. Every break it makes failed the fit test, and every word it
  kept on a line passed it.
- `GreedyGroupingUnique` proves that at most one grouping has all three
  properties.
- `WrapIsTheGreedyGrouping` combines the two: a grouping is the wrapper's
  result if and only if it is greedy.

The model follows the code. One behaviour of the code looks unintended: the
break test charges `spacing` (always 1) for the gap between words, but the
line width then grows by the space glyph's width (3 columns in both fonts).
See "Findings".

## Model

| member | source | states |
|---|---|---|
| Text.WordLength | src/renderer.rs:83 | the first word ends at the first whitespace character: the prefix is whitespace-free and the next character is whitespace |
| Text.Words | src/renderer.rs:83 | `split_whitespace` yields only non-empty, whitespace-free words |
| Text.WordsEmptyIffBlank | src/renderer.rs:83-86 | the text has no words exactly when every character is whitespace |
| Text.WordsOfOneWord | src/renderer.rs:83 | a non-empty whitespace-free text is one word |
| Text.WordsSkipsLeadingWhitespace | src/renderer.rs:83 | whitespace before the first word contributes no word: the words of the text are those of the rest |
| Text.WordsOfWordThenSpace | src/renderer.rs:83 | a word followed by whitespace contributes that word, then the words of the rest |
| Text.JoinAppend | src/renderer.rs:107-117 | joining two word lists with single spaces is joining each and putting one space between them |
| Text.SplitJoin | src/renderer.rs:241 | splitting at a separator undoes joining with it when no part contains it (how output lines are counted) |
| Text.Spaces | src/renderer.rs:183 | `" ".repeat(n)` is n characters, all spaces |
| Fonts.ToAsciiUppercase | src/font.rs:30 | `a`..`z` map to `A`..`Z` at the same offset, and every other character is unchanged |
| Fonts.GetCharacter | src/font.rs:28-36 | a hit on the upper-cased key returns its glyph; a miss returns the `'?'` glyph; the lookup fails exactly when both are missing, with `CharacterNotSupported(upper-cased char, font name)` |
| Fonts.LookupIgnoresAsciiCase | src/font.rs:28-30 | looking up a character is the same as looking up its upper-cased form |
| Fonts.LookupTotalWithFallback | src/font.rs:34 | while the font has `'?'`, no lookup fails |
| Fonts.GetFont | src/font.rs:1213-1215 | succeeds exactly for registry keys, returning that font; otherwise fails with `FontNotFound` carrying the same name |
| Fonts.RegistryShape | src/font.rs:1203-1211 | the keys are exactly "standard", "standard_shadow" and "standard_solid"; "standard" is the shadow font; heights are 7 and 5; the names are as declared |
| Fonts.BuiltInLookupsSucceed | src/font.rs:54-1153 | both built-in fonts define `' '` and `'?'`, so every lookup in them succeeds |
| Fonts.UnknownFontNames | src/renderer.rs:253-262 | "nonexistent" and "small" are not fonts: `get_font` fails with `FontNotFound` |
| Fonts.BuiltInFontsNewlineFree | src/font.rs:50-1194 | no glyph row of a built-in font contains a line break |
| Fonts.ShadowNewlineFree | src/font.rs:50-661 | no glyph row of the shadow font contains a line break |
| Fonts.SolidNewlineFree | src/font.rs:665-1194 | no glyph row of the solid font contains a line break |
| Renderer.DefaultOptions | src/renderer.rs:13-22 | the default options name a registered font and set no width limit |
| Renderer.WordWidth | src/renderer.rs:147-154 | a measured word's width is the sum of its glyph widths with no gap; measuring fails only with `CharacterNotSupported` naming the font |
| Renderer.WordWidthFailurePersists | src/renderer.rs:149-150 | once a lookup fails, measuring stops with that failure whatever follows |
| Renderer.WordWidthResolves | src/renderer.rs:147-154 | a word that measures successfully has every character resolved, and its width is its column count |
| Renderer.CalculateWordWidth | src/renderer.rs:147-154 | the accumulating loop returns the word's width, or the first lookup failure |
| Renderer.RenderHeight | src/renderer.rs:170 | the row count is the smaller of the target height and the font height |
| Renderer.ComposeLine | src/renderer.rs:157-173 | an empty line always composes, to `target_height` empty rows; any other line that composes has `min(target, font height)` rows |
| Renderer.ResolveAllSucceeds | src/renderer.rs:163-167 | a line whose characters all resolve collects its glyphs and composes without failure |
| Renderer.AppendGlyphRows | src/renderer.rs:178-185 | every output row gets the glyph's row of the same index, or `width` spaces past its last row |
| Renderer.RenderCharacterLine | src/renderer.rs:157-189 | the nested loops return exactly the composed line: `target_height` empty rows for an empty line, else `min(target, font height)` rows of glyph rows side by side |
| Renderer.WrapStep | src/renderer.rs:93-117 | a word that fails to measure fails the step with that error; after a successful step the word ends the current line |
| Renderer.WrapStepCases | src/renderer.rs:94-117 | one word: a break happens iff the fit test fires on a non-empty line; the word then starts a line or joins it at line width + space glyph width + word width |
| Renderer.AssembleOutput | src/renderer.rs:126-141 | pushing rows with line breaks, a blank line between blocks, and popping the last break gives `Assemble` |
| Renderer.AppendSpaceAndWord | src/renderer.rs:107-117 | a space glyph's width is added before the word unless the line is empty, and a missing space glyph is the only failure; the line becomes the wrapper's next line state |
| Renderer.PushRenderedLine | src/renderer.rs:121-124 | composing and pushing the current line extends the composed blocks by that line's block |
| Renderer.AppendWord | src/renderer.rs:113-117 | adding a word appends its characters and adds its column count to the line width |
| Renderer.CloseLineIfFull | src/renderer.rs:96-105 | the line is composed and pushed, and a new empty line started, exactly when the fit test fires |
| Renderer.PlaceWord | src/renderer.rs:96-117 | one pass of the word loop advances the mutable line state exactly as one wrapper step, or fails as it does |
| Renderer.Render | src/renderer.rs:73-87 | an unknown font fails with `FontNotFound` before the text is looked at; empty or all-whitespace text renders as "" |
| Renderer.RenderTextWithOptionsInternal | src/renderer.rs:73-144 | the whole routine returns `Render`: font lookup first, empty or blank text gives "", then wrap, compose and assemble |
| Renderer.RenderText | src/renderer.rs:25-34 | renders with spacing 1 and the given font, width and height |
| Renderer.ShadowOptions | src/renderer.rs:37-52 | the shadow flag picks the shadow font, otherwise the solid font; the width limit is kept and spacing is 1; with shadow the height is the shadow font's full height (7), without it the requested height |
| Renderer.RenderTextWithShadow | src/renderer.rs:37-52 | ignores the font name; shadow gives "standard_shadow" at height 7, otherwise "standard_solid" at the given height |
| Renderer.LegacyOptions | src/renderer.rs:55-70 | the shadow flag picks the shadow font, otherwise the solid font; the width limit is kept, spacing is 1, and the height is always the chosen font's full height (7 or 5) |
| Renderer.RenderTextWithOptions | src/renderer.rs:55-70 | ignores the font name and the lowercase flag; shadow gives height 7, otherwise "standard_solid" at height 5 |
| Renderer.RenderCharacter | src/renderer.rs:193-200 | succeeds exactly for a registered font name (both built-in fonts resolve every character); an unknown name fails with `FontNotFound` |
| RendererProperties.ColumnsAppend | src/renderer.rs:149-153 | widths add with no gap between glyphs |
| RendererProperties.WordWidthMeaning | src/renderer.rs:147-154 | measuring succeeds iff every character resolves; the width is the sum of glyph widths; a failure carries the first unresolvable character, upper-cased, and the font name |
| RendererProperties.LineWidthSnoc | src/renderer.rs:108-117 | a line with one more word is wider by the space glyph's width plus the word's width |
| RendererProperties.WrapStepNewLine | src/renderer.rs:97-105 | a break moves the full line to the closed lines and keeps the greedy invariant |
| RendererProperties.WrapStepSameLine | src/renderer.rs:107-117 | appending a word that passed the fit test keeps the greedy invariant and the width accounting |
| RendererProperties.WrapStepFirstWord | src/renderer.rs:113-117 | the first word opens the first line, whose width is the word's width |
| RendererProperties.WrapStepKeepsInvariant | src/renderer.rs:92-118 | every pass of the word loop keeps the greedy invariant |
| RendererProperties.WrapFromKeepsInvariant | src/renderer.rs:92-124 | the wrapper's result is a greedy grouping of the words |
| RendererProperties.WrapIsGreedy | src/renderer.rs:92-124 | the lines are the words in order with none empty; every break failed the fit test against the whole previous line; every word kept on a line passed it |
| RendererProperties.FirstGroupLongest | src/renderer.rs:97-99 | the first line of one greedy grouping is at least as long as the first line of any other |
| RendererProperties.GreedyGroupingUnique | src/renderer.rs:92-124 | two greedy groupings of the same words are equal |
| RendererProperties.WrapIsTheGreedyGrouping | src/renderer.rs:92-124 | a grouping is the wrapper's result iff it is the greedy grouping |
| RendererProperties.MeasuredWithFallback | src/renderer.rs:147-154 | with `'?'` in the font, every word measures as its column count |
| RendererProperties.WrapTwoWords | src/renderer.rs:92-124 | two words share a line unless the fit test fires on the second |
| RendererProperties.ForcedBreakNeedsLimit | src/renderer.rs:97 | with no width limit no break is ever forced |
| RendererProperties.NoLimitOneLine | src/renderer.rs:97 | with `max_width = 0` all words form one line |
| RendererProperties.OversizeWordAlone | src/renderer.rs:97-99 | a word wider than the limit is alone on its line |
| RendererProperties.LinesFit | src/renderer.rs:99-110 | when `spacing` is at least the space glyph's width, every line of two or more words fits the limit |
| RendererProperties.WrapKeepsWords | src/renderer.rs:83-117 | the lines, each joined by single spaces and then joined by single spaces, give the whitespace-collapsed input: no word is split, dropped or reordered |
| RendererProperties.WrapFromSucceeds | src/renderer.rs:92-118 | with `'?'` in the font the word loop never fails |
| RendererProperties.LineRowAppend | src/renderer.rs:176-186 | a row of a run of glyphs is the concatenation of the rows of its parts |
| RendererProperties.ResolveAllMeaning | src/renderer.rs:163-167 | collecting glyphs succeeds iff every character resolves, and then yields each character's glyph in order |
| RendererProperties.ComposeLineShape | src/renderer.rs:157-173 | composition succeeds iff every character resolves; it gives `target_height` empty rows for an empty line and `min(target, font height)` rows otherwise |
| RendererProperties.ComposeOneCharacter | src/renderer.rs:176-186 | row i of a single character is its row i, or `width` spaces past its last row |
| RendererProperties.ComposeConcatenates | src/renderer.rs:176-186 | row i of a line is row i of its first part followed by row i of the rest, with no separator |
| RendererProperties.RowWidthIsColumns | src/renderer.rs:176-186 | when every glyph's rows are `width` long, every composed row is as long as the line's measured width |
| RendererProperties.AssembleIsJoin | src/renderer.rs:127-141 | the output is the blocks' rows with one empty line between blocks, joined by line breaks, with no trailing break |
| RendererProperties.StackedLinesCount | src/renderer.rs:127-136 | k blocks of h rows give k·h + k − 1 lines |
| RendererProperties.OutputLines | src/renderer.rs:127-141 | splitting the output at line breaks gives back exactly those lines, k·h + k − 1 of them |
| RendererProperties.ComposeAllSucceeds | src/renderer.rs:120-124 | with `'?'` in the font every line composes, and block i is line i's composition |
| RendererProperties.RenderUnknownFont | src/renderer.rs:74-80 | an unknown font name fails with `FontNotFound` even for empty text |
| RendererProperties.RenderBlankText | src/renderer.rs:78-86 | empty or all-whitespace text renders to "" in a registered font |
| RendererProperties.RenderRegisteredSucceeds | src/renderer.rs:73-144 | rendering in a registered font never fails |
| RendererProperties.ComposedBlockShape | src/renderer.rs:157-189 | in a built-in font a non-empty line composes to `min(height, font height)` rows, none containing a line break |
| RendererProperties.RenderLineCount | src/renderer.rs:127-141 | a rendering of k logical lines of h rows has k·h + k − 1 output lines, and h lines when there is no width limit |
| RendererProperties.RenderSingleLine | src/renderer.rs:97-124 | with no width limit the output lines are the composed rows of the words joined by single spaces |
| RendererProperties.FittedWrapLinesFit | src/renderer.rs:99 | with the fit test charging the space glyph's width, every line fits the limit, or is a single word that alone is too wide |
| RendererProperties.ShadowEntryRenders | src/renderer.rs:37-52 | `render_text_with_shadow` never fails |
| RendererProperties.LegacyEntryRenders | src/renderer.rs:55-70 | `render_text_with_options` never fails |
| RendererProperties.RenderCharacterRows | src/renderer.rs:193-200 | `render_character` in a registered font succeeds, and its lines are the glyph's rows |
| RendererProperties.RenderCharacterUnknownFont | src/renderer.rs:194-195 | `render_character` with an unknown font fails with `FontNotFound` |
| Examples.ShadowHI | src/renderer.rs:265-276 | "HI" with shadow has 7 lines, contains a full block in its first row and `═` in row 5 |
| Examples.SolidHI | src/renderer.rs:279-290 | "HI" without shadow has 5 lines, contains a full block, and no `═` in any row |
| Examples.StandardHIAtHeightFive | src/renderer.rs:215-222 | `render_text("HI", "standard", 0, 5)` has 5 lines and contains a full block |
| Examples.StandardTest123 | src/renderer.rs:224-231 | `render_text("TEST123", "standard", 0, 5)` succeeds with 5 lines, and its first line contains a full block (from E; T, S and the digits fall back to `'?'`) |
| Examples.ShadowA5 | src/renderer.rs:292-302 | "A" with shadow has 7 lines and line 5 contains `═` |
| Examples.CharacterA | src/renderer.rs:206-213 | `render_character('A', "standard")` is the A glyph's rows, full blocks included |
| Examples.EmptyAndUnknown | src/renderer.rs:245-262 | "" renders to ""; the fonts "nonexistent" and "small" fail |
| Examples.ShadowGlyphWidths | src/font.rs:54-411 | shadow widths: H 9, E 8, L 7, O 8, W 11, R 8, D 8, I 3 and space 3 |
| Examples.ShadowWidths | src/renderer.rs:147-154 | "HELLO" is 39 columns and "WORLD" 42 in the shadow font; "HI" is 12 and "L" 7 |
| Examples.WordsHelloWorld | src/renderer.rs:83 | "HELLO WORLD" splits into "HELLO" and "WORLD" |
| Examples.HelloWorldWrap | src/renderer.rs:234-243 | at width 20, "HELLO" and "WORLD" go on separate lines |
| Examples.HelloWorldElevenLines | src/renderer.rs:234-243 | `render_text("HELLO WORLD", "standard", 20, 5)` has 11 lines, more than 5 |
| Examples.SpacingOneJoins | src/renderer.rs:99 | at width 20 the fit test lets "L" join "HI" (12 + 1 + 7 = 20) |
| Examples.SpacingOneOverflows | src/renderer.rs:110 | the accepted line "HI L" is 22 columns wide, more than the limit of 20 |
| Examples.FittedWrapBreaks | src/renderer.rs:99 | with the corrected fit test, "HI" and "L" go on separate lines at width 20 |
| Examples.ShadowRowsWiderThanWidth | src/font.rs:69-411 | the rows of A, L, O and W in the shadow font are longer than their declared width; those of H and I match it |

## Left out

- `src/main.rs`: the command-line interface. Argument parsing, printing and exit codes are input and output.
- `benches/rendering.rs`: a benchmark harness around a mock. `blocklet.rb`: packaging.
- Glyph bitmaps: most are omitted.
  - The shadow font keeps `' '`, A, D, E, H, I, L, O, R, W and `'?'`.
  - The solid font keeps `' '`, H, I and `'?'`.
  - The kept glyphs have their source widths, heights and rows.
  - Any other character falls back to `'?'` in the model, where the source has its own glyph.
  - The properties proved for every font do not depend on this choice.
  - `ComposedBlockShape`, `RenderLineCount`, `RenderSingleLine` and `RenderCharacterRows` rest on `BuiltInFontsNewlineFree`. It is proved for the kept glyphs only. It carries over to the full fonts because no string literal in `src/font.rs` contains a line break.
  - The examples use the concrete glyphs.
- Font descriptions are kept, but nothing reads them. `FontCharacter.height` is kept as `Glyph.height` and is equally unused by the renderer.
- `lazy_static` one-time initialisation: the registry is a constant map.
- Error message text from `anyhow` `.context(...)` and `thiserror`: errors are the `FontError` datatype, and a failed `get_font` keeps its `FontNotFound` value without the context string.
- `u32` arithmetic: widths and heights are unbounded naturals, so overflow of the width accumulator is not modelled.
- UTF-8: strings are sequences of Unicode scalar values, not bytes.
- Unicode `White_Space`: `IsWhitespace` lists the characters of Rust's `char::is_whitespace`; it is not derived from the Unicode database.
- The tests count lines with `str::lines()`. The model splits at `'\n'`, which agrees on this output: it has no trailing line break and no `'\r'`.
- The unused parameters `_font_name` and `_lowercase` of the entry points are accepted and ignored, as in the source.
- Renderer.PushRenderedLine: the `?` after `render_character_line` in the word loop and after the loop cannot fire, because every character on the line was resolved while the word was measured. The model proves this instead of carrying an error path that no input reaches.
- `println!` in the tests is not modelled.

## Findings

| source | as written | input that shows it | evidently intended | confidence | as-written member | corrected member |
|---|---|---|---|---|---|---|
| src/renderer.rs:99 | the fit test charges `spacing` (1) for the gap, but src/renderer.rs:110 then grows the line by the space glyph's width (3 in both fonts) | `render_text("HI L", "standard", 20, 5)`: 12 + 1 + 7 = 20 passes the test, but the line is 12 + 3 + 7 = 22 columns, wider than `max_width` 20 | `max_width` is the "Maximum width for output (0 = no limit)" (src/main.rs:24), so every line of two or more words fits within it | not executed | Examples.SpacingOneOverflows | RendererProperties.FittedWrapLinesFit |

The corrected wrapper is `RendererProperties.FittedWrap`, which charges the
space glyph's width in the fit test. `RendererProperties.LinesFit` proves in
general that any `spacing` at least that wide keeps every line of two or more
words within the limit, and `Examples.FittedWrapBreaks` shows the corrected
wrapper splitting "HI L". The entry points and `Render` keep the fit test as
the source writes it.
