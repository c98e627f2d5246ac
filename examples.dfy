/** Concrete renderings with the built-in fonts: the behaviours the
    renderer's own tests check, and the inputs behind the findings. */
module Examples {
  import opened Results
  import opened Text
  import opened Fonts
  import opened Renderer
  import opened RendererProperties

  /** Glyph lookups in the shadow font, upper-case letters map to their own glyphs. */
  lemma ShadowLookups()
    ensures GetCharacter(StandardShadow, 'H') == Success(ShadowH)
    ensures GetCharacter(StandardShadow, 'I') == Success(ShadowI)
    ensures GetCharacter(StandardShadow, 'A') == Success(ShadowA)
    ensures GetCharacter(StandardShadow, 'L') == Success(ShadowL)
    ensures GetCharacter(StandardShadow, ' ') == Success(ShadowSpace)
  {
  }

  lemma SolidLookups()
    ensures GetCharacter(StandardSolid, 'H') == Success(SolidH)
    ensures GetCharacter(StandardSolid, 'I') == Success(SolidI)
  {
  }

  /** The rows of "HI" composed in a font: the H row followed by the I row. */
  lemma ComposeHI(font: Font, h: nat, gH: Glyph, gI: Glyph, r: nat)
    requires GetCharacter(font, 'H') == Success(gH) && GetCharacter(font, 'I') == Success(gI)
    requires r < RenderHeight(font, h) && r < |gH.data| && r < |gI.data|
    ensures ComposeLine("HI", font, h).Success?
    ensures ComposeLine("HI", font, h).value[r] == gH.data[r] + gI.data[r]
  {
    assert "HI" == "H" + "I";
    ComposeLineShape(font, "HI", h);
    ComposeConcatenates(font, "H", "I", h, r);
    ComposeOneCharacter(font, 'H', h, r);
    ComposeOneCharacter(font, 'I', h, r);
  }

  /** With no width limit, one word renders as the rows of that word composed. */
  lemma OneWordRows(text: string, o: RenderOptions, font: Font)
    requires o.fontName in Registry && Registry[o.fontName] == font && o.maxWidth == 0
    requires |text| > 0 && NoWhitespace(text) && RenderHeight(font, o.height) > 0
    ensures Render(text, o).Success? && ComposeLine(text, font, o.height).Success?
    ensures Split(Render(text, o).value, '\n') == ComposeLine(text, font, o.height).value
    ensures |ComposeLine(text, font, o.height).value| == RenderHeight(font, o.height)
  {
    WordsOfOneWord(text);
    assert Join([text], ' ') == text;
    RenderSingleLine(text, o);
    ComposeLineShape(font, text, o.height);
  }

  /** "HI" with the shadow variant: seven lines, the first made of full blocks
      and the sixth holding the shadow's double line. */
  lemma ShadowHI()
    ensures Render("HI", ShadowOptions(0, 7, true)).Success?
    ensures var lines := Split(Render("HI", ShadowOptions(0, 7, true)).value, '\n');
      |lines| == 7 && lines[0] == ShadowH.data[0] + ShadowI.data[0] && lines[0][0] == '█'
      && lines[5] == ShadowH.data[5] + ShadowI.data[5] && lines[5][1] == '═'
  {
    assert (ShadowH.data[0] + ShadowI.data[0])[0] == '█';
    assert (ShadowH.data[5] + ShadowI.data[5])[1] == '═';
    RegistryShape();
    ShadowLookups();
    OneWordRows("HI", ShadowOptions(0, 7, true), StandardShadow);
    ComposeHI(StandardShadow, 7, ShadowH, ShadowI, 0);
    ComposeHI(StandardShadow, 7, ShadowH, ShadowI, 5);
  }

  /** No row of the solid H or I glyph holds the shadow's double line. */
  lemma SolidHINoShadow()
    ensures forall r :: 0 <= r < 5 ==> '═' !in SolidH.data[r] + SolidI.data[r]
  {
  }

  /** The five rows of "HI" composed in the solid font: H beside I, with no
      shadow line in any of them. */
  lemma SolidHIRows()
    ensures ComposeLine("HI", StandardSolid, 5).Success? && |ComposeLine("HI", StandardSolid, 5).value| == 5
    ensures forall r :: 0 <= r < 5 ==>
      ComposeLine("HI", StandardSolid, 5).value[r] == SolidH.data[r] + SolidI.data[r] &&
      '═' !in ComposeLine("HI", StandardSolid, 5).value[r]
  {
    SolidHINoShadow();
    SolidLookups();
    ComposeHI(StandardSolid, 5, SolidH, SolidI, 0);
    ComposeLineShape(StandardSolid, "HI", 5);
    forall r | 0 <= r < 5
      ensures ComposeLine("HI", StandardSolid, 5).value[r] == SolidH.data[r] + SolidI.data[r]
    {
      ComposeHI(StandardSolid, 5, SolidH, SolidI, r);
    }
  }

  /** "HI" with the solid variant at height 5: five lines, none holding the
      shadow's double line. */
  lemma SolidHI()
    ensures Render("HI", ShadowOptions(0, 5, false)).Success?
    ensures var lines := Split(Render("HI", ShadowOptions(0, 5, false)).value, '\n');
      |lines| == 5 && lines[0] == SolidH.data[0] + SolidI.data[0] && lines[0][0] == '█'
      && forall r :: 0 <= r < 5 ==> '═' !in lines[r]
  {
    assert (SolidH.data[0] + SolidI.data[0])[0] == '█';
    SolidHIRows();
    RegistryShape();
    OneWordRows("HI", ShadowOptions(0, 5, false), StandardSolid);
    assert ComposeLine("HI", StandardSolid, 5).value[0] == SolidH.data[0] + SolidI.data[0];
  }

  /** `render_text("HI", "standard", 0, 5)`: the shadow font cut to five rows. */
  lemma StandardHIAtHeightFive()
    ensures Render("HI", RenderOptions("standard", 0, 5, 1)).Success?
    ensures var lines := Split(Render("HI", RenderOptions("standard", 0, 5, 1)).value, '\n');
      |lines| == 5 && lines[0] == ShadowH.data[0] + ShadowI.data[0] && lines[0][0] == '█'
  {
    assert (ShadowH.data[0] + ShadowI.data[0])[0] == '█';
    RegistryShape();
    ShadowLookups();
    OneWordRows("HI", RenderOptions("standard", 0, 5, 1), StandardShadow);
    ComposeHI(StandardShadow, 5, ShadowH, ShadowI, 0);
  }

  /** `render_text("TEST123", "standard", 0, 5)`: T, S and the digits fall back
      to `'?'`, and the first line holds the E glyph's full blocks. */
  lemma StandardTest123()
    ensures Render("TEST123", RenderOptions("standard", 0, 5, 1)).Success?
    ensures var lines := Split(Render("TEST123", RenderOptions("standard", 0, 5, 1)).value, '\n');
      |lines| == 5 && '█' in lines[0]
  {
    assert "T" + ['E'] + "ST123" == "TEST123";
    assert GetCharacter(StandardShadow, 'E') == Success(ShadowE);
    RegistryShape();
    OneWordRows("TEST123", RenderOptions("standard", 0, 5, 1), StandardShadow);
    RowHoldsGlyphStart(StandardShadow, "T", 'E', "ST123", 5, 0);
  }

  /** Row `i` of a composed line holds the first character of row `i` of each
      of its glyphs. */
  lemma RowHoldsGlyphStart(font: Font, a: string, c: char, b: string, h: nat, i: nat)
    requires a != [] && b != [] && i < RenderHeight(font, h)
    requires ComposeLine(a + [c] + b, font, h).Success?
    requires GetCharacter(font, c).Success?
    requires i < |GetCharacter(font, c).value.data| && GetCharacter(font, c).value.data[i] != []
    ensures GetCharacter(font, c).value.data[i][0] in ComposeLine(a + [c] + b, font, h).value[i]
  {
    assert a + [c] + b == a + ([c] + b);
    ComposeConcatenates(font, a, [c] + b, h, i);
    ComposeConcatenates(font, [c], b, h, i);
    ComposeOneCharacter(font, c, h, i);
    var t := ComposeLine(a, font, h).value[i];
    var e := ComposeLine([c], font, h).value[i];
    assert ComposeLine(a + [c] + b, font, h).value[i] == t + (e + ComposeLine(b, font, h).value[i]);
    assert ComposeLine(a + [c] + b, font, h).value[i][|t|] == e[0];
  }

  /** "A" with the shadow variant: its sixth line is the glyph's shadow row. */
  lemma ShadowA5()
    ensures Render("A", ShadowOptions(0, 7, true)).Success?
    ensures var lines := Split(Render("A", ShadowOptions(0, 7, true)).value, '\n');
      |lines| == 7 && lines[5] == ShadowA.data[5] && lines[5][1] == '═'
  {
    assert ShadowA.data[5][1] == '═';
    RegistryShape();
    ShadowLookups();
    OneWordRows("A", ShadowOptions(0, 7, true), StandardShadow);
    ComposeOneCharacter(StandardShadow, 'A', 7, 5);
  }

  /** `render_character('A', "standard")` is the A glyph's rows, full blocks included. */
  lemma CharacterA()
    ensures RenderCharacter('A', "standard").Success?
    ensures Split(RenderCharacter('A', "standard").value, '\n') == ShadowA.data
    ensures ShadowA.data[0][1] == '█'
  {
    RegistryShape();
    ShadowLookups();
    assert ShadowA.data[0][1] == '█';
    CharacterRowsOf('A', "standard", ShadowA);
  }

  /** `render_character` yields the rows of the glyph its lookup finds. */
  lemma CharacterRowsOf(ch: char, name: string, g: Glyph)
    requires name in Registry && GetCharacter(Registry[name], ch) == Success(g) && g.data != []
    ensures RenderCharacter(ch, name).Success?
    ensures Split(RenderCharacter(ch, name).value, '\n') == g.data
  {
    RenderCharacterRows(ch, name);
  }

  /** Empty text renders as "", and unknown font names fail. */
  lemma EmptyAndUnknown()
    ensures Render("", RenderOptions("standard", 0, 5, 1)) == Success([])
    ensures Render("TEST", RenderOptions("nonexistent", 0, 5, 1)) == Failure(FontNotFound("nonexistent"))
    ensures Render("AB", RenderOptions("small", 0, 3, 1)) == Failure(FontNotFound("small"))
  {
    RegistryShape();
    RenderBlankText("", RenderOptions("standard", 0, 5, 1));
    RenderUnknownFont("TEST", RenderOptions("nonexistent", 0, 5, 1));
    RenderUnknownFont("AB", RenderOptions("small", 0, 3, 1));
  }

  /** The column count of a five-character run: its five glyph widths summed. */
  lemma ColumnsOfFive(font: Font, s: string)
    requires |s| == 5
    ensures Columns(font, s) == GlyphWidth(font, s[0]) + GlyphWidth(font, s[1]) + GlyphWidth(font, s[2])
                                + GlyphWidth(font, s[3]) + GlyphWidth(font, s[4])
  {
    assert s[..4][..3] == s[..3] && s[..3][..2] == s[..2] && s[..2][..1] == s[..1] && s[..1][..0] == [];
    assert Columns(font, s) == Columns(font, s[..4]) + GlyphWidth(font, s[4]);
    assert Columns(font, s[..4]) == Columns(font, s[..3]) + GlyphWidth(font, s[3]);
    assert Columns(font, s[..3]) == Columns(font, s[..2]) + GlyphWidth(font, s[2]);
    assert Columns(font, s[..2]) == Columns(font, s[..1]) + GlyphWidth(font, s[1]);
    assert Columns(font, s[..1]) == GlyphWidth(font, s[0]);
  }

  lemma ShadowGlyphWidths()
    ensures GlyphWidth(StandardShadow, 'H') == 9 && GlyphWidth(StandardShadow, 'E') == 8
    ensures GlyphWidth(StandardShadow, 'L') == 7 && GlyphWidth(StandardShadow, 'O') == 8
    ensures GlyphWidth(StandardShadow, 'W') == 11 && GlyphWidth(StandardShadow, 'R') == 8
    ensures GlyphWidth(StandardShadow, 'D') == 8 && GlyphWidth(StandardShadow, 'I') == 3
    ensures GlyphWidth(StandardShadow, ' ') == 3
  {
  }

  /** Widths in the shadow font: "HELLO" 39 columns, "WORLD" 42, "HI" 12, "L" 7. */
  lemma ShadowWidths()
    ensures Columns(StandardShadow, "HELLO") == 39 && Columns(StandardShadow, "WORLD") == 42
    ensures Columns(StandardShadow, "HI") == 12 && Columns(StandardShadow, "L") == 7
    ensures GlyphWidth(StandardShadow, ' ') == 3 && '?' in StandardShadow.characters
  {
    ShadowGlyphWidths();
    assert Columns(StandardShadow, "HELLO") == 39 by {
      var w := "HELLO";
      assert w[0] == 'H' && w[1] == 'E' && w[2] == 'L' && w[3] == 'L' && w[4] == 'O';
      ColumnsOfFive(StandardShadow, w);
    }
    assert Columns(StandardShadow, "WORLD") == 42 by {
      var w := "WORLD";
      assert w[0] == 'W' && w[1] == 'O' && w[2] == 'R' && w[3] == 'L' && w[4] == 'D';
      ColumnsOfFive(StandardShadow, w);
    }
    assert Columns(StandardShadow, "HI") == 12 by {
      var w := "HI";
      assert w[0] == 'H' && w[1] == 'I';
      ColumnsOfTwo(StandardShadow, w);
    }
    assert Columns(StandardShadow, "L") == 7 by {
      var w := "L";
      assert w[0] == 'L';
      ColumnsOfOne(StandardShadow, w);
    }
  }

  /** The column count of a two-character run. */
  lemma ColumnsOfTwo(font: Font, s: string)
    requires |s| == 2
    ensures Columns(font, s) == GlyphWidth(font, s[0]) + GlyphWidth(font, s[1])
  {
    assert s[..1][..0] == [] && s[..1][0] == s[0];
    assert Columns(font, s[..1]) == GlyphWidth(font, s[0]);
  }

  /** The column count of a one-character run. */
  lemma ColumnsOfOne(font: Font, s: string)
    requires |s| == 1
    ensures Columns(font, s) == GlyphWidth(font, s[0])
  {
    assert s[..0] == [];
  }

  /** Two words with one space between them split into those two words. */
  lemma WordsOfTwo(a: string, b: string)
    requires |a| > 0 && NoWhitespace(a) && |b| > 0 && NoWhitespace(b)
    ensures Words(a + [' '] + b) == [a, b]
  {
    assert IsWhitespace(' ');
    WordsOfWordThenSpace(a, ' ', b);
    WordsOfOneWord(b);
  }

  lemma WordsHelloWorld()
    ensures Words("HELLO WORLD") == ["HELLO", "WORLD"]
  {
    assert "HELLO WORLD" == "HELLO" + [' '] + "WORLD";
    WordsOfTwo("HELLO", "WORLD");
  }

  /** "HELLO" (39 columns) and "WORLD" (42 columns) at width 20 wrap onto two lines. */
  lemma HelloWorldWrap()
    ensures Wrap(StandardShadow, 20, 1, ["HELLO", "WORLD"]) == Success([["HELLO"], ["WORLD"]])
  {
    ShadowWidths();
    WrapTwoWords(StandardShadow, 20, 1, "HELLO", "WORLD");
  }

  /** `render_text("HELLO WORLD", "standard", 20, 5)`: two blocks of five rows
      and a blank line between them, eleven lines in all. */
  lemma HelloWorldElevenLines()
    ensures Render("HELLO WORLD", RenderOptions("standard", 20, 5, 1)).Success?
    ensures |Split(Render("HELLO WORLD", RenderOptions("standard", 20, 5, 1)).value, '\n')| == 11
  {
    RegistryShape();
    WordsHelloWorld();
    HelloWorldWrap();
    assert "HELLO WORLD"[0] == 'H';
    LineCountFromWrap("HELLO WORLD", RenderOptions("standard", 20, 5, 1), StandardShadow, [["HELLO"], ["WORLD"]]);
  }

  /** The line count of a rendering, read off a known grouping of its words. */
  lemma LineCountFromWrap(text: string, o: RenderOptions, font: Font, groups: seq<seq<string>>)
    requires o.fontName in Registry && Registry[o.fontName] == font
    requires |text| > 0 && !IsWhitespace(text[0])
    requires RenderHeight(font, o.height) > 0
    requires Wrap(font, o.maxWidth, o.spacing, Words(text)) == Success(groups)
    ensures Render(text, o).Success?
    ensures |Split(Render(text, o).value, '\n')| == |groups| * RenderHeight(font, o.height) + |groups| - 1
  {
    assert !Blank(text);
    RenderLineCount(text, o);
  }

  /** The fit test lets "L" join "HI" at width 20: 12 + 1 + 7 = 20. */
  lemma SpacingOneJoins()
    ensures Wrap(StandardShadow, 20, 1, ["HI", "L"]) == Success([["HI", "L"]])
  {
    ShadowWidths();
    WrapTwoWords(StandardShadow, 20, 1, "HI", "L");
  }

  /** The line "HI L" the fit test accepted at width 20 takes 12 + 3 + 7 = 22
      columns, because a space glyph is three columns wide while the test
      charges one. */
  lemma SpacingOneOverflows()
    ensures Wrap(StandardShadow, 20, 1, ["HI", "L"]) == Success([["HI", "L"]])
    ensures Columns(StandardShadow, Join(["HI", "L"], ' ')) == 22
  {
    SpacingOneJoins();
    ShadowWidths();
    assert ["HI", "L"] == ["HI"] + ["L"];
    assert Join(["HI"], ' ') == "HI";
    LineWidthSnoc(StandardShadow, ["HI"], "L");
  }

  /** The fit test that charges the space glyph's width breaks before "L": 12 + 3 + 7 > 20. */
  lemma FittedWrapBreaks()
    ensures FittedWrap(StandardShadow, 20, ["HI", "L"]) == Success([["HI"], ["L"]])
  {
    ShadowWidths();
    WrapTwoWords(StandardShadow, 20, 3, "HI", "L");
  }

  /** Some shadow glyphs have rows longer than their declared width, so a
      composed row can be wider than the column count the wrapper uses. */
  lemma ShadowRowsWiderThanWidth()
    ensures !RowsMatchWidth(ShadowA) && |ShadowA.data[0]| == ShadowA.width + 1
    ensures !RowsMatchWidth(ShadowL) && !RowsMatchWidth(ShadowO)
    ensures !RowsMatchWidth(ShadowW) && |ShadowW.data[6]| == ShadowW.width + 1
    ensures RowsMatchWidth(ShadowH) && RowsMatchWidth(ShadowI)
  {
    assert |ShadowA.data[0]| == 8;
    assert |ShadowL.data[0]| == 8;
    assert |ShadowO.data[0]| == 9;
    assert |ShadowW.data[6]| == 12;
  }
}
