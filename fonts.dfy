/** Fonts and glyph lookup: the font table, the character lookup with its
    case folding and `?` fallback, and the fixed registry of named fonts. */
module Fonts {
  import opened Results

  datatype FontError =
    | FontNotFound(name: string)
    | CharacterNotSupported(ch: char, fontName: string)

  /** One character's bitmap: a declared width and height and its rows. The
      rows are not required to have `width` characters, nor to number `height`. */
  datatype Glyph = Glyph(width: nat, height: nat, data: seq<string>)

  datatype Font = Font(name: string, description: string, height: nat, characters: map<char, Glyph>)

  /** `char::to_ascii_uppercase`. */
  function ToAsciiUppercase(c: char): (u: char)
    ensures 'a' <= c <= 'z' ==> 'A' <= u <= 'Z' && u as int - 'A' as int == c as int - 'a' as int
    ensures !('a' <= c <= 'z') ==> u == c
  {
    if 'a' <= c <= 'z' then (c as int - 32) as char else c
  }

  /** `Font::get_character`: the glyph of the upper-cased character, else the
      `?` glyph, else `CharacterNotSupported` naming the upper-cased character. */
  function GetCharacter(font: Font, ch: char): (r: Result<Glyph, FontError>)
    ensures ToAsciiUppercase(ch) in font.characters ==> r == Success(font.characters[ToAsciiUppercase(ch)])
    ensures ToAsciiUppercase(ch) !in font.characters && '?' in font.characters ==> r == Success(font.characters['?'])
    ensures r.Failure? <==> ToAsciiUppercase(ch) !in font.characters && '?' !in font.characters
    ensures r.Failure? ==> r.error == CharacterNotSupported(ToAsciiUppercase(ch), font.name)
  {
    var u := ToAsciiUppercase(ch);
    if u in font.characters then Success(font.characters[u])
    else if '?' in font.characters then Success(font.characters['?'])
    else Failure(CharacterNotSupported(u, font.name))
  }

  /** Lookup is ASCII-case-insensitive. */
  lemma LookupIgnoresAsciiCase(font: Font, c: char)
    ensures GetCharacter(font, c) == GetCharacter(font, ToAsciiUppercase(c))
  {
  }

  /** With a `?` glyph present, no character lookup fails. */
  lemma LookupTotalWithFallback(font: Font, c: char)
    requires '?' in font.characters
    ensures GetCharacter(font, c).Success?
  {
  }

  /** No row of any glyph of the font contains a line break. */
  ghost predicate NewlineFree(font: Font) {
    forall c :: c in font.characters ==> GlyphNewlineFree(font.characters[c])
  }

  ghost predicate GlyphNewlineFree(g: Glyph) {
    forall i, k :: 0 <= i < |g.data| && 0 <= k < |g.data[i]| ==> g.data[i][k] != '\n'
  }

  /** Every row of the glyph has exactly `width` characters. */
  predicate RowsMatchWidth(g: Glyph) {
    forall i :: 0 <= i < |g.data| ==> |g.data[i]| == g.width
  }

  // The glyphs of the two built-in fonts that the properties of this model
  // need, with the widths, heights and rows the font tables give them.

  const ShadowSpace: Glyph := Glyph(3, 7, [
      "   ",
      "   ",
      "   ",
      "   ",
      "   ",
      "   ",
      "   "
    ])

  const ShadowA: Glyph := Glyph(7, 7, [
      " █████╗ ",
      "██╔══██╗",
      "███████║",
      "██╔══██║",
      "██║  ██║",
      "╚═╝  ╚═╝",
      "        "
    ])

  const ShadowD: Glyph := Glyph(8, 7, [
      "██████╗ ",
      "██╔══██╗",
      "██║  ██║",
      "██║  ██║",
      "██████╔╝",
      "╚═════╝ ",
      "        "
    ])

  const ShadowE: Glyph := Glyph(8, 7, [
      "███████╗",
      "██╔════╝",
      "█████╗  ",
      "██╔══╝  ",
      "███████╗",
      "╚══════╝",
      "        "
    ])

  const ShadowH: Glyph := Glyph(9, 7, [
      "██╗   ██╗",
      "██║   ██║",
      "████████║",
      "██╔═══██║",
      "██║   ██║",
      "╚═╝   ╚═╝",
      "         "
    ])

  const ShadowI: Glyph := Glyph(3, 7, [
      "██╗",
      "██║",
      "██║",
      "██║",
      "██║",
      "╚═╝",
      "   "
    ])

  const ShadowL: Glyph := Glyph(7, 7, [
      "██╗     ",
      "██║     ",
      "██║     ",
      "██║     ",
      "███████╗",
      "╚══════╝",
      "        "
    ])

  const ShadowO: Glyph := Glyph(8, 7, [
      " ██████╗ ",
      "██╔═══██╗",
      "██║   ██║",
      "██║   ██║",
      "╚██████╔╝",
      " ╚═════╝ ",
      "         "
    ])

  const ShadowR: Glyph := Glyph(8, 7, [
      "██████╗ ",
      "██╔══██╗",
      "██████╔╝",
      "██╔══██╗",
      "██║  ██║",
      "╚═╝  ╚═╝",
      "        "
    ])

  const ShadowW: Glyph := Glyph(11, 7, [
      "██╗    ██╗ ",
      "██║    ██║ ",
      "██║ █╗ ██║ ",
      "██║███╗██║ ",
      "╚███╔███╔╝ ",
      " ╚══╝╚══╝  ",
      "            "
    ])

  const ShadowQuestion: Glyph := Glyph(8, 7, [
      " █████╗ ",
      "██╔══██╗",
      "╚═══██╔╝",
      "   ██╔╝ ",
      "   ╚═╝  ",
      "   ██╗  ",
      "   ╚═╝  "
    ])

  const SolidSpace: Glyph := Glyph(3, 5, [
      "   ",
      "   ",
      "   ",
      "   ",
      "   "
    ])

  const SolidH: Glyph := Glyph(7, 5, [
      "██   ██",
      "██   ██",
      "███████",
      "██   ██",
      "██   ██"
    ])

  const SolidI: Glyph := Glyph(3, 5, [
      "███",
      " █ ",
      " █ ",
      " █ ",
      "███"
    ])

  const SolidQuestion: Glyph := Glyph(5, 5, [
      " ███ ",
      "    █",
      "  ██ ",
      "     ",
      "  █  "
    ])

  const StandardShadow: Font := Font(
    "standard_shadow",
    "Standard Unicode box drawing font with built-in shadows and descenders",
    7,
    map[
      ' ' := ShadowSpace,
      'A' := ShadowA,
      'D' := ShadowD,
      'E' := ShadowE,
      'H' := ShadowH,
      'I' := ShadowI,
      'L' := ShadowL,
      'O' := ShadowO,
      'R' := ShadowR,
      'W' := ShadowW,
      '?' := ShadowQuestion
    ])

  const StandardSolid: Font := Font(
    "standard_solid",
    "Standard solid block font without shadows",
    5,
    map[
      ' ' := SolidSpace,
      'H' := SolidH,
      'I' := SolidI,
      '?' := SolidQuestion
    ])

  /** The fixed registry: "standard" is the shadow font under a second name. */
  const Registry: map<string, Font> := map[
    "standard" := StandardShadow,
    "standard_shadow" := StandardShadow,
    "standard_solid" := StandardSolid
  ]

  /** `get_font`: the registry entry, or `FontNotFound` carrying the name asked for. */
  function GetFont(name: string): (r: Result<Font, FontError>)
    ensures r.Success? <==> name in Registry
    ensures r.Success? ==> r.value == Registry[name]
    ensures r.Failure? ==> r.error == FontNotFound(name)
  {
    if name in Registry then Success(Registry[name]) else Failure(FontNotFound(name))
  }

  /** The registry holds exactly three names; "standard" and "standard_shadow"
      are the 7-row shadow font and "standard_solid" the 5-row solid font. */
  lemma RegistryShape()
    ensures Registry.Keys == {"standard", "standard_shadow", "standard_solid"}
    ensures Registry["standard"] == Registry["standard_shadow"] == StandardShadow
    ensures Registry["standard_solid"] == StandardSolid
    ensures StandardShadow.height == 7 && StandardSolid.height == 5
    ensures StandardShadow.name == "standard_shadow" && StandardSolid.name == "standard_solid"
  {
  }

  /** Both built-in fonts have a space and a `?` glyph, so every character
      lookup against a registered font succeeds. */
  lemma BuiltInLookupsSucceed(name: string, c: char)
    requires name in Registry
    ensures ' ' in Registry[name].characters && '?' in Registry[name].characters
    ensures GetCharacter(Registry[name], c).Success?
  {
  }

  /** The names the source's tests use for missing fonts are not registered. */
  lemma UnknownFontNames()
    ensures GetFont("nonexistent") == Failure(FontNotFound("nonexistent"))
    ensures GetFont("small") == Failure(FontNotFound("small"))
  {
  }

  /** No glyph row of a built-in font contains a line break. */
  lemma BuiltInFontsNewlineFree(name: string)
    requires name in Registry
    ensures NewlineFree(Registry[name])
  {
    ShadowNewlineFree();
    SolidNewlineFree();
  }

  lemma ShadowNewlineFree()
    ensures NewlineFree(StandardShadow)
  {
    ShadowGlyphsNewlineFree1();
    ShadowGlyphsNewlineFree2();
    ShadowGlyphsNewlineFree3();
    ShadowGlyphsNewlineFree4();
  }

  lemma ShadowGlyphsNewlineFree1()
    ensures GlyphNewlineFree(ShadowSpace) && GlyphNewlineFree(ShadowA) && GlyphNewlineFree(ShadowD)
  {
  }

  lemma ShadowGlyphsNewlineFree2()
    ensures GlyphNewlineFree(ShadowE) && GlyphNewlineFree(ShadowH) && GlyphNewlineFree(ShadowI)
  {
  }

  lemma ShadowGlyphsNewlineFree3()
    ensures GlyphNewlineFree(ShadowL) && GlyphNewlineFree(ShadowO) && GlyphNewlineFree(ShadowR)
  {
  }

  lemma ShadowGlyphsNewlineFree4()
    ensures GlyphNewlineFree(ShadowW) && GlyphNewlineFree(ShadowQuestion)
  {
  }

  lemma SolidNewlineFree()
    ensures NewlineFree(StandardSolid)
  {
    var m := StandardSolid.characters;
    forall c | c in m ensures GlyphNewlineFree(m[c]) {
      if c == ' ' { assert GlyphNewlineFree(SolidSpace); }
      else if c == 'H' { assert GlyphNewlineFree(SolidH); }
      else if c == 'I' { assert GlyphNewlineFree(SolidI); }
      else { assert GlyphNewlineFree(SolidQuestion); }
    }
  }
}
