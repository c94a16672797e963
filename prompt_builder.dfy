/**
 * build_prompt: turns a validated form into the prompt document. The theme is
 * the stripped custom theme when the chosen theme is "özel", "ozel" or
 * "custom" (in any case), each colour becomes its rgba text, a text block is
 * added only when text is asked for and is not blank, and the goal,
 * constraints and output sections are fixed.
 */
module PromptBuilder {
  import opened Wrappers
  import opened PyStr
  import Utils
  import opened Schemas

  datatype TextBlock = TextBlock(text: string, fontFamily: string, layoutHint: string)
  datatype Aesthetics = Aesthetics(theme: string, artStyle: string)
  datatype Composition = Composition(aspectRatio: string, background: string, palette: seq<string>)
  datatype Overlays = Overlays(includeText: bool, textBlock: Option<TextBlock>)
  datatype Constraints = Constraints(noise: string, consistency: string, lighting: string)
  datatype References = References(imageUrl: Option<string>)
  datatype Output = Output(format: string, safety: string)

  /** The prompt document, section by section. */
  datatype Prompt = Prompt(
    goal: string,
    aesthetics: Aesthetics,
    composition: Composition,
    overlays: Overlays,
    constraints: Constraints,
    references: References,
    output: Output)

  /** Calling .strip() on a customTheme that is None raises AttributeError. */
  datatype BuildError = AttributeError

  const Goal: string := "Generate a single image based on structured constraints."
  const LayoutHint: string := "safe-area, high-contrast, no-clipping"
  const FixedConstraints: Constraints := Constraints("low", "high", "studio-balanced")
  const FixedOutput: Output := Output("png", "standard")

  /**
   * str.lower() on the characters that can lower-case into one of the
   * theme names: 'Ö' and, through Utils.AsciiLower, A-Z. Every other
   * character is left as it is, which cannot change whether the result is
   * one of those names.
   */
  function ThemeLower(c: char): char {
    if c == '\U{D6}' then '\U{F6}' else Utils.AsciiLower(c)
  }

  function ThemeLowerString(s: string): (r: string)
    ensures |r| == |s| && forall i :: 0 <= i < |s| ==> r[i] == ThemeLower(s[i])
  {
    seq(|s|, i requires 0 <= i < |s| => ThemeLower(s[i]))
  }

  /** theme.lower() in ["özel", "ozel", "custom"]. */
  predicate IsCustomTheme(theme: string) {
    ThemeLowerString(theme) in ["\U{F6}zel", "ozel", "custom"]
  }

  /** The rgba text of a validated colour. */
  function ColorText(c: ColorWithAlpha, formatAlpha: real -> string): (s: string)
    requires ValidColor(c)
    ensures Utils.Convertible(c.hex) && |Utils.StripHashes(c.hex)| >= 5
    ensures s == Utils.RgbaText(Utils.Components(c.hex), formatAlpha(c.alpha))
  {
    ValidHexConverts(c.hex, c.alpha, formatAlpha);
    Utils.HexToRgba(c.hex, c.alpha, formatAlpha).value
  }

  /** (text or "").strip() is non-empty: the text has a character that is not whitespace. */
  predicate HasVisibleText(text: Option<string>) {
    text.Some? && exists k :: 0 <= k < |text.value| && !IsSpace(text.value[k])
  }

  /**
   * build_prompt(data, reference_image_url). It fails only when the theme is
   * a custom one and customTheme is None; otherwise the text block is there
   * exactly when text is asked for and not blank, and include_text says so.
   */
  function BuildPrompt(data: FormDataIn, referenceImageUrl: Option<string>, formatAlpha: real -> string)
    : (res: Result<Prompt, BuildError>)
    requires ValidForm(data)
    ensures res.Failure? <==> IsCustomTheme(data.theme) && data.customTheme.None?
    ensures res.Success? ==>
      (res.value.overlays.textBlock.Some? <==> data.includeText && HasVisibleText(data.text))
      && res.value.overlays.includeText == res.value.overlays.textBlock.Some?
  {
    if IsCustomTheme(data.theme) && data.customTheme.None? then Failure(AttributeError)
    else
      var theme := if IsCustomTheme(data.theme) then Strip(data.customTheme.value) else data.theme;
      var palette := seq(|data.primaryColors|, i requires 0 <= i < |data.primaryColors| =>
        ColorText(data.primaryColors[i], formatAlpha));
      var background := ColorText(data.backgroundColor, formatAlpha);
      var text := if data.text.Some? then data.text.value else "";
      StripEmptyIff(text);
      var textBlock :=
        if data.includeText && Strip(text) != [] then Some(TextBlock(Strip(data.text.value), data.fontFamily, LayoutHint))
        else None;
      Success(Prompt(
        Goal,
        Aesthetics(theme, data.style),
        Composition(data.aspectRatio, background, palette),
        Overlays(textBlock.Some?, textBlock),
        FixedConstraints,
        References(referenceImageUrl),
        FixedOutput))
  }

  /** The theme is the stripped custom theme for "özel", "ozel" or "custom" in any case, and the chosen theme otherwise. */
  lemma ThemeRule(data: FormDataIn, referenceImageUrl: Option<string>, formatAlpha: real -> string)
    requires ValidForm(data)
    requires BuildPrompt(data, referenceImageUrl, formatAlpha).Success?
    ensures var theme := BuildPrompt(data, referenceImageUrl, formatAlpha).value.aesthetics.theme;
      if IsCustomTheme(data.theme) then data.customTheme.Some? && theme == Strip(data.customTheme.value)
      else theme == data.theme
  {
  }

  /**
   * The theme test is case-blind: lower-casing first changes nothing, and only
   * a four- or six-character theme can be a custom one.
   */
  lemma ThemeTestIgnoresCase(theme: string)
    ensures IsCustomTheme(ThemeLowerString(theme)) == IsCustomTheme(theme)
    ensures IsCustomTheme(theme) ==> |theme| == 4 || |theme| == 6
  {
    var once := ThemeLowerString(theme);
    var twice := ThemeLowerString(once);
    forall i | 0 <= i < |theme| ensures twice[i] == once[i] {
      var c := theme[i];
      if 'A' <= c <= 'Z' {
        assert once[i] == (c as int + 32) as char;
      }
    }
    assert twice == once;
  }

  /** Which spellings choose the custom theme. */
  lemma CustomThemeNames()
    ensures IsCustomTheme("custom") && IsCustomTheme("Custom") && IsCustomTheme("CUSTOM")
    ensures IsCustomTheme("ozel") && IsCustomTheme("\U{F6}zel") && IsCustomTheme("\U{D6}ZEL")
    ensures !IsCustomTheme(" custom") && !IsCustomTheme("customs") && !IsCustomTheme("")
  {
    assert ThemeLowerString("custom") == "custom";
    assert ThemeLowerString("Custom") == "custom";
    assert ThemeLowerString("CUSTOM") == "custom";
    assert ThemeLowerString("ozel") == "ozel";
    assert ThemeLowerString("\U{F6}zel") == "\U{F6}zel";
    assert ThemeLowerString("\U{D6}ZEL") == "\U{F6}zel";
    assert ThemeLowerString(" custom")[0] == ' ';
  }

  /**
   * The palette keeps the length and order of primaryColors, entry i is
   * hex_to_rgba of colour i and reads back to its components and formatted
   * alpha; the background likewise.
   */
  lemma PaletteRule(data: FormDataIn, referenceImageUrl: Option<string>, formatAlpha: real -> string)
    requires ValidForm(data)
    requires BuildPrompt(data, referenceImageUrl, formatAlpha).Success?
    ensures var comp := BuildPrompt(data, referenceImageUrl, formatAlpha).value.composition;
      |comp.palette| == |data.primaryColors|
      && (forall i :: 0 <= i < |comp.palette| ==>
            Utils.Convertible(data.primaryColors[i].hex)
            && Utils.HexToRgba(data.primaryColors[i].hex, data.primaryColors[i].alpha, formatAlpha)
               == Success(comp.palette[i]))
      && Utils.Convertible(data.backgroundColor.hex)
      && Utils.HexToRgba(data.backgroundColor.hex, data.backgroundColor.alpha, formatAlpha) == Success(comp.background)
      && (forall i :: 0 <= i < |comp.palette| ==>
            Utils.ParseRgba(comp.palette[i])
            == Some((Utils.Components(data.primaryColors[i].hex), formatAlpha(data.primaryColors[i].alpha))))
      && Utils.ParseRgba(comp.background)
         == Some((Utils.Components(data.backgroundColor.hex), formatAlpha(data.backgroundColor.alpha)))
  {
    var comp := BuildPrompt(data, referenceImageUrl, formatAlpha).value.composition;
    forall i | 0 <= i < |comp.palette|
      ensures Utils.Convertible(data.primaryColors[i].hex)
      ensures Utils.HexToRgba(data.primaryColors[i].hex, data.primaryColors[i].alpha, formatAlpha) == Success(comp.palette[i])
      ensures Utils.ParseRgba(comp.palette[i])
        == Some((Utils.Components(data.primaryColors[i].hex), formatAlpha(data.primaryColors[i].alpha)))
    {
      var c := data.primaryColors[i];
      ValidHexConverts(c.hex, c.alpha, formatAlpha);
      Utils.ParseRgbaRoundTrip(Utils.Components(c.hex), formatAlpha(c.alpha));
    }
    ValidHexConverts(data.backgroundColor.hex, data.backgroundColor.alpha, formatAlpha);
    Utils.ParseRgbaRoundTrip(Utils.Components(data.backgroundColor.hex), formatAlpha(data.backgroundColor.alpha));
  }

  /** A text block carries the stripped text, the font family and the fixed layout hint. */
  lemma TextBlockContents(data: FormDataIn, referenceImageUrl: Option<string>, formatAlpha: real -> string)
    requires ValidForm(data)
    requires BuildPrompt(data, referenceImageUrl, formatAlpha).Success?
    requires BuildPrompt(data, referenceImageUrl, formatAlpha).value.overlays.textBlock.Some?
    ensures data.text.Some?
    ensures BuildPrompt(data, referenceImageUrl, formatAlpha).value.overlays.textBlock.value
      == TextBlock(Strip(data.text.value), data.fontFamily, LayoutHint)
    ensures Strip(data.text.value) != []
  {
  }

  /**
   * Whatever the input, the goal, constraints and output sections are the
   * same; the reference URL is the one passed in, and the aspect ratio and art
   * style are copied from the form.
   */
  lemma FixedSections(d1: FormDataIn, u1: Option<string>, d2: FormDataIn, u2: Option<string>, formatAlpha: real -> string)
    requires ValidForm(d1) && ValidForm(d2)
    requires BuildPrompt(d1, u1, formatAlpha).Success? && BuildPrompt(d2, u2, formatAlpha).Success?
    ensures var p1 := BuildPrompt(d1, u1, formatAlpha).value; var p2 := BuildPrompt(d2, u2, formatAlpha).value;
      p1.goal == p2.goal && p1.constraints == p2.constraints && p1.output == p2.output
      && p1.references.imageUrl == u1 && p2.references.imageUrl == u2
      && p1.composition.aspectRatio == d1.aspectRatio && p1.aesthetics.artStyle == d1.style
  {
  }
}
