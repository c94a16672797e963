/**
 * The request schemas: ColorWithAlpha and FormDataIn, with what validation
 * accepts (the hex pattern ^#([A-Fa-f0-9]{6})$ and the range 0.0 <= alpha <= 1.0)
 * and the defaults it fills in for omitted fields.
 */
module Schemas {
  import opened Wrappers
  import opened PyStr
  import Utils

  /** The pattern ^#([A-Fa-f0-9]{6})$, anchored at both ends: a '#' and exactly six hex digits. */
  predicate HexPatternMatches(s: string) {
    |s| == 7 && s[0] == '#' && forall i :: 1 <= i < 7 ==> Utils.IsHexDigit(s[i])
  }

  datatype ColorWithAlpha = ColorWithAlpha(hex: string, alpha: real)

  /** A colour validation has accepted. */
  predicate ValidColor(c: ColorWithAlpha) {
    HexPatternMatches(c.hex) && 0.0 <= c.alpha <= 1.0
  }

  datatype FormDataIn = FormDataIn(
    aspectRatio: string,
    primaryColors: seq<ColorWithAlpha>,
    theme: string,
    customTheme: Option<string>,
    includeText: bool,
    text: Option<string>,
    fontFamily: string,
    backgroundColor: ColorWithAlpha,
    style: string,
    referenceImageBase64: Option<string>)

  /** A form validation has accepted: every colour in it is valid. */
  predicate ValidForm(f: FormDataIn) {
    (forall i :: 0 <= i < |f.primaryColors| ==> ValidColor(f.primaryColors[i]))
    && ValidColor(f.backgroundColor)
  }

  // ---------------------------------------------------------------------
  // Validation of decoded input

  /** A field of the decoded input: left out, given as null, or given with a value. */
  datatype Field<T> = Omitted | Null | Given(value: T)

  datatype RawColor = RawColor(hex: string, alpha: Field<real>)

  /** The decoded request body before validation; fields with a default may be left out. */
  datatype RawForm = RawForm(
    aspectRatio: string,
    primaryColors: seq<RawColor>,
    theme: string,
    customTheme: Field<string>,
    includeText: bool,
    text: Field<string>,
    fontFamily: string,
    backgroundColor: RawColor,
    style: string,
    referenceImageBase64: Field<string>)

  /** One entry of the validation error list, with the path of the field it is about. */
  datatype Issue =
    | JsonInvalid
    | PatternMismatch(loc: seq<string>)
    | FloatType(loc: seq<string>)
    | GreaterThanEqual(loc: seq<string>)
    | LessThanEqual(loc: seq<string>)

  /** What the alpha field has to be: left out (so 1.0), or a number from 0.0 to 1.0 inclusive. */
  predicate AlphaAccepted(a: Field<real>) {
    a.Omitted? || (a.Given? && 0.0 <= a.value <= 1.0)
  }

  predicate ColorAccepted(c: RawColor) {
    HexPatternMatches(c.hex) && AlphaAccepted(c.alpha)
  }

  /** The errors validation reports for one colour at path loc, hex before alpha. */
  function ColorIssues(c: RawColor, loc: seq<string>): (issues: seq<Issue>)
    ensures issues == [] <==> ColorAccepted(c)
  {
    (if HexPatternMatches(c.hex) then [] else [PatternMismatch(loc + ["hex"])])
    + match c.alpha
      case Omitted => []
      case Null => [FloatType(loc + ["alpha"])]
      case Given(a) =>
        if a < 0.0 then [GreaterThanEqual(loc + ["alpha"])]
        else if a > 1.0 then [LessThanEqual(loc + ["alpha"])]
        else []
  }

  /** The errors for the palette entries from index start on, in list order. */
  function PaletteIssues(cs: seq<RawColor>, start: nat): (issues: seq<Issue>)
    ensures issues == [] <==> forall i :: 0 <= i < |cs| ==> ColorAccepted(cs[i])
    decreases |cs|
  {
    if cs == [] then []
    else ColorIssues(cs[0], ["primaryColors", Dec(start)]) + PaletteIssues(cs[1..], start + 1)
  }

  /** The alpha of an accepted colour; 1.0 when it was left out. */
  function AlphaValue(a: Field<real>): real {
    if a.Given? then a.value else 1.0
  }

  function ToColor(c: RawColor): ColorWithAlpha {
    ColorWithAlpha(c.hex, AlphaValue(c.alpha))
  }

  /** An optional field: left out gives the default, null gives None. */
  function OrDefault(f: Field<string>, default: Option<string>): Option<string> {
    match f
    case Omitted => default
    case Null => None
    case Given(s) => Some(s)
  }

  /**
   * FormDataIn validation. It succeeds exactly when every colour is accepted,
   * and then yields a valid form with the defaults filled in; otherwise it
   * reports at least one error.
   */
  function ValidateForm(raw: RawForm): (res: Result<FormDataIn, seq<Issue>>)
    ensures res.Success? <==>
      (forall i :: 0 <= i < |raw.primaryColors| ==> ColorAccepted(raw.primaryColors[i]))
      && ColorAccepted(raw.backgroundColor)
    ensures res.Failure? ==> res.error != []
    ensures res.Success? ==> ValidForm(res.value)
  {
    var issues := PaletteIssues(raw.primaryColors, 0) + ColorIssues(raw.backgroundColor, ["backgroundColor"]);
    if issues != [] then Failure(issues)
    else
      Success(FormDataIn(
        raw.aspectRatio,
        seq(|raw.primaryColors|, i requires 0 <= i < |raw.primaryColors| => ToColor(raw.primaryColors[i])),
        raw.theme,
        OrDefault(raw.customTheme, Some("")),
        raw.includeText,
        OrDefault(raw.text, Some("")),
        raw.fontFamily,
        ToColor(raw.backgroundColor),
        raw.style,
        OrDefault(raw.referenceImageBase64, None)))
  }

  /**
   * What an accepted form holds: the palette in the given order with each
   * omitted alpha set to 1.0, customTheme and text "" when left out and None
   * when null, referenceImageBase64 None when left out or null, and every
   * given value kept as it was.
   */
  lemma ValidateFormFields(raw: RawForm)
    requires ValidateForm(raw).Success?
    ensures var f := ValidateForm(raw).value;
      |f.primaryColors| == |raw.primaryColors|
      && (forall i :: 0 <= i < |f.primaryColors| ==>
            f.primaryColors[i].hex == raw.primaryColors[i].hex
            && (raw.primaryColors[i].alpha.Omitted? ==> f.primaryColors[i].alpha == 1.0)
            && (raw.primaryColors[i].alpha.Given? ==> f.primaryColors[i].alpha == raw.primaryColors[i].alpha.value))
      && f.backgroundColor.hex == raw.backgroundColor.hex
      && (raw.backgroundColor.alpha.Omitted? ==> f.backgroundColor.alpha == 1.0)
      && (raw.backgroundColor.alpha.Given? ==> f.backgroundColor.alpha == raw.backgroundColor.alpha.value)
      && (raw.customTheme.Omitted? ==> f.customTheme == Some(""))
      && (raw.customTheme.Null? ==> f.customTheme.None?)
      && (raw.customTheme.Given? ==> f.customTheme == Some(raw.customTheme.value))
      && (raw.text.Omitted? ==> f.text == Some(""))
      && (raw.text.Null? ==> f.text.None?)
      && (raw.text.Given? ==> f.text == Some(raw.text.value))
      && (raw.referenceImageBase64.Omitted? || raw.referenceImageBase64.Null? ==> f.referenceImageBase64.None?)
      && (raw.referenceImageBase64.Given? ==> f.referenceImageBase64 == Some(raw.referenceImageBase64.value))
      && f.aspectRatio == raw.aspectRatio && f.theme == raw.theme && f.includeText == raw.includeText
      && f.fontFamily == raw.fontFamily && f.style == raw.style
  {
  }

  /** The palette has no length bound: a form with no primary colours is accepted. */
  lemma EmptyPaletteAccepted(raw: RawForm)
    requires raw.primaryColors == [] && ColorAccepted(raw.backgroundColor)
    ensures ValidateForm(raw).Success? && ValidateForm(raw).value.primaryColors == []
  {
  }

  /** The alpha range is inclusive at both ends. */
  lemma AlphaBounds(hex: string)
    requires HexPatternMatches(hex)
    ensures ColorAccepted(RawColor(hex, Given(0.0))) && ColorAccepted(RawColor(hex, Given(1.0)))
    ensures forall a: real :: a < 0.0 || a > 1.0 ==> !ColorAccepted(RawColor(hex, Given(a)))
    ensures !ColorAccepted(RawColor(hex, Null))
  {
  }

  /**
   * Every hex the pattern accepts can be handed to hex_to_rgba: stripping the
   * '#' leaves exactly the six digits, so the conversion cannot fail.
   */
  lemma ValidHexConverts(hex: string, alpha: real, formatAlpha: real -> string)
    requires HexPatternMatches(hex)
    ensures Utils.StripHashes(hex) == hex[1..]
    ensures Utils.Convertible(hex)
    ensures Utils.HexToRgba(hex, alpha, formatAlpha).Success?
  {
    Utils.StripHashesAll(hex);
    assert hex[0] == '#' && hex[1] != '#';
  }

  /** Exactly the strings the pattern describes pass it; a seventh digit, a missing '#' or a doubled '#' do not. */
  lemma HexPatternExamples()
    ensures HexPatternMatches("#A1b2C3")
    ensures !HexPatternMatches("#A1b2C3d")
    ensures !HexPatternMatches("A1b2C3")
    ensures !HexPatternMatches("##A1b2C")
    ensures !HexPatternMatches("#A1b2CG")
  {
    assert "##A1b2C"[1] == '#' && !Utils.IsHexDigit('#');
    assert "#A1b2CG"[6] == 'G' && !Utils.IsHexDigit('G');
  }
}
