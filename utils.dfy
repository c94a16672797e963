/**
 * hex_to_rgba: turns a "#rrggbb" colour and an opacity into the CSS text
 * "rgba(r,g,b,A)". Every leading '#' is stripped, the components are read
 * with int(..., 16) from the slices [0:2], [2:4] and [4:6] of what is left,
 * and A is the opacity formatted with two decimals ({alpha:.2f}), which this
 * model takes as a parameter `formatAlpha`.
 */
module Utils {
  import opened Wrappers
  import opened PyStr

  predicate IsHexDigit(c: char) {
    '0' <= c <= '9' || 'a' <= c <= 'f' || 'A' <= c <= 'F'
  }

  predicate AllHex(s: string) {
    forall i :: 0 <= i < |s| ==> IsHexDigit(s[i])
  }

  function HexDigitValue(c: char): (v: nat)
    requires IsHexDigit(c)
    ensures v < 16
  {
    if '0' <= c <= '9' then c as int - '0' as int
    else if 'a' <= c <= 'f' then c as int - 'a' as int + 10
    else c as int - 'A' as int + 10
  }

  /** What int(s, 16) gives for a string of hex digits: at most 15 for one digit, at most 255 for two. */
  function HexValue(s: string): (v: nat)
    requires AllHex(s)
    ensures |s| <= 1 ==> v < 16
    ensures |s| <= 2 ==> v < 256
  {
    if s == [] then 0 else 16 * HexValue(s[..|s| - 1]) + HexDigitValue(s[|s| - 1])
  }

  /** Lower-cases the ASCII letters A-Z and leaves every other character as it is. */
  function AsciiLower(c: char): char {
    if 'A' <= c <= 'Z' then (c as int + 32) as char else c
  }

  function AsciiLowerString(s: string): (r: string)
    ensures |r| == |s| && forall i :: 0 <= i < |s| ==> r[i] == AsciiLower(s[i])
  {
    seq(|s|, i requires 0 <= i < |s| => AsciiLower(s[i]))
  }

  datatype Rgb = Rgb(r: nat, g: nat, b: nat)

  datatype ConversionError = ValueError

  predicate IsHash(c: char) {
    c == '#'
  }

  /** hex_str.lstrip("#"): every leading '#' removed. */
  function StripHashes(h: string): string {
    LStripWhile(h, IsHash)
  }

  /**
   * What the three int(..., 16) calls are given in this model: the first six
   * characters left after the '#'s (all of them, if fewer) are hex digits.
   */
  predicate Convertible(h: string) {
    var t := StripHashes(h);
    forall i :: 0 <= i < |t| && i < 6 ==> IsHexDigit(t[i])
  }

  /** int(t[i:i+2], 16); an empty slice raises ValueError. */
  function HexField(t: string, i: nat): (res: Result<nat, ConversionError>)
    requires i <= 4
    requires forall k :: 0 <= k < |t| && k < 6 ==> IsHexDigit(t[k])
    ensures res.Success? <==> i < |t|
    ensures res.Success? ==> res.value == Component(t, i)
  {
    var f := PySlice(t, i, i + 2);
    if f == [] then Failure(ValueError)
    else
      assert f[0] == t[i];
      assert HexValue(f[..1]) == HexDigitValue(t[i]) by {
        assert f[..1][..0] == [];
      }
      assert |f| == 1 ==> f[..1] == f;
      assert |f| == 2 ==> f[..|f| - 1] == f[..1] && f[1] == t[i + 1];
      Success(HexValue(f))
  }

  /** The component that starts at digit i: two digits, or one when the text ends after it. */
  function Component(t: string, i: nat): (v: nat)
    requires i < |t| && i + 1 < 6
    requires forall k :: 0 <= k < |t| && k < 6 ==> IsHexDigit(t[k])
  {
    if i + 1 < |t| then 16 * HexDigitValue(t[i]) + HexDigitValue(t[i + 1]) else HexDigitValue(t[i])
  }

  /** The red, green and blue values the colour text stands for, digit pair by digit pair. */
  function Components(h: string): (c: Rgb)
    requires Convertible(h) && |StripHashes(h)| >= 5
  {
    var t := StripHashes(h);
    Rgb(Component(t, 0), Component(t, 2), Component(t, 4))
  }

  /** The text f"rgba({r},{g},{b},{A})". */
  function RgbaText(c: Rgb, a: string): string {
    "rgba(" + Dec(c.r) + "," + Dec(c.g) + "," + Dec(c.b) + "," + a + ")"
  }

  /**
   * hex_to_rgba(h, alpha). It fails with ValueError exactly when fewer than
   * five characters remain after the '#'s (then the slice [4:6] is empty);
   * otherwise it gives the rgba text of the colour's components.
   */
  function HexToRgba(h: string, alpha: real, formatAlpha: real -> string): (res: Result<string, ConversionError>)
    requires Convertible(h)
    ensures res.Success? <==> |StripHashes(h)| >= 5
    ensures res.Success? ==> res.value == RgbaText(Components(h), formatAlpha(alpha))
  {
    var t := StripHashes(h);
    var r := HexField(t, 0);
    var g := HexField(t, 2);
    var b := HexField(t, 4);
    if r.Failure? then Failure(r.error)
    else if g.Failure? then Failure(g.error)
    else if b.Failure? then Failure(b.error)
    else Success(RgbaText(Rgb(r.value, g.value, b.value), formatAlpha(alpha)))
  }

  // ---------------------------------------------------------------------
  // Reading the rgba text back

  /** A decimal number followed by a comma at the front of s, and what follows the comma. */
  function TakeNumber(s: string): Option<(nat, string)> {
    var k := IndexOf(s, ',');
    if k > 0 && AllDigits(s[..k]) then Some((DecValue(s[..k]), s[k + 1..])) else None
  }

  /** Reads "rgba(r,g,b,A)" back into its three numbers and the opacity text A. */
  function ParseRgba(s: string): Option<(Rgb, string)> {
    if |s| < 6 || s[..5] != "rgba(" || s[|s| - 1] != ')' then None
    else
      match TakeNumber(s[5..|s| - 1])
      case None => None
      case Some((r, rest1)) =>
        match TakeNumber(rest1)
        case None => None
        case Some((g, rest2)) =>
          match TakeNumber(rest2)
          case None => None
          case Some((b, a)) => Some((Rgb(r, g, b), a))
  }

  lemma TakeNumberDec(n: nat, rest: string)
    ensures TakeNumber(Dec(n) + "," + rest) == Some((n, rest))
  {
    var d := Dec(n);
    var s := d + "," + rest;
    IndexOfAfter(d, ',', rest);
    assert s[..|d|] == d;
    assert s[|d| + 1..] == rest;
    DecRoundTrip(n);
  }

  /** The rgba text is unambiguous: it reads back to exactly the components and opacity text it was made from. */
  lemma ParseRgbaRoundTrip(c: Rgb, a: string)
    ensures ParseRgba(RgbaText(c, a)) == Some((c, a))
  {
    var s := RgbaText(c, a);
    var tail := Dec(c.b) + "," + a;
    var mid := Dec(c.g) + "," + tail;
    var inner := Dec(c.r) + "," + mid;
    assert s == "rgba(" + inner + ")";
    assert s[..5] == "rgba(";
    assert s[5..|s| - 1] == inner;
    TakeNumberDec(c.r, mid);
    TakeNumberDec(c.g, tail);
    TakeNumberDec(c.b, a);
  }

  /** The output has no space apart from those inside the opacity text. */
  lemma RgbaTextNoSpaces(c: Rgb, a: string)
    ensures ' ' in RgbaText(c, a) ==> ' ' in a
  {
    var s := RgbaText(c, a);
    if ' ' in s {
      var k :| 0 <= k < |s| && s[k] == ' ';
      var p := "rgba(" + Dec(c.r) + "," + Dec(c.g) + "," + Dec(c.b) + ",";
      assert s == p + a + ")";
      assert forall j :: 0 <= j < |p| ==> p[j] != ' ';
      assert a[k - |p|] == ' ';
    }
  }

  // ---------------------------------------------------------------------
  // Properties of hex_to_rgba

  /** lstrip("#") removes all leading '#', not only one: what is left does not start with '#' and what went was only '#'. */
  lemma StripHashesAll(h: string)
    ensures var t := StripHashes(h);
      h == h[..|h| - |t|] + t
      && (forall i :: 0 <= i < |h| - |t| ==> h[i] == '#')
      && (t != [] ==> t[0] != '#')
  {
    LStripWhileSpec(h, IsHash);
  }

  /** The component slices read as two-digit base-16 numbers, each between 0 and 255. */
  lemma ComponentsOfSixDigits(h: string)
    requires Convertible(h) && |StripHashes(h)| >= 6
    ensures var t := StripHashes(h); var c := Components(h);
      c.r == 16 * HexDigitValue(t[0]) + HexDigitValue(t[1])
      && c.g == 16 * HexDigitValue(t[2]) + HexDigitValue(t[3])
      && c.b == 16 * HexDigitValue(t[4]) + HexDigitValue(t[5])
      && c.r <= 255 && c.g <= 255 && c.b <= 255
  {
  }

  lemma HexDigitValueLower(c: char)
    requires IsHexDigit(c)
    ensures IsHexDigit(AsciiLower(c)) && HexDigitValue(AsciiLower(c)) == HexDigitValue(c)
  {
  }

  lemma {:induction false} StripHashesLower(h: string)
    ensures StripHashes(AsciiLowerString(h)) == AsciiLowerString(StripHashes(h))
    decreases |h|
  {
    var lh := AsciiLowerString(h);
    if h != [] {
      assert lh[1..] == AsciiLowerString(h[1..]);
      StripHashesLower(h[1..]);
    }
  }

  /** Upper- and lower-case hex digits give the same output. */
  lemma HexToRgbaCaseInsensitive(h: string, alpha: real, formatAlpha: real -> string)
    requires Convertible(h)
    ensures Convertible(AsciiLowerString(h))
    ensures HexToRgba(AsciiLowerString(h), alpha, formatAlpha) == HexToRgba(h, alpha, formatAlpha)
  {
    var t := StripHashes(h);
    var lt := StripHashes(AsciiLowerString(h));
    StripHashesLower(h);
    forall i | 0 <= i < |lt| && i < 6 ensures IsHexDigit(lt[i]) && HexDigitValue(lt[i]) == HexDigitValue(t[i]) {
      HexDigitValueLower(t[i]);
    }
    if |t| >= 5 {
      assert Components(AsciiLowerString(h)) == Components(h);
    }
  }

  lemma {:induction false} StripHashesAppend(h: string, x: string)
    requires StripHashes(h) != []
    ensures StripHashes(h + x) == StripHashes(h) + x
    decreases |h|
  {
    if h[0] == '#' {
      assert (h + x)[1..] == h[1..] + x;
      StripHashesAppend(h[1..], x);
    }
  }

  /** Characters after the sixth digit never affect the output. */
  lemma HexToRgbaIgnoresTail(h: string, x: string, alpha: real, formatAlpha: real -> string)
    requires Convertible(h) && |StripHashes(h)| >= 6
    ensures Convertible(h + x)
    ensures HexToRgba(h + x, alpha, formatAlpha) == HexToRgba(h, alpha, formatAlpha)
  {
    var t := StripHashes(h);
    StripHashesAppend(h, x);
    var tx := StripHashes(h + x);
    assert forall i :: 0 <= i < 6 ==> tx[i] == t[i];
    assert Components(h + x) == Components(h);
  }

  function HexDigitChar(d: nat): (c: char)
    requires d < 16
  {
    if d < 10 then ('0' as int + d) as char else ('a' as int + d - 10) as char
  }

  /** Two lower-case hex digits for a value below 256. */
  function Hex2(n: nat): (s: string)
    requires n < 256
  {
    [HexDigitChar(n / 16), HexDigitChar(n % 16)]
  }

  lemma HexDigitCharValue(c: char)
    requires IsHexDigit(c)
    ensures HexDigitChar(HexDigitValue(c)) == AsciiLower(c)
  {
  }

  lemma Hex2Pair(a: char, b: char)
    requires IsHexDigit(a) && IsHexDigit(b)
    ensures Hex2(16 * HexDigitValue(a) + HexDigitValue(b)) == [AsciiLower(a), AsciiLower(b)]
  {
    var n := 16 * HexDigitValue(a) + HexDigitValue(b);
    assert n / 16 == HexDigitValue(a) && n % 16 == HexDigitValue(b);
    HexDigitCharValue(a);
    HexDigitCharValue(b);
  }

  /** Writing the components back as two-digit hex gives the six input digits, lower-cased. */
  lemma HexRoundTrip(h: string)
    requires Convertible(h) && |StripHashes(h)| >= 6
    ensures var c := Components(h);
      c.r < 256 && c.g < 256 && c.b < 256
      && Hex2(c.r) + Hex2(c.g) + Hex2(c.b) == AsciiLowerString(StripHashes(h)[..6])
  {
    var t := StripHashes(h);
    Hex2Pair(t[0], t[1]);
    Hex2Pair(t[2], t[3]);
    Hex2Pair(t[4], t[5]);
  }

  /** With exactly five digits the call still succeeds: the blue value is the last digit alone. */
  lemma FiveDigitsAccepted(alpha: real, formatAlpha: real -> string)
    ensures Convertible("#fffff")
    ensures HexToRgba("#fffff", alpha, formatAlpha) == Success(RgbaText(Rgb(255, 255, 15), formatAlpha(alpha)))
  {
    assert StripHashes("#fffff") == "fffff" by {
      assert "#fffff"[1..] == "fffff";
    }
  }

  /** With four digits or fewer the call fails with ValueError. */
  lemma ShortInputFails(h: string, alpha: real, formatAlpha: real -> string)
    requires Convertible(h) && |StripHashes(h)| <= 4
    ensures HexToRgba(h, alpha, formatAlpha) == Failure(ValueError)
  {
  }
}
