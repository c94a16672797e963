# Image prompt API — a Dafny model of its request rules

The service accepts a form (aspect ratio, a palette of colours with opacity,
a theme, an art style, an optional text overlay and an optional reference
image) and answers with a JSON "prompt" document that describes an image for
an external generator. This project models, as pure Dafny functions with
proved contracts and lemmas, everything in it that decides something:

- `utils.dfy` (module `Utils`): `hex_to_rgba`. Every leading `#` is stripped,
  the slices `[0:2]`, `[2:4]` and `[4:6]` are read as base-16 numbers, and the
  result is the text `rgba(r,g,b,A)`. The model proves the following:
  - an empty slice gives `ValueError`, which happens with four digits or fewer;
  - the components are 0..255 and case does not matter;
  - characters after the sixth digit are ignored;
  - the components written back as hex give the digits, lower-cased;
  - the output reads back unambiguously to the components and `A`.
- `schemas.dfy` (module `Schemas`): `ColorWithAlpha` and `FormDataIn`, and
  what validation does. The hex pattern `^#([A-Fa-f0-9]{6})$` must match, and
  `0.0 <= alpha <= 1.0` must hold, both ends included. Validation fills in
  these defaults:
  - `alpha` 1.0;
  - `customTheme` and `text` `""`, but `null` stays `None`;
  - `referenceImageBase64` `None`.

  The model also proves that a validated colour always converts.
- `prompt_builder.dfy` (module `PromptBuilder`): `build_prompt`. It covers the
  custom-theme rule (`özel`/`ozel`/`custom` in any case) and the palette and
  background as rgba texts in input order. It covers when the text block is
  present and what it holds, and the fixed goal, constraints and output
  sections. A custom theme whose `customTheme` is `None` raises
  `AttributeError`; the model gives a `Failure` for it.
- `app.dfy` (module `App`): the rules in `main.py`:
  - `ALLOW_ORIGINS` parsing: comma split, strip, trailing-`/` removal, blank
    entries dropped, fallback to `["*"]`;
  - `WP_ORIGIN` normalisation and the referer guard;
  - the `data:` URL of an uploaded reference image, following RFC 2397, the
    "data" URL scheme;
  - the order of the checks in `/generate` and `/generate-json`.
- `pystr.dfy` (module `PyStr`): the Python string built-ins these rely on.
  These are `str.strip()` (with Python's exact whitespace set),
  `lstrip`/`rstrip` of one character, `split(",")`, slicing and `str(n)`.
  Each comes with the lemma that pins it down.
- `wrappers.dfy` (module `Wrappers`): `Option` and `Result`.

The inputs that come from outside are parameters:
- environment variables are `Option<string>` (`None` when unset);
- base64 encoding (section 4 of RFC 4648), `urlparse(...).netloc`, JSON
  decoding and the `{alpha:.2f}` formatting are function-typed parameters
  (`base64`, `netloc`, `decodeJson`, `formatAlpha`).

## Model

| member | source | states |
|---|---|---|
| `Utils.HexToRgba` | backend/app/utils.py:1-6 | Fails with ValueError exactly when fewer than five characters remain after the leading `#`s; otherwise the result is the rgba text of the colour's components, read digit pair by digit pair, and of the formatted alpha |
| `Utils.HexValue` | backend/app/utils.py:3-5 | The value of a one-digit slice is below 16, and that of a two-digit slice below 256 |
| `Utils.HexField` | backend/app/utils.py:3-5 | `int(t[i:i+2], 16)` fails exactly when the slice is empty (i past the end), and otherwise equals the component at i (two digits, or one at the end) |
| `Utils.StripHashesAll` | backend/app/utils.py:2 | `lstrip("#")` removes every leading `#`, not just one: only `#` characters go, and what remains does not start with `#` |
| `Utils.ComponentsOfSixDigits` | backend/app/utils.py:3-5 | With six digits, r, g and b are the base-16 values of characters 0-1, 2-3 and 4-5, each between 0 and 255 |
| `Utils.HexToRgbaCaseInsensitive` | backend/app/utils.py:3-5 | Lower-casing the input changes nothing in the result |
| `Utils.HexToRgbaIgnoresTail` | backend/app/utils.py:3-5 | Characters appended after the sixth digit never change the result |
| `Utils.HexRoundTrip` | backend/app/utils.py:3-5 | The components written back as two-digit hex give the six input digits lower-cased |
| `Utils.ParseRgbaRoundTrip` | backend/app/utils.py:6 | The text `rgba(r,g,b,A)` reads back to exactly r, g, b and A, so the format is `"rgba(" + dec(r) + "," + dec(g) + "," + dec(b) + "," + A + ")"` and unambiguous |
| `Utils.RgbaTextNoSpaces` | backend/app/utils.py:6 | The output holds no space apart from any inside the formatted alpha |
| `Utils.FiveDigitsAccepted` | backend/app/utils.py:2-6 | Five digits still convert: `#fffff` gives r=255, g=255, b=15 |
| `Utils.ShortInputFails` | backend/app/utils.py:3-5 | Four digits or fewer raise ValueError |
| `PyStr.LStripWhileSpec` | backend/app/utils.py:2 | Left-stripping a character class leaves a suffix that does not start with that class, and removes only characters of it |
| `PyStr.RStripWhileSpec` | backend/app/main.py:28 | Right-stripping a character class leaves a prefix that does not end with that class, and removes only characters of it |
| `PyStr.StripShape` | backend/app/prompt_builder.py:11 | `s.strip()` is the infix of s between its leading and trailing whitespace, and starts and ends with a non-space |
| `PyStr.StripEmptyIff` | backend/app/prompt_builder.py:11 | `s.strip()` is empty exactly when every character of s is whitespace |
| `PyStr.Split` | backend/app/main.py:29 | `s.split(",")` has at least one piece, no piece contains a comma, and joining the pieces with commas gives s back |
| `PyStr.SplitConcat` | backend/app/main.py:29 | Splitting `a + "," + b` gives the pieces of a followed by the pieces of b |
| `PyStr.SplitJoin` | backend/app/main.py:29 | Split undoes Join when no piece contains the separator |
| `PyStr.PySlice` | backend/app/utils.py:3-5 | `s[i:j]` has length clamped to the end of s and holds the characters of s from i on |
| `PyStr.Dec` | backend/app/utils.py:6 | `str(n)` is a non-empty string of decimal digits with no leading zero |
| `PyStr.DecRoundTrip` | backend/app/utils.py:6 | Reading `str(n)` back as a decimal numeral gives n |
| `Schemas.ColorIssues` | backend/app/schemas.py:4-6 | A colour is reported with no error exactly when its hex matches the pattern and its alpha is omitted or in [0.0, 1.0] |
| `Schemas.PaletteIssues` | backend/app/schemas.py:10 | The palette is reported with no error exactly when every colour in it is accepted |
| `Schemas.ValidateForm` | backend/app/schemas.py:8-19 | Validation succeeds exactly when every palette colour and the background colour are accepted, and then yields a valid form; a failure carries at least one error |
| `Schemas.ValidateFormFields` | backend/app/schemas.py:4-19 | An accepted form keeps the palette's length, order and hex values; an omitted alpha (palette or background) becomes 1.0 and a given one is kept; an omitted customTheme or text becomes "", null becomes None and a given value is kept; referenceImageBase64 is None when omitted or null and kept when given; the other fields are copied |
| `Schemas.EmptyPaletteAccepted` | backend/app/schemas.py:10 | A form with an empty primaryColors list is accepted |
| `Schemas.AlphaBounds` | backend/app/schemas.py:6 | alpha 0.0 and 1.0 are accepted, anything outside [0.0, 1.0] and null are not |
| `Schemas.ValidHexConverts` | backend/app/schemas.py:5 | Every hex the pattern accepts meets hex_to_rgba's requirement, leaves exactly six digits after stripping the `#`, and converts without error |
| `Schemas.HexPatternExamples` | backend/app/schemas.py:5 | `#` plus six hex digits of either case matches; seven digits, no `#`, a second `#` or a non-hex letter do not |
| `PromptBuilder.ColorText` | backend/app/prompt_builder.py:7-8 | A validated colour's rgba text is that of its components and formatted alpha |
| `PromptBuilder.BuildPrompt` | backend/app/prompt_builder.py:4-46 | Fails (AttributeError) exactly when the theme is a custom one and customTheme is None; otherwise the text block is present exactly when includeText holds and the text has a non-whitespace character, and include_text equals its presence |
| `PromptBuilder.ThemeRule` | backend/app/prompt_builder.py:5 | The theme is `customTheme.strip()` when `theme.lower()` is özel, ozel or custom, and the theme unchanged otherwise |
| `PromptBuilder.ThemeTestIgnoresCase` | backend/app/prompt_builder.py:5 | Lower-casing the theme first never changes whether it selects the custom theme, and only four- or six-character themes can |
| `PromptBuilder.CustomThemeNames` | backend/app/prompt_builder.py:5 | custom, Custom, CUSTOM, ozel, özel and ÖZEL select the custom theme; " custom", "customs" and "" do not |
| `PromptBuilder.PaletteRule` | backend/app/prompt_builder.py:7-8 | The palette has the length and order of primaryColors, entry i is exactly `hex_to_rgba` of colour i (which succeeds) and reads back to its components and formatted alpha; the background likewise |
| `PromptBuilder.TextBlockContents` | backend/app/prompt_builder.py:10-16 | A text block holds the stripped (non-empty) text, the font family and the fixed layout hint |
| `PromptBuilder.FixedSections` | backend/app/prompt_builder.py:18-45 | Goal, constraints and output are the same for any two inputs; image_url is the URL passed in; aspect_ratio and art_style are copied |
| `App.OriginEntries` | backend/app/main.py:27-31 | The comprehension yields at most one origin per entry |
| `App.OriginEntriesConcat` | backend/app/main.py:27-31 | The comprehension over two lists of entries is the concatenation of the two results: order is kept |
| `App.AllowOriginsConcat` | backend/app/main.py:27-31 | The setting `a,b` gives the origins of a followed by those of b |
| `App.AllowOriginsSingle` | backend/app/main.py:27-31 | An entry without comma gives nothing when blank after stripping, and otherwise itself stripped and with its trailing `/` removed |
| `App.OriginOfShape` | backend/app/main.py:28 | A normalised entry has no comma, no leading whitespace and no trailing `/` |
| `App.OriginEntriesShape` | backend/app/main.py:27-31 | Every origin in the list has no comma, no leading whitespace and no trailing `/` |
| `App.AllowOriginsShape` | backend/app/main.py:27-31 | The same holds for every origin read from any setting |
| `App.SlashOnlyEntrySurvives` | backend/app/main.py:27-31 | The blank test comes before the `/` removal, so `///` gives the single origin "" |
| `App.DefaultOrigins` | backend/app/main.py:27-41 | Unset, the setting defaults to `*` and gives `["*"]` |
| `App.EmptyOriginsIffBlank` | backend/app/main.py:27-41 | A setting gives no origin exactly when it holds nothing but commas and whitespace, and the middleware then gets `["*"]` |
| `App.TwoEntriesExample` | backend/app/main.py:27-31 | `" x/ ,y//"` gives `["x", "y"]` |
| `App.CorsOrigins` | backend/app/main.py:41 | The middleware's list is never empty: the parsed list when that is non-empty, exactly `["*"]` when it is empty |
| `App.WpOrigin` | backend/app/main.py:32 | WP_ORIGIN is the setting ("" when unset) with its trailing `/` removed, and does not end with `/` |
| `App.CheckReferer` | backend/app/main.py:50-60 | The request passes exactly when WP_ORIGIN is empty or the referer is present and the netlocs of both parse and are equal; a missing or empty referer gives 403 "Missing Referer", a netloc that `urlparse` rejects gives 500, and different netlocs give 403 "Bad Referer" |
| `App.GuardOffWithoutWpOrigin` | backend/app/main.py:50-56 | With WP_ORIGIN unset or empty every referer passes |
| `App.UploadMime` | backend/app/main.py:95 | The declared content type when it is non-empty, "image/png" otherwise |
| `App.ReferenceUrl` | backend/app/main.py:86-96 | There is a reference URL exactly when a file was uploaded |
| `App.ParseDataUrlOf` | backend/app/main.py:96 | A `data:<mime>;base64,<data>` URL with no comma in mime reads back to mime and data |
| `App.ReferenceUrlRoundTrip` | backend/app/main.py:86-96 | For an upload whose declared (or default) content type has no comma, the reference URL is a base64 data URL that reads back to that content type and the encoding of the uploaded bytes |
| `App.GeneratePrompt` | backend/app/main.py:69-99 | A failed referer check is the answer whatever else is sent; after it, a missing or empty json_data gives 400, undecodable JSON gives 422 `json_invalid`, rejected fields give 422 with their errors, and a valid payload gets `build_prompt(payload, ref_url)` (500 when that raises); a prompt's image_url is the upload's data URL |
| `App.JsonDataCheckedFirst` | backend/app/main.py:78-79 | Once the referer check has passed, a missing or empty json_data gives 400 before any decoding: the result is the same whatever the decoder |
| `App.GeneratePromptJson` | backend/app/main.py:101-110 | The body is validated before the referer check (undecodable or rejected bodies give 422 whatever the referer); a valid body that fails the check gets the check's error; a valid body that passes gets `build_prompt(payload, referenceImageBase64)` (500 when that raises) |

## Left out

- `Utils.HexToRgba`: requires the first six characters after the `#`s to be ASCII hex digits. On other slices Python's `int(..., 16)` has further rules: it accepts signs, surrounding whitespace, underscores between digits and non-ASCII decimal digits (such as fullwidth `１`), and raises ValueError on the rest. The pattern check rules all of those inputs out, so they are not modelled.
- `{alpha:.2f}` is floating-point formatting with round-half-even on binary doubles. It is the parameter `formatAlpha`, and alpha is a `real`, so NaN, infinities and float rounding are not modelled.
- `str.lower()` in the theme test is modelled only on A-Z and `Ö`. These are the only characters whose lower case is a letter of "özel", "ozel" or "custom", so the membership test is exact. Other characters are not lower-cased.
- JSON decoding (`model_validate_json` and FastAPI's body parsing) is the parameter `decodeJson`, or an already decoded `RawForm`. Malformed JSON gives a single `json_invalid` error. Type coercion and missing required fields are not modelled: a `RawForm` has them typed and present.
- Validation errors keep pydantic's error kinds, field paths and order, as `model_validate_json` reports them in `/generate`. Their messages and context are not modelled, and list indices in paths are decimal strings. In `/generate-json` FastAPI puts `"body"` in front of every path, and a missing body gives a `missing` error rather than `json_invalid`. Neither is modelled: the model gives the same error list as for `/generate`.
- `base64.b64encode` and `urlparse(...).netloc` are the parameters `base64` and `netloc`. `netloc` gives `None` where `urlparse` raises ValueError, for example on an unbalanced `[` such as `http://[::1`. Reading the upload (`await reference_image.read()`) gives the `content` bytes.
- `App.ReferenceUrlRoundTrip`: holds only for content types without a comma. main.py:95 takes the declared type as it is, and a type such as `image/png; name="a,b"` has a comma. In a data URL (RFC 2397) the first comma ends the media type, so such a URL does not read back to the declared type. For those uploads only the definition of `ReferenceUrl` gives the URL text.
- `Image.open` (main.py:90-93) is not modelled: its result and any exception are discarded.
- `os.getenv` reads are parameters. The FastAPI app, route registration, the CORS options other than the origin list, the `/health` endpoint and the response model are framework set-up with no rule to model.
- An exception raised inside an endpoint is modelled as `HttpError(500, "Internal Server Error")`. Two such exceptions are modelled: `ValueError` from `urlparse` in the referer guard, and `AttributeError` from a custom theme with a null `customTheme`. Failures inside the framework or the upload stream are not modelled.

