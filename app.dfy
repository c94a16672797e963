/**
 * The rules of the HTTP layer: the allowed CORS origins read from the
 * ALLOW_ORIGINS setting, the WP_ORIGIN setting and the referer guard built on
 * it, the data URL made from an uploaded reference image, and the order of
 * the checks in the two prompt endpoints. Environment variables are given as
 * parameters (None when unset); base64 encoding, URL network-location
 * extraction, JSON decoding and alpha formatting are function parameters.
 */
module App {
  import opened Wrappers
  import opened PyStr
  import opened Schemas
  import opened PromptBuilder

  // ---------------------------------------------------------------------
  // Configuration

  /** What one ALLOW_ORIGINS entry contributes: nothing when blank, else the entry stripped of whitespace and then of trailing '/'. */
  function OriginOf(entry: string): seq<string> {
    if Strip(entry) != [] then [RStripSlashes(Strip(entry))] else []
  }

  /** The list comprehension over the comma-separated entries: blank ones dropped, the others normalised, in order. */
  function OriginEntries(entries: seq<string>): (origins: seq<string>)
    ensures |origins| <= |entries|
  {
    if entries == [] then [] else OriginOf(entries[0]) + OriginEntries(entries[1..])
  }

  /** ALLOW_ORIGINS: the setting (default "*") split on ',' and normalised entry by entry. */
  function AllowOrigins(setting: Option<string>): seq<string> {
    OriginEntries(Split(if setting.Some? then setting.value else "*", ','))
  }

  /** allow_origins=ALLOW_ORIGINS or ["*"]: an empty list falls back to every origin. */
  function CorsOrigins(setting: Option<string>): (origins: seq<string>)
    ensures origins != []
    ensures AllowOrigins(setting) != [] ==> origins == AllowOrigins(setting)
    ensures AllowOrigins(setting) == [] ==> origins == ["*"]
  {
    var o := AllowOrigins(setting);
    if o == [] then ["*"] else o
  }

  /** WP_ORIGIN: the setting (default "") with every trailing '/' removed. */
  function WpOrigin(setting: Option<string>): (origin: string)
    ensures var s := if setting.Some? then setting.value else "";
      |origin| <= |s| && s[..|origin|] == origin
      && (forall i :: |origin| <= i < |s| ==> s[i] == '/')
      && (origin != [] ==> origin[|origin| - 1] != '/')
  {
    RStripWhileSpec(if setting.Some? then setting.value else "", IsSlash);
    RStripSlashes(if setting.Some? then setting.value else "")
  }

  lemma {:induction false} OriginEntriesConcat(x: seq<string>, y: seq<string>)
    ensures OriginEntries(x + y) == OriginEntries(x) + OriginEntries(y)
    decreases |x|
  {
    if x == [] {
      assert x + y == y;
    } else {
      assert (x + y)[0] == x[0];
      assert (x + y)[1..] == x[1..] + y;
      OriginEntriesConcat(x[1..], y);
      assert OriginEntries(x + y) == OriginOf(x[0]) + OriginEntries(x[1..] + y);
    }
  }

  /** Entries keep their order: the setting a,b gives the origins of a followed by those of b. */
  lemma AllowOriginsConcat(a: string, b: string)
    ensures AllowOrigins(Some(a + "," + b)) == AllowOrigins(Some(a)) + AllowOrigins(Some(b))
  {
    SplitConcat(a, b, ',');
    OriginEntriesConcat(Split(a, ','), Split(b, ','));
  }

  /** A single entry gives nothing when it is blank, and otherwise itself stripped and without trailing '/'. */
  lemma AllowOriginsSingle(e: string)
    requires ',' !in e
    ensures AllowOrigins(Some(e)) == if Strip(e) == [] then [] else [RStripSlashes(Strip(e))]
  {
    NoSepSplit(e, ',');
  }

  /** The origin an entry gives has no comma if the entry had none, and has no leading space and no trailing '/'. */
  predicate WellFormedOrigin(o: string) {
    ',' !in o && (o != [] ==> !IsSpace(o[0]) && o[|o| - 1] != '/')
  }

  lemma OriginOfShape(e: string)
    requires ',' !in e
    ensures forall i :: 0 <= i < |OriginOf(e)| ==> WellFormedOrigin(OriginOf(e)[i])
  {
    if Strip(e) != [] {
      StripShape(e);
      var st := Strip(e);
      var n := RStripSlashes(st);
      RStripWhileSpec(st, IsSlash);
      assert n == st[..|n|];
      assert forall k :: 0 <= k < |n| ==> n[k] == e[StripStart(e) + k];
      if n != [] {
        assert n[0] == st[0];
      }
    }
  }

  /** Every origin is an entry with its surrounding whitespace and its trailing '/' removed. */
  lemma {:induction false} OriginEntriesShape(entries: seq<string>)
    requires forall i :: 0 <= i < |entries| ==> ',' !in entries[i]
    ensures forall i :: 0 <= i < |OriginEntries(entries)| ==> WellFormedOrigin(OriginEntries(entries)[i])
    decreases |entries|
  {
    if entries != [] {
      var o := OriginEntries(entries);
      var h := OriginOf(entries[0]);
      var t := OriginEntries(entries[1..]);
      assert o == h + t;
      OriginEntriesShape(entries[1..]);
      OriginOfShape(entries[0]);
      forall i | 0 <= i < |o| ensures WellFormedOrigin(o[i]) {
        if i < |h| {
          assert o[i] == h[i];
          assert WellFormedOrigin(h[i]);
        } else {
          assert o[i] == t[i - |h|];
          assert WellFormedOrigin(t[i - |h|]);
        }
      }
    }
  }

  lemma AllowOriginsShape(setting: Option<string>)
    ensures forall i :: 0 <= i < |AllowOrigins(setting)| ==> WellFormedOrigin(AllowOrigins(setting)[i])
  {
    OriginEntriesShape(Split(if setting.Some? then setting.value else "*", ','));
  }

  /** A string of slashes alone loses them all to rstrip("/"). */
  lemma OnlySlashesStripToEmpty(e: string)
    requires forall i :: 0 <= i < |e| ==> e[i] == '/'
    ensures RStripSlashes(e) == []
  {
    RStripWhileSpec(e, IsSlash);
  }

  /**
   * Blank entries are tested before the '/' removal, so an entry made of
   * slashes survives as the empty origin.
   */
  lemma SlashOnlyEntrySurvives()
    ensures AllowOrigins(Some("///")) == [""] && CorsOrigins(Some("///")) == [""]
  {
    AllowOriginsSingle("///");
    StripShape("///");
    assert Strip("///") == "///";
    OnlySlashesStripToEmpty("///");
  }

  /** Left unset, the setting "*" gives ["*"]. */
  lemma DefaultOrigins()
    ensures AllowOrigins(None) == ["*"] && CorsOrigins(None) == ["*"]
  {
    AllowOriginsSingle("*");
    StripShape("*");
    assert Strip("*") == "*";
    RStripWhileSpec("*", IsSlash);
  }

  /**
   * The parsed list is empty exactly when the setting holds nothing but commas
   * and whitespace; the middleware then falls back to ["*"].
   */
  lemma EmptyOriginsIffBlank(setting: string)
    ensures AllowOrigins(Some(setting)) == [] <==> forall i :: 0 <= i < |setting| ==> setting[i] == ',' || IsSpace(setting[i])
    ensures AllowOrigins(Some(setting)) == [] ==> CorsOrigins(Some(setting)) == ["*"]
  {
    var parts := Split(setting, ',');
    if forall i :: 0 <= i < |setting| ==> setting[i] == ',' || IsSpace(setting[i]) {
      forall j | 0 <= j < |parts| ensures OriginOf(parts[j]) == [] {
        JoinContains(parts, ',', j);
        forall k | 0 <= k < |parts[j]| ensures IsSpace(parts[j][k]) {
          assert parts[j][k] in setting;
        }
        StripEmptyIff(parts[j]);
      }
      NoOrigins(parts);
    }
    if AllowOrigins(Some(setting)) == [] {
      OriginEntriesEmpty(parts);
      forall i | 0 <= i < |setting| ensures setting[i] == ',' || IsSpace(setting[i]) {
        JoinMembers(parts, ',', i);
        if setting[i] != ',' {
          var j :| 0 <= j < |parts| && setting[i] in parts[j];
          StripEmptyIff(parts[j]);
          var k :| 0 <= k < |parts[j]| && parts[j][k] == setting[i];
        }
      }
    }
  }

  /** When no entry contributes an origin, no single entry does. */
  lemma {:induction false} OriginEntriesEmpty(entries: seq<string>)
    requires OriginEntries(entries) == []
    ensures forall j :: 0 <= j < |entries| ==> OriginOf(entries[j]) == []
    decreases |entries|
  {
    if entries != [] {
      assert OriginOf(entries[0]) + OriginEntries(entries[1..]) == [];
      OriginEntriesEmpty(entries[1..]);
      forall j | 0 <= j < |entries| ensures OriginOf(entries[j]) == [] {
        if j > 0 {
          assert entries[j] == entries[1..][j - 1];
        }
      }
    }
  }

  lemma {:induction false} NoOrigins(entries: seq<string>)
    requires forall j :: 0 <= j < |entries| ==> OriginOf(entries[j]) == []
    ensures OriginEntries(entries) == []
    decreases |entries|
  {
    if entries != [] {
      NoOrigins(entries[1..]);
    }
  }

  lemma PaddedEntryExample()
    ensures AllowOrigins(Some(" x/ ")) == ["x"]
  {
    AllowOriginsSingle(" x/ ");
    StripShape(" x/ ");
    assert Strip(" x/ ") == "x/";
    RStripWhileSpec("x/", IsSlash);
    assert RStripSlashes("x/") == "x";
  }

  lemma DoubleSlashEntryExample()
    ensures AllowOrigins(Some("y//")) == ["y"]
  {
    AllowOriginsSingle("y//");
    StripShape("y//");
    assert Strip("y//") == "y//";
    RStripWhileSpec("y//", IsSlash);
  }

  /** Each entry is stripped and loses its trailing slashes, in order. */
  lemma TwoEntriesExample()
    ensures AllowOrigins(Some(" x/ ,y//")) == ["x", "y"]
  {
    assert " x/ ,y//" == " x/ " + "," + "y//";
    AllowOriginsConcat(" x/ ", "y//");
    PaddedEntryExample();
    DoubleSlashEntryExample();
  }

  // ---------------------------------------------------------------------
  // Guard

  /** An HTTP error response: a status with a detail text, or 422 with the validation errors. */
  datatype HttpError = HttpError(status: nat, detail: string) | ValidationFailed(issues: seq<Issue>)

  /** `not referer` is false: the header is there and not empty. */
  predicate Present(referer: Option<string>) {
    referer.Some? && referer.value != []
  }

  /** The answer to an exception the handler does not catch. */
  const InternalError: HttpError := HttpError(500, "Internal Server Error")

  /**
   * _check_referer. With no WP_ORIGIN every request passes; otherwise a
   * missing or empty referer gets 403 "Missing Referer". Then the network
   * locations of the referer and of WP_ORIGIN are compared, the referer's
   * taken first; netloc gives None where urlparse raises ValueError (an
   * unbalanced '[' or ']' in the network location), which the endpoint
   * answers with 500. Different network locations get 403 "Bad Referer".
   */
  function CheckReferer(wpOrigin: string, referer: Option<string>, netloc: string -> Option<string>)
    : (res: Result<(), HttpError>)
    ensures res.Success? <==>
      wpOrigin == []
      || (Present(referer) && netloc(referer.value).Some? && netloc(wpOrigin).Some?
          && netloc(referer.value).value == netloc(wpOrigin).value)
    ensures (wpOrigin != [] && !Present(referer)) ==> res == Failure(HttpError(403, "Missing Referer"))
    ensures (wpOrigin != [] && Present(referer) && (netloc(referer.value).None? || netloc(wpOrigin).None?))
      ==> res == Failure(InternalError)
    ensures (wpOrigin != [] && Present(referer) && netloc(referer.value).Some? && netloc(wpOrigin).Some?
             && netloc(referer.value).value != netloc(wpOrigin).value)
      ==> res == Failure(HttpError(403, "Bad Referer"))
  {
    if wpOrigin == [] then Success(())
    else if !Present(referer) then Failure(HttpError(403, "Missing Referer"))
    else
      match netloc(referer.value)
      case None => Failure(InternalError)
      case Some(r) =>
        match netloc(wpOrigin)
        case None => Failure(InternalError)
        case Some(w) => if r != w then Failure(HttpError(403, "Bad Referer")) else Success(())
  }

  // ---------------------------------------------------------------------
  // Reference image

  newtype byte = x: int | 0 <= x < 256

  /** An uploaded file: its bytes and the content type it was declared with, if any. */
  datatype Upload = Upload(content: seq<byte>, contentType: Option<string>)

  /** reference_image.content_type or "image/png". */
  function UploadMime(u: Upload): (mime: string)
    ensures mime != []
    ensures u.contentType.Some? && u.contentType.value != [] ==> mime == u.contentType.value
    ensures u.contentType.None? || u.contentType.value == [] ==> mime == "image/png"
  {
    if u.contentType.Some? && u.contentType.value != [] then u.contentType.value else "image/png"
  }

  /** ref_url: None without an upload, otherwise f"data:{mime};base64,{b64}". */
  function ReferenceUrl(upload: Option<Upload>, base64: seq<byte> -> string): (url: Option<string>)
    ensures url.None? <==> upload.None?
  {
    if upload.None? then None
    else Some("data:" + UploadMime(upload.value) + ";base64," + base64(upload.value.content))
  }

  /** Reads a data URL of the form data:<mime>;base64,<data> back into its media type and its data. */
  function ParseDataUrl(s: string): Option<(string, string)> {
    if |s| < 5 || s[..5] != "data:" then None
    else
      var rest := s[5..];
      var k := IndexOf(rest, ',');
      if k < 7 || rest[k - 7..k] != ";base64" then None
      else Some((rest[..k - 7], rest[k + 1..]))
  }

  /** A data URL whose media type has no comma reads back to that media type and its data. */
  lemma ParseDataUrlOf(mime: string, data: string)
    requires ',' !in mime
    ensures ParseDataUrl("data:" + mime + ";base64," + data) == Some((mime, data))
  {
    var header := mime + ";base64";
    var rest := header + "," + data;
    var s := "data:" + mime + ";base64," + data;
    assert s == "data:" + rest;
    assert s[..5] == "data:" && s[5..] == rest;
    assert ',' !in header by {
      assert forall i :: 0 <= i < |header| - 7 ==> header[i] == mime[i];
      assert header[|header| - 7..] == ";base64";
    }
    IndexOfAfter(header, ',', data);
    assert rest[..|header|] == header;
    assert rest[|header| - 7..|header|] == ";base64";
    assert rest[..|header| - 7] == mime;
    assert rest[|header| + 1..] == data;
  }

  /**
   * The reference URL is a base64 data URL that reads back to the declared
   * content type ("image/png" when missing or empty) and the encoded bytes,
   * whenever that content type has no comma.
   */
  lemma ReferenceUrlRoundTrip(u: Upload, base64: seq<byte> -> string)
    requires ',' !in UploadMime(u)
    ensures ParseDataUrl(ReferenceUrl(Some(u), base64).value) == Some((UploadMime(u), base64(u.content)))
  {
    ParseDataUrlOf(UploadMime(u), base64(u.content));
  }

  // ---------------------------------------------------------------------
  // Endpoints

  /** The referer guard passed and json_data is there and not empty: the request reaches decoding. */
  predicate Admitted(wpOrigin: string, referer: Option<string>, jsonData: Option<string>, netloc: string -> Option<string>) {
    CheckReferer(wpOrigin, referer, netloc).Success? && jsonData.Some? && jsonData.value != []
  }

  /**
   * POST /generate: the referer guard first, then 400 when json_data is
   * missing or empty, then decoding (malformed JSON and rejected fields give
   * 422), then the prompt with the reference URL of the upload. An exception
   * the handler does not catch (ValueError from urlparse in the guard,
   * AttributeError while building) is a 500.
   */
  function GeneratePrompt(
    wpOrigin: string, referer: Option<string>, jsonData: Option<string>, upload: Option<Upload>,
    decodeJson: string -> Option<RawForm>, base64: seq<byte> -> string,
    netloc: string -> Option<string>, formatAlpha: real -> string): (res: Result<Prompt, HttpError>)
    ensures CheckReferer(wpOrigin, referer, netloc).Failure? ==> res == Failure(CheckReferer(wpOrigin, referer, netloc).error)
    ensures res.Success? ==>
      Admitted(wpOrigin, referer, jsonData, netloc)
      && res.value.references.imageUrl == ReferenceUrl(upload, base64)
    ensures (CheckReferer(wpOrigin, referer, netloc).Success? && (jsonData.None? || jsonData.value == []))
      ==> res == Failure(HttpError(400, "json_data (Form field) gerekli"))
    ensures (Admitted(wpOrigin, referer, jsonData, netloc) && decodeJson(jsonData.value).None?)
      ==> res == Failure(ValidationFailed([JsonInvalid]))
    ensures (Admitted(wpOrigin, referer, jsonData, netloc) && decodeJson(jsonData.value).Some?
             && ValidateForm(decodeJson(jsonData.value).value).Failure?)
      ==> res == Failure(ValidationFailed(ValidateForm(decodeJson(jsonData.value).value).error))
    ensures (Admitted(wpOrigin, referer, jsonData, netloc) && decodeJson(jsonData.value).Some?
             && ValidateForm(decodeJson(jsonData.value).value).Success?)
      ==> var built := BuildPrompt(ValidateForm(decodeJson(jsonData.value).value).value, ReferenceUrl(upload, base64), formatAlpha);
          res == if built.Success? then Success(built.value) else Failure(InternalError)
  {
    var guard := CheckReferer(wpOrigin, referer, netloc);
    if guard.Failure? then Failure(guard.error)
    else if jsonData.None? || jsonData.value == [] then Failure(HttpError(400, "json_data (Form field) gerekli"))
    else
      match decodeJson(jsonData.value)
      case None => Failure(ValidationFailed([JsonInvalid]))
      case Some(raw) =>
        match ValidateForm(raw)
        case Failure(issues) => Failure(ValidationFailed(issues))
        case Success(payload) =>
          match BuildPrompt(payload, ReferenceUrl(upload, base64), formatAlpha)
          case Failure(_) => Failure(InternalError)
          case Success(p) => Success(p)
  }

  /** A missing or empty json_data is answered with 400 before any decoding: the decoder plays no part. */
  lemma JsonDataCheckedFirst(
    wpOrigin: string, referer: Option<string>, jsonData: Option<string>, upload: Option<Upload>,
    decode1: string -> Option<RawForm>, decode2: string -> Option<RawForm>, base64: seq<byte> -> string,
    netloc: string -> Option<string>, formatAlpha: real -> string)
    requires CheckReferer(wpOrigin, referer, netloc).Success?
    requires jsonData.None? || jsonData.value == []
    ensures GeneratePrompt(wpOrigin, referer, jsonData, upload, decode1, base64, netloc, formatAlpha)
         == GeneratePrompt(wpOrigin, referer, jsonData, upload, decode2, base64, netloc, formatAlpha)
         == Failure(HttpError(400, "json_data (Form field) gerekli"))
  {
  }

  /**
   * POST /generate-json: the body is decoded and validated before the handler
   * runs, so a rejected body gives 422 whatever the referer; then the guard,
   * then the prompt with referenceImageBase64 as the reference URL.
   */
  function GeneratePromptJson(
    wpOrigin: string, referer: Option<string>, body: Option<RawForm>,
    netloc: string -> Option<string>, formatAlpha: real -> string): (res: Result<Prompt, HttpError>)
    ensures body.None? ==> res == Failure(ValidationFailed([JsonInvalid]))
    ensures body.Some? && ValidateForm(body.value).Failure? ==>
      res == Failure(ValidationFailed(ValidateForm(body.value).error))
    ensures res.Success? ==>
      body.Some? && ValidateForm(body.value).Success?
      && CheckReferer(wpOrigin, referer, netloc).Success?
      && res.value.references.imageUrl == ValidateForm(body.value).value.referenceImageBase64
    ensures (body.Some? && ValidateForm(body.value).Success? && CheckReferer(wpOrigin, referer, netloc).Failure?)
      ==> res == Failure(CheckReferer(wpOrigin, referer, netloc).error)
    ensures (body.Some? && ValidateForm(body.value).Success? && CheckReferer(wpOrigin, referer, netloc).Success?)
      ==> var payload := ValidateForm(body.value).value;
      var built := BuildPrompt(payload, payload.referenceImageBase64, formatAlpha);
      res == if built.Success? then Success(built.value) else Failure(InternalError)
  {
    match body
    case None => Failure(ValidationFailed([JsonInvalid]))
    case Some(raw) =>
      match ValidateForm(raw)
      case Failure(issues) => Failure(ValidationFailed(issues))
      case Success(payload) =>
        var guard := CheckReferer(wpOrigin, referer, netloc);
        if guard.Failure? then Failure(guard.error)
        else
          match BuildPrompt(payload, payload.referenceImageBase64, formatAlpha)
          case Failure(_) => Failure(InternalError)
          case Success(p) => Success(p)
  }

  /** With WP_ORIGIN unset or empty, the guard lets every request through whatever its referer. */
  lemma GuardOffWithoutWpOrigin(referer: Option<string>, netloc: string -> Option<string>)
    ensures CheckReferer(WpOrigin(None), referer, netloc).Success?
    ensures CheckReferer(WpOrigin(Some("")), referer, netloc).Success?
  {
  }
}
