/**
 * The parts of `POST /process-image` that are logic rather than calls to
 * OCR, the text-generation service or the database: the checks made before
 * the upload is read, the check on the OCR text, and the clean-up of the
 * markdown code fence around the generated reply.
 */
module Upload {
  import opened Wrappers
  import opened Http
  import opened PyStr

  const ApiKeyMissing := "Gemini API key not configured. Please set GEMINI_API_KEY environment variable."
  const NotAnImage := "File must be an image"
  const NoText := "No text could be extracted from the image. Please ensure the image contains clear text."
  const ImagePrefix := "image/"

  // ---------------------------------------------------------------------
  // Checks before the upload is read
  // ---------------------------------------------------------------------

  /**
   * The guards of the endpoint. `apiKey` is the `GEMINI_API_KEY` setting
   * (empty when unset); `contentType` is the upload's declared type, if any.
   * `None` means the request goes on to OCR.
   */
  function CheckRequest(apiKey: string, contentType: Option<string>): (r: Option<HttpError>)
    ensures apiKey == "" ==> r == Some(HttpError(ServerError, ApiKeyMissing))
    ensures apiKey != "" ==> (r.None? <==> contentType.Some? && StartsWith(contentType.value, ImagePrefix))
    ensures apiKey != "" && r.Some? ==> r.value == HttpError(BadRequest, NotAnImage)
  {
    if apiKey == "" then
      Some(HttpError(ServerError, ApiKeyMissing))
    else if contentType.None? || !StartsWith(contentType.value, ImagePrefix) then
      Some(HttpError(BadRequest, NotAnImage))
    else
      None
  }

  /** A missing API key is reported whatever the upload is: the content type is never examined. */
  lemma ApiKeyCheckedFirst(ct1: Option<string>, ct2: Option<string>)
    ensures CheckRequest("", ct1) == CheckRequest("", ct2)
    ensures CheckRequest("", ct1).value.code == ServerError
  {
  }

  // ---------------------------------------------------------------------
  // Check on the OCR text
  // ---------------------------------------------------------------------

  /**
   * What the client receives when a step inside the endpoint's `try` raises
   * `e`: the `except Exception` clause turns it into a 500 whose detail
   * embeds `str(e)`, which for an `HTTPException` is "<code>: <detail>".
   */
  function Rewrapped(e: HttpError): (r: HttpError)
    requires e.code == BadRequest
    ensures r.code == ServerError
  {
    HttpError(ServerError, "Error processing image: 400: " + e.detail)
  }

  /** The empty-text check as written: its 400 is raised inside the `try` and comes out as a 500. */
  function CheckOcrTextAsWritten(extracted: string): (r: Option<HttpError>)
    ensures r.Some? <==> Strip(extracted) == ""
    ensures r.Some? ==> r.value == Rewrapped(HttpError(BadRequest, NoText))
  {
    if Strip(extracted) == "" then Some(Rewrapped(HttpError(BadRequest, NoText))) else None
  }

  /** A blank OCR result is answered with a server error, not the bad-input error the check raises. */
  lemma BlankTextIsServerError()
    ensures CheckOcrTextAsWritten(" \n").Some?
    ensures CheckOcrTextAsWritten(" \n").value.code == ServerError
  {
    var blank := " \n";
    assert IsSpace(blank[0]) && IsSpace(blank[1]);
    StripEmptyIffBlank(blank);
  }

  /** The empty-text check as intended: a 400 that reaches the client unchanged. */
  function CheckOcrText(extracted: string): (r: Option<HttpError>)
    ensures r.Some? <==> forall i :: 0 <= i < |extracted| ==> IsSpace(extracted[i])
    ensures r.Some? ==> r.value == HttpError(BadRequest, NoText)
  {
    var s := Strip(extracted);
    StripEmptyIffBlank(extracted);
    if s == "" then Some(HttpError(BadRequest, NoText)) else None
  }

  /**
   * The errors the endpoint is meant to report before any call to the
   * text-generation service, in the order it checks for them, with the OCR
   * check as intended (`CheckOcrText`).
   */
  function CheckBeforeGeneration(apiKey: string, contentType: Option<string>, extracted: string)
    : (r: Option<HttpError>)
    ensures CheckRequest(apiKey, contentType).Some? ==> r == CheckRequest(apiKey, contentType)
    ensures CheckRequest(apiKey, contentType).None? ==> r == CheckOcrText(extracted)
    ensures r.None? <==>
      apiKey != "" && contentType.Some? && StartsWith(contentType.value, ImagePrefix)
      && exists i :: 0 <= i < |extracted| && !IsSpace(extracted[i])
    ensures r.Some? ==> r.value.code in {BadRequest, ServerError}
  {
    match CheckRequest(apiKey, contentType)
    case Some(e) => Some(e)
    case None => CheckOcrText(extracted)
  }

  /** The same checks as the endpoint is written: a blank OCR text comes out as the rewrapped 500. */
  function CheckBeforeGenerationAsWritten(apiKey: string, contentType: Option<string>, extracted: string)
    : (r: Option<HttpError>)
    ensures CheckRequest(apiKey, contentType).Some? ==> r == CheckRequest(apiKey, contentType)
    ensures CheckRequest(apiKey, contentType).None? ==> r == CheckOcrTextAsWritten(extracted)
    ensures r.Some? && r.value.code == BadRequest ==> r == Some(HttpError(BadRequest, NotAnImage))
  {
    match CheckRequest(apiKey, contentType)
    case Some(e) => Some(e)
    case None => CheckOcrTextAsWritten(extracted)
  }

  // ---------------------------------------------------------------------
  // Stripping the markdown fence from the generated reply
  // ---------------------------------------------------------------------

  const JsonFence := "```json"
  const Fence := "```"

  /** `r` is a contiguous piece of `s`. */
  ghost predicate IsSlice(r: string, s: string) {
    exists i, j :: 0 <= i <= j <= |s| && r == s[i..j]
  }

  lemma {:induction false} SliceOfSlice(a: string, b: string, c: string)
    requires IsSlice(a, b) && IsSlice(b, c)
    ensures IsSlice(a, c)
  {
    var i1, j1 :| 0 <= i1 <= j1 <= |b| && a == b[i1..j1];
    var i2, j2 :| 0 <= i2 <= j2 <= |c| && b == c[i2..j2];
    assert |a| == j1 - i1;
    forall k | 0 <= k < |a|
      ensures a[k] == c[i2 + i1 + k]
    {
      assert a[k] == b[i1 + k];
    }
    assert a == c[i2 + i1..i2 + j1];
  }

  lemma StripIsSlice(s: string)
    ensures IsSlice(Strip(s), s)
  {
    var r := Strip(s);
    var lo :| 0 <= lo <= |s| - |r| && IsStripAt(r, s, lo);
    assert r == s[lo..lo + |r|];
  }

  /** `s[len(prefix):]` when `s.startswith(prefix)`, else `s`. */
  function DropPrefix(s: string, prefix: string): (r: string)
    ensures IsSlice(r, s) && |r| <= |s|
    ensures StartsWith(s, prefix) ==> s == prefix + r
    ensures !StartsWith(s, prefix) ==> r == s
  {
    var r := if StartsWith(s, prefix) then s[|prefix|..] else s;
    assert r == s[|s| - |r|..|s|];
    r
  }

  /** `s[:-len(suffix)]` when `s.endswith(suffix)`, else `s`. */
  function DropSuffix(s: string, suffix: string): (r: string)
    ensures IsSlice(r, s) && |r| <= |s|
    ensures EndsWith(s, suffix) ==> s == r + suffix
    ensures !EndsWith(s, suffix) ==> r == s
  {
    var r := if EndsWith(s, suffix) then s[..|s| - |suffix|] else s;
    assert r == s[0..|r|];
    r
  }

  /**
   * The clean-up of the reply before it is parsed as JSON: strip, drop a
   * "```json" opening, drop a "```" opening, drop a "```" closing, strip.
   */
  function StripFences(reply: string): (r: string)
    ensures IsSlice(r, reply)
    ensures |r| <= |reply|
  {
    var s0 := Strip(reply);
    var s1 := DropPrefix(s0, JsonFence);
    var s2 := DropPrefix(s1, Fence);
    var s3 := DropSuffix(s2, Fence);
    var r := Strip(s3);
    StripIsSlice(reply);
    StripIsSlice(s3);
    SliceOfSlice(s1, s0, reply);
    SliceOfSlice(s2, s1, reply);
    SliceOfSlice(s3, s2, reply);
    SliceOfSlice(r, s3, reply);
    r
  }

  /** A string with no whitespace at either end is its own strip. */
  lemma StripOfStripped(x: string)
    requires x != [] ==> !IsSpace(x[0]) && !IsSpace(x[|x| - 1])
    ensures Strip(x) == x
  {
    assert IsStripAt(x, x, 0) by {
      assert x[0..|x|] == x;
    }
    StripUnique(Strip(x), x, x);
  }

  /** Dropping the opening "```json" of a fenced block leaves its body and the closing fence. */
  lemma DropJsonOpening(x: string)
    ensures DropPrefix(JsonFence + x + Fence, JsonFence) == x + Fence
  {
    var reply := JsonFence + x + Fence;
    assert reply[..|JsonFence|] == JsonFence;
    assert reply[|JsonFence|..] == x + Fence;
  }

  /**
   * What is left after the opening is dropped: the "```" checks take off the
   * closing fence, or (when x is one or two backticks) the same number of
   * backticks from the front.
   */
  lemma DropClosing(x: string)
    requires !StartsWith(x, Fence)
    ensures DropSuffix(DropPrefix(x + Fence, Fence), Fence) == x
  {
    var s1 := x + Fence;
    if StartsWith(s1, Fence) {
      assert |x| < |Fence|;
      var s2 := s1[|Fence|..];
      assert |s2| == |x|;
      forall i | 0 <= i < |x|
        ensures s2[i] == x[i]
      {
        assert x[i] == s1[i] == Fence[i] == '`';
        assert s2[i] == s1[i + 3];
      }
      assert s2 == x;
      assert !EndsWith(s2, Fence);
    } else {
      assert s1[|s1| - |Fence|..] == Fence;
    }
  }

  /**
   * A reply fenced as "```json" + x + "```", where x has no whitespace at
   * either end and does not itself open with "```", comes back as x.
   */
  lemma StripFencesJsonBlock(x: string)
    requires x != [] ==> !IsSpace(x[0]) && !IsSpace(x[|x| - 1])
    requires !StartsWith(x, Fence)
    ensures StripFences(JsonFence + x + Fence) == x
  {
    var reply := JsonFence + x + Fence;
    assert reply[0] == '`' && reply[|reply| - 1] == '`';
    StripOfStripped(reply);
    DropJsonOpening(x);
    DropClosing(x);
    StripOfStripped(x);
  }
}
