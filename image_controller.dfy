/**
 * `ImageController`: the quality read from a request, the cleaning of its
 * prompt, and the 400 answer every failure of the generation gets.
 */
module ImageController {
  import opened Wrappers
  import opened Text
  import opened ImageGeneration
  import PdfContent

  /** An HTTP answer: the status and the body, `None` for a null or absent body. */
  datatype Reply<T> = Reply(status: int, body: Option<T>)

  /**
   * The `switch` on the request's quality: exactly "Medium" and "High" pick
   * those qualities; a null quality counts as "Low", and every other text,
   * in any other letter case, gives `Low`.
   */
  function QualityFromRequest(quality: Option<string>): (q: Quality)
    ensures q == Medium <==> quality == Some("Medium")
    ensures q == High <==> quality == Some("High")
    ensures quality.None? ==> q == Low
  {
    var name := if quality.Some? then quality.value else "Low";
    if name == "Medium" then Medium
    else if name == "High" then High
    else Low
  }

  /**
   * The three spellings this endpoint reads as named qualities agree with
   * the case-insensitive reading of the PDF service; other spellings such
   * as "HIGH" are read as names there but fall back to `Low` here.
   */
  lemma RequestQualityAgreesWithParse()
    ensures PdfContent.ParseQuality(Some("Low")) == Ok(QualityFromRequest(Some("Low")))
    ensures PdfContent.ParseQuality(Some("Medium")) == Ok(QualityFromRequest(Some("Medium")))
    ensures PdfContent.ParseQuality(Some("High")) == Ok(QualityFromRequest(Some("High")))
    ensures PdfContent.ParseQuality(Some("HIGH")) == Ok(High) && QualityFromRequest(Some("HIGH")) == Low
  {
    assert Upper("Low") == "LOW";
    assert Upper("Medium") == "MEDIUM";
    assert Upper("High") == "HIGH";
    assert Upper("HIGH") == "HIGH";
  }

  /** `prompt.replace("\"", "").trim()`. */
  function CleanPrompt(prompt: string): (r: string)
    ensures '"' !in r
    ensures |r| > 0 ==> !IsTrimmed(r[0]) && !IsTrimmed(r[|r| - 1])
  {
    TrimKeeps(RemoveChar(prompt, '"'));
    TrimEnd(TrimStart(RemoveChar(prompt, '"')))
  }

  /** Cleaning a cleaned prompt changes nothing. */
  lemma CleanPromptIdempotent(prompt: string)
    ensures CleanPrompt(CleanPrompt(prompt)) == CleanPrompt(prompt)
  {
    var t := CleanPrompt(prompt);
    RemoveAbsentChar(t, '"');
    assert TrimStart(t) == t;
    assert TrimEnd(t) == t;
  }

  /** A prompt with no '"' and no white space at either end is kept as it is. */
  lemma CleanPromptKeepsClean(prompt: string)
    requires '"' !in prompt
    requires |prompt| > 0 ==> !IsTrimmed(prompt[0]) && !IsTrimmed(prompt[|prompt| - 1])
    ensures CleanPrompt(prompt) == prompt
  {
    RemoveAbsentChar(prompt, '"');
    assert TrimStart(prompt) == prompt;
    assert TrimEnd(prompt) == prompt;
  }

  /**
   * The cleaned prompt is the run starting at `i` of the prompt without its
   * '"', and only white space is dropped around that run.
   */
  lemma CleanPromptIsSlice(prompt: string) returns (i: nat)
    ensures var s := RemoveChar(prompt, '"'); var r := CleanPrompt(prompt);
      i + |r| <= |s|
      && r == s[i..i + |r|]
      && (forall k | 0 <= k < i :: IsTrimmed(s[k]))
      && (forall k | i + |r| <= k < |s| :: IsTrimmed(s[k]))
  {
    var s := RemoveChar(prompt, '"');
    var t := TrimStart(s);
    var r := CleanPrompt(prompt);
    i := |s| - |t|;
    assert r == TrimEnd(t);
    assert r == t[..|r|];
    assert t == s[i..];
    assert r == s[i..i + |r|];
    forall k | i + |r| <= k < |s| ensures IsTrimmed(s[k]) {
      assert s[k] == t[k - i];
    }
  }

  /**
   * `generateImageAndSend` (`/justImage`): a null prompt, or any failure of
   * the generation, gives 400 with a null body; otherwise 200 with the image.
   */
  function GenerateImageAndSend(prompt: Option<string>, quality: Option<string>, reply: DalleReply,
                                upload: CloudUpload, recordId: int, writeError: Option<string>): (r: Reply<Bytes>)
    ensures r.status == 200 || r.status == 400
    ensures r.status == 400 <==> r.body.None?
    ensures prompt.None? ==> r.status == 400
    ensures r.status == 200 <==> (prompt.Some? &&
      GenerateAndSaveImage(CleanPrompt(prompt.value), QualityFromRequest(quality), reply, upload, recordId, writeError).result.Ok?)
    ensures r.status == 200 ==> (r.body.value ==
      GenerateAndSaveImage(CleanPrompt(prompt.value), QualityFromRequest(quality), reply, upload, recordId, writeError).result.value.image)
    ensures r.status == 200 ==> reply.Downloaded? && reply.body == r.body && r.body.value != []
  {
    var q := QualityFromRequest(quality);
    if prompt.None? then Reply(400, None)
    else
      var g := GenerateAndSaveImage(CleanPrompt(prompt.value), q, reply, upload, recordId, writeError);
      if g.result.Err? then Reply(400, None) else Reply(200, Some(g.result.value.image))
  }

  /** `generateImage` (`/fullDTO`): the generated image's description, or 400 with a null body. */
  function GenerateImage(prompt: string, quality: Quality, reply: DalleReply,
                         upload: CloudUpload, recordId: int, writeError: Option<string>): (r: Reply<GeneratedImage>)
    ensures r.status == 200 <==> GenerateAndSaveImage(prompt, quality, reply, upload, recordId, writeError).result.Ok?
    ensures r.status != 200 ==> r.status == 400 && r.body.None?
    ensures r.status == 200 ==> r.body == Some(GenerateAndSaveImage(prompt, quality, reply, upload, recordId, writeError).result.value)
  {
    var g := GenerateAndSaveImage(prompt, quality, reply, upload, recordId, writeError);
    if g.result.Err? then Reply(400, None) else Reply(200, Some(g.result.value))
  }
}
