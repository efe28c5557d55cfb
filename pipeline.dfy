/** The endpoint itself: the method gate, the intake decision, the upload
    path (MIME allow-list, variants, best OCR.Space result, Google Vision and
    Tesseract fallbacks, cleanup) and the mapping of the final OCR.Space-shaped
    record to an HTTP status and JSON body. */
module Pipeline {
  import opened Php
  import opened OcrSpace
  import opened Variants
  import opened Vision
  import opened Tesseract
  import opened Intake

  /** The JSON body: {success:false, error}, {success:true, text, confidence},
      or nothing (the 204 preflight answer). */
  datatype Body = Failure(error: string) | Success(text: string, confidence: Option<real>) | NoContent

  datatype HttpResponse = HttpResponse(status: int, body: Body)

  const InvalidResponse := "Invalid response from OCR service."
  const DefaultOcrError := "OCR processing error"
  const UnsupportedMedia := "Unsupported Media Type. Provide a valid image file."
  const MethodNotAllowed := "Method Not Allowed. Use POST."

  /** The threshold of the extra binarised image made for Tesseract. */
  const TesseractThreshold := 160

  /** The error text of an errored response: the default unless ErrorMessage
      is non-empty for PHP, an array of messages joined with "; ". */
  function ErrorText(m: ErrorMessage): (msg: string)
    ensures m.Message? && !IsPhpEmpty(m.text) ==> msg == m.text
    ensures m.Messages? && m.parts != [] ==> msg == Join(m.parts, "; ")
    ensures msg == DefaultOcrError <==>
      m.NoMessage? || (m.Message? && (IsPhpEmpty(m.text) || m.text == DefaultOcrError))
      || (m.Messages? && (m.parts == [] || Join(m.parts, "; ") == DefaultOcrError))
  {
    match m
    case NoMessage => DefaultOcrError
    case Message(s) => if IsPhpEmpty(s) then DefaultOcrError else s
    case Messages(parts) => if parts == [] then DefaultOcrError else Join(parts, "; ")
  }

  /** The final mapping: 502 for a non-array, 502 with the error text for an
      errored response, otherwise 200 with ParsedResults[0]'s text and its
      confidence when numeric. */
  function BuildResponse(resp: Response): HttpResponse
  {
    match resp
    case NotArray => HttpResponse(502, Failure(InvalidResponse))
    case Errored(m) => HttpResponse(502, Failure(ErrorText(m)))
    case Parsed(_) =>
      var (text, conf) := ExtractTextAndConfidence(resp);
      HttpResponse(200, Success(text, conf))
  }

  /** 502 exactly for non-array and errored responses; a 200 carries the
      very text and confidence that the extraction helper reads. */
  lemma ResponseStatus(resp: Response)
    ensures BuildResponse(resp).status == 502 <==> resp.NotArray? || resp.Errored?
    ensures BuildResponse(resp).status == 200 <==> resp.Parsed?
    ensures resp.Parsed? ==>
      BuildResponse(resp).body == Success(TextOf(resp), ExtractTextAndConfidence(resp).1)
    ensures resp.Errored? ==> BuildResponse(resp).body == Failure(ErrorText(resp.errorMessage))
    ensures resp.Parsed? && resp.first.Some? ==>
      BuildResponse(resp).body.text == resp.first.value.text
      && (BuildResponse(resp).body.confidence.Some? <==> resp.first.value.meanConfidence.Numeric?)
    ensures resp == Parsed(None) ==> BuildResponse(resp) == HttpResponse(200, Success("", None))
  {
  }

  /** An array ErrorMessage of two messages becomes "a; b". */
  lemma TwoMessagesJoined(a: string, b: string)
    ensures BuildResponse(Errored(Messages([a, b]))) == HttpResponse(502, Failure(a + "; " + b))
  {
    assert Join([a, b], "; ") == a + "; " + Join([b], "; ");
  }

  /** MeanConfidence ends up in the record as a numeric confidence, or unset for null. */
  function ConfidenceOf(c: Option<real>): Confidence
  {
    if c.Some? then Numeric(c.value) else Unset
  }

  /** Is the text of a record blank after trim()? */
  predicate Blank(resp: Response)
  {
    Trim(TextOf(resp)) == ""
  }

  /** The collaborators of the upload path. `decode`: the GD decoders;
      `fileExists`: file_exists()/is_file(); `ocr`: one OCR.Space call for a
      file; `vision`: callGoogleVision for a file, None for a missing file, a
      failed call, a non-2xx status or a non-array body; `tesseract`: the text
      file one tesseract run leaves for an image and a mode; `ln1p`: log(1 + n). */
  datatype Providers = Providers(
    decode: (Decoder, string) -> Option<(nat, nat)>,
    fileExists: string -> bool,
    ocr: string -> Response,
    vision: string -> Option<VisionResponse>,
    tesseract: (string, string) -> Option<string>,
    ln1p: nat -> real)

  /** The environment of one upload. `tmpFile`: the stored upload; `mime`:
      mime_content_type() of it ('' when unknown); `visionKey`: the
      GOOGLE_VISION_API_KEY value ('' when unset); `names`: the paths
      tempPathLike hands out for the variants, and `tessName` the one for the
      Tesseract image. */
  datatype Upload = Upload(tmpFile: string, mime: string, gd: GdSupport, visionKey: string,
                           names: VariantNames, tessName: string)

  /** Vision is asked only with a key PHP deems non-empty and a blank text. */
  predicate VisionWanted(resp: Response, up: Upload)
  {
    !IsPhpEmpty(up.visionKey) && Blank(resp)
  }

  /** The Google Vision step: on a blank OCR.Space text (and with a key), the
      record is replaced by one built from Vision's text and mean confidence,
      but only when that text is not blank. */
  function VisionStep(resp: Response, up: Upload, prov: Providers, bestPath: string): Response
  {
    if !VisionWanted(resp, up) then resp
    else
      match prov.vision(bestPath)
      case None => resp
      case Some(v) =>
        var text := ExtractVisionText(v);
        if Trim(text) == "" then resp
        else Parsed(Some(ParsedResult(text, ConfidenceOf(MeanConfidence(v.pages)))))
  }

  /** `$bestVariantPath ?: $tmpFile`. */
  function TessInput(bestPath: string, tmpFile: string): string
  {
    if IsPhpEmpty(bestPath) then tmpFile else bestPath
  }

  /** Is the extra threshold image for Tesseract made? It needs GD and an
      image decoded from the input with the decoder of the upload's MIME type. */
  predicate TessImageMade(input: string, up: Upload, prov: Providers)
  {
    up.gd.loaded && CreateImageFromFile(input, up.mime, up.gd, prov.decode).Decoded?
  }

  function TessVariant(input: string, up: Upload, prov: Providers): string
  {
    if TessImageMade(input, up, prov) then up.tessName else input
  }

  /** The Tesseract step: on a still blank text, the modes 10, 13, 8, 7 are
      run on the threshold image (or the input) and a produced text replaces
      the record, trimmed and with no confidence. */
  function TesseractStep(resp: Response, up: Upload, prov: Providers, bestPath: string): Response
  {
    if !Blank(resp) then resp
    else
      var variant := TessVariant(TessInput(bestPath, up.tmpFile), up, prov);
      match TesseractResult(prov.fileExists(variant), PsmModes, psm => prov.tesseract(variant, psm))
      case None => resp
      case Some(text) => Parsed(Some(ParsedResult(text, Unset)))
  }

  /** The paths recorded for cleanup: the variants other than the upload and,
      when it was made, the Tesseract image. */
  function CleanupPaths(variants: seq<string>, resp: Response, up: Upload, prov: Providers, bestPath: string): seq<string>
  {
    Without(variants, up.tmpFile)
    + (if Blank(resp) && TessImageMade(TessInput(bestPath, up.tmpFile), up, prov) then [up.tessName] else [])
  }

  /** What one upload comes to: the response and the files removed, in order. */
  datatype Outcome = Outcome(response: HttpResponse, deleted: seq<string>)

  function UploadVariants(up: Upload, prov: Providers): seq<string>
  {
    PlannedVariants(up.tmpFile, up.mime, up.gd, prov.decode, up.names, prov.fileExists)
  }

  /** The best OCR.Space record over the variants, and the variant it came from. */
  function Primary(up: Upload, prov: Providers): Choice
  {
    Select(UploadVariants(up, prov), up.tmpFile, prov.ocr, prov.ln1p)
  }

  function AfterVision(up: Upload, prov: Providers): Response
  {
    VisionStep(Primary(up, prov).best, up, prov, Primary(up, prov).path)
  }

  /** The record the response is built from. */
  function FinalRecord(up: Upload, prov: Providers): Response
  {
    TesseractStep(AfterVision(up, prov), up, prov, Primary(up, prov).path)
  }

  function UploadCleanup(up: Upload, prov: Providers): seq<string>
  {
    CleanupPaths(UploadVariants(up, prov), AfterVision(up, prov), up, prov, Primary(up, prov).path)
  }

  /** The upload path as a whole: a MIME type outside the allow-list is
      refused with 415 and the upload removed; otherwise the final record is
      answered and the recorded paths other than the upload are removed
      before the upload itself. */
  function UploadOutcome(up: Upload, prov: Providers): Outcome
  {
    if !IsAllowedMime(up.mime) then
      Outcome(HttpResponse(415, Failure(UnsupportedMedia)), [up.tmpFile])
    else
      Outcome(BuildResponse(FinalRecord(up, prov)), Without(UploadCleanup(up, prov), up.tmpFile) + [up.tmpFile])
  }

  /** The Google Vision fallback of the upload path. */
  method VisionFallback(best: Response, up: Upload, prov: Providers, bestPath: string)
    returns (response: Response, called: bool)
    ensures response == VisionStep(best, up, prov, bestPath)
    ensures called <==> VisionWanted(best, up)
  {
    response, called := best, false;
    if !IsPhpEmpty(up.visionKey) {
      var (osText, _) := ExtractTextAndConfidence(response);
      if Trim(osText) == "" {
        called := true;
        var visionResp := prov.vision(bestPath);
        if visionResp.Some? {
          var visionText := ExtractVisionText(visionResp.value);
          if Trim(visionText) != "" {
            var mean := ExtractVisionMeanConfidence(visionResp.value.pages);
            response := Parsed(Some(ParsedResult(visionText, ConfidenceOf(mean))));
          }
        }
      }
    }
  }

  /** The gray threshold image for Tesseract, written when GD decodes the
      input; otherwise Tesseract reads the input itself. */
  method MakeTesseractImage(input: string, up: Upload, prov: Providers) returns (variant: string, made: seq<string>)
    ensures variant == TessVariant(input, up, prov)
    ensures made == if TessImageMade(input, up, prov) then [up.tessName] else []
  {
    variant, made := input, [];
    if up.gd.loaded {
      var img := CreateImageFromFile(input, up.mime, up.gd, prov.decode);
      if img.Decoded? {
        variant := up.tessName;
        made := [variant];
      }
    }
  }

  /** The Tesseract fallback of the upload path; `made` lists the threshold
      image when one was written, for cleanup. */
  method TesseractFallback(resp: Response, up: Upload, prov: Providers, bestPath: string)
    returns (response: Response, made: seq<string>, called: bool)
    ensures response == TesseractStep(resp, up, prov, bestPath)
    ensures made == if Blank(resp) && TessImageMade(TessInput(bestPath, up.tmpFile), up, prov) then [up.tessName] else []
    ensures called <==> Blank(resp)
  {
    response, made, called := resp, [], false;
    var (textAfterCloud, _) := ExtractTextAndConfidence(resp);
    if Trim(textAfterCloud) == "" {
      called := true;
      var tessInput := if IsPhpEmpty(bestPath) then up.tmpFile else bestPath;
      var v;
      v, made := MakeTesseractImage(tessInput, up, prov);
      var tessText, _ := CallTesseract(prov.fileExists(v), PsmModes, psm => prov.tesseract(v, psm));
      if tessText.Some? && Trim(tessText.value) != "" {
        response := Parsed(Some(ParsedResult(Trim(tessText.value), Unset)));
      }
    }
  }

  /** The cleanup loop: every recorded path other than the upload, in order. */
  method CleanupRecorded(cleanupPaths: seq<string>, tmpFile: string) returns (deleted: seq<string>)
    ensures deleted == Without(cleanupPaths, tmpFile)
  {
    deleted := [];
    for i := 0 to |cleanupPaths|
      invariant deleted == Without(cleanupPaths[..i], tmpFile)
    {
      assert cleanupPaths[..i + 1][..i] == cleanupPaths[..i];
      if cleanupPaths[i] != tmpFile {
        deleted := deleted + [cleanupPaths[i]];
      }
    }
    assert cleanupPaths[..|cleanupPaths|] == cleanupPaths;
  }

  /** The upload path: MIME check, variants, the OCR.Space loop, then the
      fallbacks and the cleanup. The flags say which fallbacks were called. */
  method ProcessUpload(up: Upload, prov: Providers)
    returns (outcome: Outcome, visionCalled: bool, tesseractCalled: bool)
    ensures outcome == UploadOutcome(up, prov)
    ensures visionCalled <==> IsAllowedMime(up.mime) && VisionWanted(Primary(up, prov).best, up)
    ensures tesseractCalled <==> IsAllowedMime(up.mime) && Blank(AfterVision(up, prov))
  {
    if !IsAllowedMime(up.mime) {
      return Outcome(HttpResponse(415, Failure(UnsupportedMedia)), [up.tmpFile]), false, false;
    }
    var variants := BuildPreprocessedVariants(up.tmpFile, up.mime, up.gd, prov.decode, up.names, prov.fileExists);
    var best, bestPath, cleanupPaths := SelectBest(variants, up.tmpFile, prov.ocr, prov.ln1p);
    var response;
    response, visionCalled := VisionFallback(best, up, prov, bestPath);
    var made;
    response, made, tesseractCalled := TesseractFallback(response, up, prov, bestPath);
    var deleted := CleanupRecorded(cleanupPaths + made, up.tmpFile);
    outcome := Outcome(BuildResponse(response), deleted + [up.tmpFile]);
  }

  /** The whole endpoint for one request: the preflight and method gate,
      the intake decision, then the upload path or one OCR.Space call for
      the URL. Only the upload path removes files. `up` is the environment
      of the upload, whose stored path the intake decision supplies. */
  function RequestOutcome(httpMethod: string, req: Request, validUrl: string -> bool,
                          tempDir: string, uniqName: string, moved: bool,
                          up: Upload, prov: Providers, urlOcr: string -> Response): Outcome
  {
    if httpMethod == "OPTIONS" then Outcome(HttpResponse(204, NoContent), [])
    else if httpMethod != "POST" then Outcome(HttpResponse(405, Failure(MethodNotAllowed)), [])
    else
      match ChooseSource(req, validUrl, tempDir, uniqName, moved)
      case Rejected(status, error) => Outcome(HttpResponse(status, Failure(error)), [])
      case FromUrl(url) => Outcome(BuildResponse(urlOcr(url)), [])
      case FromUpload(path) => UploadOutcome(up.(tmpFile := path), prov)
  }

  method HandleRequest(httpMethod: string, req: Request, validUrl: string -> bool,
                       tempDir: string, uniqName: string, moved: bool,
                       up: Upload, prov: Providers, urlOcr: string -> Response)
    returns (outcome: Outcome)
    ensures outcome == RequestOutcome(httpMethod, req, validUrl, tempDir, uniqName, moved, up, prov, urlOcr)
  {
    if httpMethod == "OPTIONS" {
      return Outcome(HttpResponse(204, NoContent), []);
    }
    if httpMethod != "POST" {
      return Outcome(HttpResponse(405, Failure(MethodNotAllowed)), []);
    }
    var source := ChooseSource(req, validUrl, tempDir, uniqName, moved);
    match source {
      case Rejected(status, error) =>
        outcome := Outcome(HttpResponse(status, Failure(error)), []);
      case FromUrl(url) =>
        outcome := Outcome(BuildResponse(urlOcr(url)), []);
      case FromUpload(path) =>
        var visionCalled, tesseractCalled;
        outcome, visionCalled, tesseractCalled := ProcessUpload(up.(tmpFile := path), prov);
    }
  }

  /** Only POST reaches intake: OPTIONS is answered 204 with no body, every
      other method 405. */
  lemma MethodGate(httpMethod: string, req: Request, validUrl: string -> bool,
                   tempDir: string, uniqName: string, moved: bool,
                   up: Upload, prov: Providers, urlOcr: string -> Response)
    ensures var o := RequestOutcome(httpMethod, req, validUrl, tempDir, uniqName, moved, up, prov, urlOcr);
      && (o.response.status == 204 <==> httpMethod == "OPTIONS")
      && (httpMethod != "OPTIONS" && httpMethod != "POST" ==> o.response == HttpResponse(405, Failure(MethodNotAllowed)))
      && (httpMethod != "POST" ==> o.deleted == [])
  {
    var o := RequestOutcome(httpMethod, req, validUrl, tempDir, uniqName, moved, up, prov, urlOcr);
    if httpMethod == "POST" {
      match ChooseSource(req, validUrl, tempDir, uniqName, moved)
      case Rejected(status, error) =>
        if req.upload.Some? && req.upload.value.error == UploadErrOk {
          UploadTakesPrecedence(req, validUrl, tempDir, uniqName, moved);
        }
      case FromUrl(url) =>
        ResponseStatus(urlOcr(url));
      case FromUpload(path) =>
        ResponseStatus(FinalRecord(up.(tmpFile := path), prov));
    }
  }

  /** The URL path: no preprocessing and no fallbacks, the OCR.Space answer
      for the URL is mapped as it is. */
  lemma UrlPathResponse(req: Request, validUrl: string -> bool, tempDir: string, uniqName: string, moved: bool,
                        up: Upload, prov: Providers, urlOcr: string -> Response)
    requires ChooseSource(req, validUrl, tempDir, uniqName, moved).FromUrl?
    ensures RequestOutcome("POST", req, validUrl, tempDir, uniqName, moved, up, prov, urlOcr)
         == Outcome(BuildResponse(urlOcr(req.imageUrl.value)), [])
  {
    UrlOrNothing(req, validUrl, tempDir, uniqName, moved);
  }

  /** A record whose trimmed text is not blank is never touched by the fallbacks. */
  lemma NonBlankPrimaryIsKept(up: Upload, prov: Providers)
    requires !Blank(Primary(up, prov).best)
    ensures FinalRecord(up, prov) == Primary(up, prov).best
    ensures UploadCleanup(up, prov) == Without(UploadVariants(up, prov), up.tmpFile)
  {
  }

  /** Without a Vision key the Vision step changes nothing. */
  lemma VisionNeedsKey(resp: Response, up: Upload, prov: Providers, bestPath: string)
    requires IsPhpEmpty(up.visionKey)
    ensures VisionStep(resp, up, prov, bestPath) == resp
  {
  }

  /** A fallback replaces the record only with a non-blank text: Vision's
      record carries Vision's text and the mean block confidence,
      Tesseract's the first produced text, trimmed, and no confidence. */
  lemma FallbacksReplaceOnlyWithText(resp: Response, up: Upload, prov: Providers, bestPath: string)
    ensures var v := VisionStep(resp, up, prov, bestPath);
      v != resp ==>
        && Blank(resp) && v.Parsed? && v.first.Some? && !Blank(v)
        && v.first.value.text == ExtractVisionText(prov.vision(bestPath).value)
        && v.first.value.meanConfidence == ConfidenceOf(MeanConfidence(prov.vision(bestPath).value.pages))
    ensures var t := TesseractStep(resp, up, prov, bestPath);
      var variant := TessVariant(TessInput(bestPath, up.tmpFile), up, prov);
      t != resp ==>
        && Blank(resp) && t.Parsed? && t.first.Some? && !Blank(t)
        && Some(t.first.value.text) == TesseractResult(prov.fileExists(variant), PsmModes, psm => prov.tesseract(variant, psm))
        && t.first.value.meanConfidence == Unset && Trim(t.first.value.text) == t.first.value.text
  {
  }

  /** A blank record with a key, and a Vision reply whose text is not blank,
      is replaced by Vision's text and mean confidence. */
  lemma VisionTextReplaces(resp: Response, up: Upload, prov: Providers, bestPath: string, v: VisionResponse)
    requires VisionWanted(resp, up) && prov.vision(bestPath) == Some(v)
    requires Trim(ExtractVisionText(v)) != ""
    ensures VisionStep(resp, up, prov, bestPath)
         == Parsed(Some(ParsedResult(ExtractVisionText(v), ConfidenceOf(MeanConfidence(v.pages)))))
  {
  }

  /** A blank record is replaced by the first text a Tesseract mode produces,
      with no confidence. */
  lemma TesseractTextReplaces(resp: Response, up: Upload, prov: Providers, bestPath: string, t: string)
    requires Blank(resp)
    requires var variant := TessVariant(TessInput(bestPath, up.tmpFile), up, prov);
      TesseractResult(prov.fileExists(variant), PsmModes, psm => prov.tesseract(variant, psm)) == Some(t)
    ensures TesseractStep(resp, up, prov, bestPath) == Parsed(Some(ParsedResult(t, Unset)))
  {
  }

  /** An allowed upload whose best OCR.Space text is blank, with a key and a
      Vision text that is not blank, is answered 200 with Vision's text and
      mean confidence; Tesseract is not asked. */
  lemma VisionAnswers(up: Upload, prov: Providers, v: VisionResponse)
    requires IsAllowedMime(up.mime)
    requires VisionWanted(Primary(up, prov).best, up) && prov.vision(Primary(up, prov).path) == Some(v)
    requires Trim(ExtractVisionText(v)) != ""
    ensures UploadOutcome(up, prov).response == HttpResponse(200, Success(ExtractVisionText(v), MeanConfidence(v.pages)))
    ensures !Blank(AfterVision(up, prov))
  {
    VisionTextReplaces(Primary(up, prov).best, up, prov, Primary(up, prov).path, v);
  }

  /** An allowed upload whose text is still blank after Vision is answered
      200 with the first text a Tesseract mode produces, and no confidence. */
  lemma TesseractAnswers(up: Upload, prov: Providers, t: string)
    requires IsAllowedMime(up.mime) && Blank(AfterVision(up, prov))
    requires var variant := TessVariant(TessInput(Primary(up, prov).path, up.tmpFile), up, prov);
      TesseractResult(prov.fileExists(variant), PsmModes, psm => prov.tesseract(variant, psm)) == Some(t)
    ensures UploadOutcome(up, prov).response == HttpResponse(200, Success(t, None))
  {
    TesseractTextReplaces(AfterVision(up, prov), up, prov, Primary(up, prov).path, t);
  }

  /** A MIME type outside the allow-list, and only such a type, is answered
      415; the upload is then the only file removed. */
  lemma MimeRefusal(up: Upload, prov: Providers)
    ensures UploadOutcome(up, prov).response.status == 415 <==> !IsAllowedMime(up.mime)
    ensures !IsAllowedMime(up.mime) ==>
      UploadOutcome(up, prov) == Outcome(HttpResponse(415, Failure(UnsupportedMedia)), [up.tmpFile])
  {
    ResponseStatus(FinalRecord(up, prov));
  }

  /** The record Vision builds from a reply with no block confidence has
      none, so its score counts the text only. */
  lemma VisionWithoutBlocksHasNoConfidence(resp: Response, up: Upload, prov: Providers, bestPath: string)
    requires prov.vision(bestPath).Some? && !HasConfidence(prov.vision(bestPath).value.pages)
    ensures var v := VisionStep(resp, up, prov, bestPath);
      v != resp ==> v.first.value.meanConfidence == Unset
  {
    MeanConfidenceDefinedIff(prov.vision(bestPath).value.pages);
  }

  /** When no Tesseract run produces text, the Tesseract step changes nothing. */
  lemma SilentTesseractKeepsRecord(resp: Response, up: Upload, prov: Providers, bestPath: string)
    requires forall path, psm :: !Produced(prov.tesseract(path, psm))
    ensures TesseractStep(resp, up, prov, bestPath) == resp
  {
    var variant := TessVariant(TessInput(bestPath, up.tmpFile), up, prov);
    FirstProducedIsFirst(PsmModes, psm => prov.tesseract(variant, psm));
  }

  /** An errored best record is answered 502 with its error text when
      neither fallback finds any text. */
  lemma PrimaryErrorSurfaces(up: Upload, prov: Providers, m: ErrorMessage)
    requires IsAllowedMime(up.mime)
    requires Primary(up, prov).best == Errored(m)
    requires prov.vision(Primary(up, prov).path).None?
          || Trim(ExtractVisionText(prov.vision(Primary(up, prov).path).value)) == ""
    requires forall path, psm :: !Produced(prov.tesseract(path, psm))
    ensures UploadOutcome(up, prov).response == HttpResponse(502, Failure(ErrorText(m)))
  {
    SilentTesseractKeepsRecord(AfterVision(up, prov), up, prov, Primary(up, prov).path);
  }

  /** An image whose every variant reads as blank text, with fallbacks that
      find nothing, is a soft success: 200 with a blank text. */
  lemma BlankImageIsSoftSuccess(up: Upload, prov: Providers)
    requires IsAllowedMime(up.mime)
    requires |UploadVariants(up, prov)| > 0
    requires forall i :: 0 <= i < |UploadVariants(up, prov)| ==>
      prov.ocr(UploadVariants(up, prov)[i]).Parsed? && Blank(prov.ocr(UploadVariants(up, prov)[i]))
    requires prov.vision(Primary(up, prov).path).None?
          || Trim(ExtractVisionText(prov.vision(Primary(up, prov).path).value)) == ""
    requires forall path, psm :: !Produced(prov.tesseract(path, psm))
    ensures UploadOutcome(up, prov).response.status == 200
    ensures UploadOutcome(up, prov).response.body.Success?
    ensures Trim(UploadOutcome(up, prov).response.body.text) == ""
  {
    var variants := UploadVariants(up, prov);
    SelectIsFirstMaximum(variants, up.tmpFile, prov.ocr, prov.ln1p);
    assert IsArray(prov.ocr(variants[0]));
    var k :| FirstMaximumAt(variants, prov.ocr, prov.ln1p, k)
      && Primary(up, prov) == Choice(prov.ocr(variants[k]), variants[k]);
    SilentTesseractKeepsRecord(AfterVision(up, prov), up, prov, Primary(up, prov).path);
    assert FinalRecord(up, prov) == prov.ocr(variants[k]);
  }

  /** The final record is a non-array only when no OCR.Space call gave an array. */
  lemma InvalidResponseNeedsNoArray(up: Upload, prov: Providers)
    ensures FinalRecord(up, prov).NotArray? ==> NoArrayResponse(UploadVariants(up, prov), prov.ocr)
  {
    SelectIsFirstMaximum(UploadVariants(up, prov), up.tmpFile, prov.ocr, prov.ln1p);
  }

  /** callOcrSpace always returns an array, so with such a provider a non-array
      final record ("Invalid response") means there was no variant at all. */
  lemma InvalidResponseNeedsNoVariant(up: Upload, prov: Providers)
    requires forall p :: IsArray(prov.ocr(p))
    ensures FinalRecord(up, prov).NotArray? ==> UploadVariants(up, prov) == []
  {
    InvalidResponseNeedsNoArray(up, prov);
    var vs := UploadVariants(up, prov);
    if vs != [] {
      assert IsArray(prov.ocr(vs[0]));
    }
  }

  /** Every variant other than the upload is removed, and so is the
      Tesseract image when it was made; the upload itself is removed last
      and only then. */
  lemma CleanupRemovesVariants(up: Upload, prov: Providers)
    ensures var d := UploadOutcome(up, prov).deleted;
      && |d| > 0 && d[|d| - 1] == up.tmpFile
      && (forall i :: 0 <= i < |d| - 1 ==> d[i] != up.tmpFile)
      && (IsAllowedMime(up.mime) ==>
            forall p :: p in UploadVariants(up, prov) ==> p in d)
      && ((&& IsAllowedMime(up.mime) && Blank(AfterVision(up, prov))
           && TessImageMade(TessInput(Primary(up, prov).path, up.tmpFile), up, prov)) ==>
          up.tessName in d || up.tessName == up.tmpFile)
  {
    var d := UploadOutcome(up, prov).deleted;
    if IsAllowedMime(up.mime) {
      var w := Without(UploadCleanup(up, prov), up.tmpFile);
      assert d == w + [up.tmpFile];
      forall i | 0 <= i < |d| - 1 ensures d[i] != up.tmpFile {
        assert d[i] == w[i] && w[i] in w;
      }
      forall p | p in UploadVariants(up, prov) ensures p in d {
        if p != up.tmpFile {
          assert p in Without(UploadVariants(up, prov), up.tmpFile);
          assert p in UploadCleanup(up, prov);
          assert p in w;
        }
      }
    }
  }

  /** A first variant whose OCR.Space call errored scores 0, and a later
      variant read as an empty text scores log(1) = 0 too: the tie keeps
      the errored record, whose own response is 502 although a valid
      (empty) result exists. */
  lemma ErroredFirstVariantShadowsValidEmpty(a: string, b: string, tmpFile: string, m: ErrorMessage,
                                             ocr: string -> Response, ln1p: nat -> real)
    requires IsLn1p(ln1p) && a != b
    requires ocr(a) == Errored(m) && ocr(b) == Parsed(Some(ParsedResult("", Unset)))
    ensures Select([a, b], tmpFile, ocr, ln1p) == Choice(Errored(m), a)
    ensures BuildResponse(Select([a, b], tmpFile, ocr, ln1p).best).status == 502
  {
    assert [a, b][..1] == [a];
    assert [a][..0] == [];
    assert Select([a], tmpFile, ocr, ln1p) == Choice(Errored(m), a);
    assert Score(ocr(b), ln1p) == 0.0 by {
      TrimOfKept("");
    }
    assert !IsBetter(Errored(m), ocr(b), ln1p);
  }

  /** The errored tie through the whole upload path: when the variants are an
      errored read followed by an empty one and neither fallback finds text,
      the upload is answered 502 with the error text. */
  lemma ErroredTieAnswers502(up: Upload, prov: Providers, a: string, b: string, m: ErrorMessage)
    requires IsLn1p(prov.ln1p) && IsAllowedMime(up.mime)
    requires UploadVariants(up, prov) == [a, b] && a != b
    requires prov.ocr(a) == Errored(m) && prov.ocr(b) == Parsed(Some(ParsedResult("", Unset)))
    requires prov.vision(a).None? || Trim(ExtractVisionText(prov.vision(a).value)) == ""
    requires forall path, psm :: !Produced(prov.tesseract(path, psm))
    ensures UploadOutcome(up, prov).response == HttpResponse(502, Failure(ErrorText(m)))
  {
    ErroredFirstVariantShadowsValidEmpty(a, b, up.tmpFile, m, prov.ocr, prov.ln1p);
    PrimaryErrorSurfaces(up, prov, m);
  }
}
