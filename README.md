# OCR endpoint model

A Dafny model of the OCR orchestration in `api/text_read/read_text_by_image.php`.
This PHP endpoint takes an image, either as a multipart upload or as a public URL, and returns its text as JSON.

For an upload it works in these steps:
- It checks the MIME type against an allow-list.
- It writes up to five preprocessed copies of the image with GD: a downscale, an upscale, two contrast/sharpen filters and a binarised copy.
- It sends every copy to OCR.Space and keeps the best-scoring answer.
- If the text is still blank, it asks Google Vision.
- If the text is still blank after that, it runs the local tesseract binary over four page-segmentation modes.
- It maps the final OCR.Space-shaped record to a 200 or 502 answer.
- It removes the variants and the Tesseract image it wrote, then the upload. The `tempnam` output bases of the Tesseract runs stay behind.

The modules follow the parts of that file:

| module | what it holds |
|---|---|
| `Php` | the PHP built-ins the endpoint relies on: `trim`, `empty()` on strings, `strpos` tests, ASCII `strtolower`, `implode` |
| `OcrSpace` | the response shape, `extractOcrSpaceTextAndConfidence`, `ocrScore`, `isBetterOcrResult`, the variant loop (`SelectBest`) and the fold it computes (`Select`) |
| `Variants` | the `createImageFromFile` dispatch, the variant list of `buildPreprocessedVariants` and its de-duplication loop |
| `Threshold` | `applyThreshold`, an in-place pass over a two-dimensional pixel array |
| `Vision` | `extractVisionText` and the nested loops of `extractVisionMeanConfidence` |
| `Tesseract` | the mode loop of `callTesseract` |
| `Intake` | the choice of image source and the checks of `moveUploadToTemp` |
| `Pipeline` | the method gate, the upload path with both fallbacks and the cleanup, the URL path, and the mapping to an HTTP response |

Everything outside the process is a parameter: the GD decoders, `file_exists`/`is_file`, the OCR.Space, Google Vision and tesseract calls, and `log(1 + n)`.
These are bundled in `Pipeline.Providers`.
`log(1 + n)` is the only one constrained: the model assumes it is 0 at 0 and strictly increasing (`OcrSpace.IsLn1p`).

The upload path is written as methods with loops, as in the source (`Pipeline.ProcessUpload`, `OcrSpace.SelectBest`, `Variants.BuildPreprocessedVariants`, `Tesseract.CallTesseract`, `Vision.ExtractVisionMeanConfidence`, `Threshold.ApplyThreshold`).
Each of these methods is proved equal to a specification function, and the lemmas state their properties about those functions.

Two behaviours of the code are easy to miss:
- **Errored tie.** An errored first variant scores 0.0. A later variant read as an empty text scores `log(1) = 0.0` too. On that tie the errored record is kept. When neither fallback then finds text, the request is answered 502 although a valid (empty) result exists (`Pipeline.ErroredFirstVariantShadowsValidEmpty`, `Pipeline.ErroredTieAnswers502`).
- **Empty upload.** An upload of size 0, or with no size entry, is answered 413 "File too large. Max 5MB.", the same as one over 5 MiB (`Intake.MoveUploadOutcome`).

## Model

| member | source | states |
|---|---|---|
| `Php.Trim` | api/text_read/read_text_by_image.php:418 | `trim()` with its default list (space, tab, LF, CR, NUL, VT): the result is no longer than the input and is empty or starts and ends with a kept character |
| `Php.TrimEmptyIffBlank` | api/text_read/read_text_by_image.php:119 | a trimmed text is empty exactly when every character of the input is a trim character |
| `Php.TrimIdempotent` | api/text_read/read_text_by_image.php:662-663 | trimming twice equals trimming once, so the text Tesseract stores is already trimmed |
| `Php.IsPhpEmpty` | api/text_read/read_text_by_image.php:117 | definition: `empty()` on a string is true for `''` and `'0'` only (used by `Pipeline.VisionNeedsKey`, `Intake.ZeroBase64IsIgnored`) |
| `Php.Contains` | api/text_read/read_text_by_image.php:491-503 | definition: `strpos(...) !== false` (characterised by `Php.ContainsIffOccurs`) |
| `Php.ContainsIffOccurs` | api/text_read/read_text_by_image.php:491-503 | the test holds exactly when the needle occurs at some offset of the text |
| `Php.Join` | api/text_read/read_text_by_image.php:199 | definition: `implode` (characterised by `Php.JoinAppend`, `Pipeline.TwoMessagesJoined`) |
| `Php.JoinAppend` | api/text_read/read_text_by_image.php:199 | joining one more part appends the separator and that part, so the separator stands between neighbours only |
| `Php.ToLower` | api/text_read/read_text_by_image.php:489 | `strtolower` keeps the length and maps each character through the ASCII letter mapping |
| `OcrSpace.ExtractTextAndConfidence` | api/text_read/read_text_by_image.php:368-385 | for a non-errored array whose `ParsedResults[0]` is an array, the text is its `ParsedText` and a confidence is reported exactly when its `MeanConfidence` is numeric, and is that value; for anything else the result is `('', null)` |
| `OcrSpace.Score` | api/text_read/read_text_by_image.php:401-405 | an errored response scores 0 |
| `OcrSpace.ScoreAgreesWithExtraction` | api/text_read/read_text_by_image.php:406-419 | a parsed response scores its numeric confidence (0 when missing or non-numeric) plus `log(1 + length of the trimmed text)`, over exactly the text and confidence the extraction helper reads |
| `OcrSpace.LongerTextScoresHigher` | api/text_read/read_text_by_image.php:417-419 | at a fixed confidence, a longer trimmed text scores strictly higher |
| `OcrSpace.HelloBeatsHi` | api/text_read/read_text_by_image.php:388-399 | at confidence 80, a candidate reading "hello" is better than a best reading "hi" |
| `OcrSpace.IsBetter` | api/text_read/read_text_by_image.php:388-399 | definition: a non-array candidate is never better, an array candidate beats a null best, otherwise only a strictly higher score wins (its consequences are `OcrSpace.SelectIsFirstMaximum`) |
| `OcrSpace.Select` | api/text_read/read_text_by_image.php:93-112 | definition: the variant loop as a fold from a null best with the upload path (specification of `OcrSpace.SelectBest`, characterised by `OcrSpace.SelectIsFirstMaximum`) |
| `OcrSpace.SelectIsFirstMaximum` | api/text_read/read_text_by_image.php:93-112 | the loop ends with null and the upload path exactly when no variant gave an array; otherwise with the response and path of the first variant that reaches the highest score (a tie keeps the earlier one) |
| `OcrSpace.Without` | api/text_read/read_text_by_image.php:109-111 | the recorded cleanup paths are exactly the variants other than the upload |
| `OcrSpace.SelectBest` | api/text_read/read_text_by_image.php:93-112 | the variant loop returns the choice the fold defines and records every variant path other than the upload, in order |
| `Variants.AllowedMimeDecoders` | api/text_read/read_text_by_image.php:487-510 | with every GD decoder present, an allowed MIME type selects a decoder exactly when it is not `image/tiff` |
| `Variants.NonTiffAllowedMimeDecodes` | api/text_read/read_text_by_image.php:491-505 | the allowed types jpeg, png, gif, webp and bmp each select a decoder |
| `Variants.DecoderFor` | api/text_read/read_text_by_image.php:489-505 | definition: the first of jpeg/jpg, png, gif, webp, bmp found in the lower-cased MIME type, webp and bmp only when their decoder exists (characterised by `Variants.AllowedMimeDecoders`, `Variants.TiffHasNoDecoder`, `Variants.JpegSelectsJpeg`) |
| `Variants.IsAllowedMime` | api/text_read/read_text_by_image.php:80-83 | definition: the strict allow-list of six image types |
| `Variants.TiffHasNoDecoder` | api/text_read/read_text_by_image.php:487-510 | `image/tiff` selects no decoder, whatever GD provides |
| `Variants.JpegSelectsJpeg` | api/text_read/read_text_by_image.php:491-493 | `image/jpeg` selects the JPEG decoder |
| `Variants.CreateImageFromFile` | api/text_read/read_text_by_image.php:487-510 | null exactly when no decoder is selected; an image exactly when the selected decoder reads the file, with the size it reads |
| `Variants.CorruptJpegThrowsAsWritten` | api/text_read/read_text_by_image.php:429-438 | as written, a JPEG that GD cannot decode gets past the `=== null` test and reaches `imagesx(false)` |
| `Variants.VariantPlanAsWritten` | api/text_read/read_text_by_image.php:429-438 | definition: the decision as written, where a failed decode goes on to `imagesx(false)` (characterised by `Variants.CorruptJpegThrowsAsWritten`; `Variants.VariantPlan` agrees with it wherever it does not throw) |
| `Variants.VariantPlan` | api/text_read/read_text_by_image.php:425-432 | the corrected decision never throws; it uses the original alone exactly when GD is missing or no image was decoded, resamples at the decoded size otherwise, and agrees with the code wherever the code does not throw |
| `Variants.Candidates` | api/text_read/read_text_by_image.php:434-473 | definition: the appended list before filtering (characterised by `Variants.VariantPolicy`) |
| `Variants.Dedup` | api/text_read/read_text_by_image.php:477-484 | definition: the filter, prefix by prefix (characterised by `Variants.DedupIsFirstOccurrences`) |
| `Variants.PlannedVariants` | api/text_read/read_text_by_image.php:423-485 | definition: the original alone, or the filtered candidates at the decoded size (specification of `Variants.BuildPreprocessedVariants`) |
| `Variants.DedupIsFirstOccurrences` | api/text_read/read_text_by_image.php:477-484 | the filtered list holds exactly the usable input paths (non-empty, existing), each once, in the order of their first occurrence |
| `Variants.DedupOfDistinct` | api/text_read/read_text_by_image.php:477-484 | distinct usable paths pass the filter unchanged |
| `Variants.VariantPolicy` | api/text_read/read_text_by_image.php:434-473 | with distinct names, each added one written: the list starts with the original; it has the downscale iff the longer side exceeds 2200 and the upscale iff the shorter side is below 600; it always has the three filtered images; 4 to 6 entries |
| `Variants.CandidatesShape` | api/text_read/read_text_by_image.php:434-473 | with distinct names, the appended list has no duplicates, starts with the original, has the downscale iff the longer side exceeds 2200 and the upscale iff the shorter side is below 600, and always the three filtered images |
| `Variants.KeepFirstUsable` | api/text_read/read_text_by_image.php:478-483 | the filtering loop computes the de-duplicated list |
| `Variants.OriginalOnlyWithoutImage` | api/text_read/read_text_by_image.php:425-432 | without GD or a decoder, the variants are exactly the original |
| `Variants.TiffIsNeverPreprocessed` | api/text_read/read_text_by_image.php:80-82 | `image/tiff` passes the allow-list but its only variant is the original |
| `Variants.BuildPreprocessedVariants` | api/text_read/read_text_by_image.php:423-485 | appends the candidates in order and filters them, returning the planned variants |
| `Threshold.Red` | api/text_read/read_text_by_image.php:546 | the red channel is a value 0..255 |
| `Threshold.Green` | api/text_read/read_text_by_image.php:547 | the green channel is a value 0..255 |
| `Threshold.Blue` | api/text_read/read_text_by_image.php:548 | the blue channel is a value 0..255 |
| `Threshold.Luma` | api/text_read/read_text_by_image.php:549 | definition: the rounded weighted gray level, in exact thousandths (characterised by `Threshold.LumaRange`, `Threshold.LumaMonotone`) |
| `Threshold.Binarized` | api/text_read/read_text_by_image.php:550-552 | definition: white when the gray level reaches the threshold, black otherwise (characterised by `Threshold.BinarizedIsBlackOrWhite`, `Threshold.BinarizeIdempotent`) |
| `Threshold.LumaRange` | api/text_read/read_text_by_image.php:549 | the gray level is 0..255, and equals the channel on a gray pixel |
| `Threshold.LumaMonotone` | api/text_read/read_text_by_image.php:549 | no channel darker means no lower gray level |
| `Threshold.BinarizedIsBlackOrWhite` | api/text_read/read_text_by_image.php:549-552 | every new pixel is pure white or pure black, and white exactly when the original gray level reaches the threshold |
| `Threshold.BinarizeIdempotent` | api/text_read/read_text_by_image.php:539-555 | for every threshold, binarising twice equals binarising once |
| `Threshold.ApplyThreshold` | api/text_read/read_text_by_image.php:539-555 | every pixel of the image is replaced in place by its binarised colour |
| `Vision.ExtractVisionText` | api/text_read/read_text_by_image.php:608-617 | the full text unless it is empty for PHP, then the first description on the same terms, and `''` exactly when both are empty |
| `Vision.ConfidencesFromBlocks` | api/text_read/read_text_by_image.php:626-633 | a value is summed exactly when some block of some page carries it as its confidence |
| `Vision.ConfidenceCount` | api/text_read/read_text_by_image.php:626-637 | one value is summed per block that carries a confidence, so the mean divides by the number of such blocks |
| `Vision.MeanConfidence` | api/text_read/read_text_by_image.php:619-639 | definition: the sum over the count, scaled by 100, or null without any (specification of `Vision.ExtractVisionMeanConfidence`) |
| `Vision.MeanConfidenceDefinedIff` | api/text_read/read_text_by_image.php:635-638 | there is a mean exactly when some block carries a confidence |
| `Vision.MeanConfidenceInRange` | api/text_read/read_text_by_image.php:636 | block confidences in 0..1 give a mean in 0..100 |
| `Vision.ExtractVisionMeanConfidence` | api/text_read/read_text_by_image.php:619-639 | the nested loops compute the mean confidence scaled by 100, or null |
| `Tesseract.FirstProduced` | api/text_read/read_text_by_image.php:647-667 | a result is non-empty and already trimmed |
| `Tesseract.FirstProducedIsFirst` | api/text_read/read_text_by_image.php:648-667 | there is no result exactly when no mode produced text; otherwise it is the trimmed output of the first mode that did |
| `Tesseract.TesseractResult` | api/text_read/read_text_by_image.php:642-668 | definition: null without an input file, else the first produced text (specification of `Tesseract.CallTesseract`) |
| `Tesseract.CallTesseract` | api/text_read/read_text_by_image.php:642-668 | null without an input file; otherwise the first produced text; the modes reached are those up to the producing one and none after it, or all modes when none produces |
| `Intake.Truthy` | api/text_read/read_text_by_image.php:53 | definition: a parameter is truthy unless missing, `''` or `'0'` (characterised by `Intake.ZeroBase64IsIgnored`, `Intake.Base64IsRefused`) |
| `Intake.StripTrailing` | api/text_read/read_text_by_image.php:286 | `rtrim` of the separator leaves no trailing separator |
| `Intake.StripTrailingIsPrefix` | api/text_read/read_text_by_image.php:286 | `rtrim` keeps a prefix of the directory and drops only separators |
| `Intake.Basename` | api/text_read/read_text_by_image.php:287 | definition: the last path component, ignoring trailing slashes |
| `Intake.Extension` | api/text_read/read_text_by_image.php:287 | the extension has no dot |
| `Intake.ExtensionFollowsLastDot` | api/text_read/read_text_by_image.php:287 | the extension is what follows the last dot of the base name, and empty without a dot |
| `Intake.SanitizeExtension` | api/text_read/read_text_by_image.php:289 | the sanitised extension holds only letters and digits and is no longer than the input |
| `Intake.SanitizeChar` | api/text_read/read_text_by_image.php:289 | one character is kept exactly when it is a letter or digit |
| `Intake.SanitizeAppend` | api/text_read/read_text_by_image.php:289 | sanitising works character by character, so with `Intake.SanitizeChar` the result is the letters and digits of the extension in their order |
| `Intake.SanitizeKeepsAlnum` | api/text_read/read_text_by_image.php:289 | an alphanumeric extension is kept as it is |
| `Intake.SanitizeCountsAlnum` | api/text_read/read_text_by_image.php:289 | nothing is dropped exactly when every character is a letter or digit |
| `Intake.StoredPath` | api/text_read/read_text_by_image.php:286-290 | definition: the move target (characterised by `Intake.StoredPathShape`) |
| `Intake.MoveUploadToTemp` | api/text_read/read_text_by_image.php:267-300 | definition: the three checks in order, then the stored path (characterised by `Intake.MoveUploadOutcome`) |
| `Intake.MoveUploadOutcome` | api/text_read/read_text_by_image.php:267-300 | 400 exactly for an upload that is not an uploaded file; 413 exactly for a size outside 1..5 MiB; 500 exactly when the move fails; stored otherwise |
| `Intake.StoredPathShape` | api/text_read/read_text_by_image.php:286-290 | the target is the temp directory, a separator and the uniqid name, followed, when there is an extension, by a dot and letters or digits only |
| `Intake.ChooseSource` | api/text_read/read_text_by_image.php:44-73 | definition: the intake decision in the source's order (characterised by `Intake.UploadTakesPrecedence`, `Intake.Base64IsRefused`, `Intake.UrlOrNothing`) |
| `Intake.UploadTakesPrecedence` | api/text_read/read_text_by_image.php:44-48 | an upload without error is the source exactly when it is stored, is refused with 400, 413 or 500 otherwise, and the URL is never used |
| `Intake.Base64IsRefused` | api/text_read/read_text_by_image.php:50-58 | without a usable upload, 415 exactly when `image_base64` is truthy, or `image` was posted as a truthy text with no file part |
| `Intake.UrlOrNothing` | api/text_read/read_text_by_image.php:60-73 | the URL is used exactly when there is no usable upload, no base64 refusal, and `image_url` validates; with none of the three the answer is 400 "Provide an image …" |
| `Intake.ZeroBase64IsIgnored` | api/text_read/read_text_by_image.php:51-53 | an `image_base64` of `'0'` is not truthy, so a valid URL beside it is used |
| `Pipeline.ErrorText` | api/text_read/read_text_by_image.php:195-201 | a non-empty string message is the error, an array is joined with `"; "`, and the default text appears exactly when the message is empty or missing, or happens to equal it |
| `Pipeline.ResponseStatus` | api/text_read/read_text_by_image.php:186-228 | 502 exactly for a non-array or errored record, with the error text; 200 exactly otherwise, with `ParsedResults[0]`'s text and a confidence exactly when it is numeric, or `''` and null without a first result |
| `Pipeline.TwoMessagesJoined` | api/text_read/read_text_by_image.php:198-200 | an array of two messages gives the error `"a; b"` |
| `Pipeline.BuildResponse` | api/text_read/read_text_by_image.php:186-228 | definition: the mapping of the final record to a status and body (characterised by `Pipeline.ResponseStatus`) |
| `Pipeline.VisionStep` | api/text_read/read_text_by_image.php:115-134 | definition: the Vision step (characterised by `Pipeline.VisionNeedsKey`, `Pipeline.VisionTextReplaces`, `Pipeline.FallbacksReplaceOnlyWithText`) |
| `Pipeline.TesseractStep` | api/text_read/read_text_by_image.php:136-166 | definition: the Tesseract step (characterised by `Pipeline.TesseractTextReplaces`, `Pipeline.SilentTesseractKeepsRecord`, `Pipeline.FallbacksReplaceOnlyWithText`) |
| `Pipeline.TessInput` | api/text_read/read_text_by_image.php:140 | definition: the best variant path, or the upload when that path is empty for PHP |
| `Pipeline.TessImageMade` | api/text_read/read_text_by_image.php:141-153 | definition: the threshold image is made when GD is loaded and the input decodes (used by `Pipeline.MakeTesseractImage`) |
| `Pipeline.TessVariant` | api/text_read/read_text_by_image.php:141-153 | definition: the threshold image when it was made, else the input (used by `Pipeline.TesseractTextReplaces`) |
| `Pipeline.CleanupPaths` | api/text_read/read_text_by_image.php:109-111 | definition: the variants other than the upload, then the threshold image when made (line 151; characterised by `Pipeline.CleanupRemovesVariants`) |
| `Pipeline.UploadOutcome` | api/text_read/read_text_by_image.php:77-228 | definition: the upload path as a whole (specification of `Pipeline.ProcessUpload`) |
| `Pipeline.RequestOutcome` | api/text_read/read_text_by_image.php:15-228 | definition: the whole request (specification of `Pipeline.HandleRequest`) |
| `Pipeline.VisionFallback` | api/text_read/read_text_by_image.php:115-134 | Vision is called exactly with a key that is non-empty for PHP and a blank text; the result is the Vision step |
| `Pipeline.MakeTesseractImage` | api/text_read/read_text_by_image.php:140-153 | the threshold image is used and recorded exactly when GD is loaded and decodes the input |
| `Pipeline.TesseractFallback` | api/text_read/read_text_by_image.php:136-166 | Tesseract is called exactly on a blank text; the result is the Tesseract step, and the threshold image is recorded when made |
| `Pipeline.CleanupRecorded` | api/text_read/read_text_by_image.php:168-173 | the cleanup loop removes every recorded path other than the upload, in order |
| `Pipeline.ProcessUpload` | api/text_read/read_text_by_image.php:77-228 | the upload path yields the specified outcome; Vision is called exactly for an allowed type with a key and a blank best text; Tesseract exactly for an allowed type whose text is still blank after Vision |
| `Pipeline.HandleRequest` | api/text_read/read_text_by_image.php:15-228 | the whole request yields the specified outcome |
| `Pipeline.MethodGate` | api/text_read/read_text_by_image.php:15-25 | 204 exactly for OPTIONS; 405 for every method other than OPTIONS and POST; no file is removed for either |
| `Pipeline.UrlPathResponse` | api/text_read/read_text_by_image.php:174-184 | the URL path maps the OCR.Space answer for the URL as it is and removes nothing |
| `Pipeline.NonBlankPrimaryIsKept` | api/text_read/read_text_by_image.php:115-166 | a best record with non-blank text is final, and only the variants are recorded for cleanup |
| `Pipeline.VisionNeedsKey` | api/text_read/read_text_by_image.php:116-117 | with a key that is empty for PHP, the Vision step changes nothing |
| `Pipeline.FallbacksReplaceOnlyWithText` | api/text_read/read_text_by_image.php:115-166 | a fallback replaces only a blank record, and only with a non-blank text: Vision's record has Vision's text and mean block confidence, Tesseract's the first produced text, trimmed, with no confidence |
| `Pipeline.VisionTextReplaces` | api/text_read/read_text_by_image.php:121-131 | a blank record with a key and a Vision reply whose text is not blank becomes Vision's text with its mean block confidence |
| `Pipeline.TesseractTextReplaces` | api/text_read/read_text_by_image.php:157-165 | a blank record becomes the first text a Tesseract mode produces, with no confidence |
| `Pipeline.VisionAnswers` | api/text_read/read_text_by_image.php:115-134 | an allowed upload with a blank best text, a key and a non-blank Vision text is answered 200 with Vision's text and mean confidence, and Tesseract is not asked |
| `Pipeline.TesseractAnswers` | api/text_read/read_text_by_image.php:136-166 | an allowed upload whose text is still blank after Vision is answered 200 with the first text Tesseract produces and no confidence |
| `Pipeline.MimeRefusal` | api/text_read/read_text_by_image.php:79-89 | 415 exactly for a MIME type outside the allow-list, and then the upload is the only file removed |
| `Pipeline.VisionWithoutBlocksHasNoConfidence` | api/text_read/read_text_by_image.php:124-130 | a Vision reply whose blocks have no confidence gives a record with none |
| `Pipeline.SilentTesseractKeepsRecord` | api/text_read/read_text_by_image.php:155-165 | when no tesseract run produces text, the record is kept |
| `Pipeline.PrimaryErrorSurfaces` | api/text_read/read_text_by_image.php:195-207 | an errored best record with silent fallbacks is answered 502 with its error text |
| `Pipeline.BlankImageIsSoftSuccess` | api/text_read/read_text_by_image.php:209-228 | blank answers for every variant, with silent fallbacks, give 200 with a blank text |
| `Pipeline.InvalidResponseNeedsNoArray` | api/text_read/read_text_by_image.php:187-193 | a non-array final record ("Invalid response") needs every variant's answer to be a non-array |
| `Pipeline.InvalidResponseNeedsNoVariant` | api/text_read/read_text_by_image.php:187-193 | with an OCR.Space call that always returns an array, as `callOcrSpace` does, "Invalid response" means the variant list was empty |
| `Pipeline.CleanupRemovesVariants` | api/text_read/read_text_by_image.php:168-173 | every variant and a made threshold image are removed; the upload is removed last and only then |
| `Pipeline.ErroredFirstVariantShadowsValidEmpty` | api/text_read/read_text_by_image.php:93-112 | an errored first variant ties with a later empty parsed result at score 0 and is kept; that record alone maps to 502 |
| `Pipeline.ErroredTieAnswers502` | api/text_read/read_text_by_image.php:93-207 | with the variants an errored read followed by an empty one, and neither Vision nor Tesseract finding text, the upload is answered 502 with the error text |

## Left out

- Network I/O is not modelled: the cURL calls to OCR.Space and Google Vision, their timeouts, JSON decoding and status handling (lines 304-365, 565-606). Each call is a function from the file path (or URL) to the response it yields.
- GD's pixel work is not modelled. That covers decoding, `imagecopyresampled` and its `round(w * scale)` sizes, the grayscale and contrast filters, `imageconvolution` and PNG writing (lines 451-467, 512-537). A variant is the path it is saved to. A decoder is a function from a path to the decoded size.
- Threshold.ApplyThreshold: runs on a grid of packed true-colour values. The source first makes the image gray with GD and then allocates each colour with `imagecolorallocate`. The model does not link this pass to the files the pipeline writes, which stay paths.
- Threshold.Luma: the source rounds `0.299 r + 0.587 g + 0.114 b` in floating point. The model adds one half to exact thousandths and floors. The two can differ when the exact value ends in .5 and the float sum lands just below it.
- OcrSpace.Score: `log(1 + n)` is a parameter with two properties: it is 0 at 0 and it is strictly increasing. Confidences are reals, not doubles.
- The tesseract subprocess is not modelled: the `escapeshellcmd`/`escapeshellarg` command, `exec`, and the `tempnam` output base (lines 649-661). One run is a function from the image path and the mode to the contents of its text file. The language (`eng`) and the letter whitelist are fixed arguments of every run, so they are not parameters of that function.
- The `tempnam` output base files that `callTesseract` creates are never deleted by the source. The model records removals only for the paths the endpoint's own cleanup touches.
- Superglobals and environment are inputs:
  - `$_FILES`, `$_POST` and `postParam`'s JSON-body cache are given as a `Request`;
  - `filter_var` is a predicate;
  - `getenv` becomes the Vision key, or is left out: the `helloworld` OCR.Space key fallback and `TESSERACT_PATH` are only passed to calls that are not modelled;
  - `mime_content_type`, `sys_get_temp_dir`, `uniqid` and `move_uploaded_file` are parameters.
- `file_exists` and `is_file` are one predicate. The removals record every path `cleanup()` is asked to remove, whether or not the file still exists.
- The `catch (Throwable)` path that answers 500 (lines 229-235) is left out, except for the one throw the model exhibits (see Findings). Other runtime faults are not modelled.
- `respond()` and `exit` are not modelled as control flow. Each refusal is a final outcome, and the CORS headers are not modelled.
- Paths are Unix paths: `DIRECTORY_SEPARATOR` is `/` in `Intake.StoredPath` and `Intake.Basename` (line 286), so Windows separators are not modelled.
- Variants.BuildPreprocessedVariants: models the corrected handling of a decoding failure. The source as written throws there (see Findings).

## Findings

| source | as written | input that shows it | evidently intended | confidence | as-written member | corrected member |
|---|---|---|---|---|---|---|
| api/text_read/read_text_by_image.php:429-438 | `createImageFromFile` returns GD's `false` when a decoder fails, but `buildPreprocessedVariants` tests only `$img === null`, so it goes on to `imagesx(false)`, which throws a TypeError and the request ends in the 500 catch | an upload with MIME `image/jpeg` whose bytes after the SOI marker are not a valid JPEG header (an unrecoverable error, so `imagecreatefromjpeg` returns false) while GD is loaded | treat a failed decode like a missing decoder and use the original alone, so OCR still runs | not executed | `Variants.CorruptJpegThrowsAsWritten` | `Variants.VariantPlan` |
