/** The OCR.Space response as the endpoint reads it, the score it gives a
    response, the "is better" test, and the loop that keeps the best response
    over all preprocessed variants. */
module OcrSpace {
  import opened Php

  /** ParsedResults[0]['MeanConfidence']: missing or null (isset() fails),
      numeric (is_numeric(), then cast to float), or something else. */
  datatype Confidence = Unset | Numeric(value: real) | NonNumeric

  /** ParsedResults[0] when it is an array. A missing ParsedText reads as ''. */
  datatype ParsedResult = ParsedResult(text: string, meanConfidence: Confidence)

  /** ErrorMessage: missing, a string, or an array of strings. */
  datatype ErrorMessage = NoMessage | Message(text: string) | Messages(parts: seq<string>)

  /** What a provider call hands back.
      NotArray: null or a non-array value (the source's `?array` best starts as null).
      Errored: IsErroredOnProcessing is non-empty; nothing else is consulted.
      Parsed: any other array; `first` is ParsedResults[0] when ParsedResults is a
      non-empty array whose first element is an array, and None otherwise. */
  datatype Response =
    | NotArray
    | Errored(errorMessage: ErrorMessage)
    | Parsed(first: Option<ParsedResult>)

  predicate IsArray(resp: Response)
  {
    !resp.NotArray?
  }

  /** extractOcrSpaceTextAndConfidence: the text and the numeric confidence of
      ParsedResults[0], or ('', null) for a non-array or errored response. */
  function ExtractTextAndConfidence(resp: Response): (tc: (string, Option<real>))
    ensures resp.Parsed? && resp.first.Some? ==> tc.0 == resp.first.value.text
    ensures !(resp.Parsed? && resp.first.Some?) ==> tc == ("", None)
    ensures tc.1.Some? <==> resp.Parsed? && resp.first.Some? && resp.first.value.meanConfidence.Numeric?
    ensures tc.1.Some? ==> tc.1.value == resp.first.value.meanConfidence.value
  {
    match resp
    case Parsed(Some(pr)) =>
      (pr.text, if pr.meanConfidence.Numeric? then Some(pr.meanConfidence.value) else None)
    case _ => ("", None)
  }

  function TextOf(resp: Response): string
  {
    ExtractTextAndConfidence(resp).0
  }

  /** What log(1 + n) must satisfy for the score to behave as intended:
      log(1) = 0 and the function is strictly increasing. */
  ghost predicate IsLn1p(ln1p: nat -> real)
  {
    ln1p(0) == 0.0 && forall m: nat, n: nat :: m < n ==> ln1p(m) < ln1p(n)
  }

  function ConfidenceOrZero(c: Confidence): real
  {
    if c.Numeric? then c.value else 0.0
  }

  /** ocrScore: 0 for an errored response, otherwise the confidence of
      ParsedResults[0] (0 when missing or not numeric) plus log(1 + length of
      the trimmed text). The source parses the response on its own here; the
      contract ties the outcome to the extraction helper. */
  function Score(resp: Response, ln1p: nat -> real): (score: real)
    requires IsArray(resp)
    ensures resp.Errored? ==> score == 0.0
  {
    match resp
    case Errored(_) => 0.0
    case Parsed(None) => ln1p(0)
    case Parsed(Some(pr)) => ConfidenceOrZero(pr.meanConfidence) + ln1p(|Trim(pr.text)|)
  }

  /** The score is computed from exactly the text and confidence that the
      extraction helper reports for the same response. */
  lemma ScoreAgreesWithExtraction(resp: Response, ln1p: nat -> real)
    requires resp.Parsed?
    ensures var (text, conf) := ExtractTextAndConfidence(resp);
      Score(resp, ln1p) == (if conf.Some? then conf.value else 0.0) + ln1p(|Trim(text)|)
  {
  }

  /** isBetterOcrResult(best, candidate); `best` is NotArray while it is still null. */
  predicate IsBetter(best: Response, candidate: Response, ln1p: nat -> real)
  {
    if !IsArray(candidate) then false
    else if !IsArray(best) then true
    else Score(candidate, ln1p) > Score(best, ln1p)
  }

  /** For a fixed confidence, a longer trimmed text scores strictly higher. */
  lemma LongerTextScoresHigher(conf: Confidence, shorter: string, longer: string, ln1p: nat -> real)
    requires IsLn1p(ln1p)
    requires |Trim(shorter)| < |Trim(longer)|
    ensures Score(Parsed(Some(ParsedResult(shorter, conf))), ln1p)
          < Score(Parsed(Some(ParsedResult(longer, conf))), ln1p)
  {
  }

  /** At confidence 80, "hello" beats "hi". */
  lemma HelloBeatsHi(ln1p: nat -> real)
    requires IsLn1p(ln1p)
    ensures IsBetter(Parsed(Some(ParsedResult("hi", Numeric(80.0)))),
                     Parsed(Some(ParsedResult("hello", Numeric(80.0)))), ln1p)
  {
    TrimOfKept("hi");
    TrimOfKept("hello");
    LongerTextScoresHigher(Numeric(80.0), "hi", "hello", ln1p);
  }

  /** The best response so far and the variant path that produced it. */
  datatype Choice = Choice(best: Response, path: string)

  /** The variant loop as a left fold: the best starts as null with the
      uploaded file as its path, and a candidate replaces it only when
      IsBetter says so. Defined on the last element so that it follows the
      loop prefix by prefix. */
  function Select(variants: seq<string>, tmpFile: string, ocr: string -> Response, ln1p: nat -> real): Choice
  {
    if variants == [] then Choice(NotArray, tmpFile)
    else
      var sofar := Select(variants[..|variants| - 1], tmpFile, ocr, ln1p);
      var v := variants[|variants| - 1];
      if IsBetter(sofar.best, ocr(v), ln1p) then Choice(ocr(v), v) else sofar
  }

  ghost predicate NoArrayResponse(variants: seq<string>, ocr: string -> Response)
  {
    forall i :: 0 <= i < |variants| ==> !IsArray(ocr(variants[i]))
  }

  /** Variant k is the first one whose (array) response reaches the highest
      score among all array responses. */
  ghost predicate FirstMaximumAt(variants: seq<string>, ocr: string -> Response, ln1p: nat -> real, k: int)
  {
    && 0 <= k < |variants|
    && IsArray(ocr(variants[k]))
    && (forall i :: 0 <= i < |variants| && IsArray(ocr(variants[i])) ==>
          Score(ocr(variants[i]), ln1p) <= Score(ocr(variants[k]), ln1p))
    && (forall i :: 0 <= i < k && IsArray(ocr(variants[i])) ==>
          Score(ocr(variants[i]), ln1p) < Score(ocr(variants[k]), ln1p))
  }

  /** A last variant that does not beat the first maximum of the prefix leaves it in place. */
  lemma KeepFirstMaximum(variants: seq<string>, ocr: string -> Response, ln1p: nat -> real, k: int)
    requires |variants| > 0
    requires FirstMaximumAt(variants[..|variants| - 1], ocr, ln1p, k)
    requires var last := ocr(variants[|variants| - 1]);
      !IsArray(last) || Score(last, ln1p) <= Score(ocr(variants[k]), ln1p)
    ensures FirstMaximumAt(variants, ocr, ln1p, k)
  {
    var n := |variants| - 1;
    assert forall i :: 0 <= i < n ==> variants[i] == variants[..n][i];
  }

  /** A last variant that beats every array response before it is the first maximum. */
  lemma LastIsFirstMaximum(variants: seq<string>, ocr: string -> Response, ln1p: nat -> real)
    requires |variants| > 0 && IsArray(ocr(variants[|variants| - 1]))
    requires forall i :: 0 <= i < |variants| - 1 && IsArray(ocr(variants[i])) ==>
      Score(ocr(variants[i]), ln1p) < Score(ocr(variants[|variants| - 1]), ln1p)
    ensures FirstMaximumAt(variants, ocr, ln1p, |variants| - 1)
  {
  }

  /** The fold keeps null and the uploaded path when no variant gave an array;
      otherwise it returns the response of the first variant that reaches the
      maximum score, and that variant's path (ties keep the earlier one). */
  lemma {:induction false} SelectIsFirstMaximum(variants: seq<string>, tmpFile: string, ocr: string -> Response, ln1p: nat -> real)
    ensures !IsArray(Select(variants, tmpFile, ocr, ln1p).best) <==> NoArrayResponse(variants, ocr)
    ensures NoArrayResponse(variants, ocr) ==> Select(variants, tmpFile, ocr, ln1p).path == tmpFile
    ensures !NoArrayResponse(variants, ocr) ==>
      exists k :: FirstMaximumAt(variants, ocr, ln1p, k)
               && Select(variants, tmpFile, ocr, ln1p) == Choice(ocr(variants[k]), variants[k])
  {
    if variants != [] {
      var n := |variants| - 1;
      var prefix := variants[..n];
      var v := variants[n];
      assert forall i :: 0 <= i < n ==> variants[i] == prefix[i];
      SelectIsFirstMaximum(prefix, tmpFile, ocr, ln1p);
      var sofar := Select(prefix, tmpFile, ocr, ln1p);
      assert Select(variants, tmpFile, ocr, ln1p)
          == if IsBetter(sofar.best, ocr(v), ln1p) then Choice(ocr(v), v) else sofar;
      if NoArrayResponse(prefix, ocr) {
        if IsArray(ocr(v)) {
          LastIsFirstMaximum(variants, ocr, ln1p);
        }
      } else {
        var k :| FirstMaximumAt(prefix, ocr, ln1p, k) && sofar == Choice(ocr(prefix[k]), prefix[k]);
        if IsBetter(sofar.best, ocr(v), ln1p) {
          LastIsFirstMaximum(variants, ocr, ln1p);
        } else {
          KeepFirstMaximum(variants, ocr, ln1p, k);
        }
      }
    }
  }

  /** The variants other than the uploaded file, in order: the paths the loop
      records for deletion. */
  function Without(paths: seq<string>, keep: string): (r: seq<string>)
    ensures forall p :: p in r <==> p in paths && p != keep
  {
    if paths == [] then []
    else
      var last := paths[|paths| - 1];
      Without(paths[..|paths| - 1], keep) + (if last != keep then [last] else [])
  }

  /** The variant loop of the upload path: one OCR.Space call per variant,
      the best kept by IsBetter with its path, and every variant path other
      than the uploaded file recorded for cleanup. */
  method SelectBest(variants: seq<string>, tmpFile: string, ocr: string -> Response, ln1p: nat -> real)
    returns (best: Response, bestPath: string, cleanupPaths: seq<string>)
    ensures Choice(best, bestPath) == Select(variants, tmpFile, ocr, ln1p)
    ensures cleanupPaths == Without(variants, tmpFile)
  {
    best, bestPath, cleanupPaths := NotArray, tmpFile, [];
    for i := 0 to |variants|
      invariant Choice(best, bestPath) == Select(variants[..i], tmpFile, ocr, ln1p)
      invariant cleanupPaths == Without(variants[..i], tmpFile)
    {
      assert variants[..i + 1][..i] == variants[..i];
      var candidate := ocr(variants[i]);
      if IsBetter(best, candidate, ln1p) {
        best := candidate;
        bestPath := variants[i];
      }
      if variants[i] != tmpFile {
        cleanupPaths := cleanupPaths + [variants[i]];
      }
    }
    assert variants[..|variants|] == variants;
  }
}
