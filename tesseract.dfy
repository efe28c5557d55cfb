/** callTesseract: the local fallback that runs the tesseract binary once per
    page-segmentation mode and keeps the first non-blank text it writes. */
module Tesseract {
  import opened Php

  /** The page-segmentation modes the endpoint tries, in order: single
      character, raw line, single word, single text line. */
  const PsmModes: seq<string> := ["10", "13", "8", "7"]

  /** A run's output counts when its text file could be read and is not blank. */
  predicate Produced(output: Option<string>)
  {
    output.Some? && Trim(output.value) != ""
  }

  /** The trimmed text of the first mode whose run produced something, if any. */
  function FirstProduced(modes: seq<string>, run: string -> Option<string>): (r: Option<string>)
    ensures r.Some? ==> r.value != "" && Trim(r.value) == r.value
  {
    if modes == [] then None
    else if Produced(run(modes[0])) then
      TrimIdempotent(run(modes[0]).value);
      Some(Trim(run(modes[0]).value))
    else FirstProduced(modes[1..], run)
  }

  /** What callTesseract returns: null when the input is not a file, else the
      first produced text (null when no mode produced any). `run` stands for
      one tesseract run with a fresh output base: the contents of the text
      file it leaves, or None when tempnam() failed or the file is unreadable. */
  function TesseractResult(isFile: bool, modes: seq<string>, run: string -> Option<string>): Option<string>
  {
    if !isFile then None else FirstProduced(modes, run)
  }

  /** The result is the trimmed output of mode k, where k is the first mode
      that produced text; there is no result exactly when no mode did. */
  lemma {:induction false} FirstProducedIsFirst(modes: seq<string>, run: string -> Option<string>)
    ensures FirstProduced(modes, run).None? <==> forall k :: 0 <= k < |modes| ==> !Produced(run(modes[k]))
    ensures FirstProduced(modes, run).Some? ==>
      exists k :: 0 <= k < |modes| && Produced(run(modes[k]))
        && FirstProduced(modes, run) == Some(Trim(run(modes[k]).value))
        && forall j :: 0 <= j < k ==> !Produced(run(modes[j]))
  {
    if modes != [] && !Produced(run(modes[0])) {
      FirstProducedIsFirst(modes[1..], run);
      assert forall k :: 1 <= k < |modes| ==> modes[k] == modes[1..][k - 1];
      if FirstProduced(modes, run).Some? {
        var k :| 0 <= k < |modes[1..]| && Produced(run(modes[1..][k]))
          && FirstProduced(modes[1..], run) == Some(Trim(run(modes[1..][k]).value))
          && forall j :: 0 <= j < k ==> !Produced(run(modes[1..][j]));
        assert forall j :: 0 <= j < k + 1 ==> !Produced(run(modes[j])) by {
          forall j | 0 <= j < k + 1 ensures !Produced(run(modes[j])) {
            if j > 0 {
              assert modes[j] == modes[1..][j - 1];
            }
          }
        }
        assert modes[k + 1] == modes[1..][k];
      }
    }
  }

  /** The loop of callTesseract: modes are tried in order and the first run
      that leaves a non-blank text ends the loop with that text trimmed.
      `tried` counts the modes reached: every mode up to the producing one
      and none after it, all of them when none produces, none without a file. */
  method CallTesseract(isFile: bool, modes: seq<string>, run: string -> Option<string>)
    returns (text: Option<string>, tried: nat)
    ensures text == TesseractResult(isFile, modes, run)
    ensures !isFile ==> tried == 0
    ensures tried <= |modes|
    ensures forall j :: 0 <= j < tried - 1 ==> !Produced(run(modes[j]))
    ensures text.Some? ==> 0 < tried && Produced(run(modes[tried - 1]))
                           && text.value == Trim(run(modes[tried - 1]).value)
    ensures isFile && text.None? ==> tried == |modes|
  {
    if !isFile {
      return None, 0;
    }
    var best := "";
    var i := 0;
    while i < |modes|
      invariant 0 <= i <= |modes|
      invariant best == ""
      invariant FirstProduced(modes, run) == FirstProduced(modes[i..], run)
      invariant forall j :: 0 <= j < i ==> !Produced(run(modes[j]))
    {
      var txt := run(modes[i]);
      if txt.Some? && Trim(txt.value) != "" {
        best := Trim(txt.value);
        assert modes[i..][0] == modes[i];
        return Some(best), i + 1;
      }
      assert modes[i..][1..] == modes[i + 1..];
      i := i + 1;
    }
    return if best != "" then Some(best) else None, i;
  }
}
