/** The parts of a Google Vision DOCUMENT_TEXT_DETECTION response the
    endpoint reads: the recognised text and the block confidences it averages. */
module Vision {
  import opened Php

  /** One block of a page; `confidence` is None when the key is missing or null. */
  datatype Block = Block(confidence: Option<real>)

  datatype Page = Page(blocks: seq<Block>)

  /** responses[0] of a decoded Vision reply. A missing text or description
      is the empty string (empty() treats both alike); missing pages or
      blocks are empty lists. */
  datatype VisionResponse = VisionResponse(fullText: string, firstDescription: string, pages: seq<Page>)

  /** extractVisionText: fullTextAnnotation.text unless PHP deems it empty,
      then textAnnotations[0].description on the same terms, else ''. */
  function ExtractVisionText(resp: VisionResponse): (text: string)
    ensures !IsPhpEmpty(resp.fullText) ==> text == resp.fullText
    ensures IsPhpEmpty(resp.fullText) && !IsPhpEmpty(resp.firstDescription) ==> text == resp.firstDescription
    ensures text == "" <==> IsPhpEmpty(resp.fullText) && IsPhpEmpty(resp.firstDescription)
  {
    if !IsPhpEmpty(resp.fullText) then resp.fullText
    else if !IsPhpEmpty(resp.firstDescription) then resp.firstDescription
    else ""
  }

  /** The confidences set on the blocks of one page, in block order. */
  function BlockConfidences(blocks: seq<Block>): seq<real>
  {
    if blocks == [] then []
    else
      var last := blocks[|blocks| - 1];
      BlockConfidences(blocks[..|blocks| - 1]) + (if last.confidence.Some? then [last.confidence.value] else [])
  }

  /** The confidences set on all blocks of all pages, page by page. */
  function Confidences(pages: seq<Page>): seq<real>
  {
    if pages == [] then []
    else Confidences(pages[..|pages| - 1]) + BlockConfidences(pages[|pages| - 1].blocks)
  }

  function Sum(xs: seq<real>): real
  {
    if xs == [] then 0.0 else Sum(xs[..|xs| - 1]) + xs[|xs| - 1]
  }

  /** The mean block confidence scaled to 0..100, or None without any. */
  function MeanConfidence(pages: seq<Page>): Option<real>
  {
    var cs := Confidences(pages);
    if |cs| == 0 then None else Some(Sum(cs) / (|cs| as real) * 100.0)
  }

  lemma {:induction false} SumAppend(xs: seq<real>, ys: seq<real>)
    ensures Sum(xs + ys) == Sum(xs) + Sum(ys)
  {
    if ys != [] {
      var n := |ys| - 1;
      assert (xs + ys)[..|xs + ys| - 1] == xs + ys[..n];
      SumAppend(xs, ys[..n]);
    } else {
      assert xs + ys == xs;
    }
  }

  /** A page contributes a confidence exactly for each block that carries one. */
  lemma {:induction false} BlockConfidencesFromBlocks(blocks: seq<Block>)
    ensures forall c :: c in BlockConfidences(blocks) <==> exists i :: 0 <= i < |blocks| && blocks[i].confidence == Some(c)
  {
    if blocks != [] {
      var n := |blocks| - 1;
      BlockConfidencesFromBlocks(blocks[..n]);
      assert forall i :: 0 <= i < n ==> blocks[..n][i] == blocks[i];
    }
  }

  /** The confidences are exactly those of the blocks that carry one. */
  lemma {:induction false} ConfidencesFromBlocks(pages: seq<Page>)
    ensures forall c :: c in Confidences(pages) <==>
      exists p, i :: 0 <= p < |pages| && 0 <= i < |pages[p].blocks| && pages[p].blocks[i].confidence == Some(c)
  {
    if pages != [] {
      var n := |pages| - 1;
      ConfidencesFromBlocks(pages[..n]);
      BlockConfidencesFromBlocks(pages[n].blocks);
      assert forall p :: 0 <= p < n ==> pages[..n][p] == pages[p];
    }
  }

  /** The positions (page, block) of the blocks that carry a confidence. */
  ghost function ConfidentBlocks(pages: seq<Page>): set<(int, int)>
  {
    set p, i | 0 <= p < |pages| && 0 <= i < |pages[p].blocks| && pages[p].blocks[i].confidence.Some? :: (p, i)
  }

  /** The positions of the blocks of page p that carry a confidence. */
  ghost function ConfidentInPage(blocks: seq<Block>, p: int): set<(int, int)>
  {
    set i | 0 <= i < |blocks| && blocks[i].confidence.Some? :: (p, i)
  }

  lemma {:induction false} BlockCount(blocks: seq<Block>, p: int)
    ensures |BlockConfidences(blocks)| == |ConfidentInPage(blocks, p)|
  {
    if blocks != [] {
      var n := |blocks| - 1;
      BlockCount(blocks[..n], p);
      var before := ConfidentInPage(blocks[..n], p);
      assert forall i :: 0 <= i < n ==> blocks[..n][i] == blocks[i];
      if blocks[n].confidence.Some? {
        assert ConfidentInPage(blocks, p) == before + {(p, n)};
      } else {
        assert ConfidentInPage(blocks, p) == before;
      }
    }
  }

  /** One value is summed per block that carries a confidence, so the mean
      divides by the number of such blocks. */
  lemma {:induction false} ConfidenceCount(pages: seq<Page>)
    ensures |Confidences(pages)| == |ConfidentBlocks(pages)|
    ensures MeanConfidence(pages).Some? ==>
      MeanConfidence(pages).value == Sum(Confidences(pages)) / (|ConfidentBlocks(pages)| as real) * 100.0
  {
    if pages != [] {
      var n := |pages| - 1;
      ConfidenceCount(pages[..n]);
      BlockCount(pages[n].blocks, n);
      var a := ConfidentBlocks(pages[..n]);
      var b := ConfidentInPage(pages[n].blocks, n);
      assert forall p :: 0 <= p < n ==> pages[..n][p] == pages[p];
      assert ConfidentBlocks(pages) == a + b;
      assert a * b == {};
    }
  }

  predicate HasConfidence(pages: seq<Page>)
  {
    exists p, i :: 0 <= p < |pages| && 0 <= i < |pages[p].blocks| && pages[p].blocks[i].confidence.Some?
  }

  /** There is a mean exactly when some block of some page carries a confidence. */
  lemma MeanConfidenceDefinedIff(pages: seq<Page>)
    ensures MeanConfidence(pages).Some? <==> HasConfidence(pages)
  {
    ConfidencesFromBlocks(pages);
    var cs := Confidences(pages);
    if HasConfidence(pages) {
      var p, i :| 0 <= p < |pages| && 0 <= i < |pages[p].blocks| && pages[p].blocks[i].confidence.Some?;
      var c := pages[p].blocks[i].confidence.value;
      assert pages[p].blocks[i].confidence == Some(c);
      assert c in cs;
    }
    if |cs| > 0 {
      var c := cs[0];
      assert c in Confidences(pages);
      var p, i :| 0 <= p < |pages| && 0 <= i < |pages[p].blocks| && pages[p].blocks[i].confidence == Some(c);
      assert pages[p].blocks[i].confidence.Some?;
    }
  }

  lemma {:induction false} SumBounds(xs: seq<real>)
    requires forall i :: 0 <= i < |xs| ==> 0.0 <= xs[i] <= 1.0
    ensures 0.0 <= Sum(xs) <= |xs| as real
  {
    if xs != [] {
      var n := |xs| - 1;
      assert forall i :: 0 <= i < n ==> xs[..n][i] == xs[i];
      SumBounds(xs[..n]);
    }
  }

  /** Block confidences between 0 and 1 give a mean between 0 and 100, the
      scale OCR.Space reports on. */
  lemma MeanConfidenceInRange(pages: seq<Page>)
    requires forall p, i :: 0 <= p < |pages| && 0 <= i < |pages[p].blocks| && pages[p].blocks[i].confidence.Some? ==>
      0.0 <= pages[p].blocks[i].confidence.value <= 1.0
    ensures MeanConfidence(pages).Some? ==> 0.0 <= MeanConfidence(pages).value <= 100.0
  {
    var cs := Confidences(pages);
    ConfidencesFromBlocks(pages);
    assert forall k :: 0 <= k < |cs| ==> 0.0 <= cs[k] <= 1.0 by {
      forall k | 0 <= k < |cs| ensures 0.0 <= cs[k] <= 1.0 {
        assert cs[k] in cs;
      }
    }
    SumBounds(cs);
    if |cs| > 0 {
      var n := |cs| as real;
      assert 0.0 <= Sum(cs) / n <= 1.0;
    }
  }

  /** extractVisionMeanConfidence: the loops over pages and their blocks that
      add up the confidences that are set and count them. */
  method ExtractVisionMeanConfidence(pages: seq<Page>) returns (mean: Option<real>)
    ensures mean == MeanConfidence(pages)
  {
    var sum := 0.0;
    var count := 0;
    for p := 0 to |pages|
      invariant sum == Sum(Confidences(pages[..p]))
      invariant count == |Confidences(pages[..p])|
    {
      assert pages[..p + 1][..p] == pages[..p];
      var blocks := pages[p].blocks;
      ghost var before := Confidences(pages[..p]);
      assert before + BlockConfidences(blocks[..0]) == before;
      for b := 0 to |blocks|
        invariant sum == Sum(before + BlockConfidences(blocks[..b]))
        invariant count == |before + BlockConfidences(blocks[..b])|
      {
        assert blocks[..b + 1][..b] == blocks[..b];
        var seen := before + BlockConfidences(blocks[..b]);
        if blocks[b].confidence.Some? {
          assert seen + [blocks[b].confidence.value] == before + BlockConfidences(blocks[..b + 1]);
          sum := sum + blocks[b].confidence.value;
          count := count + 1;
        } else {
          assert seen == before + BlockConfidences(blocks[..b + 1]);
        }
      }
      assert blocks[..|blocks|] == blocks;
    }
    assert pages[..|pages|] == pages;
    if count > 0 {
      mean := Some(sum / (count as real) * 100.0);
    } else {
      mean := None;
    }
  }
}
