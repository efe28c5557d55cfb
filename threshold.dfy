/** applyThreshold: the binarisation pass that writes the third filtered
    variant. The image is a true-colour GD image, held here as a grid of
    packed pixel values indexed [y, x]. */
module Threshold {

  /** The threshold buildPreprocessedVariants passes for its binarised variant. */
  const BinarizeThreshold := 140

  const White := 0xFFFFFF
  const Black := 0

  /** ($rgb >> 16) & 0xFF. Euclidean division and remainder by powers of two
      agree with an arithmetic shift and a mask for every integer. */
  function Red(rgb: int): (r: int)
    ensures 0 <= r < 0x100
  {
    (rgb / 0x10000) % 0x100
  }

  /** ($rgb >> 8) & 0xFF. */
  function Green(rgb: int): (g: int)
    ensures 0 <= g < 0x100
  {
    (rgb / 0x100) % 0x100
  }

  /** $rgb & 0xFF. */
  function Blue(rgb: int): (b: int)
    ensures 0 <= b < 0x100
  {
    rgb % 0x100
  }

  /** (int)round(0.299 r + 0.587 g + 0.114 b), computed exactly: rounding a
      non-negative value half up is adding one half and taking the floor. */
  function Luma(r: int, g: int, b: int): int
    requires 0 <= r < 0x100 && 0 <= g < 0x100 && 0 <= b < 0x100
  {
    (299 * r + 587 * g + 114 * b + 500) / 1000
  }

  function Gray(rgb: int): int
  {
    Luma(Red(rgb), Green(rgb), Blue(rgb))
  }

  /** The colour a pixel gets: white when its gray level reaches the
      threshold, black otherwise. */
  function Binarized(rgb: int, threshold: int): int
  {
    if Gray(rgb) >= threshold then White else Black
  }

  /** The gray level is a channel value, and it is the channel itself on a gray pixel. */
  lemma LumaRange(r: int, g: int, b: int)
    requires 0 <= r < 0x100 && 0 <= g < 0x100 && 0 <= b < 0x100
    ensures 0 <= Luma(r, g, b) <= 255
    ensures r == g == b ==> Luma(r, g, b) == r
  {
  }

  /** A brighter pixel (no channel darker) never gets a lower gray level. */
  lemma LumaMonotone(r: int, g: int, b: int, r': int, g': int, b': int)
    requires 0 <= r <= r' < 0x100 && 0 <= g <= g' < 0x100 && 0 <= b <= b' < 0x100
    ensures Luma(r, g, b) <= Luma(r', g', b')
  {
  }

  /** Every binarised pixel is pure white or pure black, with equal channels. */
  lemma BinarizedIsBlackOrWhite(rgb: int, threshold: int)
    ensures var p := Binarized(rgb, threshold);
      && (p == White || p == Black)
      && Red(p) == Green(p) == Blue(p)
      && (Red(p) == 255 <==> Gray(rgb) >= threshold)
  {
    assert Red(White) == 255 && Green(White) == 255 && Blue(White) == 255;
    assert Red(Black) == 0 && Green(Black) == 0 && Blue(Black) == 0;
  }

  /** Binarising a binarised pixel changes nothing, whatever the threshold. */
  lemma BinarizeIdempotent(rgb: int, threshold: int)
    ensures Binarized(Binarized(rgb, threshold), threshold) == Binarized(rgb, threshold)
  {
    WhiteAndBlackGray();
    var p := Binarized(rgb, threshold);
    if p == White {
      assert Binarized(p, threshold) == White;
    } else {
      assert Binarized(p, threshold) == Black;
    }
  }

  lemma WhiteAndBlackGray()
    ensures Gray(White) == 255 && Gray(Black) == 0
  {
    assert Red(White) == 255;
    assert Green(White) == 255;
    assert Blue(White) == 255;
    assert Luma(255, 255, 255) == 255;
    BlackGray();
  }

  lemma BlackGray()
    ensures Gray(Black) == 0
  {
  }

  /** The loops of applyThreshold: every pixel of the image is replaced by
      its binarised colour and the dimensions stay as they are. */
  method ApplyThreshold(im: array2<int>, threshold: int)
    modifies im
    ensures forall y, x :: 0 <= y < im.Length0 && 0 <= x < im.Length1 ==>
      im[y, x] == Binarized(old(im[y, x]), threshold)
  {
    for y := 0 to im.Length0
      invariant forall y', x :: 0 <= y' < y && 0 <= x < im.Length1 ==>
        im[y', x] == Binarized(old(im[y', x]), threshold)
      invariant forall y', x :: y <= y' < im.Length0 && 0 <= x < im.Length1 ==>
        im[y', x] == old(im[y', x])
    {
      for x := 0 to im.Length1
        invariant forall y', x' :: 0 <= y' < y && 0 <= x' < im.Length1 ==>
          im[y', x'] == Binarized(old(im[y', x']), threshold)
        invariant forall x' :: 0 <= x' < x ==> im[y, x'] == Binarized(old(im[y, x']), threshold)
        invariant forall x' :: x <= x' < im.Length1 ==> im[y, x'] == old(im[y, x'])
        invariant forall y', x' :: y < y' < im.Length0 && 0 <= x' < im.Length1 ==>
          im[y', x'] == old(im[y', x'])
      {
        var rgb := im[y, x];
        var r := (rgb / 0x10000) % 0x100;
        var g := (rgb / 0x100) % 0x100;
        var b := rgb % 0x100;
        var gray := (299 * r + 587 * g + 114 * b + 500) / 1000;
        var v := if gray >= threshold then 255 else 0;
        im[y, x] := v * 0x10000 + v * 0x100 + v;
      }
    }
  }
}
