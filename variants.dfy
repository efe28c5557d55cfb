/** Variant generation: which GD decoder a MIME type selects, the ordered list
    of preprocessed variants buildPreprocessedVariants writes, and the
    de-duplication that keeps the first occurrence of each usable path. The
    pixel work behind each variant (resampling, contrast, sharpening, PNG
    output) is GD's and is not modelled; a variant is the path it is saved to. */
module Variants {
  import opened Php

  datatype Decoder = Jpeg | Png | Gif | Webp | Bmp

  /** extension_loaded('gd'), function_exists('imagecreatefromwebp') and
      function_exists('imagecreatefrombmp'). */
  datatype GdSupport = GdSupport(loaded: bool, webp: bool, bmp: bool)

  /** The decoder createImageFromFile picks: the first of jpeg/jpg, png, gif,
      webp, bmp that occurs in the lower-cased MIME type, where webp and bmp
      also need their decoder to exist. None means the function returns null. */
  function DecoderFor(mime: string, gd: GdSupport): Option<Decoder>
  {
    var m := ToLower(mime);
    if Contains(m, "jpeg") || Contains(m, "jpg") then Some(Jpeg)
    else if Contains(m, "png") then Some(Png)
    else if Contains(m, "gif") then Some(Gif)
    else if Contains(m, "webp") && gd.webp then Some(Webp)
    else if Contains(m, "bmp") && gd.bmp then Some(Bmp)
    else None
  }

  /** The MIME types the endpoint accepts for an upload (a strict in_array
      over jpeg, png, gif, webp, bmp and tiff). */
  predicate IsAllowedMime(mime: string)
  {
    || mime == "image/jpeg" || mime == "image/png" || mime == "image/gif"
    || mime == "image/webp" || mime == "image/bmp" || mime == "image/tiff"
  }

  /** Every allowed MIME type except image/tiff selects a decoder when GD has
      all of them; image/tiff passes the allow-list but selects none. */
  lemma AllowedMimeDecoders(mime: string)
    requires IsAllowedMime(mime)
    ensures DecoderFor(mime, GdSupport(true, true, true)).Some? <==> mime != "image/tiff"
  {
    var gd := GdSupport(true, true, true);
    if mime == "image/tiff" {
      TiffHasNoDecoder(gd);
    } else {
      NonTiffAllowedMimeDecodes(mime);
    }
  }

  lemma NonTiffAllowedMimeDecodes(mime: string)
    requires IsAllowedMime(mime) && mime != "image/tiff"
    ensures DecoderFor(mime, GdSupport(true, true, true)).Some?
  {
    AllowedMimeIsLowerCase(mime);
    assert mime[6..] == "jpeg" || mime[6..] == "png" || mime[6..] == "gif"
        || mime[6..] == "webp" || mime[6..] == "bmp";
    SubtypeSelectsDecoder(mime, 6);
  }

  /** A lower-case MIME type whose tail names a format selects a decoder. */
  lemma SubtypeSelectsDecoder(mime: string, k: nat)
    requires k <= |mime| && ToLower(mime) == mime
    requires mime[k..] == "jpeg" || mime[k..] == "png" || mime[k..] == "gif"
          || mime[k..] == "webp" || mime[k..] == "bmp"
    ensures DecoderFor(mime, GdSupport(true, true, true)).Some?
  {
    ContainsSuffix(mime, k);
  }

  /** The allowed MIME types are already lower case. */
  lemma AllowedMimeIsLowerCase(mime: string)
    requires IsAllowedMime(mime)
    ensures ToLower(mime) == mime
  {
    if mime == "image/jpeg" {
      ToLowerKeepsLower("image/jpeg");
    } else if mime == "image/png" {
      ToLowerKeepsLower("image/png");
    } else if mime == "image/gif" {
      ToLowerKeepsLower("image/gif");
    } else if mime == "image/webp" {
      ToLowerKeepsLower("image/webp");
    } else if mime == "image/bmp" {
      ToLowerKeepsLower("image/bmp");
    } else {
      ToLowerKeepsLower("image/tiff");
    }
  }

  /** image/tiff selects no decoder, whatever GD provides. */
  lemma TiffHasNoDecoder(gd: GdSupport)
    ensures DecoderFor("image/tiff", gd) == None
  {
    AllowedMimeIsLowerCase("image/tiff");
    TiffLacksNeedle("jpeg");
    TiffLacksNeedle("jpg");
    TiffLacksNeedle("png");
    TiffLacksNeedle("webp");
    TiffLacksNeedle("bmp");
    TiffLacksGif();
  }

  lemma TiffLacksNeedle(needle: string)
    requires needle == "jpeg" || needle == "jpg" || needle == "png" || needle == "webp" || needle == "bmp"
    ensures !Contains("image/tiff", needle)
  {
    NotContainsWithoutFirstChar("image/tiff", needle);
  }

  lemma TiffLacksGif()
    ensures !Contains("image/tiff", "gif")
  {
    var m := "image/tiff";
    assert m[4..] == "e/tiff";
    NotContainsWithoutFirstChar(m[4..], "gif");
    assert !Contains(m[3..], "gif");
    assert !Contains(m[2..], "gif");
    assert !Contains(m[1..], "gif");
  }

  /** What createImageFromFile hands back: null (no decoder), GD's false
      (the decoder failed on the file), or an image of the given size. */
  datatype Image = NoImage | DecodeFailed | Decoded(width: nat, height: nat)

  /** createImageFromFile(path, mime). `decode` stands for the GD decoders:
      the size of the image a decoder reads from a path, or None when it
      returns false. */
  function CreateImageFromFile(path: string, mime: string, gd: GdSupport,
                               decode: (Decoder, string) -> Option<(nat, nat)>): (img: Image)
    ensures img.NoImage? <==> DecoderFor(mime, gd).None?
    ensures img.Decoded? <==> DecoderFor(mime, gd).Some? && decode(DecoderFor(mime, gd).value, path).Some?
    ensures img.Decoded? ==> decode(DecoderFor(mime, gd).value, path) == Some((img.width, img.height))
  {
    match DecoderFor(mime, gd)
    case None => NoImage
    case Some(d) =>
      match decode(d, path)
      case None => DecodeFailed
      case Some(size) => Decoded(size.0, size.1)
  }

  /** What buildPreprocessedVariants goes on to do once GD has been asked. */
  datatype Plan = OriginalOnly | Resample(width: nat, height: nat) | ThrowsTypeError

  /** The decision as the source writes it: without GD, or when
      createImageFromFile returns null, only the original is used. A decoder
      that fails returns false, which the `=== null` test lets through, and
      imagesx(false) then throws a TypeError. */
  function VariantPlanAsWritten(src: string, mime: string, gd: GdSupport,
                                decode: (Decoder, string) -> Option<(nat, nat)>): Plan
  {
    if !gd.loaded then OriginalOnly
    else
      match CreateImageFromFile(src, mime, gd, decode)
      case NoImage => OriginalOnly
      case DecodeFailed => ThrowsTypeError
      case Decoded(w, h) => Resample(w, h)
  }

  /** A JPEG upload that GD cannot decode makes the source throw. */
  lemma CorruptJpegThrowsAsWritten(src: string)
    ensures VariantPlanAsWritten(src, "image/jpeg", GdSupport(true, true, true), (d, p) => None)
         == ThrowsTypeError
  {
    JpegSelectsJpeg(GdSupport(true, true, true));
  }

  /** image/jpeg selects the JPEG decoder. */
  lemma JpegSelectsJpeg(gd: GdSupport)
    ensures DecoderFor("image/jpeg", gd) == Some(Jpeg)
  {
    var mime := "image/jpeg";
    AllowedMimeIsLowerCase(mime);
    assert mime[6..] == "jpeg";
    ContainsSuffix(mime, 6);
  }

  /** The decision as intended: a file GD cannot read falls back to the
      original alone, like a MIME type without a decoder. */
  function VariantPlan(src: string, mime: string, gd: GdSupport,
                       decode: (Decoder, string) -> Option<(nat, nat)>): (p: Plan)
    ensures !p.ThrowsTypeError?
    ensures p.OriginalOnly? <==> !gd.loaded || !CreateImageFromFile(src, mime, gd, decode).Decoded?
    ensures p.Resample? ==> CreateImageFromFile(src, mime, gd, decode) == Decoded(p.width, p.height)
    ensures !VariantPlanAsWritten(src, mime, gd, decode).ThrowsTypeError? ==>
      p == VariantPlanAsWritten(src, mime, gd, decode)
  {
    if !gd.loaded then OriginalOnly
    else
      match CreateImageFromFile(src, mime, gd, decode)
      case Decoded(w, h) => Resample(w, h)
      case _ => OriginalOnly
  }

  /** The paths tempPathLike hands out for the five derived images. */
  datatype VariantNames = VariantNames(downscale: string, upscale: string,
                                       contrast: string, sharpen: string, binarize: string)

  function Max(a: int, b: int): int { if a < b then b else a }
  function Min(a: int, b: int): int { if a < b then a else b }

  const DownscaleAbove := 2200
  const UpscaleBelow := 600

  /** The variants in the order they are appended: the original; the 0.6
      downscale when the longer side exceeds 2200; the 2.0 upscale when the
      shorter side is below 600; then grayscale with contrast -25, grayscale
      with contrast -40 and a sharpen kernel, and the 140 threshold. */
  function Candidates(src: string, width: nat, height: nat, names: VariantNames): seq<string>
  {
    [src]
    + (if Max(width, height) > DownscaleAbove then [names.downscale] else [])
    + (if Min(width, height) < UpscaleBelow then [names.upscale] else [])
    + [names.contrast, names.sharpen, names.binarize]
  }

  /** A path survives the final filter when it is a non-empty string naming
      an existing file. */
  predicate Usable(path: string, fileExists: string -> bool)
  {
    path != "" && fileExists(path)
  }

  /** The de-duplicated list, defined prefix by prefix: the last path is
      appended when it is usable and not yet present. */
  function Dedup(paths: seq<string>, fileExists: string -> bool): seq<string>
  {
    if paths == [] then []
    else
      var kept := Dedup(paths[..|paths| - 1], fileExists);
      var last := paths[|paths| - 1];
      if Usable(last, fileExists) && last !in kept then kept + [last] else kept
  }

  ghost predicate NoDuplicates(s: seq<string>)
  {
    forall i, j :: 0 <= i < j < |s| ==> s[i] != s[j]
  }

  /** Index of the first occurrence of x in s. */
  function FirstIndex(s: seq<string>, x: string): (k: nat)
    requires x in s
    ensures k < |s| && s[k] == x
    ensures forall i :: 0 <= i < k ==> s[i] != x
  {
    if s[0] == x then 0 else 1 + FirstIndex(s[1..], x)
  }

  lemma FirstIndexOfExtension(s: seq<string>, v: string, x: string)
    requires x in s + [v]
    ensures x in s ==> FirstIndex(s + [v], x) == FirstIndex(s, x)
    ensures x !in s ==> FirstIndex(s + [v], x) == |s|
  {
    var k := FirstIndex(s + [v], x);
    if x in s {
      var j := FirstIndex(s, x);
      assert (s + [v])[j] == x;
    }
  }

  /** The de-duplicated list holds exactly the usable paths of the input,
      each once, in the order of their first occurrence. */
  lemma {:induction false} DedupIsFirstOccurrences(paths: seq<string>, fileExists: string -> bool)
    ensures forall x :: x in Dedup(paths, fileExists) <==> x in paths && Usable(x, fileExists)
    ensures NoDuplicates(Dedup(paths, fileExists))
    ensures forall i, j :: 0 <= i < j < |Dedup(paths, fileExists)| ==>
      FirstIndex(paths, Dedup(paths, fileExists)[i]) < FirstIndex(paths, Dedup(paths, fileExists)[j])
  {
    if paths != [] {
      var prefix := paths[..|paths| - 1];
      var last := paths[|paths| - 1];
      assert paths == prefix + [last];
      DedupIsFirstOccurrences(prefix, fileExists);
      var kept := Dedup(prefix, fileExists);
      var r := Dedup(paths, fileExists);
      forall i, j | 0 <= i < j < |r|
        ensures FirstIndex(paths, r[i]) < FirstIndex(paths, r[j])
      {
        assert r[i] in paths && r[j] in paths;
        FirstIndexOfExtension(prefix, last, r[i]);
        FirstIndexOfExtension(prefix, last, r[j]);
        if j == |kept| {
          assert r[j] == last && r[j] !in prefix;
          assert r[i] == kept[i] && r[i] in prefix;
        } else {
          assert r[i] == kept[i] && r[j] == kept[j];
        }
      }
    }
  }

  /** A list of distinct usable paths comes through de-duplication unchanged. */
  lemma {:induction false} DedupOfDistinct(paths: seq<string>, fileExists: string -> bool)
    requires NoDuplicates(paths)
    requires forall i :: 0 <= i < |paths| ==> Usable(paths[i], fileExists)
    ensures Dedup(paths, fileExists) == paths
  {
    if paths != [] {
      var prefix := paths[..|paths| - 1];
      DedupOfDistinct(prefix, fileExists);
      assert paths[|paths| - 1] !in prefix;
      assert prefix + [paths[|paths| - 1]] == paths;
    }
  }

  /** When the six names are distinct and each candidate that is added was
      written, the variant list starts with the original, holds the downscale
      exactly when the longer side exceeds 2200, the upscale exactly when the
      shorter side is below 600, and always the three filtered images. */
  lemma VariantPolicy(src: string, width: nat, height: nat, names: VariantNames, fileExists: string -> bool)
    requires NoDuplicates([src, names.downscale, names.upscale, names.contrast, names.sharpen, names.binarize])
    requires forall p :: p in Candidates(src, width, height, names) ==> Usable(p, fileExists)
    ensures var vs := Dedup(Candidates(src, width, height, names), fileExists);
      && vs == Candidates(src, width, height, names)
      && vs[0] == src
      && (names.downscale in vs <==> Max(width, height) > DownscaleAbove)
      && (names.upscale in vs <==> Min(width, height) < UpscaleBelow)
      && names.contrast in vs && names.sharpen in vs && names.binarize in vs
      && 4 <= |vs| <= 6
  {
    CandidatesShape(src, width, height, names);
    var c := Candidates(src, width, height, names);
    assert forall i :: 0 <= i < |c| ==> c[i] in c;
    DedupOfDistinct(c, fileExists);
  }

  /** With distinct names, the candidate list has no duplicates and holds
      each resized image exactly when its size test passes. */
  lemma CandidatesShape(src: string, width: nat, height: nat, names: VariantNames)
    requires NoDuplicates([src, names.downscale, names.upscale, names.contrast, names.sharpen, names.binarize])
    ensures var c := Candidates(src, width, height, names);
      && NoDuplicates(c)
      && c[0] == src
      && (names.downscale in c <==> Max(width, height) > DownscaleAbove)
      && (names.upscale in c <==> Min(width, height) < UpscaleBelow)
      && names.contrast in c && names.sharpen in c && names.binarize in c
      && 4 <= |c| <= 6
  {
    NamesDistinct(src, names);
    var c := Candidates(src, width, height, names);
    var (s, d, u) := (src, names.downscale, names.upscale);
    var (k, h, b) := (names.contrast, names.sharpen, names.binarize);
    if Max(width, height) > DownscaleAbove && Min(width, height) < UpscaleBelow {
      assert c == [s, d, u, k, h, b];
    } else if Max(width, height) > DownscaleAbove {
      assert c == [s, d, k, h, b];
    } else if Min(width, height) < UpscaleBelow {
      assert c == [s, u, k, h, b];
    } else {
      assert c == [s, k, h, b];
    }
  }

  /** The six names of one request are pairwise distinct. */
  lemma NamesDistinct(src: string, names: VariantNames)
    requires NoDuplicates([src, names.downscale, names.upscale, names.contrast, names.sharpen, names.binarize])
    ensures src != names.downscale && src != names.upscale && src != names.contrast
    ensures src != names.sharpen && src != names.binarize
    ensures names.downscale != names.upscale && names.downscale != names.contrast
    ensures names.downscale != names.sharpen && names.downscale != names.binarize
    ensures names.upscale != names.contrast && names.upscale != names.sharpen && names.upscale != names.binarize
    ensures names.contrast != names.sharpen && names.contrast != names.binarize && names.sharpen != names.binarize
  {
    var all := [src, names.downscale, names.upscale, names.contrast, names.sharpen, names.binarize];
    assert all[0] != all[1] && all[0] != all[2] && all[0] != all[3] && all[0] != all[4] && all[0] != all[5];
    assert all[1] != all[2] && all[1] != all[3] && all[1] != all[4] && all[1] != all[5];
    assert all[2] != all[3] && all[2] != all[4] && all[2] != all[5];
    assert all[3] != all[4] && all[3] != all[5] && all[4] != all[5];
  }

  /** The loop that drops empty and missing paths and keeps the first
      occurrence of each of the others. */
  method KeepFirstUsable(paths: seq<string>, fileExists: string -> bool) returns (clean: seq<string>)
    ensures clean == Dedup(paths, fileExists)
  {
    clean := [];
    for i := 0 to |paths|
      invariant clean == Dedup(paths[..i], fileExists)
    {
      assert paths[..i + 1][..i] == paths[..i];
      var v := paths[i];
      if v != "" && fileExists(v) && v !in clean {
        clean := clean + [v];
      }
    }
    assert paths[..|paths|] == paths;
  }

  /** The variants buildPreprocessedVariants returns once the decoding
      failure is handled: the original alone, or the filtered candidates. */
  function PlannedVariants(src: string, mime: string, gd: GdSupport,
                           decode: (Decoder, string) -> Option<(nat, nat)>,
                           names: VariantNames, fileExists: string -> bool): seq<string>
  {
    match VariantPlan(src, mime, gd, decode)
    case Resample(w, h) => Dedup(Candidates(src, w, h, names), fileExists)
    case _ => [src]
  }

  /** Without GD, or with a MIME type no decoder handles, the original is the
      only variant, whether or not it is a usable file. */
  lemma OriginalOnlyWithoutImage(src: string, mime: string, gd: GdSupport,
                                 decode: (Decoder, string) -> Option<(nat, nat)>,
                                 names: VariantNames, fileExists: string -> bool)
    requires !gd.loaded || DecoderFor(mime, gd).None?
    ensures PlannedVariants(src, mime, gd, decode, names, fileExists) == [src]
  {
  }

  /** image/tiff passes the allow-list but is never preprocessed. */
  lemma TiffIsNeverPreprocessed(src: string, gd: GdSupport,
                                decode: (Decoder, string) -> Option<(nat, nat)>,
                                names: VariantNames, fileExists: string -> bool)
    ensures IsAllowedMime("image/tiff")
    ensures PlannedVariants(src, "image/tiff", gd, decode, names, fileExists) == [src]
  {
    TiffHasNoDecoder(gd);
  }

  /** buildPreprocessedVariants (with the decoding failure handled): the
      original alone without GD or an image, otherwise the candidates appended
      in order and then filtered by KeepFirstUsable. */
  method BuildPreprocessedVariants(src: string, mime: string, gd: GdSupport,
                                   decode: (Decoder, string) -> Option<(nat, nat)>,
                                   names: VariantNames, fileExists: string -> bool)
    returns (variants: seq<string>)
    ensures variants == PlannedVariants(src, mime, gd, decode, names, fileExists)
  {
    if !gd.loaded {
      return [src];
    }
    var img := CreateImageFromFile(src, mime, gd, decode);
    if !img.Decoded? {
      return [src];
    }
    var w, h := img.width, img.height;
    var all := [src];
    if Max(w, h) > DownscaleAbove {
      all := all + [names.downscale];
    }
    if Min(w, h) < UpscaleBelow {
      all := all + [names.upscale];
    }
    all := all + [names.contrast, names.sharpen, names.binarize];
    assert all == Candidates(src, w, h, names);
    assert VariantPlan(src, mime, gd, decode) == Resample(w, h);
    variants := KeepFirstUsable(all, fileExists);
  }
}
