/** Request intake: where the image comes from (multipart upload, a rejected
    base64 field, or a public URL), and moveUploadToTemp's checks and the
    name it stores the upload under. */
module Intake {
  import opened Php

  /** UPLOAD_ERR_OK. */
  const UploadErrOk := 0

  /** The upload cap: 5 MiB. */
  const MaxUploadBytes := 5 * 1024 * 1024

  const InvalidUpload := "Invalid upload."
  const FileTooLarge := "File too large. Max 5MB."
  const StoreFailed := "Failed to store uploaded file."
  const Base64Refused := "Base64 is not accepted. Upload the image as multipart with field name `image`."
  const NoImageGiven := "Provide an image via multipart `image` or `image_url`."

  /** $_FILES['image']. `uploaded`: tmp_name is set and is_uploaded_file()
      accepts it. `size`: (int) of the size entry, 0 when it is missing.
      `name`: the client file name, '' when missing. */
  datatype UploadedFile = UploadedFile(error: int, uploaded: bool, size: int, name: string)

  /** The inputs of the intake decision. `upload`: $_FILES['image'] when set.
      `postImage`: $_POST['image'] when set. `imageBase64` and `imageUrl`:
      what postParam() returns for image_base64 and image_url (JSON body
      first, then form fields). */
  datatype Request = Request(upload: Option<UploadedFile>, postImage: Option<string>,
                             imageBase64: Option<string>, imageUrl: Option<string>)

  /** The result of moveUploadToTemp: the stored path, or the error response it sends. */
  datatype Stored = Stored(path: string) | Refused(status: int, error: string)

  /** Where the image comes from, or the error response intake sends. */
  datatype Source = FromUpload(path: string) | FromUrl(url: string) | Rejected(status: int, error: string)

  /** PHP truthiness of a ?string: null, '' and '0' are false. */
  predicate Truthy(s: Option<string>)
  {
    s.Some? && !IsPhpEmpty(s.value)
  }

  /** rtrim(s, c) for a single character c. */
  function StripTrailing(s: string, c: char): (r: string)
    ensures |r| <= |s|
    ensures r == [] || r[|r| - 1] != c
  {
    if |s| > 0 && s[|s| - 1] == c then StripTrailing(s[..|s| - 1], c) else s
  }

  /** rtrim keeps a prefix of s and drops only copies of c. */
  lemma {:induction false} StripTrailingIsPrefix(s: string, c: char)
    ensures StripTrailing(s, c) == s[..|StripTrailing(s, c)|]
    ensures forall i :: |StripTrailing(s, c)| <= i < |s| ==> s[i] == c
  {
    if |s| > 0 && s[|s| - 1] == c {
      var n := |s| - 1;
      StripTrailingIsPrefix(s[..n], c);
      assert s[..n][..|StripTrailing(s, c)|] == s[..|StripTrailing(s, c)|];
    }
  }

  /** The part of s after its last c; all of s when it has none. */
  function AfterLast(s: string, c: char): (r: string)
    ensures c !in r
  {
    if s == [] then []
    else if s[|s| - 1] == c then []
    else AfterLast(s[..|s| - 1], c) + [s[|s| - 1]]
  }

  /** AfterLast keeps a suffix of s, cut just after the last c when there is one. */
  lemma {:induction false} AfterLastIsSuffix(s: string, c: char)
    ensures |AfterLast(s, c)| <= |s| && AfterLast(s, c) == s[|s| - |AfterLast(s, c)|..]
    ensures c in s ==> |AfterLast(s, c)| < |s| && s[|s| - |AfterLast(s, c)| - 1] == c
    ensures c !in s ==> AfterLast(s, c) == s
  {
    if s != [] && s[|s| - 1] != c {
      var n := |s| - 1;
      var p := s[..n];
      var r := AfterLast(p, c);
      AfterLastIsSuffix(p, c);
      assert AfterLast(s, c) == r + [s[n]];
      assert r == s[n - |r|..n];
      assert s[n - |r|..] == s[n - |r|..n] + [s[n]];
      if c in s {
        assert c in p by {
          var i :| 0 <= i < |s| && s[i] == c;
          assert p[i] == c;
        }
        assert p[n - |r| - 1] == s[n - |r| - 1];
      } else {
        assert c !in p;
        assert s == p + [s[n]];
      }
    }
  }

  /** basename(): the last path component, ignoring trailing slashes. */
  function Basename(path: string): string
  {
    AfterLast(StripTrailing(path, '/'), '/')
  }

  /** pathinfo(name, PATHINFO_EXTENSION): what follows the last dot of the
      base name, or '' when the base name has no dot. */
  function Extension(name: string): (ext: string)
    ensures '.' !in ext
  {
    var b := Basename(name);
    if '.' in b then AfterLast(b, '.') else ""
  }

  /** The extension is what follows the last dot of the base name, and is
      empty when the base name has no dot. */
  lemma ExtensionFollowsLastDot(name: string)
    ensures var b := Basename(name);
      var ext := Extension(name);
      && ('.' in b ==> |ext| < |b| && b == b[..|b| - |ext| - 1] + "." + ext)
      && ('.' !in b ==> ext == "")
  {
    var b := Basename(name);
    AfterLastIsSuffix(b, '.');
    if '.' in b {
      var ext := Extension(name);
      assert b == b[..|b| - |ext| - 1] + [b[|b| - |ext| - 1]] + b[|b| - |ext|..];
    }
  }

  predicate IsAlnum(c: char)
  {
    'a' <= c <= 'z' || 'A' <= c <= 'Z' || '0' <= c <= '9'
  }

  /** preg_replace('/[^a-zA-Z0-9]/', '', ext). */
  function SanitizeExtension(ext: string): (r: string)
    ensures |r| <= |ext|
    ensures forall i :: 0 <= i < |r| ==> IsAlnum(r[i])
  {
    if ext == [] then []
    else (if IsAlnum(ext[0]) then [ext[0]] else []) + SanitizeExtension(ext[1..])
  }

  /** A single character is kept exactly when it is a letter or digit. */
  lemma SanitizeChar(c: char)
    ensures SanitizeExtension([c]) == if IsAlnum(c) then [c] else []
  {
    assert [c][1..] == [];
  }

  /** Sanitising works character by character: with SanitizeChar, the result
      is the letters and digits of the extension, in their order. */
  lemma {:induction false} SanitizeAppend(a: string, b: string)
    ensures SanitizeExtension(a + b) == SanitizeExtension(a) + SanitizeExtension(b)
  {
    if a != [] {
      assert (a + b)[0] == a[0];
      assert (a + b)[1..] == a[1..] + b;
      SanitizeAppend(a[1..], b);
    } else {
      assert a + b == b;
    }
  }

  /** Sanitising keeps an alphanumeric extension as it is, so sanitising is idempotent. */
  lemma {:induction false} SanitizeKeepsAlnum(ext: string)
    requires forall i :: 0 <= i < |ext| ==> IsAlnum(ext[i])
    ensures SanitizeExtension(ext) == ext
  {
    if ext != [] {
      assert forall i :: 0 <= i < |ext[1..]| ==> ext[1..][i] == ext[i + 1];
      SanitizeKeepsAlnum(ext[1..]);
    }
  }

  /** Sanitising drops exactly the characters that are not letters or digits. */
  lemma {:induction false} SanitizeCountsAlnum(ext: string)
    ensures |SanitizeExtension(ext)| == |ext| <==> forall i :: 0 <= i < |ext| ==> IsAlnum(ext[i])
  {
    if ext != [] {
      SanitizeCountsAlnum(ext[1..]);
      assert forall i :: 1 <= i < |ext| ==> ext[i] == ext[1..][i - 1];
      if !IsAlnum(ext[0]) {
        assert |SanitizeExtension(ext)| <= |ext[1..]|;
      }
    }
  }

  /** The target moveUploadToTemp moves the upload to: the temp directory
      without trailing slashes, a slash, the uniqid() name and, when the
      client name has an extension, a dot and its alphanumeric characters. */
  function StoredPath(tempDir: string, uniqName: string, clientName: string): string
  {
    var ext := Extension(clientName);
    StripTrailing(tempDir, '/') + "/" + uniqName + (if ext != "" then "." + SanitizeExtension(ext) else "")
  }

  /** moveUploadToTemp: the is_uploaded_file check, then the size check
      (an empty upload is refused too, with the same message), then the move.
      `moved` is whether move_uploaded_file succeeds. */
  function MoveUploadToTemp(file: UploadedFile, tempDir: string, uniqName: string, moved: bool): Stored
  {
    if !file.uploaded then Refused(400, InvalidUpload)
    else if file.size <= 0 || file.size > MaxUploadBytes then Refused(413, FileTooLarge)
    else if !moved then Refused(500, StoreFailed)
    else Stored(StoredPath(tempDir, uniqName, file.name))
  }

  /** The checks run in order and each refusal has its own status; a stored
      upload held between 1 byte and 5 MiB. */
  lemma MoveUploadOutcome(file: UploadedFile, tempDir: string, uniqName: string, moved: bool)
    ensures var r := MoveUploadToTemp(file, tempDir, uniqName, moved);
      && (r == Refused(400, InvalidUpload) <==> !file.uploaded)
      && (r == Refused(413, FileTooLarge) <==> file.uploaded && !(1 <= file.size <= MaxUploadBytes))
      && (r == Refused(500, StoreFailed) <==> file.uploaded && 1 <= file.size <= MaxUploadBytes && !moved)
      && (r.Stored? <==> file.uploaded && 1 <= file.size <= MaxUploadBytes && moved)
  {
  }

  /** The stored name lies in the temp directory, starts with the uniqid()
      name and ends, if at all, with a dot and letters or digits only. An
      extension made only of other characters leaves a bare trailing dot. */
  lemma StoredPathShape(tempDir: string, uniqName: string, clientName: string)
    ensures var p := StoredPath(tempDir, uniqName, clientName);
      var head := StripTrailing(tempDir, '/') + "/" + uniqName;
      && head <= p
      && (Extension(clientName) == "" ==> p == head)
      && (Extension(clientName) != "" ==>
            |p| > |head| && p[|head|] == '.' && forall i :: |head| < i < |p| ==> IsAlnum(p[i]))
  {
    var p := StoredPath(tempDir, uniqName, clientName);
    var head := StripTrailing(tempDir, '/') + "/" + uniqName;
    var ext := Extension(clientName);
    if ext != "" {
      var tail := "." + SanitizeExtension(ext);
      assert p == head + tail;
      forall i | |head| < i < |p| ensures IsAlnum(p[i]) {
        assert p[i] == SanitizeExtension(ext)[i - |head| - 1];
      }
    }
  }

  /** The intake decision of the endpoint, in its order: an upload without
      an upload error, then the refusal of base64 fields, then a valid URL,
      else 400. `validUrl` stands for filter_var(FILTER_VALIDATE_URL). */
  function ChooseSource(req: Request, validUrl: string -> bool, tempDir: string, uniqName: string, moved: bool): Source
  {
    if req.upload.Some? && req.upload.value.error == UploadErrOk then
      match MoveUploadToTemp(req.upload.value, tempDir, uniqName, moved)
      case Refused(status, error) => Rejected(status, error)
      case Stored(path) => FromUpload(path)
    else if Truthy(req.imageBase64) || (req.upload.None? && Truthy(req.postImage)) then
      Rejected(415, Base64Refused)
    else if req.imageUrl.Some? && validUrl(req.imageUrl.value) then
      FromUrl(req.imageUrl.value)
    else
      Rejected(400, NoImageGiven)
  }

  /** An upload without error is always the source, or its own refusal: the
      base64 and URL fields are not looked at. */
  lemma UploadTakesPrecedence(req: Request, validUrl: string -> bool, tempDir: string, uniqName: string, moved: bool)
    requires req.upload.Some? && req.upload.value.error == UploadErrOk
    ensures var s := ChooseSource(req, validUrl, tempDir, uniqName, moved);
      && (s.FromUpload? <==> MoveUploadToTemp(req.upload.value, tempDir, uniqName, moved).Stored?)
      && (s.Rejected? ==> s.status in {400, 413, 500})
      && !s.FromUrl?
  {
  }

  /** Without a usable upload, a truthy base64 field is refused with 415
      even when a valid URL is given too; an image field posted as text
      counts only when no file part named image was sent. */
  lemma Base64IsRefused(req: Request, validUrl: string -> bool, tempDir: string, uniqName: string, moved: bool)
    requires !(req.upload.Some? && req.upload.value.error == UploadErrOk)
    ensures ChooseSource(req, validUrl, tempDir, uniqName, moved) == Rejected(415, Base64Refused)
        <==> Truthy(req.imageBase64) || (req.upload.None? && Truthy(req.postImage))
  {
  }

  /** A URL is used exactly when there is no usable upload, no truthy base64
      field, and postParam's image_url passes validation; with none of the
      three the request ends in 400. */
  lemma UrlOrNothing(req: Request, validUrl: string -> bool, tempDir: string, uniqName: string, moved: bool)
    ensures var s := ChooseSource(req, validUrl, tempDir, uniqName, moved);
      && (s.FromUrl? <==>
            (&& !(req.upload.Some? && req.upload.value.error == UploadErrOk)
             && !Truthy(req.imageBase64) && !(req.upload.None? && Truthy(req.postImage))
             && req.imageUrl.Some? && validUrl(req.imageUrl.value)))
      && (s.FromUrl? ==> s.url == req.imageUrl.value)
      && (s == Rejected(400, NoImageGiven) <==>
            (&& !(req.upload.Some? && req.upload.value.error == UploadErrOk)
             && !Truthy(req.imageBase64) && !(req.upload.None? && Truthy(req.postImage))
             && !(req.imageUrl.Some? && validUrl(req.imageUrl.value))))
  {
  }

  /** PHP truthiness: an image_base64 of '0' is not refused, and a valid URL
      beside it is used. */
  lemma ZeroBase64IsIgnored(url: string, validUrl: string -> bool, tempDir: string, uniqName: string, moved: bool)
    requires validUrl(url)
    ensures ChooseSource(Request(None, None, Some("0"), Some(url)), validUrl, tempDir, uniqName, moved) == FromUrl(url)
  {
  }
}
