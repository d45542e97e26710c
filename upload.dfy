/** The image upload endpoint `POST /api/upload` (server.ts): multer's
    single-file handling with the type filter and the 5 MB size limit, and
    the URL it answers with. */
module Upload {
  import opened Optional

  /** What multer sees of the uploaded file part. */
  datatype FilePart = FilePart(fieldName: string, mimetype: string, originalName: string, size: nat)

  /** `200 {imageUrl}` or `status {error}`. */
  datatype UploadReply = Stored(imageUrl: string) | Rejected(status: int, error: string)

  /** `limits.fileSize`, in bytes. */
  const MaxFileSize: nat := 5 * 1024 * 1024

  /** `t` occurs somewhere in `s`. */
  predicate Contains(s: string, t: string)
    decreases |s|
  {
    t <= s || (s != [] && Contains(s[1..], t))
  }

  lemma {:induction false} ContainsNeedsRoom(s: string, t: string)
    requires Contains(s, t)
    ensures |t| <= |s|
    decreases |s|
  {
    if !(t <= s) {
      ContainsNeedsRoom(s[1..], t);
    }
  }

  /** `/jpeg|jpg|png|gif/.test(s)`: the pattern is not anchored. */
  predicate IsImageType(s: string) {
    Contains(s, "jpeg") || Contains(s, "jpg") || Contains(s, "png") || Contains(s, "gif")
  }

  /** `toLowerCase()`: each capital becomes the same letter in lower case,
      everything else is kept. (Only ASCII letters can lower-case to part of
      one of the patterns without adding a character in between.) */
  function AsciiLower(s: string): (r: string)
    ensures |r| == |s|
    ensures forall i :: 0 <= i < |s| && !('A' <= s[i] <= 'Z') ==> r[i] == s[i]
    ensures forall i :: 0 <= i < |s| && 'A' <= s[i] <= 'Z' ==>
      'a' <= r[i] <= 'z' && r[i] as int - 'a' as int == s[i] as int - 'A' as int
  {
    seq(|s|, i requires 0 <= i < |s| => if 'A' <= s[i] <= 'Z' then (s[i] as int + 32) as char else s[i])
  }

  /** The position of the last '.' in `s`, or -1. */
  function LastDot(s: string): (p: int)
    ensures -1 <= p < |s|
    ensures p >= 0 ==> s[p] == '.'
    ensures forall i :: p < i < |s| ==> s[i] != '.'
    decreases |s|
  {
    if s == [] then -1
    else if s[|s| - 1] == '.' then |s| - 1
    else LastDot(s[..|s| - 1])
  }

  /** `path.extname(name)` for a name without '/': from the last '.' on,
      unless that dot starts the name or the name is "..". */
  function Extname(name: string): (ext: string)
    ensures ext == "" || (ext[0] == '.' && '.' !in ext[1..] && |ext| < |name| && name[|name| - |ext|..] == ext)
    ensures ext != "" <==> 0 < LastDot(name) && name != ".."
  {
    var p := LastDot(name);
    if p <= 0 || name == ".." then "" else name[p..]
  }

  /** multer's `fileFilter`: both the declared type and the lower-cased
      extension of the original name must match the pattern. */
  predicate FileFilter(mimetype: string, originalName: string) {
    IsImageType(mimetype) && IsImageType(AsciiLower(Extname(originalName)))
  }

  /** `t` occurs in `s` at position `k`. */
  lemma {:induction false} ContainsAt(s: string, t: string, k: nat)
    requires k + |t| <= |s| && s[k..k + |t|] == t
    ensures Contains(s, t)
    decreases k
  {
    if k == 0 {
      assert s[..|t|] == t;
    } else {
      assert s[1..][k - 1..k - 1 + |t|] == s[k..k + |t|];
      ContainsAt(s[1..], t, k - 1);
    }
  }

  lemma LowerPng()
    ensures AsciiLower(".PNG") == ".png"
  {
    var low := AsciiLower(".PNG");
    assert low[0] == '.' && low[1] == 'p' && low[2] == 'n' && low[3] == 'g';
  }

  /** The extension's case does not matter. */
  lemma FilterIgnoresCase()
    ensures FileFilter("image/png", "Flyer.PNG")
  {
    assert "Flyer.PNG"[0] != '.';
    ExtnameOf("Flyer", "PNG", "Flyer.PNG");
    LowerPng();
    ContainsAt(".png", "png", 1);
    ContainsAt("image/png", "png", 6);
  }

  /** The pattern is not anchored: it matches wherever it occurs, so an
      extension such as ".apng" or ".pngx" passes as well. */
  lemma PatternMatchesAnywhere(pre: string, t: string, post: string)
    ensures Contains(pre + t + post, t)
  {
    var s := pre + t + post;
    assert s[|pre|..|pre| + |t|] == t;
    ContainsAt(s, t, |pre|);
  }

  /** A name that is only an extension has none, a name without a dot has
      none, and the declared type must match as well. */
  lemma FilterRejections()
    ensures !FileFilter("image/png", ".png")
    ensures !FileFilter("image/png", "flyer")
    ensures !FileFilter("text/html", "flyer.png")
  {
    assert Extname(".png") == "" by { LastDotOf("", "png"); }
    assert Extname("flyer") == "" by { LastDotNone("flyer"); }
    NoImageTypeIn("");
    NoImageTypeIn("text/html");
  }

  /** The last dot of `stem + "." + ext`, when `ext` has none, is the one
      before `ext`. */
  lemma {:induction false} LastDotOf(stem: string, ext: string)
    requires '.' !in ext
    ensures LastDot(stem + "." + ext) == |stem|
    decreases |ext|
  {
    var s := stem + "." + ext;
    if ext == [] {
      assert s[|s| - 1] == '.';
    } else {
      var e' := ext[..|ext| - 1];
      assert s[|s| - 1] == ext[|ext| - 1] && s[..|s| - 1] == stem + "." + e';
      assert '.' !in e' by { assert forall i :: 0 <= i < |e'| ==> e'[i] == ext[i]; }
      LastDotOf(stem, e');
    }
  }

  lemma {:induction false} LastDotNone(s: string)
    requires '.' !in s
    ensures LastDot(s) == -1
    decreases |s|
  {
    if s != [] {
      var s' := s[..|s| - 1];
      assert '.' !in s' by { assert forall i :: 0 <= i < |s'| ==> s'[i] == s[i]; }
      LastDotNone(s');
    }
  }

  /** `path.extname("stem.ext")` is ".ext" for a non-empty stem and an
      extension without a dot, except for the name "..". */
  lemma ExtnameOf(stem: string, ext: string, name: string)
    requires name == stem + "." + ext && stem != [] && name != ".."
    requires forall i :: 0 <= i < |ext| ==> ext[i] != '.'
    ensures Extname(name) == "." + ext
  {
    LastDotOf(stem, ext);
    assert name[|stem|..] == "." + ext;
  }

  /** A string without 'p', 'j' or 'g', the first letters of the
      patterns, matches none of them. */
  lemma {:induction false} NoImageTypeIn(s: string)
    requires forall i :: 0 <= i < |s| ==> s[i] !in "pjg"
    ensures !IsImageType(s)
    decreases |s|
  {
    if s != [] {
      NoImageTypeIn(s[1..]);
      assert s[0] !in "pjg";
    }
  }

  /** A name the filter lets through has a real extension, which is the
      end of the name. */
  lemma AcceptedNameHasExtension(mimetype: string, originalName: string)
    requires FileFilter(mimetype, originalName)
    ensures var ext := Extname(originalName);
      |ext| >= 4 && ext[0] == '.' && originalName[|originalName| - |ext|..] == ext
  {
    var low := AsciiLower(Extname(originalName));
    // the extension starts with '.', so no pattern matches at its start
    assert low[0] == '.';
    var t := if Contains(low, "jpeg") then "jpeg" else if Contains(low, "jpg") then "jpg"
      else if Contains(low, "png") then "png" else "gif";
    assert Contains(low, t) && !(t <= low);
    ContainsNeedsRoom(low[1..], t);
  }

  /** The whole endpoint. `file` is the part multer reads (`None` when the
      request carries no file; multer also skips a part whose file name is
      empty, which then counts as no file); `stem` is the generated
      `Date.now() + '-' + random` part of the stored file's name. */
  function HandleUpload(file: Option<FilePart>, stem: string): (r: UploadReply)
    ensures r.Rejected? ==> r.status == 400
    ensures file.None? || file.value.originalName == "" ==> r == Rejected(400, "No file uploaded")
    ensures r.Stored? <==>
      file.Some? && file.value.fieldName == "image" &&
      FileFilter(file.value.mimetype, file.value.originalName) && file.value.size <= MaxFileSize
    ensures file.Some? && file.value.originalName != "" && file.value.fieldName == "image" && !FileFilter(file.value.mimetype, file.value.originalName) ==>
      r == Rejected(400, "Only .png, .jpg and .gif format allowed!")
    ensures r.Stored? ==> r.imageUrl == "/uploads/" + stem + Extname(file.value.originalName)
  {
    match file
    case None => Rejected(400, "No file uploaded")
    case Some(f) =>
      if f.originalName == "" then Rejected(400, "No file uploaded")
      else if f.fieldName != "image" then Rejected(400, "Upload error: Unexpected field")
      else if !FileFilter(f.mimetype, f.originalName) then Rejected(400, "Only .png, .jpg and .gif format allowed!")
      else if f.size > MaxFileSize then Rejected(400, "Upload error: File too large")
      else Stored("/uploads/" + stem + Extname(f.originalName))
  }

  /** A stored image's URL ends with the original name's extension. */
  lemma StoredUrlKeepsExtension(file: FilePart, stem: string)
    requires HandleUpload(Some(file), stem).Stored?
    ensures var url, ext := HandleUpload(Some(file), stem).imageUrl, Extname(file.originalName);
      |ext| >= 4 && url[..9] == "/uploads/" && url[|url| - |ext|..] == ext
  {
    AcceptedNameHasExtension(file.mimetype, file.originalName);
  }

  /** The size limit is inclusive: a file of exactly 5 MB is accepted, one
      byte more is not. */
  lemma SizeLimitBoundary(name: string, stem: string)
    requires FileFilter("image/png", name)
    ensures HandleUpload(Some(FilePart("image", "image/png", name, MaxFileSize)), stem).Stored?
    ensures HandleUpload(Some(FilePart("image", "image/png", name, MaxFileSize + 1)), stem) ==
      Rejected(400, "Upload error: File too large")
  {
  }
}
