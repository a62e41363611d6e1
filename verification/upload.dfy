/** The image upload filter of the API: a file is accepted when both its
    lower-cased extension and its MIME type contain jpeg, jpg, png or webp
    anywhere, it may be at most 5,000,000 bytes, and it is stored as
    `<field>-<timestamp><extension>`. */
module Upload {
  import opened Common
  import opened Text

  // ---------------------------------------------------------------------
  // path.extname
  // ---------------------------------------------------------------------

  /** The path without its trailing slashes. */
  function StripTrailingSlashes(path: string): (r: string)
    ensures |r| <= |path| && r == path[..|r|]
    ensures |r| == 0 || r[|r| - 1] != '/'
    ensures forall i :: |r| <= i < |path| ==> path[i] == '/'
  {
    if |path| > 0 && path[|path| - 1] == '/' then StripTrailingSlashes(path[..|path| - 1])
    else path
  }

  /** The index of the last occurrence of `c`, if any. */
  function LastIndexOf(s: string, c: char): (r: Option<nat>)
    ensures r.Some? ==> r.value < |s| && s[r.value] == c
                        && forall i :: r.value < i < |s| ==> s[i] != c
    ensures r.None? ==> forall i :: 0 <= i < |s| ==> s[i] != c
  {
    if |s| == 0 then None
    else if s[|s| - 1] == c then Some(|s| - 1)
    else LastIndexOf(s[..|s| - 1], c)
  }

  /** The last path segment. */
  function LastSegment(path: string): (r: string)
    ensures forall i :: 0 <= i < |r| ==> r[i] != '/'
    ensures IsTail(r, path)
  {
    match LastIndexOf(path, '/')
    case None => path
    case Some(k) => path[k + 1..]
  }

  /** The extension of a file name without slashes: from its last dot on,
      but nothing for a name without a dot, a name whose only dot leads it,
      and "..". */
  function BaseExtension(base: string): (ext: string)
    ensures ext == "" || ext[0] == '.'
    ensures forall i :: 1 <= i < |ext| ==> ext[i] != '.'
    ensures IsTail(ext, base)
  {
    match LastIndexOf(base, '.')
    case None => ""
    case Some(k) =>
      if k == 0 || base == ".." then "" else base[k..]
  }

  /** `path.extname(p)`. */
  function ExtName(path: string): (r: string)
    ensures r == "" || r[0] == '.'
  {
    BaseExtension(LastSegment(StripTrailingSlashes(path)))
  }

  /** The extension is the tail of the path once its trailing slashes are
      dropped; it holds no slash and no dot but the leading one. */
  lemma ExtNameIsTail(path: string)
    ensures forall i :: 0 <= i < |ExtName(path)| ==> ExtName(path)[i] != '/'
    ensures forall i :: 1 <= i < |ExtName(path)| ==> ExtName(path)[i] != '.'
    ensures IsTail(ExtName(path), StripTrailingSlashes(path))
  {
    var p := StripTrailingSlashes(path);
    var base := LastSegment(p);
    var r := BaseExtension(base);
    assert ExtName(path) == r;
    TailOfTail(p, base, r);
    TailKeepsNoSlash(base, r);
  }

  lemma TailKeepsNoSlash(base: string, r: string)
    requires IsTail(r, base) && forall i :: 0 <= i < |base| ==> base[i] != '/'
    ensures forall i :: 0 <= i < |r| ==> r[i] != '/'
  {
    forall i | 0 <= i < |r| ensures r[i] != '/' {
      assert r[i] == base[|base| - |r| + i];
    }
  }

  /** `r` is what remains of `p` after dropping a prefix. */
  predicate IsTail(r: string, p: string) {
    |r| <= |p| && r == p[|p| - |r|..]
  }

  /** A tail of a tail is a tail. */
  lemma TailOfTail(p: string, q: string, r: string)
    requires IsTail(q, p) && IsTail(r, q)
    ensures IsTail(r, p)
  {
  }

  /** A plain name with one extension has that extension. */
  lemma ExtNameOfPlainName(stem: string, ext: string)
    requires |stem| > 0
    requires forall i :: 0 <= i < |stem| ==> stem[i] != '.' && stem[i] != '/'
    requires forall i :: 0 <= i < |ext| ==> ext[i] != '.' && ext[i] != '/'
    requires |ext| > 0
    ensures ExtName(stem + "." + ext) == "." + ext
  {
    var name := stem + "." + ext;
    assert name[|name| - 1] == ext[|ext| - 1];
    assert StripTrailingSlashes(name) == name;
    assert LastSegment(name) == name by {
      assert forall i :: 0 <= i < |name| ==> name[i] != '/' by {
        forall i | 0 <= i < |name| ensures name[i] != '/' {
          if i < |stem| { assert name[i] == stem[i]; }
          else if i > |stem| { assert name[i] == ext[i - |stem| - 1]; }
        }
      }
    }
    var k := LastIndexOf(name, '.');
    assert name[|stem|] == '.';
    assert k == Some(|stem|) by {
      assert forall i :: |stem| < i < |name| ==> name[i] == ext[i - |stem| - 1];
    }
    assert name != ".." by { assert name[0] == stem[0]; }
    assert name[|stem|..] == "." + ext;
  }

  /** A dot file such as ".png" has no extension. */
  lemma DotFileHasNoExtension(ext: string)
    requires forall i :: 0 <= i < |ext| ==> ext[i] != '.' && ext[i] != '/'
    requires |ext| > 0
    ensures ExtName("." + ext) == ""
  {
    var name := "." + ext;
    assert name[|name| - 1] == ext[|ext| - 1];
    assert StripTrailingSlashes(name) == name;
    assert forall i :: 1 <= i < |name| ==> name[i] == ext[i - 1];
    assert LastSegment(name) == name;
    assert name[0] == '.';
    assert LastIndexOf(name, '.') == Some(0);
  }

  // ---------------------------------------------------------------------
  // The file filter
  // ---------------------------------------------------------------------

  /** `/jpeg|jpg|png|webp/.test(s)`: one of the four names occurs anywhere in
      `s`, in lower case. */
  predicate MatchesImageType(s: string)
    ensures MatchesImageType(s) ==> |s| >= 3
  {
    Contains(s, "jpeg") || Contains(s, "jpg") || Contains(s, "png") || Contains(s, "webp")
  }

  /** The test is unanchored: whatever surrounds a matching text, it still
      matches. */
  lemma MatchesImageTypeWithin(a: string, s: string, b: string)
    requires MatchesImageType(s)
    ensures MatchesImageType(a + s + b)
  {
    if Contains(s, "jpeg") { ContainsWithin(a, s, b, "jpeg"); }
    else if Contains(s, "jpg") { ContainsWithin(a, s, b, "jpg"); }
    else if Contains(s, "png") { ContainsWithin(a, s, b, "png"); }
    else { ContainsWithin(a, s, b, "webp"); }
  }

  /** An uploaded file as the filter sees it. */
  datatype UploadedFile = UploadedFile(fieldname: string, originalname: string, mimetype: string, size: nat)

  datatype FilterResult = Accepted | Rejected(message: string)

  /** `checkFileType`: the extension is lower-cased before the test, the MIME
      type is not. */
  function CheckFileType(file: UploadedFile): (r: FilterResult)
    ensures r.Accepted? <==> MatchesImageType(ToLower(ExtName(file.originalname)))
                             && MatchesImageType(file.mimetype)
    ensures r.Rejected? ==> r.message == "Images Only!"
  {
    var extOk := MatchesImageType(ToLower(ExtName(file.originalname)));
    var mimeOk := MatchesImageType(file.mimetype);
    if mimeOk && extOk then Accepted else Rejected("Images Only!")
  }

  /** A pattern whose first letter does not occur in `s` is not found. */
  lemma NotContainedWithoutFirstLetter(s: string, sub: string)
    requires |sub| > 0
    requires forall i :: 0 <= i < |s| ==> s[i] != sub[0]
    ensures !Contains(s, sub)
  {
    forall i | 0 <= i && i + |sub| <= |s| ensures !OccursAt(s, sub, i) {
      assert s[i..i + |sub|][0] == s[i];
    }
  }

  lemma ContainsAt(s: string, sub: string, i: nat)
    requires i + |sub| <= |s| && s[i..i + |sub|] == sub
    ensures Contains(s, sub)
  {
    assert OccursAt(s, sub, i);
  }

  /** A plain file name: not empty, no dot, no slash. */
  predicate PlainStem(stem: string) {
    |stem| > 0 && forall i :: 0 <= i < |stem| ==> stem[i] != '.' && stem[i] != '/'
  }

  /** The tests are unanchored: an extension that merely contains "jpg", such
      as ".jpgx", is accepted. */
  lemma UnanchoredExtensionAccepted(file: UploadedFile, stem: string)
    requires PlainStem(stem) && file.originalname == stem + ".jpgx"
    requires MatchesImageType(file.mimetype)
    ensures CheckFileType(file) == Accepted
  {
    JpgxMatches();
    PlainExtension(stem, ".jpgx", file.originalname);
    AcceptedByExtension(file, ".jpgx");
  }

  lemma JpgxMatches()
    ensures |".jpgx"| > 1 && ".jpgx"[0] == '.'
    ensures forall i :: 1 <= i < |".jpgx"| ==> ".jpgx"[i] != '.' && ".jpgx"[i] != '/'
    ensures MatchesImageType(ToLower(".jpgx"))
  {
    LowerExtensionMatches(".jpgx", "jpg", 1);
  }

  /** An upper-case extension such as ".JPG" is accepted, being lower-cased
      first. */
  lemma UpperCaseExtensionAccepted(file: UploadedFile, stem: string)
    requires PlainStem(stem) && file.originalname == stem + ".JPG"
    requires MatchesImageType(file.mimetype)
    ensures CheckFileType(file) == Accepted
  {
    UpperJpgMatches();
    PlainExtension(stem, ".JPG", file.originalname);
    AcceptedByExtension(file, ".JPG");
  }

  lemma UpperJpgMatches()
    ensures |".JPG"| > 1 && ".JPG"[0] == '.'
    ensures forall i :: 1 <= i < |".JPG"| ==> ".JPG"[i] != '.' && ".JPG"[i] != '/'
    ensures MatchesImageType(ToLower(".JPG"))
  {
    assert ToLower(".JPG") == ".jpg";
    LowerExtensionMatches(".JPG", "jpg", 1);
  }

  /** `stem` followed by a dotted extension has that extension. */
  lemma PlainExtension(stem: string, dotted: string, name: string)
    requires PlainStem(stem) && name == stem + dotted
    requires |dotted| > 1 && dotted[0] == '.'
    requires forall i :: 1 <= i < |dotted| ==> dotted[i] != '.' && dotted[i] != '/'
    ensures ExtName(name) == dotted
  {
    var ext := dotted[1..];
    assert dotted == "." + ext;
    assert name == stem + "." + ext;
    ExtNameOfPlainName(stem, ext);
  }

  lemma AcceptedByExtension(file: UploadedFile, ext: string)
    requires ExtName(file.originalname) == ext
    requires MatchesImageType(ToLower(ext)) && MatchesImageType(file.mimetype)
    ensures CheckFileType(file) == Accepted
  {
  }

  /** An extension that lower-cases to one holding `sub` at `i` matches. */
  lemma LowerExtensionMatches(ext: string, sub: string, i: nat)
    requires sub in {"jpeg", "jpg", "png", "webp"}
    requires i + |sub| <= |ToLower(ext)| && ToLower(ext)[i..i + |sub|] == sub
    ensures MatchesImageType(ToLower(ext))
  {
    ContainsAt(ToLower(ext), sub, i);
  }

  /** An upper-case MIME type such as "image/JPEG" is rejected, whatever the
      extension: it is tested as sent. */
  lemma UpperCaseMimeRejected(file: UploadedFile)
    requires file.mimetype == "image/JPEG"
    ensures CheckFileType(file) == Rejected("Images Only!")
  {
    var m := file.mimetype;
    assert forall i :: 0 <= i < |m| ==> m[i] !in "jpw";
    NotContainedWithoutFirstLetter(m, "jpeg");
    NotContainedWithoutFirstLetter(m, "jpg");
    NotContainedWithoutFirstLetter(m, "png");
    NotContainedWithoutFirstLetter(m, "webp");
  }

  /** A file named only ".png" has no extension and is rejected. */
  lemma DotFileRejected(file: UploadedFile)
    requires file.originalname == ".png"
    ensures CheckFileType(file).Rejected?
  {
    var ext := "png";
    DotFileHasNoExtension(ext);
    assert "." + ext == file.originalname;
    var e := ExtName(file.originalname);
    assert ToLower(e) == "";
    NotContainedWithoutFirstLetter(ToLower(e), "jpeg");
    NotContainedWithoutFirstLetter(ToLower(e), "jpg");
    NotContainedWithoutFirstLetter(ToLower(e), "png");
    NotContainedWithoutFirstLetter(ToLower(e), "webp");
  }

  // ---------------------------------------------------------------------
  // Size limit, stored name, outcome
  // ---------------------------------------------------------------------

  const MaxFileSize: nat := 5_000_000

  predicate WithinSizeLimit(size: nat) {
    size <= MaxFileSize
  }

  /** The name the file is stored under: field name, a dash, the upload time
      in milliseconds, the original extension. */
  function StoredFilename(fieldname: string, now: nat, originalname: string): (name: string)
    ensures |name| == |fieldname| + 1 + |Decimal(now)| + |ExtName(originalname)|
  {
    fieldname + "-" + Decimal(now) + ExtName(originalname)
  }

  /** The stored name gives back the upload time: files of the same field and
      extension uploaded at different milliseconds get different names. */
  lemma StoredFilenameTimestamp(fieldname: string, t1: nat, t2: nat, originalname: string)
    requires StoredFilename(fieldname, t1, originalname) == StoredFilename(fieldname, t2, originalname)
    ensures t1 == t2
  {
    var a := StoredFilename(fieldname, t1, originalname);
    var b := StoredFilename(fieldname, t2, originalname);
    var ext := ExtName(originalname);
    assert |Decimal(t1)| == |Decimal(t2)|;
    var lo := |fieldname| + 1;
    var hi := lo + |Decimal(t1)|;
    assert a[lo..hi] == Decimal(t1);
    assert b[lo..hi] == Decimal(t2);
    DecimalInjective(t1, t2);
  }

  datatype UploadOutcome = Stored(filename: string) | FilterError(message: string) | FileTooLarge

  /** The upload: the filter decides first; an accepted file larger than the
      limit is cut off with an error; otherwise it is stored. */
  function HandleUpload(file: UploadedFile, now: nat): (o: UploadOutcome)
    ensures o.Stored? <==> CheckFileType(file).Accepted? && WithinSizeLimit(file.size)
    ensures o.FilterError? ==> o.message == "Images Only!"
    ensures o.Stored? ==> o.filename == StoredFilename(file.fieldname, now, file.originalname)
  {
    match CheckFileType(file)
    case Rejected(message) => FilterError(message)
    case Accepted =>
      if WithinSizeLimit(file.size) then Stored(StoredFilename(file.fieldname, now, file.originalname))
      else FileTooLarge
  }

  /** Exactly 5,000,000 bytes is still accepted, one more byte is not. */
  lemma SizeLimitBoundary(file: UploadedFile, now: nat)
    requires CheckFileType(file).Accepted?
    ensures HandleUpload(file.(size := MaxFileSize), now).Stored?
    ensures HandleUpload(file.(size := MaxFileSize + 1), now) == FileTooLarge
  {
  }
}
