/** The chat upload middleware: which files are let through (an allowed
    extension and an allowed MIME type), the name a stored file receives, and
    the size limit. Also the MIME type names the admin import compares with.
    Node's `path.extname` is modelled for POSIX paths. */
module Upload {
  import opened JsValue
  import opened JsText

  // ---------------------------------------------------------------------------
  // path.extname

  /** The path without its trailing slashes. */
  function TrimTrailingSlashes(p: string): (r: string)
    ensures |r| <= |p| && r == p[..|r|]
    ensures r == "" || r[|r| - 1] != '/'
    ensures forall i :: |r| <= i < |p| ==> p[i] == '/'
  {
    if |p| > 0 && p[|p| - 1] == '/' then TrimTrailingSlashes(p[..|p| - 1]) else p
  }

  /** The last path component, trailing slashes ignored. */
  function Basename(p: string): (b: string)
    ensures '/' !in b
  {
    var q := TrimTrailingSlashes(p);
    q[LastIndexOf(q, '/') + 1..]
  }

  /** `path.extname(p)`: from the last dot of the last component to its end;
      empty when that component has no dot, starts with its only dot or is
      `..`. */
  function Extname(p: string): (r: string)
    ensures r == "" || r[0] == '.'
  {
    var b := Basename(p);
    var k := LastIndexOf(b, '.');
    if k <= 0 || b == ".." then "" else b[k..]
  }

  /** An extension is empty, or a dot followed by dot-free text that ends the
      last component. */
  lemma ExtnameShape(p: string)
    ensures var r := Extname(p);
            r == "" || (r[0] == '.' && '.' !in r[1..] && EndsWith(Basename(p), r))
  {
    var b := Basename(p);
    var k := LastIndexOf(b, '.');
    if k > 0 && b != ".." {
      var r := b[k..];
      forall i | 0 <= i < |r| - 1 ensures r[1..][i] != '.' {
        assert r[1..][i] == b[k + 1 + i];
      }
    }
  }

  /** A name without a slash is its own last component. */
  lemma BasenameOfName(name: string)
    requires '/' !in name
    ensures Basename(name) == name
  {
    assert name == "" || name[|name| - 1] in name;
    assert TrimTrailingSlashes(name) == name;
  }

  /** The extension of a plain name runs from its last dot, when that dot is
      not the first character and the name is not `..`. */
  lemma ExtnameFromLastDot(name: string, k: int)
    requires '/' !in name && LastIndexOf(name, '.') == k && k > 0 && name != ".."
    ensures Extname(name) == name[k..]
  {
    BasenameOfName(name);
  }

  lemma JoinedNameHasNoSlash(x: string, e: string)
    requires '/' !in x && '/' !in e
    ensures '/' !in x + ['.'] + e
  {
  }

  lemma JoinedNameNotDotDot(x: string, e: string)
    requires x != "" && !(x == "." && e == "")
    ensures x + ['.'] + e != ".."
  {
    var name := x + ['.'] + e;
    if |name| == 2 { assert name[0] == x[0]; }
  }

  /** A plain file name `x.e` has the extension `.e`, unless it is `..`. */
  lemma ExtnameOfName(x: string, e: string)
    requires x != "" && '/' !in x && '/' !in e && '.' !in e
    requires !(x == "." && e == "")
    ensures Extname(x + "." + e) == "." + e
  {
    var name := x + ['.'] + e;
    assert name == x + "." + e;
    JoinedNameHasNoSlash(x, e);
    LastIndexOfJoin(x, '.', e);
    JoinedNameNotDotDot(x, e);
    assert name[|x|..] == "." + e;
    ExtnameFromLastDot(name, |x|);
  }

  /** A plain name whose last dot is its first character, or that has no
      dot, has no extension. */
  lemma ExtnameNoLaterDot(name: string)
    requires '/' !in name && LastIndexOf(name, '.') <= 0
    ensures Extname(name) == ""
  {
    BasenameOfName(name);
  }

  /** A name whose only dot is its first character has no extension. */
  lemma HiddenFileHasNoExt(e: string)
    requires '/' !in e && '.' !in e
    ensures Extname("." + e) == ""
  {
    var name := [] + ['.'] + e;
    assert name == "." + e;
    JoinedNameHasNoSlash([], e);
    LastIndexOfJoin([], '.', e);
    ExtnameNoLaterDot(name);
  }

  /** An extension's only dot is its first character. */
  lemma ExtnameLastDot(p: string)
    requires Extname(p) != ""
    ensures LastIndexOf(Extname(p), '.') == 0
  {
    var r := Extname(p);
    ExtnameShape(p);
    assert r == [] + ['.'] + r[1..];
    LastIndexOfJoin([], '.', r[1..]);
  }

  // ---------------------------------------------------------------------------
  // MIME types

  // Long literals are written in pieces so that single characters can be
  // read off them.
  const DocxMime: string := "application/" + "vnd.openxmlformats-" + "officedocument." + "wordprocessingml." + "document"
  const XlsxMime: string := "application/" + "v" + "nd.open" + "x" + "mlformats-" + "officedocument." + "spreadsheetml." + "sheet"
  const XlsMime: string := "application/" + "v" + "nd.ms-e" + "x" + "cel"
  const CsvMime: string := "text/csv"

  // ---------------------------------------------------------------------------
  // fileFilter

  /** The extensions of the upload pattern, lower case and without the dot. */
  const UploadExts: set<string> := {"jpg", "jpeg", "png", "gif", "pdf", "docx", "mp4", "mov", "xlsx", "xls"}

  /** The MIME types the upload accepts, in the source's order. */
  const AllowedMimeTypes: seq<string> := [
    "image/jpeg", "image/png", "image/gif", "application/pdf", DocxMime,
    "video/mp4", "video/quicktime", XlsxMime]

  lemma UploadExtsDotFree()
    ensures DotFree(UploadExts)
  {
    forall e | e in UploadExts ensures '.' !in e {
      if e == "jpg" {} else if e == "jpeg" {} else if e == "png" {} else if e == "gif" {}
      else if e == "pdf" {} else if e == "docx" {} else if e == "mp4" {} else if e == "mov" {}
      else if e == "xlsx" {} else {}
    }
  }

  /** `fileFilter`: the extension of the original name matches the pattern
      (ignoring case) and the declared MIME type is listed. */
  function FileFilter(originalname: string, mimetype: string): (r: bool)
    ensures r ==> Extname(originalname) != "" && mimetype in AllowedMimeTypes
  {
    EndsWithExt(Extname(originalname), UploadExts) && mimetype in AllowedMimeTypes
  }

  /** The extension test accepts exactly the names whose extension, folded,
      is one of the listed ones. */
  lemma FileFilterByExtension(originalname: string, mimetype: string)
    ensures FileFilter(originalname, mimetype) <==>
              (var x := Extname(originalname);
               x != "" && Lower(x[1..]) in UploadExts && mimetype in AllowedMimeTypes)
  {
    var x := Extname(originalname);
    UploadExtsDotFree();
    EndsWithExtIsLastDot(x, UploadExts);
    if x != "" { ExtnameLastDot(originalname); }
  }

  /** A name without an extension is refused whatever its type. */
  lemma NoExtensionRejected(originalname: string, mimetype: string)
    requires Extname(originalname) == ""
    ensures !FileFilter(originalname, mimetype)
  {
    FileFilterByExtension(originalname, mimetype);
  }

  /** A hidden file such as `.jpg` has no extension, so it is refused. */
  lemma HiddenFileRejected(e: string, mimetype: string)
    requires '/' !in e && '.' !in e
    ensures !FileFilter("." + e, mimetype)
  {
    HiddenFileHasNoExt(e);
    NoExtensionRejected("." + e, mimetype);
  }

  lemma XlsMimeNotListed()
    ensures XlsMime !in AllowedMimeTypes
  {
    assert |XlsMime| == 24;
  }

  /** An allowed extension does not help a file of an unlisted type. */
  lemma UnlistedTypeRejected(originalname: string, mimetype: string)
    requires mimetype !in AllowedMimeTypes
    ensures !FileFilter(originalname, mimetype)
  {
  }

  /** A plain name `x.e` with a listed extension `e` passes the extension test. */
  lemma ListedExtensionPasses(x: string, e: string, folded: string)
    requires x != "" && '/' !in x && '/' !in e && '.' !in e
    requires folded in UploadExts && Lower(e) == folded
    ensures EndsWithExt(Extname(x + "." + e), UploadExts)
  {
    ExtnameOfName(x, e);
    LowerConcat(".", e);
    assert Lower(".") == ".";
  }

  /** `.xls` is among the extensions (and the refusal message), but its MIME
      type is not listed, so an `.xls` workbook is always refused. */
  lemma XlsUploadRejected(x: string)
    requires x != "" && '/' !in x
    ensures EndsWithExt(Extname(x + "." + "xls"), UploadExts)
    ensures !FileFilter(x + "." + "xls", XlsMime)
  {
    assert Lower("xls") == "xls";
    ListedExtensionPasses(x, "xls", "xls");
    XlsMimeNotListed();
  }

  /** The extension is compared ignoring case: `x.e` of a listed type passes
      whenever `e`, folded, is a listed extension, `x.PNG` as well as `x.png`. */
  lemma ExtensionCaseIgnored(x: string, e: string, mimetype: string)
    requires x != "" && '/' !in x && '/' !in e && '.' !in e
    requires Lower(e) in UploadExts && mimetype in AllowedMimeTypes
    ensures FileFilter(x + "." + e, mimetype)
  {
    ListedExtensionPasses(x, e, Lower(e));
  }

  // ---------------------------------------------------------------------------
  // Stored name and size limit

  /** `${req.user.id}-${Date.now()}-${file.originalname}`. */
  function StoredFilename(ownerId: string, now: nat, originalname: string): (f: string)
    ensures |f| > |ownerId| && f[..|ownerId| + 1] == ownerId + "-"
    ensures EndsWith(f, "-" + originalname)
  {
    var f := ownerId + "-" + Decimal(now) + "-" + originalname;
    var head := ownerId + "-";
    assert f == head + (Decimal(now) + "-" + originalname);
    assert f[..|head|] == head;
    assert f == (ownerId + "-" + Decimal(now)) + ("-" + originalname);
    f
  }

  datatype StoredName = StoredName(owner: string, time: nat, original: string)

  predicate AllDigits(s: string) {
    forall i :: 0 <= i < |s| ==> '0' <= s[i] <= '9'
  }

  /** Reads a stored name back: the owner before the first dash, the time
      between the first two, the original name after them. */
  function ParseStoredFilename(f: string): (r: Option<StoredName>)
    ensures r.Some? ==> '-' !in r.value.owner
  {
    var parts := Split(f, '-');
    if |parts| >= 3 && AllDigits(parts[1]) then
      Some(StoredName(parts[0], DecimalValue(parts[1]), Join(parts[2..], '-')))
    else None
  }

  /** A stored name records who uploaded the file, when, and its original
      name, as long as the owner id has no dash (a database id is hex). */
  lemma {:induction false} StoredFilenameRoundTrip(ownerId: string, now: nat, originalname: string)
    requires '-' !in ownerId
    ensures ParseStoredFilename(StoredFilename(ownerId, now, originalname)) == Some(StoredName(ownerId, now, originalname))
  {
    var d := Decimal(now);
    var rest := Split(originalname, '-');
    var parts := [ownerId, d] + rest;
    assert '-' !in d by {
      forall i | 0 <= i < |d| ensures d[i] != '-' { }
    }
    assert parts[1..] == [d] + rest && parts[1..][1..] == rest;
    assert Join(parts, '-') == ownerId + "-" + d + "-" + Join(rest, '-');
    JoinSplit(originalname, '-');
    assert Join(parts, '-') == StoredFilename(ownerId, now, originalname);
    SplitJoin(parts, '-');
    assert parts[2..] == rest;
    DecimalRoundTrip(now);
  }

  /** Multer's `limits.fileSize` for chat uploads: 50 MB. */
  const MaxUploadBytes: nat := 50 * 1024 * 1024

  datatype IncomingFile = IncomingFile(originalname: string, mimetype: string, size: nat)

  datatype UploadOutcome = Stored(filename: string) | InvalidType | TooLarge

  /** The middleware on one file: the filter runs first, then the size limit
      (a file of exactly the limit is kept), then the file is stored. */
  function Accept(ownerId: string, now: nat, f: IncomingFile): (r: UploadOutcome)
    ensures r.InvalidType? <==> !FileFilter(f.originalname, f.mimetype)
    ensures r.TooLarge? <==> FileFilter(f.originalname, f.mimetype) && f.size > MaxUploadBytes
    ensures r.Stored? ==> '-' !in ownerId ==>
              ParseStoredFilename(r.filename) == Some(StoredName(ownerId, now, f.originalname))
  {
    if !FileFilter(f.originalname, f.mimetype) then InvalidType
    else if f.size > MaxUploadBytes then TooLarge
    else
      var name := StoredFilename(ownerId, now, f.originalname);
      assert '-' !in ownerId ==> ParseStoredFilename(name) == Some(StoredName(ownerId, now, f.originalname)) by {
        if '-' !in ownerId { StoredFilenameRoundTrip(ownerId, now, f.originalname); }
      }
      Stored(name)
  }
}
