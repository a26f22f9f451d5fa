/** The request policies of the server entry point: which cross-origin callers are
    answered, which uploads are admitted, the name an uploaded file is stored under, and
    the reply of the upload route. The environment (`NODE_ENV`, `FRONTEND_URL`), the clock
    and `Math.random` are parameters. */
module ServerPolicies {
  import opened Wrappers
  import opened Text

  // ---------------------------------------------------------------- CORS

  /** The Vite development origin, always allowed. */
  const DevOrigin: string := "http://localhost:5173"

  /** `FRONTEND_URL`: the trimmed environment value, or none when it is unset, empty, or
      trims to "" (only a truthy value is added to the allow-set). */
  function FrontendUrl(env: Option<string>): (r: Option<string>)
    ensures r.Some? ==> r.value != "" && env.Some? && r.value == Trim(env.value)
    ensures r.None? ==> env.None? || Trim(env.value) == ""
  {
    if env.None? || env.value == "" then None
    else if Trim(env.value) == "" then None
    else Some(Trim(env.value))
  }

  /** `allowedOrigins`: the development origin, plus `FRONTEND_URL` when it is set. */
  function AllowedOrigins(frontendEnv: Option<string>): (s: set<string>)
    ensures DevOrigin in s
    ensures forall o :: o in s ==> o == DevOrigin || FrontendUrl(frontendEnv) == Some(o)
    ensures FrontendUrl(frontendEnv).Some? ==> FrontendUrl(frontendEnv).value in s
  {
    match FrontendUrl(frontendEnv)
    case None => {DevOrigin}
    case Some(url) => {DevOrigin, url}
  }

  datatype CorsDecision = Allow | Block(message: string)

  /** `originCallback`. `nodeEnv` is `process.env.NODE_ENV`. A request without an origin
      is always answered; outside production every origin is; in production exactly the
      origins in the allow-set are, and any other is refused with an error. */
  function OriginCallback(origin: Option<string>, nodeEnv: Option<string>, allowed: set<string>): (d: CorsDecision)
    ensures origin.None? || origin == Some("") ==> d == Allow
    ensures nodeEnv != Some("production") ==> d == Allow
    ensures nodeEnv == Some("production") && origin.Some? && origin.value != "" ==>
      (d == Allow <==> origin.value in allowed)
    ensures d.Block? ==> d.message == "CORS policy: origin not allowed"
  {
    if origin.None? || origin.value == "" then Allow
    else if nodeEnv != Some("production") then Allow
    else if origin.value in allowed then Allow
    else Block("CORS policy: origin not allowed")
  }

  /** In production a non-empty origin is answered exactly when it is the development
      origin or the configured front end, and is otherwise refused with an error. */
  lemma ProductionAllowList(o: string, frontendEnv: Option<string>)
    requires o != ""
    ensures var d := OriginCallback(Some(o), Some("production"), AllowedOrigins(frontendEnv));
      && (d == Allow <==> o == DevOrigin || FrontendUrl(frontendEnv) == Some(o))
      && (d != Allow ==> d == Block("CORS policy: origin not allowed"))
  {
  }

  /** Surrounding whitespace in `FRONTEND_URL`, at either end or both, does not matter:
      the trimmed URL is allowed. */
  lemma FrontendUrlTrimmed(url: string, pre: string, post: string)
    requires url != "" && !IsJsWhitespace(url[0]) && !IsJsWhitespace(url[|url| - 1])
    requires forall k :: 0 <= k < |pre| ==> IsJsWhitespace(pre[k])
    requires forall k :: 0 <= k < |post| ==> IsJsWhitespace(post[k])
    ensures OriginCallback(Some(url), Some("production"), AllowedOrigins(Some(pre + url + post))) == Allow
  {
    TrimPadded(url, pre, post);
  }

  /** A value written with a Windows line ending, `url + "\r"`, still allows `url`. */
  lemma FrontendUrlWithCarriageReturn(url: string)
    requires url != "" && !IsJsWhitespace(url[0]) && !IsJsWhitespace(url[|url| - 1])
    ensures OriginCallback(Some(url), Some("production"), AllowedOrigins(Some(url + "\r"))) == Allow
  {
    assert [] + url + "\r" == url + "\r";
    FrontendUrlTrimmed(url, [], "\r");
  }

  /** A `FRONTEND_URL` of whitespace only is falsy once trimmed, so the allow-set is the
      development origin alone. */
  lemma BlankFrontendUrl(pad: string)
    requires forall k :: 0 <= k < |pad| ==> IsJsWhitespace(pad[k])
    ensures AllowedOrigins(Some(pad)) == {DevOrigin}
  {
    TrimBlank(pad);
  }

  /** Trimming `pre + url + post` gives back `url`. */
  lemma TrimPadded(url: string, pre: string, post: string)
    requires url != "" && !IsJsWhitespace(url[0]) && !IsJsWhitespace(url[|url| - 1])
    requires forall k :: 0 <= k < |pre| ==> IsJsWhitespace(pre[k])
    requires forall k :: 0 <= k < |post| ==> IsJsWhitespace(post[k])
    ensures Trim(pre + url + post) == url
  {
    var rest := url + post;
    var padded := pre + rest;
    assert pre + url + post == padded;
    assert padded[|pre|..] == rest;
    TrimStartSkips(padded, |pre|);
    TrimEndSkips(rest, |url|);
    assert rest[..|url|] == url;
  }

  /** Trimming the start skips exactly a whitespace prefix up to a non-whitespace character. */
  lemma {:induction false} TrimStartSkips(s: string, n: nat)
    requires n < |s| && !IsJsWhitespace(s[n])
    requires forall k :: 0 <= k < n ==> IsJsWhitespace(s[k])
    ensures TrimStart(s) == s[n..]
  {
    if n > 0 {
      TrimStartSkips(s[1..], n - 1);
      assert s[1..][n - 1..] == s[n..];
    }
  }

  /** Trimming the end drops exactly a whitespace suffix after a non-whitespace character. */
  lemma {:induction false} TrimEndSkips(s: string, n: nat)
    requires 0 < n <= |s| && !IsJsWhitespace(s[n - 1])
    requires forall k :: n <= k < |s| ==> IsJsWhitespace(s[k])
    ensures TrimEnd(s) == s[..n]
  {
    if n < |s| {
      TrimEndSkips(s[..|s| - 1], n);
      assert s[..|s| - 1][..n] == s[..n];
    }
  }

  // ---------------------------------------------------------------- uploads

  /** The form field the upload route reads, and its per-request file limit. */
  const UploadField: string := "photos"
  const MaxFiles: nat := 8

  /** The per-file size limit in bytes, 20 MiB. */
  const MaxFileSize: nat := 20 * 1024 * 1024

  /** The URL prefix the upload directory is served under. */
  const UploadsPrefix: string := "/uploads/"

  /** One file part of a multipart request, as the upload library reports it. */
  datatype IncomingFile = IncomingFile(field: string, originalName: string, mimetype: string, size: nat)

  /** A file written to the upload directory: the `req.files` entry. */
  datatype StoredFile = StoredFile(filename: string, mimetype: string, size: nat)

  /** The clock reading and the random draw the name of one file is made from:
      `Date.now()` and `Math.round(Math.random() * 1e9)`. */
  datatype Stamp = Stamp(millis: nat, random: nat)

  /** `fileFilter`: images and videos only, by the first six characters of the type. */
  predicate AcceptsMime(mimetype: string)
    ensures AcceptsMime(mimetype) <==> |mimetype| >= 6 && (mimetype[..6] == "image/" || mimetype[..6] == "video/")
  {
    StartsWith(mimetype, "image/") || StartsWith(mimetype, "video/")
  }

  lemma FileFilterExamples()
    ensures AcceptsMime("image/png") && AcceptsMime("video/mp4")
    ensures !AcceptsMime("application/pdf") && !AcceptsMime("image") && !AcceptsMime("text/image/png")
  {
    assert "image/" <= "image/png";
    assert "video/" <= "video/mp4";
    assert "application/pdf"[0] != "image/"[0] && "application/pdf"[0] != "video/"[0];
    assert "text/image/png"[0] != "image/"[0] && "text/image/png"[0] != "video/"[0];
  }

  // path.extname, for POSIX paths

  /** The position of the last '.' in `s`, if any. */
  function LastDot(s: string): (r: Option<nat>)
    ensures r.Some? ==> r.value < |s| && s[r.value] == '.' && '.' !in s[r.value + 1..]
    ensures r.None? ==> '.' !in s
  {
    if s == [] then None
    else if s[|s| - 1] == '.' then Some(|s| - 1)
    else
      var r := LastDot(s[..|s| - 1]);
      assert s == s[..|s| - 1] + [s[|s| - 1]];
      r
  }

  /** `s` without trailing '/' characters. */
  function StripTrailingSlashes(s: string): (r: string)
    ensures r <= s
    ensures r == [] || r[|r| - 1] != '/'
  {
    if s != [] && s[|s| - 1] == '/' then StripTrailingSlashes(s[..|s| - 1]) else s
  }

  /** The part of `s` after its last '/'. */
  function AfterLastSlash(s: string): (r: string)
    ensures '/' !in r
    ensures |r| <= |s| && r == s[|s| - |r|..]
  {
    if s == [] || s[|s| - 1] == '/' then []
    else
      var r := AfterLastSlash(s[..|s| - 1]);
      r + [s[|s| - 1]]
  }

  /** The extension of a file name without '/': from its last '.' to the end, unless that
      dot is the name's first character (".profile") or the name is "..". */
  function ExtOfBase(b: string): string {
    match LastDot(b)
    case None => ""
    case Some(d) => if d == 0 || b == ".." then "" else b[d..]
  }

  /** `path.extname(name)`: the extension of the last component, trailing slashes ignored. */
  function Extname(name: string): (e: string)
    ensures e == [] || (e[0] == '.' && '.' !in e[1..] && '/' !in e)
  {
    var b := AfterLastSlash(StripTrailingSlashes(name));
    var e := ExtOfBase(b);
    assert e != [] ==> e == b[LastDot(b).value..];
    e
  }

  /** A name without '/' whose last dot is at `d > 0` has the extension from `d` on. */
  lemma ExtnameOfFlat(s: string, d: nat)
    requires '/' !in s
    requires 0 < d < |s| && s[d] == '.' && '.' !in s[d + 1..] && s != ".."
    ensures Extname(s) == s[d..]
  {
    assert s[|s| - 1] != '/';
    AfterLastSlashOfFlat(s);
    LastDotAt(s, d);
  }

  lemma ExtnameOfPlainName()
    ensures Extname("cow.jpg") == ".jpg"
  {
    var cow := "cow.jpg";
    assert cow == ['c', 'o', 'w', '.', 'j', 'p', 'g'];
    assert cow[4..] == ['j', 'p', 'g'];
    ExtnameOfFlat(cow, 3);
    assert cow[3..] == ".jpg";
  }

  /** Only the last dot counts. */
  lemma ExtnameOfDoubleExtension()
    ensures Extname("a.tar.gz") == ".gz"
  {
    var tar := "a.tar.gz";
    assert tar == ['a', '.', 't', 'a', 'r', '.', 'g', 'z'];
    assert tar[6..] == ['g', 'z'];
    ExtnameOfFlat(tar, 5);
    assert tar[5..] == ".gz";
  }

  /** The part of the stored name before the extension, `Date.now() + "-" +
      Math.round(Math.random() * 1e9)`: the clock's digits, one '-', the draw's digits. */
  function StampPart(stamp: Stamp): (p: string)
    ensures var i := |Decimal(stamp.millis)|;
      && 0 < i < |p| - 1 && p[i] == '-'
      && (forall k :: 0 <= k < |p| && k != i ==> IsDigit(p[k]))
      && DecimalValue(p[..i]) == stamp.millis
      && DecimalValue(p[i + 1..]) == stamp.random
    ensures '/' !in p && '.' !in p
  {
    var a := Decimal(stamp.millis);
    var b := Decimal(stamp.random);
    var p := a + "-" + b;
    assert p[..|a|] == a && p[|a| + 1..] == b;
    DecimalRoundTrip(stamp.millis);
    DecimalRoundTrip(stamp.random);
    p
  }

  /** multer's `filename` callback: the stamp part followed by the original name's
      extension. The name stays inside the upload directory (no '/'), keeps the original
      extension, and starts with the stamp part, so with the clock reading. */
  function StoredFilename(stamp: Stamp, originalName: string): (name: string)
    ensures '/' !in name
    ensures Extname(name) == Extname(originalName)
    ensures StampPart(stamp) <= name
  {
    var p := StampPart(stamp);
    var e := Extname(originalName);
    ExtnameAfterPlainPrefix(p, e);
    p + e
  }

  /** Putting a non-empty prefix without '/' or '.' in front of an extension keeps the
      extension (an empty prefix would not: `path.extname(".jpg")` is ""). */
  lemma ExtnameAfterPlainPrefix(p: string, e: string)
    requires p != [] && '/' !in p && '.' !in p
    requires e == [] || (e[0] == '.' && '.' !in e[1..] && '/' !in e)
    ensures Extname(p + e) == e
  {
    var name := p + e;
    assert '/' !in name;
    if e == [] {
      assert name == p;
      AfterLastSlashOfFlat(name);
      LastDotNone(name);
    } else {
      assert name[|p| + 1..] == e[1..];
      assert name[0] == p[0];
      ExtnameOfFlat(name, |p|);
      assert name[|p|..] == e;
    }
  }

  lemma {:induction false} AfterLastSlashOfFlat(s: string)
    requires '/' !in s
    ensures AfterLastSlash(s) == s
  {
    if s != [] {
      var t := s[..|s| - 1];
      assert s == t + [s[|s| - 1]];
      assert '/' !in t;
      AfterLastSlashOfFlat(t);
    }
  }

  lemma LastDotNone(s: string)
    requires '.' !in s
    ensures LastDot(s).None?
  {
  }

  lemma LastDotAt(s: string, d: nat)
    requires d < |s| && s[d] == '.' && '.' !in s[d + 1..]
    ensures LastDot(s) == Some(d)
  {
  }

  // the upload route

  datatype UploadError =
    | UnexpectedFile(field: string)   // a file in another field, or more than the limit
    | NotImageOrVideo                 // refused by `fileFilter`
    | FileTooLarge(field: string)     // over the size limit

  /** The message each error carries. */
  function ErrorMessage(e: UploadError): string {
    match e
    case UnexpectedFile(_) => "Unexpected field"
    case NotImageOrVideo => "Only image and video files are allowed"
    case FileTooLarge(_) => "File too large"
  }

  /** Whether one file part is admitted when `left` more files may still be taken. */
  function Admit(f: IncomingFile, left: int): Option<UploadError> {
    if f.field != UploadField || left <= 0 then Some(UnexpectedFile(f.field))
    else if !AcceptsMime(f.mimetype) then Some(NotImageOrVideo)
    else if f.size > MaxFileSize then Some(FileTooLarge(f.field))
    else None
  }

  /** The first refusal among the file parts in arrival order, if any; the part at
      position `k` is checked with `left - k` places still free. */
  function FirstRefusal(files: seq<IncomingFile>, left: int): (r: Option<UploadError>)
    ensures r.None? <==> forall k :: 0 <= k < |files| ==> Admit(files[k], left - k).None?
    ensures r.Some? ==> exists k :: 0 <= k < |files| && Admit(files[k], left - k) == r
                                    && forall j :: 0 <= j < k ==> Admit(files[j], left - j).None?
  {
    if files == [] then None
    else if Admit(files[0], left).Some? then Admit(files[0], left)
    else
      var r := FirstRefusal(files[1..], left - 1);
      AdmittedAfterHead(files, left);
      if r.Some? then
        RefusedAfterHead(files, left, r.value);
        r
      else
        r
  }

  /** When the head is admitted, all parts are admitted exactly when all of the rest are,
      with one place fewer. */
  lemma AdmittedAfterHead(files: seq<IncomingFile>, left: int)
    requires files != [] && Admit(files[0], left).None?
    ensures (forall k :: 0 <= k < |files| ==> Admit(files[k], left - k).None?) <==>
            (forall k :: 0 <= k < |files[1..]| ==> Admit(files[1..][k], left - 1 - k).None?)
  {
    if forall k :: 0 <= k < |files[1..]| ==> Admit(files[1..][k], left - 1 - k).None? {
      forall k | 1 <= k < |files|
        ensures Admit(files[k], left - k).None?
      {
        assert files[k] == files[1..][k - 1];
      }
    }
  }

  /** When the head is admitted, the first refusal among the rest is the first one overall. */
  lemma RefusedAfterHead(files: seq<IncomingFile>, left: int, e: UploadError)
    requires files != [] && Admit(files[0], left).None?
    requires exists j :: 0 <= j < |files[1..]| && Admit(files[1..][j], left - 1 - j) == Some(e)
                         && forall i :: 0 <= i < j ==> Admit(files[1..][i], left - 1 - i).None?
    ensures exists k :: 0 <= k < |files| && Admit(files[k], left - k) == Some(e)
                        && forall i :: 0 <= i < k ==> Admit(files[i], left - i).None?
  {
    var j :| 0 <= j < |files[1..]| && Admit(files[1..][j], left - 1 - j) == Some(e)
             && forall i :: 0 <= i < j ==> Admit(files[1..][i], left - 1 - i).None?;
    assert files[j + 1] == files[1..][j];
    forall i | 0 <= i < j + 1
      ensures Admit(files[i], left - i).None?
    {
      if i > 0 {
        assert files[i] == files[1..][i - 1];
      }
    }
  }

  /** Every admitted part, stored under the name made from its stamp. */
  function StoreAll(files: seq<IncomingFile>, stamps: seq<Stamp>): (stored: seq<StoredFile>)
    requires |stamps| == |files|
    ensures |stored| == |files|
  {
    seq(|files|, k requires 0 <= k < |files| =>
      StoredFile(StoredFilename(stamps[k], files[k].originalName), files[k].mimetype, files[k].size))
  }

  datatype Received = Stored(files: seq<StoredFile>) | Refused(error: UploadError)

  /** `upload.array("photos", 8)` over the file parts in arrival order: each part is
      checked for field and count, then by `fileFilter`, then for size, and stored under a
      fresh name; the first refusal aborts the request and removes what was stored. */
  function Receive(files: seq<IncomingFile>, stamps: seq<Stamp>): (r: Received)
    requires |stamps| == |files|
    ensures r.Stored? <==>
      && |files| <= MaxFiles
      && forall k :: 0 <= k < |files| ==>
           files[k].field == UploadField && AcceptsMime(files[k].mimetype) && files[k].size <= MaxFileSize
    ensures r.Stored? ==> r.files == StoreAll(files, stamps)
    ensures r.Refused? ==> FirstRefusal(files, MaxFiles) == Some(r.error)
  {
    ReceiveAdmission(files);
    match FirstRefusal(files, MaxFiles)
    case Some(e) => Refused(e)
    case None => Stored(StoreAll(files, stamps))
  }

  /** The parts pass the checks exactly when there are at most 8 of them, all in the
      `photos` field, all images or videos, none over 20 MiB. */
  lemma {:induction false} ReceiveAdmission(files: seq<IncomingFile>)
    ensures FirstRefusal(files, MaxFiles).None? <==>
      && |files| <= MaxFiles
      && forall k :: 0 <= k < |files| ==>
           files[k].field == UploadField && AcceptsMime(files[k].mimetype) && files[k].size <= MaxFileSize
  {
    if |files| <= MaxFiles {
      forall k | 0 <= k < |files|
        ensures Admit(files[k], MaxFiles - k).None? <==>
          files[k].field == UploadField && AcceptsMime(files[k].mimetype) && files[k].size <= MaxFileSize
      {
      }
    } else {
      assert Admit(files[MaxFiles], MaxFiles - MaxFiles).Some?;
    }
  }

  /** One entry of the upload reply. */
  datatype FileEntry = FileEntry(filename: string, url: string, mimetype: string)

  /** `(req.files || []).map(file => ({ filename, url: "/uploads/" + filename, mimetype }))`. */
  function FileEntries(files: seq<StoredFile>): (entries: seq<FileEntry>)
    ensures |entries| == |files|
    ensures forall k :: 0 <= k < |files| ==>
      && entries[k].filename == files[k].filename
      && entries[k].url == UploadsPrefix + files[k].filename
      && entries[k].mimetype == files[k].mimetype
  {
    seq(|files|, k requires 0 <= k < |files| =>
      FileEntry(files[k].filename, UploadsPrefix + files[k].filename, files[k].mimetype))
  }

  /** The file a GET on `url` reads from the upload directory under the static mount:
      the path after the prefix, up to any query or fragment. Percent-decoding is not
      modelled. */
  function ServedFile(url: string): Option<string> {
    if !StartsWith(url, UploadsPrefix) then None
    else Some(PathPart(url[|UploadsPrefix|..]))
  }

  function PathPart(s: string): (r: string)
    ensures r <= s
  {
    if s == [] || s[0] == '?' || s[0] == '#' then [] else [s[0]] + PathPart(s[1..])
  }

  lemma {:induction false} PathPartPlain(s: string)
    requires '?' !in s && '#' !in s
    ensures PathPart(s) == s
  {
    if s != [] {
      PathPartPlain(s[1..]);
      assert [s[0]] + s[1..] == s;
    }
  }

  /** Each entry's URL leads back to the stored file it names, when the name has no
      character that starts a query or fragment or an escape. */
  lemma EntryUrlServesFile(files: seq<StoredFile>, k: nat)
    requires k < |files|
    requires '?' !in files[k].filename && '#' !in files[k].filename && '%' !in files[k].filename
    ensures var e := FileEntries(files)[k];
      e.filename == files[k].filename && e.mimetype == files[k].mimetype
      && ServedFile(e.url) == Some(files[k].filename)
  {
    var e := FileEntries(files)[k];
    assert e.url[|UploadsPrefix|..] == files[k].filename;
    PathPartPlain(files[k].filename);
  }

  /** POST `/api/upload`: the stored files' entries, or the library's error, which the
      framework's default error handler answers with status 500. */
  function UploadRoute(files: seq<IncomingFile>, stamps: seq<Stamp>): (r: Reply<seq<FileEntry>>)
    requires |stamps| == |files|
    ensures r.Ok? ==> r.status == 200 && |r.body| == |files|
    ensures r.Ok? ==> forall k :: 0 <= k < |files| ==>
      && r.body[k].filename == StoredFilename(stamps[k], files[k].originalName)
      && r.body[k].url == UploadsPrefix + r.body[k].filename
      && r.body[k].mimetype == files[k].mimetype
    ensures r.Ok? <==> FirstRefusal(files, MaxFiles).None?
    ensures r.Fail? ==> r == Fail(500, ErrorMessage(FirstRefusal(files, MaxFiles).value))
  {
    match Receive(files, stamps)
    case Stored(stored) => Ok(200, FileEntries(stored))
    case Refused(e) => Fail(500, ErrorMessage(e))
  }

  /** A request of nine files is refused whole: nothing is stored and no entry returned. */
  lemma NineFilesRefused(files: seq<IncomingFile>, stamps: seq<Stamp>)
    requires |files| == 9 && |stamps| == 9
    ensures UploadRoute(files, stamps).Fail?
  {
    ReceiveAdmission(files);
  }

  /** Every URL of a successful upload reply serves the file stored under its name, as
      long as the original name's extension holds no '?', '#' or '%' (the URL is built
      without escaping, and the stored name is digits and '-' before the extension). */
  lemma UploadUrlServesFile(files: seq<IncomingFile>, stamps: seq<Stamp>, k: nat)
    requires |stamps| == |files| && k < |files|
    requires UploadRoute(files, stamps).Ok?
    requires var ext := Extname(files[k].originalName); '?' !in ext && '#' !in ext && '%' !in ext
    ensures var entry := UploadRoute(files, stamps).body[k];
      ServedFile(entry.url) == Some(entry.filename)
  {
    var entry := UploadRoute(files, stamps).body[k];
    var p := StampPart(stamps[k]);
    var ext := Extname(files[k].originalName);
    assert entry.filename == p + ext;
    assert '?' !in entry.filename && '#' !in entry.filename by {
      forall i | 0 <= i < |p| ensures p[i] != '?' && p[i] != '#' {
        assert i == |Decimal(stamps[k].millis)| || IsDigit(p[i]);
      }
    }
    assert entry.url[|UploadsPrefix|..] == entry.filename;
    PathPartPlain(entry.filename);
  }
}
