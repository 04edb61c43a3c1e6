/**
 * The resume upload of backend/controllers/candidates.js: multer's
 * `.single('resume')` with the extension filter and the 5 MiB limit, the stored
 * file name `<ms>-<originalname>`, and the handler's mapping of the outcome to a
 * response. The clock and the file sizes are inputs; nothing is written to disk.
 */
module ResumeUpload {
  import opened Basics
  import opened JsText
  import opened Http

  const FieldName: string := "resume"
  const MaxFileSize: nat := 5 * 1024 * 1024
  const AllowedExtensions: seq<string> := [".pdf", ".doc", ".docx"]
  const UploadDir: string := "/uploads/"
  const FilterMessage: string := "Only PDF, DOC, and DOCX files are allowed"

  /** One file part of a multipart request: its form field, the client's file name, its size in bytes. */
  datatype FilePart = FilePart(fieldName: string, originalName: string, size: nat)

  /** Why multer stopped: one of its own errors (with code and message), or the filter's plain Error. */
  datatype UploadError = MulterError(code: string, message: string) | PlainError(message: string)

  /** The text after the last `/` or `\\` of a name: the whole name when it has neither. */
  function AfterLastSeparator(s: string): string {
    if s == [] then s
    else if s[|s| - 1] == '/' || s[|s| - 1] == '\\' then ""
    else AfterLastSeparator(s[..|s| - 1]) + [s[|s| - 1]]
  }

  /**
   * The file name multer reports: busboy cuts the client's name to its base
   * name (multer leaves `preservePath` off), and a base name `.` or `..`
   * becomes the empty name.
   */
  function Basename(name: string): string {
    var b := AfterLastSeparator(name);
    if b == "." || b == ".." then "" else b
  }

  /**
   * What follows the last separator is a separator-free end of the name,
   * preceded by a separator unless it is the whole name.
   */
  lemma {:induction false} AfterLastSeparatorIsLastSegment(s: string)
    ensures var r := AfterLastSeparator(s);
      && '/' !in r && '\\' !in r
      && |r| <= |s| && r == s[|s| - |r|..]
      && (|r| < |s| ==> s[|s| - |r| - 1] == '/' || s[|s| - |r| - 1] == '\\')
  {
    if s != [] && s[|s| - 1] != '/' && s[|s| - 1] != '\\' {
      var init, last := s[..|s| - 1], s[|s| - 1];
      var r0 := AfterLastSeparator(init);
      AfterLastSeparatorIsLastSegment(init);
      var r := r0 + [last];
      assert AfterLastSeparator(s) == r;
      assert '/' !in r && '\\' !in r by {
        assert forall c :: c in r ==> c in r0 || c == last;
      }
      assert s == init + [last];
      assert s[|s| - |r|..] == init[|init| - |r0|..] + [last];
      if |r| < |s| {
        assert s[|s| - |r| - 1] == init[|init| - |r0| - 1];
      }
    }
  }

  /**
   * A base name has no separator and is never `.` or `..`; a non-empty one is
   * the name's last segment, and a plain name is its own base name.
   */
  lemma BasenameShape(name: string)
    ensures var r := Basename(name);
      && '/' !in r && '\\' !in r && r != "." && r != ".."
      && (r != "" ==> r == AfterLastSeparator(name))
      && ('/' !in name && '\\' !in name && name != "." && name != ".." ==> r == name)
  {
    AfterLastSeparatorIsLastSegment(name);
  }

  /** Drops trailing `/` characters. */
  function StripTrailingSlashes(s: string): (r: string)
    ensures |r| <= |s| && r == s[..|r|]
    ensures r == [] || r[|r| - 1] != '/'
  {
    if |s| > 0 && s[|s| - 1] == '/' then StripTrailingSlashes(s[..|s| - 1]) else s
  }

  /** The last path segment: everything after the last `/`. */
  function LastSegment(s: string): (r: string)
    ensures '/' !in r
    ensures |r| <= |s|
  {
    match LastIndexOf(s, '/')
    case None => s
    case Some(i) => s[i + 1..]
  }

  /**
   * `path.extname` (POSIX): from the last `.` of the last segment to its end; empty
   * when that segment has no `.`, when its only leading `.` starts it, or when it is `..`.
   */
  function Extname(path: string): (e: string)
    ensures e == [] || (e[0] == '.' && '/' !in e && '.' !in e[1..])
    ensures e != [] ==> |e| < |path|
  {
    var part := LastSegment(StripTrailingSlashes(path));
    match LastIndexOf(part, '.')
    case None => ""
    case Some(d) =>
      if d == 0 || part == ".." then ""
      else
        var e := part[d..];
        assert e[0] == '.' && '/' !in e && '.' !in e[1..] && |e| < |path| by {
          assert e[1..] == part[d + 1..];
          assert forall c :: c in e ==> c in part;
          assert |e| < |part| <= |path|;
        }
        e
  }

  /**
   * The file filter: the lower-cased extension must be `.pdf`, `.doc` or `.docx`.
   * An accepted name has a base before its extension, so it is at least five
   * characters long (`a.doc`).
   */
  predicate AcceptsFile(originalName: string)
    ensures AcceptsFile(originalName) ==> |originalName| >= 5
  {
    var e := Extname(originalName);
    ToLowerHasNoUpper(e);
    ToLower(e) in AllowedExtensions
  }

  /** The name the disk storage gives a file: the upload time in ms, a dash, the client's name. */
  function StoredFileName(nowMs: nat, originalName: string): string {
    DecimalText(nowMs) + "-" + originalName
  }

  /**
   * multer's `.single('resume')` over the file parts in arrival order: each
   * client name is cut to its base name, and a part whose base name is empty is
   * drained and ignored; a part under another field, or
   * a second file, is an "Unexpected field"; the filter runs before any byte is
   * stored; a part over the size limit is "File too large". The first error
   * stops the request.
   */
  function Receive(parts: seq<FilePart>, nowMs: nat, got: Option<string>): (r: Result<Option<string>, UploadError>)
    ensures r.Failure? ==>
      || r.error == MulterError("LIMIT_UNEXPECTED_FILE", "Unexpected field")
      || r.error == PlainError(FilterMessage)
      || r.error == MulterError("LIMIT_FILE_SIZE", "File too large")
    ensures r.Success? && got.Some? ==> r.value == got
    decreases |parts|
  {
    if parts == [] then Success(got)
    else
      var p := parts[0];
      var name := Basename(p.originalName);
      if name == "" then Receive(parts[1..], nowMs, got)
      else if p.fieldName != FieldName || got.Some? then Failure(MulterError("LIMIT_UNEXPECTED_FILE", "Unexpected field"))
      else if !AcceptsFile(name) then Failure(PlainError(FilterMessage))
      else if p.size > MaxFileSize then Failure(MulterError("LIMIT_FILE_SIZE", "File too large"))
      else Receive(parts[1..], nowMs, Some(StoredFileName(nowMs, name)))
  }

  /**
   * `uploadResume`: the response for a multipart request, given the time the
   * file is named at. It answers 200, 400 or 500; 200 names the stored file and
   * its path under `/uploads/`, and 500 only ever carries the filter's message.
   */
  function UploadResume(parts: seq<FilePart>, nowMs: nat): (r: Response)
    ensures r.status == 200 || r.status == 400 || r.status == 500
    ensures r.success <==> r.status == 200
    ensures r.status == 200 ==> r.body.Uploaded? && r.body.filePath == UploadDir + r.body.fileName
    ensures r.status == 500 ==> r == Response(500, false, Message(FilterMessage))
  {
    match Receive(parts, nowMs, None)
    case Failure(MulterError(_, m)) => Response(400, false, Message("Upload error: " + m))
    case Failure(PlainError(m)) => Response(500, false, Message(m))
    case Success(None) => Response(400, false, Message("Please upload a file"))
    case Success(Some(name)) => Response(200, true, Uploaded(name, UploadDir + name))
  }

  /** A part multer treats as a file: its base name is not empty. */
  predicate HasFileName(p: FilePart) {
    Basename(p.originalName) != ""
  }

  /** A single acceptable file under the `resume` field. */
  predicate IsAcceptable(p: FilePart) {
    p.fieldName == FieldName && AcceptsFile(Basename(p.originalName)) && p.size <= MaxFileSize
  }

  /** The parts that carry a file name, in arrival order: the only ones multer looks at. */
  function Named(parts: seq<FilePart>): (r: seq<FilePart>)
    ensures |r| <= |parts|
    ensures forall i :: 0 <= i < |r| ==> HasFileName(r[i])
    ensures forall q :: q in r <==> q in parts && HasFileName(q)
  {
    if parts == [] then []
    else (if HasFileName(parts[0]) then [parts[0]] else []) + Named(parts[1..])
  }

  /** Keeping the named parts distributes over concatenation, so it keeps their arrival order. */
  lemma {:induction false} NamedConcat(a: seq<FilePart>, b: seq<FilePart>)
    ensures Named(a + b) == Named(a) + Named(b)
  {
    if a == [] {
      assert a + b == b;
    } else {
      assert (a + b)[0] == a[0];
      assert (a + b)[1..] == a[1..] + b;
      NamedConcat(a[1..], b);
    }
  }

  /** Parts without a file name change nothing: multer answers as if only the named parts came. */
  lemma {:induction false} ReceiveSkipsUnnamed(parts: seq<FilePart>, nowMs: nat, got: Option<string>)
    ensures Receive(parts, nowMs, got) == Receive(Named(parts), nowMs, got)
  {
    if parts != [] {
      var p := parts[0];
      if !HasFileName(p) {
        assert Named(parts) == Named(parts[1..]);
        ReceiveSkipsUnnamed(parts[1..], nowMs, got);
      } else {
        var rest := Named(parts[1..]);
        var named := [p] + rest;
        assert Named(parts) == named;
        assert named[0] == p && named[1..] == rest;
        var name := Basename(p.originalName);
        if p.fieldName == FieldName && got.None? && AcceptsFile(name) && p.size <= MaxFileSize {
          ReceiveSkipsUnnamed(parts[1..], nowMs, Some(StoredFileName(nowMs, name)));
        }
      }
    }
  }

  /**
   * multer sees only the base names: two requests whose parts agree on field,
   * size and base name, part by part, get the same outcome.
   */
  lemma {:induction false} ReceiveSeesBaseNamesOnly(a: seq<FilePart>, b: seq<FilePart>, nowMs: nat, got: Option<string>)
    requires |a| == |b|
    requires forall i :: 0 <= i < |a| ==>
      a[i].fieldName == b[i].fieldName && a[i].size == b[i].size
      && Basename(a[i].originalName) == Basename(b[i].originalName)
    ensures Receive(a, nowMs, got) == Receive(b, nowMs, got)
  {
    if a != [] {
      var name := Basename(a[0].originalName);
      ReceiveSeesBaseNamesOnly(a[1..], b[1..], nowMs, got);
      ReceiveSeesBaseNamesOnly(a[1..], b[1..], nowMs, Some(StoredFileName(nowMs, name)));
    }
  }

  /**
   * Over named parts: the upload succeeds exactly when there is one part, and it
   * is acceptable.
   */
  lemma SucceedsIffOneAcceptable(named: seq<FilePart>, nowMs: nat)
    requires forall i :: 0 <= i < |named| ==> HasFileName(named[i])
    ensures Receive(named, nowMs, None).Success? && Receive(named, nowMs, None).value.Some?
            <==> |named| == 1 && IsAcceptable(named[0])
    ensures |named| == 1 && IsAcceptable(named[0]) ==>
            Receive(named, nowMs, None) == Success(Some(StoredFileName(nowMs, Basename(named[0].originalName))))
  {
    if |named| >= 1 && IsAcceptable(named[0]) {
      var name := StoredFileName(nowMs, Basename(named[0].originalName));
      assert Receive(named, nowMs, None) == Receive(named[1..], nowMs, Some(name));
      if |named| >= 2 {
        assert named[1..][0] == named[1];
        assert Receive(named[1..], nowMs, Some(name)).Failure?;
      }
    }
  }

  /**
   * An upload succeeds exactly when the request holds one named file, under
   * `resume`, with an allowed extension and at most 5 MiB; the response then
   * names the stored file, built from the base name, and its path under `/uploads/`.
   */
  lemma UploadSucceedsIff(parts: seq<FilePart>, nowMs: nat)
    ensures UploadResume(parts, nowMs).status == 200 <==> |Named(parts)| == 1 && IsAcceptable(Named(parts)[0])
    ensures UploadResume(parts, nowMs).status == 200 ==>
      var name := StoredFileName(nowMs, Basename(Named(parts)[0].originalName));
      UploadResume(parts, nowMs) == Response(200, true, Uploaded(name, UploadDir + name))
  {
    ReceiveSkipsUnnamed(parts, nowMs, None);
    SucceedsIffOneAcceptable(Named(parts), nowMs);
  }

  /** No named file at all is a 400 asking for one. */
  lemma {:induction false} NoFile(parts: seq<FilePart>, nowMs: nat)
    requires forall i :: 0 <= i < |parts| ==> !HasFileName(parts[i])
    ensures UploadResume(parts, nowMs) == Response(400, false, Message("Please upload a file"))
  {
    NoNamedPartReceivesNothing(parts, nowMs);
  }

  /** A run of parts without file names receives nothing. */
  lemma {:induction false} NoNamedPartReceivesNothing(parts: seq<FilePart>, nowMs: nat)
    requires forall i :: 0 <= i < |parts| ==> !HasFileName(parts[i])
    ensures Receive(parts, nowMs, None) == Success(None)
  {
    if parts != [] {
      NoNamedPartReceivesNothing(parts[1..], nowMs);
    }
  }

  /**
   * A client name ending in a separator, or whose last segment is `.` or `..`,
   * has no base name: the part is drained and the request has no file.
   */
  lemma NoBaseName(field: string, dir: string, size: nat, nowMs: nat)
    ensures UploadResume([FilePart(field, dir + "/", size)], nowMs) == Response(400, false, Message("Please upload a file"))
    ensures UploadResume([FilePart(field, dir + "/..", size)], nowMs) == Response(400, false, Message("Please upload a file"))
    ensures UploadResume([FilePart(field, ".", size)], nowMs) == Response(400, false, Message("Please upload a file"))
  {
    var dotdot := dir + "/..";
    assert dotdot == (dir + "/.") + ".";
    assert dir + "/." == (dir + "/") + ".";
    assert AfterLastSeparator(dir + "/.") == ".";
    assert AfterLastSeparator(dotdot) == "..";
    NoFile([FilePart(field, dir + "/", size)], nowMs);
    NoFile([FilePart(field, dotdot, size)], nowMs);
    NoFile([FilePart(field, ".", size)], nowMs);
  }

  /** A directory in the client's name is dropped: `dir/cv.pdf` is received as `cv.pdf`. */
  lemma DirectoryDropped(field: string, dir: string, name: string, size: nat, nowMs: nat)
    requires '/' !in name && '\\' !in name
    ensures Basename(dir + "/" + name) == Basename(name)
    ensures Basename(dir + "\\" + name) == Basename(name)
    ensures UploadResume([FilePart(field, dir + "/" + name, size)], nowMs)
         == UploadResume([FilePart(field, name, size)], nowMs)
  {
    assert (dir + "/")[|dir + "/"| - 1] == '/';
    assert (dir + "\\")[|dir + "\\"| - 1] == '\\';
    SeparatorThenName(dir + "/", name);
    SeparatorThenName(dir + "\\", name);
    SeparatorFreeIsItsOwnSegment(name);
    var a, b := FilePart(field, dir + "/" + name, size), FilePart(field, name, size);
    assert Basename(a.originalName) == Basename(b.originalName);
    ReceiveSeesBaseNamesOnly([a], [b], nowMs, None);
  }

  /** A name without separators is its own last segment. */
  lemma {:induction false} SeparatorFreeIsItsOwnSegment(name: string)
    requires '/' !in name && '\\' !in name
    ensures AfterLastSeparator(name) == name
  {
    if name != [] {
      var init := name[..|name| - 1];
      assert '/' !in init && '\\' !in init by {
        assert forall c :: c in init ==> c in name;
      }
      SeparatorFreeIsItsOwnSegment(init);
      assert name == init + [name[|name| - 1]];
    }
  }

  /** After a trailing separator, the text after the last separator is what follows it. */
  lemma {:induction false} SeparatorThenName(prefix: string, name: string)
    requires |prefix| > 0 && (prefix[|prefix| - 1] == '/' || prefix[|prefix| - 1] == '\\')
    requires '/' !in name && '\\' !in name
    ensures AfterLastSeparator(prefix + name) == name
    decreases |name|
  {
    if name == [] {
      assert prefix + name == prefix;
    } else {
      var init := name[..|name| - 1];
      assert (prefix + name)[..|prefix + name| - 1] == prefix + init;
      assert '/' !in init && '\\' !in init by {
        assert forall c :: c in init ==> c in name;
      }
      SeparatorThenName(prefix, init);
      assert name == init + [name[|name| - 1]];
    }
  }

  /**
   * A refused extension is the filter's plain Error, answered with 500 and its
   * message, whatever the file's size: the filter runs before the size limit.
   */
  lemma WrongExtension(p: FilePart, rest: seq<FilePart>, nowMs: nat)
    requires HasFileName(p) && p.fieldName == FieldName && !AcceptsFile(Basename(p.originalName))
    ensures UploadResume([p] + rest, nowMs) == Response(500, false, Message(FilterMessage))
  {
    var parts := [p] + rest;
    assert parts[0] == p && parts != [];
    assert Receive(parts, nowMs, None) == Failure(PlainError(FilterMessage));
  }

  /** An allowed file over 5 MiB is multer's size error, answered with 400. */
  lemma TooLarge(p: FilePart, rest: seq<FilePart>, nowMs: nat)
    requires HasFileName(p) && p.fieldName == FieldName && AcceptsFile(Basename(p.originalName)) && p.size > MaxFileSize
    ensures UploadResume([p] + rest, nowMs) == Response(400, false, Message("Upload error: " + "File too large"))
  {
    var parts := [p] + rest;
    assert parts[0] == p && parts != [];
    assert Receive(parts, nowMs, None) == Failure(MulterError("LIMIT_FILE_SIZE", "File too large"));
  }

  /** A named file under any other field name is multer's "Unexpected field", answered with 400. */
  lemma WrongField(p: FilePart, rest: seq<FilePart>, nowMs: nat)
    requires HasFileName(p) && p.fieldName != FieldName
    ensures UploadResume([p] + rest, nowMs) == Response(400, false, Message("Upload error: " + "Unexpected field"))
  {
    var parts := [p] + rest;
    assert parts[0] == p && parts != [];
    assert Receive(parts, nowMs, None) == Failure(MulterError("LIMIT_UNEXPECTED_FILE", "Unexpected field"));
  }

  /**
   * The stored name keeps both of its parts recoverable: `parseInt` of it gives
   * the upload time, and what follows the first dash is the client's file name.
   */
  lemma StoredFileNameParts(nowMs: nat, originalName: string)
    ensures ParseInt(StoredFileName(nowMs, originalName), Decimal) == Some(nowMs)
    ensures var n := |DecimalText(nowMs)|;
      && n < |StoredFileName(nowMs, originalName)|
      && StoredFileName(nowMs, originalName)[n] == '-'
      && StoredFileName(nowMs, originalName)[n + 1..] == originalName
  {
    var d := DecimalText(nowMs);
    var rest := "-" + originalName;
    var s := StoredFileName(nowMs, originalName);
    assert s == d + rest;
    assert rest[0] == '-';
    assert !IsDigitIn(rest[0], 10);
    ParseDecimalPrefix(nowMs, rest, Decimal);
    assert s[|d|] == rest[0];
    assert s[|d| + 1..] == rest[1..];
  }

  /**
   * For a simple file name `base.ext`, `extname` is `.ext`; so the filter accepts
   * exactly the names whose lower-cased last extension is pdf, doc or docx.
   */
  lemma ExtnameOfSimpleName(base: string, ext: string)
    requires |base| > 0 && |ext| > 0
    requires '/' !in base && '/' !in ext && '.' !in ext
    ensures Extname(base + "." + ext) == "." + ext
    ensures AcceptsFile(base + "." + ext) <==> ToLower(ext) in ["pdf", "doc", "docx"]
  {
    var name := base + "." + ext;
    assert name[|name| - 1] != '/';
    assert StripTrailingSlashes(name) == name;
    assert '/' !in name;
    assert LastSegment(name) == name;
    assert name[|base|] == '.';
    assert name[|base| + 1..] == ext;
    assert LastIndexOf(name, '.') == Some(|base|);
    assert name[|base|..] == "." + ext;
    assert ToLower("." + ext) == "." + ToLower(ext);
    DottedAllowed(ToLower(ext));
  }

  /** `.x` is an allowed extension exactly when `x` is pdf, doc or docx. */
  lemma DottedAllowed(x: string)
    ensures "." + x in AllowedExtensions <==> x in ["pdf", "doc", "docx"]
  {
    assert AllowedExtensions == [".pdf", ".doc", ".docx"];
    if "." + x in AllowedExtensions {
      assert x == ("." + x)[1..];
      assert x == ".pdf"[1..] || x == ".doc"[1..] || x == ".docx"[1..];
      assert ".pdf"[1..] == "pdf" && ".doc"[1..] == "doc" && ".docx"[1..] == "docx";
    }
    if x in ["pdf", "doc", "docx"] {
      assert "." + "pdf" == ".pdf" && "." + "doc" == ".doc" && "." + "docx" == ".docx";
    }
  }

  /** A name `base.ext` without separators is its own base name. */
  lemma SimpleNameIsItsBasename(base: string, ext: string)
    requires |base| > 0 && |ext| > 0
    requires '/' !in base && '\\' !in base && '/' !in ext && '\\' !in ext
    ensures Basename(base + "." + ext) == base + "." + ext
  {
    var name := base + "." + ext;
    assert '/' !in name && '\\' !in name by {
      assert forall c :: c in name ==> c in base || c == '.' || c in ext;
    }
    assert |name| >= 3;
    BasenameShape(name);
  }

  /** A `.docx` within the limit under `resume` is stored, whatever its base name. */
  lemma DocxAccepted(base: string, size: nat, nowMs: nat)
    requires |base| > 0 && '/' !in base && '\\' !in base && size <= MaxFileSize
    ensures UploadResume([FilePart("resume", base + "." + "docx", size)], nowMs).status == 200
  {
    var ext := "docx";
    SimpleNameIsItsBasename(base, ext);
    assert ToLower(ext) == ext by {
      forall i | 0 <= i < |ext| ensures LowerChar(ext[i]) == ext[i] { }
    }
    ExtnameOfSimpleName(base, ext);
    var p := FilePart("resume", base + "." + ext, size);
    assert IsAcceptable(p);
    UploadSucceedsIff([p], nowMs);
  }

  /** An `.exe` is refused by the filter with a 500, whatever its size. */
  lemma ExeRefused(base: string, size: nat, nowMs: nat)
    requires |base| > 0 && '/' !in base && '\\' !in base
    ensures UploadResume([FilePart("resume", base + "." + "exe", size)], nowMs).status == 500
  {
    var ext := "exe";
    var p := FilePart("resume", base + "." + ext, size);
    assert HasFileName(p) && !AcceptsFile(Basename(p.originalName)) by {
      SimpleNameIsItsBasename(base, ext);
      assert ToLower(ext) == ext by {
        forall i | 0 <= i < |ext| ensures LowerChar(ext[i]) == ext[i] { }
      }
      ExtnameOfSimpleName(base, ext);
      assert |p.originalName| == |base| + 4;
    }
    assert [p] + [] == [p];
    WrongExtension(p, [], nowMs);
  }

  /** A `.pdf` over 5 MiB is refused with a 400. */
  lemma LargePdfRefused(base: string, size: nat, nowMs: nat)
    requires |base| > 0 && '/' !in base && '\\' !in base && size > MaxFileSize
    ensures UploadResume([FilePart("resume", base + "." + "pdf", size)], nowMs).status == 400
  {
    var ext := "pdf";
    SimpleNameIsItsBasename(base, ext);
    assert ToLower(ext) == ext by {
      forall i | 0 <= i < |ext| ensures LowerChar(ext[i]) == ext[i] { }
    }
    ExtnameOfSimpleName(base, ext);
    var p := FilePart("resume", base + "." + ext, size);
    TooLarge(p, [], nowMs);
    assert [p] + [] == [p];
  }

  /** The extension check ignores case, and a file of exactly 5 MiB is within the limit. */
  lemma UpperCasePdfAtLimitAccepted(base: string, nowMs: nat)
    requires |base| > 0 && '/' !in base && '\\' !in base
    ensures UploadResume([FilePart("resume", base + "." + "PDF", MaxFileSize)], nowMs).status == 200
  {
    var ext := "PDF";
    SimpleNameIsItsBasename(base, ext);
    assert ToLower(ext) == "pdf" by {
      forall i | 0 <= i < |ext| ensures LowerChar(ext[i]) == "pdf"[i] { }
    }
    ExtnameOfSimpleName(base, ext);
    var p := FilePart("resume", base + "." + ext, MaxFileSize);
    assert IsAcceptable(p);
    UploadSucceedsIff([p], nowMs);
  }

  /** `dir/cv.pdf` is stored as `<ms>-cv.pdf`: the client's directory never reaches the stored name. */
  lemma DirectoryNotStored(dir: string, base: string, size: nat, nowMs: nat)
    requires |base| > 0 && '/' !in base && '\\' !in base && size <= MaxFileSize
    ensures var stored := StoredFileName(nowMs, base + "." + "pdf");
      UploadResume([FilePart("resume", dir + "/" + (base + "." + "pdf"), size)], nowMs)
      == Response(200, true, Uploaded(stored, UploadDir + stored))
  {
    var ext := "pdf";
    var name := base + "." + ext;
    SimpleNameIsItsBasename(base, ext);
    assert ToLower(ext) == ext by {
      forall i | 0 <= i < |ext| ensures LowerChar(ext[i]) == ext[i] { }
    }
    ExtnameOfSimpleName(base, ext);
    assert '/' !in name && '\\' !in name by {
      assert forall c :: c in name ==> c in base || c == '.' || c in ext;
    }
    DirectoryDropped("resume", dir, name, size, nowMs);
    var p := FilePart("resume", name, size);
    assert IsAcceptable(p);
    assert Named([p]) == [p];
    UploadSucceedsIff([p], nowMs);
  }
}
