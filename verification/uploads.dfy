/**
 * What the two upload routes admit: one file under one field name, an extension
 * allow-list written as a regular expression anchored at the end of the original name,
 * a byte-size cap, and a stored file name made of a fixed prefix, the clock, a random
 * number and the original extension.
 */
module Uploads {
  import opened Js

  predicate StartsWith(s: string, prefix: string)
  {
    |prefix| <= |s| && s[..|prefix|] == prefix
  }

  predicate EndsWith(s: string, suffix: string)
  {
    |suffix| <= |s| && s[|s| - |suffix|..] == suffix
  }

  /** The allow-list test: the name ends with a dot and one of the extensions, compared
      case-sensitively. */
  predicate MatchesExtension(name: string, exts: seq<string>)
  {
    exists i :: 0 <= i < |exts| && EndsWith(name, "." + exts[i])
  }

  /** The same test, decided by walking the list of extensions. */
  function MatchesAny(name: string, exts: seq<string>): (r: bool)
    ensures r <==> MatchesExtension(name, exts)
  {
    if |exts| == 0 then false
    else if EndsWith(name, "." + exts[0]) then true
    else
      MatchesTail(name, exts);
      MatchesAny(name, exts[1..])
  }

  lemma MatchesTail(name: string, exts: seq<string>)
    requires |exts| > 0 && !EndsWith(name, "." + exts[0])
    ensures MatchesExtension(name, exts) <==> MatchesExtension(name, exts[1..])
  {
    if MatchesExtension(name, exts) {
      var i :| 0 <= i < |exts| && EndsWith(name, "." + exts[i]);
      assert exts[1..][i - 1] == exts[i];
    }
    if MatchesExtension(name, exts[1..]) {
      var i :| 0 <= i < |exts[1..]| && EndsWith(name, "." + exts[1..][i]);
      assert exts[i + 1] == exts[1..][i];
    }
  }

  // ---------------------------------------------------------------------------
  // the text after the last dot
  // ---------------------------------------------------------------------------

  /** The position of the last `.` in `s`. */
  function LastDot(s: string): (r: Option<nat>)
    ensures r.Some? ==> r.value < |s| && s[r.value] == '.'
    ensures r.Some? ==> forall j :: r.value < j < |s| ==> s[j] != '.'
    ensures r.None? ==> forall j :: 0 <= j < |s| ==> s[j] != '.'
  {
    if |s| == 0 then None
    else if s[|s| - 1] == '.' then Some(|s| - 1)
    else LastDot(s[..|s| - 1])
  }

  /** The last dot is the one at `k` when no dot follows it. */
  lemma LastDotAt(s: string, k: nat)
    requires k < |s| && s[k] == '.'
    requires forall j :: k < j < |s| ==> s[j] != '.'
    ensures LastDot(s) == Some(k)
  {
  }

  predicate DotFree(e: string)
  {
    forall j :: 0 <= j < |e| ==> e[j] != '.'
  }

  /** For a dot-free extension, ending in `.e` is the same as `e` following the last dot. */
  lemma EndsWithDotExt(s: string, e: string)
    requires DotFree(e)
    ensures EndsWith(s, "." + e) <==>
              LastDot(s).Some? && LastDot(s).value + 1 + |e| == |s| && s[LastDot(s).value + 1..] == e
  {
    var d := LastDot(s);
    if EndsWith(s, "." + e) {
      EndingAt(s, e);
    } else if d.Some? && d.value + 1 + |e| == |s| && s[d.value + 1..] == e {
      DotThenRest(s, d.value, e);
    }
  }

  /** The last dot followed by exactly `e` ends the name in `.e`. */
  lemma DotThenRest(s: string, k: nat, e: string)
    requires k < |s| && s[k] == '.' && k + 1 + |e| == |s| && s[k + 1..] == e
    ensures EndsWith(s, "." + e)
  {
    assert |s| - |"." + e| == k;
    assert s[k..] == [s[k]] + s[k + 1..];
  }

  /** A name ending in `.e`, with `e` dot-free, has its last dot just before `e`. */
  lemma EndingAt(s: string, e: string)
    requires DotFree(e) && EndsWith(s, "." + e)
    ensures LastDot(s) == Some(|s| - |e| - 1) && s[|s| - |e|..] == e
  {
    var k := |s| - |e| - 1;
    var u := "." + e;
    assert s[k..] == u;
    assert s[k] == '.' by {
      assert s[k] == s[k..][0];
    }
    forall j | k < j < |s|
      ensures s[j] != '.'
    {
      assert s[j] == s[k..][j - k] == u[j - k] == e[j - k - 1];
    }
    LastDotAt(s, k);
    assert s[k + 1..] == s[k..][1..];
  }

  /** The allow-list regular expression accepts a name exactly when the text after the
      name's last dot is one of the (dot-free) extensions. */
  lemma MatchesIffLastSuffix(name: string, exts: seq<string>)
    requires forall i :: 0 <= i < |exts| ==> DotFree(exts[i])
    ensures MatchesExtension(name, exts) <==> LastDot(name).Some? && name[LastDot(name).value + 1..] in exts
  {
    if MatchesExtension(name, exts) {
      var i :| 0 <= i < |exts| && EndsWith(name, "." + exts[i]);
      EndsWithDotExt(name, exts[i]);
    }
    if LastDot(name).Some? && name[LastDot(name).value + 1..] in exts {
      var e := name[LastDot(name).value + 1..];
      var i :| 0 <= i < |exts| && exts[i] == e;
      EndsWithDotExt(name, e);
    }
  }

  // ---------------------------------------------------------------------------
  // the stored name
  // ---------------------------------------------------------------------------

  /** `path.extname` of a base name: from the last dot on, or empty when there is no dot,
      when the only dot starts the name, or for `..`. */
  function Extname(name: string): (r: string)
    ensures r == "" || (LastDot(name).Some? && r == name[LastDot(name).value..])
    ensures LastDot(name).Some? && LastDot(name).value > 0 && name != ".." ==> r == name[LastDot(name).value..]
    ensures LastDot(name).None? || LastDot(name) == Some(0) || name == ".." ==> r == ""
  {
    match LastDot(name)
    case None => ""
    case Some(k) => if k == 0 || name == ".." then "" else name[k..]
  }

  /** `path.extname` on the names where its rule is least obvious. */
  lemma ExtnameExamples()
    ensures Extname("..") == ""
    ensures Extname("a.") == "."
    ensures Extname("..csv") == ".csv"
    ensures Extname("a.b.csv") == ".csv"
  {
    assert LastDot("..") == Some(1);
    assert LastDot("a.") == Some(1);
    assert LastDot("..csv") == Some(1) by {
      LastDotAt("..csv", 1);
    }
    assert LastDot("a.b.csv") == Some(3) by {
      LastDotAt("a.b.csv", 3);
    }
  }

  /** The name multer stores a file under: the route's prefix, the upload time in decimal, a
      dash, a random number in decimal, and the original name's extension. */
  function StoredName(prefix: string, now: int, random: nat, originalName: string): (r: string)
    ensures StartsWith(r, prefix)
    ensures EndsWith(r, Extname(originalName))
  {
    var r := prefix + ToDecimalString(now) + "-" + ToDecimalString(random) + Extname(originalName);
    assert r[..|prefix|] == prefix;
    r
  }

  /** An accepted name whose last dot is not its first character is stored under the same
      extension, so the stored name passes the filter too. */
  lemma StoredNameKeepsExtension(prefix: string, now: int, random: nat, originalName: string, exts: seq<string>)
    requires forall i :: 0 <= i < |exts| ==> DotFree(exts[i]) && |exts[i]| > 0
    requires MatchesExtension(originalName, exts)
    requires LastDot(originalName).Some? && LastDot(originalName).value > 0
    ensures MatchesExtension(StoredName(prefix, now, random, originalName), exts)
  {
    var k := LastDot(originalName).value;
    var e := originalName[k + 1..];
    MatchesIffLastSuffix(originalName, exts);
    var i :| 0 <= i < |exts| && exts[i] == e;
    ExtnameOfSuffix(originalName, k);
  }

  /** Past its first character, a name's extension is its last dot and what follows. */
  lemma ExtnameOfSuffix(name: string, k: nat)
    requires LastDot(name) == Some(k) && k > 0 && |name[k + 1..]| > 0
    ensures Extname(name) == "." + name[k + 1..]
  {
    assert name != "..";
    assert name[k..] == [name[k]] + name[k + 1..];
  }

  /** A name that is nothing but the extension, such as `.csv`, passes the filter but is
      stored with no extension at all. */
  lemma BareExtensionIsStoredWithoutOne()
    ensures MatchesExtension(".csv", DataExtensions)
    ensures Extname(".csv") == ""
  {
    BareExtensionMatches(".csv");
    LeadingDotIsNoExtension(".csv");
  }

  lemma BareExtensionMatches(name: string)
    requires name == ".csv"
    ensures MatchesExtension(name, DataExtensions)
  {
    assert EndsWith(name, "." + DataExtensions[0]);
  }

  /** A name whose only dot is its first character has no extension. */
  lemma LeadingDotIsNoExtension(name: string)
    requires |name| > 0 && name[0] == '.' && DotFree(name[1..])
    ensures Extname(name) == ""
  {
    assert forall j :: 0 < j < |name| ==> name[j] == name[1..][j - 1];
    LastDotAt(name, 0);
  }

  // ---------------------------------------------------------------------------
  // admission
  // ---------------------------------------------------------------------------

  /** The configuration of one route's upload middleware. */
  datatype UploadPolicy = UploadPolicy(
    field: string,
    extensions: seq<string>,
    maxBytes: nat,
    prefix: string,
    rejection: string)

  const DataExtensions: seq<string> := ["csv", "json", "txt", "dat", "xlsx", "zip"]
  const ImageExtensions: seq<string> := ["jpg", "jpeg", "png", "gif"]

  /** Experiment data files: one file under the field `dataFile`, at most 10 MB. */
  const ExperimentUpload: UploadPolicy :=
    UploadPolicy("dataFile", DataExtensions, 10 * 1024 * 1024, "exp-", "Unsupported file format!")

  /** Postcard images: one file under the field `image`, at most 5 MB. */
  const PostcardUpload: UploadPolicy :=
    UploadPolicy("image", ImageExtensions, 5 * 1024 * 1024, "postcard-", "Only image files are allowed!")

  /** A file part of the multipart request, in arrival order. */
  datatype IncomingFile = IncomingFile(field: string, originalName: string, size: nat)

  /** The file handed to the controller: the name it was stored under. */
  datatype StagedFile = StagedFile(filename: string, size: nat)

  datatype UploadError =
    | UnexpectedFile(field: string)   // a second file, or one under another field
    | FilterRejected(message: string) // the extension allow-list said no
    | FileTooLarge                    // more bytes than the cap

  /** A part whose file name is empty is the browser's way of sending a file input left
      blank; the multipart parser drops such parts before any check sees them. */
  predicate Named(f: IncomingFile)
  {
    f.originalName != ""
  }

  /** Admission of the named file parts, in arrival order: the first must come under the
      configured field and pass the allow-list and the cap; any further file is unexpected.
      No named part means no staged file. */
  function AdmitNamed(policy: UploadPolicy, files: seq<IncomingFile>, now: int, random: nat)
    : (r: Result<Option<StagedFile>, UploadError>)
    ensures r == Ok(None) <==> |files| == 0
    ensures r.Ok? && r.value.Some? <==>
              && |files| == 1
              && files[0].field == policy.field
              && MatchesExtension(files[0].originalName, policy.extensions)
              && files[0].size <= policy.maxBytes
    ensures r.Ok? && r.value.Some? ==>
              && StartsWith(r.value.value.filename, policy.prefix)
              && r.value.value.size <= policy.maxBytes
    ensures |files| > 0 && files[0].field != policy.field ==> r == Err(UnexpectedFile(files[0].field))
    ensures |files| > 0 && files[0].field == policy.field ==>
              (!MatchesExtension(files[0].originalName, policy.extensions) ==> r == Err(FilterRejected(policy.rejection)))
  {
    if |files| == 0 then Ok(None)
    else
      var f := files[0];
      if f.field != policy.field then Err(UnexpectedFile(f.field))
      else if !MatchesAny(f.originalName, policy.extensions) then Err(FilterRejected(policy.rejection))
      else if f.size > policy.maxBytes then Err(FileTooLarge)
      else if |files| > 1 then Err(UnexpectedFile(files[1].field))
      else Ok(Some(StagedFile(StoredName(policy.prefix, now, random, f.originalName), f.size)))
  }

  /** Admission of all file parts of one request: parts without a file name are skipped,
      and the rest are admitted as above. A request whose file inputs were all left blank
      goes through with no staged file. */
  function Admit(policy: UploadPolicy, files: seq<IncomingFile>, now: int, random: nat)
    : (r: Result<Option<StagedFile>, UploadError>)
    ensures r == Ok(None) <==> forall i :: 0 <= i < |files| ==> files[i].originalName == ""
    ensures var named := Filter(files, Named);
            r.Ok? && r.value.Some? <==>
              && |named| == 1
              && named[0].field == policy.field
              && named[0].originalName != ""
              && MatchesExtension(named[0].originalName, policy.extensions)
              && named[0].size <= policy.maxBytes
    ensures r.Ok? && r.value.Some? ==>
              && StartsWith(r.value.value.filename, policy.prefix)
              && r.value.value.size <= policy.maxBytes
              && exists i :: 0 <= i < |files| && files[i].originalName != "" && files[i].size == r.value.value.size
    ensures var named := Filter(files, Named);
            |named| > 0 && named[0].field != policy.field ==> r == Err(UnexpectedFile(named[0].field))
    ensures var named := Filter(files, Named);
            |named| > 0 && named[0].field == policy.field ==>
              (!MatchesExtension(named[0].originalName, policy.extensions) ==> r == Err(FilterRejected(policy.rejection)))
  {
    AdmitNamed(policy, Filter(files, Named), now, random)
  }

  /** A blank file part anywhere in the request changes nothing about its admission. */
  lemma {:induction false} BlankPartIgnored(policy: UploadPolicy, a: seq<IncomingFile>, u: IncomingFile,
                                            b: seq<IncomingFile>, now: int, random: nat)
    requires u.originalName == ""
    ensures Admit(policy, a + [u] + b, now, random) == Admit(policy, a + b, now, random)
  {
    FilterAppend(a + [u], b, Named);
    FilterAppend(a, [u], Named);
    FilterSingle(u, Named);
    FilterAppend(a, b, Named);
    assert Filter(a, Named) + [] == Filter(a, Named);
  }

  /** Blank inputs on a form: a lone blank data-file input is no file at all, and a blank
      part under a foreign field is not unexpected. */
  lemma BlankPartExamples(now: int, random: nat)
    ensures Admit(ExperimentUpload, [IncomingFile("dataFile", "", 0)], now, random) == Ok(None)
    ensures Admit(PostcardUpload, [IncomingFile("other", "", 0)], now, random) == Ok(None)
  {
    var blank := IncomingFile("other", "", 0);
    assert [blank][0] == blank;
  }

  /** A blank part ahead of a real file does not stop the real file from being staged. */
  lemma BlankPartBeforeFile(now: int, random: nat)
    ensures Admit(ExperimentUpload, [IncomingFile("other", "", 0), IncomingFile("dataFile", "a.csv", 10)], now, random).Ok?
    ensures Admit(ExperimentUpload, [IncomingFile("other", "", 0), IncomingFile("dataFile", "a.csv", 10)], now, random).value.Some?
  {
    var blank := IncomingFile("other", "", 0);
    var file := IncomingFile("dataFile", "a.csv", 10);
    SkipsBlankPart(blank, file);
    LoneDataFileStaged(file, now, random);
  }

  lemma SkipsBlankPart(blank: IncomingFile, file: IncomingFile)
    requires blank.originalName == "" && file.originalName != ""
    ensures Filter([blank, file], Named) == [file]
  {
    assert [blank, file][1..] == [file];
    FilterSingle(file, Named);
  }

  lemma LoneDataFileStaged(file: IncomingFile, now: int, random: nat)
    requires file == IncomingFile("dataFile", "a.csv", 10)
    ensures AdmitNamed(ExperimentUpload, [file], now, random).Ok?
    ensures AdmitNamed(ExperimentUpload, [file], now, random).value.Some?
  {
    assert EndsWith(file.originalName, "." + ExperimentUpload.extensions[0]);
  }

  /** The two routes' constants: 10,485,760 and 5,242,880 bytes, and dot-free extension lists. */
  lemma PolicyConstants()
    ensures ExperimentUpload.maxBytes == 10_485_760 && PostcardUpload.maxBytes == 5_242_880
    ensures forall i :: 0 <= i < |DataExtensions| ==> DotFree(DataExtensions[i])
    ensures forall i :: 0 <= i < |ImageExtensions| ==> DotFree(ImageExtensions[i])
  {
  }

  /** The data-file filter on sample names: matching is case-sensitive and only the final
      suffix counts. */
  lemma DataFileExamples()
    ensures MatchesExtension("a.exe.csv", DataExtensions)
    ensures !MatchesExtension("readme", DataExtensions)
  {
    assert EndsWith("a.exe.csv", "." + DataExtensions[0]);
    PolicyConstants();
    MatchesIffLastSuffix("readme", DataExtensions);
  }

  lemma UpperCaseDataFileRejected()
    ensures !MatchesExtension("data.CSV", DataExtensions)
  {
    PolicyConstants();
    MatchesIffLastSuffix("data.CSV", DataExtensions);
    LastDotAt("data.CSV", 4);
    assert "data.CSV"[5..] == "CSV";
  }

  lemma InnerDataExtensionRejected()
    ensures !MatchesExtension("a.csv.exe", DataExtensions)
  {
    PolicyConstants();
    MatchesIffLastSuffix("a.csv.exe", DataExtensions);
    LastDotAt("a.csv.exe", 5);
    assert "a.csv.exe"[6..] == "exe";
  }

  /** The image filter on sample names: both spellings of JPEG pass. */
  lemma ImageExamples()
    ensures MatchesExtension("photo.jpeg", ImageExtensions)
    ensures MatchesExtension("photo.jpg", ImageExtensions)
  {
    assert EndsWith("photo.jpeg", "." + ImageExtensions[1]);
    assert EndsWith("photo.jpg", "." + ImageExtensions[0]);
  }

  /** The image filter is case-sensitive. */
  lemma UpperCaseImageRejected()
    ensures !MatchesExtension("photo.PNG", ImageExtensions)
  {
    PolicyConstants();
    MatchesIffLastSuffix("photo.PNG", ImageExtensions);
    LastDotAt("photo.PNG", 5);
    assert "photo.PNG"[6..] == "PNG";
  }

  /** The image filter looks only at the final suffix. */
  lemma InnerImageExtensionRejected()
    ensures !MatchesExtension("x.png.txt", ImageExtensions)
  {
    PolicyConstants();
    MatchesIffLastSuffix("x.png.txt", ImageExtensions);
    LastDotAt("x.png.txt", 5);
    assert "x.png.txt"[6..] == "txt";
  }
}
