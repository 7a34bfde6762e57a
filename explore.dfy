/**
 * The selection rules of `freedict:explore`: which catalogue entry a
 * language pair names, which download format of its first release is
 * chosen, which extractor an archive goes to, which files of the
 * extracted tree count as dictionary files, and how each is examined.
 */
module FreedictExplore {
  import opened Wrappers
  import opened Json
  import opened Text
  import FS = FreeDictService

  /* ---------------- findLanguagePair ---------------- */

  /** `"{$dict['lg1']}-{$dict['lg2']}"`. */
  function PairOf(dict: Json): string
  {
    ToStr(Get(dict, "lg1")) + "-" + ToStr(Get(dict, "lg2"))
  }

  /** The entry is the one asked for: by its `lg1-lg2` pair, or by its name compared strictly. */
  predicate Names(dict: Json, languagePair: string)
  {
    PairOf(dict) == languagePair || Get(dict, "name") == JStr(languagePair)
  }

  /** `findLanguagePair()`: the first entry that names the pair, null when none does. */
  function FindLanguagePair(database: seq<Json>, languagePair: string): Option<Json>
  {
    if database == [] then None
    else if Names(database[0], languagePair) then Some(database[0])
    else FindLanguagePair(database[1..], languagePair)
  }

  /**
   * The search finds an entry exactly when some entry names the pair, and
   * then it is the first such entry.
   */
  lemma {:induction false} FindLanguagePairFirst(database: seq<Json>, languagePair: string)
    ensures var r := FindLanguagePair(database, languagePair);
      && (r.None? <==> forall i | 0 <= i < |database| :: !Names(database[i], languagePair))
      && (r.Some? ==>
            exists i | 0 <= i < |database| :: database[i] == r.value && Names(database[i], languagePair)
              && forall j | 0 <= j < i :: !Names(database[j], languagePair))
  {
    if database != [] && Names(database[0], languagePair) {
      assert FindLanguagePair(database, languagePair) == Some(database[0]);
    } else if database != [] {
      var rest := database[1..];
      FindLanguagePairFirst(rest, languagePair);
      var r := FindLanguagePair(rest, languagePair);
      assert FindLanguagePair(database, languagePair) == r;
      if r.Some? {
        var i :| 0 <= i < |rest| && rest[i] == r.value && Names(rest[i], languagePair)
          && forall j | 0 <= j < i :: !Names(rest[j], languagePair);
        assert database[i + 1] == rest[i];
        forall j | 0 <= j < i + 1 ensures !Names(database[j], languagePair) {
          if j > 0 {
            assert database[j] == rest[j - 1];
          }
        }
      } else {
        forall j | 0 <= j < |database| ensures !Names(database[j], languagePair) {
          if j > 0 {
            assert database[j] == rest[j - 1];
          }
        }
      }
    }
  }

  /* ---------------- findBestFormat ---------------- */

  /** The fallback formats, easiest to parse first. */
  const FormatPriority: seq<string> := ["freedict-p5", "tei", "dict", "stardict", "slob"]

  /** The `TypeError` of returning an array where `?string` is declared. */
  const ArrayReturned := "Return value must be of type ?string, array returned"

  /** The `TypeError` of `array_key_first` on a value that is not an array. */
  const KeyOfNonArray := "array_key_first(): Argument #1 ($array) must be of type array"

  /** `isset($formats[$key])`. */
  predicate IsSet(formats: Json, key: string)
  {
    Get(formats, key) != JNull
  }

  /**
   * A format's `url` as the `?string` return type receives it: null stays
   * null, a scalar becomes its string, an array is a `TypeError`.
   */
  function UrlOf(format: Json): Result<Option<string>>
  {
    var u := Get(format, "url");
    if u == JNull then Success(None)
    else if u.IsArray() then Failure(ArrayReturned)
    else Success(Some(ToStr(u)))
  }

  /** The first format of the priority list that the release has. */
  function FirstFallback(formats: Json, priority: seq<string>): Option<string>
  {
    if priority == [] then None
    else if IsSet(formats, priority[0]) then Some(priority[0])
    else FirstFallback(formats, priority[1..])
  }

  /** The fallback search gives the earliest listed format the release has, and nothing when it has none of them. */
  lemma {:induction false} FirstFallbackFirst(formats: Json, priority: seq<string>)
    ensures var r := FirstFallback(formats, priority);
      && (r.None? <==> forall i | 0 <= i < |priority| :: !IsSet(formats, priority[i]))
      && (r.Some? ==>
            exists i | 0 <= i < |priority| :: priority[i] == r.value && IsSet(formats, priority[i])
              && forall j | 0 <= j < i :: !IsSet(formats, priority[j]))
  {
    if priority != [] && !IsSet(formats, priority[0]) {
      var rest := priority[1..];
      FirstFallbackFirst(formats, rest);
      var r := FirstFallback(formats, rest);
      if r.Some? {
        var i :| 0 <= i < |rest| && rest[i] == r.value && IsSet(formats, rest[i])
          && forall j | 0 <= j < i :: !IsSet(formats, rest[j]);
        assert priority[i + 1] == rest[i];
        forall j | 0 <= j < i + 1 ensures !IsSet(formats, priority[j]) {
          if j > 0 {
            assert priority[j] == rest[j - 1];
          }
        }
      } else {
        forall j | 0 <= j < |priority| ensures !IsSet(formats, priority[j]) {
          if j > 0 {
            assert priority[j] == rest[j - 1];
          }
        }
      }
    }
  }

  /**
   * `array_key_first()` as a string: the first field name of an object, "0"
   * for a non-empty list, None for an empty array.
   */
  function FirstKey(formats: Json): Option<string>
    requires formats.IsArray()
  {
    match formats
    case JObject(fields) => if fields == [] then None else Some(fields[0].0)
    case JList(items) => if items == [] then None else Some("0")
  }

  /** The first release's `formats`: `$dictInfo['releases'][0]['formats']`. */
  function FirstFormats(dictInfo: Json): Json
  {
    Get(Get(Get(dictInfo, "releases"), "0"), "formats")
  }

  /**
   * `findBestFormat()`: no releases give null; otherwise, in the first
   * release only, the preferred format, else the first fallback format
   * present, else the first format when its key is truthy (a key "" or "0"
   * is not), else null.
   */
  function FindBestFormat(dictInfo: Json, preferred: string): Result<Option<string>>
  {
    if !Truthy(Get(dictInfo, "releases")) then Success(None)
    else
      var formats := FirstFormats(dictInfo);
      if IsSet(formats, preferred) then UrlOf(Get(formats, preferred))
      else
        var fallback := FirstFallback(formats, FormatPriority);
        if fallback.Some? then UrlOf(Get(formats, fallback.value))
        else if !formats.IsArray() then Failure(KeyOfNonArray)
        else
          var first := FirstKey(formats);
          if first.None? || first.value == "" || first.value == "0" then Success(None)
          else UrlOf(Get(formats, first.value))
  }

  /**
   * The choice: nothing without releases; the preferred format when the
   * first release has it; otherwise the earliest fallback format it has.
   */
  lemma FindBestFormatPrefers(dictInfo: Json, preferred: string)
    ensures var formats := FirstFormats(dictInfo);
      var r := FindBestFormat(dictInfo, preferred);
      && (!Truthy(Get(dictInfo, "releases")) ==> r == Success(None))
      && (Truthy(Get(dictInfo, "releases")) && IsSet(formats, preferred) ==> r == UrlOf(Get(formats, preferred)))
      && (Truthy(Get(dictInfo, "releases")) && !IsSet(formats, preferred)
          && (exists i | 0 <= i < |FormatPriority| :: IsSet(formats, FormatPriority[i])) ==>
            exists i | 0 <= i < |FormatPriority| :: IsSet(formats, FormatPriority[i])
              && (forall j | 0 <= j < i :: !IsSet(formats, FormatPriority[j]))
              && r == UrlOf(Get(formats, FormatPriority[i])))
  {
    FirstFallbackFirst(FirstFormats(dictInfo), FormatPriority);
  }

  /** Only the first release counts: two entries whose first releases have the same formats get the same answer. */
  lemma FindBestFormatFirstRelease(a: Json, b: Json, preferred: string)
    requires Truthy(Get(a, "releases")) == Truthy(Get(b, "releases"))
    requires FirstFormats(a) == FirstFormats(b)
    ensures FindBestFormat(a, preferred) == FindBestFormat(b, preferred)
  {
  }

  /** A URL found is the `url` of one of the first release's formats. */
  lemma FindBestFormatFromRelease(dictInfo: Json, preferred: string)
    ensures var r := FindBestFormat(dictInfo, preferred);
      r.Success? && r.value.Some? ==>
        var formats := FirstFormats(dictInfo);
        exists key :: IsSet(formats, key) && UrlOf(Get(formats, key)) == r
  {
    var formats := FirstFormats(dictInfo);
    var r := FindBestFormat(dictInfo, preferred);
    if r.Success? && r.value.Some? {
      if IsSet(formats, preferred) {
        assert UrlOf(Get(formats, preferred)) == r;
      } else {
        FirstFallbackFirst(formats, FormatPriority);
        var fallback := FirstFallback(formats, FormatPriority);
        if fallback.Some? {
          assert IsSet(formats, fallback.value) && UrlOf(Get(formats, fallback.value)) == r;
        } else {
          var first := FirstKey(formats).value;
          assert UrlOf(Get(formats, first)) == r;
          FirstKeyIsSet(formats);
        }
      }
    }
  }

  /** The first key of a non-empty array reads a value, unless that value is null. */
  lemma FirstKeyIsSet(formats: Json)
    requires formats.IsArray() && FirstKey(formats).Some?
    ensures UrlOf(Get(formats, FirstKey(formats).value)) != Success(None) ==> IsSet(formats, FirstKey(formats).value)
  {
    var k := FirstKey(formats).value;
    if !IsSet(formats, k) {
      assert Get(Get(formats, k), "url") == JNull;
    }
  }

  /* ---------------- extensions ---------------- */

  /**
   * The extension `pathinfo` and `SplFileInfo::getExtension` report: what
   * follows the last `.` of the base name, "" when there is no `.`.
   */
  function Extension(path: string): string
  {
    NameExtension(FS.Basename(path))
  }

  /** What follows the last `.` of a file name, "" when there is none. */
  function NameExtension(name: string): string
  {
    var k := LastIndexOf(name, '.');
    if k < 0 then "" else name[k + 1..]
  }

  /** The lower-cased extension every dispatch below looks at. */
  function LowerExtension(path: string): string
  {
    AsciiLower(Extension(path))
  }

  /* ---------------- extractArchive ---------------- */

  /** The extraction routes of `extractArchive`. */
  datatype Extractor = TarGz | Zip | Bzip2 | PlainCopy

  /** The `switch` of `extractArchive`: gz and tgz untarred, zip unzipped, bz2 bunzipped, anything else copied. */
  function ExtractorFor(filePath: string): Extractor
  {
    ExtractorOf(LowerExtension(filePath))
  }

  function ExtractorOf(ext: string): Extractor
  {
    if ext == "gz" || ext == "tgz" then TarGz
    else if ext == "zip" then Zip
    else if ext == "bz2" then Bzip2
    else PlainCopy
  }

  /* ---------------- examineFile ---------------- */

  /** The readers of `examineFile`. */
  datatype Examiner = XmlReader | DictReader | JsonReader | TextReader

  /** The `switch` of `examineFile`: xml and tei as XML, dict as DICT, json as JSON, anything else as text. */
  function ExaminerFor(filePath: string): Examiner
  {
    ExaminerOf(LowerExtension(filePath))
  }

  function ExaminerOf(ext: string): Examiner
  {
    if ext == "xml" || ext == "tei" then XmlReader
    else if ext == "dict" then DictReader
    else if ext == "json" then JsonReader
    else TextReader
  }

  /* ---------------- findDictionaryFiles ---------------- */

  /** The extensions of common dictionary files. */
  const DictionaryExtensions: seq<string> := ["xml", "tei", "dict", "idx", "dz", "txt", "json"]

  /** `str_contains($s, $t)`. */
  predicate Contains(s: string, t: string)
  {
    exists i | 0 <= i <= |s| :: t <= s[i..]
  }

  /** The filter of `findDictionaryFiles`: a listed extension, or a name containing "dict" or ".tei", in any case. */
  predicate IsDictionaryFile(path: string)
  {
    var name := AsciiLower(FS.Basename(path));
    LowerExtension(path) in DictionaryExtensions || Contains(name, "dict") || Contains(name, ".tei")
  }

  /** One item of the recursive directory walk: its path, and whether it is a regular file. */
  datatype WalkItem = WalkItem(path: string, isFile: bool)

  /** The paths of the regular files the walk yields that `keep` accepts, in walk order. */
  function KeptFiles(walk: seq<WalkItem>, keep: string -> bool): seq<string>
  {
    if walk == [] then []
    else
      var kept := KeptFiles(walk[..|walk| - 1], keep);
      var item := walk[|walk| - 1];
      if item.isFile && keep(item.path) then kept + [item.path] else kept
  }

  /** The walk keeps exactly the regular files `keep` accepts, at most one path per item. */
  lemma {:induction false} KeptFilesSelect(walk: seq<WalkItem>, keep: string -> bool)
    ensures var r := KeptFiles(walk, keep);
      |r| <= |walk|
      && forall p :: p in r <==> exists i | 0 <= i < |walk| :: walk[i].path == p && walk[i].isFile && keep(p)
  {
    if walk != [] {
      var front := walk[..|walk| - 1];
      KeptFilesSelect(front, keep);
      forall i | 0 <= i < |front| ensures front[i] == walk[i] {
      }
    }
  }

  /** The dictionary files of a walk: the regular files that pass the filter, and no others. */
  lemma DictionaryFilesSelect(walk: seq<WalkItem>)
    ensures var r := KeptFiles(walk, IsDictionaryFile);
      |r| <= |walk|
      && forall p :: p in r <==> exists i | 0 <= i < |walk| :: walk[i].path == p && walk[i].isFile && IsDictionaryFile(p)
  {
    KeptFilesSelect(walk, IsDictionaryFile);
  }

  /** `findDictionaryFiles()` over the items the directory walk yields. */
  method FindDictionaryFiles(walk: seq<WalkItem>) returns (files: seq<string>)
    ensures files == KeptFiles(walk, IsDictionaryFile)
  {
    files := [];
    for i := 0 to |walk|
      invariant files == KeptFiles(walk[..i], IsDictionaryFile)
    {
      assert walk[..i + 1][..i] == walk[..i];
      var item := walk[i];
      if item.isFile {
        var extension := AsciiLower(Extension(item.path));
        var filename := AsciiLower(FS.Basename(item.path));
        if extension in DictionaryExtensions || Contains(filename, "dict") || Contains(filename, ".tei") {
          files := files + [item.path];
        }
      }
    }
    assert walk[..|walk|] == walk;
  }

  /* ---------------- case and the dispatches ---------------- */

  lemma AsciiLowerIdempotent(s: string)
    ensures AsciiLower(AsciiLower(s)) == AsciiLower(s)
  {
  }

  /** Lower-casing moves no character that is not an ASCII letter, such as `/` and `.`. */
  lemma {:induction false} LastIndexOfLower(p: string, c: char)
    requires !('A' <= c <= 'Z') && !('a' <= c <= 'z')
    ensures LastIndexOf(AsciiLower(p), c) == LastIndexOf(p, c)
  {
    if p != [] {
      var n := |p| - 1;
      assert AsciiLower(p)[..n] == AsciiLower(p[..n]);
      LastIndexOfLower(p[..n], c);
    }
  }

  /** The base name of a lower-cased path is the lower-cased base name. */
  lemma BasenameOfLower(p: string)
    ensures FS.Basename(AsciiLower(p)) == AsciiLower(FS.Basename(p))
  {
    LastIndexOfLower(p, '/');
    AsciiLowerSuffix(p, LastIndexOf(p, '/') + 1);
  }

  /** The extension of a lower-cased name is the lower-cased extension. */
  lemma NameExtensionOfLower(name: string)
    ensures NameExtension(AsciiLower(name)) == AsciiLower(NameExtension(name))
  {
    LastIndexOfLower(name, '.');
    var k := LastIndexOf(name, '.');
    if k >= 0 {
      AsciiLowerSuffix(name, k + 1);
    }
  }

  /** The extension of a lower-cased path is the lower-cased extension. */
  lemma ExtensionOfLower(p: string)
    ensures Extension(AsciiLower(p)) == AsciiLower(Extension(p))
  {
    BasenameOfLower(p);
    NameExtensionOfLower(FS.Basename(p));
  }

  /** Lower-casing a suffix is taking the suffix of the lower-cased string. */
  lemma AsciiLowerSuffix(s: string, i: nat)
    requires i <= |s|
    ensures AsciiLower(s)[i..] == AsciiLower(s[i..])
  {
  }

  /** The lower-cased extension of a lower-cased path is the lower-cased extension. */
  lemma LowerExtensionOfLower(p: string)
    ensures LowerExtension(AsciiLower(p)) == LowerExtension(p)
  {
    ExtensionOfLower(p);
    AsciiLowerIdempotent(Extension(p));
  }

  /** The letter case of a path changes neither the extractor nor the examiner. */
  lemma DispatchIgnoresCase(p: string)
    ensures ExtractorFor(AsciiLower(p)) == ExtractorFor(p)
    ensures ExaminerFor(AsciiLower(p)) == ExaminerFor(p)
  {
    LowerExtensionOfLower(p);
    var e := LowerExtension(p);
    assert ExtractorFor(p) == ExtractorOf(e) == ExtractorFor(AsciiLower(p));
    assert ExaminerFor(p) == ExaminerOf(e) == ExaminerFor(AsciiLower(p));
  }

  /** The letter case of a path does not change whether it is a dictionary file. */
  lemma FilterIgnoresCase(p: string)
    ensures IsDictionaryFile(AsciiLower(p)) == IsDictionaryFile(p)
  {
    LowerExtensionOfLower(p);
    BasenameOfLower(p);
    AsciiLowerIdempotent(FS.Basename(p));
  }

  /** Every file `examineFile` reads as XML, DICT or JSON is one `findDictionaryFiles` keeps. */
  lemma ExaminedFilesAreFound(p: string)
    requires ExaminerFor(p) != TextReader
    ensures IsDictionaryFile(p)
  {
  }

  /** An archive that is unpacked has an extension that neither the examiner nor the filter's extension list reads as a dictionary format. */
  lemma ArchivesAreNotExamined(p: string)
    requires ExtractorFor(p) != PlainCopy
    ensures ExaminerFor(p) == TextReader && LowerExtension(p) !in DictionaryExtensions
  {
    ArchiveExtensions(LowerExtension(p));
  }

  lemma ArchiveExtensions(e: string)
    requires e == "gz" || e == "tgz" || e == "zip" || e == "bz2"
    ensures e != "xml" && e != "tei" && e != "dict" && e != "json" && e !in DictionaryExtensions
  {
    assert e[0] in "gztb" && (e[0] == 't' ==> e[1] == 'g');
    forall x | x in DictionaryExtensions ensures x[0] in "xtdij" && (x[0] == 't' ==> x[1] in "ex") {
    }
  }
}
