/**
 * The StarDict reader of the FreeDict service: `.ifo` metadata, the `.idx`
 * record decoder, the endianness choice against the `.dict` length, capped
 * payload slices, text previews and hex dumps, the catalogue release
 * preference, and the rules that pick (and, when compressed, decompress
 * once) the index and payload files of an unpacked dictionary directory.
 *
 * The file system the service sees is the class `FreeDictService` below:
 * a map from path to contents plus the order in which a recursive
 * directory walk visits those files.
 */
module FreeDictService {
  import opened Wrappers
  import opened ByteCodec
  import Utf8
  import opened Text
  import opened Json

  type Path = string

  function Min(a: int, b: int): int { if a <= b then a else b }
  function Max(a: int, b: int): int { if a >= b then a else b }

  /* ======================= catalogue release preference ======================= */

  /** One row of `pickBestRelease`: URL, platform, date, version and size. */
  datatype Release = Release(url: string, platform: string, date: string, version: string, size: Option<int>)

  /** The platforms tried, in order of preference. */
  function Platforms(stardictOnly: bool): seq<string>
  {
    if stardictOnly then ["stardict"] else ["stardict", "dictd", "src", "slob"]
  }

  /** `(string)$r['date']`, the key releases are ordered by. */
  function DateOf(r: Json): string
  {
    ToStr(Get(r, "date"))
  }

  /** `array_values(array_filter($rs, fn($r) => ($r['platform'] ?? null) === $platform))`. */
  function OnPlatform(rs: seq<Json>, platform: string): (c: seq<Json>)
    ensures |c| <= |rs|
    ensures forall x | x in c :: x in rs && Get(x, "platform") == JStr(platform)
    ensures forall x | x in rs && Get(x, "platform") == JStr(platform) :: x in c
  {
    if rs == [] then []
    else if Get(rs[0], "platform") == JStr(platform) then [rs[0]] + OnPlatform(rs[1..], platform)
    else OnPlatform(rs[1..], platform)
  }

  /** The dates of a list of releases, in order. */
  function Dates(rs: seq<Json>): (ds: seq<string>)
    ensures |ds| == |rs| && forall i | 0 <= i < |rs| :: ds[i] == DateOf(rs[i])
  {
    seq(|rs|, i requires 0 <= i < |rs| => DateOf(rs[i]))
  }

  /**
   * Where a stable sort into descending `strcmp` order puts the first
   * element: the earliest position holding a greatest date.
   */
  function LatestIndex(ds: seq<string>): (k: nat)
    requires ds != []
    ensures k < |ds|
  {
    if |ds| == 1 then 0
    else
      var k := LatestIndex(ds[..|ds| - 1]);
      if LexLess(ds[k], ds[|ds| - 1]) then |ds| - 1 else k
  }

  /** No date exceeds the one at LatestIndex, and every date before it is smaller. */
  lemma {:induction false} LatestIndexIsLatest(ds: seq<string>)
    requires ds != []
    ensures forall j | 0 <= j < |ds| :: !LexLess(ds[LatestIndex(ds)], ds[j])
    ensures forall j | 0 <= j < LatestIndex(ds) :: LexLess(ds[j], ds[LatestIndex(ds)])
  {
    if |ds| == 1 {
      LexLessIrreflexive(ds[0]);
    } else {
      var front := ds[..|ds| - 1];
      LatestIndexIsLatest(front);
      var k := LatestIndex(front);
      var dk, dl := ds[k], ds[|ds| - 1];
      if LexLess(dk, dl) {
        forall j | 0 <= j < |ds| - 1 ensures LexLess(ds[j], dl) {
          assert ds[j] == front[j];
          LexLessTotal(ds[j], dk);
          if ds[j] != dk {
            LexLessTransitive(ds[j], dk, dl);
          }
        }
        forall j | 0 <= j < |ds| ensures !LexLess(dl, ds[j]) {
          if j < |ds| - 1 {
            LexLessTotal(ds[j], dl);
          } else {
            LexLessIrreflexive(dl);
          }
        }
      } else {
        forall j | 0 <= j < |ds| ensures !LexLess(dk, ds[j]) {
          if j < |ds| - 1 {
            assert ds[j] == front[j];
          }
        }
        forall j | 0 <= j < k ensures LexLess(ds[j], dk) {
          assert ds[j] == front[j];
        }
      }
    }
  }

  /** The row built from a chosen release. */
  function ReleaseOf(r: Json, platform: string): Release
  {
    Release(ToStr(Get(r, "URL")), platform, DateOf(r), ToStr(Get(r, "version")), SizeOf(r))
  }

  /** `is_numeric($r['size'] ?? null) ? (int)$r['size'] : null`. */
  function SizeOf(r: Json): Option<int>
  {
    var s := Get(r, "size");
    if IsNumeric(s) then Some(NumericValue(s)) else None
  }

  /** The row for `$releases[0]` when no preferred platform has a release. */
  function FirstReleaseOf(releases: Json): Release
  {
    var r := Get(releases, "0");
    var p := Get(r, "platform");
    ReleaseOf(r, if p == JNull then "unknown" else ToStr(p))
  }

  /** The platform loop of `pickBestRelease`, from preference `i` on. */
  function PickFrom(rs: seq<Json>, releases: Json, stardictOnly: bool, i: nat): Release
    requires i <= |Platforms(stardictOnly)|
    decreases |Platforms(stardictOnly)| - i
  {
    var pref := Platforms(stardictOnly);
    if i == |pref| then
      if stardictOnly then Release("", "", "", "", None) else FirstReleaseOf(releases)
    else
      var c := OnPlatform(rs, pref[i]);
      if c != [] then ReleaseOf(c[LatestIndex(Dates(c))], pref[i]) else PickFrom(rs, releases, stardictOnly, i + 1)
  }

  /** `pickBestRelease($item, $stardictOnly)`; a thrown exception is `Failure`. */
  function PickBestRelease(item: Json, stardictOnly: bool): Result<Release>
    requires item.IsArray()
  {
    var releases := Get(item, "releases");
    if !releases.IsArray() || Elements(releases) == [] then Failure("No releases[] found on item.")
    else Success(PickFrom(Elements(releases), releases, stardictOnly, 0))
  }

  /** The releases `pickBestRelease` chooses among, when it does not throw. */
  predicate HasReleases(item: Json)
  {
    Get(item, "releases").IsArray() && Elements(Get(item, "releases")) != []
  }

  /**
   * `pickBestRelease` throws exactly when releases[] is missing, not an array
   * or empty; otherwise, when platform `pref[k]` is the first preferred one
   * with any release, the row is made from a release on that platform whose
   * date no other release on it exceeds, and which comes before every other
   * release on it with the same date.
   */
  lemma {:induction false} PickBestReleaseChoice(item: Json, stardictOnly: bool, k: nat)
    requires item.IsArray()
    requires HasReleases(item)
    requires k < |Platforms(stardictOnly)|
    requires OnPlatform(Elements(Get(item, "releases")), Platforms(stardictOnly)[k]) != []
    requires forall m | 0 <= m < k :: OnPlatform(Elements(Get(item, "releases")), Platforms(stardictOnly)[m]) == []
    ensures PickBestRelease(item, stardictOnly).Success?
    ensures var c := OnPlatform(Elements(Get(item, "releases")), Platforms(stardictOnly)[k]);
      exists i | 0 <= i < |c| ::
        && PickBestRelease(item, stardictOnly).value == ReleaseOf(c[i], Platforms(stardictOnly)[k])
        && Get(c[i], "platform") == JStr(Platforms(stardictOnly)[k])
        && (forall j | 0 <= j < |c| :: !LexLess(DateOf(c[i]), DateOf(c[j])))
        && (forall j | 0 <= j < i :: LexLess(DateOf(c[j]), DateOf(c[i])))
  {
    var releases := Get(item, "releases");
    var rs := Elements(releases);
    var p := Platforms(stardictOnly)[k];
    PickFromSkips(rs, releases, stardictOnly, 0, k);
    var c := OnPlatform(rs, p);
    var d := Dates(c);
    var i := LatestIndex(d);
    assert PickFrom(rs, releases, stardictOnly, k) == ReleaseOf(c[i], p);
    LatestRelease(c);
    assert c[i] in c;
  }

  /** LatestIndexIsLatest stated over the releases rather than their dates. */
  lemma LatestRelease(c: seq<Json>)
    requires c != []
    ensures forall j | 0 <= j < |c| :: !LexLess(DateOf(c[LatestIndex(Dates(c))]), DateOf(c[j]))
    ensures forall j | 0 <= j < LatestIndex(Dates(c)) :: LexLess(DateOf(c[j]), DateOf(c[LatestIndex(Dates(c))]))
  {
    var d := Dates(c);
    LatestIndexIsLatest(d);
  }

  lemma {:induction false} PickFromSkips(rs: seq<Json>, releases: Json, stardictOnly: bool, i: nat, k: nat)
    requires i <= k <= |Platforms(stardictOnly)|
    requires forall m | i <= m < k :: OnPlatform(rs, Platforms(stardictOnly)[m]) == []
    ensures PickFrom(rs, releases, stardictOnly, i) == PickFrom(rs, releases, stardictOnly, k)
    decreases k - i
  {
    if i < k {
      PickFromSkips(rs, releases, stardictOnly, i + 1, k);
    }
  }

  /**
   * With no release on any preferred platform, a stardict-only pick is the
   * empty row and any other pick describes `releases[0]`.
   */
  lemma PickBestReleaseFallback(item: Json, stardictOnly: bool)
    requires item.IsArray() && HasReleases(item)
    requires forall m | 0 <= m < |Platforms(stardictOnly)| ::
      OnPlatform(Elements(Get(item, "releases")), Platforms(stardictOnly)[m]) == []
    ensures PickBestRelease(item, stardictOnly) ==
      Success(if stardictOnly then Release("", "", "", "", None) else FirstReleaseOf(Get(item, "releases")))
  {
    var releases := Get(item, "releases");
    PickFromSkips(Elements(releases), releases, stardictOnly, 0, |Platforms(stardictOnly)|);
  }

  /** `pickBestRelease` throws exactly when there is no release to choose from. */
  lemma PickBestReleaseFails(item: Json, stardictOnly: bool)
    requires item.IsArray()
    ensures PickBestRelease(item, stardictOnly).Failure? <==> !HasReleases(item)
  {
  }

  /* ======================= .ifo metadata ======================= */

  function DropCarriageReturn(line: string): string
  {
    if line != [] && line[|line| - 1] == '\r' then line[..|line| - 1] else line
  }

  /**
   * `file($path, FILE_IGNORE_NEW_LINES | FILE_SKIP_EMPTY_LINES)`: the lines,
   * each without its `\n` (and a `\r` before it), empty lines left out.
   */
  function FileLines(s: string): (r: seq<string>)
    ensures forall i | 0 <= i < |r| :: r[i] != [] && forall j | 0 <= j < |r[i]| :: r[i][j] != '\n'
    decreases |s|
  {
    if s == [] then []
    else
      var k := IndexOf(s, '\n');
      var line := DropCarriageReturn(s[..k]);
      var rest := if k < |s| then s[k + 1..] else [];
      (if line == [] then [] else [line]) + FileLines(rest)
  }

  predicate HasEq(line: string)
  {
    IndexOf(line, '=') < |line|
  }

  /** The trimmed text before the first `=`. */
  function IfoKey(line: string): string
  {
    Trim(line[..IndexOf(line, '=')])
  }

  /** The trimmed text after the first `=`; later `=` belong to the value. */
  function IfoValue(line: string): string
    requires HasEq(line)
  {
    Trim(line[IndexOf(line, '=') + 1..])
  }

  /** What a line defines: its key and value when it has a `=`. */
  function IfoEntry(line: string): Option<(string, string)>
  {
    if HasEq(line) then Some((IfoKey(line), IfoValue(line))) else None
  }

  function IfoEntries(lines: seq<string>): (es: seq<Option<(string, string)>>)
    ensures |es| == |lines| && forall i | 0 <= i < |lines| :: es[i] == IfoEntry(lines[i])
  {
    seq(|lines|, i requires 0 <= i < |lines| => IfoEntry(lines[i]))
  }

  /** The metadata the entries define, applied in order. */
  function IfoMap(es: seq<Option<(string, string)>>): map<string, string>
  {
    if es == [] then map[]
    else
      var m := IfoMap(es[..|es| - 1]);
      var last := es[|es| - 1];
      if last.None? then m else m[last.value.0 := last.value.1]
  }

  lemma IfoMapStep(es: seq<Option<(string, string)>>, i: nat)
    requires i < |es|
    ensures IfoMap(es[..i + 1]) ==
      if es[i].None? then IfoMap(es[..i]) else IfoMap(es[..i])[es[i].value.0 := es[i].value.1]
  {
    assert es[..i + 1][..i] == es[..i];
  }

  /**
   * A key is defined exactly when some line defines it, and its value is the
   * one given by the last line that does.
   */
  lemma {:induction false} IfoLastLineWins(es: seq<Option<(string, string)>>, key: string)
    ensures key in IfoMap(es) <==> exists i | 0 <= i < |es| :: es[i].Some? && es[i].value.0 == key
    ensures key in IfoMap(es) ==>
      exists i | 0 <= i < |es| ::
        && es[i] == Some((key, IfoMap(es)[key]))
        && forall j | i < j < |es| :: !(es[j].Some? && es[j].value.0 == key)
  {
    IfoKeyDefined(es, key);
    if es != [] {
      var n := |es| - 1;
      var front := es[..n];
      var m := IfoMap(front);
      assert IfoMap(es) == if es[n].None? then m else m[es[n].value.0 := es[n].value.1];
      if es[n].Some? && es[n].value.0 == key {
        assert es[n] == Some((key, IfoMap(es)[key]));
      } else if key in IfoMap(es) {
        IfoLastLineWins(front, key);
        var i :| 0 <= i < n && front[i] == Some((key, m[key]))
          && forall j | i < j < n :: !(front[j].Some? && front[j].value.0 == key);
        assert es[i] == front[i] && IfoMap(es)[key] == m[key];
        forall j | i < j < |es| ensures !(es[j].Some? && es[j].value.0 == key) {
          if j < n {
            assert es[j] == front[j];
          }
        }
      }
    }
  }

  /** A key is defined exactly when some line defines it. */
  lemma {:induction false} IfoKeyDefined(es: seq<Option<(string, string)>>, key: string)
    ensures key in IfoMap(es) <==> exists i | 0 <= i < |es| :: es[i].Some? && es[i].value.0 == key
  {
    if es != [] {
      var n := |es| - 1;
      var front := es[..n];
      IfoKeyDefined(front, key);
      assert forall i | 0 <= i < n :: front[i] == es[i];
    }
  }

  /** A line is split at its first `=` only: `k=v=w` defines `k` as `v=w`. */
  lemma IfoValueKeepsLaterEquals(k: string, v: string)
    requires forall i | 0 <= i < |k| :: k[i] != '='
    ensures HasEq(k + "=" + v) && IfoKey(k + "=" + v) == Trim(k) && IfoValue(k + "=" + v) == Trim(v)
  {
    var l := k + "=" + v;
    IndexOfJoin(k, '=', v);
    assert l[..|k|] == k;
    assert l[|k| + 1..] == v;
  }

  /* ======================= .idx records ======================= */

  /** Headwords longer than this are cut (one byte past it is kept). */
  const MaxHeadword := 4000

  /**
   * One index record as `readIndexEntries` returns it: the headword and the
   * raw offset and size fields as read; the record's `offBE`, `sizeBE`,
   * `offLE`, `sizeLE` values and their hex strings are derived from them.
   */
  datatype IndexRecord = IndexRecord(headword: seq<Byte>, offsetField: seq<Byte>, sizeField: seq<Byte>, wide: bool)
  {
    /** `offBE`: `uInt64be` for 64-bit offsets, else `uInt32be`. */
    function OffBE(): nat
    {
      if wide then UInt64BE(offsetField) else UInt32BE(offsetField)
    }

    function SizeBE(): nat
    {
      UInt32BE(sizeField)
    }

    /** `offLE`: `uInt64le` for 64-bit offsets, else `uInt32le`. */
    function OffLE(): nat
    {
      if wide then UInt64LE(offsetField) else UInt32LE(offsetField)
    }

    function SizeLE(): nat
    {
      UInt32LE(sizeField)
    }

    /** `offBEHex`: the offset field as read, in upper-case hex. */
    function OffBEHex(): string
    {
      "0x" + Hex(offsetField)
    }

    function SizeBEHex(): string
    {
      "0x" + Hex(sizeField)
    }

    /** `offLEHex`: the offset field byte-reversed, in upper-case hex. */
    function OffLEHex(): string
    {
      "0x" + Hex(Reverse(offsetField))
    }

    function SizeLEHex(): string
    {
      "0x" + Hex(Reverse(sizeField))
    }
  }

  /** Width in bytes of the offset field: 8 for 64-bit offsets, else 4. */
  function OffsetWidth(bits: int): nat
  {
    if bits == 64 then 8 else 4
  }

  /**
   * The headword loop of `readIndexEntries` continued from byte k of `rest`:
   * the headword and how many bytes it consumed. It stops at end of file, at
   * a NUL (consumed, not kept) or once the headword has grown past 4000 bytes.
   */
  function ScanHeadword(rest: seq<Byte>, k: nat): (r: (seq<Byte>, nat))
    requires k <= |rest| && k <= MaxHeadword
    decreases |rest| - k
  {
    if k == |rest| then (rest[..k], k)
    else if rest[k] == 0 then (rest[..k], k + 1)
    else if k + 1 > MaxHeadword then (rest[..k + 1], k + 1)
    else ScanHeadword(rest, k + 1)
  }

  /** The headword at the front of `rest` and the bytes the headword loop consumed. */
  function Headword(rest: seq<Byte>): (r: (seq<Byte>, nat))
    ensures |r.0| <= MaxHeadword + 1 && |r.0| <= r.1 <= |rest|
  {
    ScanHeadwordSpec(rest, 0);
    ScanHeadword(rest, 0)
  }

  /**
   * The headword is a NUL-free prefix of at most 4001 bytes. Up to 4000
   * bytes it ends at end of file or at a NUL, which is consumed; at 4001
   * bytes nothing more is consumed.
   */
  lemma HeadwordSpec(rest: seq<Byte>)
    ensures var r := Headword(rest);
      && r.0 == rest[..|r.0|]
      && (forall i | 0 <= i < |r.0| :: r.0[i] != 0)
      && (|r.0| <= MaxHeadword ==>
            (|r.0| == |rest| && r.1 == |r.0|) || (|r.0| < |rest| && rest[|r.0|] == 0 && r.1 == |r.0| + 1))
      && (|r.0| == MaxHeadword + 1 ==> r.1 == |r.0|)
  {
    ScanHeadwordSpec(rest, 0);
  }

  lemma {:induction false} ScanHeadwordSpec(rest: seq<Byte>, k: nat)
    requires k <= |rest| && k <= MaxHeadword
    requires forall i | 0 <= i < k :: rest[i] != 0
    ensures var r := ScanHeadword(rest, k);
      && |r.0| <= MaxHeadword + 1 && |r.0| <= r.1 <= |rest| && r.0 == rest[..|r.0|]
      && (forall i | 0 <= i < |r.0| :: r.0[i] != 0)
      && (|r.0| <= MaxHeadword ==>
            (|r.0| == |rest| && r.1 == |r.0|) || (|r.0| < |rest| && rest[|r.0|] == 0 && r.1 == |r.0| + 1))
      && (|r.0| == MaxHeadword + 1 ==> r.1 == |r.0|)
    decreases |rest| - k
  {
    if k < |rest| && rest[k] != 0 && k + 1 <= MaxHeadword {
      ScanHeadwordSpec(rest, k + 1);
    }
  }

  /** `fread` of n bytes: what is left, up to n. */
  function Take(s: seq<Byte>, n: nat): (r: seq<Byte>)
    ensures |r| == Min(n, |s|) && r == s[..|r|]
  {
    if n <= |s| then s[..n] else s
  }

  /** The record built from a headword and the raw offset and size fields read after it. */
  function MakeRecord(head: seq<Byte>, ob: seq<Byte>, sb: seq<Byte>, bits: int): IndexRecord
  {
    IndexRecord(head, ob, sb, bits == 64)
  }

  /** The record at the front of `rest` and the bytes it takes; None for an empty headword. */
  function RecordAt(rest: seq<Byte>, bits: int): (r: Option<(IndexRecord, nat)>)
    ensures r.Some? ==> 0 < r.value.1 <= |rest|
  {
    var h := Headword(rest);
    if h.0 == [] then None
    else
      var ob := Take(rest[h.1..], OffsetWidth(bits));
      var sb := Take(rest[h.1 + |ob|..], 4);
      Some((MakeRecord(h.0, ob, sb, bits), h.1 + |ob| + |sb|))
  }

  /** The records `readIndexEntries` returns from `rest` in at most n iterations. */
  function Records(rest: seq<Byte>, n: int, bits: int): seq<IndexRecord>
    decreases Max(n, 0)
  {
    if n <= 0 then []
    else
      var next := RecordAt(rest, bits);
      if next.None? then [] else [next.value.0] + Records(rest[next.value.1..], n - 1, bits)
  }

  /** `$limit ?: 1`: a zero limit still reads one record. */
  function Iterations(limit: int): int
  {
    if limit == 0 then 1 else limit
  }

  /** A headword `readIndexEntries` can return: non-empty, NUL-free, at most 4001 bytes. */
  predicate ReadableHeadword(h: seq<Byte>)
  {
    0 < |h| <= MaxHeadword + 1 && forall j | 0 <= j < |h| :: h[j] != 0
  }

  /** At most n records, each with a non-empty, NUL-free headword of at most 4001 bytes. */
  lemma {:induction false} RecordsShape(rest: seq<Byte>, n: int, bits: int)
    ensures |Records(rest, n, bits)| <= Max(n, 0)
    ensures forall i | 0 <= i < |Records(rest, n, bits)| :: ReadableHeadword(Records(rest, n, bits)[i].headword)
    decreases Max(n, 0)
  {
    if n > 0 && RecordAt(rest, bits).Some? {
      var next := RecordAt(rest, bits).value;
      RecordsShape(rest[next.1..], n - 1, bits);
      HeadwordSpec(rest);
      RecordsStep(rest, n, bits);
      var recs := Records(rest, n, bits);
      var later := Records(rest[next.1..], n - 1, bits);
      assert recs == [next.0] + later;
      forall i | 0 < i < |recs| ensures ReadableHeadword(recs[i].headword) {
        assert recs[i] == later[i - 1];
      }
    } else {
      EmptyRecords(rest, n, bits);
    }
  }

  /**
   * Every little-endian value is the big-endian value of the byte-reversed
   * (zero-padded) field, and the hex strings kept with the record spell the
   * raw field and its reversal; for a full-width field they spell the
   * decoded values exactly.
   */
  lemma RecordByteOrders(head: seq<Byte>, ob: seq<Byte>, sb: seq<Byte>, bits: int)
    ensures var r := MakeRecord(head, ob, sb, bits);
      && r.OffLE() == BE(Reverse(Field(ob, OffsetWidth(bits))))
      && r.SizeLE() == BE(Reverse(Field(sb, 4)))
      && r.OffLEHex() == "0x" + Hex(Reverse(ob)) && r.SizeLEHex() == "0x" + Hex(Reverse(sb))
      && (|ob| == OffsetWidth(bits) ==> HexValue(r.OffBEHex()[2..]) == r.OffBE() && HexValue(r.OffLEHex()[2..]) == r.OffLE())
      && (|sb| == 4 ==> HexValue(r.SizeBEHex()[2..]) == r.SizeBE() && HexValue(r.SizeLEHex()[2..]) == r.SizeLE())
  {
    var r := MakeRecord(head, ob, sb, bits);
    LittleEndianIsReversedBigEndian(ob);
    LittleEndianIsReversedBigEndian(sb);
    UInt64IsWideField(ob);
    HexSpellsBigEndian(ob);
    HexSpellsBigEndian(sb);
    HexSpellsBigEndian(Reverse(ob));
    HexSpellsBigEndian(Reverse(sb));
    assert r.OffBEHex()[2..] == Hex(ob);
    assert r.SizeBEHex()[2..] == Hex(sb);
    assert r.OffLEHex()[2..] == Hex(Reverse(ob));
    assert r.SizeLEHex()[2..] == Hex(Reverse(sb));
  }

  /** An index entry as a writer would lay it out. */
  datatype IndexEntry = IndexEntry(headword: seq<Byte>, offset: nat, size: nat)

  predicate Encodable(e: IndexEntry, bits: int)
  {
    && 0 < |e.headword| <= MaxHeadword
    && (forall i | 0 <= i < |e.headword| :: e.headword[i] != 0)
    && e.offset < Pow256(OffsetWidth(bits)) && e.size < Pow256(4)
  }

  function EncodeEntry(e: IndexEntry, bits: int): seq<Byte>
  {
    e.headword + [0] + EncodeBE(e.offset, OffsetWidth(bits)) + EncodeBE(e.size, 4)
  }

  function EncodeIndex(es: seq<IndexEntry>, bits: int): seq<Byte>
  {
    if es == [] then [] else EncodeEntry(es[0], bits) + EncodeIndex(es[1..], bits)
  }

  lemma HeadwordOfTerminated(head: seq<Byte>, tail: seq<Byte>)
    requires 0 < |head| <= MaxHeadword && forall i | 0 <= i < |head| :: head[i] != 0
    ensures Headword(head + [0] + tail) == (head, |head| + 1)
  {
    var rest := head + [0] + tail;
    var r := Headword(rest);
    HeadwordSpec(rest);
    assert rest[|head|] == 0;
    assert forall i | 0 <= i < |head| :: rest[i] == head[i];
    assert r.0 == head;
  }

  /** The offset and size fields read back as the values they encode. */
  lemma DecodeEncodedFields(off: nat, size: nat, bits: int)
    requires off < Pow256(OffsetWidth(bits)) && size < Pow256(4)
    ensures UInt32BE(EncodeBE(size, 4)) == size
    ensures bits == 64 ==> UInt64BE(EncodeBE(off, 8)) == off
    ensures bits != 64 ==> UInt32BE(EncodeBE(off, 4)) == off
  {
    EncodeBERoundTrip(size, 4);
    EncodeBERoundTrip(off, OffsetWidth(bits));
    UInt64IsWideField(EncodeBE(off, OffsetWidth(bits)));
  }

  lemma RecordAtEncoded(e: IndexEntry, tail: seq<Byte>, bits: int)
    requires Encodable(e, bits)
    ensures var r := RecordAt(EncodeEntry(e, bits) + tail, bits);
      && r.Some? && r.value.1 == |EncodeEntry(e, bits)|
      && r.value.0.headword == e.headword && r.value.0.OffBE() == e.offset && r.value.0.SizeBE() == e.size
  {
    var w := OffsetWidth(bits);
    var eo, es := EncodeBE(e.offset, w), EncodeBE(e.size, 4);
    var rest := EncodeEntry(e, bits) + tail;
    assert rest == e.headword + [0] + (eo + es + tail);
    HeadwordOfTerminated(e.headword, eo + es + tail);
    var k := |e.headword| + 1;
    assert rest[k..] == eo + es + tail;
    assert Take(rest[k..], w) == eo;
    assert rest[k + w..] == es + tail;
    assert Take(rest[k + w..], 4) == es;
    DecodeEncodedFields(e.offset, e.size, bits);
  }

  /**
   * Round trip: decoding a well-formed index (non-empty NUL-free headwords
   * of at most 4000 bytes, values that fit their fields) with enough
   * iterations gives back every entry's headword, offset and size, in order.
   */
  lemma RecordAtOf(rest: seq<Byte>, bits: int, head: seq<Byte>, k: nat, ob: seq<Byte>, sb: seq<Byte>)
    requires Headword(rest) == (head, k) && head != []
    requires ob == Take(rest[k..], OffsetWidth(bits)) && sb == Take(rest[k + |ob|..], 4)
    ensures RecordAt(rest, bits) == Some((MakeRecord(head, ob, sb, bits), k + |ob| + |sb|))
  {
  }

  /** The record at pos, from the fields read at absolute positions of the data. */
  lemma RecordAtFrom(data: seq<Byte>, pos: nat, q: nat, bits: int, head: seq<Byte>, ob: seq<Byte>, sb: seq<Byte>)
    requires pos <= q <= |data| && Headword(data[pos..]) == (head, q - pos) && head != []
    requires ob == Take(data[q..], OffsetWidth(bits)) && sb == Take(data[q + |ob|..], 4)
    ensures RecordAt(data[pos..], bits) == Some((MakeRecord(head, ob, sb, bits), q - pos + |ob| + |sb|))
  {
    var rest := data[pos..];
    assert rest[q - pos..] == data[q..];
    assert rest[q - pos + |ob|..] == data[q + |ob|..];
    RecordAtOf(rest, bits, head, q - pos, ob, sb);
  }

  /** Moving the first of the remaining items to the end of the done ones keeps the whole. */
  lemma ShiftOne<T>(done: seq<T>, remaining: seq<T>, x: T, rest: seq<T>, whole: seq<T>)
    requires done + remaining == whole && remaining == [x] + rest
    ensures (done + [x]) + rest == whole
  {
  }

  lemma EmptyRecords(rest: seq<Byte>, n: int, bits: int)
    requires n <= 0 || RecordAt(rest, bits).None?
    ensures Records(rest, n, bits) == []
  {
  }

  /** One more record read: it moves from the records still to come to those collected. */
  lemma NextRecords(data: seq<Byte>, pos: nat, end: nat, rec: IndexRecord, n: int, bits: int,
                    out: seq<IndexRecord>, whole: seq<IndexRecord>)
    requires pos <= |data| && n > 0
    requires RecordAt(data[pos..], bits) == Some((rec, end - pos))
    requires out + Records(data[pos..], n, bits) == whole
    ensures end <= |data|
    ensures (out + [rec]) + Records(data[end..], n - 1, bits) == whole
  {
    RecordsStep(data[pos..], n, bits);
    assert data[pos..][end - pos..] == data[end..];
    ShiftOne(out, Records(data[pos..], n, bits), rec, Records(data[end..], n - 1, bits), whole);
  }

  lemma RecordsStep(rest: seq<Byte>, n: int, bits: int)
    requires n > 0 && RecordAt(rest, bits).Some?
    ensures Records(rest, n, bits)
      == [RecordAt(rest, bits).value.0] + Records(rest[RecordAt(rest, bits).value.1..], n - 1, bits)
  {
  }

  /** A decoded record carries the entry's headword and its big-endian offset and size. */
  predicate Decodes(r: IndexRecord, e: IndexEntry)
  {
    r.headword == e.headword && r.OffBE() == e.offset && r.SizeBE() == e.size
  }

  /** The records decode the entries one for one, in order. */
  predicate DecodesAll(rs: seq<IndexRecord>, es: seq<IndexEntry>)
  {
    |rs| == |es| && forall i | 0 <= i < |rs| :: Decodes(rs[i], es[i])
  }

  lemma {:induction false} ReadEncodedIndex(es: seq<IndexEntry>, n: int, bits: int)
    requires forall i | 0 <= i < |es| :: Encodable(es[i], bits)
    requires n >= |es|
    ensures DecodesAll(Records(EncodeIndex(es, bits), n, bits), es)
    decreases |es|
  {
    if es == [] {
      if n > 0 {
        assert Headword([]).0 == [];
        assert RecordAt([], bits).None?;
      }
    } else {
      ReadEncodedIndex(es[1..], n - 1, bits);
      EncodedIndexStep(es, bits);
      DecodesStep(EncodeIndex(es, bits), EncodeIndex(es[1..], bits), es, n, bits);
    }
  }

  /** Decoding the first record and then the rest decodes every entry. */
  lemma DecodesStep(data: seq<Byte>, tail: seq<Byte>, es: seq<IndexEntry>, n: int, bits: int)
    requires es != [] && n > 0
    requires RecordAt(data, bits).Some? && Decodes(RecordAt(data, bits).value.0, es[0])
    requires data[RecordAt(data, bits).value.1..] == tail
    requires DecodesAll(Records(tail, n - 1, bits), es[1..])
    ensures DecodesAll(Records(data, n, bits), es)
  {
    RecordsStep(data, n, bits);
    var recs := Records(data, n, bits);
    var later := Records(tail, n - 1, bits);
    assert recs == [RecordAt(data, bits).value.0] + later;
    forall i | 0 < i < |recs| ensures Decodes(recs[i], es[i]) {
      assert recs[i] == later[i - 1];
    }
  }

  /** The first record of an encoded index is its first entry, and decoding resumes at the second. */
  lemma EncodedIndexStep(es: seq<IndexEntry>, bits: int)
    requires es != [] && Encodable(es[0], bits)
    ensures var r := RecordAt(EncodeIndex(es, bits), bits);
      && r.Some? && Decodes(r.value.0, es[0])
      && EncodeIndex(es, bits)[r.value.1..] == EncodeIndex(es[1..], bits)
  {
    var data := EncodeIndex(es, bits);
    var tail := EncodeIndex(es[1..], bits);
    assert data == EncodeEntry(es[0], bits) + tail;
    RecordAtEncoded(es[0], tail, bits);
    assert data[|EncodeEntry(es[0], bits)|..] == tail;
  }

  /**
   * An over-long headword is cut after 4001 bytes and the bytes that follow
   * are read as the offset and size: the record does not resynchronise at
   * the next NUL.
   */
  lemma OverlongHeadwordSpills(head: seq<Byte>, tail: seq<Byte>, bits: int)
    requires |head| == MaxHeadword + 1 && forall i | 0 <= i < |head| :: head[i] != 0
    ensures var r := RecordAt(head + tail, bits);
      r.Some? && r.value.0.headword == head
      && r.value.0.OffBEHex() == "0x" + Hex(Take(tail, OffsetWidth(bits)))
  {
    var rest := head + tail;
    var h := Headword(rest);
    HeadwordSpec(rest);
    assert forall i | 0 <= i < |head| :: rest[i] == head[i];
    assert h.0 == head;
    assert rest[h.1..] == tail;
  }

  /* ======================= endianness choice ======================= */

  datatype Endian = BigEndian | LittleEndian
  {
    function Name(): string
    {
      if BigEndian? then "BE" else "LE"
    }
  }

  /** The reading `chooseEndian` settles on and whether it lies inside the payload. */
  datatype Pick = Pick(endian: Endian, offset: int, size: int, inBounds: bool)

  predicate InBounds(off: int, size: int, dictSize: int)
  {
    off >= 0 && size >= 0 && off + size <= dictSize
  }

  /**
   * `chooseEndian`: the in-bounds reading, big-endian when both are; when
   * neither is, the big-endian reading clamped at zero and flagged.
   */
  function ChooseEndian(dictSize: int, offBE: int, sizeBE: int, offLE: int, sizeLE: int): (r: Pick)
    ensures r.inBounds <==> InBounds(offBE, sizeBE, dictSize) || InBounds(offLE, sizeLE, dictSize)
    ensures r.inBounds ==> InBounds(r.offset, r.size, dictSize)
    ensures r.endian == LittleEndian <==> InBounds(offLE, sizeLE, dictSize) && !InBounds(offBE, sizeBE, dictSize)
    ensures r.endian == LittleEndian ==> r.offset == offLE && r.size == sizeLE
    ensures r.endian == BigEndian ==> r.offset == Max(0, offBE) && r.size == Max(0, sizeBE)
    ensures r.offset >= 0 && r.size >= 0
  {
    var inBE := InBounds(offBE, sizeBE, dictSize);
    var inLE := InBounds(offLE, sizeLE, dictSize);
    if inBE && !inLE then Pick(BigEndian, offBE, sizeBE, true)
    else if inLE && !inBE then Pick(LittleEndian, offLE, sizeLE, true)
    else if inBE && inLE then Pick(BigEndian, offBE, sizeBE, true)
    else Pick(BigEndian, Max(0, offBE), Max(0, sizeBE), false)
  }

  /* ======================= payload slices and previews ======================= */

  /**
   * `readSlice` on the contents of a file (None when it cannot be opened):
   * a negative offset makes the seek fail and reading starts at 0.
   */
  function Slice(data: Option<seq<Byte>>, offset: int, size: int, maxLen: int): (r: seq<Byte>)
    ensures |r| <= Max(0, maxLen) && |r| <= Max(0, size)
    ensures data.None? ==> r == []
    ensures data.Some? ==>
      var from := Min(Max(offset, 0), |data.value|);
      |r| == Min(Max(0, Min(size, maxLen)), |data.value| - from)
      && r == data.value[from..from + |r|]
  {
    match data
    case None => []
    case Some(bs) =>
      var from := Min(Max(offset, 0), |bs|);
      var n := Max(0, Min(size, maxLen));
      if n > 0 then Take(bs[from..], n) else []
  }

  /** A payload laid out at an offset reads back exactly when the cap allows it. */
  lemma SliceOfLayout(before: seq<Byte>, payload: seq<Byte>, after: seq<Byte>, maxLen: int)
    requires |payload| <= maxLen
    ensures Slice(Some(before + payload + after), |before|, |payload|, maxLen) == payload
  {
    var bs := before + payload + after;
    var r := Slice(Some(bs), |before|, |payload|, maxLen);
    assert r == bs[|before|..|before| + |payload|];
  }

  /**
   * The text a payload stands for: valid UTF-8 with the control characters
   * removed, and otherwise the bytes reinterpreted as ISO-8859-1 (the
   * control-character pass fails on invalid UTF-8 and leaves them in).
   */
  function Recover(bytes: seq<Byte>): (r: string)
    ensures Utf8.IsValid(bytes) ==> NoControls(r)
    ensures !Utf8.IsValid(bytes) ==> r == Utf8.Latin1(bytes)
  {
    match Utf8.Decode(bytes)
    case Some(cs) => RemoveControls(cs)
    case None => Utf8.Latin1(bytes)
  }

  /** `previewText($bytes, $maxChars)`. */
  function PreviewText(bytes: seq<Byte>, maxChars: int): (r: string)
  {
    if bytes == [] then "(empty)"
    else Prefix(CollapseSpaces(Trim(StripTags(Recover(bytes)))), maxChars)
  }

  /**
   * A preview is "(empty)" for no bytes; otherwise it holds at most maxChars
   * characters, no `<`, no white space but single spaces, and, for valid
   * UTF-8, no control characters.
   */
  lemma PreviewTextShape(bytes: seq<Byte>, maxChars: int)
    ensures bytes == [] ==> PreviewText(bytes, maxChars) == "(empty)"
    ensures bytes != [] ==>
      var r := PreviewText(bytes, maxChars);
      && (maxChars >= 0 ==> |r| <= maxChars)
      && NoTagOpen(r) && SpacesCollapsed(r)
      && (Utf8.IsValid(bytes) ==> NoControls(r))
  {
    if bytes != [] {
      var u := StripTags(Recover(bytes));
      var t := Trim(u);
      var c := CollapseSpaces(t);
      var r := Prefix(c, maxChars);
      TrimKeepsClean(u);
      CollapseSpacesCollapses(t);
      CollapseKeepsNoControlsNoTags(t);
      SpacesCollapsedInfix(c, 0, |r|);
      assert r == c[0..|r|];
      if Utf8.IsValid(bytes) {
        StripTagsKeepsNoControls(Recover(bytes));
      }
    }
  }

  /** Text that is already clean, and short enough, previews as itself. */
  lemma PreviewOfCleanText(s: string, maxChars: int)
    requires s != [] && NoControls(s) && NoTagOpen(s) && SpacesCollapsed(s)
    requires !IsTrimmable(s[0]) && !IsTrimmable(s[|s| - 1])
    requires |s| <= maxChars
    ensures PreviewText(Utf8.Encode(s), maxChars) == s
  {
    var bytes := Utf8.Encode(s);
    assert Recover(bytes) == s by {
      Utf8.DecodeEncode(s);
      RemoveControlsKeepsClean(s);
    }
    assert StripTags(s) == s by {
      forall i | 0 <= i < |s| ensures s[i] != 0 as char {
        assert !IsControl(s[i]);
      }
      StripTagsKeepsPlainText(s);
    }
    assert Trim(s) == s by {
      TrimKeepsUntrimmed(s);
    }
    assert CollapseSpaces(s) == s by {
      CollapseSpacesKeepsCollapsed(s);
    }
    assert bytes != [] by {
      Utf8.DecodeEncode(s);
    }
  }

  /**
   * Bytes that are not valid UTF-8 keep their control characters: FF 01
   * previews as "ÿ" followed by U+0001.
   */
  lemma PreviewKeepsControlsOfInvalidUtf8()
    ensures PreviewText([0xFF, 0x01], 10) == [0xFF as char, 0x01 as char]
  {
    var bs: seq<Byte> := [0xFF, 0x01];
    assert Utf8.DecodeFirst(bs).None?;
    var l := Utf8.Latin1(bs);
    assert l == [0xFF as char, 0x01 as char];
    StripTagsKeepsPlainText(l);
    TrimKeepsUntrimmed(l);
    assert SpacesCollapsed(l);
    CollapseSpacesKeepsCollapsed(l);
  }

  /**
   * `strip_tags` deletes a NUL that invalid UTF-8 kept past the control
   * removal: FF 41 00 42 previews as "ÿAB".
   */
  lemma PreviewDropsNulOfInvalidUtf8()
    ensures PreviewText([0xFF, 0x41, 0x00, 0x42], 10) == [0xFF as char, 'A', 'B']
  {
    var bs: seq<Byte> := [0xFF, 0x41, 0x00, 0x42];
    assert Utf8.DecodeFirst(bs).None?;
    var l := Utf8.Latin1(bs);
    assert l == [0xFF as char, 'A', 0 as char, 'B'];
    StripTagsKeepsPlainText(l);
    var u: string := [0xFF as char, 'A', 'B'];
    assert DropNul(l[2..]) == "B";
    assert DropNul(l) == u;
    TrimKeepsUntrimmed(u);
    assert SpacesCollapsed(u);
    CollapseSpacesKeepsCollapsed(u);
  }

  /* ======================= hex dump ======================= */

  /** `substr($bytes, 0, $len)`: a negative length leaves that many bytes off the end. */
  function SubstrPrefix(bs: seq<Byte>, len: int): (r: seq<Byte>)
    ensures |r| <= |bs| && r == bs[..|r|]
    ensures len >= 0 ==> |r| == Min(len, |bs|)
    ensures len < 0 ==> |r| == Max(0, |bs| + len)
  {
    if len >= 0 then Take(bs, len) else bs[..Max(0, |bs| + len)]
  }

  /** Consecutive pieces of w characters, the last one possibly shorter. */
  function Chunks(s: string, w: nat): (r: seq<string>)
    requires w > 0
    decreases |s|
  {
    if s == [] then [] else [s[..Min(w, |s|)]] + Chunks(s[Min(w, |s|)..], w)
  }

  /** `implode("\n", $lines)`. */
  function JoinLines(lines: seq<string>): string
  {
    if lines == [] then [] else if |lines| == 1 then lines[0] else lines[0] + "\n" + JoinLines(lines[1..])
  }

  /** Chunks put back together give the text, every chunk but the last is full. */
  lemma {:induction false} ChunksPartition(s: string, w: nat)
    requires w > 0
    ensures Concat(Chunks(s, w)) == s
    ensures forall i | 0 <= i < |Chunks(s, w)| :: 0 < |Chunks(s, w)[i]| <= w
    ensures forall i | 0 <= i < |Chunks(s, w)| - 1 :: |Chunks(s, w)[i]| == w
    decreases |s|
  {
    if s != [] {
      var k := Min(w, |s|);
      var rest := Chunks(s[k..], w);
      ChunksPartition(s[k..], w);
      assert Chunks(s, w) == [s[..k]] + rest;
      assert Concat([s[..k]] + rest) == s[..k] + Concat(rest);
      assert s[..k] + s[k..] == s;
      assert rest != [] ==> k == w;
      forall i | 0 <= i < |Chunks(s, w)| ensures 0 < |Chunks(s, w)[i]| <= w {
        if i > 0 {
          assert Chunks(s, w)[i] == rest[i - 1];
        }
      }
      forall i | 0 <= i < |Chunks(s, w)| - 1 ensures |Chunks(s, w)[i]| == w {
        if i > 0 {
          assert Chunks(s, w)[i] == rest[i - 1];
        }
      }
    }
  }

  /** `hexDump($bytes, $len)`: the upper-case hex of the first len bytes, 32 digits per line. */
  method HexDump(bytes: seq<Byte>, len: int) returns (r: string)
    ensures r == JoinLines(Chunks(Hex(SubstrPrefix(bytes, len)), 32))
  {
    var hex := Hex(SubstrPrefix(bytes, len));
    var out: seq<string> := [];
    var i := 0;
    while i < |hex|
      invariant 0 <= i
      invariant out + Chunks(hex[Min(i, |hex|)..], 32) == Chunks(hex, 32)
      decreases |hex| - i
    {
      var piece := hex[i..Min(i + 32, |hex|)];
      ChunkStep(hex, i, 32);
      ShiftOne(out, Chunks(hex[i..], 32), piece, Chunks(hex[Min(i + 32, |hex|)..], 32), Chunks(hex, 32));
      out := out + [piece];
      i := i + 32;
    }
    assert hex[Min(i, |hex|)..] == [];
    assert Chunks([], 32) == [];
    assert out + [] == out;
    r := JoinLines(out);
  }

  lemma ChunkStep(s: string, i: nat, w: nat)
    requires i < |s| && w > 0
    ensures Chunks(s[i..], w) == [s[i..Min(i + w, |s|)]] + Chunks(s[Min(i + w, |s|)..], w)
  {
    assert s[i..][..Min(w, |s| - i)] == s[i..Min(i + w, |s|)];
    assert s[i..][Min(w, |s| - i)..] == s[Min(i + w, |s|)..];
  }

  /** The dump is the hex digits cut into lines of 32, the last line shorter. */
  lemma HexDumpLines(bytes: seq<Byte>, len: int)
    ensures var lines := Chunks(Hex(SubstrPrefix(bytes, len)), 32);
      && Concat(lines) == Hex(SubstrPrefix(bytes, len))
      && (forall i | 0 <= i < |lines| - 1 :: |lines[i]| == 32)
      && |Hex(SubstrPrefix(bytes, len))| == 2 * |SubstrPrefix(bytes, len)|
  {
    ChunksPartition(Hex(SubstrPrefix(bytes, len)), 32);
  }

  /* ======================= files ======================= */

  /** RFC 1952 section 2.3.1: ID1 = 0x1F, ID2 = 0x8B, CM = 8 (deflate). */
  predicate HasGzipMagic(bs: seq<Byte>)
  {
    |bs| >= 3 && bs[0] == 0x1F && bs[1] == 0x8B && bs[2] == 0x08
  }

  /** UTF-8 text never starts with the gzip magic: 0x8B cannot follow 0x1F in UTF-8. */
  lemma TextIsNotGzip(s: string)
    ensures !HasGzipMagic(Utf8.Encode(s))
  {
    if |s| >= 2 && s[0] as int == 0x1F {
      var e := Utf8.Encode(s);
      assert Utf8.EncodeChar(s[0]) == [0x1F];
      assert e == [0x1F] + Utf8.EncodeChar(s[1]) + Utf8.Encode(s[2..]);
      assert e[1] == Utf8.EncodeChar(s[1])[0];
    } else if |s| == 1 {
      assert Utf8.Encode(s) == Utf8.EncodeChar(s[0]) + Utf8.Encode([]);
    }
  }

  /** Whether a path ends with a lower-case suffix, ignoring case. */
  predicate EndsWithCI(p: Path, suffix: string)
  {
    |p| >= |suffix| && Lower(p[|p| - |suffix|..]) == suffix
  }

  /** A file somewhere below directory `dir`. */
  predicate IsUnder(p: Path, dir: Path)
  {
    |p| > |dir| + 1 && p[..|dir| + 1] == dir + "/"
  }

  /**
   * A file the directory walk reports for `findFirst($dir, '/<suffix>$/i')`.
   * The suffixes used hold no `/`, so matching the file name is matching
   * the end of the path.
   */
  predicate Matches(p: Path, dir: Path, suffix: string)
  {
    IsUnder(p, dir) && EndsWithCI(p, suffix)
  }

  /** Position of the first walked path that matches, or the walk's length. */
  function FirstMatch(walk: seq<Path>, dir: Path, suffix: string): (k: nat)
    ensures k <= |walk|
    ensures k < |walk| ==> Matches(walk[k], dir, suffix)
    ensures forall i | 0 <= i < k :: !Matches(walk[i], dir, suffix)
  {
    if walk == [] then 0
    else if Matches(walk[0], dir, suffix) then 0
    else 1 + FirstMatch(walk[1..], dir, suffix)
  }

  /** `dirname($p)`. */
  function Dirname(p: Path): Path
  {
    var k := LastIndexOf(p, '/');
    if k < 0 then "." else if k == 0 then "/" else p[..k]
  }

  /** `basename($p)`. */
  function Basename(p: Path): Path
  {
    p[LastIndexOf(p, '/') + 1..]
  }

  /** `preg_replace('~\.(gz|dz)$~i', '', $p)`. */
  function StripCompressedSuffix(p: Path): (r: Path)
    ensures r == p || (|r| + 3 == |p| && r == p[..|r|] && (EndsWithCI(p, ".gz") || EndsWithCI(p, ".dz")))
  {
    if EndsWithCI(p, ".gz") || EndsWithCI(p, ".dz") then p[..|p| - 3] else p
  }

  /** Removing the suffix undoes adding it, in any letter case. */
  lemma StripCompressedSuffixOfSibling(p: Path, ext: string)
    requires ext in [".gz", ".dz", ".GZ", ".DZ", ".Gz", ".Dz", ".gZ", ".dZ"]
    ensures StripCompressedSuffix(p + ext) == p
  {
    var q := p + ext;
    assert q[|q| - 3..] == ext;
    assert q[..|q| - 3] == p;
    LowerCompressedExtension(ext);
  }

  lemma LowerCompressedExtension(ext: string)
    requires ext in [".gz", ".dz", ".GZ", ".DZ", ".Gz", ".Dz", ".gZ", ".dZ"]
    ensures Lower(ext) == ".gz" || Lower(ext) == ".dz"
  {
    var l := Lower(ext);
    assert |ext| == 3 && ext[0] == '.' && ext[1] in "gGdD" && ext[2] in "zZ";
    assert l[0] == '.' && l[2] == 'z';
    assert l[1] == 'g' || l[1] == 'd';
    assert l == [l[0], l[1], l[2]];
  }

  /** What decompressing a stream yields: the bytes inflated, and whether it ended without error. */
  datatype Inflated = Inflated(data: seq<Byte>, complete: bool)

  /** The size of each `gzread`. */
  const ChunkSize := 8192

  /** `starDictFirstRecord`'s answer. */
  datatype FirstRecord =
    | NotFound(message: string)
    | Found(bookname: string, headword: seq<Byte>, snippet: string, reader: string)

  function AddPath(walk: seq<Path>, p: Path, present: bool): seq<Path>
  {
    if present then walk else walk + [p]
  }

  /** The walk visits every file exactly once. */
  predicate WalkCovers(files: map<Path, seq<Byte>>, walk: seq<Path>)
  {
    && (forall i | 0 <= i < |walk| :: walk[i] in files)
    && (forall p | p in files :: p in walk)
    && (forall i, j | 0 <= i < j < |walk| :: walk[i] != walk[j])
  }

  /** Writing a file keeps the walk covering the files: a new one is visited last. */
  lemma WriteKeepsWalk(files: map<Path, seq<Byte>>, walk: seq<Path>, p: Path, data: seq<Byte>)
    requires WalkCovers(files, walk)
    ensures WalkCovers(files[p := data], AddPath(walk, p, p in files))
  {
    var w := AddPath(walk, p, p in files);
    if p !in files {
      assert forall i | 0 <= i < |walk| :: w[i] == walk[i];
      assert w[|walk|] == p;
    }
  }

  /**
   * The headword loop of `readIndexEntries`: bytes from pos up to a NUL,
   * the end of the data or 4001 bytes, and the position after them.
   */
  method ScanHeadwordAt(data: seq<Byte>, pos: nat) returns (head: seq<Byte>, q: nat)
    requires pos <= |data|
    ensures pos <= q <= |data| && (head, q - pos) == Headword(data[pos..])
  {
    head := [];
    q := pos;
    while true
      invariant pos <= q <= |data|
      invariant q - pos <= MaxHeadword && head == data[pos..q]
      invariant ScanHeadword(data[pos..], q - pos) == Headword(data[pos..])
      decreases |data| - q
    {
      ghost var rest := data[pos..];
      if q == |data| {
        assert head == rest[..q - pos];
        return;
      }
      var ch := data[q];
      assert ch == rest[q - pos];
      q := q + 1;
      if ch == 0 {
        assert head == rest[..q - 1 - pos];
        return;
      }
      head := head + [ch];
      assert head == data[pos..q] == rest[..q - pos];
      if |head| > MaxHeadword {
        return;
      }
    }
  }

  /** One iteration of `readIndexEntries` from pos: the record and the position after it. */
  method ReadRecordAt(data: seq<Byte>, pos: nat, bits: int) returns (r: Option<(IndexRecord, nat)>)
    requires pos <= |data|
    ensures r.None? <==> RecordAt(data[pos..], bits).None?
    ensures r.Some? ==> pos <= r.value.1 && RecordAt(data[pos..], bits) == Some((r.value.0, r.value.1 - pos))
  {
    var head, q := ScanHeadwordAt(data, pos);
    if head == [] {
      return None;
    }
    var ob := Take(data[q..], OffsetWidth(bits));
    var sb := Take(data[q + |ob|..], 4);
    RecordAtFrom(data, pos, q, bits, head, ob, sb);
    return Some((MakeRecord(head, ob, sb, bits), q + |ob| + |sb|));
  }

  /** The loop of `readIndexEntries` over the bytes of an opened index: at most n records. */
  method DecodeIndex(data: seq<Byte>, n: int, bits: int) returns (out: seq<IndexRecord>)
    ensures out == Records(data, n, bits)
  {
    out := [];
    var pos := 0;
    var i := 0;
    assert data[0..] == data;
    assert [] + Records(data, n, bits) == Records(data, n, bits);
    while i < n
      invariant 0 <= pos <= |data|
      invariant out + Records(data[pos..], n - i, bits) == Records(data, n, bits)
      decreases n - i
    {
      var next := ReadRecordAt(data, pos, bits);
      if next.None? {
        // an empty headword ends the read
        EmptyRecords(data[pos..], n - i, bits);
        assert out + [] == out;
        return;
      }
      var rec := next.value.0;
      var end := next.value.1;
      NextRecords(data, pos, end, rec, n - i, bits, out, Records(data, n, bits));
      out := out + [rec];
      pos, i := end, i + 1;
    }
    EmptyRecords(data[pos..], n - i, bits);
    assert out + [] == out;
  }

  /* ======================= resolving a dictionary's files ======================= */

  /** The files the service can see, by path, and the order a recursive directory walk visits them. */
  datatype Tree = Tree(files: map<Path, seq<Byte>>, walk: seq<Path>)

  /** What a file operation returned (an exception is a failure), and the tree it left behind. */
  datatype Outcome<T> = Outcome(result: Result<T>, tree: Tree)

  /** `findFirst($dir, '/<suffix>$/i')`: the first file below dir that the walk reports. */
  function FindIn(walk: seq<Path>, dir: Path, suffix: string): (r: Option<Path>)
    ensures r.Some? ==> Matches(r.value, dir, suffix) && r.value in walk
    ensures r.None? ==> forall i | 0 <= i < |walk| :: !Matches(walk[i], dir, suffix)
  {
    var k := FirstMatch(walk, dir, suffix);
    if k < |walk| then Some(walk[k]) else None
  }

  /** `isGzipFile($p)`: the file exists and starts with the gzip magic bytes. */
  predicate IsGzipIn(files: map<Path, seq<Byte>>, p: Path)
  {
    p in files && HasGzipMagic(files[p])
  }

  /** The lines `parseIfo` reads from a file, one character per byte; none when it is missing. */
  function IfoLinesIn(files: map<Path, seq<Byte>>, p: Path): seq<string>
  {
    if p in files then FileLines(Utf8.Latin1(files[p])) else []
  }

  /**
   * `gunzipToFresh($src, $dest)`: an existing non-empty dest is reused as
   * is; a missing source throws; otherwise dest holds what was inflated,
   * and an incomplete stream throws after it has been written.
   */
  function Gunzip(t: Tree, src: Path, dest: Path, inflate: seq<Byte> -> Inflated): Outcome<Path>
  {
    if dest in t.files && |t.files[dest]| > 0 then Outcome(Success(dest), t)
    else if src !in t.files then Outcome(Failure("gzopen failed for " + src), t)
    else
      var out := inflate(t.files[src]);
      Outcome(
        if out.complete then Success(dest) else Failure("gzread error on " + src),
        Tree(t.files[dest := out.data], AddPath(t.walk, dest, dest in t.files)))
  }

  /** `ensureIdxPath($dir)`: the first `.idx`, else the first `.idx.gz` inflated beside it, else an error. */
  function EnsureIdx(t: Tree, dir: Path, inflate: seq<Byte> -> Inflated): Outcome<Path>
  {
    var idx := FindIn(t.walk, dir, ".idx");
    if idx.Some? then Outcome(Success(idx.value), t)
    else
      var gz := FindIn(t.walk, dir, ".idx.gz");
      if gz.None? then Outcome(Failure("Missing .idx / .idx.gz in " + dir), t)
      else Gunzip(t, gz.value, StripCompressedSuffix(gz.value), inflate)
  }

  /**
   * `ensureDictPath($dir, $needPlain)`: the first `.dict` (inflated to
   * `.dict.unz` when plain text is needed but it is gzipped), else the
   * first `.dict.dz` (inflated beside it when plain text is needed), else
   * an error.
   */
  function EnsureDict(t: Tree, dir: Path, needPlain: bool, inflate: seq<Byte> -> Inflated): Outcome<Path>
  {
    var dict := FindIn(t.walk, dir, ".dict");
    if dict.Some? then
      if needPlain && IsGzipIn(t.files, dict.value) then Gunzip(t, dict.value, dict.value + ".unz", inflate)
      else Outcome(Success(dict.value), t)
    else
      var dz := FindIn(t.walk, dir, ".dict.dz");
      if dz.None? then Outcome(Failure("Missing .dict / .dict.dz in " + dir), t)
      else if needPlain then Gunzip(t, dz.value, StripCompressedSuffix(dz.value), inflate)
      else Outcome(Success(dz.value), t)
  }

  /** `(int)($ifo['idxoffsetbits'] ?? 32)`. */
  function IfoBits(ifo: map<string, string>): int
  {
    if "idxoffsetbits" in ifo then IntCast(ifo["idxoffsetbits"]) else 32
  }

  /**
   * The report on the first record: its payload read at the offset
   * `chooseEndian` settles on, at most 2048 bytes, previewed in at most
   * 400 characters, with the byte order that was used.
   */
  function FoundRecord(files: map<Path, seq<Byte>>, bookname: string, rec: IndexRecord, dictPath: Path, dictSize: int): (f: FirstRecord)
    ensures f.Found? && f.headword == rec.headword && |f.snippet| <= 400
    ensures f.reader == "manual-BE" || f.reader == "manual-LE"
  {
    var pick := ChooseEndian(dictSize, rec.OffBE(), rec.SizeBE(), rec.OffLE(), rec.SizeLE());
    var payload := Slice(if dictPath in files then Some(files[dictPath]) else None, pick.offset, pick.size, 2048);
    PreviewTextShape(payload, 400);
    ReaderLabels(pick.endian);
    Found(bookname, rec.headword, PreviewText(payload, 400), "manual-" + pick.endian.Name())
  }

  /**
   * The manual branch of `starDictFirstRecord($dir)`: the `.ifo` found
   * below dir gives the offset width and book name, the `.idx` and a plain
   * `.dict` are resolved beside it, and the first index record is reported.
   */
  function FirstRecordOf(t: Tree, dir: Path, inflate: seq<Byte> -> Inflated): Outcome<FirstRecord>
  {
    var ifoPath := FindIn(t.walk, dir, ".ifo");
    if ifoPath.None? then Outcome(Failure("Missing .ifo in " + dir), t)
    else
      var ifo := IfoMap(IfoEntries(IfoLinesIn(t.files, ifoPath.value)));
      var bookname := if "bookname" in ifo then ifo["bookname"] else Basename(dir);
      var base := Dirname(ifoPath.value);
      var idx := EnsureIdx(t, base, inflate);
      if idx.result.Failure? then Outcome(Failure(idx.result.error), idx.tree)
      else
        var dict := EnsureDict(idx.tree, base, true, inflate);
        if dict.result.Failure? then Outcome(Failure(dict.result.error), dict.tree)
        else Outcome(ReportFirst(dict.tree.files, bookname, idx.result.value, dict.result.value, IfoBits(ifo)), dict.tree)
  }

  /**
   * The end of `starDictFirstRecord`, once the index and the plain
   * dictionary are resolved: an index that cannot be opened throws, an
   * index without a record is "Index empty", and otherwise its first record
   * is reported.
   */
  function ReportFirst(files: map<Path, seq<Byte>>, bookname: string, idx: Path, dict: Path, bits: int): Result<FirstRecord>
  {
    if idx !in files then Failure("Cannot open " + idx)
    else
      var rows := Records(files[idx], Iterations(1), bits);
      if rows == [] then Success(NotFound("Index empty"))
      else
        var dictSize := if dict in files then |files[dict]| else 0;
        Success(FoundRecord(files, bookname, rows[0], dict, dictSize))
  }

  /** Decompression keeps the walk covering the files, changes no file but dest, and returns dest. */
  lemma GunzipWrites(t: Tree, src: Path, dest: Path, inflate: seq<Byte> -> Inflated)
    requires WalkCovers(t.files, t.walk)
    ensures var o := Gunzip(t, src, dest, inflate);
      && WalkCovers(o.tree.files, o.tree.walk)
      && (o.result.Success? ==> o.result.value == dest && dest in o.tree.files)
      && (forall p | p in t.files :: p in o.tree.files)
      && (forall p | p in o.tree.files && p != dest :: p in t.files && o.tree.files[p] == t.files[p])
      && (o.tree != t ==> src in t.files && o.tree.files[dest] == inflate(t.files[src]).data)
  {
    if !(dest in t.files && |t.files[dest]| > 0) && src in t.files {
      WriteKeepsWalk(t.files, t.walk, dest, inflate(t.files[src]).data);
    }
  }

  /**
   * `ensureIdxPath` leaves its result where a later call finds it first:
   * calling it again returns the same path and changes nothing.
   */
  lemma EnsureIdxAgain(t: Tree, dir: Path, inflate: seq<Byte> -> Inflated)
    requires WalkCovers(t.files, t.walk)
    ensures var o := EnsureIdx(t, dir, inflate);
      && WalkCovers(o.tree.files, o.tree.walk)
      && (o.result.Success? ==> o.result.value in o.tree.files && EnsureIdx(o.tree, dir, inflate) == Outcome(o.result, o.tree))
  {
    var o := EnsureIdx(t, dir, inflate);
    if FindIn(t.walk, dir, ".idx").None? {
      var gz := FindIn(t.walk, dir, ".idx.gz");
      if gz.Some? {
        var dest := StripCompressedSuffix(gz.value);
        GunzipWrites(t, gz.value, dest, inflate);
        SiblingMatches(gz.value, dest, dir);
        forall k | 0 <= k < |t.walk| ensures t.walk[k] != dest {
          assert !Matches(t.walk[k], dir, ".idx");
        }
        if o.result.Success? {
          assert o.tree.walk == t.walk + [dest];
          FirstMatchAppend(t.walk, dest, dir, ".idx");
        }
      }
    }
  }

  /**
   * Without an `.idx`, the sibling of the first `.idx.gz` is never a file
   * already there: it always receives the inflated index, and the call
   * succeeds exactly when the stream was complete.
   */
  lemma EnsureIdxInflates(t: Tree, dir: Path, inflate: seq<Byte> -> Inflated)
    requires WalkCovers(t.files, t.walk)
    requires FindIn(t.walk, dir, ".idx").None? && FindIn(t.walk, dir, ".idx.gz").Some?
    ensures var gz := FindIn(t.walk, dir, ".idx.gz").value;
      var dest := StripCompressedSuffix(gz);
      var o := EnsureIdx(t, dir, inflate);
      && dest !in t.files
      && o.tree.files == t.files[dest := inflate(t.files[gz]).data]
      && o.tree.walk == t.walk + [dest]
      && (o.result == Success(dest) <==> inflate(t.files[gz]).complete)
      && (o.result.Failure? <==> !inflate(t.files[gz]).complete)
  {
    var gz := FindIn(t.walk, dir, ".idx.gz").value;
    var dest := StripCompressedSuffix(gz);
    SiblingMatches(gz, dest, dir);
    forall k | 0 <= k < |t.walk| ensures t.walk[k] != dest {
      assert !Matches(t.walk[k], dir, ".idx");
    }
  }

  /**
   * When plain text is not needed nothing is written: the first `.dict`,
   * else the first `.dict.dz`, is returned as found.
   */
  lemma EnsureDictWithoutPlain(t: Tree, dir: Path, inflate: seq<Byte> -> Inflated)
    ensures var o := EnsureDict(t, dir, false, inflate);
      && o.tree == t
      && (o.result.Success? <==> FindIn(t.walk, dir, ".dict").Some? || FindIn(t.walk, dir, ".dict.dz").Some?)
      && (o.result.Success? ==> Some(o.result.value) == if FindIn(t.walk, dir, ".dict").Some? then FindIn(t.walk, dir, ".dict") else FindIn(t.walk, dir, ".dict.dz"))
  {
  }

  /**
   * `ensureDictPath` keeps the walk covering the files and every file there;
   * the only file it may write is the one it returns, holding the inflated
   * dictionary, and a plain `.dict` is returned untouched.
   */
  lemma EnsureDictWrites(t: Tree, dir: Path, needPlain: bool, inflate: seq<Byte> -> Inflated)
    requires WalkCovers(t.files, t.walk)
    ensures var o := EnsureDict(t, dir, needPlain, inflate);
      && WalkCovers(o.tree.files, o.tree.walk)
      && (o.result.Success? ==> o.result.value in o.tree.files)
      && (forall p | p in t.files :: p in o.tree.files)
      && (o.result.Success? ==> forall p | p in t.files && p != o.result.value :: o.tree.files[p] == t.files[p])
      && (needPlain && FindIn(t.walk, dir, ".dict").Some? && !IsGzipIn(t.files, FindIn(t.walk, dir, ".dict").value) ==>
            o == Outcome(Success(FindIn(t.walk, dir, ".dict").value), t))
  {
    var dict := FindIn(t.walk, dir, ".dict");
    if needPlain {
      if dict.Some? {
        if IsGzipIn(t.files, dict.value) {
          GunzipWrites(t, dict.value, dict.value + ".unz", inflate);
        }
      } else {
        var dz := FindIn(t.walk, dir, ".dict.dz");
        if dz.Some? {
          GunzipWrites(t, dz.value, StripCompressedSuffix(dz.value), inflate);
        }
      }
    }
  }

  /**
   * The first record of a well-formed dictionary: when the index encodes
   * its entries and the plain dictionary holds the first entry's payload at
   * its offset, the report carries that entry's headword and the preview of
   * exactly that payload, read big-endian.
   */
  lemma ReportFirstLayout(
    files: map<Path, seq<Byte>>, bookname: string, idx: Path, dict: Path, bits: int,
    es: seq<IndexEntry>, before: seq<Byte>, payload: seq<Byte>, after: seq<Byte>)
    requires idx in files && dict in files
    requires es != [] && (forall i | 0 <= i < |es| :: Encodable(es[i], bits)) && files[idx] == EncodeIndex(es, bits)
    requires files[dict] == before + payload + after && |before| == es[0].offset && |payload| == es[0].size <= 2048
    ensures var r := ReportFirst(files, bookname, idx, dict, bits);
      && r.Success? && r.value.Found?
      && r.value.bookname == bookname
      && r.value.headword == es[0].headword
      && r.value.snippet == PreviewText(payload, 400)
      && r.value.reader == "manual-BE"
  {
    var data := EncodeIndex(es, bits);
    EncodedIndexStep(es, bits);
    var rec := RecordAt(data, bits).value.0;
    assert Records(data, Iterations(1), bits) == [rec];
    var pick := ChooseEndian(|files[dict]|, rec.OffBE(), rec.SizeBE(), rec.OffLE(), rec.SizeLE());
    assert InBounds(rec.OffBE(), rec.SizeBE(), |files[dict]|);
    assert pick.endian == BigEndian && pick.offset == es[0].offset && pick.size == es[0].size;
    SliceOfLayout(before, payload, after, 2048);
    ReaderLabels(BigEndian);
  }

  /**
   * When the `.idx` and a plain `.dict` already sit beside the `.ifo`, no
   * file is written and the report is the one read from those two files.
   */
  lemma FirstRecordOfResolved(t: Tree, dir: Path, inflate: seq<Byte> -> Inflated, ifo: Path, idx: Path, dict: Path)
    requires FindIn(t.walk, dir, ".ifo") == Some(ifo)
    requires FindIn(t.walk, Dirname(ifo), ".idx") == Some(idx)
    requires FindIn(t.walk, Dirname(ifo), ".dict") == Some(dict) && !IsGzipIn(t.files, dict)
    ensures var info := IfoMap(IfoEntries(IfoLinesIn(t.files, ifo)));
      var bookname := if "bookname" in info then info["bookname"] else Basename(dir);
      FirstRecordOf(t, dir, inflate) == Outcome(ReportFirst(t.files, bookname, idx, dict, IfoBits(info)), t)
  {
    assert EnsureIdx(t, Dirname(ifo), inflate) == Outcome(Success(idx), t);
    assert EnsureDict(t, Dirname(ifo), true, inflate) == Outcome(Success(dict), t);
  }

  /** An index with no record is reported as "Index empty", and no file is written. */
  lemma FirstRecordOfEmptyIndex(t: Tree, dir: Path, inflate: seq<Byte> -> Inflated, ifo: Path, idx: Path, dict: Path)
    requires FindIn(t.walk, dir, ".ifo") == Some(ifo)
    requires FindIn(t.walk, Dirname(ifo), ".idx") == Some(idx) && idx in t.files && t.files[idx] == []
    requires FindIn(t.walk, Dirname(ifo), ".dict") == Some(dict) && !IsGzipIn(t.files, dict)
    ensures FirstRecordOf(t, dir, inflate) == Outcome(Success(NotFound("Index empty")), t)
  {
    FirstRecordOfResolved(t, dir, inflate, ifo, idx, dict);
    var bits := IfoBits(IfoMap(IfoEntries(IfoLinesIn(t.files, ifo))));
    assert Headword([]).0 == [];
    assert Records([], Iterations(1), bits) == [];
  }

  /**
   * Without an `.ifo` below dir, or without an index beside it, the call
   * throws and nothing is written.
   */
  lemma FirstRecordNeedsFiles(t: Tree, dir: Path, inflate: seq<Byte> -> Inflated)
    ensures FindIn(t.walk, dir, ".ifo").None? ==> FirstRecordOf(t, dir, inflate) == Outcome(Failure("Missing .ifo in " + dir), t)
    ensures FindIn(t.walk, dir, ".ifo").Some? ==>
      var base := Dirname(FindIn(t.walk, dir, ".ifo").value);
      FindIn(t.walk, base, ".idx").None? && FindIn(t.walk, base, ".idx.gz").None? ==>
      FirstRecordOf(t, dir, inflate) == Outcome(Failure("Missing .idx / .idx.gz in " + base), t)
  {
  }

  /**
   * The service with the files it can see: contents by path, and the order
   * a recursive directory walk visits them.
   */
  class FreeDictService {
    var files: map<Path, seq<Byte>>
    var walk: seq<Path>

    /** The walk visits every file exactly once. */
    predicate Valid()
      reads this
    {
      WalkCovers(files, walk)
    }

    constructor(files0: map<Path, seq<Byte>>, walk0: seq<Path>)
      requires forall i | 0 <= i < |walk0| :: walk0[i] in files0
      requires forall p | p in files0 :: p in walk0
      requires forall i, j | 0 <= i < j < |walk0| :: walk0[i] != walk0[j]
      ensures Valid() && files == files0 && walk == walk0
    {
      files := files0;
      walk := walk0;
    }

    /** The files and the walk, as a value. */
    function State(): Tree
      reads this
    {
      Tree(files, walk)
    }

    /** `findFirst($dir, '/<suffix>$/i')` on the current walk. */
    function FindFirst(dir: Path, suffix: string): Option<Path>
      reads this
    {
      FindIn(walk, dir, suffix)
    }

    /** The contents `fopen` would read, None when the file does not exist. */
    function Contents(p: Path): Option<seq<Byte>>
      reads this
    {
      if p in files then Some(files[p]) else None
    }

    /** `isGzipFile($p)`: the file exists and starts with the gzip magic bytes. */
    predicate IsGzipFile(p: Path)
      reads this
    {
      IsGzipIn(files, p)
    }

    /** `readSlice($p, $offset, $size, $maxLen)`. */
    function ReadSlice(p: Path, offset: int, size: int, maxLen: int): (r: seq<Byte>)
      reads this
      ensures |r| <= Max(0, maxLen)
      ensures p !in files ==> r == []
    {
      Slice(Contents(p), offset, size, maxLen)
    }

    /** The lines `parseIfo` reads from a file, one character per byte; none when it is missing. */
    function IfoLines(p: Path): seq<string>
      reads this
    {
      IfoLinesIn(files, p)
    }

    /** `parseIfo($p)`: the metadata defined by the file's `key=value` lines. */
    method ParseIfo(p: Path) returns (out: map<string, string>)
      ensures out == IfoMap(IfoEntries(IfoLines(p)))
    {
      out := map[];
      var lines := IfoLines(p);
      var es := IfoEntries(lines);
      for i := 0 to |lines|
        invariant out == IfoMap(es[..i])
      {
        IfoMapStep(es, i);
        // a line without `=` is skipped; otherwise it is split at its first `=`
        var entry := IfoEntry(lines[i]);
        if entry.Some? {
          out := out[entry.value.0 := entry.value.1];
        }
      }
      assert es[..|lines|] == es;
    }

    /**
     * `readIndexEntries($p, $bits, $limit)`: the records of the first
     * `$limit ?: 1` iterations; a file that cannot be opened throws.
     */
    method ReadIndexEntries(p: Path, bits: int, limit: int) returns (r: Result<seq<IndexRecord>>)
      ensures p !in files ==> r == Failure("Cannot open " + p)
      ensures p in files ==> r == Success(Records(files[p], Iterations(limit), bits))
    {
      if p !in files {
        return Failure("Cannot open " + p);
      }
      var recs := DecodeIndex(files[p], Iterations(limit), bits);
      return Success(recs);
    }

    /**
     * `gunzipToFresh($src, $dest)`: an existing non-empty dest is reused as
     * is; otherwise the stream is inflated into dest 8192 bytes at a time,
     * and an inflate error throws after what was inflated has been written.
     */
    method GunzipToFresh(src: Path, dest: Path, inflate: seq<Byte> -> Inflated) returns (r: Result<Path>)
      requires Valid()
      modifies this
      ensures Valid()
      ensures r == Gunzip(old(State()), src, dest, inflate).result
      ensures State() == Gunzip(old(State()), src, dest, inflate).tree
    {
      if dest in files && |files[dest]| > 0 {
        return Success(dest);
      }
      if src !in files {
        return Failure("gzopen failed for " + src);
      }
      var stream := inflate(files[src]);
      walk := AddPath(walk, dest, dest in files);
      files := files[dest := []];
      WriteChunks(dest, stream.data);
      WriteKeepsWalk(old(files), old(walk), dest, stream.data);
      if !stream.complete {
        return Failure("gzread error on " + src);
      }
      return Success(dest);
    }

    /** The `gzread`/`fwrite` loop: data appended to the empty file dest, 8192 bytes at a time. */
    method WriteChunks(dest: Path, data: seq<Byte>)
      requires dest in files && files[dest] == []
      modifies this
      ensures files == old(files)[dest := data] && walk == old(walk)
    {
      var pos := 0;
      while pos < |data|
        invariant 0 <= pos <= |data|
        invariant files == old(files)[dest := data[..pos]] && walk == old(walk)
        decreases |data| - pos
      {
        var buf := Take(data[pos..], ChunkSize);
        assert data[..pos] + buf == data[..pos + |buf|];
        files := files[dest := files[dest] + buf];
        pos := pos + |buf|;
      }
      assert data[..pos] == data;
    }

    /** `gunzipToSibling($p)`: decompress next to the file, without its .gz/.dz suffix. */
    method GunzipToSibling(p: Path, inflate: seq<Byte> -> Inflated) returns (r: Result<Path>)
      requires Valid()
      modifies this
      ensures Valid()
      ensures r == Gunzip(old(State()), p, StripCompressedSuffix(p), inflate).result
      ensures State() == Gunzip(old(State()), p, StripCompressedSuffix(p), inflate).tree
    {
      r := GunzipToFresh(p, StripCompressedSuffix(p), inflate);
    }

    /**
     * `ensureIdxPath($dir)`: the first `.idx` below dir, else the first
     * `.idx.gz` decompressed beside it, else an error. A successful call
     * leaves the result where a later call finds it first.
     */
    method EnsureIdxPath(dir: Path, inflate: seq<Byte> -> Inflated) returns (r: Result<Path>)
      requires Valid()
      modifies this
      ensures Valid()
      ensures r == EnsureIdx(old(State()), dir, inflate).result
      ensures State() == EnsureIdx(old(State()), dir, inflate).tree
    {
      var idx := FindFirst(dir, ".idx");
      if idx.Some? {
        return Success(idx.value);
      }
      var idxGz := FindFirst(dir, ".idx.gz");
      if idxGz.None? {
        return Failure("Missing .idx / .idx.gz in " + dir);
      }
      r := GunzipToSibling(idxGz.value, inflate);
    }

    /**
     * `ensureDictPath($dir, $needPlain)`: the first `.dict` (decompressed to
     * `.dict.unz` when plain text is needed but it is gzipped), else the
     * first `.dict.dz` (decompressed beside it when plain text is needed),
     * else an error.
     */
    method EnsureDictPath(dir: Path, needPlain: bool, inflate: seq<Byte> -> Inflated) returns (r: Result<Path>)
      requires Valid()
      modifies this
      ensures Valid()
      ensures r == EnsureDict(old(State()), dir, needPlain, inflate).result
      ensures State() == EnsureDict(old(State()), dir, needPlain, inflate).tree
    {
      var dict := FindFirst(dir, ".dict");
      if dict.Some? {
        if needPlain && IsGzipFile(dict.value) {
          r := GunzipToFresh(dict.value, dict.value + ".unz", inflate);
          return;
        }
        return Success(dict.value);
      }
      var dictDz := FindFirst(dir, ".dict.dz");
      if dictDz.None? {
        return Failure("Missing .dict / .dict.dz in " + dir);
      }
      if needPlain {
        r := GunzipToSibling(dictDz.value, inflate);
      } else {
        r := Success(dictDz.value);
      }
    }

    /**
     * The manual branch of `starDictFirstRecord($dir)`: the first index
     * record of the dictionary below dir, its payload read at the offset
     * `chooseEndian` settles on (at most 2048 bytes) and previewed in at
     * most 400 characters.
     */
    method StarDictFirstRecord(dir: Path, inflate: seq<Byte> -> Inflated) returns (r: Result<FirstRecord>)
      requires Valid()
      modifies this
      ensures Valid()
      ensures r == FirstRecordOf(old(State()), dir, inflate).result
      ensures State() == FirstRecordOf(old(State()), dir, inflate).tree
    {
      var ifoPath := FindFirst(dir, ".ifo");
      if ifoPath.None? {
        return Failure("Missing .ifo in " + dir);
      }
      var ifo := ParseIfo(ifoPath.value);
      var bits := IfoBits(ifo);
      var bookname := if "bookname" in ifo then ifo["bookname"] else Basename(dir);
      var base := Dirname(ifoPath.value);
      var idxPath := EnsureIdxPath(base, inflate);
      if idxPath.Failure? {
        return Failure(idxPath.error);
      }
      var dictPath := EnsureDictPath(base, true, inflate);
      if dictPath.Failure? {
        return Failure(dictPath.error);
      }
      r := ReportFirstRecord(bookname, idxPath.value, dictPath.value, bits);
    }

    /** The end of `starDictFirstRecord`: the dictionary's size, then the index's first record. */
    method ReportFirstRecord(bookname: string, idx: Path, dict: Path, bits: int) returns (r: Result<FirstRecord>)
      ensures r == ReportFirst(files, bookname, idx, dict, bits)
    {
      var dictSize := if dict in files then |files[dict]| else 0;
      var rows := ReadIndexEntries(idx, bits, 1);
      if rows.Failure? {
        return Failure(rows.error);
      }
      if rows.value == [] {
        return Success(NotFound("Index empty"));
      }
      return Success(FoundRecord(files, bookname, rows.value[0], dict, dictSize));
    }
  }

  lemma ReaderLabels(e: Endian)
    ensures "manual-" + e.Name() == if e.BigEndian? then "manual-BE" else "manual-LE"
  {
  }

  /** The decompressed sibling of a matching `.idx.gz` is an `.idx` below the same directory. */
  lemma SiblingMatches(gz: Path, dest: Path, dir: Path)
    requires Matches(gz, dir, ".idx.gz") && dest == StripCompressedSuffix(gz)
    ensures Matches(dest, dir, ".idx")
  {
    var n := |gz|;
    SuffixesOfIdxGz(gz);
    assert dest == gz[..n - 3];
    SuffixLeavesDirectory(gz, dir);
    PrefixStaysUnder(gz, n - 3, dir);
  }

  lemma SuffixesOfIdxGz(p: Path)
    requires EndsWithCI(p, ".idx.gz")
    ensures EndsWithCI(p, ".gz") && EndsWithCI(p[..|p| - 3], ".idx")
  {
    var n := |p|;
    var l := Lower(p[n - 7..]);
    assert Lower(p[n - 3..]) == l[4..];
    assert Lower(p[..n - 3][n - 7..]) == l[..4];
  }

  /** The directory and its separator end before the suffix, which holds no `/`. */
  lemma SuffixLeavesDirectory(p: Path, dir: Path)
    requires Matches(p, dir, ".idx.gz")
    ensures |dir| < |p| - 7
  {
    var n := |p|;
    assert p[|dir|] == (dir + "/")[|dir|] == '/';
    forall j | n - 7 <= j < n ensures p[j] != '/' {
      assert Lower(p[n - 7..])[j - (n - 7)] == LowerChar(p[j]);
      assert LowerChar('/') == '/';
    }
  }

  lemma PrefixStaysUnder(p: Path, m: nat, dir: Path)
    requires IsUnder(p, dir) && |dir| + 1 < m <= |p|
    ensures IsUnder(p[..m], dir)
  {
    assert p[..m][..|dir| + 1] == p[..|dir| + 1];
  }

  lemma {:induction false} FirstMatchAppend(walk: seq<Path>, p: Path, dir: Path, suffix: string)
    requires forall i | 0 <= i < |walk| :: !Matches(walk[i], dir, suffix)
    requires Matches(p, dir, suffix)
    ensures FirstMatch(walk + [p], dir, suffix) == |walk|
  {
    if walk != [] {
      assert (walk + [p])[1..] == walk[1..] + [p];
      FirstMatchAppend(walk[1..], p, dir, suffix);
    }
  }
}
