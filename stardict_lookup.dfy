/**
 * Word lookups in a StarDict dictionary for one language pair, with
 * per-pair caches filled on first use: a session of the StarDict library
 * for classic 2.4.2 dictionaries with 32-bit offsets, and otherwise an
 * in-memory map from headword to the (offset, size) of its payload in the
 * plain `.dict` file, built from the `.idx` file.
 */
module StarDictLookup {
  import opened Wrappers
  import opened ByteCodec
  import opened Text
  import Utf8
  import Json
  import FS = FreeDictService
  import Catalog = FreeDictCatalog

  /* ======================= the index map ======================= */

  /** The headword guard of `buildIndexMap`: the loop stops once a headword is longer. */
  const MaxMapHeadword := 10000

  /**
   * The headword loop of `buildIndexMap` continued from byte k: the
   * headword and the bytes consumed, or None when the headword is empty or
   * cut off by end of file (the loop then resets it to '' and the map is
   * complete). A NUL ends the headword and is consumed; a headword of
   * 10001 bytes ends without consuming anything more.
   */
  function ScanMapHeadword(rest: seq<Byte>, k: nat): (r: Option<(seq<Byte>, nat)>)
    requires k <= |rest| && k <= MaxMapHeadword
    ensures r.Some? ==> 0 < |r.value.0| <= r.value.1 <= |rest| && |r.value.0| <= MaxMapHeadword + 1
    decreases |rest| - k
  {
    if k == |rest| then None
    else if rest[k] == 0 then (if k == 0 then None else Some((rest[..k], k + 1)))
    else if k + 1 > MaxMapHeadword then Some((rest[..k + 1], k + 1))
    else ScanMapHeadword(rest, k + 1)
  }

  function MapHeadword(rest: seq<Byte>): (r: Option<(seq<Byte>, nat)>)
    ensures r.Some? ==> 0 < |r.value.0| <= r.value.1 <= |rest| && |r.value.0| <= MaxMapHeadword + 1
  {
    ScanMapHeadword(rest, 0)
  }

  predicate NulFree(bs: seq<Byte>)
  {
    forall i | 0 <= i < |bs| :: bs[i] != 0
  }

  /**
   * A headword is read exactly when the bytes do not start with NUL and a
   * NUL or the 10001st byte comes before end of file. It is then the
   * NUL-free prefix up to the first NUL (consumed) or the first 10001
   * bytes (nothing more consumed).
   */
  lemma MapHeadwordSpec(rest: seq<Byte>)
    ensures MapHeadword(rest).None? <==>
      (|rest| > 0 && rest[0] == 0) || (|rest| <= MaxMapHeadword && NulFree(rest))
    ensures MapHeadword(rest).Some? ==>
      var h := MapHeadword(rest).value;
      && h.0 == rest[..|h.0|] && NulFree(h.0)
      && (|h.0| <= MaxMapHeadword ==> rest[|h.0|] == 0 && h.1 == |h.0| + 1)
      && (|h.0| > MaxMapHeadword ==> h.1 == |h.0|)
  {
    ScanMapHeadwordSpec(rest, 0);
  }

  lemma {:induction false} ScanMapHeadwordSpec(rest: seq<Byte>, k: nat)
    requires k <= |rest| && k <= MaxMapHeadword
    requires NulFree(rest[..k])
    ensures ScanMapHeadword(rest, k).None? <==>
      (k == 0 && |rest| > 0 && rest[0] == 0) || (|rest| <= MaxMapHeadword && NulFree(rest))
    ensures ScanMapHeadword(rest, k).Some? ==>
      var h := ScanMapHeadword(rest, k).value;
      && h.0 == rest[..|h.0|] && NulFree(h.0)
      && (|h.0| <= MaxMapHeadword ==> |h.0| < |rest| && rest[|h.0|] == 0 && h.1 == |h.0| + 1)
      && (|h.0| > MaxMapHeadword ==> h.1 == |h.0|)
    decreases |rest| - k
  {
    if k == |rest| {
      assert rest[..k] == rest;
    } else if rest[k] == 0 {
      assert !NulFree(rest);
    } else if k + 1 > MaxMapHeadword {
      assert rest[..k + 1] == rest[..k] + [rest[k]];
    } else {
      assert rest[..k + 1] == rest[..k] + [rest[k]];
      ScanMapHeadwordSpec(rest, k + 1);
      if |rest| <= MaxMapHeadword && NulFree(rest) {
        assert NulFree(rest[..k + 1]);
      }
    }
  }

  /** Where a headword's payload lies in the `.dict` file. */
  datatype Span = Span(off: nat, size: nat)

  /**
   * One iteration of `buildIndexMap`'s outer loop on the remaining bytes:
   * the headword, its big-endian offset (8 bytes for 64-bit offsets, else
   * 4) and size (4 bytes), and the bytes taken. A field cut short by end of
   * file is zero-padded on the right and still recorded.
   */
  function MapRecordAt(rest: seq<Byte>, bits: int): (r: Option<(seq<Byte>, Span, nat)>)
    ensures r.Some? ==> 0 < r.value.2 <= |rest|
  {
    var h := MapHeadword(rest);
    if h.None? then None
    else
      var k := h.value.1;
      var ob := FS.Take(rest[k..], FS.OffsetWidth(bits));
      var sb := FS.Take(rest[k + |ob|..], 4);
      var off := if bits == 64 then UInt64BE(ob) else UInt32BE(ob);
      Some((h.value.0, Span(off, UInt32BE(sb)), k + |ob| + |sb|))
  }

  /** Every (headword, span) pair `buildIndexMap` reads, in file order. */
  function Entries(rest: seq<Byte>, bits: int): seq<(seq<Byte>, Span)>
    decreases |rest|
  {
    var r := MapRecordAt(rest, bits);
    if r.None? then [] else [(r.value.0, r.value.1)] + Entries(rest[r.value.2..], bits)
  }

  /** `if (!isset($map[$head])) $map[$head] = ...` for one entry. */
  function AddIfAbsent(m: map<seq<Byte>, Span>, e: (seq<Byte>, Span)): map<seq<Byte>, Span>
  {
    if e.0 in m then m else m[e.0 := e.1]
  }

  /** The map after adding entries in order, each only when its headword is new. */
  function AddFirst(m: map<seq<Byte>, Span>, es: seq<(seq<Byte>, Span)>): map<seq<Byte>, Span>
    decreases |es|
  {
    if es == [] then m else AddFirst(AddIfAbsent(m, es[0]), es[1..])
  }

  /** The map `buildIndexMap` returns for the bytes of an index file. */
  function IndexMap(data: seq<Byte>, bits: int): map<seq<Byte>, Span>
  {
    AddFirst(map[], Entries(data, bits))
  }

  /** The position of the first entry with this headword; |es| when there is none. */
  function FirstWith(es: seq<(seq<Byte>, Span)>, head: seq<Byte>): (k: nat)
    ensures k <= |es|
    ensures k < |es| ==> es[k].0 == head
    ensures forall i | 0 <= i < k :: es[i].0 != head
  {
    if es == [] then 0
    else if es[0].0 == head then 0
    else 1 + FirstWith(es[1..], head)
  }

  /**
   * First one wins: a headword is in the map iff it was there already or
   * some entry has it, and its span is the one it had, else the span of
   * its first entry; later duplicates change nothing.
   */
  lemma {:induction false} AddFirstKeepsFirst(m: map<seq<Byte>, Span>, es: seq<(seq<Byte>, Span)>, head: seq<Byte>)
    ensures head in AddFirst(m, es) <==> head in m || FirstWith(es, head) < |es|
    ensures head in m ==> AddFirst(m, es)[head] == m[head]
    ensures head !in m && FirstWith(es, head) < |es| ==> AddFirst(m, es)[head] == es[FirstWith(es, head)].1
    decreases |es|
  {
    if es != [] {
      AddFirstKeepsFirst(AddIfAbsent(m, es[0]), es[1..], head);
    }
  }

  /**
   * For the index map: a headword is a key iff some entry has it, and it
   * maps to the span of its first entry.
   */
  lemma IndexMapFirstWins(data: seq<Byte>, bits: int, head: seq<Byte>)
    ensures var es := Entries(data, bits);
      && (head in IndexMap(data, bits) <==> FirstWith(es, head) < |es|)
      && (head in IndexMap(data, bits) ==> IndexMap(data, bits)[head] == es[FirstWith(es, head)].1)
  {
    AddFirstKeepsFirst(map[], Entries(data, bits), head);
  }

  /** What `buildIndexMap` reads for a well-formed index written by `EncodeIndex`. */
  function Spans(es: seq<FS.IndexEntry>): (r: seq<(seq<Byte>, Span)>)
    ensures |r| == |es|
  {
    if es == [] then [] else [(es[0].headword, Span(es[0].offset, es[0].size))] + Spans(es[1..])
  }

  lemma MapHeadwordOfTerminated(head: seq<Byte>, tail: seq<Byte>)
    requires 0 < |head| <= FS.MaxHeadword && NulFree(head)
    ensures MapHeadword(head + [0] + tail) == Some((head, |head| + 1))
  {
    var rest := head + [0] + tail;
    MapHeadwordSpec(rest);
    assert rest[|head|] == 0;
    assert rest[..|head|] == head;
    assert !NulFree(rest);
  }

  lemma MapRecordAtEncoded(e: FS.IndexEntry, tail: seq<Byte>, bits: int)
    requires FS.Encodable(e, bits)
    ensures MapRecordAt(FS.EncodeEntry(e, bits) + tail, bits)
      == Some((e.headword, Span(e.offset, e.size), |FS.EncodeEntry(e, bits)|))
  {
    var w := FS.OffsetWidth(bits);
    var eo, es := EncodeBE(e.offset, w), EncodeBE(e.size, 4);
    var rest := FS.EncodeEntry(e, bits) + tail;
    assert rest == e.headword + [0] + (eo + es + tail);
    MapHeadwordOfTerminated(e.headword, eo + es + tail);
    var k := |e.headword| + 1;
    assert rest[k..] == eo + es + tail;
    assert FS.Take(rest[k..], w) == eo;
    assert rest[k + w..] == es + tail;
    assert FS.Take(rest[k + w..], 4) == es;
    FS.DecodeEncodedFields(e.offset, e.size, bits);
  }

  /**
   * Round trip: the index map reads back every entry of a well-formed
   * index (non-empty NUL-free headwords, values that fit their fields), in
   * order.
   */
  lemma {:induction false} EntriesOfEncodedIndex(es: seq<FS.IndexEntry>, bits: int)
    requires forall i | 0 <= i < |es| :: FS.Encodable(es[i], bits)
    ensures Entries(FS.EncodeIndex(es, bits), bits) == Spans(es)
  {
    if es != [] {
      var data := FS.EncodeIndex(es, bits);
      var tail := FS.EncodeIndex(es[1..], bits);
      assert data == FS.EncodeEntry(es[0], bits) + tail;
      MapRecordAtEncoded(es[0], tail, bits);
      assert data[|FS.EncodeEntry(es[0], bits)|..] == tail;
      EntriesOfEncodedIndex(es[1..], bits);
    } else {
      assert FS.EncodeIndex(es, bits) == [];
      assert MapHeadword([]) == None;
    }
  }

  /**
   * The headword loop of `buildIndexMap` on the index bytes from pos: the
   * headword and the position after it, or None.
   */
  method ScanMapHeadwordAt(data: seq<Byte>, pos: nat) returns (r: Option<(seq<Byte>, nat)>)
    requires pos <= |data|
    ensures r.None? <==> MapHeadword(data[pos..]).None?
    ensures r.Some? ==> pos <= r.value.1 && MapHeadword(data[pos..]) == Some((r.value.0, r.value.1 - pos))
  {
    var head: seq<Byte> := [];
    var q := pos;
    while true
      invariant pos <= q <= |data|
      invariant q - pos <= MaxMapHeadword && head == data[pos..q]
      invariant ScanMapHeadword(data[pos..], q - pos) == MapHeadword(data[pos..])
      decreases |data| - q
    {
      ghost var rest := data[pos..];
      if q == |data| {
        // end of file: the partial headword is dropped
        return None;
      }
      var ch := data[q];
      assert ch == rest[q - pos];
      q := q + 1;
      if ch == 0 {
        if head == [] {
          return None;
        }
        assert head == rest[..q - 1 - pos];
        return Some((head, q));
      }
      head := head + [ch];
      assert head == data[pos..q] == rest[..q - pos];
      if |head| > MaxMapHeadword {
        return Some((head, q));
      }
    }
  }

  /** One iteration of the outer loop of `buildIndexMap` from pos. */
  method ReadMapRecordAt(data: seq<Byte>, pos: nat, bits: int) returns (r: Option<(seq<Byte>, Span, nat)>)
    requires pos <= |data|
    ensures r.None? <==> MapRecordAt(data[pos..], bits).None?
    ensures r.Some? ==>
      pos <= r.value.2 <= |data| && MapRecordAt(data[pos..], bits) == Some((r.value.0, r.value.1, r.value.2 - pos))
  {
    var h := ScanMapHeadwordAt(data, pos);
    if h.None? {
      return None;
    }
    var q := h.value.1;
    var ob := FS.Take(data[q..], FS.OffsetWidth(bits));
    var sb := FS.Take(data[q + |ob|..], 4);
    MapRecordAtFrom(data, pos, q, bits, h.value.0, ob, sb);
    var off := if bits == 64 then UInt64BE(ob) else UInt32BE(ob);
    return Some((h.value.0, Span(off, UInt32BE(sb)), q + |ob| + |sb|));
  }

  lemma MapRecordAtOf(rest: seq<Byte>, bits: int, head: seq<Byte>, k: nat, ob: seq<Byte>, sb: seq<Byte>)
    requires MapHeadword(rest) == Some((head, k))
    requires ob == FS.Take(rest[k..], FS.OffsetWidth(bits)) && sb == FS.Take(rest[k + |ob|..], 4)
    ensures MapRecordAt(rest, bits)
      == Some((head, Span(if bits == 64 then UInt64BE(ob) else UInt32BE(ob), UInt32BE(sb)), k + |ob| + |sb|))
  {
  }

  /** The record at pos, from the fields read at absolute positions of the data. */
  lemma MapRecordAtFrom(data: seq<Byte>, pos: nat, q: nat, bits: int, head: seq<Byte>, ob: seq<Byte>, sb: seq<Byte>)
    requires pos <= q <= |data| && MapHeadword(data[pos..]) == Some((head, q - pos))
    requires ob == FS.Take(data[q..], FS.OffsetWidth(bits)) && sb == FS.Take(data[q + |ob|..], 4)
    ensures MapRecordAt(data[pos..], bits)
      == Some((head, Span(if bits == 64 then UInt64BE(ob) else UInt32BE(ob), UInt32BE(sb)), q - pos + |ob| + |sb|))
  {
    var rest := data[pos..];
    assert rest[q - pos..] == data[q..];
    assert rest[q - pos + |ob|..] == data[q + |ob|..];
    MapRecordAtOf(rest, bits, head, q - pos, ob, sb);
  }

  /** The two loops of `buildIndexMap` over the bytes of an opened index file. */
  method BuildIndexMapOf(data: seq<Byte>, bits: int) returns (m: map<seq<Byte>, Span>)
    ensures m == IndexMap(data, bits)
  {
    m := map[];
    var pos := 0;
    assert data[0..] == data;
    while pos < |data|
      invariant 0 <= pos <= |data|
      invariant AddFirst(m, Entries(data[pos..], bits)) == IndexMap(data, bits)
      decreases |data| - pos
    {
      var next := ReadMapRecordAt(data, pos, bits);
      if next.None? {
        return;
      }
      var end := next.value.2;
      assert data[pos..][end - pos..] == data[end..];
      // a later duplicate of a headword leaves the map unchanged
      if next.value.0 !in m {
        m := m[next.value.0 := next.value.1];
      }
      pos := end;
    }
    assert MapHeadword(data[pos..]) == None;
  }

  /* ======================= cleaning a payload ======================= */

  /**
   * `cleanVal($bytes)`: control characters removed (valid UTF-8 only),
   * invalid UTF-8 reinterpreted as ISO-8859-1, tags stripped, white space
   * runs collapsed, then trimmed.
   */
  function CleanVal(bytes: seq<Byte>): string
  {
    Trim(CollapseSpaces(StripTags(FS.Recover(bytes))))
  }

  /** Text as `cleanVal` leaves it: no `<`, single spaces only, nothing to trim at either end. */
  predicate IsClean(s: string)
  {
    && NoTagOpen(s) && SpacesCollapsed(s)
    && (s != [] ==> !IsTrimmable(s[0]) && !IsTrimmable(s[|s| - 1]))
  }

  /** Collapsing white space and then trimming leaves clean text, and brings in no control character. */
  lemma CollapseTrimIsClean(u: string)
    requires NoTagOpen(u)
    ensures IsClean(Trim(CollapseSpaces(u)))
    ensures NoControls(u) ==> NoControls(Trim(CollapseSpaces(u)))
  {
    var c := CollapseSpaces(u);
    assert SpacesCollapsed(Trim(c)) by {
      CollapseSpacesCollapses(u);
      TrimInfix(c);
      SpacesCollapsedInfix(c, TrimStart(c), TrimStart(c) + |Trim(c)|);
    }
    assert Trim(c) != [] ==> !IsTrimmable(Trim(c)[0]) && !IsTrimmable(Trim(c)[|Trim(c)| - 1]) by {
      TrimInfix(c);
    }
    assert NoTagOpen(Trim(c)) && (NoControls(u) ==> NoControls(Trim(c))) by {
      CollapseKeepsNoControlsNoTags(u);
      TrimKeepsClean(c);
    }
  }

  /** Every cleaned value is clean, and free of control characters when the bytes were valid UTF-8. */
  lemma CleanValIsClean(bytes: seq<Byte>)
    ensures IsClean(CleanVal(bytes))
    ensures Utf8.IsValid(bytes) ==> NoControls(CleanVal(bytes))
  {
    var u := StripTags(FS.Recover(bytes));
    if Utf8.IsValid(bytes) {
      StripTagsKeepsNoControls(FS.Recover(bytes));
    }
    CollapseTrimIsClean(u);
  }

  /**
   * Clean text comes back unchanged whatever its length: unlike the
   * preview, `cleanVal` neither truncates nor substitutes "(empty)".
   */
  lemma CleanValOfCleanText(s: string)
    requires IsClean(s) && NoControls(s)
    ensures CleanVal(Utf8.Encode(s)) == s
  {
    Utf8.DecodeEncode(s);
    RemoveControlsKeepsClean(s);
    StripTagsKeepsPlainText(s);
    CollapseSpacesKeepsCollapsed(s);
    TrimKeepsUntrimmed(s);
  }

  /** No bytes clean to "" but preview as "(empty)". */
  lemma CleanValOfNothing()
    ensures CleanVal([]) == "" && FS.PreviewText([], 100) == "(empty)"
  {
    assert Utf8.Decode([]) == Some([]);
  }

  /** A no-break space followed by `a`, in UTF-8. */
  lemma NoBreakSpaceBytes()
    ensures Utf8.Encode([0xA0 as char, 'a']) == [0xC2, 0xA0, 0x61]
    ensures FS.Recover([0xC2, 0xA0, 0x61]) == [0xA0 as char, 'a']
  {
    var s: string := [0xA0 as char, 'a'];
    assert Utf8.EncodeChar(s[0]) == [0xC2, 0xA0];
    assert Utf8.Encode(s[1..]) == [0x61] + Utf8.Encode([]);
    Utf8.DecodeEncode(s);
    RemoveControlsKeepsClean(s);
  }

  lemma CollapseOfNoBreakSpace()
    ensures CollapseSpaces([0xA0 as char, 'a']) == " a"
  {
    var s: string := [0xA0 as char, 'a'];
    var a: string := "a";
    assert IsSpace(s[0]) && s[1..] == a && !IsSpace(a[0]) && a[1..] == [];
    assert DropSpaces(a) == a;
    assert DropSpaces(s) == a;
    assert CollapseSpaces(a) == [a[0]] + CollapseSpaces([]) == a;
    assert CollapseSpaces(s) == [' '] + CollapseSpaces(a);
  }

  lemma TrimOfSpaceA()
    ensures Trim(" a") == "a"
  {
    assert " a"[1..] == "a";
  }

  /**
   * Where the two cleaners differ: a leading no-break space (white space,
   * but not a character `trim` removes) is dropped by `cleanVal`, which
   * collapses before it trims ...
   */
  lemma CleanValDropsNoBreakSpace()
    ensures CleanVal([0xC2, 0xA0, 0x61]) == "a"
  {
    var s: string := [0xA0 as char, 'a'];
    NoBreakSpaceBytes();
    StripTagsKeepsPlainText(s);
    CollapseOfNoBreakSpace();
    TrimOfSpaceA();
  }

  /** ... and kept as a space by the preview, which trims first. */
  lemma PreviewKeepsNoBreakSpace()
    ensures FS.PreviewText([0xC2, 0xA0, 0x61], 100) == " a"
  {
    var s: string := [0xA0 as char, 'a'];
    NoBreakSpaceBytes();
    StripTagsKeepsPlainText(s);
    TrimKeepsUntrimmed(s);
    CollapseOfNoBreakSpace();
  }

  /* ======================= lookups on a backing ======================= */

  /** What the StarDict library's `get($key)` gives: results, or an exception. */
  datatype Answer = Raises | Values(values: seq<seq<Byte>>)

  /** A library session: the answer for each key it knows; other keys have no results. */
  type Session = map<string, Answer>

  /** The cached metadata of a pair. */
  datatype Meta = Meta(bits: int, version: string, bookname: string)
  {
    /** Classic 2.4.2 dictionaries with 32-bit offsets go through the library. */
    predicate UsesLibrary()
    {
      version == "2.4.2" && bits == 32
    }
  }

  /** The metadata read from the `.ifo` keys, with their defaults. */
  function MetaOf(ifo: map<string, string>, pair: string): (m: Meta)
    ensures "idxoffsetbits" !in ifo ==> m.bits == 32
    ensures "version" !in ifo ==> m.version == ""
    ensures "bookname" !in ifo ==> m.bookname == pair
    ensures "bookname" in ifo ==> m.bookname == ifo["bookname"]
    ensures "idxoffsetbits" in ifo ==> m.bits == Json.IntCast(ifo["idxoffsetbits"])
  {
    Meta(
      if "idxoffsetbits" in ifo then Json.IntCast(ifo["idxoffsetbits"]) else 32,
      if "version" in ifo then ifo["version"] else "",
      if "bookname" in ifo then ifo["bookname"] else pair)
  }

  /** What a pair's caches hold: a library session, and the index map with its `.dict` path. */
  datatype Backing = Backing(
    session: Option<Session>,
    index: Option<(map<seq<Byte>, Span>, FS.Path)>,
    files: map<FS.Path, seq<Byte>>)

  /** The first library result for a key, cleaned; None when there is none or the library throws. */
  function SessionValue(session: Option<Session>, key: string): (r: Option<string>)
    ensures r.Some? ==> IsClean(r.value)
  {
    if session.None? || key !in session.value then None
    else match session.value[key]
      case Raises => None
      case Values(vs) => if vs == [] then None else CleanValIsClean(vs[0]); Some(CleanVal(vs[0]))
  }

  /** A map hit: at most 4096 bytes of the `.dict` file at the stored span, cleaned. */
  function MapValue(b: Backing, key: string): (r: Option<string>)
    ensures r.Some? ==> IsClean(r.value)
  {
    if b.index.None? || Utf8.Encode(key) !in b.index.value.0 then None
    else
      var span := b.index.value.0[Utf8.Encode(key)];
      var dict := b.index.value.1;
      var payload := FS.Slice(if dict in b.files then Some(b.files[dict]) else None, span.off, span.size, 4096);
      CleanValIsClean(payload);
      Some(CleanVal(payload))
  }

  /** `lookup($pair, $key)`: the library first, then the index map, else null. */
  function Lookup(b: Backing, key: string): Option<string>
  {
    var v := SessionValue(b.session, key);
    if v.Some? then v else MapValue(b, key)
  }

  /**
   * The library is consulted before the map and its exceptions are
   * swallowed: a library hit decides, a throwing or silent library defers
   * to the map, and with neither backing nothing is found. Whatever is
   * found is clean.
   */
  lemma LookupOrder(b: Backing, key: string)
    ensures SessionValue(b.session, key).Some? ==> Lookup(b, key) == SessionValue(b.session, key)
    ensures b.session.Some? && key in b.session.value && b.session.value[key].Raises? ==>
      Lookup(b, key) == MapValue(b, key)
    ensures b.session.None? && b.index.None? ==> Lookup(b, key).None?
    ensures Lookup(b, key).Some? ==> IsClean(Lookup(b, key).value)
  {
  }

  /**
   * A map hit reads exactly the stored span of the `.dict` file (clipped
   * to the file and to 4096 bytes) and cleans it.
   */
  lemma MapValueReadsSpan(b: Backing, key: string, before: seq<Byte>, payload: seq<Byte>, after: seq<Byte>)
    requires b.index.Some? && Utf8.Encode(key) in b.index.value.0
    requires b.index.value.1 in b.files && b.files[b.index.value.1] == before + payload + after
    requires b.index.value.0[Utf8.Encode(key)] == Span(|before|, |payload|)
    ensures |payload| <= 4096 ==> MapValue(b, key) == Some(CleanVal(payload))
    ensures |payload| > 4096 ==> MapValue(b, key) == Some(CleanVal(payload[..4096]))
  {
    if |payload| <= 4096 {
      FS.SliceOfLayout(before, payload, after, 4096);
    } else {
      var head, rest := payload[..4096], payload[4096..] + after;
      assert before + payload + after == before + head + rest;
      FS.SliceOfLayout(before, head, rest, 4096);
      assert FS.Slice(Some(before + payload + after), |before|, |payload|, 4096)
          == FS.Slice(Some(before + head + rest), |before|, |head|, 4096);
    }
  }

  /**
   * `translateToken($pair, $word)`: the exact word, then its lower-case
   * form when that differs, and otherwise the word itself.
   */
  function TranslateToken(b: Backing, word: string): string
  {
    var v := Lookup(b, word);
    if v.Some? then v.value
    else
      var lower := Lower(word);
      if lower != word then Lookup(b, lower).GetOr(word) else word
  }

  /**
   * The fallback order: an exact hit wins; a lower-case word is looked up
   * only once; the lower-case form is used only when the exact word
   * misses; a token nothing matches comes back unchanged, and anything
   * else comes back cleaned.
   */
  lemma TranslateTokenOrder(b: Backing, word: string)
    ensures Lookup(b, word).Some? ==> TranslateToken(b, word) == Lookup(b, word).value
    ensures Lookup(b, word).None? && Lower(word) != word && Lookup(b, Lower(word)).Some? ==>
      TranslateToken(b, word) == Lookup(b, Lower(word)).value
    ensures Lower(word) == word ==> TranslateToken(b, word) == Lookup(b, word).GetOr(word)
    ensures Lookup(b, word).None? && Lookup(b, Lower(word)).None? ==> TranslateToken(b, word) == word
    ensures TranslateToken(b, word) != word ==> IsClean(TranslateToken(b, word))
  {
    LookupOrder(b, word);
    LookupOrder(b, Lower(word));
  }

  /** One piece of the split text: letter runs are translated, everything else is kept. */
  function TranslateChunk(b: Backing, chunk: string): string
  {
    if IsWordChunk(chunk) then TranslateToken(b, chunk) else chunk
  }

  /** The output for a sequence of pieces, built up piece by piece. */
  function TranslateChunks(b: Backing, chunks: seq<string>): string
  {
    if chunks == [] then []
    else TranslateChunks(b, chunks[..|chunks| - 1]) + TranslateChunk(b, chunks[|chunks| - 1])
  }

  /** The text `translateWordByWord` returns. */
  function Translated(b: Backing, text: string): string
  {
    TranslateChunks(b, Tokenize(text))
  }

  /**
   * The output is the pieces of the input in order, each non-letter piece
   * unchanged and each letter run replaced by its translation: the output
   * of a single piece is its own translation, and the output of two runs of
   * pieces is the two outputs joined.
   */
  lemma {:induction false} TranslateChunksAppend(b: Backing, xs: seq<string>, ys: seq<string>)
    ensures TranslateChunks(b, xs + ys) == TranslateChunks(b, xs) + TranslateChunks(b, ys)
    decreases |ys|
  {
    if ys == [] {
      assert xs + ys == xs;
    } else {
      var front, last := ys[..|ys| - 1], ys[|ys| - 1];
      TranslateChunksAppend(b, xs, front);
      assert ys == front + [last];
      TranslateChunksAppendStep(b, xs, front, last);
    }
  }

  lemma TranslateChunksAppendStep(b: Backing, xs: seq<string>, front: seq<string>, last: string)
    requires TranslateChunks(b, xs + front) == TranslateChunks(b, xs) + TranslateChunks(b, front)
    ensures TranslateChunks(b, xs + (front + [last])) == TranslateChunks(b, xs) + TranslateChunks(b, front + [last])
  {
    Associates(xs, front, [last]);
    TranslateChunksSnoc(b, xs + front, last);
    TranslateChunksSnoc(b, front, last);
    Associates(TranslateChunks(b, xs), TranslateChunks(b, front), TranslateChunk(b, last));
  }

  lemma Associates<T>(a: seq<T>, b: seq<T>, c: seq<T>)
    ensures (a + b) + c == a + (b + c)
  {
  }

  lemma TranslateChunksSnoc(b: Backing, chunks: seq<string>, chunk: string)
    ensures TranslateChunks(b, chunks + [chunk]) == TranslateChunks(b, chunks) + TranslateChunk(b, chunk)
  {
    assert (chunks + [chunk])[..|chunks|] == chunks;
  }

  lemma TranslateOneChunk(b: Backing, chunk: string)
    ensures TranslateChunks(b, [chunk]) == TranslateChunk(b, chunk)
    ensures !IsWordChunk(chunk) ==> TranslateChunks(b, [chunk]) == chunk
  {
    assert [chunk][..0] == [];
  }

  /** No letter run translated differently: the pieces come back as they were split. */
  predicate NoHits(b: Backing, chunks: seq<string>)
  {
    forall i | 0 <= i < |chunks| :: IsWordChunk(chunks[i]) ==> TranslateToken(b, chunks[i]) == chunks[i]
  }

  lemma {:induction false} TranslateChunksUnchanged(b: Backing, chunks: seq<string>)
    requires NoHits(b, chunks)
    ensures TranslateChunks(b, chunks) == Concat(chunks)
  {
    if chunks != [] {
      var front := chunks[..|chunks| - 1];
      var last := chunks[|chunks| - 1];
      assert NoHits(b, front) by {
        forall i | 0 <= i < |front| && IsWordChunk(front[i]) ensures TranslateToken(b, front[i]) == front[i] {
          assert front[i] == chunks[i];
        }
      }
      TranslateChunksUnchanged(b, front);
      assert chunks == front + [last];
      ConcatAppend(front, [last]);
      assert Concat([last]) == last;
    }
  }

  /**
   * Separators are preserved: when no letter run has a translation the
   * text comes back unchanged, and text without letters always does.
   */
  lemma TranslatedKeepsText(b: Backing, text: string)
    ensures NoHits(b, Tokenize(text)) ==> Translated(b, text) == text
    ensures HasNoLetter(text) ==> Translated(b, text) == text
  {
    TokenizeConcat(text);
    if NoHits(b, Tokenize(text)) {
      TranslateChunksUnchanged(b, Tokenize(text));
    }
    if HasNoLetter(text) {
      TokenizeLetterless(text);
      TranslateChunksUnchanged(b, Tokenize(text));
    }
  }

  /** The loop of `translateWordByWord` over the split text. */
  method TranslateLoop(b: Backing, chunks: seq<string>) returns (out: string)
    ensures out == TranslateChunks(b, chunks)
  {
    out := "";
    for i := 0 to |chunks|
      invariant out == TranslateChunks(b, chunks[..i])
    {
      assert chunks[..i + 1][..i] == chunks[..i];
      var chunk := chunks[i];
      if chunk == "" {
        assert TranslateChunk(b, chunk) == "";
        assert out == out + "";
        continue;
      }
      if IsWordChunk(chunk) {
        out := out + TranslateToken(b, chunk);
      } else {
        out := out + chunk;
      }
    }
    assert chunks[..|chunks|] == chunks;
  }

  /* ======================= the service ======================= */

  /** A catalogue row that names a StarDict release with a URL. */
  predicate Servable(row: Catalog.CatalogRow)
  {
    row.bestPlatform.GetOr("") == "stardict" && row.bestUrl.Some? && !Catalog.Falsy(row.bestUrl.value)
  }

  /** A cache changed at most at `pair`. */
  ghost predicate ChangesOnlyAt<V>(before: map<string, V>, after: map<string, V>, pair: string)
  {
    forall q | q != pair :: (q in after <==> q in before) && (q in before ==> after[q] == before[q])
  }

  /** The cache with `pair` set when there is a value for it, else as it was. */
  function Put<V>(m: map<string, V>, pair: string, v: Option<V>): map<string, V>
  {
    if v.Some? then m[pair := v.value] else m
  }

  /** A mapped pair has its `.dict` path and metadata; a library pair has its metadata. */
  predicate CachesAgree(
    skoro: map<string, Session>, maps: map<string, map<seq<Byte>, Span>>,
    dictPath: map<string, FS.Path>, meta: map<string, Meta>)
  {
    && (forall p | p in maps :: p in dictPath && p in meta)
    && (forall p | p in skoro :: p in meta)
  }

  /**
   * Recording a pair's metadata together with what opening its files gave
   * keeps the caches in agreement and touches no other pair.
   */
  lemma InstallKeepsAgreement(
    skoro: map<string, Session>, maps: map<string, map<seq<Byte>, Span>>,
    dictPath: map<string, FS.Path>, meta: map<string, Meta>,
    pair: string, m: Meta, got: Opened)
    requires CachesAgree(skoro, maps, dictPath, meta)
    requires got.index.Some? ==> got.dict.Some?
    ensures CachesAgree(Put(skoro, pair, got.session), Put(maps, pair, got.index), Put(dictPath, pair, got.dict), meta[pair := m])
    ensures ChangesOnlyAt(skoro, Put(skoro, pair, got.session), pair)
    ensures ChangesOnlyAt(maps, Put(maps, pair, got.index), pair)
    ensures ChangesOnlyAt(dictPath, Put(dictPath, pair, got.dict), pair)
    ensures ChangesOnlyAt(meta, meta[pair := m], pair)
  {
  }

  /** What opening a dictionary's files gave: an error, a session, a `.dict` path, an index map. */
  datatype Opened = Opened(
    error: Option<string>, session: Option<Session>,
    dict: Option<FS.Path>, index: Option<map<seq<Byte>, Span>>)

  /** What opening a library session gave: the session, or the message it threw. */
  function SessionOpened(s: Result<Session>): (o: Opened)
    ensures o.dict.None? && o.index.None?
    ensures s.Success? <==> o.session.Some?
    ensures o.error.None? <==> o.session.Some?
    ensures s.Success? ==> o.session.value == s.value
    ensures s.Failure? ==> o.error == Some(s.error)
  {
    if s.Failure? then Opened(Some(s.error), None, None, None) else Opened(None, Some(s.value), None, None)
  }

  /**
   * The second half of `ensurePairReady`, on the file tree, once the
   * metadata is known: for a library dictionary the `.idx` and any `.dict`
   * or `.dict.dz` are resolved and a session opened on them; otherwise the
   * `.idx` and a plain `.dict` are resolved and the index map is built from
   * the index file, the `.dict` path being kept even when that throws.
   * Returns what was opened and the tree left behind.
   */
  function OpenedOf(t: FS.Tree, m: Meta, ifo: FS.Path, inflate: seq<Byte> -> FS.Inflated, open: (FS.Path, FS.Path, FS.Path) -> Result<Session>)
    : (Opened, FS.Tree)
  {
    var base := FS.Dirname(ifo);
    var idx := FS.EnsureIdx(t, base, inflate);
    if idx.result.Failure? then (Opened(Some(idx.result.error), None, None, None), idx.tree)
    else if m.UsesLibrary() then
      var dictAny := FS.EnsureDict(idx.tree, base, false, inflate);
      if dictAny.result.Failure? then (Opened(Some(dictAny.result.error), None, None, None), dictAny.tree)
      else (SessionOpened(open(ifo, idx.result.value, dictAny.result.value)), dictAny.tree)
    else
      var dictPlain := FS.EnsureDict(idx.tree, base, true, inflate);
      var files := dictPlain.tree.files;
      if dictPlain.result.Failure? then (Opened(Some(dictPlain.result.error), None, None, None), dictPlain.tree)
      else if idx.result.value !in files then
        (Opened(Some("Cannot open " + idx.result.value), None, Some(dictPlain.result.value), None), dictPlain.tree)
      else (Opened(None, None, Some(dictPlain.result.value), Some(IndexMap(files[idx.result.value], m.bits))), dictPlain.tree)
  }

  /**
   * A library dictionary gets a session or an error and never a map; any
   * other gets a map or an error and never a session, and whenever it has a
   * map it has a `.dict` path, which names a file. The tree stays covered
   * by the walk and no file disappears.
   */
  lemma OpenedShape(t: FS.Tree, m: Meta, ifo: FS.Path, inflate: seq<Byte> -> FS.Inflated, open: (FS.Path, FS.Path, FS.Path) -> Result<Session>)
    requires FS.WalkCovers(t.files, t.walk)
    ensures var (o, t') := OpenedOf(t, m, ifo, inflate, open);
      && FS.WalkCovers(t'.files, t'.walk)
      && (forall p | p in t.files :: p in t'.files)
      && (m.UsesLibrary() ==> o.dict.None? && o.index.None? && (o.error.None? <==> o.session.Some?))
      && (!m.UsesLibrary() ==> o.session.None? && (o.error.None? <==> o.index.Some?))
      && (o.dict.Some? ==> o.dict.value in t'.files)
      && (o.index.Some? ==> o.dict.Some?)
  {
    var base := FS.Dirname(ifo);
    FS.EnsureIdxAgain(t, base, inflate);
    var idx := FS.EnsureIdx(t, base, inflate);
    var gz := FS.FindIn(t.walk, base, ".idx.gz");
    if FS.FindIn(t.walk, base, ".idx").None? && gz.Some? {
      FS.GunzipWrites(t, gz.value, FS.StripCompressedSuffix(gz.value), inflate);
    }
    if idx.result.Success? {
      FS.EnsureDictWrites(idx.tree, base, !m.UsesLibrary(), inflate);
    }
  }

  /**
   * A dictionary whose `.idx` and `.dict` already sit beside its `.ifo` is
   * opened without writing a file: a library dictionary gets a session on
   * exactly those files (a `.dict.dz` when there is no `.dict`), and any
   * other, when its `.dict` is plain, the map built from that `.idx` and
   * that `.dict` path.
   */
  lemma OpenedOfResolved(t: FS.Tree, m: Meta, ifo: FS.Path, inflate: seq<Byte> -> FS.Inflated, open: (FS.Path, FS.Path, FS.Path) -> Result<Session>, idx: FS.Path)
    requires FS.FindIn(t.walk, FS.Dirname(ifo), ".idx") == Some(idx) && idx in t.files
    ensures var base := FS.Dirname(ifo);
      var dict := FS.FindIn(t.walk, base, ".dict");
      var dz := FS.FindIn(t.walk, base, ".dict.dz");
      m.UsesLibrary() && (dict.Some? || dz.Some?) ==>
      OpenedOf(t, m, ifo, inflate, open) == (SessionOpened(open(ifo, idx, if dict.Some? then dict.value else dz.value)), t)
    ensures var dict := FS.FindIn(t.walk, FS.Dirname(ifo), ".dict");
      !m.UsesLibrary() && dict.Some? && !FS.IsGzipIn(t.files, dict.value) ==>
      OpenedOf(t, m, ifo, inflate, open) == (Opened(None, None, Some(dict.value), Some(IndexMap(t.files[idx], m.bits))), t)
  {
    FS.EnsureDictWithoutPlain(t, FS.Dirname(ifo), inflate);
  }

  /** What the caches of a pair hold once it was opened this way, over the tree left behind. */
  function BackingOfOpened(o: Opened, t: FS.Tree): Backing
  {
    Backing(o.session, if o.index.Some? && o.dict.Some? then Some((o.index.value, o.dict.value)) else None, t.files)
  }

  /** The caches of a pair that was not ready, once what opening it gave is installed, hold just that. */
  lemma InstalledBacking(
    skoro0: map<string, Session>, maps0: map<string, map<seq<Byte>, Span>>,
    skoro: map<string, Session>, maps: map<string, map<seq<Byte>, Span>>, dictPath: map<string, FS.Path>,
    pair: string, got: Opened)
    requires pair !in skoro0 && pair !in maps0 && (got.index.Some? ==> got.dict.Some?)
    requires skoro == Put(skoro0, pair, got.session) && maps == Put(maps0, pair, got.index)
    requires got.dict.Some? ==> pair in dictPath && dictPath[pair] == got.dict.value
    ensures (if pair in skoro then Some(skoro[pair]) else None) == got.session
    ensures (if pair in maps && pair in dictPath then Some((maps[pair], dictPath[pair])) else None)
      == if got.index.Some? && got.dict.Some? then Some((got.index.value, got.dict.value)) else None
  {
  }

  class StarDictLookup {
    /** The library session of each pair, for classic dictionaries. */
    var skoro: map<string, Session>
    /** The index map of each pair, for every other dictionary. */
    var maps: map<string, map<seq<Byte>, Span>>
    /** The plain `.dict` path of each mapped pair. */
    var dictPath: map<string, FS.Path>
    /** The `.ifo` metadata of each pair whose metadata has been read. */
    var meta: map<string, Meta>
    const svc: FS.FreeDictService
    /** The catalogue rows by name. */
    const catalog: map<string, Catalog.CatalogRow>

    /** The service sees a consistent file tree and the caches agree. */
    predicate Valid()
      reads this, svc
    {
      svc.Valid() && CachesAgree(skoro, maps, dictPath, meta)
    }

    constructor(svc0: FS.FreeDictService, catalog0: map<string, Catalog.CatalogRow>)
      requires svc0.Valid()
      ensures Valid()
      ensures svc == svc0 && catalog == catalog0
      ensures skoro == map[] && maps == map[] && dictPath == map[] && meta == map[]
    {
      svc := svc0;
      catalog := catalog0;
      skoro := map[];
      maps := map[];
      dictPath := map[];
      meta := map[];
    }

    /** A pair is ready once it has a library session or an index map. */
    predicate Ready(pair: string)
      reads this
    {
      pair in skoro || pair in maps
    }

    /** What the caches hold for a pair. */
    function BackingOf(pair: string): Backing
      reads this, svc
    {
      Backing(
        if pair in skoro then Some(skoro[pair]) else None,
        if pair in maps && pair in dictPath then Some((maps[pair], dictPath[pair])) else None,
        svc.files)
    }

    /**
     * `buildIndexMap($idxPath, $bits)`: the first span of every headword of
     * the index file; a file that cannot be opened throws.
     */
    method BuildIndexMap(idxPath: FS.Path, bits: int) returns (r: Result<map<seq<Byte>, Span>>)
      ensures idxPath !in svc.files ==> r == Failure("Cannot open " + idxPath)
      ensures idxPath in svc.files ==> r == Success(IndexMap(svc.files[idxPath], bits))
    {
      if idxPath !in svc.files {
        return Failure("Cannot open " + idxPath);
      }
      var m := BuildIndexMapOf(svc.files[idxPath], bits);
      return Success(m);
    }

    /**
     * `ensurePairReady($pair)`: nothing to do for a ready pair; otherwise
     * the catalogue row must name a StarDict release with a URL, the
     * dictionary is provisioned, its metadata recorded, and either a
     * library session is opened (2.4.2 with 32-bit offsets) or the index
     * map is built over the plain `.dict`. The error message says why it
     * threw.
     */
    method EnsurePairReady(
      pair: string,
      provision: (string, string) -> Result<FS.Path>,
      inflate: seq<Byte> -> FS.Inflated,
      open: (FS.Path, FS.Path, FS.Path) -> Result<Session>)
      returns (error: Option<string>)
      requires Valid()
      modifies this, svc
      ensures Valid()
      ensures old(Ready(pair)) ==> error.None? && unchanged(this) && unchanged(svc)
      ensures !old(Ready(pair)) && (pair !in catalog || !Servable(catalog[pair])) ==>
        error.Some? && unchanged(this) && unchanged(svc)
      ensures error.None? ==> Ready(pair)
      ensures ChangesOnlyAt(old(skoro), skoro, pair) && ChangesOnlyAt(old(maps), maps, pair)
      ensures ChangesOnlyAt(old(dictPath), dictPath, pair) && ChangesOnlyAt(old(meta), meta, pair)
      ensures !old(Ready(pair)) && error.None? ==>
        pair in meta && (pair in skoro <==> meta[pair].UsesLibrary()) && (pair in maps <==> !meta[pair].UsesLibrary())
      ensures !old(Ready(pair)) && pair in catalog && Servable(catalog[pair]) ==>
        var dir := provision(pair, catalog[pair].bestUrl.value);
        var t := old(svc.State());
        if dir.Failure? then error == Some(dir.error) && unchanged(this) && unchanged(svc)
        else if FS.FindIn(t.walk, dir.value, ".ifo").None? then
          error == Some("Missing .ifo for '" + pair + "'.") && unchanged(this) && unchanged(svc)
        else
          var ifo := FS.FindIn(t.walk, dir.value, ".ifo").value;
          var m := MetaOf(FS.IfoMap(FS.IfoEntries(FS.IfoLinesIn(t.files, ifo))), pair);
          var got := OpenedOf(t, m, ifo, inflate, open);
          && meta == old(meta)[pair := m]
          && skoro == Put(old(skoro), pair, got.0.session)
          && maps == Put(old(maps), pair, got.0.index)
          && dictPath == Put(old(dictPath), pair, got.0.dict)
          && error == got.0.error
          && svc.State() == got.1
    {
      if pair in skoro || pair in maps {
        return None;
      }
      if pair !in catalog || !Servable(catalog[pair]) {
        return Some("No StarDict release for '" + pair + "' (run: bin/console app:load).");
      }
      var dir := provision(pair, catalog[pair].bestUrl.value);
      if dir.Failure? {
        return Some(dir.error);
      }
      var ifo := svc.FindFirst(dir.value, ".ifo");
      if ifo.None? {
        return Some("Missing .ifo for '" + pair + "'.");
      }
      error := InstallPair(pair, ifo.value, inflate, open);
    }

    /**
     * The end of `ensurePairReady`, once the `.ifo` is found: its metadata
     * is recorded, even when opening the files then throws, and what
     * opening them gave is cached for the pair.
     */
    method InstallPair(
      pair: string, ifo: FS.Path,
      inflate: seq<Byte> -> FS.Inflated,
      open: (FS.Path, FS.Path, FS.Path) -> Result<Session>)
      returns (error: Option<string>)
      requires Valid() && !Ready(pair)
      modifies this, svc
      ensures Valid()
      ensures error.None? ==> pair in meta && (pair in skoro <==> meta[pair].UsesLibrary()) && (pair in maps <==> !meta[pair].UsesLibrary())
      ensures var m := MetaOf(FS.IfoMap(FS.IfoEntries(FS.IfoLinesIn(old(svc.files), ifo))), pair);
        var got := OpenedOf(old(svc.State()), m, ifo, inflate, open);
        && meta == old(meta)[pair := m]
        && skoro == Put(old(skoro), pair, got.0.session)
        && maps == Put(old(maps), pair, got.0.index)
        && dictPath == Put(old(dictPath), pair, got.0.dict)
        && error == got.0.error
        && svc.State() == got.1
    {
      var ifoData := svc.ParseIfo(ifo);
      var m := MetaOf(ifoData, pair);
      assert m == MetaOf(FS.IfoMap(FS.IfoEntries(FS.IfoLinesIn(old(svc.files), ifo))), pair);
      ghost var spec := OpenedOf(svc.State(), m, ifo, inflate, open);
      var got := OpenBacking(m, ifo, inflate, open);
      assert got == spec.0 && svc.State() == spec.1;
      InstallKeepsAgreement(skoro, maps, dictPath, meta, pair, m, got);
      meta := meta[pair := m];
      dictPath := Put(dictPath, pair, got.dict);
      skoro := Put(skoro, pair, got.session);
      maps := Put(maps, pair, got.index);
      return got.error;
    }

    /**
     * The second half of `ensurePairReady`, once the metadata is known:
     * for a library dictionary the `.idx` and any `.dict` or `.dict.dz`
     * are located and a session opened on them, which may throw; otherwise
     * the `.idx` and a plain `.dict` are located and the index map built.
     * The `.dict` path is kept even when building the map then throws.
     */
    method OpenBacking(m: Meta, ifo: FS.Path, inflate: seq<Byte> -> FS.Inflated, open: (FS.Path, FS.Path, FS.Path) -> Result<Session>)
      returns (o: Opened)
      requires svc.Valid()
      modifies svc
      ensures svc.Valid()
      ensures o == OpenedOf(old(svc.State()), m, ifo, inflate, open).0
      ensures m.UsesLibrary() ==> o.dict.None? && o.index.None? && (o.error.None? <==> o.session.Some?)
      ensures !m.UsesLibrary() ==> o.session.None? && (o.error.None? <==> o.index.Some?) && (o.index.Some? ==> o.dict.Some?)
      ensures svc.State() == OpenedOf(old(svc.State()), m, ifo, inflate, open).1
    {
      var base := FS.Dirname(ifo);
      var idx := svc.EnsureIdxPath(base, inflate);
      if idx.Failure? {
        return Opened(Some(idx.error), None, None, None);
      }
      if m.UsesLibrary() {
        // the library reads a compressed `.dict.dz` itself
        var dictAny := svc.EnsureDictPath(base, false, inflate);
        if dictAny.Failure? {
          return Opened(Some(dictAny.error), None, None, None);
        }
        var session := open(ifo, idx.value, dictAny.value);
        if session.Failure? {
          return Opened(Some(session.error), None, None, None);
        }
        return Opened(None, Some(session.value), None, None);
      }
      var dictPlain := svc.EnsureDictPath(base, true, inflate);
      if dictPlain.Failure? {
        return Opened(Some(dictPlain.error), None, None, None);
      }
      var built := BuildIndexMap(idx.value, m.bits);
      if built.Failure? {
        return Opened(Some(built.error), None, Some(dictPlain.value), None);
      }
      return Opened(None, None, Some(dictPlain.value), Some(built.value));
    }

    /**
     * `translateWordByWord($src, $dst, $text)`: prepares the pair `src-dst`
     * (its error propagates), then rebuilds the text from its pieces with
     * every letter run translated.
     */
    method TranslateWordByWord(
      src: string, dst: string, text: string,
      provision: (string, string) -> Result<FS.Path>,
      inflate: seq<Byte> -> FS.Inflated,
      open: (FS.Path, FS.Path, FS.Path) -> Result<Session>)
      returns (r: Result<string>)
      requires Valid()
      modifies this, svc
      ensures Valid()
      ensures old(Ready(src + "-" + dst)) ==> r.Success? && unchanged(this) && unchanged(svc)
      ensures r.Success? ==> Ready(src + "-" + dst) && r.value == Translated(BackingOf(src + "-" + dst), text)
      ensures var pair := src + "-" + dst;
        !old(Ready(pair)) && pair in catalog && Servable(catalog[pair]) ==>
        var dir := provision(pair, catalog[pair].bestUrl.value);
        var t := old(svc.State());
        dir.Success? && FS.FindIn(t.walk, dir.value, ".ifo").Some? ==>
          var ifo := FS.FindIn(t.walk, dir.value, ".ifo").value;
          var got := OpenedOf(t, MetaOf(FS.IfoMap(FS.IfoEntries(FS.IfoLinesIn(t.files, ifo))), pair), ifo, inflate, open);
          r == (if got.0.error.Some? then Failure(got.0.error.value) else Success(Translated(BackingOfOpened(got.0, got.1), text)))
    {
      var pair := src + "-" + dst;
      ghost var wasReady, sk, mp := Ready(pair), skoro, maps;
      var error := EnsurePairReady(pair, provision, inflate, open);
      if error.Some? {
        return Failure(error.value);
      }
      if !wasReady && pair in catalog && Servable(catalog[pair]) {
        var dir := provision(pair, catalog[pair].bestUrl.value);
        var t := old(svc.State());
        if dir.Success? && FS.FindIn(t.walk, dir.value, ".ifo").Some? {
          var ifo := FS.FindIn(t.walk, dir.value, ".ifo").value;
          var got := OpenedOf(t, MetaOf(FS.IfoMap(FS.IfoEntries(FS.IfoLinesIn(t.files, ifo))), pair), ifo, inflate, open);
          OpenedShape(t, MetaOf(FS.IfoMap(FS.IfoEntries(FS.IfoLinesIn(t.files, ifo))), pair), ifo, inflate, open);
          InstalledBacking(sk, mp, skoro, maps, dictPath, pair, got.0);
          assert BackingOf(pair) == BackingOfOpened(got.0, got.1);
        }
      }
      var out := TranslateLoop(BackingOf(pair), Tokenize(text));
      return Success(out);
    }
  }
}
