/**
 * `TeiImportService::importTei`: a FreeDict TEI dictionary, already read as
 * a sequence of extracted entries, becomes upserts on the lexical graph.
 * Each entry with a headword gives a source-language lemma, its ranked
 * senses, and, for every translation quote, a target-language lemma and a
 * translation edge unless that edge already exists.
 */
module TeiImport {
  import opened Wrappers
  import opened Text
  import opened Json
  import opened LexicalGraph
  import FS = FreeDictService
  import Catalog = FreeDictCatalog

  /**
   * One `<entry>` as the XPath queries see it: the text content of the first
   * `form/orth`, `gramGrp/pos` and `gramGrp/gen` (None when there is no such
   * node), and of every `sense/def | sense/gloss` and every translation
   * `cit//quote`, in document order.
   */
  datatype Entry = Entry(
    orth: Option<string>,
    pos: Option<string>,
    gen: Option<string>,
    glosses: seq<string>,
    quotes: seq<string>)

  /* ---------------- helpers: text, clean, shortGender ---------------- */

  /** `text()`: the first node's content, trimmed. */
  function FirstText(node: Option<string>): Option<string>
  {
    if node.Some? then Some(Trim(node.value)) else None
  }

  /** The headword, `text(...) ?? ''`. */
  function Orth(e: Entry): string
  {
    FirstText(e.orth).GetOr("")
  }

  /** `clean()`: white space runs become one space, then the ends are trimmed. */
  function Clean(s: string): string
  {
    Trim(CollapseSpaces(s))
  }

  /** A cleaned gloss has no doubled or non-space white space and no white space at its ends. */
  lemma CleanForm(s: string)
    ensures SpacesCollapsed(Clean(s))
    ensures Clean(s) != [] ==> !IsTrimmable(Clean(s)[0]) && !IsTrimmable(Clean(s)[|Clean(s)| - 1])
  {
    TrimInfix(CollapseSpaces(s));
    CleanCollapsed(s);
  }

  lemma CleanCollapsed(s: string)
    ensures SpacesCollapsed(Clean(s))
  {
    var c := CollapseSpaces(s);
    CollapseSpacesCollapses(s);
    TrimSlice(c);
    var k := TrimStart(c);
    SpacesCollapsedInfix(c, k, k + |Trim(c)|);
    assert Clean(s) == Trim(c) == c[k..k + |Trim(c)|];
  }

  /** Cleaning a cleaned gloss changes nothing. */
  lemma CleanIdempotent(s: string)
    ensures Clean(Clean(s)) == Clean(s)
  {
    var t := Clean(s);
    CleanForm(s);
    CollapseSpacesKeepsCollapsed(t);
    TrimKeepsUntrimmed(t);
  }

  /** The `match` of `shortGender()`, on the normalised text. */
  function GenderCode(v: string): Option<string>
  {
    if v == "masculine" || v == "m" then Some("m")
    else if v == "feminine" || v == "f" then Some("f")
    else if v == "neuter" || v == "n" then Some("n")
    else None
  }

  /** `shortGender()`: a given gender, trimmed and lower-cased, as m, f or n. */
  function ShortGender(g: Option<string>): Option<string>
  {
    if !Given(g) then None else GenderCode(Lower(Trim(g.value)))
  }

  /** Lower-casing keeps characters that trim removes, and no others become such. */
  lemma LowerCharTrimmable(c: char)
    ensures IsTrimmable(LowerChar(c)) <==> IsTrimmable(c)
  {
  }

  lemma LowerUnchanged(s: string)
    requires forall i | 0 <= i < |s| :: LowerChar(s[i]) == s[i]
    ensures Lower(s) == s
  {
  }

  lemma LowerZero()
    ensures Lower("0") == "0"
  {
    var z := "0";
    assert z[0] == '0' && LowerChar('0') == '0';
    LowerUnchanged(z);
  }

  lemma LowerIdempotent(s: string)
    ensures Lower(Lower(s)) == Lower(s)
  {
    forall i | 0 <= i < |s| ensures Lower(Lower(s))[i] == Lower(s)[i] {
      LowerCharIdempotent(s[i]);
    }
  }

  /** A trimmed, lower-cased text is its own trimmed, lower-cased form. */
  lemma GenderNormalForm(s: string)
    ensures Lower(Trim(Lower(Trim(s)))) == Lower(Trim(s))
  {
    var t := Trim(s);
    var v := Lower(t);
    TrimInfix(s);
    if v != [] {
      LowerCharTrimmable(t[0]);
      LowerCharTrimmable(t[|t| - 1]);
    }
    TrimKeepsUntrimmed(v);
    LowerIdempotent(t);
  }

  /**
   * shortGender yields only m, f, n or nothing, and neither case nor
   * surrounding white space changes its answer.
   */
  lemma ShortGenderForms(s: string)
    ensures ShortGender(Some(s)) in {None, Some("m"), Some("f"), Some("n")}
    ensures ShortGender(Some(s)) == ShortGender(Some(Lower(Trim(s))))
  {
    if Given(Some(s)) {
      GivenGenderStable(s);
      GenderCodeRange(Lower(Trim(s)));
    } else {
      UngivenGenderStable(s);
    }
  }

  lemma GenderCodeRange(v: string)
    ensures GenderCode(v) in {None, Some("m"), Some("f"), Some("n")}
  {
  }

  lemma GenderCodeOfFalsy(v: string)
    requires v == "" || v == "0"
    ensures GenderCode(v) == None
  {
  }

  lemma GivenGenderStable(s: string)
    requires Given(Some(s))
    ensures ShortGender(Some(s)) == ShortGender(Some(Lower(Trim(s))))
  {
    var v := Lower(Trim(s));
    GenderNormalForm(s);
    assert ShortGender(Some(s)) == GenderCode(v);
    if Given(Some(v)) {
      assert ShortGender(Some(v)) == GenderCode(Lower(Trim(v)));
    } else {
      GenderCodeOfFalsy(v);
    }
  }

  lemma UngivenGenderStable(s: string)
    requires !Given(Some(s))
    ensures ShortGender(Some(s)) == None == ShortGender(Some(Lower(Trim(s))))
  {
    assert s == "" || s == "0";
    TrimKeepsUntrimmed(s);
    if s == "0" {
      LowerZero();
    }
    assert Lower(Trim(s)) == s;
  }

  /* ---------------- pickTeiUrl ---------------- */

  /** `$catalog->raw['releases'] ?? []`. */
  function ReleasesOf(catalog: Catalog.CatalogRow): Json
  {
    if catalog.raw.None? then JList([])
    else
      var r := Get(catalog.raw.value, "releases");
      if r == JNull then JList([]) else r
  }

  /** The message of the `TypeError` that `array_filter` throws on a value that is not an array. */
  const NotAList := "array_filter(): " + "Argument #1 ($array) must be of type array"

  /**
   * `pickTeiUrl()`: the URL of the latest-dated release on platform tei,
   * else on src, else two empty strings; `array_filter` throws on a
   * `releases` value that is not an array.
   */
  function PickTeiUrl(catalog: Catalog.CatalogRow): Result<(string, string)>
  {
    var releases := ReleasesOf(catalog);
    if !releases.IsArray() then Failure(NotAList)
    else
      var rs := Elements(releases);
      var tei := FS.OnPlatform(rs, "tei");
      if tei != [] then Success((ToStr(Get(tei[FS.LatestIndex(FS.Dates(tei))], "URL")), "tei"))
      else
        var src := FS.OnPlatform(rs, "src");
        if src != [] then Success((ToStr(Get(src[FS.LatestIndex(FS.Dates(src))], "URL")), "src"))
        else Success(("", ""))
  }

  /** The release LatestIndex picks carries a date no other release on its platform exceeds. */
  lemma LatestRelease(c: seq<Json>)
    requires c != []
    ensures var k := FS.LatestIndex(FS.Dates(c));
      k < |c| && forall j | 0 <= j < |c| :: !LexLess(FS.DateOf(c[k]), FS.DateOf(c[j]))
  {
    FS.LatestIndexIsLatest(FS.Dates(c));
  }

  /**
   * pickTeiUrl prefers tei to src and gives ("", "") only when neither
   * platform has a release; the URL it gives belongs to a release on the
   * chosen platform that no other release there postdates.
   */
  lemma PickTeiUrlPrefers(catalog: Catalog.CatalogRow)
    ensures PickTeiUrl(catalog).Failure? <==> !ReleasesOf(catalog).IsArray()
    ensures PickTeiUrl(catalog).Failure? ==> PickTeiUrl(catalog).error == NotAList
    ensures PickTeiUrl(catalog).Success? ==>
      var (url, platform) := PickTeiUrl(catalog).value;
      var rs := Elements(ReleasesOf(catalog));
      (platform == "tei" <==> FS.OnPlatform(rs, "tei") != [])
      && (platform == "src" <==> FS.OnPlatform(rs, "tei") == [] && FS.OnPlatform(rs, "src") != [])
      && (platform == "" ==> url == "")
      && (platform != "" ==>
            var c := FS.OnPlatform(rs, platform);
            exists i | 0 <= i < |c| :: url == ToStr(Get(c[i], "URL"))
              && forall j | 0 <= j < |c| :: !LexLess(FS.DateOf(c[i]), FS.DateOf(c[j])))
  {
    var releases := ReleasesOf(catalog);
    if releases.IsArray() {
      var rs := Elements(releases);
      var tei := FS.OnPlatform(rs, "tei");
      var src := FS.OnPlatform(rs, "src");
      if tei != [] {
        LatestRelease(tei);
      } else if src != [] {
        LatestRelease(src);
      }
    }
  }

  /* ---------------- the pair's dictionary row ---------------- */

  function HasName(name: string): Dictionary -> bool
  {
    (d: Dictionary) => d.name == name
  }

  /**
   * The dictionary found by name or created, with its name, languages,
   * edition and release version set; the TEI URL is set only after the
   * URL check.
   */
  function PutDictionary(ds: seq<Dictionary>, name: string, src: nat, dst: nat): (r: (seq<Dictionary>, nat))
    ensures r.1 < |r.0| && r.0[r.1].name == name && r.0[r.1].teiUrl == (if r.1 < |ds| then ds[r.1].teiUrl else None)
  {
    match IndexWhere(ds, HasName(name))
    case Some(i) => (ds[i := ds[i].(name := name, src := src, dst := dst, edition := None, releaseVersion := None)], i)
    case None => (ds + [Dictionary(name, src, dst, None, None, None, None)], |ds|)
  }

  /**
   * At most one row per name: the row for the name is reused when there is
   * one, and no other row changes.
   */
  lemma PutDictionaryKeepsNames(ds: seq<Dictionary>, name: string, src: nat, dst: nat)
    requires DictionaryNamesUnique(ds)
    ensures var (ds', k) := PutDictionary(ds, name, src, dst);
      DictionaryNamesUnique(ds') && k < |ds'| && |ds| <= |ds'| <= |ds| + 1
      && ds'[k].name == name && ds'[k].src == src && ds'[k].dst == dst
      && ds'[k].edition.None? && ds'[k].releaseVersion.None?
      && (k < |ds| <==> exists i | 0 <= i < |ds| :: ds[i].name == name)
      && (forall i | 0 <= i < |ds| && i != k :: ds'[i] == ds[i])
  {
    var found := IndexWhere(ds, HasName(name));
    if found.Some? {
      assert HasName(name)(ds[found.value]);
    }
  }

  /* ---------------- truncate ---------------- */

  /** The edges the truncate statement deletes: from a lemma of src to a lemma of dst. */
  predicate InPair(ms: seq<Lemma>, e: Translation, src: nat, dst: nat)
  {
    e.src < |ms| && e.dst < |ms| && ms[e.src].language == src && ms[e.dst].language == dst
  }

  /** The edges left by the truncate statement, in their order. */
  function Truncated(ms: seq<Lemma>, es: seq<Translation>, src: nat, dst: nat): (r: seq<Translation>)
    ensures |r| <= |es|
    ensures forall e | e in r :: e in es && !InPair(ms, e, src, dst)
    ensures forall e | e in es && !InPair(ms, e, src, dst) :: e in r
  {
    if es == [] then []
    else if InPair(ms, es[0], src, dst) then Truncated(ms, es[1..], src, dst)
    else [es[0]] + Truncated(ms, es[1..], src, dst)
  }

  /** Truncation keeps the (src, dst) pairs unique. */
  lemma {:induction false} TruncatedKeepsKeys(ms: seq<Lemma>, es: seq<Translation>, src: nat, dst: nat)
    requires EdgeKeysUnique(es)
    ensures EdgeKeysUnique(Truncated(ms, es, src, dst))
  {
    if es != [] {
      var rest := es[1..];
      assert EdgeKeysUnique(rest) by {
        forall i, j | 0 <= i < j < |rest| ensures rest[i].src != rest[j].src || rest[i].dst != rest[j].dst {
          assert rest[i] == es[i + 1] && rest[j] == es[j + 1];
        }
      }
      TruncatedKeepsKeys(ms, rest, src, dst);
      var t := Truncated(ms, rest, src, dst);
      if !InPair(ms, es[0], src, dst) {
        forall j | 0 <= j < |t| ensures es[0].src != t[j].src || es[0].dst != t[j].dst {
          assert t[j] in rest;
          var k :| 0 <= k < |rest| && rest[k] == t[j];
          assert es[k + 1] == t[j];
        }
      }
    }
  }

  /* ---------------- one entry ---------------- */

  /** A gloss as stored: the node text trimmed by `texts()`, then cleaned. */
  function Gloss(raw: string): string
  {
    Clean(Trim(raw))
  }

  /** The glosses of an entry as stored, in document order. */
  function Glosses(raw: seq<string>): (gs: seq<string>)
    ensures |gs| == |raw|
  {
    if raw == [] then [] else Glosses(raw[..|raw| - 1]) + [Gloss(raw[|raw| - 1])]
  }

  /** The senses the gloss loop persists, one per stored gloss with the running rank. */
  function SensesFor(lemmaId: nat, glosses: seq<string>): (ss: seq<Sense>)
    ensures |ss| == |glosses|
  {
    if glosses == [] then []
    else SensesFor(lemmaId, glosses[..|glosses| - 1]) + [Sense(lemmaId, Some(glosses[|glosses| - 1]), Some(|glosses|))]
  }

  /** The i-th sense of an entry holds its i-th gloss with rank i + 1. */
  lemma {:induction false} SensesForAt(lemmaId: nat, glosses: seq<string>, i: nat)
    requires i < |glosses|
    ensures SensesFor(lemmaId, glosses)[i] == Sense(lemmaId, Some(glosses[i]), Some(i + 1))
  {
    var front := glosses[..|glosses| - 1];
    if i < |front| {
      SensesForAt(lemmaId, front, i);
      assert front[i] == glosses[i];
    }
  }

  /** The lemma and edge tables while the quotes of an entry are processed, and the next edge rank. */
  datatype QuoteState = QuoteState(lemmas: seq<Lemma>, edges: seq<Translation>, next: int)

  /** The quote word: `texts()` trims, and the loop trims again. */
  function QuoteWord(quote: string): string
  {
    Trim(Trim(quote))
  }

  function QuoteWords(quotes: seq<string>): (ws: seq<string>)
    ensures |ws| == |quotes|
  {
    if quotes == [] then [] else QuoteWords(quotes[..|quotes| - 1]) + [QuoteWord(quotes[|quotes| - 1])]
  }

  /** One quote word: upsert its target lemma, then add the edge unless it exists; the rank advances only on an added edge. */
  function QuoteStep(st: QuoteState, lemmaId: nat, dst: nat, tw: string): QuoteState
  {
    if tw == "" then st
    else
      var (ms, tid) := UpsertLemma(st.lemmas, dst, tw, None, None, None);
      var (es, added) := AddEdge(st.edges, lemmaId, tid, Some(st.next));
      QuoteState(ms, es, if added then st.next + 1 else st.next)
  }

  /** The quotes loop over the quote words, from state st. */
  function Quotes(st: QuoteState, lemmaId: nat, dst: nat, words: seq<string>): QuoteState
  {
    if words == [] then st
    else QuoteStep(Quotes(st, lemmaId, dst, words[..|words| - 1]), lemmaId, dst, words[|words| - 1])
  }

  /** An entry's values as the loop computes them before any write. */
  datatype Fields = Fields(
    head: string, pos: Option<string>, gender: Option<string>, glosses: seq<string>, words: seq<string>)

  /** `text()`, `shortGender()`, `texts()` with `clean()`, and `texts()` with `trim()`, on one entry. */
  function Extract(e: Entry): Fields
  {
    Fields(Orth(e), FirstText(e.pos), ShortGender(FirstText(e.gen)), Glosses(e.glosses), QuoteWords(e.quotes))
  }

  /** Every entry of the stream, extracted. */
  function ExtractAll(entries: seq<Entry>): (fs: seq<Fields>)
    ensures |fs| == |entries|
  {
    if entries == [] then [] else ExtractAll(entries[..|entries| - 1]) + [Extract(entries[|entries| - 1])]
  }

  /** The graph after one entry: its lemma upserted, its senses appended, then its quote words folded in. */
  function AddEntry(g: Graph, src: nat, dst: nat, f: Fields): Graph
  {
    var (ms, lid) := UpsertLemma(g.lemmas, src, f.head, f.pos, f.gender, None);
    var q := Quotes(QuoteState(ms, g.edges, 1), lid, dst, f.words);
    g.(lemmas := q.lemmas, senses := g.senses + SensesFor(lid, f.glosses), edges := q.edges)
  }

  /** Lemma keys and the lemmas' languages, as a quote step leaves them. */
  predicate LemmaKeysKept(ms: seq<Lemma>, ms': seq<Lemma>)
  {
    |ms| <= |ms'| && forall i | 0 <= i < |ms| :: SameLemmaKey(ms[i], ms'[i]) && ms'[i].norm == ms[i].norm
  }

  /** What a quote step preserves: unique keys, existing lemma keys, existing edges, references in range. */
  predicate QuoteInvariant(st: QuoteState, langs: nat)
  {
    LemmaKeysUnique(st.lemmas) && EdgeKeysUnique(st.edges)
    && (forall i | 0 <= i < |st.lemmas| :: st.lemmas[i].language < langs)
    && (forall i | 0 <= i < |st.edges| :: st.edges[i].src < |st.lemmas| && st.edges[i].dst < |st.lemmas|)
  }

  /** upsert leaves the key and normal form of every existing lemma as they were. */
  lemma UpsertKeepsOldKeys(
    ms: seq<Lemma>, lang: nat, head: string, pos: Option<string>,
    gender: Option<string>, features: Option<Json>)
    ensures LemmaKeysKept(ms, UpsertLemma(ms, lang, head, pos, gender, features).0)
  {
    var ms' := UpsertLemma(ms, lang, head, pos, gender, features).0;
    var found := IndexWhere(ms, HasLemmaKey(lang, head, pos));
    if found.Some? {
      assert ms' == ms[found.value := ms[found.value].(gender := gender, features := features)];
    } else {
      assert ms' == ms + [Lemma(lang, head, Normalize(head), pos, gender, features)];
    }
  }

  /** A quote step keeps keys unique and references in range, and existing lemmas keep their keys. */
  lemma QuoteStepKeeps(st: QuoteState, lemmaId: nat, dst: nat, tw: string, langs: nat)
    requires QuoteInvariant(st, langs) && lemmaId < |st.lemmas| && dst < langs
    ensures var st' := QuoteStep(st, lemmaId, dst, tw);
      QuoteInvariant(st', langs) && LemmaKeysKept(st.lemmas, st'.lemmas)
  {
    if tw != "" {
      UpsertKeepsKeys(st.lemmas, dst, tw, None, None, None);
      UpsertKeepsOldKeys(st.lemmas, dst, tw, None, None, None);
      var (ms, tid) := UpsertLemma(st.lemmas, dst, tw, None, None, None);
      AddEdgeKeepsKeys(st.edges, lemmaId, tid, Some(st.next));
      assert forall i | 0 <= i < |st.lemmas| :: ms[i].language < langs;
    }
  }

  /**
   * A quote step only ever appends one edge, from the entry's lemma to a
   * target-language lemma, ranked with the current rank, and then the rank
   * advances.
   */
  lemma QuoteStepAppends(st: QuoteState, lemmaId: nat, dst: nat, tw: string)
    requires LemmaKeysUnique(st.lemmas) && EdgeKeysUnique(st.edges)
    ensures var st' := QuoteStep(st, lemmaId, dst, tw);
      |st.edges| <= |st'.edges| <= |st.edges| + 1 && st'.edges[..|st.edges|] == st.edges
      && st'.next == st.next + |st'.edges| - |st.edges|
      && (|st'.edges| > |st.edges| ==>
            var e := st'.edges[|st.edges|];
            e.src == lemmaId && e.rank == Some(st.next) && e.dst < |st'.lemmas| && st'.lemmas[e.dst].language == dst)
  {
    if tw != "" {
      UpsertKeepsKeys(st.lemmas, dst, tw, None, None, None);
      var (ms, tid) := UpsertLemma(st.lemmas, dst, tw, None, None, None);
      AddEdgeKeepsKeys(st.edges, lemmaId, tid, Some(st.next));
      var (es, added) := AddEdge(st.edges, lemmaId, tid, Some(st.next));
      assert es[..|st.edges|] == st.edges;
    } else {
      assert st.edges[..|st.edges|] == st.edges;
    }
  }

  /**
   * After a quote step with a non-empty quote word, an edge leads from the
   * entry's lemma to a target-language lemma with that headword and no pos,
   * whether the step added it or found it.
   */
  lemma QuoteStepLinks(st: QuoteState, lemmaId: nat, dst: nat, tw: string)
    requires LemmaKeysUnique(st.lemmas) && EdgeKeysUnique(st.edges) && tw != ""
    ensures var st' := QuoteStep(st, lemmaId, dst, tw);
      exists k | 0 <= k < |st'.edges| :: Links(st', k, lemmaId, dst, tw)
  {
    UpsertKeepsKeys(st.lemmas, dst, tw, None, None, None);
    var (ms, tid) := UpsertLemma(st.lemmas, dst, tw, None, None, None);
    AddEdgeKeepsKeys(st.edges, lemmaId, tid, Some(st.next));
    var (es, added) := AddEdge(st.edges, lemmaId, tid, Some(st.next));
    var st' := QuoteStep(st, lemmaId, dst, tw);
    if added {
      assert Links(st', |st.edges|, lemmaId, dst, tw);
    } else {
      var k :| 0 <= k < |st.edges| && st.edges[k].src == lemmaId && st.edges[k].dst == tid;
      assert Links(st', k, lemmaId, dst, tw);
    }
  }

  /** Edge k leads from the lemma to a lemma of language dst with headword w and no pos. */
  predicate Links(st: QuoteState, k: nat, lemmaId: nat, dst: nat, w: string)
  {
    k < |st.edges| && st.edges[k].src == lemmaId && st.edges[k].dst < |st.lemmas|
    && st.lemmas[st.edges[k].dst].language == dst
    && st.lemmas[st.edges[k].dst].headword == w
    && st.lemmas[st.edges[k].dst].pos.None?
  }

  /** A later state keeps the edges and lemma keys of an earlier one. */
  predicate Extends(st: QuoteState, st': QuoteState)
  {
    |st.edges| <= |st'.edges| && st'.edges[..|st.edges|] == st.edges && LemmaKeysKept(st.lemmas, st'.lemmas)
  }

  lemma ExtendsTransitive(a: QuoteState, b: QuoteState, c: QuoteState)
    requires Extends(a, b) && Extends(b, c)
    ensures Extends(a, c)
  {
    assert c.edges[..|a.edges|] == c.edges[..|b.edges|][..|a.edges|];
  }

  /** A link survives into any state that extends the one it was made in. */
  lemma LinksKept(st: QuoteState, st': QuoteState, k: nat, lemmaId: nat, dst: nat, w: string)
    requires Links(st, k, lemmaId, dst, w) && Extends(st, st')
    ensures Links(st', k, lemmaId, dst, w)
  {
    assert st'.edges[k] == st'.edges[..|st.edges|][k];
  }

  /** The edges added after `base` run from the lemma, ranked base.next, base.next + 1, ... with the rank counter just past them. */
  predicate Numbered(base: QuoteState, st: QuoteState, lemmaId: nat, dst: nat)
  {
    |base.edges| <= |st.edges| && st.next == base.next + |st.edges| - |base.edges|
    && forall k | |base.edges| <= k < |st.edges| ::
         st.edges[k].src == lemmaId && st.edges[k].rank == Some(base.next + k - |base.edges|)
         && st.edges[k].dst < |st.lemmas| && st.lemmas[st.edges[k].dst].language == dst
  }

  /**
   * The quotes loop keeps keys unique and references in range, extends the
   * tables it started from, and numbers the edges it adds consecutively
   * from the starting rank, each from the entry's lemma to a lemma of the
   * target language.
   */
  lemma {:induction false} QuotesKeep(st: QuoteState, lemmaId: nat, dst: nat, words: seq<string>, langs: nat)
    requires QuoteInvariant(st, langs) && lemmaId < |st.lemmas| && dst < langs
    ensures var r := Quotes(st, lemmaId, dst, words);
      QuoteInvariant(r, langs) && Extends(st, r) && Numbered(st, r, lemmaId, dst)
  {
    if words == [] {
      assert st.edges[..|st.edges|] == st.edges;
    } else {
      var front := words[..|words| - 1];
      QuotesKeep(st, lemmaId, dst, front, langs);
      var m := Quotes(st, lemmaId, dst, front);
      var q := words[|words| - 1];
      QuoteStepKeeps(m, lemmaId, dst, q, langs);
      QuoteStepAppends(m, lemmaId, dst, q);
      var r := QuoteStep(m, lemmaId, dst, q);
      ExtendsTransitive(st, m, r);
      forall k | |st.edges| <= k < |r.edges|
        ensures r.edges[k].src == lemmaId && r.edges[k].rank == Some(st.next + k - |st.edges|)
        ensures r.edges[k].dst < |r.lemmas| && r.lemmas[r.edges[k].dst].language == dst
      {
        if k < |m.edges| {
          assert r.edges[k] == r.edges[..|m.edges|][k] == m.edges[k];
          assert m.edges[k].rank == Some(st.next + k - |st.edges|);
          var d := m.edges[k].dst;
          assert SameLemmaKey(m.lemmas[d], r.lemmas[d]);
        } else {
          assert k == |m.edges| && m.next == st.next + k - |st.edges|;
          assert r.edges[k].rank == Some(m.next);
        }
      }
    }
  }

  /**
   * Every quote with a non-empty word ends up linked: an edge leads from the
   * entry's lemma to a lemma of the target language with that word as
   * headword and no pos.
   */
  lemma {:induction false} QuotesLink(st: QuoteState, lemmaId: nat, dst: nat, words: seq<string>, langs: nat)
    requires QuoteInvariant(st, langs) && lemmaId < |st.lemmas| && dst < langs
    ensures var r := Quotes(st, lemmaId, dst, words);
      forall i | 0 <= i < |words| && words[i] != "" ::
        exists k | 0 <= k < |r.edges| :: Links(r, k, lemmaId, dst, words[i])
  {
    if words != [] {
      var front := words[..|words| - 1];
      QuotesLink(st, lemmaId, dst, front, langs);
      var m := Quotes(st, lemmaId, dst, front);
      assert LemmaKeysUnique(m.lemmas) && EdgeKeysUnique(m.edges) by {
        QuotesKeep(st, lemmaId, dst, front, langs);
      }
      var q := words[|words| - 1];
      QuoteStepExtends(m, lemmaId, dst, q);
      var r := QuoteStep(m, lemmaId, dst, q);
      assert r == Quotes(st, lemmaId, dst, words);
      forall i | 0 <= i < |words| && words[i] != ""
        ensures exists k | 0 <= k < |r.edges| :: Links(r, k, lemmaId, dst, words[i])
      {
        if i < |front| {
          assert words[i] == front[i];
          var k :| 0 <= k < |m.edges| && Links(m, k, lemmaId, dst, front[i]);
          LinksKept(m, r, k, lemmaId, dst, words[i]);
        } else {
          assert words[i] == q;
          QuoteStepLinks(m, lemmaId, dst, q);
        }
      }
    }
  }

  /** A quote step extends the state it starts from. */
  lemma QuoteStepExtends(st: QuoteState, lemmaId: nat, dst: nat, tw: string)
    requires LemmaKeysUnique(st.lemmas) && EdgeKeysUnique(st.edges)
    ensures Extends(st, QuoteStep(st, lemmaId, dst, tw))
  {
    if tw != "" {
      UpsertKeepsOldKeys(st.lemmas, dst, tw, None, None, None);
      var (ms, tid) := UpsertLemma(st.lemmas, dst, tw, None, None, None);
      AddEdgeKeepsKeys(st.edges, lemmaId, tid, Some(st.next));
      var (es, added) := AddEdge(st.edges, lemmaId, tid, Some(st.next));
      assert es[..|st.edges|] == st.edges;
    } else {
      assert st.edges[..|st.edges|] == st.edges;
    }
  }

  /* ---------------- the graph after one entry ---------------- */

  /** The id of the entry's own lemma, as `upsert` returns it. */
  function EntryLemmaId(g: Graph, src: nat, f: Fields): nat
  {
    UpsertLemma(g.lemmas, src, f.head, f.pos, f.gender, None).1
  }

  /**
   * One entry keeps the graph valid, touches neither languages nor
   * dictionaries, keeps every existing lemma's key and every existing edge.
   */
  lemma EntryKeepsValid(g: Graph, src: nat, dst: nat, f: Fields)
    requires g.Valid() && src < |g.languages| && dst < |g.languages|
    ensures var g' := AddEntry(g, src, dst, f);
      g'.Valid() && g'.languages == g.languages && g'.dictionaries == g.dictionaries
      && LemmaKeysKept(g.lemmas, g'.lemmas) && |g.edges| <= |g'.edges| && g'.edges[..|g.edges|] == g.edges
  {
    UpsertKeepsKeys(g.lemmas, src, f.head, f.pos, f.gender, None);
    UpsertKeepsOldKeys(g.lemmas, src, f.head, f.pos, f.gender, None);
    var (ms, lid) := UpsertLemma(g.lemmas, src, f.head, f.pos, f.gender, None);
    var st := QuoteState(ms, g.edges, 1);
    assert QuoteInvariant(st, |g.languages|);
    QuotesKeep(st, lid, dst, f.words, |g.languages|);
    var q := Quotes(st, lid, dst, f.words);
    assert Extends(QuoteState(g.lemmas, g.edges, 1), st) by {
      assert g.edges[..|g.edges|] == g.edges;
    }
    ExtendsTransitive(QuoteState(g.lemmas, g.edges, 1), st, q);
    forall i | 0 <= i < |f.glosses| ensures SensesFor(lid, f.glosses)[i].lemmaId == lid {
      SensesForAt(lid, f.glosses, i);
    }
  }

  /** The entry's lemma carries the entry's language, headword and pos after its quotes too. */
  lemma EntryLemma(g: Graph, src: nat, dst: nat, f: Fields)
    requires g.Valid() && src < |g.languages| && dst < |g.languages|
    ensures var g' := AddEntry(g, src, dst, f);
      var lid := EntryLemmaId(g, src, f);
      lid < |g'.lemmas| && g'.lemmas[lid].language == src
      && g'.lemmas[lid].headword == f.head && g'.lemmas[lid].pos == f.pos
  {
    UpsertKeepsKeys(g.lemmas, src, f.head, f.pos, f.gender, None);
    var (ms, lid) := UpsertLemma(g.lemmas, src, f.head, f.pos, f.gender, None);
    var st := QuoteState(ms, g.edges, 1);
    assert QuoteInvariant(st, |g.languages|);
    QuotesKeep(st, lid, dst, f.words, |g.languages|);
    var q := Quotes(st, lid, dst, f.words);
    assert SameLemmaKey(ms[lid], q.lemmas[lid]);
  }

  /** The entry's senses follow the existing ones: its cleaned glosses in document order, ranked 1, 2, ... */
  lemma EntrySenses(g: Graph, src: nat, dst: nat, f: Fields)
    ensures var g' := AddEntry(g, src, dst, f);
      var lid := EntryLemmaId(g, src, f);
      && |g'.senses| == |g.senses| + |f.glosses| && g'.senses[..|g.senses|] == g.senses
      && (forall i | 0 <= i < |f.glosses| ::
            g'.senses[|g.senses| + i] == Sense(lid, Some(f.glosses[i]), Some(i + 1)))
  {
    var g' := AddEntry(g, src, dst, f);
    var lid := EntryLemmaId(g, src, f);
    var ss := SensesFor(lid, f.glosses);
    assert g'.senses == g.senses + ss;
    forall i | 0 <= i < |f.glosses|
      ensures g'.senses[|g.senses| + i] == Sense(lid, Some(f.glosses[i]), Some(i + 1))
    {
      assert g'.senses[|g.senses| + i] == ss[i];
      SensesForAt(lid, f.glosses, i);
    }
  }

  /** The edges an entry adds run from its lemma to target-language lemmas, ranked 1, 2, ... */
  lemma EntryEdges(g: Graph, src: nat, dst: nat, f: Fields)
    requires g.Valid() && src < |g.languages| && dst < |g.languages|
    ensures var g' := AddEntry(g, src, dst, f);
      var lid := EntryLemmaId(g, src, f);
      forall k | |g.edges| <= k < |g'.edges| ::
        g'.edges[k].src == lid && g'.edges[k].rank == Some(k - |g.edges| + 1)
        && g'.edges[k].dst < |g'.lemmas| && g'.lemmas[g'.edges[k].dst].language == dst
  {
    UpsertKeepsKeys(g.lemmas, src, f.head, f.pos, f.gender, None);
    var (ms, lid) := UpsertLemma(g.lemmas, src, f.head, f.pos, f.gender, None);
    var st := QuoteState(ms, g.edges, 1);
    assert QuoteInvariant(st, |g.languages|);
    QuotesKeep(st, lid, dst, f.words, |g.languages|);
    AddEntryQuotes(g, src, dst, f);
  }

  /** The lemmas and edges after an entry are those its quote loop leaves. */
  lemma AddEntryQuotes(g: Graph, src: nat, dst: nat, f: Fields)
    ensures var (ms, lid) := UpsertLemma(g.lemmas, src, f.head, f.pos, f.gender, None);
      var q := Quotes(QuoteState(ms, g.edges, 1), lid, dst, f.words);
      var g' := AddEntry(g, src, dst, f);
      g'.lemmas == q.lemmas && g'.edges == q.edges && lid == EntryLemmaId(g, src, f)
  {
  }

  /** Every non-empty quote word of an entry has an edge from the entry's lemma to a target lemma with that headword. */
  lemma EntryLinks(g: Graph, src: nat, dst: nat, f: Fields)
    requires g.Valid() && src < |g.languages| && dst < |g.languages|
    ensures var g' := AddEntry(g, src, dst, f);
      var lid := EntryLemmaId(g, src, f);
      forall i | 0 <= i < |f.words| && f.words[i] != "" ::
        exists k | 0 <= k < |g'.edges| :: Links(QuoteState(g'.lemmas, g'.edges, 0), k, lid, dst, f.words[i])
  {
    UpsertKeepsKeys(g.lemmas, src, f.head, f.pos, f.gender, None);
    var (ms, lid) := UpsertLemma(g.lemmas, src, f.head, f.pos, f.gender, None);
    var st := QuoteState(ms, g.edges, 1);
    assert QuoteInvariant(st, |g.languages|);
    QuotesLink(st, lid, dst, f.words, |g.languages|);
    var q := Quotes(st, lid, dst, f.words);
    var g' := AddEntry(g, src, dst, f);
    assert g'.lemmas == q.lemmas && g'.edges == q.edges && lid == EntryLemmaId(g, src, f);
    forall i | 0 <= i < |f.words| && f.words[i] != ""
      ensures exists k | 0 <= k < |g'.edges| :: Links(QuoteState(g'.lemmas, g'.edges, 0), k, lid, dst, f.words[i])
    {
      var k :| 0 <= k < |q.edges| && Links(q, k, lid, dst, f.words[i]);
      assert Links(QuoteState(g'.lemmas, g'.edges, 0), k, lid, dst, f.words[i]);
    }
  }

  /** `texts()` on the glosses, then `clean()` on each, as the gloss loop stores them. */
  method StoredGlosses(raw: seq<string>) returns (gs: seq<string>)
    ensures gs == Glosses(raw)
  {
    gs := [];
    for i := 0 to |raw|
      invariant gs == Glosses(raw[..i])
    {
      assert raw[..i + 1][..i] == raw[..i];
      gs := gs + [Clean(Trim(raw[i]))];
    }
    assert raw[..|raw|] == raw;
  }

  /** `texts()` on the quotes, then the loop's own `trim()` on each. */
  method TrimmedQuotes(quotes: seq<string>) returns (ws: seq<string>)
    ensures ws == QuoteWords(quotes)
  {
    ws := [];
    for k := 0 to |quotes|
      invariant ws == QuoteWords(quotes[..k])
    {
      assert quotes[..k + 1][..k] == quotes[..k];
      var tw := Trim(quotes[k]);
      tw := Trim(tw);
      ws := ws + [tw];
    }
    assert quotes[..|quotes|] == quotes;
  }

  /** The gloss loop of `importTei`: one sense per stored gloss, ranked from 1. */
  method AddSenses(store: Store, lid: nat, glosses: seq<string>)
    requires store.Valid() && lid < |store.lemmas|
    modifies store
    ensures store.Valid()
    ensures store.senses == old(store.senses) + SensesFor(lid, glosses)
    ensures store.languages == old(store.languages) && store.lemmas == old(store.lemmas)
    ensures store.edges == old(store.edges) && store.dictionaries == old(store.dictionaries)
  {
    var rank := 1;
    for i := 0 to |glosses|
      invariant rank == i + 1
      invariant store.senses == old(store.senses) + SensesFor(lid, glosses[..i])
      invariant store.languages == old(store.languages) && store.lemmas == old(store.lemmas)
      invariant store.edges == old(store.edges) && store.dictionaries == old(store.dictionaries)
    {
      assert glosses[..i + 1][..i] == glosses[..i];
      store.senses := store.senses + [Sense(lid, Some(glosses[i]), Some(rank))];
      rank := rank + 1;
    }
    assert glosses[..|glosses|] == glosses;
    forall k | 0 <= k < |glosses| ensures SensesFor(lid, glosses)[k].lemmaId == lid {
      SensesForAt(lid, glosses, k);
    }
  }

  /** One non-empty quote word: upsert its target lemma, add the edge if the pair is new, and return the next rank. */
  method AddQuoteWord(store: Store, lid: nat, dst: nat, tw: string, tRank: int) returns (next: int)
    requires store.Valid() && lid < |store.lemmas| && dst < |store.languages| && tw != ""
    modifies store
    ensures store.Valid() && lid < |store.lemmas|
    ensures QuoteState(store.lemmas, store.edges, next)
      == QuoteStep(QuoteState(old(store.lemmas), old(store.edges), tRank), lid, dst, tw)
    ensures store.languages == old(store.languages) && store.senses == old(store.senses)
    ensures store.dictionaries == old(store.dictionaries)
  {
    UpsertKeepsKeys(store.lemmas, dst, tw, None, None, None);
    var tid := store.Upsert(dst, tw, None, None, None);
    next := tRank;
    AddEdgeKeepsKeys(store.edges, lid, tid, Some(tRank));
    AddEdgeKeepsValid(store.Snapshot(), lid, tid, Some(tRank));
    var found := IndexWhere(store.edges, Joins(lid, tid));
    if found.None? {
      store.edges := store.edges + [Translation(lid, tid, Some(tRank))];
      next := tRank + 1;
    }
  }

  /**
   * The quote loop of `importTei`: each non-empty quote word upserted as a
   * target lemma, and an edge added when the pair is new.
   */
  method AddQuotes(store: Store, lid: nat, dst: nat, words: seq<string>)
    requires store.Valid() && lid < |store.lemmas| && dst < |store.languages|
    modifies store
    ensures store.Valid()
    ensures var q := Quotes(QuoteState(old(store.lemmas), old(store.edges), 1), lid, dst, words);
      store.lemmas == q.lemmas && store.edges == q.edges
    ensures store.languages == old(store.languages) && store.senses == old(store.senses)
    ensures store.dictionaries == old(store.dictionaries)
  {
    ghost var st0 := QuoteState(store.lemmas, store.edges, 1);
    var tRank := 1;
    for k := 0 to |words|
      invariant store.Valid() && lid < |store.lemmas|
      invariant store.languages == old(store.languages) && store.senses == old(store.senses)
      invariant store.dictionaries == old(store.dictionaries)
      invariant QuoteState(store.lemmas, store.edges, tRank) == Quotes(st0, lid, dst, words[..k])
    {
      assert words[..k + 1][..k] == words[..k];
      var tw := words[k];
      if tw == "" {
        continue;
      }
      tRank := AddQuoteWord(store, lid, dst, tw, tRank);
    }
    assert words[..|words|] == words;
  }

  /** The extraction part of the loop body for one entry. */
  method ExtractEntry(e: Entry) returns (f: Fields)
    ensures f == Extract(e)
  {
    var orth := if e.orth.Some? then Trim(e.orth.value) else "";
    var pos := FirstText(e.pos);
    var gender := ShortGender(FirstText(e.gen));
    var glosses := StoredGlosses(e.glosses);
    var words := TrimmedQuotes(e.quotes);
    f := Fields(orth, pos, gender, glosses, words);
  }

  /** Every entry of the stream extracted, in document order. */
  method ExtractEntries(entries: seq<Entry>) returns (fs: seq<Fields>)
    ensures fs == ExtractAll(entries)
  {
    fs := [];
    for i := 0 to |entries|
      invariant fs == ExtractAll(entries[..i])
    {
      assert entries[..i + 1][..i] == entries[..i];
      var f := ExtractEntry(entries[i]);
      fs := fs + [f];
    }
    assert entries[..|entries|] == entries;
  }

  /** The writes of the loop body for one entry with a headword: upsert, senses, quotes. */
  method ImportEntry(store: Store, src: nat, dst: nat, f: Fields)
    requires store.Valid() && src < |store.languages| && dst < |store.languages|
    modifies store
    ensures store.Valid()
    ensures store.Snapshot() == AddEntry(old(store.Snapshot()), src, dst, f)
  {
    UpsertKeepsKeys(store.lemmas, src, f.head, f.pos, f.gender, None);
    var lid := store.Upsert(src, f.head, f.pos, f.gender, None);
    AddSenses(store, lid, f.glosses);
    AddQuotes(store, lid, dst, f.words);
  }

  /* ---------------- the entry stream and its counters ---------------- */

  /** The graph and the two counters of the entry loop: `$count` (progress calls) and `$batch` (imported entries). */
  datatype Progress = Progress(g: Graph, count: int, batch: nat)

  /** `$limit && $count >= $limit`: a null or zero limit never stops the loop. */
  predicate Stops(limit: Option<int>, count: int)
  {
    limit.Some? && limit.value != 0 && count >= limit.value
  }

  /**
   * The entry loop from a given state: an entry without a headword is
   * skipped uncounted; every other entry is imported, counted in `$batch`,
   * and in `$count` when there is a progress callback, and the loop stops
   * as soon as the limit is reached.
   */
  function Run(st: Progress, src: nat, dst: nat, fs: seq<Fields>, limit: Option<int>, progress: bool): Progress
    decreases |fs|
  {
    if fs == [] then st
    else if fs[0].head == "" then Run(st, src, dst, fs[1..], limit, progress)
    else
      var next := Step(st, src, dst, fs[0], progress);
      if Stops(limit, next.count) then next else Run(next, src, dst, fs[1..], limit, progress)
  }

  /** One imported entry: the graph updated, `$batch` and, with a progress callback, `$count` advanced. */
  function Step(st: Progress, src: nat, dst: nat, f: Fields, progress: bool): Progress
  {
    Progress(AddEntry(st.g, src, dst, f), if progress then st.count + 1 else st.count, st.batch + 1)
  }

  /** The loop from entry i on: skip it, or import it and stop or go on. */
  lemma RunAt(st: Progress, src: nat, dst: nat, fs: seq<Fields>, i: nat, limit: Option<int>, progress: bool)
    requires i < |fs|
    ensures Run(st, src, dst, fs[i..], limit, progress)
      == if fs[i].head == "" then Run(st, src, dst, fs[i + 1..], limit, progress)
         else if Stops(limit, Step(st, src, dst, fs[i], progress).count) then Step(st, src, dst, fs[i], progress)
         else Run(Step(st, src, dst, fs[i], progress), src, dst, fs[i + 1..], limit, progress)
  {
    assert fs[i..][0] == fs[i] && fs[i..][1..] == fs[i + 1..];
  }

  /** The number of extracted entries that have a headword. */
  function Headwords(fs: seq<Fields>): nat
  {
    if fs == [] then 0 else (if fs[0].head == "" then 0 else 1) + Headwords(fs[1..])
  }

  /** g' is a valid graph with the languages and dictionaries of g. */
  predicate Preserves(g: Graph, g': Graph)
  {
    g'.Valid() && g'.languages == g.languages && g'.dictionaries == g.dictionaries
  }

  /** The import keeps the graph valid and never touches languages or dictionaries. */
  lemma {:induction false} RunKeepsValid(
    st: Progress, src: nat, dst: nat, fs: seq<Fields>, limit: Option<int>, progress: bool)
    requires st.g.Valid() && src < |st.g.languages| && dst < |st.g.languages|
    ensures var r := Run(st, src, dst, fs, limit, progress);
      Preserves(st.g, r.g)
    decreases |fs|
  {
    if fs != [] {
      var f := fs[0];
      var r := Run(st, src, dst, fs, limit, progress);
      if f.head == "" {
        assert r == Run(st, src, dst, fs[1..], limit, progress);
        RunKeepsValid(st, src, dst, fs[1..], limit, progress);
      } else {
        var next := Step(st, src, dst, f, progress);
        assert Preserves(st.g, next.g) by {
          EntryKeepsValid(st.g, src, dst, f);
        }
        if Stops(limit, next.count) {
          assert r == next;
        } else {
          assert r == Run(next, src, dst, fs[1..], limit, progress);
          RunKeepsValid(next, src, dst, fs[1..], limit, progress);
        }
      }
    }
  }

  /** The import never removes or reorders an edge that was there before it. */
  lemma {:induction false} RunKeepsEdges(
    st: Progress, src: nat, dst: nat, fs: seq<Fields>, limit: Option<int>, progress: bool)
    requires st.g.Valid() && src < |st.g.languages| && dst < |st.g.languages|
    ensures var r := Run(st, src, dst, fs, limit, progress);
      |st.g.edges| <= |r.g.edges| && r.g.edges[..|st.g.edges|] == st.g.edges
    decreases |fs|
  {
    if fs != [] {
      var f := fs[0];
      if f.head == "" {
        RunKeepsEdges(st, src, dst, fs[1..], limit, progress);
      } else {
        var next := Step(st, src, dst, f, progress);
        assert next.g.Valid() && next.g.languages == st.g.languages
          && |st.g.edges| <= |next.g.edges| && next.g.edges[..|st.g.edges|] == st.g.edges by {
          EntryKeepsValid(st.g, src, dst, f);
        }
        if !Stops(limit, next.count) {
          RunKeepsEdges(next, src, dst, fs[1..], limit, progress);
          var r := Run(next, src, dst, fs[1..], limit, progress);
          assert r.g.edges[..|st.g.edges|] == r.g.edges[..|next.g.edges|][..|st.g.edges|];
        }
      }
    }
  }

  /**
   * `$batch` counts the imported entries, at most one per entry with a
   * headword; `$count` advances with it when there is a progress callback
   * and stays put otherwise.
   */
  lemma {:induction false} RunCounts(
    st: Progress, src: nat, dst: nat, fs: seq<Fields>, limit: Option<int>, progress: bool)
    ensures var r := Run(st, src, dst, fs, limit, progress);
      st.batch <= r.batch <= st.batch + Headwords(fs)
      && r.count - st.count == (if progress then r.batch - st.batch else 0)
    decreases |fs|
  {
    if fs != [] {
      var f := fs[0];
      var next := Step(st, src, dst, f, progress);
      if f.head == "" || !Stops(limit, next.count) {
        RunCounts(if f.head == "" then st else next, src, dst, fs[1..], limit, progress);
      }
    }
  }

  /** Entries without a headword leave the graph and the counters as they were. */
  lemma {:induction false} RunSkipsHeadless(
    st: Progress, src: nat, dst: nat, fs: seq<Fields>, limit: Option<int>, progress: bool)
    requires Headwords(fs) == 0
    ensures Run(st, src, dst, fs, limit, progress) == st
    decreases |fs|
  {
    if fs != [] {
      RunSkipsHeadless(st, src, dst, fs[1..], limit, progress);
    }
  }

  /**
   * With a progress callback and a positive limit not yet reached, the
   * loop imports until `$count` equals the limit or the entries run out,
   * and never past the limit.
   */
  lemma {:induction false} RunLimit(
    st: Progress, src: nat, dst: nat, fs: seq<Fields>, limit: Option<int>, progress: bool)
    requires progress && limit.Some? && limit.value > 0 && st.count < limit.value
    ensures var r := Run(st, src, dst, fs, limit, progress);
      r.count <= limit.value && (r.count == limit.value || r.batch == st.batch + Headwords(fs))
    decreases |fs|
  {
    if fs != [] {
      var f := fs[0];
      var next := Step(st, src, dst, f, progress);
      if f.head == "" {
        RunLimit(st, src, dst, fs[1..], limit, progress);
        assert Run(st, src, dst, fs, limit, progress) == Run(st, src, dst, fs[1..], limit, progress);
      } else if Stops(limit, next.count) {
        assert Run(st, src, dst, fs, limit, progress) == next;
      } else {
        RunLimit(next, src, dst, fs[1..], limit, progress);
        assert Run(st, src, dst, fs, limit, progress) == Run(next, src, dst, fs[1..], limit, progress);
      }
    }
  }

  /**
   * A null or zero limit, or a limit with no progress callback and a
   * counter below it, never stops the loop: every entry with a headword is
   * imported, as without a limit.
   */
  lemma {:induction false} RunUnstopped(
    st: Progress, src: nat, dst: nat, fs: seq<Fields>, limit: Option<int>, progress: bool)
    requires limit.None? || limit.value == 0 || (!progress && st.count < limit.value)
    ensures Run(st, src, dst, fs, limit, progress) == Run(st, src, dst, fs, None, progress)
    ensures Run(st, src, dst, fs, limit, progress).batch == st.batch + Headwords(fs)
    decreases |fs|
  {
    if fs != [] {
      var f := fs[0];
      var next := Step(st, src, dst, f, progress);
      RunUnstopped(if f.head == "" then st else next, src, dst, fs[1..], limit, progress);
    }
  }

  /**
   * A negative limit with a counter at zero or above stops the loop right
   * after the first entry that has a headword, with or without a progress
   * callback.
   */
  lemma {:induction false} RunNegativeLimit(
    st: Progress, src: nat, dst: nat, fs: seq<Fields>, limit: Option<int>, progress: bool)
    requires limit.Some? && limit.value < 0 && st.count >= 0
    ensures var r := Run(st, src, dst, fs, limit, progress);
      r.batch == st.batch + (if Headwords(fs) == 0 then 0 else 1)
    decreases |fs|
  {
    if fs != [] && fs[0].head == "" {
      RunNegativeLimit(st, src, dst, fs[1..], limit, progress);
    }
  }

  /* ---------------- importTei ---------------- */

  /** The message of the `InvalidArgumentException` for a name that is not a pair. */
  const MissingPair := "Catalog item missing name (pair)."

  /** The message of the `RuntimeException` for a catalogue row without a TEI URL. */
  function NoTeiUrl(pair: string): string
  {
    "No TEI URL for " + pair + "."
  }

  /** The counters `importTei` ends with, and the id of the dictionary row it returns. */
  datatype Outcome = Outcome(dictionary: nat, count: int, batch: nat)

  /**
   * Both languages got or created by code, with the code as their name, then
   * the pair's dictionary row found by name or created: the languages' ids
   * and the row's id come back with the graph.
   */
  function Register(g: Graph, pair: string): (r: (Graph, nat, nat, nat))
    ensures r.3 < |r.0.dictionaries|
  {
    var codes := Catalog.SplitName(pair);
    var dstCode := codes.1.GetOr("");
    var (ls1, s) := GetOrCreateLanguage(g.languages, codes.0, None, Some(codes.0));
    var (ls2, d) := GetOrCreateLanguage(ls1, dstCode, None, Some(dstCode));
    var (ds, k) := PutDictionary(g.dictionaries, pair, s, d);
    (g.(languages := ls2, dictionaries := ds), s, d, k)
  }

  /**
   * Registering a pair keeps the graph valid and touches only languages and
   * dictionaries: the two languages carry the codes before and after the
   * first `-`, and the pair's row, the only row that changes, names them.
   */
  lemma RegisterKeeps(g: Graph, pair: string)
    requires g.Valid()
    ensures var (g1, s, d, k) := Register(g, pair);
      var codes := Catalog.SplitName(pair);
      g1.Valid() && g1.lemmas == g.lemmas && g1.senses == g.senses && g1.edges == g.edges
      && s < |g1.languages| && d < |g1.languages| && |g.languages| <= |g1.languages| <= |g.languages| + 2
      && g1.languages[s].code3 == codes.0 && g1.languages[d].code3 == codes.1.GetOr("")
      && g1.dictionaries[k].name == pair && g1.dictionaries[k].src == s && g1.dictionaries[k].dst == d
      && g1.dictionaries[k].edition.None? && g1.dictionaries[k].releaseVersion.None?
      && (forall i | 0 <= i < |g.dictionaries| && i != k :: g1.dictionaries[i] == g.dictionaries[i])
  {
    var codes := Catalog.SplitName(pair);
    var dstCode := codes.1.GetOr("");
    GetOrCreateKeepsKeys(g.languages, codes.0, None, Some(codes.0));
    var (ls1, s) := GetOrCreateLanguage(g.languages, codes.0, None, Some(codes.0));
    GetOrCreateKeepsKeys(ls1, dstCode, None, Some(dstCode));
    var (ls2, d) := GetOrCreateLanguage(ls1, dstCode, None, Some(dstCode));
    PutDictionaryKeepsNames(g.dictionaries, pair, s, d);
    LanguagesGrow(g, ls2);
  }

  /**
   * The graph when the entries start streaming: the pair's row carries the
   * TEI URL, and with truncate the pair's edges are deleted.
   */
  function Prepared(g1: Graph, k: nat, s: nat, d: nat, url: string, truncate: bool): Graph
    requires k < |g1.dictionaries|
  {
    var g2 := g1.(dictionaries := g1.dictionaries[k := g1.dictionaries[k].(teiUrl := Some(url))]);
    if truncate then g2.(edges := Truncated(g2.lemmas, g2.edges, s, d)) else g2
  }

  /** Setting the URL and truncating keep the graph valid; only the row's URL and the pair's edges change. */
  lemma PreparedKeeps(g1: Graph, k: nat, s: nat, d: nat, url: string, truncate: bool)
    requires g1.Valid() && k < |g1.dictionaries|
    ensures var g3 := Prepared(g1, k, s, d, url, truncate);
      g3.Valid() && g3.languages == g1.languages && g3.lemmas == g1.lemmas
      && |g3.dictionaries| == |g1.dictionaries| && g3.dictionaries[k] == g1.dictionaries[k].(teiUrl := Some(url))
      && (forall i | 0 <= i < |g1.dictionaries| && i != k :: g3.dictionaries[i] == g1.dictionaries[i])
      && g3.edges == (if truncate then Truncated(g1.lemmas, g1.edges, s, d) else g1.edges)
  {
    if truncate {
      TruncatedKeepsKeys(g1.lemmas, g1.edges, s, d);
      var t := Truncated(g1.lemmas, g1.edges, s, d);
      forall i | 0 <= i < |t| ensures t[i].src < |g1.lemmas| && t[i].dst < |g1.lemmas| {
        assert t[i] in t;
      }
    }
  }

  /**
   * `importTei` on the graph: the pair check, the languages and the
   * dictionary row, the TEI URL check, the optional truncate, then the
   * entry loop from zeroed counters. The graph returned with a failure
   * still holds the languages and dictionary row registered before it;
   * when the failure comes before the flush that follows the TEI URL
   * check, the database never sees them.
   */
  function ImportTeiSpec(
    g: Graph, catalog: Catalog.CatalogRow, truncate: bool, limit: Option<int>, progress: bool, fs: seq<Fields>)
    : (Graph, Result<Outcome>)
  {
    var pair := catalog.name;
    if pair == "" || '-' !in pair then (g, Failure(MissingPair))
    else
      var (g1, s, d, k) := Register(g, pair);
      var picked := PickTeiUrl(catalog);
      if picked.Failure? then (g1, Failure(picked.error))
      else if picked.value.0 == "" then (g1, Failure(NoTeiUrl(pair)))
      else
        var fin := Run(Progress(Prepared(g1, k, s, d, picked.value.0, truncate), 0, 0), s, d, fs, limit, progress);
        (fin.g, Success(Outcome(k, fin.count, fin.batch)))
  }

  /**
   * The import is rejected as a missing pair exactly when the catalogue
   * name has no `-`, and then nothing is written.
   */
  lemma ImportTeiRejectsName(
    g: Graph, catalog: Catalog.CatalogRow, truncate: bool, limit: Option<int>, progress: bool, fs: seq<Fields>)
    ensures var r := ImportTeiSpec(g, catalog, truncate, limit, progress, fs);
      (r.1 == Failure(MissingPair) <==> '-' !in catalog.name)
      && ('-' !in catalog.name ==> r.0 == g)
  {
    var pair := catalog.name;
    if '-' in pair {
      assert MissingPair[0] == 'C' && NoTeiUrl(pair)[0] == 'N';
      PickTeiUrlPrefers(catalog);
      assert NotAList[0] == 'a';
    }
  }

  /**
   * With a pair name the import fails exactly when the catalogue row has
   * a `releases` value that is not a list, or no TEI URL.
   */
  lemma ImportTeiFails(
    g: Graph, catalog: Catalog.CatalogRow, truncate: bool, limit: Option<int>, progress: bool, fs: seq<Fields>)
    requires '-' in catalog.name
    ensures var r := ImportTeiSpec(g, catalog, truncate, limit, progress, fs);
      r.1.Failure? <==> PickTeiUrl(catalog).Failure? || PickTeiUrl(catalog).value.0 == ""
  {
  }

  /**
   * The import keeps the graph valid. A successful import returns the row
   * named after the pair, holding the chosen TEI URL, no edition and no
   * release version, whose languages carry the codes before and after the
   * first `-`.
   */
  lemma ImportTeiRegisters(
    g: Graph, catalog: Catalog.CatalogRow, truncate: bool, limit: Option<int>, progress: bool, fs: seq<Fields>)
    requires g.Valid()
    ensures var r := ImportTeiSpec(g, catalog, truncate, limit, progress, fs);
      r.0.Valid()
      && (r.1.Success? ==>
            var k := r.1.value.dictionary;
            var codes := Catalog.SplitName(catalog.name);
            k < |r.0.dictionaries| && r.0.dictionaries[k].name == catalog.name
            && PickTeiUrl(catalog).Success? && PickTeiUrl(catalog).value.0 != ""
            && r.0.dictionaries[k].teiUrl == Some(PickTeiUrl(catalog).value.0)
            && r.0.dictionaries[k].edition.None? && r.0.dictionaries[k].releaseVersion.None?
            && r.0.dictionaries[k].src < |r.0.languages| && r.0.dictionaries[k].dst < |r.0.languages|
            && r.0.languages[r.0.dictionaries[k].src].code3 == codes.0
            && codes.1.Some? && r.0.languages[r.0.dictionaries[k].dst].code3 == codes.1.value)
  {
    var pair := catalog.name;
    if pair != "" && '-' in pair {
      RegisterKeeps(g, pair);
      var (g1, s, d, k) := Register(g, pair);
      var picked := PickTeiUrl(catalog);
      if picked.Success? && picked.value.0 != "" {
        PreparedKeeps(g1, k, s, d, picked.value.0, truncate);
        var g3 := Prepared(g1, k, s, d, picked.value.0, truncate);
        RunKeepsValid(Progress(g3, 0, 0), s, d, fs, limit, progress);
      }
    }
  }

  /**
   * A successful import counts its imported entries, at most one per entry
   * with a headword; the progress count equals them with a callback and is
   * zero without one; with a callback and a positive limit the count stops
   * at the limit unless the entries run out first; with no limit or a zero
   * limit every entry with a headword is imported.
   */
  lemma ImportTeiCounts(
    g: Graph, catalog: Catalog.CatalogRow, truncate: bool, limit: Option<int>, progress: bool, fs: seq<Fields>)
    ensures var r := ImportTeiSpec(g, catalog, truncate, limit, progress, fs);
      r.1.Success? ==>
        var o := r.1.value;
        o.batch <= Headwords(fs) && o.count == (if progress then o.batch else 0)
        && (progress && limit.Some? && limit.value > 0 ==>
              o.count <= limit.value && (o.count == limit.value || o.batch == Headwords(fs)))
        && (limit.None? || limit.value == 0 ==> o.batch == Headwords(fs))
  {
    var pair := catalog.name;
    if pair != "" && '-' in pair {
      var (g1, s, d, k) := Register(g, pair);
      var picked := PickTeiUrl(catalog);
      if picked.Success? && picked.value.0 != "" {
        var st := Progress(Prepared(g1, k, s, d, picked.value.0, truncate), 0, 0);
        RunCounts(st, s, d, fs, limit, progress);
        if progress && limit.Some? && limit.value > 0 {
          RunLimit(st, s, d, fs, limit, progress);
        }
        if limit.None? || limit.value == 0 {
          RunUnstopped(st, s, d, fs, limit, progress);
        }
      }
    }
  }

  /**
   * A successful import keeps the edges that were there, in their order,
   * except that with truncate the edges from a source-language lemma to a
   * target-language lemma are deleted first; new edges come after them.
   */
  lemma ImportTeiEdges(
    g: Graph, catalog: Catalog.CatalogRow, truncate: bool, limit: Option<int>, progress: bool, fs: seq<Fields>)
    requires g.Valid()
    ensures var r := ImportTeiSpec(g, catalog, truncate, limit, progress, fs);
      r.1.Success? ==>
        var k := r.1.value.dictionary;
        k < |r.0.dictionaries| &&
        var base := if truncate then Truncated(g.lemmas, g.edges, r.0.dictionaries[k].src, r.0.dictionaries[k].dst)
                    else g.edges;
        |base| <= |r.0.edges| && r.0.edges[..|base|] == base
  {
    var pair := catalog.name;
    if pair != "" && '-' in pair {
      RegisterKeeps(g, pair);
      var (g1, s, d, k) := Register(g, pair);
      var picked := PickTeiUrl(catalog);
      if picked.Success? && picked.value.0 != "" {
        PreparedKeeps(g1, k, s, d, picked.value.0, truncate);
        var g3 := Prepared(g1, k, s, d, picked.value.0, truncate);
        RunKeepsValid(Progress(g3, 0, 0), s, d, fs, limit, progress);
        RunKeepsEdges(Progress(g3, 0, 0), s, d, fs, limit, progress);
      }
    }
  }

  /** Lines 162-173 on the store: both languages, then the pair's dictionary row found by name or created. */
  method RegisterPair(store: Store, pair: string) returns (s: nat, d: nat, k: nat)
    requires store.Valid()
    modifies store
    ensures store.Valid()
    ensures (store.Snapshot(), s, d, k) == Register(old(store.Snapshot()), pair)
  {
    RegisterKeeps(store.Snapshot(), pair);
    var codes := Catalog.SplitName(pair);
    var dstCode := codes.1.GetOr("");
    s := store.GetOrCreate(codes.0, None, Some(codes.0));
    d := store.GetOrCreate(dstCode, None, Some(dstCode));
    k := PutDictionaryRow(store, pair, s, d);
  }

  /** `findOneBy(['name' => $pair]) ?? new Dictionary()`, filled and persisted, on the store. */
  method PutDictionaryRow(store: Store, pair: string, s: nat, d: nat) returns (k: nat)
    modifies store
    ensures (store.dictionaries, k) == PutDictionary(old(store.dictionaries), pair, s, d)
    ensures store.languages == old(store.languages) && store.lemmas == old(store.lemmas)
    ensures store.senses == old(store.senses) && store.edges == old(store.edges)
  {
    var found := IndexWhere(store.dictionaries, HasName(pair));
    if found.None? {
      k := |store.dictionaries|;
      store.dictionaries := store.dictionaries + [Dictionary(pair, s, d, None, None, None, None)];
    } else {
      k := found.value;
      store.dictionaries := store.dictionaries[k := store.dictionaries[k].(
        name := pair, src := s, dst := d, edition := None, releaseVersion := None)];
    }
  }

  /** Lines 178-196 on the store: the TEI URL stored on the row, then the optional truncate. */
  method Prepare(store: Store, k: nat, s: nat, d: nat, teiUrl: string, truncate: bool)
    requires store.Valid() && k < |store.dictionaries|
    modifies store
    ensures store.Valid()
    ensures store.Snapshot() == Prepared(old(store.Snapshot()), k, s, d, teiUrl, truncate)
  {
    PreparedKeeps(store.Snapshot(), k, s, d, teiUrl, truncate);
    store.dictionaries := store.dictionaries[k := store.dictionaries[k].(teiUrl := Some(teiUrl))];
    if truncate {
      store.edges := Truncated(store.lemmas, store.edges, s, d);
    }
  }

  /**
   * The entry loop of `importTei` on the store, from zeroed counters: it
   * ends in the state and with the counters `Run` describes.
   */
  method ImportEntries(store: Store, src: nat, dst: nat, fs: seq<Fields>, limit: Option<int>, progress: bool)
    returns (count: int, batch: nat)
    requires store.Valid() && src < |store.languages| && dst < |store.languages|
    modifies store
    ensures store.Valid()
    ensures Progress(store.Snapshot(), count, batch) == Run(Progress(old(store.Snapshot()), 0, 0), src, dst, fs, limit, progress)
  {
    ghost var result := Run(Progress(store.Snapshot(), 0, 0), src, dst, fs, limit, progress);
    count, batch := 0, 0;
    var i := 0;
    while i < |fs|
      invariant i <= |fs|
      invariant store.Valid() && src < |store.languages| && dst < |store.languages|
      invariant Run(Progress(store.Snapshot(), count, batch), src, dst, fs[i..], limit, progress) == result
      decreases |fs| - i
    {
      var f := fs[i];
      ghost var before := Progress(store.Snapshot(), count, batch);
      RunAt(before, src, dst, fs, i, limit, progress);
      if f.head == "" {
        i := i + 1;
        continue;
      }
      ImportEntry(store, src, dst, f);
      batch := batch + 1;
      if progress {
        count := count + 1;
      }
      assert Progress(store.Snapshot(), count, batch) == Step(before, src, dst, f, progress);
      if Stops(limit, count) {
        break;
      }
      i := i + 1;
    }
    if i == |fs| {
      assert fs[i..] == [];
    }
  }

  /**
   * `importTei`: the catalogue row's entries, as extracted from its TEI
   * file, imported into the store; the outcome names the dictionary row
   * and the final counters, or the error that stopped the import.
   */
  method ImportTei(
    store: Store, catalog: Catalog.CatalogRow, truncate: bool, limit: Option<int>, progress: bool, entries: seq<Entry>)
    returns (r: Result<Outcome>)
    requires store.Valid()
    modifies store
    ensures store.Valid()
    ensures (store.Snapshot(), r) == ImportTeiSpec(old(store.Snapshot()), catalog, truncate, limit, progress, ExtractAll(entries))
  {
    var pair := catalog.name;
    if pair == "" || '-' !in pair {
      return Failure(MissingPair);
    }
    var s, d, k := RegisterPair(store, pair);
    var picked := PickTeiUrl(catalog);
    if picked.Failure? {
      return Failure(picked.error);
    }
    var teiUrl := picked.value.0;
    if teiUrl == "" {
      return Failure(NoTeiUrl(pair));
    }
    RegisterKeeps(old(store.Snapshot()), pair);
    Prepare(store, k, s, d, teiUrl, truncate);
    var fs := ExtractEntries(entries);
    var count, batch := ImportEntries(store, s, d, fs, limit, progress);
    r := Success(Outcome(k, count, batch));
  }
}
