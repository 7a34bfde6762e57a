/**
 * The lexical graph the TEI importer writes and the database lookup reads:
 * languages (unique by ISO 639-3 code), lemmas (unique by language, headword
 * and part of speech), ranked senses, directed translation edges (unique by
 * source and destination lemma) and dictionaries (unique by name). An
 * entity's id is its position in its table; languages, lemmas, senses and
 * dictionaries are never deleted, so ids stay valid.
 */
module LexicalGraph {
  import opened Wrappers
  import opened Text
  import Json

  datatype Language = Language(code3: string, code2: Option<string>, name: string)

  datatype Lemma = Lemma(
    language: nat,
    headword: string,
    norm: string,
    pos: Option<string>,
    gender: Option<string>,
    features: Option<Json.Json>)

  datatype Sense = Sense(lemmaId: nat, gloss: Option<string>, rank: Option<int>)

  datatype Translation = Translation(src: nat, dst: nat, rank: Option<int>)

  datatype Dictionary = Dictionary(
    name: string,
    src: nat,
    dst: nat,
    edition: Option<string>,
    releaseVersion: Option<string>,
    releaseDate: Option<string>,
    teiUrl: Option<string>)

  /** The whole store at one moment. */
  datatype Graph = Graph(
    languages: seq<Language>,
    lemmas: seq<Lemma>,
    senses: seq<Sense>,
    edges: seq<Translation>,
    dictionaries: seq<Dictionary>)
  {
    /** The unique constraints hold and every reference points at an existing row. */
    predicate Valid()
    {
      LanguageKeysUnique(languages) && LemmaKeysUnique(lemmas) && EdgeKeysUnique(edges)
      && DictionaryNamesUnique(dictionaries)
      && (forall i | 0 <= i < |lemmas| :: lemmas[i].language < |languages|)
      && (forall i | 0 <= i < |senses| :: senses[i].lemmaId < |lemmas|)
      && (forall i | 0 <= i < |edges| :: edges[i].src < |lemmas| && edges[i].dst < |lemmas|)
      && (forall i | 0 <= i < |dictionaries| ::
            dictionaries[i].src < |languages| && dictionaries[i].dst < |languages|)
    }
  }

  /* ---------------- unique keys ---------------- */

  /** `uniq_lang_code3`. */
  predicate LanguageKeysUnique(ls: seq<Language>)
  {
    forall i, j | 0 <= i < j < |ls| :: ls[i].code3 != ls[j].code3
  }

  predicate SameLemmaKey(a: Lemma, b: Lemma)
  {
    a.language == b.language && a.headword == b.headword && a.pos == b.pos
  }

  /** `uniq_lang_head_pos`. */
  predicate LemmaKeysUnique(ms: seq<Lemma>)
  {
    forall i, j | 0 <= i < j < |ms| :: !SameLemmaKey(ms[i], ms[j])
  }

  /** `uniq_src_dst`. */
  predicate EdgeKeysUnique(es: seq<Translation>)
  {
    forall i, j | 0 <= i < j < |es| :: es[i].src != es[j].src || es[i].dst != es[j].dst
  }

  /** `uniq_dictionary_name`. */
  predicate DictionaryNamesUnique(ds: seq<Dictionary>)
  {
    forall i, j | 0 <= i < j < |ds| :: ds[i].name != ds[j].name
  }

  /* ---------------- finding rows ---------------- */

  /** The first row satisfying p: `findOneBy` when at most one row can match. */
  function IndexWhere<T>(s: seq<T>, p: T -> bool): (r: Option<nat>)
    ensures r.Some? ==> r.value < |s| && p(s[r.value])
    ensures r.Some? ==> forall k | 0 <= k < r.value :: !p(s[k])
    ensures r.None? ==> forall k | 0 <= k < |s| :: !p(s[k])
    decreases |s|
  {
    if s == [] then None
    else if p(s[0]) then Some(0)
    else
      match IndexWhere(s[1..], p)
      case None => None
      case Some(k) => Some(k + 1)
  }

  /** The `findOneBy` criteria of the repositories. */
  function HasCode3(code3: string): Language -> bool
  {
    (l: Language) => l.code3 == code3
  }

  function HasLemmaKey(lang: nat, head: string, pos: Option<string>): Lemma -> bool
  {
    (m: Lemma) => m.language == lang && m.headword == head && m.pos == pos
  }

  function Joins(src: nat, dst: nat): Translation -> bool
  {
    (e: Translation) => e.src == src && e.dst == dst
  }

  /** PHP truthiness of a `?string` argument: neither null, "" nor "0". */
  predicate Given(o: Option<string>)
  {
    o.Some? && Json.Truthy(Json.JStr(o.value))
  }

  /* ---------------- LanguageRepository::getOrCreate ---------------- */

  /** The updates to a found language: code2 and name when newly given and different. */
  function Refresh(l: Language, code2: Option<string>, name: Option<string>): Language
  {
    var l1 := if Given(code2) && l.code2 != code2 then l.(code2 := code2) else l;
    if Given(name) && l1.name != name.value then l1.(name := name.value) else l1
  }

  /** The languages after `getOrCreate($code3, $code2, $name)`, and the id returned. */
  function GetOrCreateLanguage(ls: seq<Language>, code3: string, code2: Option<string>, name: Option<string>)
    : (r: (seq<Language>, nat))
  {
    match IndexWhere(ls, HasCode3(code3))
    case Some(i) => (ls[i := Refresh(ls[i], code2, name)], i)
    case None => (ls + [Language(code3, code2, name.GetOr(code3))], |ls|)
  }

  /**
   * getOrCreate keeps code3 unique, returns a language with the code asked
   * for, adds at most one row and changes no other row.
   */
  lemma GetOrCreateKeepsKeys(ls: seq<Language>, code3: string, code2: Option<string>, name: Option<string>)
    requires LanguageKeysUnique(ls)
    ensures var (ls', id) := GetOrCreateLanguage(ls, code3, code2, name);
      LanguageKeysUnique(ls') && |ls| <= |ls'| <= |ls| + 1 && id < |ls'| && ls'[id].code3 == code3
      && forall i | 0 <= i < |ls| && i != id :: ls'[i] == ls[i]
  {
    var (ls', id) := GetOrCreateLanguage(ls, code3, code2, name);
    if IndexWhere(ls, HasCode3(code3)).None? {
      assert forall i | 0 <= i < |ls| :: ls'[i] == ls[i];
    }
  }

  /**
   * An existing language is returned rather than a second one created;
   * code2 and name are replaced only by a truthy argument, otherwise kept.
   */
  lemma GetOrCreateFindsExisting(ls: seq<Language>, i: nat, code3: string, code2: Option<string>, name: Option<string>)
    requires LanguageKeysUnique(ls)
    requires i < |ls| && ls[i].code3 == code3
    ensures var (ls', id) := GetOrCreateLanguage(ls, code3, code2, name);
      id == i && |ls'| == |ls| && ls'[i].code3 == code3
      && ls'[i].code2 == (if Given(code2) then code2 else ls[i].code2)
      && ls'[i].name == (if Given(name) then name.value else ls[i].name)
  {
    assert HasCode3(code3)(ls[i]);
    assert forall k | 0 <= k < |ls| && k != i :: !HasCode3(code3)(ls[k]);
  }

  /** A code3 not yet present makes a new language: code2 as given, name defaulting to code3. */
  lemma GetOrCreateAppends(ls: seq<Language>, code3: string, code2: Option<string>, name: Option<string>)
    requires forall i | 0 <= i < |ls| :: ls[i].code3 != code3
    ensures GetOrCreateLanguage(ls, code3, code2, name)
      == (ls + [Language(code3, code2, if name.Some? then name.value else code3)], |ls|)
  {
  }

  /* ---------------- LemmaRepository::normalize ---------------- */

  /**
   * `mb_strtolower`, then NFD decomposition with the nonspacing marks
   * removed. NFD and the replacement cannot fail on a well-formed string.
   */
  function Normalize(s: string): string
  {
    StripMarks(Lower(s))
  }

  lemma LowerCharIdempotent(c: char)
    ensures LowerChar(LowerChar(c)) == LowerChar(c)
    ensures !IsNonspacingMark(c) ==> !IsNonspacingMark(LowerChar(c))
  {
  }

  /** A base letter taken from a lower-case letter is lower-case and is its own base. */
  lemma BaseLetterOfLower(c: char)
    ensures LowerChar(BaseLetter(LowerChar(c))) == BaseLetter(LowerChar(c))
    ensures BaseLetter(BaseLetter(LowerChar(c))) == BaseLetter(LowerChar(c))
    ensures !IsNonspacingMark(BaseLetter(LowerChar(c))) || IsNonspacingMark(LowerChar(c))
  {
  }

  /** Stripping marks from lower-case text keeps it lower-case. */
  lemma {:induction false} StripMarksOfLower(s: string)
    ensures Lower(StripMarks(Lower(s))) == StripMarks(Lower(s))
    ensures StripMarks(StripMarks(Lower(s))) == StripMarks(Lower(s))
    decreases |s|
  {
    if s != [] {
      var t := Lower(s);
      assert Lower(s[1..]) == t[1..];
      StripMarksOfLower(s[1..]);
      if !IsNonspacingMark(t[0]) {
        BaseLetterOfLower(s[0]);
        var b := BaseLetter(t[0]);
        var rest := StripMarks(t[1..]);
        assert StripMarks(t) == [b] + rest;
        assert Lower([b] + rest) == [LowerChar(b)] + Lower(rest);
        assert ([b] + rest)[1..] == rest;
      }
    }
  }

  /**
   * A normalised headword is its own normal form, and normalising the
   * lower-cased word gives the same as normalising the word.
   */
  lemma NormalizeIdempotent(s: string)
    ensures Normalize(Normalize(s)) == Normalize(s)
    ensures Normalize(Lower(s)) == Normalize(s)
  {
    StripMarksOfLower(s);
    forall i | 0 <= i < |s| ensures Lower(Lower(s))[i] == Lower(s)[i] {
      LowerCharIdempotent(s[i]);
    }
    assert Lower(Lower(s)) == Lower(s);
  }

  /* ---------------- LemmaRepository::upsert ---------------- */

  /** The lemmas after `upsert($lang, $head, $pos, $gender, $features)`, and the id returned. */
  function UpsertLemma(
    ms: seq<Lemma>, lang: nat, head: string, pos: Option<string>,
    gender: Option<string>, features: Option<Json.Json>): (r: (seq<Lemma>, nat))
  {
    match IndexWhere(ms, HasLemmaKey(lang, head, pos))
    case Some(i) => (ms[i := ms[i].(gender := gender, features := features)], i)
    case None => (ms + [Lemma(lang, head, Normalize(head), pos, gender, features)], |ms|)
  }

  /**
   * upsert keeps (language, headword, pos) unique; the lemma returned has
   * that key and the given gender and features, even when they are null;
   * at most one row is added and no other row changes.
   */
  lemma UpsertKeepsKeys(
    ms: seq<Lemma>, lang: nat, head: string, pos: Option<string>,
    gender: Option<string>, features: Option<Json.Json>)
    requires LemmaKeysUnique(ms)
    ensures var (ms', id) := UpsertLemma(ms, lang, head, pos, gender, features);
      LemmaKeysUnique(ms') && |ms| <= |ms'| <= |ms| + 1 && id < |ms'|
      && ms'[id].language == lang && ms'[id].headword == head && ms'[id].pos == pos
      && ms'[id].gender == gender && ms'[id].features == features
      && forall i | 0 <= i < |ms| && i != id :: ms'[i] == ms[i]
  {
    var (ms', id) := UpsertLemma(ms, lang, head, pos, gender, features);
    if IndexWhere(ms, HasLemmaKey(lang, head, pos)).None? {
      assert forall i | 0 <= i < |ms| :: ms'[i] == ms[i];
    }
  }

  /**
   * An existing lemma with the same key is returned and only its gender and
   * features change; its language, headword, pos and normal form stay.
   */
  lemma UpsertFindsExisting(
    ms: seq<Lemma>, i: nat, lang: nat, head: string, pos: Option<string>,
    gender: Option<string>, features: Option<Json.Json>)
    requires LemmaKeysUnique(ms)
    requires i < |ms| && ms[i].language == lang && ms[i].headword == head && ms[i].pos == pos
    ensures UpsertLemma(ms, lang, head, pos, gender, features)
      == (ms[i := ms[i].(gender := gender, features := features)], i)
  {
    var p := HasLemmaKey(lang, head, pos);
    assert p(ms[i]);
    assert forall k | 0 <= k < |ms| && k != i :: !p(ms[k]) by {
      forall k | 0 <= k < |ms| && k != i ensures !p(ms[k]) {
        if k < i { assert !SameLemmaKey(ms[k], ms[i]); } else { assert !SameLemmaKey(ms[i], ms[k]); }
      }
    }
  }

  /** A new key makes a new lemma whose normal form is the normalised headword. */
  lemma UpsertAppends(
    ms: seq<Lemma>, lang: nat, head: string, pos: Option<string>,
    gender: Option<string>, features: Option<Json.Json>)
    requires forall i | 0 <= i < |ms| :: !(ms[i].language == lang && ms[i].headword == head && ms[i].pos == pos)
    ensures UpsertLemma(ms, lang, head, pos, gender, features)
      == (ms + [Lemma(lang, head, Normalize(head), pos, gender, features)], |ms|)
  {
  }

  /* ---------------- translation edges ---------------- */

  /** The edges after adding (src, dst) unless an edge for that pair exists, and whether it was added. */
  function AddEdge(es: seq<Translation>, src: nat, dst: nat, rank: Option<int>): (r: (seq<Translation>, bool))
  {
    match IndexWhere(es, Joins(src, dst))
    case Some(_) => (es, false)
    case None => (es + [Translation(src, dst, rank)], true)
  }

  /** An edge between two stored lemmas, added by `AddEdge`, keeps the graph valid. */
  lemma AddEdgeKeepsValid(g: Graph, src: nat, dst: nat, rank: Option<int>)
    requires g.Valid() && src < |g.lemmas| && dst < |g.lemmas|
    ensures g.(edges := AddEdge(g.edges, src, dst, rank).0).Valid()
  {
    AddEdgeKeepsKeys(g.edges, src, dst, rank);
    var es := AddEdge(g.edges, src, dst, rank).0;
    assert forall i | 0 <= i < |es| :: es[i].src < |g.lemmas| && es[i].dst < |g.lemmas| by {
      forall i | 0 <= i < |es| ensures es[i].src < |g.lemmas| && es[i].dst < |g.lemmas| {
        if i < |g.edges| {
          assert es[i] == g.edges[i];
        }
      }
    }
  }

  /** An edge is added exactly when its pair is new, so (src, dst) stays unique. */
  lemma AddEdgeKeepsKeys(es: seq<Translation>, src: nat, dst: nat, rank: Option<int>)
    requires EdgeKeysUnique(es)
    ensures var (es', added) := AddEdge(es, src, dst, rank);
      EdgeKeysUnique(es')
      && (added <==> forall i | 0 <= i < |es| :: es[i].src != src || es[i].dst != dst)
      && es' == (if added then es + [Translation(src, dst, rank)] else es)
  {
    var p := Joins(src, dst);
    var found := IndexWhere(es, p);
    if found.Some? {
      assert p(es[found.value]);
    }
  }

  /* ---------------- the store ---------------- */

  /** A graph is still valid after its language table grows with unique codes. */
  lemma LanguagesGrow(g: Graph, ls: seq<Language>)
    requires g.Valid() && |g.languages| <= |ls| && LanguageKeysUnique(ls)
    ensures g.(languages := ls).Valid()
  {
  }

  /** A graph is still valid after its lemma table grows with unique keys in known languages. */
  lemma LemmasGrow(g: Graph, ms: seq<Lemma>)
    requires g.Valid() && |g.lemmas| <= |ms| && LemmaKeysUnique(ms)
    requires forall i | 0 <= i < |ms| :: ms[i].language < |g.languages|
    ensures g.(lemmas := ms).Valid()
  {
  }

  /** The database, as the repositories see it once changes are persisted. */
  class Store {
    var languages: seq<Language>
    var lemmas: seq<Lemma>
    var senses: seq<Sense>
    var edges: seq<Translation>
    var dictionaries: seq<Dictionary>

    function Snapshot(): Graph
      reads this
    {
      Graph(languages, lemmas, senses, edges, dictionaries)
    }

    predicate Valid()
      reads this
    {
      Snapshot().Valid()
    }

    constructor ()
      ensures Valid() && Snapshot() == Graph([], [], [], [], [])
    {
      languages, lemmas, senses, edges, dictionaries := [], [], [], [], [];
    }

    /** `LanguageRepository::getOrCreate`: only the language table changes. */
    method GetOrCreate(code3: string, code2: Option<string>, name: Option<string>) returns (id: nat)
      requires Valid()
      modifies this
      ensures Valid()
      ensures (languages, id) == GetOrCreateLanguage(old(languages), code3, code2, name)
      ensures lemmas == old(lemmas) && senses == old(senses) && edges == old(edges)
      ensures dictionaries == old(dictionaries)
    {
      GetOrCreateKeepsKeys(languages, code3, code2, name);
      LanguagesGrow(Snapshot(), GetOrCreateLanguage(languages, code3, code2, name).0);
      var found := IndexWhere(languages, HasCode3(code3));
      if found.Some? {
        id := found.value;
        if Given(code2) && languages[id].code2 != code2 {
          languages := languages[id := languages[id].(code2 := code2)];
        }
        if Given(name) && languages[id].name != name.value {
          languages := languages[id := languages[id].(name := name.value)];
        }
        assert languages == old(languages)[id := Refresh(old(languages)[id], code2, name)];
        assert GetOrCreateLanguage(old(languages), code3, code2, name).1 == id;
      } else {
        languages := languages + [Language(code3, code2, name.GetOr(code3))];
        id := |languages| - 1;
      }
    }

    /** `LemmaRepository::upsert`: only the lemma table changes. */
    method Upsert(lang: nat, head: string, pos: Option<string>, gender: Option<string>, features: Option<Json.Json>)
      returns (id: nat)
      requires Valid() && lang < |languages|
      modifies this
      ensures Valid()
      ensures (lemmas, id) == UpsertLemma(old(lemmas), lang, head, pos, gender, features)
      ensures languages == old(languages) && senses == old(senses) && edges == old(edges)
      ensures dictionaries == old(dictionaries)
    {
      UpsertKeepsKeys(lemmas, lang, head, pos, gender, features);
      LemmasGrow(Snapshot(), UpsertLemma(lemmas, lang, head, pos, gender, features).0);
      var norm := Normalize(head);
      var found := IndexWhere(lemmas, HasLemmaKey(lang, head, pos));
      if found.None? {
        lemmas := lemmas + [Lemma(lang, head, norm, pos, None, None)];
        id := |lemmas| - 1;
      } else {
        id := found.value;
      }
      lemmas := lemmas[id := lemmas[id].(gender := gender, features := features)];
      if found.None? {
        assert lemmas == old(lemmas) + [Lemma(lang, head, Normalize(head), pos, gender, features)];
      } else {
        assert lemmas == old(lemmas)[id := old(lemmas)[id].(gender := gender, features := features)];
      }
    }
  }
}
