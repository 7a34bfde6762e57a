/**
 * Word-by-word translation over the lexical graph: language codes are
 * resolved to languages, a token is matched against source lemmas by
 * headword or normal form, and the target-language headwords its
 * translation edges lead to are ranked and de-duplicated. The service only
 * reads the graph.
 */
module DbLookup {
  import opened Wrappers
  import opened Text
  import opened LexicalGraph

  /* ---------------- requireLang ---------------- */

  function HasCode2(code2: string): Language -> bool
  {
    (l: Language) => l.code2 == Some(code2)
  }

  /** The code as `requireLang` looks it up: trimmed and lower-cased. */
  function LangCode(code: string): string
  {
    AsciiLower(Trim(code))
  }

  /**
   * `requireLang($code)`: a two-letter code is looked up as ISO 639-1 and
   * anything else as ISO 639-3; on a miss a three-letter code is retried as
   * ISO 639-1 with its first two letters, and any other code as ISO 639-3.
   */
  function RequireLang(ls: seq<Language>, code: string): (r: Result<nat>)
    ensures r.Success? ==> r.value < |ls|
  {
    var c := LangCode(code);
    var first := if |c| == 2 then IndexWhere(ls, HasCode2(c)) else IndexWhere(ls, HasCode3(c));
    var found :=
      if first.Some? then first
      else if |c| == 3 then IndexWhere(ls, HasCode2(c[..2]))
      else IndexWhere(ls, HasCode3(c));
    if found.Some? then Success(found.value) else Failure("Unknown language code: " + c)
  }

  /**
   * Which codes resolve, and to what: a two-letter code finds a language by
   * ISO 639-1 code, or failing that by ISO 639-3 code; a three-letter code
   * by ISO 639-3 code, or failing that by the ISO 639-1 code of its first two
   * letters; any other code only by ISO 639-3 code. The first kind tried
   * wins, and an unknown code is reported with the code as looked up.
   */
  lemma RequireLangResolves(ls: seq<Language>, code: string)
    ensures var c := LangCode(code); var r := RequireLang(ls, code);
      (|c| == 2 ==> (r.Success? <==> exists i | 0 <= i < |ls| :: ls[i].code2 == Some(c) || ls[i].code3 == c))
      && (|c| == 3 ==> (r.Success? <==> exists i | 0 <= i < |ls| :: ls[i].code3 == c || ls[i].code2 == Some(c[..2])))
      && (|c| != 2 && |c| != 3 ==> (r.Success? <==> exists i | 0 <= i < |ls| :: ls[i].code3 == c))
      && (r.Failure? ==> r.error == "Unknown language code: " + c)
  {
    var c := LangCode(code);
    var r := RequireLang(ls, code);
    if r.Failure? {
      if |c| == 2 {
        assert forall i | 0 <= i < |ls| :: !HasCode2(c)(ls[i]) && !HasCode3(c)(ls[i]);
      } else if |c| == 3 {
        assert forall i | 0 <= i < |ls| :: !HasCode2(c[..2])(ls[i]) && !HasCode3(c)(ls[i]);
      } else {
        assert forall i | 0 <= i < |ls| :: !HasCode3(c)(ls[i]);
      }
    }
  }

  /** The preferred kind of code decides when it matches. */
  lemma RequireLangPrefers(ls: seq<Language>, code: string, i: nat)
    requires i < |ls|
    ensures var c := LangCode(code); var r := RequireLang(ls, code);
      (|c| == 2 && ls[i].code2 == Some(c) ==> r.Success? && ls[r.value].code2 == Some(c))
      && (|c| != 2 && ls[i].code3 == c ==> r.Success? && ls[r.value].code3 == c)
  {
    var c := LangCode(code);
    if |c| == 2 && ls[i].code2 == Some(c) {
      assert HasCode2(c)(ls[i]);
    }
    if |c| != 2 && ls[i].code3 == c {
      assert HasCode3(c)(ls[i]);
    }
  }

  /* ---------------- candidate source lemmas ---------------- */

  /** `le.language = :lang AND (le.headword = :h OR le.norm_headword = :n)`. */
  predicate Matches(m: Lemma, src: nat, token: string)
  {
    m.language == src && (m.headword == token || m.norm == Normalize(token))
  }

  /** The ids below n of the matching lemmas, in id order. */
  function MatchingIds(ms: seq<Lemma>, src: nat, token: string, n: nat): (r: seq<nat>)
    requires n <= |ms|
    ensures forall k | 0 <= k < |r| :: r[k] < n && Matches(ms[r[k]], src, token)
    ensures forall i | 0 <= i < n && Matches(ms[i], src, token) :: i in r
    ensures forall a, b | 0 <= a < b < |r| :: r[a] < r[b]
  {
    if n == 0 then []
    else
      var r := MatchingIds(ms, src, token, n - 1);
      if Matches(ms[n - 1], src, token) then r + [n - 1] else r
  }

  /** `setMaxResults(5)`: at most five matching lemmas, taken in id order. */
  function Candidates(ms: seq<Lemma>, src: nat, token: string): (r: seq<nat>)
  {
    var all := MatchingIds(ms, src, token, |ms|);
    if |all| <= 5 then all else all[..5]
  }

  /**
   * At most five candidates, each a lemma of the source language whose
   * headword is the token or whose normal form is the token's; when fewer
   * than five, every such lemma is a candidate.
   */
  lemma CandidatesMatch(ms: seq<Lemma>, src: nat, token: string)
    ensures var r := Candidates(ms, src, token);
      |r| <= 5 && (forall k | 0 <= k < |r| :: r[k] < |ms| && Matches(ms[r[k]], src, token))
      && (|r| < 5 ==> forall i | 0 <= i < |ms| && Matches(ms[i], src, token) :: i in r)
  {
  }

  /* ---------------- ranked translations of one lemma ---------------- */

  /** One result row: its sort key `COALESCE(t.rank, 100000)` and the target headword. */
  datatype Row = Row(key: int, headword: string)

  function RankKey(rank: Option<int>): int
  {
    if rank.Some? then rank.value else 100000
  }

  /** `ORDER BY COALESCE(t.rank, 100000), ld.headword`. */
  predicate RowBefore(a: Row, b: Row)
  {
    a.key < b.key || (a.key == b.key && LexLess(a.headword, b.headword))
  }

  /** An edge from lemma `from` into a lemma of language `dst`. */
  predicate Feeds(ms: seq<Lemma>, e: Translation, from: nat, dst: nat)
  {
    e.src == from && e.dst < |ms| && ms[e.dst].language == dst
  }

  /** The rows the query joins, in edge order, before sorting. */
  function RowsOf(ms: seq<Lemma>, es: seq<Translation>, from: nat, dst: nat): seq<Row>
  {
    if es == [] then []
    else
      var rest := RowsOf(ms, es[1..], from, dst);
      if Feeds(ms, es[0], from, dst) then [Row(RankKey(es[0].rank), ms[es[0].dst].headword)] + rest
      else rest
  }

  /** Every row comes from an edge of the lemma into the target language. */
  lemma {:induction false} RowsComeFromEdges(ms: seq<Lemma>, es: seq<Translation>, from: nat, dst: nat, row: Row)
    requires row in RowsOf(ms, es, from, dst)
    ensures exists i | 0 <= i < |es| :: Feeds(ms, es[i], from, dst) && ms[es[i].dst].headword == row.headword
  {
    if Feeds(ms, es[0], from, dst) && row == Row(RankKey(es[0].rank), ms[es[0].dst].headword) {
      assert Feeds(ms, es[0], from, dst);
    } else {
      RowsComeFromEdges(ms, es[1..], from, dst, row);
      var i :| 0 <= i < |es[1..]| && Feeds(ms, es[1..][i], from, dst) && ms[es[1..][i].dst].headword == row.headword;
      assert es[1..][i] == es[i + 1];
    }
  }

  lemma RowOrder(a: Row, b: Row, c: Row)
    ensures !RowBefore(a, a)
    ensures RowBefore(a, b) && RowBefore(b, c) ==> RowBefore(a, c)
    ensures a == b || RowBefore(a, b) || RowBefore(b, a)
  {
    LexLessIrreflexive(a.headword);
    LexLessTotal(a.headword, b.headword);
    if RowBefore(a, b) && RowBefore(b, c) && a.key == b.key == c.key {
      LexLessTransitive(a.headword, b.headword, c.headword);
    }
  }

  predicate Sorted(s: seq<Row>)
  {
    forall i, j | 0 <= i < j < |s| :: !RowBefore(s[j], s[i])
  }

  function Insert(x: Row, s: seq<Row>): seq<Row>
  {
    if s == [] || !RowBefore(s[0], x) then [x] + s else [s[0]] + Insert(x, s[1..])
  }

  function SortRows(s: seq<Row>): seq<Row>
  {
    if s == [] then [] else Insert(s[0], SortRows(s[1..]))
  }

  lemma {:induction false} InsertSorts(x: Row, s: seq<Row>)
    requires Sorted(s)
    ensures Sorted(Insert(x, s)) && multiset(Insert(x, s)) == multiset(s) + multiset{x}
  {
    InsertPermutes(x, s);
    if s == [] || !RowBefore(s[0], x) {
      forall j | 0 <= j < |s| ensures !RowBefore(s[j], x) {
        if j > 0 {
          RowOrder(s[j], s[0], x);
          RowOrder(s[0], s[j], x);
          RowOrder(s[j], x, s[0]);
        }
      }
      SortedCons(x, s);
    } else {
      InsertSorts(x, s[1..]);
      var t := Insert(x, s[1..]);
      assert s == [s[0]] + s[1..];
      forall j | 0 <= j < |t| ensures !RowBefore(t[j], s[0]) {
        assert t[j] in multiset(s[1..]) + multiset{x};
        if t[j] == x {
          RowOrder(x, s[0], x);
        } else {
          var k :| 0 <= k < |s[1..]| && s[1..][k] == t[j];
          assert s[k + 1] == t[j];
        }
      }
      SortedCons(s[0], t);
    }
  }

  lemma {:induction false} InsertPermutes(x: Row, s: seq<Row>)
    ensures multiset(Insert(x, s)) == multiset(s) + multiset{x}
  {
    if s != [] && RowBefore(s[0], x) {
      InsertPermutes(x, s[1..]);
      assert s == [s[0]] + s[1..];
    }
  }

  lemma SortedCons(a: Row, t: seq<Row>)
    requires Sorted(t) && forall j | 0 <= j < |t| :: !RowBefore(t[j], a)
    ensures Sorted([a] + t)
  {
    var s := [a] + t;
    forall i, j | 0 <= i < j < |s| ensures !RowBefore(s[j], s[i]) {
      assert s[j] == t[j - 1];
      if i > 0 {
        assert s[i] == t[i - 1];
      }
    }
  }

  /** The sort puts the rows in query order and keeps every row exactly as often. */
  lemma {:induction false} SortRowsSorts(s: seq<Row>)
    ensures Sorted(SortRows(s)) && multiset(SortRows(s)) == multiset(s)
  {
    if s != [] {
      SortRowsSorts(s[1..]);
      InsertSorts(s[0], SortRows(s[1..]));
      assert s == [s[0]] + s[1..];
    }
  }

  function Headwords(rows: seq<Row>): (r: seq<string>)
    ensures |r| == |rows| && forall k | 0 <= k < |rows| :: r[k] == rows[k].headword
  {
    seq(|rows|, k requires 0 <= k < |rows| => rows[k].headword)
  }

  /** The headwords the query returns for one source lemma: sorted, then `LIMIT :lim`. */
  function Translations(g: Graph, from: nat, dst: nat, limit: nat): seq<string>
  {
    var rows := SortRows(RowsOf(g.lemmas, g.edges, from, dst));
    Headwords(if |rows| <= limit then rows else rows[..limit])
  }

  /** At most `limit` rows, in query order, each the headword of a target lemma of an edge. */
  lemma TranslationsRanked(g: Graph, from: nat, dst: nat, limit: nat, h: string)
    ensures var rows := SortRows(RowsOf(g.lemmas, g.edges, from, dst));
      |Translations(g, from, dst, limit)| <= limit && Sorted(rows)
      && multiset(rows) == multiset(RowsOf(g.lemmas, g.edges, from, dst))
    ensures h in Translations(g, from, dst, limit) ==>
      exists i | 0 <= i < |g.edges| :: Feeds(g.lemmas, g.edges[i], from, dst) && g.lemmas[g.edges[i].dst].headword == h
  {
    var all := RowsOf(g.lemmas, g.edges, from, dst);
    var rows := SortRows(all);
    SortRowsSorts(all);
    if h in Translations(g, from, dst, limit) {
      var kept := if |rows| <= limit then rows else rows[..limit];
      var k :| 0 <= k < |kept| && kept[k].headword == h;
      assert kept[k] in multiset(all);
      RowsComeFromEdges(g.lemmas, g.edges, from, dst, kept[k]);
    }
  }

  /** Every edge of the lemma into the target language gives a row. */
  lemma {:induction false} RowsOfHasEdges(ms: seq<Lemma>, es: seq<Translation>, from: nat, dst: nat, i: nat)
    requires i < |es| && Feeds(ms, es[i], from, dst)
    ensures Row(RankKey(es[i].rank), ms[es[i].dst].headword) in RowsOf(ms, es, from, dst)
  {
    if i > 0 {
      assert es[1..][i - 1] == es[i];
      RowsOfHasEdges(ms, es[1..], from, dst, i - 1);
    }
  }

  /**
   * The query gives rows exactly when the limit is positive and the lemma
   * has an edge into the target language; with a limit no smaller than
   * the number of such edges, every one of their target headwords is kept.
   */
  lemma TranslationsComplete(g: Graph, from: nat, dst: nat, limit: nat)
    ensures Translations(g, from, dst, limit) == [] <==> limit == 0 || RowsOf(g.lemmas, g.edges, from, dst) == []
    ensures |RowsOf(g.lemmas, g.edges, from, dst)| <= limit ==>
      forall i | 0 <= i < |g.edges| && Feeds(g.lemmas, g.edges[i], from, dst) ::
        g.lemmas[g.edges[i].dst].headword in Translations(g, from, dst, limit)
  {
    var all := RowsOf(g.lemmas, g.edges, from, dst);
    var rows := SortRows(all);
    SortRowsSorts(all);
    assert |rows| == |multiset(rows)| == |multiset(all)| == |all|;
    if |all| <= limit {
      forall i | 0 <= i < |g.edges| && Feeds(g.lemmas, g.edges[i], from, dst)
        ensures g.lemmas[g.edges[i].dst].headword in Translations(g, from, dst, limit)
      {
        var row := Row(RankKey(g.edges[i].rank), g.lemmas[g.edges[i].dst].headword);
        RowsOfHasEdges(g.lemmas, g.edges, from, dst, i);
        assert row in multiset(rows);
        var k :| 0 <= k < |rows| && rows[k] == row;
        assert Translations(g, from, dst, limit)[k] == row.headword;
      }
    }
  }

  /* ---------------- lookupAlternates ---------------- */

  /** The position of the first candidate with an edge into the target language; |cands| when none has. */
  function FirstFed(g: Graph, cands: seq<nat>, dst: nat): (k: nat)
    ensures k <= |cands|
    ensures k < |cands| ==> RowsOf(g.lemmas, g.edges, cands[k], dst) != []
    ensures forall j | 0 <= j < k :: RowsOf(g.lemmas, g.edges, cands[j], dst) == []
  {
    if cands == [] then 0
    else if RowsOf(g.lemmas, g.edges, cands[0], dst) != [] then 0
    else 1 + FirstFed(g, cands[1..], dst)
  }

  /** The rows of the first candidate that has any. */
  function FirstTranslations(g: Graph, cands: seq<nat>, dst: nat, limit: nat): seq<string>
  {
    if cands == [] then []
    else
      var rows := Translations(g, cands[0], dst, limit);
      if rows != [] then rows else FirstTranslations(g, cands[1..], dst, limit)
  }

  /** `array_values(array_unique($out))`: the first occurrence of each value, in order. */
  function Dedupe(xs: seq<string>): seq<string>
  {
    if xs == [] then []
    else
      var r := Dedupe(xs[..|xs| - 1]);
      if xs[|xs| - 1] in r then r else r + [xs[|xs| - 1]]
  }

  function FirstIndex(xs: seq<string>, x: string): (k: nat)
    requires x in xs
    ensures k < |xs| && xs[k] == x && forall j | 0 <= j < k :: xs[j] != x
  {
    if xs[0] == x then 0 else 1 + FirstIndex(xs[1..], x)
  }

  lemma FirstIndexOfPrefix(xs: seq<string>, n: nat, x: string)
    requires n <= |xs| && x in xs[..n]
    ensures FirstIndex(xs, x) == FirstIndex(xs[..n], x)
  {
    var k := FirstIndex(xs[..n], x);
    var k' := FirstIndex(xs, x);
    assert xs[k] == x;
  }

  /** De-duplication keeps exactly the values of the input, each once, and the first value first. */
  lemma {:induction false} DedupeSpec(xs: seq<string>)
    ensures forall x :: x in Dedupe(xs) <==> x in xs
    ensures forall i, j | 0 <= i < j < |Dedupe(xs)| :: Dedupe(xs)[i] != Dedupe(xs)[j]
    ensures xs != [] ==> Dedupe(xs) != [] && Dedupe(xs)[0] == xs[0]
    decreases |xs|
  {
    if xs != [] {
      var n := |xs| - 1;
      assert xs == xs[..n] + [xs[n]];
      DedupeSpec(xs[..n]);
      if n == 0 {
        assert Dedupe(xs[..n]) == [];
      } else {
        assert xs[..n][0] == xs[0];
      }
    }
  }

  /** The values kept are in the order of their first occurrences in the input. */
  lemma {:induction false} DedupeKeepsFirstOrder(xs: seq<string>)
    ensures forall x | x in Dedupe(xs) :: x in xs
    ensures forall i, j | 0 <= i < j < |Dedupe(xs)| :: FirstIndex(xs, Dedupe(xs)[i]) < FirstIndex(xs, Dedupe(xs)[j])
    decreases |xs|
  {
    if xs != [] {
      var n := |xs| - 1;
      var front, last := xs[..n], xs[n];
      assert xs == front + [last];
      DedupeKeepsFirstOrder(front);
      var r := Dedupe(front);
      forall i | 0 <= i < |r| ensures FirstIndex(xs, r[i]) == FirstIndex(front, r[i]) < n {
        FirstIndexOfPrefix(xs, n, r[i]);
      }
      if last !in r {
        assert last !in front by {
          DedupeSpec(front);
        }
        assert FirstIndex(xs, last) == n;
      }
    }
  }

  /**
   * `lookupAlternates($src, $dst, $token, $limit)`: the de-duplicated
   * rows of the first candidate lemma that has translations.
   */
  function LookupAlternates(g: Graph, src: nat, dst: nat, token: string, limit: nat): seq<string>
  {
    Dedupe(FirstTranslations(g, Candidates(g.lemmas, src, token), dst, limit))
  }

  /** A source lemma the token can reach: its headword is the token or it normalises alike. */
  predicate Reaches(g: Graph, e: Translation, src: nat, dst: nat, token: string, h: string)
  {
    e.src < |g.lemmas| && Matches(g.lemmas[e.src], src, token)
    && e.dst < |g.lemmas| && g.lemmas[e.dst].language == dst && g.lemmas[e.dst].headword == h
  }

  /** The rows of the first candidate with any, so only translations of candidates. */
  lemma {:induction false} FirstTranslationsFrom(g: Graph, cands: seq<nat>, src: nat, dst: nat, token: string, limit: nat, h: string)
    requires forall k | 0 <= k < |cands| :: cands[k] < |g.lemmas| && Matches(g.lemmas[cands[k]], src, token)
    requires h in FirstTranslations(g, cands, dst, limit)
    ensures exists i | 0 <= i < |g.edges| :: Reaches(g, g.edges[i], src, dst, token, h)
  {
    if Translations(g, cands[0], dst, limit) != [] {
      TranslationsRanked(g, cands[0], dst, limit, h);
      var i :| 0 <= i < |g.edges| && Feeds(g.lemmas, g.edges[i], cands[0], dst) && g.lemmas[g.edges[i].dst].headword == h;
      assert Reaches(g, g.edges[i], src, dst, token, h);
    } else {
      FirstTranslationsFrom(g, cands[1..], src, dst, token, limit, h);
    }
  }

  /**
   * Every alternate is the headword of a target-language lemma that a
   * translation edge leads to from a source-language lemma matching the
   * token; the alternates are distinct, and with no candidate there are none.
   */
  lemma AlternatesAreTranslations(g: Graph, src: nat, dst: nat, token: string, limit: nat, h: string)
    ensures h in LookupAlternates(g, src, dst, token, limit) ==>
      exists i | 0 <= i < |g.edges| :: Reaches(g, g.edges[i], src, dst, token, h)
    ensures var r := LookupAlternates(g, src, dst, token, limit);
      forall i, j | 0 <= i < j < |r| :: r[i] != r[j]
    ensures Candidates(g.lemmas, src, token) == [] ==> LookupAlternates(g, src, dst, token, limit) == []
  {
    var out := FirstTranslations(g, Candidates(g.lemmas, src, token), dst, limit);
    DedupeSpec(out);
    CandidatesMatch(g.lemmas, src, token);
    if h in LookupAlternates(g, src, dst, token, limit) {
      FirstTranslationsFrom(g, Candidates(g.lemmas, src, token), src, dst, token, limit, h);
    }
  }

  /** The scan stops at the first candidate with an edge into the target language. */
  lemma {:induction false} FirstTranslationsPicks(g: Graph, cands: seq<nat>, dst: nat, limit: nat)
    ensures var k := FirstFed(g, cands, dst);
      FirstTranslations(g, cands, dst, limit) == if limit > 0 && k < |cands| then Translations(g, cands[k], dst, limit) else []
  {
    if cands != [] {
      TranslationsComplete(g, cands[0], dst, limit);
      FirstTranslationsPicks(g, cands[1..], dst, limit);
    }
  }

  /**
   * No alternate is missed: there are alternates exactly when the limit is
   * positive and some candidate has an edge into the target language, and
   * then they are the de-duplicated rows of the first such candidate, so
   * every headword among those rows is an alternate.
   */
  lemma AlternatesComplete(g: Graph, src: nat, dst: nat, token: string, limit: nat)
    ensures var cands := Candidates(g.lemmas, src, token);
      LookupAlternates(g, src, dst, token, limit) != [] <==>
        limit > 0 && exists j | 0 <= j < |cands| :: RowsOf(g.lemmas, g.edges, cands[j], dst) != []
    ensures var cands := Candidates(g.lemmas, src, token);
      var k := FirstFed(g, cands, dst);
      limit > 0 && k < |cands| ==>
        && LookupAlternates(g, src, dst, token, limit) == Dedupe(Translations(g, cands[k], dst, limit))
        && forall h :: h in LookupAlternates(g, src, dst, token, limit) <==> h in Translations(g, cands[k], dst, limit)
  {
    var cands := Candidates(g.lemmas, src, token);
    var k := FirstFed(g, cands, dst);
    FirstTranslationsPicks(g, cands, dst, limit);
    var out := FirstTranslations(g, cands, dst, limit);
    DedupeSpec(out);
    if k < |cands| {
      TranslationsComplete(g, cands[k], dst, limit);
    }
  }

  lemma FirstTranslationsStep(g: Graph, cands: seq<nat>, i: nat, dst: nat, limit: nat)
    requires i < |cands|
    ensures FirstTranslations(g, cands[i..], dst, limit) ==
      if Translations(g, cands[i], dst, limit) != [] then Translations(g, cands[i], dst, limit)
      else FirstTranslations(g, cands[i + 1..], dst, limit)
  {
    assert cands[i..][1..] == cands[i + 1..];
  }

  /** The loop of `lookupAlternates`: stop at the first candidate that yields rows. */
  method CollectAlternates(g: Graph, src: nat, dst: nat, token: string, limit: nat) returns (alts: seq<string>)
    ensures alts == LookupAlternates(g, src, dst, token, limit)
  {
    var cands := Candidates(g.lemmas, src, token);
    var out: seq<string> := [];
    var i := 0;
    while i < |cands|
      invariant 0 <= i <= |cands|
      invariant out == []
      invariant FirstTranslations(g, cands, dst, limit) == FirstTranslations(g, cands[i..], dst, limit)
    {
      FirstTranslationsStep(g, cands, i, dst, limit);
      out := out + Translations(g, cands[i], dst, limit);
      if out != [] {
        assert out == FirstTranslations(g, cands, dst, limit);
        break;
      }
      i := i + 1;
    }
    if i == |cands| {
      assert cands[i..] == [];
    }
    assert out == FirstTranslations(g, cands, dst, limit);
    alts := Dedupe(out);
  }

  /* ---------------- lookupOne ---------------- */

  /** `implode($sep, $xs)`. */
  function Join(xs: seq<string>, sep: string): string
  {
    if xs == [] then "" else if |xs| == 1 then xs[0] else xs[0] + sep + Join(xs[1..], sep)
  }

  /** The joined text starts with the first value, and a single value is joined as itself. */
  lemma JoinStartsWithFirst(xs: seq<string>, sep: string)
    requires xs != []
    ensures |xs[0]| <= |Join(xs, sep)| && Join(xs, sep)[..|xs[0]|] == xs[0]
    ensures |xs| == 1 ==> Join(xs, sep) == xs[0]
  {
    if |xs| > 1 {
      assert Join(xs, sep) == xs[0] + (sep + Join(xs[1..], sep));
    }
  }

  /** `lookupOne($srcCode, $dstCode, $token, $limit)`; an unknown code is `Failure`. */
  function LookupOne(g: Graph, srcCode: string, dstCode: string, token: string, limit: nat): Result<Option<string>>
  {
    var src :- RequireLang(g.languages, srcCode);
    var dst :- RequireLang(g.languages, dstCode);
    var defs := LookupAlternates(g, src, dst, token, limit);
    if defs == [] then Success(None) else Success(Some(Join(defs, "; ")))
  }

  /**
   * lookupOne fails exactly when a code is unknown; it gives null when
   * there are no alternates, and otherwise text that starts with the first.
   */
  lemma LookupOneSpec(g: Graph, srcCode: string, dstCode: string, token: string, limit: nat)
    ensures LookupOne(g, srcCode, dstCode, token, limit).Success?
      <==> RequireLang(g.languages, srcCode).Success? && RequireLang(g.languages, dstCode).Success?
    ensures var r := LookupOne(g, srcCode, dstCode, token, limit);
      r.Success? ==>
        var alts := LookupAlternates(g, RequireLang(g.languages, srcCode).value, RequireLang(g.languages, dstCode).value, token, limit);
        (r.value.None? <==> alts == [])
        && (r.value.Some? ==> |alts[0]| <= |r.value.value| && r.value.value[..|alts[0]|] == alts[0])
  {
    var r := LookupOne(g, srcCode, dstCode, token, limit);
    if r.Success? && r.value.Some? {
      JoinStartsWithFirst(LookupAlternates(g, RequireLang(g.languages, srcCode).value,
        RequireLang(g.languages, dstCode).value, token, limit), "; ");
    }
  }

  /* ---------------- translateToken ---------------- */

  /** The first alternate of a lookup, if any. */
  function Best(g: Graph, src: nat, dst: nat, token: string, limit: nat): Option<string>
  {
    var alts := LookupAlternates(g, src, dst, token, limit);
    if alts == [] then None else Some(alts[0])
  }

  /**
   * `translateToken`: the exact word, then its lower-case form when that
   * differs, then its normal form when that differs from the lower-case
   * form, and otherwise the word itself.
   */
  function TranslateToken(g: Graph, src: nat, dst: nat, word: string, limit: nat): string
  {
    var exact := Best(g, src, dst, word, limit);
    var lower := Lower(word);
    var norm := Normalize(word);
    if exact.Some? then exact.value
    else if lower != word && Best(g, src, dst, lower, limit).Some? then Best(g, src, dst, lower, limit).value
    else if norm != lower && Best(g, src, dst, norm, limit).Some? then Best(g, src, dst, norm, limit).value
    else word
  }

  /**
   * The fallback order: an exact hit wins, the lower-case form is tried
   * only when it differs, the normal form only when it differs from the
   * lower-case form, and a word none of them finds comes back unchanged.
   */
  lemma TranslateTokenOrder(g: Graph, src: nat, dst: nat, word: string, limit: nat)
    ensures Best(g, src, dst, word, limit).Some? ==>
      TranslateToken(g, src, dst, word, limit) == Best(g, src, dst, word, limit).value
    ensures Best(g, src, dst, word, limit).None? && Lower(word) != word && Best(g, src, dst, Lower(word), limit).Some? ==>
      TranslateToken(g, src, dst, word, limit) == Best(g, src, dst, Lower(word), limit).value
    ensures Normalize(word) == Lower(word) && (Lower(word) == word || Best(g, src, dst, Lower(word), limit).None?) ==>
      TranslateToken(g, src, dst, word, limit) == Best(g, src, dst, word, limit).GetOr(word)
    ensures limit == 0 ==> TranslateToken(g, src, dst, word, limit) == word
  {
    if limit == 0 {
      forall t: string ensures Best(g, src, dst, t, 0).None? {
        ZeroLimitFindsNothing(g, Candidates(g.lemmas, src, t), dst);
      }
    }
  }

  lemma {:induction false} ZeroLimitFindsNothing(g: Graph, cands: seq<nat>, dst: nat)
    ensures FirstTranslations(g, cands, dst, 0) == []
  {
    if cands != [] {
      ZeroLimitFindsNothing(g, cands[1..], dst);
    }
  }

  /**
   * A word that translateToken changes became the headword of a
   * target-language lemma that an edge leads to from a source-language
   * lemma whose headword is the word, its lower-case form or its normal
   * form, or whose normal form is the word's.
   */
  lemma TranslateTokenIsTranslation(g: Graph, src: nat, dst: nat, word: string, limit: nat)
    ensures var r := TranslateToken(g, src, dst, word, limit);
      r != word ==> exists i | 0 <= i < |g.edges| ::
        var e := g.edges[i];
        e.src < |g.lemmas| && g.lemmas[e.src].language == src
        && (g.lemmas[e.src].headword in {word, Lower(word), Normalize(word)} || g.lemmas[e.src].norm == Normalize(word))
        && e.dst < |g.lemmas| && g.lemmas[e.dst].language == dst && g.lemmas[e.dst].headword == r
  {
    var r := TranslateToken(g, src, dst, word, limit);
    NormalizeIdempotent(word);
    if r != word {
      var t :=
        if Best(g, src, dst, word, limit).Some? then word
        else if Lower(word) != word && Best(g, src, dst, Lower(word), limit).Some? then Lower(word)
        else Normalize(word);
      assert Best(g, src, dst, t, limit) == Some(r);
      AlternatesAreTranslations(g, src, dst, t, limit, r);
      assert Normalize(t) == Normalize(word);
      var i :| 0 <= i < |g.edges| && Reaches(g, g.edges[i], src, dst, t, r);
    }
  }

  /**
   * No translation is missed: when some candidate for the exact word has
   * an edge into the target language and the limit is positive, the word
   * becomes the top-ranked headword of the first such candidate; failing
   * that, the same holds for the lower-case form when it differs.
   */
  lemma TranslateTokenFinds(g: Graph, src: nat, dst: nat, word: string, limit: nat)
    ensures var cands := Candidates(g.lemmas, src, word);
      var k := FirstFed(g, cands, dst);
      limit > 0 && k < |cands| ==>
        Translations(g, cands[k], dst, limit) != [] && TranslateToken(g, src, dst, word, limit) == Translations(g, cands[k], dst, limit)[0]
    ensures var cands := Candidates(g.lemmas, src, word);
      var lowered := Candidates(g.lemmas, src, Lower(word));
      var k := FirstFed(g, lowered, dst);
      limit > 0 && FirstFed(g, cands, dst) == |cands| && Lower(word) != word && k < |lowered| ==>
        Translations(g, lowered[k], dst, limit) != [] && TranslateToken(g, src, dst, word, limit) == Translations(g, lowered[k], dst, limit)[0]
  {
    var cands := Candidates(g.lemmas, src, word);
    var lowered := Candidates(g.lemmas, src, Lower(word));
    AlternatesComplete(g, src, dst, word, limit);
    AlternatesComplete(g, src, dst, Lower(word), limit);
    var k := FirstFed(g, cands, dst);
    if limit > 0 && k < |cands| {
      TranslationsComplete(g, cands[k], dst, limit);
      DedupeSpec(Translations(g, cands[k], dst, limit));
    }
    var kl := FirstFed(g, lowered, dst);
    if limit > 0 && k == |cands| && kl < |lowered| {
      TranslationsComplete(g, lowered[kl], dst, limit);
      DedupeSpec(Translations(g, lowered[kl], dst, limit));
    }
  }

  /* ---------------- translateWordByWord ---------------- */

  function TranslateChunk(g: Graph, src: nat, dst: nat, chunk: string, limit: nat): string
  {
    if IsWordChunk(chunk) then TranslateToken(g, src, dst, chunk, limit) else chunk
  }

  function TranslateChunks(g: Graph, src: nat, dst: nat, chunks: seq<string>, limit: nat): string
  {
    if chunks == [] then []
    else TranslateChunks(g, src, dst, chunks[..|chunks| - 1], limit) + TranslateChunk(g, src, dst, chunks[|chunks| - 1], limit)
  }

  /**
   * `translateWordByWord($srcCode, $dstCode, $text, $maxAlternates)`: both
   * codes are resolved before the text is split.
   */
  function WordByWord(g: Graph, srcCode: string, dstCode: string, text: string, limit: nat): Result<string>
  {
    var src :- RequireLang(g.languages, srcCode);
    var dst :- RequireLang(g.languages, dstCode);
    Success(TranslateChunks(g, src, dst, Tokenize(text), limit))
  }

  /** No letter run changes: the pieces come back as they were split. */
  predicate NoHits(g: Graph, src: nat, dst: nat, chunks: seq<string>, limit: nat)
  {
    forall i | 0 <= i < |chunks| :: IsWordChunk(chunks[i]) ==> TranslateToken(g, src, dst, chunks[i], limit) == chunks[i]
  }

  lemma {:induction false} TranslateChunksUnchanged(g: Graph, src: nat, dst: nat, chunks: seq<string>, limit: nat)
    requires NoHits(g, src, dst, chunks, limit)
    ensures TranslateChunks(g, src, dst, chunks, limit) == Concat(chunks)
  {
    if chunks != [] {
      var front := chunks[..|chunks| - 1];
      var last := chunks[|chunks| - 1];
      assert NoHits(g, src, dst, front, limit) by {
        forall i | 0 <= i < |front| && IsWordChunk(front[i])
          ensures TranslateToken(g, src, dst, front[i], limit) == front[i]
        {
          assert front[i] == chunks[i];
        }
      }
      TranslateChunksUnchanged(g, src, dst, front, limit);
      assert chunks == front + [last];
      ConcatAppend(front, [last]);
      assert Concat([last]) == last;
    }
  }

  /**
   * An unknown code fails even for text without letters; with both codes
   * known, text without letters, or whose letter runs have no translation,
   * comes back unchanged.
   */
  lemma WordByWordKeepsText(g: Graph, srcCode: string, dstCode: string, text: string, limit: nat)
    ensures WordByWord(g, srcCode, dstCode, text, limit).Failure?
      <==> RequireLang(g.languages, srcCode).Failure? || RequireLang(g.languages, dstCode).Failure?
    ensures WordByWord(g, srcCode, dstCode, text, limit).Success? && HasNoLetter(text) ==>
      WordByWord(g, srcCode, dstCode, text, limit).value == text
    ensures (WordByWord(g, srcCode, dstCode, text, limit).Success?
      && NoHits(g, RequireLang(g.languages, srcCode).value, RequireLang(g.languages, dstCode).value, Tokenize(text), limit))
      ==> WordByWord(g, srcCode, dstCode, text, limit).value == text
  {
    var r := WordByWord(g, srcCode, dstCode, text, limit);
    if r.Success? {
      var src, dst := RequireLang(g.languages, srcCode).value, RequireLang(g.languages, dstCode).value;
      TokenizeConcat(text);
      if HasNoLetter(text) {
        TokenizeLetterless(text);
        TranslateChunksUnchanged(g, src, dst, Tokenize(text), limit);
      }
      if NoHits(g, src, dst, Tokenize(text), limit) {
        TranslateChunksUnchanged(g, src, dst, Tokenize(text), limit);
      }
    }
  }

  lemma TranslateChunksSnoc(g: Graph, src: nat, dst: nat, chunks: seq<string>, i: nat, limit: nat)
    requires i < |chunks|
    ensures TranslateChunks(g, src, dst, chunks[..i + 1], limit)
      == TranslateChunks(g, src, dst, chunks[..i], limit) + TranslateChunk(g, src, dst, chunks[i], limit)
  {
    assert chunks[..i + 1][..i] == chunks[..i];
  }

  /** `translateWordByWord`, with its loop over the split text. */
  method TranslateWordByWord(g: Graph, srcCode: string, dstCode: string, text: string, limit: nat)
    returns (r: Result<string>)
    ensures r == WordByWord(g, srcCode, dstCode, text, limit)
  {
    var src := RequireLang(g.languages, srcCode);
    var dst := RequireLang(g.languages, dstCode);
    if src.Failure? {
      return Failure(src.error);
    }
    if dst.Failure? {
      return Failure(dst.error);
    }
    var chunks := Tokenize(text);
    var out := "";
    for i := 0 to |chunks|
      invariant out == TranslateChunks(g, src.value, dst.value, chunks[..i], limit)
    {
      TranslateChunksSnoc(g, src.value, dst.value, chunks, i, limit);
      var chunk := chunks[i];
      if chunk == "" {
        assert out + TranslateChunk(g, src.value, dst.value, chunk, limit) == out;
        continue;
      }
      if IsWordChunk(chunk) {
        out := out + TranslateToken(g, src.value, dst.value, chunk, limit);
      } else {
        out := out + chunk;
      }
    }
    assert chunks[..|chunks|] == chunks;
    r := Success(out);
  }
}
