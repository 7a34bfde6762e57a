/**
 * A rule layer over word-by-word dictionary translation: from English to
 * Spanish an article takes the gender and number that the dictionary entry
 * of the next word suggests; every other piece of the text is translated
 * word by word or kept. The dictionary calls are parameters: `lookupOne`
 * gives the definition text of a word, `direct` the translation of a single
 * word and `wordByWord` the translation of a whole text.
 */
module RuleTranslator {
  import opened Wrappers
  import opened Text

  /* ---------------- guessGenderNumberEs ---------------- */

  /** `\w` without the `u` modifier: ASCII letters, digits and underscore. */
  predicate IsWordChar(c: char)
  {
    'a' <= c <= 'z' || 'A' <= c <= 'Z' || '0' <= c <= '9' || c == '_'
  }

  /** `\bw\b` at position i, for a word w made of word characters. */
  predicate WordAt(s: string, i: nat, w: string)
  {
    i + |w| <= |s| && s[i..i + |w|] == w
    && (i == 0 || !IsWordChar(s[i - 1]))
    && (i + |w| == |s| || !IsWordChar(s[i + |w|]))
  }

  predicate HasWord(s: string, w: string)
  {
    exists i | 0 <= i <= |s| :: WordAt(s, i, w)
  }

  /** `\b(noun|sust|sustantivo)\b` ending just before position e. */
  predicate NounTagEndsAt(s: string, e: nat)
  {
    (e >= 4 && (WordAt(s, e - 4, "noun") || WordAt(s, e - 4, "sust")))
    || (e >= 10 && WordAt(s, e - 10, "sustantivo"))
  }

  /** `\b(noun|sust|sustantivo)\b.*\bx\b`: a noun tag and, later on the same line, the word x. */
  predicate TaggedWord(s: string, x: string)
  {
    exists e, j | 0 <= e <= j <= |s| :: NounTagEndsAt(s, e) && '\n' !in s[e..j] && WordAt(s, j, x)
  }

  /** `\bx\W`: the letter x standing alone, followed by a character that is not a word character. */
  predicate BareLetter(s: string, x: char)
  {
    exists i | 0 <= i < |s| - 1 :: s[i] == x && (i == 0 || !IsWordChar(s[i - 1])) && !IsWordChar(s[i + 1])
  }

  /** The snippet as the patterns see it: lower-cased and padded with a space on each side. */
  function Padded(snippet: string): string
  {
    " " + Lower(snippet) + " "
  }

  predicate MasculineCue(s: string)
  {
    TaggedWord(s, "m") || BareLetter(s, 'm')
  }

  predicate FeminineCue(s: string)
  {
    TaggedWord(s, "f") || BareLetter(s, 'f')
  }

  /** The gender half of `guessGenderNumberEs`: each later test overrides the earlier ones. */
  function GuessGender(snippet: string): Option<string>
  {
    var s := Padded(snippet);
    var g1 := if MasculineCue(s) then Some("m") else None;
    var g2 := if FeminineCue(s) then Some("f") else g1;
    var g3 := if HasWord(s, "nm") then Some("m") else g2;
    if HasWord(s, "nf") then Some("f") else g3
  }

  /** The number half of `guessGenderNumberEs`: `\b(pl|plural)\b`. */
  function GuessPlural(snippet: string): bool
  {
    var s := Padded(snippet);
    HasWord(s, "pl") || HasWord(s, "plural")
  }

  /**
   * The precedence of the gender cues: "nf", then "nm", then any feminine
   * cue, then any masculine cue; with no cue there is no gender.
   */
  lemma GenderPrecedence(snippet: string)
    ensures var s := Padded(snippet); var g := GuessGender(snippet);
      (HasWord(s, "nf") ==> g == Some("f"))
      && (!HasWord(s, "nf") && HasWord(s, "nm") ==> g == Some("m"))
      && (!HasWord(s, "nf") && !HasWord(s, "nm") && FeminineCue(s) ==> g == Some("f"))
      && (!HasWord(s, "nf") && !HasWord(s, "nm") && !FeminineCue(s) && MasculineCue(s) ==> g == Some("m"))
      && (g.None? <==> !HasWord(s, "nf") && !HasWord(s, "nm") && !FeminineCue(s) && !MasculineCue(s))
  {
  }

  /**
   * In a text that ends with a character that is not a word character, a
   * letter standing alone as a word is followed by some character, so it is
   * a bare letter.
   */
  lemma TaggedIsBare(s: string, x: char)
    requires IsWordChar(x) && |s| > 0 && !IsWordChar(s[|s| - 1])
    ensures TaggedWord(s, [x]) ==> BareLetter(s, x)
  {
    if TaggedWord(s, [x]) {
      var e, j :| 0 <= e <= j <= |s| && NounTagEndsAt(s, e) && '\n' !in s[e..j] && WordAt(s, j, [x]);
      WordIsBare(s, j, x);
    }
  }

  lemma WordIsBare(s: string, j: nat, x: char)
    requires IsWordChar(x) && |s| > 0 && !IsWordChar(s[|s| - 1])
    requires WordAt(s, j, [x])
    ensures BareLetter(s, x)
  {
    assert s[j..j + 1][0] == s[j];
    assert j < |s| - 1;
  }

  /**
   * Because the snippet is padded with a space, a noun tag followed by the
   * letter never decides anything the bare letter does not: each cue holds
   * exactly when the letter stands alone somewhere in the snippet.
   */
  lemma NounTagAddsNothing(snippet: string)
    ensures MasculineCue(Padded(snippet)) <==> BareLetter(Padded(snippet), 'm')
    ensures FeminineCue(Padded(snippet)) <==> BareLetter(Padded(snippet), 'f')
  {
    var s := Padded(snippet);
    assert s[|s| - 1] == ' ';
    TaggedIsBare(s, 'm');
    TaggedIsBare(s, 'f');
  }

  /** A word whose first letter does not occur in the text is not in it. */
  lemma AbsentWord(s: string, w: string)
    requires w != [] && w[0] !in s
    ensures !HasWord(s, w)
  {
    forall i | 0 <= i <= |s| ensures !WordAt(s, i, w) {
      if i + |w| <= |s| {
        assert s[i..i + |w|][0] == s[i];
      }
    }
  }

  /** A letter that does not occur in the text gives no cue. */
  lemma AbsentLetter(s: string, x: char)
    requires x !in s
    ensures !TaggedWord(s, [x]) && !BareLetter(s, x)
  {
    AbsentWord(s, [x]);
  }

  lemma PaddedCasa()
    ensures Padded("casa nf") == " casa nf "
  {
    assert Lower("casa nf") == "casa nf";
  }

  lemma PaddedLibros()
    ensures Padded("libros (m.) pl") == " libros (m.) pl "
  {
    assert Lower("libros (m.) pl") == "libros (m.) pl";
  }

  /** "casa nf" reads as feminine singular. */
  lemma GuessCasa()
    ensures GuessGender("casa nf") == Some("f") && !GuessPlural("casa nf")
  {
    PaddedCasa();
    var s := " casa nf ";
    assert WordAt(s, 6, "nf");
    AbsentWord(s, "pl");
    AbsentWord(s, "plural");
  }

  /** The cues in the padded "libros (m.) pl": a bare m, no f, no nm or nf, and pl. */
  lemma LibrosCues(t: string)
    requires t == " libros (m.) pl "
    ensures MasculineCue(t) && !FeminineCue(t)
    ensures !HasWord(t, "nm") && !HasWord(t, "nf") && HasWord(t, "pl")
  {
    assert t[9] == 'm' && t[8] == '(' && t[10] == '.';
    assert BareLetter(t, 'm');
    assert WordAt(t, 13, "pl");
    AbsentWord(t, "nf");
    AbsentWord(t, "nm");
    AbsentLetter(t, 'f');
  }

  /** "libros (m.) pl" reads as masculine plural. */
  lemma GuessLibros()
    ensures GuessGender("libros (m.) pl") == Some("m") && GuessPlural("libros (m.) pl")
  {
    PaddedLibros();
    LibrosCues(" libros (m.) pl ");
  }

  /* ---------------- the article rule ---------------- */

  /** `($src === 'eng' || $src === 'en') && ($dst === 'spa' || $dst === 'es')`. */
  predicate EnToEs(src: string, dst: string)
  {
    (src == "eng" || src == "en") && (dst == "spa" || dst == "es")
  }

  predicate IsArticle(lower: string)
  {
    lower == "a" || lower == "an" || lower == "the"
  }

  /** The Spanish article for `a`/`an` or `the`: feminine only for gender 'f'. */
  function Article(lower: string, gender: Option<string>, plural: bool): string
  {
    var fem := gender == Some("f");
    if lower == "the" then (if plural then (if fem then "las" else "los") else (if fem then "la" else "el"))
    else if plural then (if fem then "unas" else "unos") else (if fem then "una" else "un")
  }

  /**
   * `a`/`an` become un, una, unos or unas and `the` el, la, los or las;
   * the article chosen shows the number and whether the gender was 'f'.
   */
  lemma ArticleAgreement(lower: string, g: Option<string>, p: bool, g': Option<string>, p': bool)
    requires IsArticle(lower)
    ensures lower != "the" ==> Article(lower, g, p) in {"un", "una", "unos", "unas"}
    ensures lower == "the" ==> Article(lower, g, p) in {"el", "la", "los", "las"}
    ensures Article(lower, g, p) == Article(lower, g', p') ==> p == p' && (g == Some("f") <==> g' == Some("f"))
  {
  }

  /** The first piece at or after j that is a letter run; |parts| when there is none. */
  function NextWord(parts: seq<string>, j: nat): (k: nat)
    requires j <= |parts|
    ensures j <= k <= |parts|
    ensures k < |parts| ==> IsWordChunk(parts[k])
    ensures forall m | j <= m < k :: !IsWordChunk(parts[m])
    decreases |parts| - j
  {
    if j == |parts| || IsWordChunk(parts[j]) then j else NextWord(parts, j + 1)
  }

  /**
   * The output for piece i: a separator is kept; an English article with a
   * later word is the agreeing Spanish article; any other word is its
   * direct translation.
   */
  function RenderChunk(
    parts: seq<string>, i: nat, enToEs: bool,
    lookupOne: string -> Option<string>, direct: string -> string): string
    requires i < |parts|
  {
    var j := NextWord(parts, i + 1);
    RenderWord(parts[i], if j < |parts| then Some(parts[j]) else None, enToEs, lookupOne, direct)
  }

  /** One piece, given the word that follows it in the text, if there is one. */
  function RenderWord(
    chunk: string, next: Option<string>, enToEs: bool,
    lookupOne: string -> Option<string>, direct: string -> string): string
  {
    if !IsWordChunk(chunk) then chunk
    else
      var lower := Lower(chunk);
      if enToEs && IsArticle(lower) && next.Some? then
        var value := lookupOne(next.value).GetOr("");
        Article(lower, GuessGender(value), GuessPlural(value))
      else direct(chunk)
  }

  /** The output for the first n pieces. */
  function Rendered(
    parts: seq<string>, n: nat, enToEs: bool,
    lookupOne: string -> Option<string>, direct: string -> string): string
    requires n <= |parts|
  {
    if n == 0 then ""
    else Rendered(parts, n - 1, enToEs, lookupOne, direct) + RenderChunk(parts, n - 1, enToEs, lookupOne, direct)
  }

  /** `translate($src, $dst, $text, $mode)`. */
  function RuleTranslation(
    src: string, dst: string, text: string, mode: string,
    wordByWord: string -> string, lookupOne: string -> Option<string>, direct: string -> string): string
  {
    if mode != "rules" then wordByWord(text)
    else
      var parts := Tokenize(text);
      Rendered(parts, |parts|, EnToEs(src, dst), lookupOne, direct)
  }

  /**
   * Separators are copied, and the article rule is the only departure from
   * direct translation: it fires only from English to Spanish, only on
   * a, an or the, and only when a letter run follows, whose dictionary
   * entry then decides the article.
   */
  lemma RuleScope(
    parts: seq<string>, i: nat, enToEs: bool,
    lookupOne: string -> Option<string>, direct: string -> string)
    requires i < |parts|
    ensures !IsWordChunk(parts[i]) ==> RenderChunk(parts, i, enToEs, lookupOne, direct) == parts[i]
    ensures IsWordChunk(parts[i]) && !(enToEs && IsArticle(Lower(parts[i]))) ==>
      RenderChunk(parts, i, enToEs, lookupOne, direct) == direct(parts[i])
    ensures IsWordChunk(parts[i]) && (forall m | i < m < |parts| :: !IsWordChunk(parts[m])) ==>
      RenderChunk(parts, i, enToEs, lookupOne, direct) == direct(parts[i])
    ensures IsWordChunk(parts[i]) && enToEs && IsArticle(Lower(parts[i])) && i + 1 < |parts| && IsWordChunk(parts[i + 1]) ==>
      var value := lookupOne(parts[i + 1]).GetOr("");
      RenderChunk(parts, i, enToEs, lookupOne, direct) == Article(Lower(parts[i]), GuessGender(value), GuessPlural(value))
  {
  }

  /**
   * A piece's output depends only on the piece and what follows it, so the
   * word after an article is not consumed: it is translated on its own turn
   * exactly as it would be at the start of the text.
   */
  lemma RenderChunkLooksAhead(
    parts: seq<string>, i: nat, enToEs: bool,
    lookupOne: string -> Option<string>, direct: string -> string)
    requires i < |parts|
    ensures RenderChunk(parts, i, enToEs, lookupOne, direct) == RenderChunk(parts[i..], 0, enToEs, lookupOne, direct)
  {
    var q := parts[i..];
    NextWordShift(parts, i, i + 1);
    var j := NextWord(parts, i + 1);
    assert q[0] == parts[i] && NextWord(q, 1) == j - i;
    var next := if j < |parts| then Some(parts[j]) else None;
    if j < |parts| {
      assert q[j - i] == parts[j];
    }
    assert next == if NextWord(q, 1) < |q| then Some(q[NextWord(q, 1)]) else None;
    assert RenderChunk(parts, i, enToEs, lookupOne, direct) == RenderWord(parts[i], next, enToEs, lookupOne, direct);
    assert RenderChunk(q, 0, enToEs, lookupOne, direct) == RenderWord(q[0], next, enToEs, lookupOne, direct);
  }

  lemma {:induction false} NextWordShift(parts: seq<string>, i: nat, j: nat)
    requires i < j <= |parts|
    ensures NextWord(parts, j) == i + NextWord(parts[i..], j - i)
    decreases |parts| - j
  {
    if j < |parts| {
      assert parts[i..][j - i] == parts[j];
      if !IsWordChunk(parts[j]) {
        NextWordShift(parts, i, j + 1);
      }
    }
  }

  /** Direct translation of every letter run, separators kept. */
  function DirectRendered(parts: seq<string>, n: nat, direct: string -> string): string
    requires n <= |parts|
  {
    if n == 0 then ""
    else DirectRendered(parts, n - 1, direct) + (if IsWordChunk(parts[n - 1]) then direct(parts[n - 1]) else parts[n - 1])
  }

  /** Outside English to Spanish the rule layer is plain word-by-word translation. */
  lemma {:induction false} OtherPairsAreDirect(
    parts: seq<string>, n: nat, lookupOne: string -> Option<string>, direct: string -> string)
    requires n <= |parts|
    ensures Rendered(parts, n, false, lookupOne, direct) == DirectRendered(parts, n, direct)
  {
    if n > 0 {
      OtherPairsAreDirect(parts, n - 1, lookupOne, direct);
    }
  }

  lemma {:induction false} RunLengthSplit(x: string, y: string, letters: bool)
    requires forall i | 0 <= i < |x| :: IsLetter(x[i]) == letters
    requires y == [] || IsLetter(y[0]) != letters
    ensures RunLength(x + y, letters) == |x|
  {
    if x != [] {
      assert (x + y)[1..] == x[1..] + y;
      RunLengthSplit(x[1..], y, letters);
    } else {
      assert x + y == y;
    }
  }

  /** A leading run that stops where y starts is the first piece. */
  lemma TokenizeStep(x: string, y: string)
    requires x != [] && forall i | 0 <= i < |x| :: IsLetter(x[i]) == IsLetter(x[0])
    requires y == [] || IsLetter(y[0]) != IsLetter(x[0])
    ensures Tokenize(x + y) == [x] + Tokenize(y)
  {
    RunLengthSplit(x, y, IsLetter(x[0]));
    assert (x + y)[0] == x[0];
    assert (x + y)[..|x|] == x && (x + y)[|x|..] == y;
  }

  /** An article, a space and a word split into exactly those three pieces. */
  lemma TokenizeArticleNoun(article: string, noun: string)
    requires IsWordChunk(article) && IsWordChunk(noun)
    ensures Tokenize(article + " " + noun) == [article, " ", noun]
  {
    var tail := " " + noun;
    assert article + " " + noun == article + tail;
    assert !IsLetter(' ') && tail[0] == ' ' && tail == " " + noun;
    assert IsLetter(article[0]) && IsLetter(noun[0]);
    TokenizeStep(article, tail);
    TokenizeStep(" ", noun);
    assert noun + [] == noun;
    TokenizeStep(noun, []);
  }

  /**
   * "a" and a word from English to Spanish, the word's entry reading as
   * feminine singular, give "una", the space, and the word's own direct
   * translation: the word after the article is still translated.
   */
  lemma TranslateIndefiniteFeminine(
    noun: string, lookupOne: string -> Option<string>, direct: string -> string, wordByWord: string -> string)
    requires IsWordChunk(noun) && lookupOne(noun).Some?
    requires GuessGender(lookupOne(noun).value) == Some("f") && !GuessPlural(lookupOne(noun).value)
    ensures RuleTranslation("en", "es", "a " + noun, "rules", wordByWord, lookupOne, direct) == "una " + direct(noun)
  {
    var parts := ["a", " ", noun];
    assert IsWordChunk("a") by { assert IsLetter('a'); }
    assert "a " + noun == "a" + " " + noun;
    TokenizeArticleNoun("a", noun);
    assert EnToEs("en", "es");
    RenderIndefiniteFeminine(noun, lookupOne, direct);
  }

  lemma RenderIndefiniteFeminine(noun: string, lookupOne: string -> Option<string>, direct: string -> string)
    requires IsWordChunk(noun) && lookupOne(noun).Some?
    requires GuessGender(lookupOne(noun).value) == Some("f") && !GuessPlural(lookupOne(noun).value)
    ensures Rendered(["a", " ", noun], 3, true, lookupOne, direct) == "una " + direct(noun)
  {
    var parts := ["a", " ", noun];
    assert IsWordChunk("a") by { assert IsLetter('a'); }
    assert Lower("a") == "a";
    assert !IsWordChunk(parts[1]) by { assert !IsLetter(parts[1][0]); }
    assert NextWord(parts, 1) == 2;
    var r0 := RenderChunk(parts, 0, true, lookupOne, direct);
    assert r0 == RenderWord("a", Some(noun), true, lookupOne, direct) == "una";
    var r1 := RenderChunk(parts, 1, true, lookupOne, direct);
    assert r1 == " ";
    var r2 := RenderChunk(parts, 2, true, lookupOne, direct);
    assert r2 == RenderWord(noun, None, true, lookupOne, direct) == direct(noun);
    RenderedStep(parts, 0, true, lookupOne, direct);
    RenderedStep(parts, 1, true, lookupOne, direct);
    RenderedStep(parts, 2, true, lookupOne, direct);
    assert "" + r0 == r0 && r0 + r1 == "una ";
  }

  lemma RenderedStep(
    parts: seq<string>, i: nat, enToEs: bool,
    lookupOne: string -> Option<string>, direct: string -> string)
    requires i < |parts|
    ensures Rendered(parts, i + 1, enToEs, lookupOne, direct)
      == Rendered(parts, i, enToEs, lookupOne, direct) + RenderChunk(parts, i, enToEs, lookupOne, direct)
  {
  }

  /** `translate`, with its loop over the pieces and the inner loop that peeks at the next word. */
  method Translate(
    src: string, dst: string, text: string, mode: string,
    wordByWord: string -> string, lookupOne: string -> Option<string>, direct: string -> string)
    returns (out: string)
    ensures out == RuleTranslation(src, dst, text, mode, wordByWord, lookupOne, direct)
  {
    if mode != "rules" {
      return wordByWord(text);
    }
    var parts := Tokenize(text);
    var isEnToEs := EnToEs(src, dst);
    out := "";
    for i := 0 to |parts|
      invariant out == Rendered(parts, i, isEnToEs, lookupOne, direct)
    {
      RenderedStep(parts, i, isEnToEs, lookupOne, direct);
      var chunk := parts[i];
      if chunk == "" {
        continue;
      }
      if !IsWordChunk(chunk) {
        out := out + chunk;
        continue;
      }
      var lower := Lower(chunk);
      if isEnToEs && IsArticle(lower) {
        var j := i + 1;
        while j < |parts| && !IsWordChunk(parts[j])
          invariant i + 1 <= j <= |parts|
          invariant NextWord(parts, i + 1) == NextWord(parts, j)
        {
          j := j + 1;
        }
        if j < |parts| {
          var noun := parts[j];
          var value := lookupOne(noun).GetOr("");
          var gender, plural := GuessGender(value), GuessPlural(value);
          out := out + Article(lower, gender, plural);
          continue;
        }
      }
      out := out + direct(chunk);
    }
  }
}
