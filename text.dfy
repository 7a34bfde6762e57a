/**
 * The text primitives the PHP code takes from PCRE, mbstring, intl and the
 * standard library, each given a concrete, deliberately small definition:
 * the letter class `\p{L}`, `mb_strtolower`, NFD decomposition followed by
 * removal of `\p{Mn}`, `strip_tags`, `trim`, the `\s` class, the control
 * character class `[\x00-\x08\x0B\x0C\x0E-\x1F]`, `mb_substr($s, 0, n)`, and
 * the letter-run split `preg_split('~(\p{L}+)~u', ..., PREG_SPLIT_DELIM_CAPTURE)`.
 */
module Text {

  /* ---------------- character classes ---------------- */

  /**
   * `\p{L}`, restricted to the blocks this model knows: ASCII and Latin-1
   * letters, Latin Extended-A/B and IPA, the Greek letters of the Greek and
   * Coptic block up to U+03CE (accented ones included), Cyrillic, Latin
   * Extended Additional and the CJK unified ideographs.
   */
  predicate IsLetter(c: char)
  {
    var n := c as int;
    ('A' as int <= n <= 'Z' as int) || ('a' as int <= n <= 'z' as int)
    || n == 0xAA || n == 0xB5 || n == 0xBA
    || (0xC0 <= n <= 0x2C1 && n != 0xD7 && n != 0xF7)
    || n == 0x386 || (0x388 <= n <= 0x38A) || n == 0x38C || (0x38E <= n <= 0x3CE && n != 0x3A2)
    || (0x400 <= n <= 0x481) || (0x48A <= n <= 0x52F)
    || (0x1E00 <= n <= 0x1EFF)
    || (0x4E00 <= n <= 0x9FFF)
  }

  /** `\p{Mn}` restricted to the combining diacritical marks block. */
  predicate IsNonspacingMark(c: char)
  {
    0x300 <= c as int <= 0x36F
  }

  /** The class `[\x00-\x08\x0B\x0C\x0E-\x1F]`: C0 controls other than TAB, LF and CR. */
  predicate IsControl(c: char)
  {
    var n := c as int;
    0 <= n <= 0x08 || n == 0x0B || n == 0x0C || (0x0E <= n <= 0x1F)
  }

  /** The characters PHP's `trim` removes by default: space, TAB, LF, CR, NUL, VT. */
  predicate IsTrimmable(c: char)
  {
    c == ' ' || c == '\t' || c == '\n' || c == '\r' || c as int == 0 || c as int == 0x0B
  }

  /**
   * `\s` under the `u` modifier, as PCRE2 defines it with Unicode properties:
   * the separators `\p{Z}`, the horizontal white space `\h` (which adds tab
   * and U+180E) and the vertical white space `\v` (LF to CR and U+0085).
   */
  predicate IsSpace(c: char)
  {
    var n := c as int;
    n == 0x20 || (0x09 <= n <= 0x0D) || n == 0x85 || n == 0xA0 || n == 0x1680 || n == 0x180E
    || (0x2000 <= n <= 0x200A) || n == 0x2028 || n == 0x2029 || n == 0x202F
    || n == 0x205F || n == 0x3000
  }

  /* ---------------- searching ---------------- */

  /**
   * The position of the first `c` in `s`, or `|s|` when there is none: where
   * `strpos` stops, and where `explode($c, $s, 2)` splits.
   */
  function IndexOf(s: string, c: char): (k: nat)
    ensures k <= |s|
    ensures forall i | 0 <= i < k :: s[i] != c
    ensures k < |s| ==> s[k] == c
  {
    if s == [] || s[0] == c then 0 else 1 + IndexOf(s[1..], c)
  }

  /** Joining a `c`-free head to a tail with `c` puts the first `c` right after the head. */
  lemma {:induction false} IndexOfJoin(head: string, c: char, tail: string)
    requires forall i | 0 <= i < |head| :: head[i] != c
    ensures IndexOf(head + [c] + tail, c) == |head|
  {
    if head != [] {
      assert (head + [c] + tail)[1..] == head[1..] + [c] + tail;
      IndexOfJoin(head[1..], c, tail);
    }
  }

  /** The position of the last `c` in `s`, -1 when there is none: where `dirname` and `pathinfo` cut. */
  function LastIndexOf(s: string, c: char): (k: int)
    ensures -1 <= k < |s|
    ensures k >= 0 ==> s[k] == c
    ensures forall i | k < i < |s| :: s[i] != c
  {
    if s == [] then -1
    else if s[|s| - 1] == c then |s| - 1
    else LastIndexOf(s[..|s| - 1], c)
  }

  /* ---------------- case and diacritic folding ---------------- */

  /** `mb_strtolower` on one character, for ASCII, Latin-1, basic Greek and Cyrillic capitals. */
  function LowerChar(c: char): char
  {
    var n := c as int;
    if 'A' as int <= n <= 'Z' as int then (n + 32) as char
    else if 0xC0 <= n <= 0xDE && n != 0xD7 then (n + 32) as char
    else if 0x391 <= n <= 0x3A9 && n != 0x3A2 then (n + 32) as char
    else if 0x410 <= n <= 0x42F then (n + 32) as char
    else if 0x400 <= n <= 0x40F then (n + 80) as char
    else c
  }

  function Lower(s: string): (r: string)
    ensures |r| == |s|
    ensures forall i | 0 <= i < |s| :: r[i] == LowerChar(s[i])
  {
    seq(|s|, i requires 0 <= i < |s| => LowerChar(s[i]))
  }

  /** `strtolower`: only ASCII capitals change. */
  function AsciiLower(s: string): (r: string)
    ensures |r| == |s|
    ensures forall i | 0 <= i < |s| :: r[i] == (if 'A' <= s[i] <= 'Z' then (s[i] as int + 32) as char else s[i])
  {
    seq(|s|, i requires 0 <= i < |s| => if 'A' <= s[i] <= 'Z' then (s[i] as int + 32) as char else s[i])
  }

  /** The base letter NFD leaves in front of the marks, for the precomposed Latin-1 letters. */
  function BaseLetter(c: char): char
  {
    var n := c as int;
    if 0xE0 <= n <= 0xE5 then 'a' else if n == 0xE7 then 'c'
    else if 0xE8 <= n <= 0xEB then 'e' else if 0xEC <= n <= 0xEF then 'i'
    else if n == 0xF1 then 'n' else if 0xF2 <= n <= 0xF6 then 'o'
    else if 0xF9 <= n <= 0xFC then 'u' else if n == 0xFD || n == 0xFF then 'y'
    else if 0xC0 <= n <= 0xC5 then 'A' else if n == 0xC7 then 'C'
    else if 0xC8 <= n <= 0xCB then 'E' else if 0xCC <= n <= 0xCF then 'I'
    else if n == 0xD1 then 'N' else if 0xD2 <= n <= 0xD6 then 'O'
    else if 0xD9 <= n <= 0xDC then 'U' else if n == 0xDD then 'Y'
    else c
  }

  /** NFD decomposition followed by `preg_replace('~\p{Mn}+~u', '')`. */
  function StripMarks(s: string): (r: string)
    ensures |r| <= |s|
    ensures forall i | 0 <= i < |r| :: !IsNonspacingMark(r[i])
  {
    if s == [] then []
    else if IsNonspacingMark(s[0]) then StripMarks(s[1..])
    else [BaseLetter(s[0])] + StripMarks(s[1..])
  }

  /* ---------------- trimming and white space ---------------- */

  function TrimLeft(s: string): (r: string)
    ensures |r| <= |s| && r == s[|s| - |r|..]
    ensures r != [] ==> !IsTrimmable(r[0])
    ensures forall i | 0 <= i < |s| - |r| :: IsTrimmable(s[i])
  {
    if s != [] && IsTrimmable(s[0]) then TrimLeft(s[1..]) else s
  }

  function TrimRight(s: string): (r: string)
    ensures |r| <= |s| && r == s[..|r|]
    ensures r != [] ==> !IsTrimmable(r[|r| - 1])
    ensures forall i | |r| <= i < |s| :: IsTrimmable(s[i])
  {
    if s != [] && IsTrimmable(s[|s| - 1]) then TrimRight(s[..|s| - 1]) else s
  }

  /** Where `trim`'s result starts in its argument. */
  function TrimStart(s: string): (k: nat)
    ensures k <= |s|
  {
    |s| - |TrimLeft(s)|
  }

  /** PHP `trim`: removes trimmable characters at both ends. */
  function Trim(s: string): string
  {
    TrimRight(TrimLeft(s))
  }

  /** `trim` leaves the infix between a trimmable prefix and a trimmable suffix. */
  lemma TrimInfix(s: string)
    ensures TrimStart(s) + |Trim(s)| <= |s| && Trim(s) == s[TrimStart(s)..TrimStart(s) + |Trim(s)|]
    ensures Trim(s) != [] ==> !IsTrimmable(Trim(s)[0]) && !IsTrimmable(Trim(s)[|Trim(s)| - 1])
    ensures forall i | 0 <= i < TrimStart(s) :: IsTrimmable(s[i])
    ensures forall i | TrimStart(s) + |Trim(s)| <= i < |s| :: IsTrimmable(s[i])
  {
    TrimSlice(s);
    TrimSliceTail(s);
    TrimSliceHead(s);
    TrimEnds(s);
  }

  lemma TrimSlice(s: string)
    ensures TrimStart(s) + |Trim(s)| <= |s| && Trim(s) == s[TrimStart(s)..TrimStart(s) + |Trim(s)|]
  {
    var l := TrimLeft(s);
    var r := TrimRight(l);
    assert Trim(s) == r && TrimStart(s) == |s| - |l|;
    InfixOf(s, l, r);
  }

  lemma TrimSliceTail(s: string)
    ensures forall i | TrimStart(s) + |Trim(s)| <= i < |s| :: IsTrimmable(s[i])
  {
    var l := TrimLeft(s);
    var r := TrimRight(l);
    assert Trim(s) == r && TrimStart(s) == |s| - |l|;
    InfixOf(s, l, r);
  }

  lemma TrimSliceHead(s: string)
    ensures Trim(s) != [] ==> !IsTrimmable(Trim(s)[0])
  {
    var l := TrimLeft(s);
    var r := TrimRight(l);
    assert Trim(s) == r && TrimStart(s) == |s| - |l|;
    InfixOf(s, l, r);
  }

  lemma TrimEnds(s: string)
    ensures Trim(s) != [] ==> !IsTrimmable(Trim(s)[|Trim(s)| - 1])
    ensures forall i | 0 <= i < TrimStart(s) :: IsTrimmable(s[i])
  {
    var l := TrimLeft(s);
    assert Trim(s) == TrimRight(l) && TrimStart(s) == |s| - |l|;
  }

  /** A suffix of s cut down to a prefix of itself is an infix of s, with the cut-off parts trimmable. */
  lemma InfixOf(s: string, l: string, r: string)
    requires |l| <= |s| && l == s[|s| - |l|..] && (l != [] ==> !IsTrimmable(l[0]))
    requires |r| <= |l| && r == l[..|r|] && forall i | |r| <= i < |l| :: IsTrimmable(l[i])
    ensures var k := |s| - |l|; r == s[k..k + |r|]
    ensures r != [] ==> !IsTrimmable(r[0])
    ensures forall i | |s| - |l| + |r| <= i < |s| :: IsTrimmable(s[i])
  {
    var k := |s| - |l|;
    assert r == s[k..k + |r|];
    forall i | k + |r| <= i < |s| ensures IsTrimmable(s[i]) {
      assert s[i] == l[i - k];
    }
  }

  /** Trimming cannot bring in a control character or a `<`. */
  lemma TrimKeepsClean(s: string)
    ensures NoControls(s) ==> NoControls(Trim(s))
    ensures NoTagOpen(s) ==> NoTagOpen(Trim(s))
  {
    TrimInfix(s);
    var k := TrimStart(s);
    var t := Trim(s);
    assert forall i | 0 <= i < |t| :: t[i] == s[k + i];
  }

  /** Drops the leading run of `\s` characters. */
  function DropSpaces(s: string): (r: string)
    ensures |r| <= |s| && r == s[|s| - |r|..]
    ensures r != [] ==> !IsSpace(r[0])
  {
    if s != [] && IsSpace(s[0]) then DropSpaces(s[1..]) else s
  }

  /** `preg_replace('~\s+~u', ' ', $s)`: every maximal run of white space becomes one space. */
  function CollapseSpaces(s: string): (r: string)
    ensures |r| <= |s|
    decreases |s|
  {
    if s == [] then []
    else if IsSpace(s[0]) then [' '] + CollapseSpaces(DropSpaces(s))
    else [s[0]] + CollapseSpaces(s[1..])
  }

  /** No white space other than single spaces. */
  predicate SpacesCollapsed(s: string)
  {
    (forall i | 0 <= i < |s| :: IsSpace(s[i]) ==> s[i] == ' ')
    && (forall i | 0 <= i < |s| - 1 :: !(s[i] == ' ' && s[i + 1] == ' '))
  }

  lemma {:induction false} CollapseSpacesCollapses(s: string)
    ensures SpacesCollapsed(CollapseSpaces(s))
    ensures CollapseSpaces(s) != [] && CollapseSpaces(s)[0] == ' ' ==> s != [] && IsSpace(s[0])
    decreases |s|
  {
    if s == [] {
    } else if IsSpace(s[0]) {
      var d := DropSpaces(s);
      CollapseSpacesCollapses(d);
      var t := CollapseSpaces(d);
      assert t != [] ==> t[0] != ' ';
    } else {
      CollapseSpacesCollapses(s[1..]);
    }
  }

  /** Text without white space comes through the collapse unchanged. */
  lemma {:induction false} CollapseSpacesKeepsSpaceless(s: string)
    requires forall i | 0 <= i < |s| :: !IsSpace(s[i])
    ensures CollapseSpaces(s) == s
  {
    if s != [] {
      CollapseSpacesKeepsSpaceless(s[1..]);
    }
  }

  /** Cutting text never creates a doubled space or a non-space white space character. */
  lemma SpacesCollapsedInfix(s: string, i: nat, j: nat)
    requires SpacesCollapsed(s) && i <= j <= |s|
    ensures SpacesCollapsed(s[i..j])
  {
    var t := s[i..j];
    forall k | 0 <= k < |t| - 1 ensures !(t[k] == ' ' && t[k + 1] == ' ') {
      assert t[k] == s[i + k] && t[k + 1] == s[i + k + 1];
    }
  }

  /* ---------------- markup and controls ---------------- */

  /** Drops everything up to and including the first `>`; all of it when there is none. */
  function SkipTag(s: string): (r: string)
    ensures |r| <= |s| && (|r| < |s| || s == [])
    ensures r == s[|s| - |r|..]
  {
    if s == [] then [] else if s[0] == '>' then s[1..] else SkipTag(s[1..])
  }

  /**
   * `strip_tags` reduced to its core rule: a `<` opens a tag that runs to the
   * next `>`, and an unclosed tag swallows the rest of the text. A NUL is
   * deleted wherever it stands.
   */
  function StripTags(s: string): (r: string)
    ensures |r| <= |s|
    ensures forall i | 0 <= i < |r| :: r[i] != '<' && r[i] != 0 as char
    decreases |s|
  {
    if s == [] then []
    else if s[0] == '<' then StripTags(SkipTag(s[1..]))
    else if s[0] == 0 as char then StripTags(s[1..])
    else [s[0]] + StripTags(s[1..])
  }

  /** The text with every NUL deleted. */
  function DropNul(s: string): (r: string)
    ensures |r| <= |s|
    ensures forall i | 0 <= i < |r| :: r[i] != 0 as char
  {
    if s == [] then []
    else if s[0] == 0 as char then DropNul(s[1..])
    else [s[0]] + DropNul(s[1..])
  }

  /**
   * Text without `<` has no tags to strip: only its NULs go, so text
   * without a NUL either comes back unchanged.
   */
  lemma {:induction false} StripTagsKeepsPlainText(s: string)
    requires forall i | 0 <= i < |s| :: s[i] != '<'
    ensures StripTags(s) == DropNul(s)
    ensures (forall i | 0 <= i < |s| :: s[i] != 0 as char) ==> StripTags(s) == s
  {
    if s != [] {
      StripTagsKeepsPlainText(s[1..]);
    }
  }

  /** `preg_replace('~[\x00-\x08\x0B\x0C\x0E-\x1F]~u', '', $s)` on decoded text. */
  function RemoveControls(s: string): (r: string)
    ensures |r| <= |s|
    ensures forall i | 0 <= i < |r| :: !IsControl(r[i])
  {
    if s == [] then []
    else if IsControl(s[0]) then RemoveControls(s[1..])
    else [s[0]] + RemoveControls(s[1..])
  }

  predicate NoControls(s: string)
  {
    forall i | 0 <= i < |s| :: !IsControl(s[i])
  }

  predicate NoTagOpen(s: string)
  {
    forall i | 0 <= i < |s| :: s[i] != '<'
  }

  lemma {:induction false} StripTagsKeepsNoControls(s: string)
    requires NoControls(s)
    ensures NoControls(StripTags(s))
    decreases |s|
  {
    if s != [] {
      if s[0] == '<' {
        var t := SkipTag(s[1..]);
        assert t == s[1..][|s[1..]| - |t|..];
        StripTagsKeepsNoControls(t);
      } else {
        StripTagsKeepsNoControls(s[1..]);
      }
    }
  }

  lemma {:induction false} CollapseKeepsNoControlsNoTags(s: string)
    ensures NoControls(s) ==> NoControls(CollapseSpaces(s))
    ensures NoTagOpen(s) ==> NoTagOpen(CollapseSpaces(s))
    decreases |s|
  {
    if s != [] {
      if IsSpace(s[0]) {
        var d := DropSpaces(s);
        CollapseKeepsNoControlsNoTags(d);
      } else {
        CollapseKeepsNoControlsNoTags(s[1..]);
      }
    }
  }

  /** Text that is already clean passes each cleaning step unchanged. */
  lemma {:induction false} RemoveControlsKeepsClean(s: string)
    requires NoControls(s)
    ensures RemoveControls(s) == s
  {
    if s != [] {
      RemoveControlsKeepsClean(s[1..]);
    }
  }

  lemma TrimKeepsUntrimmed(s: string)
    requires s != [] ==> !IsTrimmable(s[0]) && !IsTrimmable(s[|s| - 1])
    ensures Trim(s) == s
  {
  }

  lemma {:induction false} CollapseSpacesKeepsCollapsed(s: string)
    requires SpacesCollapsed(s)
    ensures CollapseSpaces(s) == s
  {
    if s != [] {
      SpacesCollapsedInfix(s, 1, |s|);
      if IsSpace(s[0]) {
        assert |s| > 1 ==> !IsSpace(s[1]);
        assert DropSpaces(s) == s[1..];
      }
      CollapseSpacesKeepsCollapsed(s[1..]);
    }
  }

  /** `mb_substr($s, 0, $n)`: a negative length leaves that many characters off the end. */
  function Prefix(s: string, n: int): (r: string)
    ensures |r| <= |s|
    ensures n >= 0 ==> |r| <= n
    ensures r == s[..|r|]
  {
    if n >= 0 then (if n <= |s| then s[..n] else s)
    else if |s| + n >= 0 then s[..|s| + n] else []
  }

  /* ---------------- letter-run tokenisation ---------------- */

  predicate IsWordChunk(c: string)
  {
    |c| > 0 && forall i | 0 <= i < |c| :: IsLetter(c[i])
  }

  predicate HasNoLetter(c: string)
  {
    forall i | 0 <= i < |c| :: !IsLetter(c[i])
  }

  /** Length of the longest prefix whose characters are all letters (or all non-letters). */
  function RunLength(s: string, letters: bool): (k: nat)
    ensures k <= |s|
    ensures forall i | 0 <= i < k :: IsLetter(s[i]) == letters
    ensures k < |s| ==> IsLetter(s[k]) != letters
  {
    if s == [] || IsLetter(s[0]) != letters then 0 else 1 + RunLength(s[1..], letters)
  }

  /**
   * `preg_split('~(\p{L}+)~u', $s, -1, PREG_SPLIT_DELIM_CAPTURE)` with the empty
   * pieces dropped: the maximal runs of letters and of non-letters, in order.
   */
  function Tokenize(s: string): seq<string>
    decreases |s|
  {
    if s == [] then []
    else
      var k := RunLength(s, IsLetter(s[0]));
      [s[..k]] + Tokenize(s[k..])
  }

  function Concat(ss: seq<string>): string
  {
    if ss == [] then [] else ss[0] + Concat(ss[1..])
  }

  lemma {:induction false} ConcatAppend(a: seq<string>, b: seq<string>)
    ensures Concat(a + b) == Concat(a) + Concat(b)
  {
    if a != [] {
      assert (a + b)[1..] == a[1..] + b;
      ConcatAppend(a[1..], b);
    } else {
      assert a + b == b;
    }
  }

  lemma ConcatCons(x: string, rest: seq<string>)
    ensures Concat([x] + rest) == x + Concat(rest)
  {
    assert ([x] + rest)[1..] == rest;
  }

  /** Splitting loses nothing: the pieces concatenate back to the input. */
  lemma {:induction false} TokenizeConcat(s: string)
    ensures Concat(Tokenize(s)) == s
    decreases |s|
  {
    if s != [] {
      var k := RunLength(s, IsLetter(s[0]));
      TokenizeConcat(s[k..]);
      ConcatCons(s[..k], Tokenize(s[k..]));
      assert s[..k] + s[k..] == s;
    }
  }

  /**
   * Every piece is a non-empty run of letters or a non-empty run of
   * non-letters, and neighbouring pieces are of different kinds.
   */
  lemma {:induction false} TokenizeShape(s: string)
    ensures forall i | 0 <= i < |Tokenize(s)| :: |Tokenize(s)[i]| > 0
    ensures forall i | 0 <= i < |Tokenize(s)| :: IsWordChunk(Tokenize(s)[i]) || HasNoLetter(Tokenize(s)[i])
    ensures forall i | 0 <= i < |Tokenize(s)| - 1 :: IsWordChunk(Tokenize(s)[i]) != IsWordChunk(Tokenize(s)[i + 1])
    ensures s != [] ==> Tokenize(s) != [] && Tokenize(s)[0][0] == s[0]
    decreases |s|
  {
    if s != [] {
      var k := RunLength(s, IsLetter(s[0]));
      var t := Tokenize(s);
      TokenizeShape(s[k..]);
      assert t == [s[..k]] + Tokenize(s[k..]);
      if k < |s| {
        assert Tokenize(s[k..])[0][0] == s[k];
        assert IsWordChunk(t[0]) != IsWordChunk(t[1]) by {
          if IsLetter(s[0]) {
            assert !IsLetter(t[1][0]);
          } else {
            assert !IsLetter(t[0][0]);
          }
        }
      }
    }
  }

  /** Text with no letter splits into pieces none of which is a word. */
  lemma {:induction false} TokenizeLetterless(s: string)
    requires HasNoLetter(s)
    ensures forall i | 0 <= i < |Tokenize(s)| :: !IsWordChunk(Tokenize(s)[i])
    ensures |Tokenize(s)| <= 1
    decreases |s|
  {
    if s != [] {
      var k := RunLength(s, false);
      assert k == |s|;
      assert s[k..] == [];
    }
  }

  /** A non-empty run of letters is one piece, whatever letters it holds. */
  lemma TokenizeWord(s: string)
    requires s != [] && forall i | 0 <= i < |s| :: IsLetter(s[i])
    ensures Tokenize(s) == [s]
  {
    var k := RunLength(s, IsLetter(s[0]));
    assert k == |s|;
    assert Tokenize(s) == [s[..k]] + Tokenize(s[k..]);
    assert s[k..] == [] && s[..k] == s;
  }

  /** An accented Greek word, καλημέρα, is one piece, as `\p{L}+` matches it. */
  lemma TokenizeAccentedGreek()
    ensures Tokenize("\U{3BA}\U{3B1}\U{3BB}\U{3B7}\U{3BC}\U{3AD}\U{3C1}\U{3B1}")
      == ["\U{3BA}\U{3B1}\U{3BB}\U{3B7}\U{3BC}\U{3AD}\U{3C1}\U{3B1}"]
  {
    TokenizeWord("\U{3BA}\U{3B1}\U{3BB}\U{3B7}\U{3BC}\U{3AD}\U{3C1}\U{3B1}");
  }

  /* ---------------- byte-wise string order (strcmp) ---------------- */

  /**
   * `strcmp($a, $b) < 0`. On UTF-8 text the byte order PHP compares in is the
   * code point order used here.
   */
  predicate LexLess(a: string, b: string)
  {
    if a == [] then b != []
    else if b == [] then false
    else if a[0] != b[0] then a[0] < b[0]
    else LexLess(a[1..], b[1..])
  }

  lemma {:induction false} LexLessIrreflexive(a: string)
    ensures !LexLess(a, a)
  {
    if a != [] {
      LexLessIrreflexive(a[1..]);
    }
  }

  lemma {:induction false} LexLessTransitive(a: string, b: string, c: string)
    requires LexLess(a, b) && LexLess(b, c)
    ensures LexLess(a, c)
  {
    if a != [] && b != [] && c != [] && a[0] == b[0] && b[0] == c[0] {
      LexLessTransitive(a[1..], b[1..], c[1..]);
    }
  }

  lemma {:induction false} LexLessTotal(a: string, b: string)
    ensures a == b || LexLess(a, b) || LexLess(b, a)
    ensures !(LexLess(a, b) && LexLess(b, a))
  {
    if a != [] && b != [] && a[0] == b[0] {
      LexLessTotal(a[1..], b[1..]);
      if a[1..] == b[1..] {
        assert a == [a[0]] + a[1..] && b == [b[0]] + b[1..];
      }
    }
  }
}
