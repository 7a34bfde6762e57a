/**
 * Decoded JSON catalogue values as PHP sees them after `json_decode(..., true)`
 * (lists and objects both become PHP arrays), with the PHP conversions the
 * catalogue code applies to them: `$a[$k] ?? null`, `(string)`, `is_numeric`,
 * `(int)` and truthiness. Floating-point numbers are not represented.
 */
module Json {

  datatype Json =
    | JNull
    | JBool(b: bool)
    | JInt(i: int)
    | JStr(s: string)
    | JList(items: seq<Json>)
    | JObject(fields: seq<(string, Json)>)
  {
    /** `is_array()`. */
    predicate IsArray()
    {
      JList? || JObject?
    }
  }

  /* ---------------- decimal numerals ---------------- */

  predicate IsDigit(c: char)
  {
    '0' <= c <= '9'
  }

  predicate IsDigits(s: string)
  {
    |s| > 0 && forall i | 0 <= i < |s| :: IsDigit(s[i])
  }

  function DigitsValue(s: string): nat
  {
    if s == [] then 0
    else DigitsValue(s[..|s| - 1]) * 10 + (if IsDigit(s[|s| - 1]) then s[|s| - 1] as int - '0' as int else 0)
  }

  /** Decimal spelling of a natural number, without leading zeros. */
  function NatToString(n: nat): (r: string)
    ensures IsDigits(r)
    ensures |r| > 1 ==> r[0] != '0'
  {
    var d := ('0' as int + n % 10) as char;
    if n < 10 then [d] else NatToString(n / 10) + [d]
  }

  /** `(string)$i` for an integer. */
  function IntToString(i: int): string
  {
    if i < 0 then "-" + NatToString(-i) else NatToString(i)
  }

  lemma {:induction false} NatToStringValue(n: nat)
    ensures DigitsValue(NatToString(n)) == n
  {
    if n >= 10 {
      NatToStringValue(n / 10);
      var r := NatToString(n);
      assert r[..|r| - 1] == NatToString(n / 10);
    }
  }

  /** The whitespace PHP 8 allows around a numeric string: space, \t, \n, \r, \v, \f. */
  predicate IsNumericSpace(c: char)
  {
    c == ' ' || c == '\t' || c == '\n' || c == '\r' || c == 11 as char || c == 12 as char
  }

  function DropNumericSpaceLeft(s: string): (r: string)
    ensures |r| <= |s| && r == s[|s| - |r|..]
    ensures r != [] ==> !IsNumericSpace(r[0])
  {
    if s != [] && IsNumericSpace(s[0]) then DropNumericSpaceLeft(s[1..]) else s
  }

  function DropNumericSpaceRight(s: string): (r: string)
    ensures |r| <= |s| && r == s[..|r|]
    ensures r != [] ==> !IsNumericSpace(r[|r| - 1])
  {
    if s != [] && IsNumericSpace(s[|s| - 1]) then DropNumericSpaceRight(s[..|s| - 1]) else s
  }

  /** The numeral once the surrounding whitespace is removed. */
  function NumeralCore(s: string): string
  {
    DropNumericSpaceRight(DropNumericSpaceLeft(s))
  }

  /** An optionally signed run of digits, the integer form of a numeric string. */
  predicate IsSignedDigits(t: string)
  {
    IsDigits(t) || (|t| > 1 && (t[0] == '+' || t[0] == '-') && IsDigits(t[1..]))
  }

  /** `is_numeric($s)` for a string holding an integer numeral. */
  predicate IsIntegerNumeral(s: string)
  {
    IsSignedDigits(NumeralCore(s))
  }

  function SignedDigitsValue(t: string): int
  {
    if |t| > 0 && t[0] == '-' then -(DigitsValue(t[1..]) as int)
    else if |t| > 0 && t[0] == '+' then DigitsValue(t[1..])
    else DigitsValue(t)
  }

  /* ---------------- PHP conversions ---------------- */

  /** `is_numeric($v)`: integers, and strings holding an integer numeral. */
  predicate IsNumeric(j: Json)
  {
    match j
    case JInt(_) => true
    case JStr(s) => IsIntegerNumeral(s)
    case _ => false
  }

  /** `(int)$v` for a value that passed `is_numeric`. */
  function NumericValue(j: Json): int
    requires IsNumeric(j)
  {
    if j.JInt? then j.i else SignedDigitsValue(NumeralCore(j.s))
  }

  /** `(string)$v`. */
  function ToStr(j: Json): string
  {
    match j
    case JNull => ""
    case JBool(b) => if b then "1" else ""
    case JInt(i) => IntToString(i)
    case JStr(s) => s
    case _ => "Array"
  }

  /** PHP truthiness: null, false, 0, "", "0" and the empty array are false. */
  predicate Truthy(j: Json)
  {
    match j
    case JNull => false
    case JBool(b) => b
    case JInt(i) => i != 0
    case JStr(s) => s != "" && s != "0"
    case JList(items) => items != []
    case JObject(fields) => fields != []
  }

  /** The list index a string key denotes: a decimal numeral without leading zeros. */
  predicate IsIndexKey(key: string)
  {
    IsDigits(key) && (|key| == 1 || key[0] != '0')
  }

  function FieldIndex(fields: seq<(string, Json)>, key: string): (k: nat)
    ensures k <= |fields|
    ensures k < |fields| ==> fields[k].0 == key
    ensures forall i | 0 <= i < k :: fields[i].0 != key
  {
    if fields == [] then 0
    else if fields[0].0 == key then 0
    else 1 + FieldIndex(fields[1..], key)
  }

  /**
   * `$j[$key] ?? null`: the value of the field named key in an object, the
   * item at that position in a list, and null when there is none or j is
   * not an array. An object's keys are distinct in PHP; the first field of a
   * name is the one read.
   */
  function Get(j: Json, key: string): Json
  {
    match j
    case JObject(fields) =>
      var k := FieldIndex(fields, key);
      if k < |fields| then fields[k].1 else JNull
    case JList(items) =>
      if IsIndexKey(key) && DigitsValue(key) < |items| then items[DigitsValue(key)] else JNull
    case _ => JNull
  }

  /**
   * What `Get` reads: a non-null value of an object is the value of a field
   * with that key, an object without the key gives null, a list gives the
   * item the key numbers, and anything else gives null.
   */
  lemma GetSpec(j: Json, key: string)
    ensures var r := Get(j, key);
      && (j.JObject? ==>
            (r != JNull ==> exists i | 0 <= i < |j.fields| :: j.fields[i] == (key, r))
            && ((forall i | 0 <= i < |j.fields| :: j.fields[i].0 != key) ==> r == JNull))
      && (j.JList? ==>
            r == (if IsIndexKey(key) && DigitsValue(key) < |j.items| then j.items[DigitsValue(key)] else JNull))
      && (!j.IsArray() ==> r == JNull)
  {
  }

  /** The values `foreach` visits: list items, or object field values, in order. */
  function Elements(j: Json): (r: seq<Json>)
    ensures j.JList? ==> r == j.items
    ensures j.JObject? ==> |r| == |j.fields| && forall i | 0 <= i < |r| :: r[i] == j.fields[i].1
    ensures !j.IsArray() ==> r == []
  {
    match j
    case JList(items) => items
    case JObject(fields) => seq(|fields|, i requires 0 <= i < |fields| => fields[i].1)
    case _ => []
  }

  /** The maximal run of digits at the front of a string. */
  function LeadingDigits(s: string): (r: string)
    ensures |r| <= |s| && r == s[..|r|]
    ensures forall i | 0 <= i < |r| :: IsDigit(r[i])
    ensures |r| < |s| ==> !IsDigit(s[|r|])
  {
    if s != [] && IsDigit(s[0]) then [s[0]] + LeadingDigits(s[1..]) else []
  }

  /**
   * `(int)$s` for a string: leading white space, an optional sign and the
   * digits that follow; 0 when no digit follows.
   */
  function IntCast(s: string): int
  {
    var t := DropNumericSpaceLeft(s);
    if |t| > 0 && t[0] == '-' then -(DigitsValue(LeadingDigits(t[1..])) as int)
    else if |t| > 0 && t[0] == '+' then DigitsValue(LeadingDigits(t[1..]))
    else DigitsValue(LeadingDigits(t))
  }

  lemma LeadingDigitsOfDigits(s: string)
    requires IsDigits(s)
    ensures LeadingDigits(s) == s
  {
  }

  /** `(int)` reads back what `(string)` printed. */
  lemma IntCastRoundTrip(i: int)
    ensures IntCast(IntToString(i)) == i
  {
    var n: nat := if i < 0 then -i else i;
    var d := NatToString(n);
    NatToStringValue(n);
    LeadingDigitsOfDigits(d);
    var s := IntToString(i);
    DropLeftOfUnspaced(s);
    if i < 0 {
      assert s[1..] == d;
    }
  }

  lemma DropLeftOfUnspaced(s: string)
    requires s != [] && !IsNumericSpace(s[0])
    ensures DropNumericSpaceLeft(s) == s
  {
  }

  /** An integer printed by PHP reads back, through `is_numeric` and `(int)`, as itself. */
  lemma IntegerStringRoundTrip(i: int)
    ensures IsNumeric(JStr(IntToString(i)))
    ensures NumericValue(JStr(IntToString(i))) == i
  {
    var n: nat := if i < 0 then -i else i;
    var d := NatToString(n);
    NatToStringValue(n);
    if i < 0 {
      var s := "-" + d;
      assert s[1..] == d;
      NumeralCoreOfUnspaced(s);
    } else {
      NumeralCoreOfUnspaced(d);
    }
  }

  lemma NumeralCoreOfUnspaced(s: string)
    requires s != [] && !IsNumericSpace(s[0]) && !IsNumericSpace(s[|s| - 1])
    ensures NumeralCore(s) == s
  {
  }

  /** The first list item is what `$list[0]` reads. */
  lemma ListIndexZero(items: seq<Json>)
    ensures Get(JList(items), "0") == (if items == [] then JNull else items[0])
  {
    assert IsIndexKey("0");
    assert DigitsValue("0") == 0 by {
      assert "0"[..0] == [];
    }
  }
}
