/** The pieces of JavaScript's string semantics the session relies on:
    the whitespace that `String.prototype.trim` and `parseInt` skip,
    decimal `parseInt`, and `Number.prototype.toString` for non-negative
    integers. */
module JsStrings {
  import opened Wrappers

  /** ECMAScript WhiteSpace and LineTerminator code points: TAB, LF, VT, FF,
      CR, SPACE, NO-BREAK SPACE, ZERO WIDTH NO-BREAK SPACE, the category Zs
      separators, LINE SEPARATOR and PARAGRAPH SEPARATOR. */
  predicate IsWhitespace(c: char) {
    var k := c as int;
    || (0x09 <= k <= 0x0D)
    || k == 0x20 || k == 0xA0 || k == 0x1680
    || (0x2000 <= k <= 0x200A)
    || k == 0x2028 || k == 0x2029 || k == 0x202F || k == 0x205F
    || k == 0x3000 || k == 0xFEFF
  }

  /** A string that `trim()` turns into "" (a falsy value). */
  predicate Blank(s: string) {
    forall i :: 0 <= i < |s| ==> IsWhitespace(s[i])
  }

  /** How many whitespace characters `s` starts with. */
  function LeadingBlanks(s: string): (k: nat)
    ensures k <= |s|
    ensures forall i :: 0 <= i < k ==> IsWhitespace(s[i])
    ensures k == |s| || !IsWhitespace(s[k])
  {
    if s != [] && IsWhitespace(s[0]) then
      var k := LeadingBlanks(s[1..]);
      assert forall i :: 1 <= i < k + 1 ==> s[i] == s[1..][i - 1];
      k + 1
    else
      0
  }

  /** The string with its leading whitespace removed (the first step of
      both `trim` and `parseInt`). */
  function TrimStart(s: string): (t: string)
    ensures |t| <= |s| && t == s[|s| - |t|..]
    ensures Blank(s[..|s| - |t|])
    ensures t == [] || !IsWhitespace(t[0])
  {
    s[LeadingBlanks(s)..]
  }

  /** `s.trim()` is falsy exactly when `s` is all whitespace. */
  lemma BlankIffTrimsToEmpty(s: string)
    ensures TrimStart(s) == [] <==> Blank(s)
  {
    var t := TrimStart(s);
    if t == [] {
      assert s[..|s|] == s;
    } else {
      assert t[0] == s[|s| - |t|];
    }
  }

  /** Leading whitespace never changes what `trim` or `parseInt` see. */
  lemma TrimStartSkipsBlank(w: string, s: string)
    requires Blank(w)
    ensures TrimStart(w + s) == TrimStart(s)
  {
    var k := LeadingBlanks(w + s);
    var j := LeadingBlanks(s);
    assert forall i :: 0 <= i < |w| ==> (w + s)[i] == w[i];
    assert forall i :: 0 <= i < j ==> (w + s)[|w| + i] == s[i];
    assert |w| + j == |s| + |w| || (w + s)[|w| + j] == s[j];
    assert k == |w| + j;
    assert (w + s)[k..] == s[j..];
  }

  predicate IsDigit(c: char) {
    '0' <= c <= '9'
  }

  predicate AllDigits(s: string) {
    forall i :: 0 <= i < |s| ==> IsDigit(s[i])
  }

  function DigitValue(c: char): (d: nat)
    requires IsDigit(c)
    ensures d < 10
  {
    (c as int) - ('0' as int)
  }

  function DigitChar(d: nat): (c: char)
    requires d < 10
    ensures IsDigit(c) && DigitValue(c) == d
  {
    (('0' as int) + d) as char
  }

  /** The longest prefix of `s` made of decimal digits. */
  function DigitPrefix(s: string): (d: string)
    ensures |d| <= |s| && d == s[..|d|]
    ensures AllDigits(d)
    ensures |d| == |s| || !IsDigit(s[|d|])
  {
    if s != [] && IsDigit(s[0]) then
      var d := DigitPrefix(s[1..]);
      assert s[1..][..|d|] == s[1..|d| + 1];
      [s[0]] + d
    else
      []
  }

  /** The value of a string of decimal digits, most significant first. */
  function DigitsValue(d: string): nat
    requires AllDigits(d)
  {
    if d == [] then 0 else DigitsValue(d[..|d| - 1]) * 10 + DigitValue(d[|d| - 1])
  }

  /** The value of the longest run of digits at the head of `u`; None when
      `u` does not start with a digit. */
  function ParseDigits(u: string): Option<nat> {
    var digits := DigitPrefix(u);
    if digits == [] then None else Some(DigitsValue(digits))
  }

  /** `parseInt` after leading whitespace is gone: one optional sign, then
      the digits. */
  function ParseSigned(t: string): Option<int> {
    if t != [] && t[0] == '-' then
      match ParseDigits(t[1..])
      case None => None
      case Some(v) => Some(-(v as int))
    else if t != [] && t[0] == '+' then
      match ParseDigits(t[1..])
      case None => None
      case Some(v) => Some(v)
    else
      match ParseDigits(t)
      case None => None
      case Some(v) => Some(v)
  }

  /** JavaScript `parseInt(s)` read in radix 10: skip leading whitespace,
      accept one optional sign, then take the longest run of digits; with no
      digit the result is NaN, written None. */
  function ParseInt(s: string): Option<int> {
    ParseSigned(TrimStart(s))
  }

  /** `parseInt` gives NaN exactly when no digit follows the leading
      whitespace and the optional sign. */
  lemma ParseIntNaN(s: string)
    ensures var t := TrimStart(s);
            var u := if t != [] && (t[0] == '-' || t[0] == '+') then t[1..] else t;
            ParseInt(s).None? <==> u == [] || !IsDigit(u[0])
  {
  }

  /** JavaScript `n.toString()` for a non-negative integer `n`: its decimal
      digits, with no sign and no leading zero. */
  function ToDecimal(n: nat): (s: string)
    ensures s != [] && AllDigits(s)
    ensures s[0] == '0' ==> n == 0 && s == "0"
  {
    if n < 10 then [DigitChar(n)] else ToDecimal(n / 10) + [DigitChar(n % 10)]
  }

  lemma {:induction false} DigitsValueOfDecimal(n: nat)
    ensures DigitsValue(ToDecimal(n)) == n
  {
    var s := ToDecimal(n);
    if n >= 10 {
      DigitsValueOfDecimal(n / 10);
      assert s[..|s| - 1] == ToDecimal(n / 10);
    }
  }

  lemma {:induction false} DigitPrefixOfDigits(s: string)
    requires AllDigits(s)
    ensures DigitPrefix(s) == s
  {
    if s != [] {
      DigitPrefixOfDigits(s[1..]);
    }
  }

  /** Round trip: `parseInt(String(n)) === n` for every non-negative integer. */
  lemma ParseDecimal(n: nat)
    ensures ParseInt(ToDecimal(n)) == Some(n)
  {
    var s := ToDecimal(n);
    assert !IsWhitespace(s[0]);
    assert TrimStart(s) == s;
    DigitPrefixOfDigits(s);
    DigitsValueOfDecimal(n);
    assert ParseDigits(s) == Some(n);
  }

  /** `parseInt` ignores leading whitespace. */
  lemma ParseSkipsBlank(w: string, s: string)
    requires Blank(w)
    ensures ParseInt(w + s) == ParseInt(s)
  {
    TrimStartSkipsBlank(w, s);
  }

  /** The shape of what `toString` prints for a non-negative integer:
      digits only, and no leading zero unless the number is 0. */
  predicate CanonicalDecimal(a: string) {
    a != [] && AllDigits(a) && (a[0] == '0' ==> |a| == 1)
  }

  /** A digit string not starting with '0' has a positive value. */
  lemma {:induction false} LeadingNonZeroPositive(d: string)
    requires d != [] && AllDigits(d) && d[0] != '0'
    ensures DigitsValue(d) >= 1
  {
    if |d| > 1 {
      var p := d[..|d| - 1];
      assert p[0] == d[0];
      LeadingNonZeroPositive(p);
    }
  }

  /** Printing the value of a canonical digit string gives the string back. */
  lemma {:induction false} DecimalOfValue(a: string)
    requires CanonicalDecimal(a)
    ensures ToDecimal(DigitsValue(a)) == a
  {
    var c := a[|a| - 1];
    if |a| == 1 {
      assert a == [c];
    } else {
      var p := a[..|a| - 1];
      assert p[0] == a[0] && a[0] != '0';
      LeadingNonZeroPositive(p);
      DecimalOfValue(p);
      var v := DigitsValue(a);
      assert v / 10 == DigitsValue(p) && v % 10 == DigitValue(c);
      assert a == p + [c];
    }
  }

  /** A string is what printing `i` gives exactly when it is a canonical
      decimal string that parses to `i`. */
  lemma DecimalIffCanonical(a: string, i: nat)
    ensures a == ToDecimal(i) <==> CanonicalDecimal(a) && ParseInt(a) == Some(i)
  {
    ParseDecimal(i);
    if CanonicalDecimal(a) && ParseInt(a) == Some(i) {
      assert a + [] == a;
      ParseIgnoresTrailing(a, []);
      DecimalOfValue(a);
    }
  }

  /** A string that parses to `v` but is not what printing `v` gives is the
      decimal form of no index at all. */
  lemma NotDecimal(a: string, v: int)
    requires ParseInt(a) == Some(v)
    requires v < 0 || ToDecimal(v) != a
    ensures forall i: nat :: ToDecimal(i) != a
  {
    forall i: nat ensures ToDecimal(i) != a {
      ParseDecimal(i);
    }
  }

  /** The digit run of `d + rest` is `d` when `rest` does not go on with a
      digit. */
  lemma {:induction false} DigitPrefixStops(d: string, rest: string)
    requires AllDigits(d) && (rest == [] || !IsDigit(rest[0]))
    ensures DigitPrefix(d + rest) == d
  {
    if d == [] {
      assert d + rest == rest;
    } else {
      assert (d + rest)[1..] == d[1..] + rest;
      DigitPrefixStops(d[1..], rest);
    }
  }

  /** `parseInt` stops at the first character after the digits and ignores
      whatever follows. */
  lemma ParseIgnoresTrailing(d: string, rest: string)
    requires d != [] && AllDigits(d) && (rest == [] || !IsDigit(rest[0]))
    ensures ParseInt(d + rest) == Some(DigitsValue(d))
  {
    assert (d + rest)[0] == d[0];
    assert LeadingBlanks(d + rest) == 0;
    DigitPrefixStops(d, rest);
  }

  /** A digit string read with leading zeros in front has the same value. */
  lemma {:induction false} LeadingZeroValue(d: string)
    requires AllDigits(d)
    ensures AllDigits("0" + d) && DigitsValue("0" + d) == DigitsValue(d)
  {
    var z := "0" + d;
    if d != [] {
      assert z[..|z| - 1] == "0" + d[..|d| - 1];
      assert z[|z| - 1] == d[|d| - 1];
      LeadingZeroValue(d[..|d| - 1]);
    } else {
      assert z[..|z| - 1] == [];
    }
  }

  /** `parseInt` reads a leading zero as part of the number. */
  lemma ParseLeadingZero(n: nat)
    ensures ParseInt("0" + ToDecimal(n)) == Some(n)
  {
    var d := ToDecimal(n);
    LeadingZeroValue(d);
    assert TrimStart("0" + d) == "0" + d;
    DigitPrefixOfDigits("0" + d);
    DigitsValueOfDecimal(n);
  }

  /** `parseInt` reads a minus sign as negation. */
  lemma ParseNegative(n: nat)
    ensures ParseInt("-" + ToDecimal(n)) == Some(0 - n)
  {
    var d := ToDecimal(n);
    var t := "-" + d;
    assert t[0] == '-' && t[1..] == d;
    assert LeadingBlanks(t) == 0;
    DigitPrefixOfDigits(d);
    DigitsValueOfDecimal(n);
    assert ParseDigits(d) == Some(n);
    assert ParseSigned(t) == Some(0 - n);
  }
}
