/** The pieces of JavaScript's string built-ins the modelled code relies on:
    `String.prototype.trim`, `parseInt(s, 10)`, `Number.prototype.toString`
    on integers, `padStart` and the relational operators on strings.
    Strings are sequences of Dafny characters, which are Unicode scalar
    values, where JavaScript strings hold UTF-16 code units. So the string
    comparisons here order by code point. That agrees with JavaScript's
    code-unit order except between characters above U+FFFF and those from
    U+E000 to U+FFFF, and no modelled comparison involves either. */
module JsText {
  import opened Options

  /** The characters `trim` and `parseInt` strip: the ECMAScript
      WhiteSpace and LineTerminator productions. */
  predicate IsSpace(c: char) {
    || c == ' ' || c == '\t' || c == '\n' || c == '\r'
    || c == '\U{000B}' || c == '\U{000C}' || c == '\U{00A0}' || c == '\U{1680}'
    || ('\U{2000}' <= c <= '\U{200A}')
    || c == '\U{2028}' || c == '\U{2029}' || c == '\U{202F}' || c == '\U{205F}'
    || c == '\U{3000}' || c == '\U{FEFF}'
  }

  predicate IsDigit(c: char) {
    '0' <= c <= '9'
  }

  predicate AllDigits(s: string) {
    forall i :: 0 <= i < |s| ==> IsDigit(s[i])
  }

  predicate AllSpace(s: string) {
    forall i :: 0 <= i < |s| ==> IsSpace(s[i])
  }

  function DigitValue(c: char): (d: nat)
    requires IsDigit(c)
    ensures d < 10
  {
    c as int - '0' as int
  }

  function DigitChar(d: nat): (c: char)
    requires d < 10
    ensures IsDigit(c) && DigitValue(c) == d
  {
    ('0' as int + d) as char
  }

  // ---------------------------------------------------------------------
  // trim

  /** `trimStart`: drops the leading white space. */
  function TrimStart(s: string): (r: string)
    ensures |r| <= |s| && r == s[|s| - |r|..]
    ensures AllSpace(s[..|s| - |r|])
    ensures r == [] || !IsSpace(r[0])
  {
    if s == [] || !IsSpace(s[0]) then s
    else
      var r := TrimStart(s[1..]);
      assert s[1..][..|s[1..]| - |r|] == s[1..|s| - |r|];
      r
  }

  /** `trimEnd`: drops the trailing white space. */
  function TrimEnd(s: string): (r: string)
    ensures |r| <= |s| && r == s[..|r|]
    ensures AllSpace(s[|r|..])
    ensures r == [] || !IsSpace(r[|r| - 1])
  {
    if s == [] || !IsSpace(s[|s| - 1]) then s
    else
      var r := TrimEnd(s[..|s| - 1]);
      assert s[..|s| - 1][|r|..] == s[|r|..|s| - 1];
      assert s[|r|..] == s[|r|..|s| - 1] + [s[|s| - 1]];
      r
  }

  /** `trim`: drops white space at both ends. */
  function Trim(s: string): (r: string)
    ensures r == [] || (!IsSpace(r[0]) && !IsSpace(r[|r| - 1]))
    ensures r == [] <==> AllSpace(s)
    ensures exists i, j :: 0 <= i <= j <= |s| && r == s[i..j] && AllSpace(s[..i]) && AllSpace(s[j..])
  {
    var t := TrimStart(s);
    var r := TrimEnd(t);
    TrimBothEnds(s, t, r);
    r
  }

  /** What trimming the start (`t`) and then the end (`r`) of `s` leaves. */
  lemma TrimBothEnds(s: string, t: string, r: string)
    requires |t| <= |s| && t == s[|s| - |t|..] && AllSpace(s[..|s| - |t|]) && (t == [] || !IsSpace(t[0]))
    requires |r| <= |t| && r == t[..|r|] && AllSpace(t[|r|..]) && (r == [] || !IsSpace(r[|r| - 1]))
    ensures r == [] || (!IsSpace(r[0]) && !IsSpace(r[|r| - 1]))
    ensures r == [] <==> AllSpace(s)
    ensures exists i, j :: 0 <= i <= j <= |s| && r == s[i..j] && AllSpace(s[..i]) && AllSpace(s[j..])
  {
    var i := |s| - |t|;
    assert r == [] || r[0] == t[0];
    TrimSlices(s, t, r, i);
    TrimEmpty(s, t, r, i);
    var j := i + |r|;
    assert 0 <= i <= j <= |s| && r == s[i..j] && AllSpace(s[..i]) && AllSpace(s[j..]);
  }

  /** Dropping `i` characters of white space from the front of `s`, then
      white space from the back of the rest, leaves the slice
      `s[i..i + |r|]` with white space on both sides of it. */
  lemma TrimSlices(s: string, t: string, r: string, i: nat)
    requires i <= |s| && t == s[i..] && AllSpace(s[..i])
    requires |r| <= |t| && r == t[..|r|] && AllSpace(t[|r|..])
    ensures i + |r| <= |s| && r == s[i..i + |r|]
    ensures AllSpace(s[i + |r|..])
  {
    assert s[i + |r|..] == t[|r|..];
  }

  /** When the slice left over does not start with white space, it is empty
      exactly when all of `s` is white space. */
  lemma TrimEmpty(s: string, t: string, r: string, i: nat)
    requires i <= |s| && t == s[i..] && AllSpace(s[..i])
    requires |r| <= |t| && r == t[..|r|] && AllSpace(t[|r|..])
    requires r == [] || !IsSpace(r[0])
    ensures r == [] <==> AllSpace(s)
  {
    if r == [] {
      assert s == s[..i] + t[|r|..];
    } else {
      assert r[0] == s[i];
    }
  }

  /** A trimmed string is its own trim. */
  lemma TrimIdempotent(s: string)
    ensures Trim(Trim(s)) == Trim(s)
  {
    var t := Trim(s);
    TrimStartOfTrimmed(t);
    TrimEndOfTrimmed(t);
    assert Trim(t) == TrimEnd(TrimStart(t));
  }

  /** A string that does not start with white space is its own `trimStart`. */
  lemma TrimStartOfTrimmed(t: string)
    requires t == [] || !IsSpace(t[0])
    ensures TrimStart(t) == t
  {
  }

  /** A string that does not end with white space is its own `trimEnd`. */
  lemma TrimEndOfTrimmed(t: string)
    requires t == [] || !IsSpace(t[|t| - 1])
    ensures TrimEnd(t) == t
  {
  }

  /** `trimStart` drops exactly a white-space prefix `w` in front of text
      that does not start with white space. */
  lemma {:induction false} TrimStartAll(w: string, rest: string)
    requires AllSpace(w)
    requires rest == [] || !IsSpace(rest[0])
    ensures TrimStart(w + rest) == rest
  {
    if w == [] {
      assert w + rest == rest;
      TrimStartOfTrimmed(rest);
    } else {
      assert (w + rest)[1..] == w[1..] + rest;
      TrimStartAll(w[1..], rest);
    }
  }

  // ---------------------------------------------------------------------
  // decimal digits

  /** The value of a digit string read most significant digit first. */
  function DigitsValue(s: string): nat
    requires AllDigits(s)
  {
    if s == [] then 0
    else DigitsValue(s[..|s| - 1]) * 10 + DigitValue(s[|s| - 1])
  }

  /** The length of the longest prefix of `s` made of digits. */
  function DigitPrefixLength(s: string): (n: nat)
    ensures n <= |s|
    ensures AllDigits(s[..n])
    ensures n < |s| ==> !IsDigit(s[n])
  {
    if s == [] || !IsDigit(s[0]) then 0
    else
      var n := 1 + DigitPrefixLength(s[1..]);
      assert s[..n] == [s[0]] + s[1..][..n - 1];
      n
  }

  /** The longest run of decimal digits at the head of `b` read as a
      number, or NaN (`None`) when `b` does not start with a digit. */
  function ParseDigits(b: string): Option<int>
  {
    var n := DigitPrefixLength(b);
    if n == 0 then None else Some(DigitsValue(b[..n]))
  }

  /** `s` without one leading sign character, if it has one. */
  function Unsigned(t: string): string {
    if t != [] && (t[0] == '-' || t[0] == '+') then t[1..] else t
  }

  /** `parseInt(s, 10)`: leading white space is skipped, then one optional
      sign, then the longest run of decimal digits; with no digit there the
      result is NaN (`None`). Whatever follows the digits is ignored. So
      the result is NaN exactly when no digit follows the white space and
      the sign, and it is negative only after a minus sign. */
  function ParseInt(s: string): (r: Option<int>)
    ensures r.None? <==> Unsigned(TrimStart(s)) == [] || !IsDigit(Unsigned(TrimStart(s))[0])
    ensures r.Some? && r.value < 0 ==> TrimStart(s)[0] == '-'
  {
    ParseSigned(TrimStart(s))
  }

  /** `parseInt` after the white space: one optional sign, then digits. */
  function ParseSigned(t: string): (r: Option<int>)
    ensures r.None? <==> Unsigned(t) == [] || !IsDigit(Unsigned(t)[0])
    ensures r.Some? && r.value < 0 ==> t[0] == '-'
  {
    if t != [] && t[0] == '-' then
      match ParseDigits(t[1..])
      case None => None
      case Some(v) => Some(-v)
    else if t != [] && t[0] == '+' then ParseDigits(t[1..])
    else ParseDigits(t)
  }

  /** The digits of a natural number, most significant first, without
      leading zeros: `n.toString()` for `n >= 0`. */
  function NatToString(n: nat): (s: string)
    ensures s != [] && AllDigits(s)
    ensures |s| == 1 <==> n < 10
    ensures s[0] == '0' ==> n == 0
  {
    if n < 10 then [DigitChar(n)]
    else NatToString(n / 10) + [DigitChar(n % 10)]
  }

  /** `n.toString()` for an integer `n`. */
  function IntToString(n: int): (s: string)
    ensures s != [] && (IsDigit(s[0]) || s[0] == '-')
    ensures s[0] == '-' <==> n < 0
  {
    if n < 0 then "-" + NatToString(-n) else NatToString(n)
  }

  /** Reading back the digits of a natural number gives the number. */
  lemma {:induction false} NatToStringValue(n: nat)
    ensures DigitsValue(NatToString(n)) == n
  {
    if n >= 10 {
      var s := NatToString(n);
      assert s[..|s| - 1] == NatToString(n / 10);
      NatToStringValue(n / 10);
    }
  }

  /** Only `NatToString` of a smaller number fits in fewer characters:
      a number with at most two digits is below 100. */
  lemma {:induction false} NatToStringLength(n: nat)
    ensures |NatToString(n)| <= 2 <==> n < 100
  {
    if n >= 10 {
      NatToStringLength(n / 10);
    }
  }

  /** The digit prefix of a digit string followed by anything that does
      not start with a digit is the digit string itself. */
  lemma DigitPrefixOfDigits(d: string, junk: string)
    requires AllDigits(d)
    requires junk == [] || !IsDigit(junk[0])
    ensures DigitPrefixLength(d + junk) == |d|
    ensures (d + junk)[..|d|] == d
  {
  }

  lemma NoSpaceIsTrimmed(s: string)
    requires s != [] && (s[0] == '-' || IsDigit(s[0]))
    ensures TrimStart(s) == s
  {
  }

  /** A digit string followed by anything that does not start with a
      digit parses as the digit string. */
  lemma ParseDigitsOfDigits(d: string, junk: string)
    requires d != [] && AllDigits(d)
    requires junk == [] || !IsDigit(junk[0])
    ensures ParseDigits(d + junk) == Some(DigitsValue(d))
  {
    DigitPrefixOfDigits(d, junk);
  }

  /** With no white space or sign in front, `parseInt` reads the digits. */
  lemma ParseIntUnsigned(s: string, v: int)
    requires s != [] && IsDigit(s[0])
    requires ParseDigits(s) == Some(v)
    ensures ParseInt(s) == Some(v)
  {
    NoSpaceIsTrimmed(s);
  }

  /** A leading minus sign negates the digits that follow it. */
  lemma ParseIntNegative(s: string, v: int)
    requires s != [] && s[0] == '-'
    requires ParseDigits(s[1..]) == Some(v)
    ensures ParseInt(s) == Some(-v)
  {
    NoSpaceIsTrimmed(s);
  }

  /** A minus sign, digits worth `v`, then anything that does not start
      with a digit: `parseInt` reads `-v`. */
  lemma ParseSignedDigits(d: string, junk: string, v: nat)
    requires d != [] && AllDigits(d) && DigitsValue(d) == v
    requires junk == [] || !IsDigit(junk[0])
    ensures ParseInt("-" + d + junk) == Some(-(v as int))
  {
    var s := "-" + d + junk;
    assert s[1..] == d + junk;
    ParseDigitsOfDigits(d, junk);
    ParseIntNegative(s, v);
  }

  /** Digits worth `v`, then anything that does not start with a digit:
      `parseInt` reads `v`. */
  lemma ParseUnsignedDigits(d: string, junk: string, v: nat)
    requires d != [] && AllDigits(d) && DigitsValue(d) == v
    requires junk == [] || !IsDigit(junk[0])
    ensures ParseInt(d + junk) == Some(v)
  {
    ParseDigitsOfDigits(d, junk);
    ParseIntUnsigned(d + junk, v);
  }

  /** The general shape `parseInt` reads: white space, an optional sign,
      digits, then anything that does not start with a digit. The value
      is the digits' value, negated after a minus sign. */
  lemma {:induction false} ParseIntOfText(w: string, sign: string, d: string, junk: string)
    requires AllSpace(w)
    requires sign == "" || sign == "+" || sign == "-"
    requires d != [] && AllDigits(d)
    requires junk == [] || !IsDigit(junk[0])
    ensures ParseInt(w + sign + d + junk)
         == Some(if sign == "-" then -(DigitsValue(d) as int) else DigitsValue(d))
  {
    if sign == "" {
      ParseUnsignedText(w, d, junk);
    } else if sign == "+" {
      ParsePlusText(w, d, junk);
    } else {
      ParseMinusText(w, d, junk);
    }
  }

  lemma {:induction false} ParseUnsignedText(w: string, d: string, junk: string)
    requires AllSpace(w)
    requires d != [] && AllDigits(d)
    requires junk == [] || !IsDigit(junk[0])
    ensures ParseInt(w + "" + d + junk) == Some(DigitsValue(d))
  {
    assert w + "" + d + junk == w + (d + junk);
    ParseUnsignedDigits(d, junk, DigitsValue(d));
    ParseIntAfterSpace(w, d + junk);
  }

  lemma {:induction false} ParsePlusText(w: string, d: string, junk: string)
    requires AllSpace(w)
    requires d != [] && AllDigits(d)
    requires junk == [] || !IsDigit(junk[0])
    ensures ParseInt(w + "+" + d + junk) == Some(DigitsValue(d))
  {
    assert w + "+" + d + junk == w + ("+" + d + junk);
    ParsePlusDigits(d, junk);
    ParseIntAfterSpace(w, "+" + d + junk);
  }

  lemma {:induction false} ParseMinusText(w: string, d: string, junk: string)
    requires AllSpace(w)
    requires d != [] && AllDigits(d)
    requires junk == [] || !IsDigit(junk[0])
    ensures ParseInt(w + "-" + d + junk) == Some(-(DigitsValue(d) as int))
  {
    assert w + "-" + d + junk == w + ("-" + d + junk);
    ParseMinusDigits(d, junk);
    ParseIntAfterSpace(w, "-" + d + junk);
  }

  /** A minus sign, digits, then anything that does not start with a
      digit: `parseInt` reads the negated digits. */
  lemma {:induction false} ParseMinusDigits(d: string, junk: string)
    requires d != [] && AllDigits(d)
    requires junk == [] || !IsDigit(junk[0])
    ensures ParseInt("-" + d + junk) == Some(-(DigitsValue(d) as int))
  {
    ParseSignedDigits(d, junk, DigitsValue(d));
  }

  /** `parseInt` skips leading white space. */
  lemma {:induction false} ParseIntAfterSpace(w: string, rest: string)
    requires AllSpace(w)
    requires rest == [] || !IsSpace(rest[0])
    ensures ParseInt(w + rest) == ParseInt(rest)
  {
    TrimStartAll(w, rest);
    TrimStartOfTrimmed(rest);
  }

  /** A plus sign, digits, then anything that does not start with a digit:
      `parseInt` reads the digits. */
  lemma {:induction false} ParsePlusDigits(d: string, junk: string)
    requires d != [] && AllDigits(d)
    requires junk == [] || !IsDigit(junk[0])
    ensures ParseInt("+" + d + junk) == Some(DigitsValue(d))
  {
    var s := "+" + d + junk;
    assert s[1..] == d + junk;
    TrimStartOfTrimmed(s);
    ParseDigitsOfDigits(d, junk);
  }

  /** `parseInt` reads back a negative number written by `toString`. */
  lemma ParseIntOfNegative(n: int, junk: string)
    requires n < 0
    requires junk == [] || !IsDigit(junk[0])
    ensures ParseInt(IntToString(n) + junk) == Some(n)
  {
    var d := NatToString(-n);
    NatToStringValue(-n);
    ParseSignedDigits(d, junk, -n);
    assert IntToString(n) + junk == "-" + d + junk;
  }

  /** `parseInt` reads back a natural number written by `toString`. */
  lemma ParseIntOfNatural(n: int, junk: string)
    requires n >= 0
    requires junk == [] || !IsDigit(junk[0])
    ensures ParseInt(IntToString(n) + junk) == Some(n)
  {
    var d := NatToString(n);
    NatToStringValue(n);
    ParseUnsignedDigits(d, junk, n);
  }

  /** `parseInt` inverts `toString` on integers, and ignores a trailing
      part that does not start with a digit: `parseInt("2abc", 10) == 2`. */
  lemma ParseIntOfIntToString(n: int, junk: string)
    requires junk == [] || !IsDigit(junk[0])
    ensures ParseInt(IntToString(n) + junk) == Some(n)
  {
    if n < 0 {
      ParseIntOfNegative(n, junk);
    } else {
      ParseIntOfNatural(n, junk);
    }
  }

  // ---------------------------------------------------------------------
  // padStart and string comparison

  /** `s.padStart(width, c)` for a one-character pad string. */
  function PadStart(s: string, width: nat, c: char): (r: string)
    ensures |r| == if |s| >= width then |s| else width
    ensures r[|r| - |s|..] == s
    ensures forall i :: 0 <= i < |r| - |s| ==> r[i] == c
    decreases width - |s|
  {
    if |s| >= width then s else PadStart([c] + s, width, c)
  }

  /** JavaScript's `a < b` on strings: lexicographic order by code point
      (see the module comment for where it differs from UTF-16 order). */
  predicate LexLess(a: string, b: string)
  {
    if b == [] then false
    else if a == [] then true
    else if a[0] != b[0] then a[0] < b[0]
    else LexLess(a[1..], b[1..])
  }

  /** JavaScript's `a <= b` on strings. */
  predicate LexLessEq(a: string, b: string)
  {
    !LexLess(b, a)
  }

  /** `<` on strings is a strict total order: of `a < b`, `a == b` and
      `b < a` exactly one holds, so `a <= b` means `a < b` or `a == b`. */
  lemma {:induction false} LexTrichotomy(a: string, b: string)
    ensures LexLess(a, b) ==> a != b && !LexLess(b, a)
    ensures a != b ==> LexLess(a, b) || LexLess(b, a)
    ensures LexLessEq(a, b) <==> LexLess(a, b) || a == b
  {
    if a != [] && b != [] && a[0] == b[0] {
      LexTrichotomy(a[1..], b[1..]);
      assert a == [a[0]] + a[1..] && b == [b[0]] + b[1..];
    }
  }
}
