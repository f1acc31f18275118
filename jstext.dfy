/**
 * The JavaScript string built-ins the bot applies to message text:
 * `trim`, `toLowerCase`, `split(' ')` and `parseInt` (no radix argument).
 */
module JsText {
  import opened Wrappers

  /** The WhiteSpace and LineTerminator code points of ECMAScript: what `trim` strips and regex `\s` matches. */
  predicate IsJsWhitespace(c: char) {
    c == '\t' || c == '\n' || c == '\U{0B}' || c == '\U{0C}' || c == '\r' || c == ' '
    || c == '\U{A0}' || c == '\U{1680}' || ('\U{2000}' <= c <= '\U{200A}')
    || c == '\U{2028}' || c == '\U{2029}' || c == '\U{202F}' || c == '\U{205F}'
    || c == '\U{3000}' || c == '\U{FEFF}'
  }

  /** `s.trimStart()` */
  function TrimStart(s: string): (r: string)
    ensures |r| <= |s|
  {
    if s != [] && IsJsWhitespace(s[0]) then TrimStart(s[1..]) else s
  }

  /** trimStart removes exactly the leading whitespace: a suffix of s that starts with a non-space. */
  lemma {:induction false} TrimStartSpec(s: string)
    ensures var r := TrimStart(s);
      r == s[|s| - |r|..]
      && (forall i :: 0 <= i < |s| - |r| ==> IsJsWhitespace(s[i]))
      && (r != [] ==> !IsJsWhitespace(r[0]))
    decreases |s|
  {
    if s != [] && IsJsWhitespace(s[0]) {
      TrimStartSpec(s[1..]);
    }
  }

  /** `s.trimEnd()` */
  function TrimEnd(s: string): (r: string)
    ensures |r| <= |s|
  {
    if s != [] && IsJsWhitespace(s[|s| - 1]) then TrimEnd(s[..|s| - 1]) else s
  }

  /** trimEnd removes exactly the trailing whitespace: a prefix of s that ends with a non-space. */
  lemma {:induction false} TrimEndSpec(s: string)
    ensures var r := TrimEnd(s);
      r == s[..|r|]
      && (forall i :: |r| <= i < |s| ==> IsJsWhitespace(s[i]))
      && (r != [] ==> !IsJsWhitespace(r[|r| - 1]))
    decreases |s|
  {
    if s != [] && IsJsWhitespace(s[|s| - 1]) {
      TrimEndSpec(s[..|s| - 1]);
    }
  }

  /** `s.trim()` */
  function Trim(s: string): (r: string)
    ensures |r| <= |s|
  {
    TrimEnd(TrimStart(s))
  }

  /**
   * trim keeps the part of s between its leading and trailing whitespace:
   * a slice s[a..b] with only whitespace outside it and none at its ends.
   */
  lemma TrimSpec(s: string)
    ensures exists a, b ::
              && 0 <= a <= b <= |s| && Trim(s) == s[a..b]
              && (forall i :: 0 <= i < a ==> IsJsWhitespace(s[i]))
              && (forall i :: b <= i < |s| ==> IsJsWhitespace(s[i]))
    ensures Trim(s) != [] ==> !IsJsWhitespace(Trim(s)[0]) && !IsJsWhitespace(Trim(s)[|Trim(s)| - 1])
  {
    var u := TrimStart(s);
    var a := |s| - |u|;
    TrimStartSpec(s);
    TrimEndSpec(u);
    var b := a + |Trim(s)|;
    assert Trim(s) == s[a..b];
    assert forall i :: b <= i < |s| ==> IsJsWhitespace(s[i]) by {
      forall i | b <= i < |s| ensures IsJsWhitespace(s[i]) {
        assert s[i] == u[i - a];
      }
    }
  }

  /** Trimming a string that neither starts nor ends with whitespace leaves it unchanged. */
  lemma TrimUnchanged(s: string)
    requires s != [] ==> !IsJsWhitespace(s[0]) && !IsJsWhitespace(s[|s| - 1])
    ensures Trim(s) == s
  {
  }

  function LowerChar(c: char): char {
    if 'A' <= c <= 'Z' then (c as int + 32) as char else c
  }

  /**
   * `s.toLowerCase()` restricted to ASCII letters. No other character lowers to
   * a character that the deadline patterns or keywords contain.
   */
  function ToLower(s: string): (r: string)
    ensures |r| == |s|
  {
    if s == [] then [] else [LowerChar(s[0])] + ToLower(s[1..])
  }

  /** toLowerCase lowers each character on its own. */
  lemma {:induction false} ToLowerChars(s: string)
    ensures forall i :: 0 <= i < |s| ==> ToLower(s)[i] == LowerChar(s[i])
    decreases |s|
  {
    if s != [] {
      ToLowerChars(s[1..]);
    }
  }

  lemma ToLowerUnchanged(s: string)
    requires forall i :: 0 <= i < |s| ==> !('A' <= s[i] <= 'Z')
    ensures ToLower(s) == s
  {
    ToLowerChars(s);
  }

  // ---------------------------------------------------------------- split

  /** The parts joined back with sep in between: the inverse of Split. */
  function Join(parts: seq<string>, sep: char): string
    requires |parts| >= 1
  {
    if |parts| == 1 then parts[0] else parts[0] + [sep] + Join(parts[1..], sep)
  }

  /** `s.split(sep)` for a one-character separator. */
  function Split(s: string, sep: char): (parts: seq<string>)
    ensures |parts| >= 1
    ensures forall k :: 0 <= k < |parts| ==> sep !in parts[k]
    ensures Join(parts, sep) == s
  {
    if s == [] then [[]]
    else
      var rest := Split(s[1..], sep);
      if s[0] == sep then [[]] + rest
      else
        assert Join([[s[0]] + rest[0]] + rest[1..], sep) == [s[0]] + Join(rest, sep);
        [[s[0]] + rest[0]] + rest[1..]
  }

  /** Splitting a join of separator-free parts gives those parts back. */
  lemma {:induction false} SplitJoin(parts: seq<string>, sep: char)
    requires |parts| >= 1
    requires forall k :: 0 <= k < |parts| ==> sep !in parts[k]
    ensures Split(Join(parts, sep), sep) == parts
    decreases |Join(parts, sep)|
  {
    var s := Join(parts, sep);
    if parts[0] == [] {
      if |parts| > 1 {
        assert s == [sep] + Join(parts[1..], sep);
        assert s[1..] == Join(parts[1..], sep);
        SplitJoin(parts[1..], sep);
      }
    } else {
      var c := parts[0][0];
      var tail := [parts[0][1..]] + parts[1..];
      assert parts[0] == [c] + parts[0][1..];
      assert sep !in parts[0][1..];
      assert s == [c] + Join(tail, sep) by {
        if |parts| > 1 {
          assert tail[1..] == parts[1..];
        }
      }
      assert s[1..] == Join(tail, sep);
      SplitJoin(tail, sep);
      assert tail[1..] == parts[1..];
    }
  }

  /** A text without the separator splits into itself alone. */
  lemma {:induction false} SplitWord(a: string, sep: char)
    requires sep !in a
    ensures Split(a, sep) == [a]
    decreases |a|
  {
    if a != [] {
      SplitWord(a[1..], sep);
      assert [a[0]] + a[1..] == a;
    }
  }

  /** A separator-free word, the separator, then anything: the word is the first part. */
  lemma {:induction false} SplitAfterWord(a: string, t: string, sep: char)
    requires sep !in a
    ensures Split(a + [sep] + t, sep) == [a] + Split(t, sep)
    decreases |a|
  {
    var s := a + [sep] + t;
    if a == [] {
      assert s == [sep] + t;
      assert s[1..] == t;
    } else {
      assert s[1..] == a[1..] + [sep] + t;
      SplitAfterWord(a[1..], t, sep);
      assert [a[0]] + a[1..] == a;
    }
  }

  /** The second part of a split on spaces: the text between the first and second space, absent without a space. */
  function SecondWord(s: string): Option<string> {
    var parts := Split(s, ' ');
    if |parts| > 1 then Some(parts[1]) else None
  }

  /** A first word, a space, a second word, then nothing or a further space: the second word is found. */
  lemma SecondWordOf(a: string, b: string, rest: string)
    requires ' ' !in a && ' ' !in b
    requires rest == [] || rest[0] == ' '
    ensures SecondWord(a + " " + b + rest) == Some(b)
  {
    assert a + " " + b + rest == a + [' '] + (b + rest);
    SplitAfterWord(a, b + rest, ' ');
    if rest == [] {
      assert b + rest == b;
      SplitWord(b, ' ');
    } else {
      assert b + rest == b + [' '] + rest[1..];
      SplitAfterWord(b, rest[1..], ' ');
    }
  }

  // ---------------------------------------------------------------- parseInt

  predicate IsDigit(c: char) {
    '0' <= c <= '9'
  }

  predicate AllDigits(s: string) {
    forall i :: 0 <= i < |s| ==> IsDigit(s[i])
  }

  /** The value of c as a digit in the given radix (10 or 16), or -1. */
  function DigitValue(c: char, radix: int): int {
    if '0' <= c <= '9' then c as int - '0' as int
    else if radix == 16 && 'a' <= c <= 'f' then c as int - 'a' as int + 10
    else if radix == 16 && 'A' <= c <= 'F' then c as int - 'A' as int + 10
    else -1
  }

  predicate IsRadixDigit(c: char, radix: int) {
    DigitValue(c, radix) >= 0
  }

  /** The longest prefix of s made of radix digits. */
  function DigitPrefix(s: string, radix: int): (z: string)
    ensures |z| <= |s| && z == s[..|z|]
    ensures forall i :: 0 <= i < |z| ==> IsRadixDigit(z[i], radix)
    ensures |z| < |s| ==> !IsRadixDigit(s[|z|], radix)
  {
    if s != [] && IsRadixDigit(s[0], radix) then [s[0]] + DigitPrefix(s[1..], radix) else []
  }

  /** The value of a string of radix digits, most significant first. */
  function DigitsValue(z: string, radix: int): int
    decreases |z|
  {
    if z == [] then 0 else DigitsValue(z[..|z| - 1], radix) * radix + DigitValue(z[|z| - 1], radix)
  }

  /** ToString(undefined): what parseInt reads when split has no second part. */
  const UNDEFINED: string := "undefined"

  /** The outcome of parseInt: NaN, or an integer (both signed zeroes are Integer(0)). */
  datatype ParsedInt = NotANumber | Integer(value: int)

  /** JavaScript truthiness of a parseInt result: NaN and zero are falsy. */
  predicate IsFalsy(r: ParsedInt) {
    r.NotANumber? || r.value == 0
  }

  /**
   * `parseInt(arg)`: skip leading whitespace, take an optional sign, read a
   * `0x`/`0X` prefix as radix 16, then the longest digit prefix. An absent
   * argument is converted to the string "undefined".
   */
  function ParseInt(arg: Option<string>): ParsedInt {
    ParseSigned(TrimStart(if arg.None? then UNDEFINED else arg.value))
  }

  /** parseInt after its leading whitespace is gone: an optional sign, then the magnitude. */
  function ParseSigned(s: string): ParsedInt {
    var negative := s != [] && s[0] == '-';
    var unsigned := if s != [] && (s[0] == '-' || s[0] == '+') then s[1..] else s;
    match ParseMagnitude(unsigned)
    case NotANumber => NotANumber
    case Integer(v) => Integer(if negative then -v else v)
  }

  /** An unsigned magnitude: hexadecimal after a `0x`/`0X` prefix, decimal otherwise. */
  function ParseMagnitude(u: string): ParsedInt {
    if |u| >= 2 && u[0] == '0' && (u[1] == 'x' || u[1] == 'X') then ParseDigits(u[2..], 16)
    else ParseDigits(u, 10)
  }

  /** The value of the longest digit prefix, NaN when there is none. */
  function ParseDigits(s: string, radix: int): ParsedInt {
    var z := DigitPrefix(s, radix);
    if z == [] then NotANumber else Integer(DigitsValue(z, radix))
  }

  /** The decimal rendering of a natural number, without leading zeroes. */
  function DecimalString(n: nat): (s: string)
    ensures s != [] && AllDigits(s)
    ensures |s| > 1 ==> s[0] != '0'
  {
    if n < 10 then [('0' as int + n) as char]
    else DecimalString(n / 10) + [('0' as int + n % 10) as char]
  }

  lemma {:induction false} DecimalStringValue(n: nat)
    ensures DigitsValue(DecimalString(n), 10) == n
  {
    var s := DecimalString(n);
    if n >= 10 {
      DecimalStringValue(n / 10);
      assert s[..|s| - 1] == DecimalString(n / 10);
    }
  }

  function Pow10(n: nat): nat {
    if n == 0 then 1 else 10 * Pow10(n - 1)
  }

  /** A string of n decimal digits denotes a number below 10^n. */
  lemma {:induction false} DigitsValueBound(z: string)
    requires AllDigits(z)
    ensures 0 <= DigitsValue(z, 10) < Pow10(|z|)
    decreases |z|
  {
    if z != [] {
      DigitsValueBound(z[..|z| - 1]);
    }
  }

  lemma DigitPrefixOfDigits(z: string, rest: string, radix: int)
    requires forall i :: 0 <= i < |z| ==> IsRadixDigit(z[i], radix)
    requires rest == [] || !IsRadixDigit(rest[0], radix)
    ensures DigitPrefix(z + rest, radix) == z
  {
    if z != [] {
      assert (z + rest)[1..] == z[1..] + rest;
      DigitPrefixOfDigits(z[1..], rest, radix);
    }
  }

  /** The unsigned text after the sign: a decimal rendering followed by non-digit text. */
  lemma ParseUnsignedDecimal(m: nat, rest: string)
    requires rest == [] || !IsDigit(rest[0])
    requires m == 0 ==> rest == [] || (rest[0] != 'x' && rest[0] != 'X')
    ensures ParseMagnitude(DecimalString(m) + rest) == Integer(m)
    ensures IsDigit((DecimalString(m) + rest)[0])
  {
    var digits := DecimalString(m);
    var u := digits + rest;
    DecimalStringValue(m);
    if |digits| == 1 && digits[0] == '0' {
      assert m == 0;
    }
    assert !(|u| >= 2 && u[0] == '0' && (u[1] == 'x' || u[1] == 'X'));
    DigitPrefixOfDigits(digits, rest, 10);
  }

  lemma TrimStartIdle(s: string)
    requires s != [] && !IsJsWhitespace(s[0])
    ensures TrimStart(s) == s
  {
  }

  lemma ParseSignedNoSign(u: string)
    requires u == [] || (u[0] != '-' && u[0] != '+')
    ensures ParseSigned(u) == ParseMagnitude(u)
  {
  }

  lemma ParseSignedMinus(u: string)
    ensures ParseSigned("-" + u) == match ParseMagnitude(u)
      case NotANumber => NotANumber
      case Integer(v) => Integer(-v)
  {
    assert ("-" + u)[1..] == u;
  }

  lemma ParseIntPositive(m: nat, rest: string)
    requires rest == [] || !IsDigit(rest[0])
    requires m == 0 ==> rest == [] || (rest[0] != 'x' && rest[0] != 'X')
    ensures ParseInt(Some(DecimalString(m) + rest)) == Integer(m)
  {
    var u := DecimalString(m) + rest;
    ParseUnsignedDecimal(m, rest);
    TrimStartIdle(u);
    ParseSignedNoSign(u);
  }

  lemma ParseIntNegative(m: nat, rest: string)
    requires rest == [] || !IsDigit(rest[0])
    requires m == 0 ==> rest == [] || (rest[0] != 'x' && rest[0] != 'X')
    ensures ParseInt(Some("-" + DecimalString(m) + rest)) == Integer(-(m as int))
  {
    var u := DecimalString(m) + rest;
    assert "-" + DecimalString(m) + rest == "-" + u;
    TrimStartIdle("-" + u);
    ParseUnsignedDecimal(m, rest);
    ParseSignedMinus(u);
  }

  /** The decimal rendering of an integer, with a leading minus sign when negative. */
  function IntString(n: int): string {
    if n < 0 then "-" + DecimalString(-n) else DecimalString(n)
  }

  /** The decimal rendering of an integer holds no space. */
  lemma IntStringHasNoSpace(n: int)
    ensures ' ' !in IntString(n)
  {
    if n < 0 {
      assert IntString(n) == "-" + DecimalString(-n);
      assert AllDigits(DecimalString(-n));
    } else {
      assert AllDigits(IntString(n));
    }
  }

  /**
   * parseInt reads back the decimal rendering of any integer, whatever
   * non-digit text follows it (other than an `x` right after a lone zero).
   */
  lemma ParseIntDecimal(n: int, rest: string)
    requires rest == [] || !IsDigit(rest[0])
    requires n == 0 ==> rest == [] || (rest[0] != 'x' && rest[0] != 'X')
    ensures ParseInt(Some(IntString(n) + rest)) == Integer(n)
  {
    if n < 0 {
      var m: nat := -n;
      var s := "-" + DecimalString(m) + rest;
      assert IntString(n) + rest == s;
      ParseIntNegative(m, rest);
    } else {
      assert IntString(n) == DecimalString(n);
      ParseIntPositive(n, rest);
    }
  }
}
