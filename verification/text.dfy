/**
 The JavaScript string operations the pages rely on, over `string` (`seq<char>`):
 `trim`, `toLowerCase` (ASCII letters only), `includes`, and `parseInt`.
 */
module Text {
  import opened Wrappers

  /** ECMAScript WhiteSpace and LineTerminator code points: what `trim`, the
      regular-expression class `\s` and `parseInt`'s leading skip all remove. */
  predicate IsSpace(c: char) {
    || c == '\t' || c == '\n' || c == '\U{B}' || c == '\U{C}' || c == '\r' || c == ' '
    || c == '\U{A0}' || c == '\U{1680}' || ('\U{2000}' <= c <= '\U{200A}')
    || c == '\U{2028}' || c == '\U{2029}' || c == '\U{202F}' || c == '\U{205F}'
    || c == '\U{3000}' || c == '\U{FEFF}'
  }

  predicate IsUpper(c: char) {
    'A' <= c <= 'Z'
  }

  function LowerChar(c: char): (d: char)
    ensures !IsUpper(d)
    ensures IsSpace(d) == IsSpace(c)
    ensures !IsUpper(c) ==> d == c
  {
    if IsUpper(c) then (c as int + 32) as char else c
  }

  /** `s.toLowerCase()`, restricted to ASCII letters. */
  function Lower(s: string): (r: string)
    ensures |r| == |s|
    ensures forall i :: 0 <= i < |s| ==> r[i] == LowerChar(s[i])
  {
    seq(|s|, i requires 0 <= i < |s| => LowerChar(s[i]))
  }

  lemma LowerAppend(a: string, b: string)
    ensures Lower(a + b) == Lower(a) + Lower(b)
  {
  }

  ghost predicate IsLowerCase(s: string) {
    forall i :: 0 <= i < |s| ==> !IsUpper(s[i])
  }

  ghost predicate IsTrimmed(s: string) {
    s == [] || (!IsSpace(s[0]) && !IsSpace(s[|s| - 1]))
  }

  /** Drops leading whitespace: the result is a suffix of `s` that does not
      start with whitespace, and everything dropped is whitespace. */
  function TrimStart(s: string): (r: string)
    ensures |r| <= |s| && r == s[|s| - |r|..]
    ensures r == [] || !IsSpace(r[0])
    ensures forall i :: 0 <= i < |s| - |r| ==> IsSpace(s[i])
  {
    if s != [] && IsSpace(s[0]) then
      var r := TrimStart(s[1..]);
      assert s[1..][|s| - 1 - |r|..] == s[|s| - |r|..];
      assert forall i :: 1 <= i < |s| - |r| ==> s[i] == s[1..][i - 1];
      r
    else s
  }

  /** Drops trailing whitespace: the result is a prefix of `s` that does not
      end with whitespace, and everything dropped is whitespace. */
  function TrimEnd(s: string): (r: string)
    ensures |r| <= |s| && r == s[..|r|]
    ensures r == [] || !IsSpace(r[|r| - 1])
    ensures forall i :: |r| <= i < |s| ==> IsSpace(s[i])
  {
    if s != [] && IsSpace(s[|s| - 1]) then
      var r := TrimEnd(s[..|s| - 1]);
      assert s[..|s| - 1][..|r|] == s[..|r|];
      r
    else s
  }

  /** `s.trim()`. */
  function Trim(s: string): (r: string)
    ensures IsTrimmed(r)
    ensures |r| <= |s|
  {
    TrimEnd(TrimStart(s))
  }

  lemma TrimOfTrimmed(s: string)
    requires IsTrimmed(s)
    ensures Trim(s) == s
  {
  }

  lemma LowerOfLowerCase(s: string)
    requires IsLowerCase(s)
    ensures Lower(s) == s
  {
  }

  /** `sub` occurs in `s` starting at index `i`. */
  ghost predicate OccursAt(s: string, sub: string, i: nat) {
    i + |sub| <= |s| && s[i..i + |sub|] == sub
  }

  /** `s.includes(sub)`. */
  function Contains(s: string, sub: string): (b: bool)
    ensures b <==> exists i: nat :: OccursAt(s, sub, i)
    decreases |s|
  {
    if sub <= s then
      assert OccursAt(s, sub, 0);
      true
    else if s == [] then
      false
    else
      var b := Contains(s[1..], sub);
      assert forall i: nat :: OccursAt(s[1..], sub, i) <==> OccursAt(s, sub, i + 1) by {
        forall i: nat ensures OccursAt(s[1..], sub, i) <==> OccursAt(s, sub, i + 1) {
          if i + |sub| <= |s[1..]| {
            assert s[1..][i..i + |sub|] == s[i + 1..i + 1 + |sub|];
          }
        }
      }
      assert !OccursAt(s, sub, 0);
      assert b ==> exists i: nat :: OccursAt(s, sub, i) by {
        if b {
          var i: nat :| OccursAt(s[1..], sub, i);
          assert OccursAt(s, sub, i + 1);
        }
      }
      assert (exists i: nat :: OccursAt(s, sub, i)) ==> b by {
        if exists i: nat :: OccursAt(s, sub, i) {
          var i: nat :| OccursAt(s, sub, i);
          assert i > 0;
          assert OccursAt(s[1..], sub, i - 1);
        }
      }
      b
  }

  // ---------------------------------------------------------------- parseInt

  /** How `parseInt` was called: with radix 10, or with the radix omitted
      (decimal, unless the digits start with `0x` or `0X`, which selects hexadecimal). */
  datatype Radix = Decimal | Automatic

  /** The value of `c` as a digit in `base` (10 or 16), if it is one. */
  function DigitValue(c: char, base: nat): (d: Option<nat>)
    ensures d.Some? ==> d.value < base
    ensures base == 10 ==> (d.Some? <==> '0' <= c <= '9')
  {
    if '0' <= c <= '9' && (c as int - '0' as int) < base then Some(c as int - '0' as int)
    else if base == 16 && 'a' <= c <= 'f' then Some(c as int - 'a' as int + 10)
    else if base == 16 && 'A' <= c <= 'F' then Some(c as int - 'A' as int + 10)
    else None
  }

  ghost predicate AllDigits(s: string, base: nat) {
    forall i :: 0 <= i < |s| ==> DigitValue(s[i], base).Some?
  }

  /** The longest prefix of `s` made of digits of `base`. */
  function LeadingDigits(s: string, base: nat): (r: string)
    ensures |r| <= |s| && r == s[..|r|]
    ensures AllDigits(r, base)
    ensures |r| < |s| ==> DigitValue(s[|r|], base).None?
  {
    if s != [] && DigitValue(s[0], base).Some? then [s[0]] + LeadingDigits(s[1..], base) else []
  }

  /** The number a digit string denotes in `base`, most significant digit first. */
  function DigitsValue(s: string, base: nat): nat
    requires AllDigits(s, base)
  {
    if s == [] then 0
    else DigitsValue(s[..|s| - 1], base) * base + DigitValue(s[|s| - 1], base).value
  }

  /** The magnitude `parseInt` reads after the sign: with the radix omitted a
      `0x`/`0X` prefix selects hexadecimal; then the longest run of digits. */
  function ParseMagnitude(s: string, radix: Radix): (r: Option<nat>)
  {
    var hex := radix == Automatic && |s| >= 2 && s[0] == '0' && (s[1] == 'x' || s[1] == 'X');
    var base := if hex then 16 else 10;
    var digits := LeadingDigits(if hex then s[2..] else s, base);
    if digits == [] then None else Some(DigitsValue(digits, base))
  }

  /** `parseInt(s)` (radix omitted) or `parseInt(s, 10)`: skip leading whitespace,
      read one optional sign, then the magnitude.  `None` is `NaN`: no digit at all. */
  function ParseInt(s: string, radix: Radix): (r: Option<int>)
  {
    var t := TrimStart(s);
    var negative := t != [] && t[0] == '-';
    var unsigned := if t != [] && (t[0] == '-' || t[0] == '+') then t[1..] else t;
    match ParseMagnitude(unsigned, radix)
    case None => None
    case Some(m) => Some(if negative then -(m as int) else m as int)
  }

  // ---------------------------------------------------- decimal rendering

  function DigitChar(d: nat): (c: char)
    requires d < 10
    ensures DigitValue(c, 10) == Some(d)
  {
    ('0' as int + d) as char
  }

  /** The decimal digits of `n`, as template literals render a non-negative integer. */
  function ShowNat(n: nat): (s: string)
    ensures |s| >= 1
    ensures AllDigits(s, 10)
  {
    if n < 10 then [DigitChar(n)] else ShowNat(n / 10) + [DigitChar(n % 10)]
  }

  /** `${n}` for an integer `n`. */
  function ShowInt(n: int): (s: string)
  {
    if n < 0 then "-" + ShowNat(-n) else ShowNat(n)
  }

  lemma {:induction false} ShowNatValue(n: nat)
    ensures DigitsValue(ShowNat(n), 10) == n
    decreases n
  {
    if n >= 10 {
      var s := ShowNat(n);
      assert s[..|s| - 1] == ShowNat(n / 10);
      ShowNatValue(n / 10);
    }
  }

  lemma {:induction false} LeadingDigitsOfDigits(s: string, base: nat)
    requires AllDigits(s, base)
    ensures LeadingDigits(s, base) == s
    decreases |s|
  {
    if s != [] {
      LeadingDigitsOfDigits(s[1..], base);
    }
  }

  lemma ParseMagnitudeOfDigits(s: string, radix: Radix)
    requires |s| >= 1 && AllDigits(s, 10)
    ensures ParseMagnitude(s, radix) == Some(DigitsValue(s, 10))
  {
    assert |s| >= 2 ==> DigitValue(s[1], 10).Some?;
    LeadingDigitsOfDigits(s, 10);
  }

  lemma TrimStartAtDigit(s: string)
    requires |s| >= 1 && '0' <= s[0] <= '9'
    ensures TrimStart(s) == s
  {
    assert !IsSpace(s[0]);
  }

  /** `ParseInt` once the text after the sign is known. */
  lemma ParseIntUnsigned(s: string, radix: Radix)
    requires |s| >= 1 && '0' <= s[0] <= '9'
    ensures ParseInt(s, radix) == match ParseMagnitude(s, radix)
                                 case None => None
                                 case Some(m) => Some(m as int)
  {
    TrimStartAtDigit(s);
  }

  lemma ParseDigits(s: string, radix: Radix)
    requires |s| >= 1 && AllDigits(s, 10)
    ensures ParseInt(s, radix) == Some(DigitsValue(s, 10) as int)
  {
    ParseMagnitudeOfDigits(s, radix);
    assert DigitValue(s[0], 10).Some?;
    ParseIntUnsigned(s, radix);
  }

  lemma ParseIntNegative(s: string, radix: Radix, m: nat)
    requires ParseMagnitude(s, radix) == Some(m)
    ensures ParseInt("-" + s, radix) == Some(0 - m as int)
  {
    var neg := "-" + s;
    assert !IsSpace(neg[0]);
    assert TrimStart(neg) == neg;
    assert neg[1..] == s;
  }

  /** Leading whitespace is skipped. */
  lemma ParseIntSkipsSpace(c: char, s: string, radix: Radix)
    requires IsSpace(c)
    ensures ParseInt([c] + s, radix) == ParseInt(s, radix)
  {
    assert ([c] + s)[1..] == s;
  }

  lemma {:induction false} LeadingDigitsStop(s: string, rest: string, base: nat)
    requires AllDigits(s, base)
    requires rest == [] || DigitValue(rest[0], base).None?
    ensures LeadingDigits(s + rest, base) == s
    decreases |s|
  {
    if s == [] {
      assert s + rest == rest;
    } else {
      assert (s + rest)[1..] == s[1..] + rest;
      LeadingDigitsStop(s[1..], rest, base);
    }
  }

  /** The rendering of `n`, followed by `rest`, does not start with a hexadecimal prefix. */
  lemma NoHexPrefix(n: nat, rest: string, radix: Radix)
    requires rest == [] || !('0' <= rest[0] <= '9')
    requires radix == Automatic && n == 0 ==> rest == [] || (rest[0] != 'x' && rest[0] != 'X')
    ensures var s := ShowNat(n) + rest;
            !(radix == Automatic && |s| >= 2 && s[0] == '0' && (s[1] == 'x' || s[1] == 'X'))
  {
    var digits := ShowNat(n);
    var s := digits + rest;
    if n == 0 {
      assert digits == [DigitChar(0)];
      assert |s| >= 2 ==> s[1] == rest[0];
    } else if n < 10 {
      assert digits == [DigitChar(n)];
      assert s[0] == DigitChar(n);
    } else {
      assert s[1] == digits[1];
      assert DigitValue(digits[1], 10).Some?;
    }
  }

  lemma MagnitudeStopsAtNonDigit(n: nat, rest: string, radix: Radix)
    requires rest == [] || !('0' <= rest[0] <= '9')
    requires radix == Automatic && n == 0 ==> rest == [] || (rest[0] != 'x' && rest[0] != 'X')
    ensures ParseMagnitude(ShowNat(n) + rest, radix) == Some(n)
  {
    NoHexPrefix(n, rest, radix);
    assert rest != [] ==> DigitValue(rest[0], 10).None?;
    LeadingDigitsStop(ShowNat(n), rest, 10);
    ShowNatValue(n);
  }

  /** Reading stops at the first character that is not a digit, so text after
      the number is ignored (`parseInt("50000/yr")` is 50000).  With the radix
      omitted, a lone `0` followed by `x` would start a hexadecimal number instead. */
  lemma ParseIntStopsAtNonDigit(n: nat, rest: string, radix: Radix)
    requires rest == [] || !('0' <= rest[0] <= '9')
    requires radix == Automatic && n == 0 ==> rest == [] || (rest[0] != 'x' && rest[0] != 'X')
    ensures ParseInt(ShowNat(n) + rest, radix) == Some(n)
  {
    var s := ShowNat(n) + rest;
    assert s[0] == ShowNat(n)[0];
    assert DigitValue(s[0], 10).Some?;
    MagnitudeStopsAtNonDigit(n, rest, radix);
    ParseIntUnsigned(s, radix);
  }

  /** `parseInt(s, 10)` is `NaN` exactly when no decimal digit follows the
      leading whitespace and the optional sign. */
  lemma ParseIntDecimalNaN(s: string)
    ensures var t := TrimStart(s);
            var u := if t != [] && (t[0] == '-' || t[0] == '+') then t[1..] else t;
            ParseInt(s, Decimal).None? <==> u == [] || !('0' <= u[0] <= '9')
  {
  }

  /** `parseInt` reads back every integer it is shown, with either radix. */
  lemma ParseShowRoundTrip(n: int, radix: Radix)
    ensures ParseInt(ShowInt(n), radix) == Some(n)
  {
    var m: nat := if n < 0 then -n else n;
    ShowNatValue(m);
    if n < 0 {
      ParseMagnitudeOfDigits(ShowNat(m), radix);
      ParseIntNegative(ShowNat(m), radix, m);
    } else {
      ParseDigits(ShowNat(m), radix);
    }
  }
}
