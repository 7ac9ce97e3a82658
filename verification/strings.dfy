/** The PHP string functions the modelled code relies on (`strpos(...) === 0`,
    `str_replace`, `trim`, `strtolower`, `strtoupper`, `ctype_digit`, the
    `(int)` cast, `sprintf('%d')` and the byte order used by `ksort`),
    restricted to the ASCII behaviour the code exercises. */
module Strings {

  /** `0 === strpos(s, p)`. */
  predicate StartsWith(s: string, p: string) {
    |p| <= |s| && s[..|p|] == p
  }

  /** `false !== strpos(s, p)`: `p` occurs somewhere in `s`. */
  predicate Contains(s: string, p: string)
    decreases |s|
  {
    StartsWith(s, p) || (|s| > 0 && Contains(s[1..], p))
  }

  /** `str_replace(p, r, s)`: every non-overlapping occurrence of `p`,
      scanned from the left, is replaced by `r`. */
  function ReplaceAll(s: string, p: string, r: string): string
    requires |p| > 0
    decreases |s|
  {
    if |s| == 0 then s
    else if StartsWith(s, p) then r + ReplaceAll(s[|p|..], p, r)
    else [s[0]] + ReplaceAll(s[1..], p, r)
  }

  /** A pattern holding a character the string lacks does not occur in it. */
  lemma {:induction false} MissingCharNotContained(s: string, p: string, i: nat)
    requires i < |p| && p[i] !in s
    ensures !Contains(s, p)
    decreases |s|
  {
    if |s| > 0 {
      assert p[i] !in s[1..] by {
        assert s == [s[0]] + s[1..];
      }
      MissingCharNotContained(s[1..], p, i);
    }
  }

  /** A string occurs in any text that holds it. */
  lemma {:induction false} ContainsInside(a: string, b: string, c: string)
    ensures Contains(a + b + c, b)
    decreases |a|
  {
    if |a| == 0 {
      assert a + b + c == b + c;
      assert (b + c)[..|b|] == b;
    } else {
      ContainsInside(a[1..], b, c);
      assert (a + b + c)[1..] == a[1..] + b + c;
    }
  }

  /** `strpos(s, c) !== false` for a single character is membership. */
  lemma {:induction false} ContainsChar(s: string, c: char)
    ensures Contains(s, [c]) <==> c in s
    decreases |s|
  {
    if |s| > 0 {
      ContainsChar(s[1..], c);
      assert s == [s[0]] + s[1..];
      assert s[..1] == [s[0]];
    }
  }

  /** Replacing a pattern that does not occur leaves the string as it is. */
  lemma {:induction false} ReplaceAllAbsent(s: string, p: string, r: string)
    requires |p| > 0
    requires !Contains(s, p)
    ensures ReplaceAll(s, p, r) == s
    decreases |s|
  {
    if |s| > 0 {
      ReplaceAllAbsent(s[1..], p, r);
      assert [s[0]] + s[1..] == s;
    }
  }

  /** Replacing by something no longer never makes the string longer, and
      strictly shortens it when the pattern occurs. */
  lemma {:induction false} ReplaceAllLength(s: string, p: string, r: string)
    requires |r| < |p|
    ensures |ReplaceAll(s, p, r)| <= |s|
    ensures Contains(s, p) ==> |ReplaceAll(s, p, r)| < |s|
    decreases |s|
  {
    if |s| > 0 {
      if StartsWith(s, p) {
        ReplaceAllLength(s[|p|..], p, r);
      } else {
        ReplaceAllLength(s[1..], p, r);
      }
    }
  }

  /** Replacing a single character by a text that lacks it removes every
      occurrence of that character. */
  lemma {:induction false} ReplaceCharRemovesIt(s: string, c: char, r: string)
    requires c !in r
    ensures c !in ReplaceAll(s, [c], r)
    decreases |s|
  {
    if |s| > 0 {
      if StartsWith(s, [c]) {
        ReplaceCharRemovesIt(s[1..], c, r);
      } else {
        assert s[..1] == [s[0]];
        ReplaceCharRemovesIt(s[1..], c, r);
      }
    }
  }

  /** Replacing one character by another maps the string character by character. */
  lemma {:induction false} ReplaceCharByChar(s: string, c: char, d: char)
    ensures |ReplaceAll(s, [c], [d])| == |s|
    ensures forall i :: 0 <= i < |s| ==> ReplaceAll(s, [c], [d])[i] == if s[i] == c then d else s[i]
    decreases |s|
  {
    if |s| > 0 {
      ReplaceCharByChar(s[1..], c, d);
      assert StartsWith(s, [c]) <==> s[0] == c by {
        assert s[..1] == [s[0]];
      }
    }
  }

  /** The characters PHP's `trim` strips by default: " \t\n\r\0\x0B". */
  const TrimSet: set<char> := {' ', '\t', '\n', '\r', '\0', '\U{0B}'}

  function TrimLeft(s: string, cs: set<char>): (r: string)
    ensures |r| <= |s|
    ensures |r| > 0 ==> r[0] !in cs
    decreases |s|
  {
    if |s| > 0 && s[0] in cs then TrimLeft(s[1..], cs) else s
  }

  function TrimRight(s: string, cs: set<char>): (r: string)
    ensures |r| <= |s|
    ensures |r| > 0 ==> r[|r| - 1] !in cs
    decreases |s|
  {
    if |s| > 0 && s[|s| - 1] in cs then TrimRight(s[..|s| - 1], cs) else s
  }

  /** `trim(s, chars)`. */
  function Trim(s: string, cs: set<char>): string {
    TrimRight(TrimLeft(s, cs), cs)
  }

  /** `trim(s)` with the default character set. */
  function TrimSpace(s: string): string {
    Trim(s, TrimSet)
  }

  predicate IsDigit(c: char) {
    '0' <= c <= '9'
  }

  predicate IsUpper(c: char) {
    'A' <= c <= 'Z'
  }

  predicate IsLower(c: char) {
    'a' <= c <= 'z'
  }

  predicate IsLetter(c: char) {
    IsUpper(c) || IsLower(c)
  }

  predicate AllDigits(s: string) {
    forall i :: 0 <= i < |s| ==> IsDigit(s[i])
  }

  /** `ctype_digit(s)`: non-empty and made of decimal digits only. */
  predicate CtypeDigit(s: string) {
    |s| > 0 && AllDigits(s)
  }

  function LowerChar(c: char): char {
    if IsUpper(c) then (c as int + 32) as char else c
  }

  function UpperChar(c: char): char {
    if IsLower(c) then (c as int - 32) as char else c
  }

  /** `strtolower` on ASCII letters. */
  function Lower(s: string): (r: string)
    ensures |r| == |s|
    ensures forall i :: 0 <= i < |s| ==> r[i] == LowerChar(s[i])
  {
    seq(|s|, i requires 0 <= i < |s| => LowerChar(s[i]))
  }

  /** `strtoupper` on ASCII letters. */
  function Upper(s: string): (r: string)
    ensures |r| == |s|
    ensures forall i :: 0 <= i < |s| ==> r[i] == UpperChar(s[i])
  {
    seq(|s|, i requires 0 <= i < |s| => UpperChar(s[i]))
  }

  lemma LowerAppend(a: string, b: string)
    ensures Lower(a + b) == Lower(a) + Lower(b)
  {
    assert forall i :: 0 <= i < |a + b| ==> Lower(a + b)[i] == (Lower(a) + Lower(b))[i];
  }

  /** `n` copies of the character `c`. */
  function Repeat(c: char, n: nat): (r: string)
    ensures |r| == n
    ensures forall i :: 0 <= i < n ==> r[i] == c
  {
    seq(n, i => c)
  }

  function DigitChar(d: nat): char
    requires d < 10
  {
    ('0' as int + d) as char
  }

  /** The decimal representation of a natural number, as `sprintf('%d')` prints it. */
  function Decimal(n: nat): (r: string)
    ensures CtypeDigit(r)
    ensures |r| == 1 <==> n < 10
    decreases n
  {
    if n < 10 then [DigitChar(n)] else Decimal(n / 10) + [DigitChar(n % 10)]
  }

  /** The value of a string of decimal digits. */
  function DigitValue(s: string): nat
    requires AllDigits(s)
    decreases |s|
  {
    if |s| == 0 then 0 else DigitValue(s[..|s| - 1]) * 10 + (s[|s| - 1] as int - '0' as int)
  }

  /** `Decimal` prints a non-empty digit string whose value is the number:
      the two functions are inverse to one another. */
  lemma {:induction false} DecimalRoundTrip(n: nat)
    ensures CtypeDigit(Decimal(n))
    ensures DigitValue(Decimal(n)) == n
    decreases n
  {
    if n >= 10 {
      DecimalRoundTrip(n / 10);
      var d := Decimal(n);
      assert d[..|d| - 1] == Decimal(n / 10);
    }
  }

  /** The longest prefix of `s` made of digits. */
  function DigitPrefix(s: string): (r: string)
    ensures AllDigits(r)
    ensures StartsWith(s, r)
    ensures |r| < |s| ==> !IsDigit(s[|r|])
    decreases |s|
  {
    if |s| > 0 && IsDigit(s[0]) then [s[0]] + DigitPrefix(s[1..]) else []
  }

  lemma {:induction false} DigitPrefixOfDigits(s: string)
    requires AllDigits(s)
    ensures DigitPrefix(s) == s
    decreases |s|
  {
    if |s| > 0 {
      DigitPrefixOfDigits(s[1..]);
    }
  }

  /** `PHP_INT_MIN` and `PHP_INT_MAX` on a 64-bit build. */
  const IntMin: int := -0x8000_0000_0000_0000
  const IntMax: int := 0x7FFF_FFFF_FFFF_FFFF

  function Clamp(n: int): (r: int)
    ensures IntMin <= r <= IntMax
    ensures IntMin <= n <= IntMax ==> r == n
  {
    if n < IntMin then IntMin else if n > IntMax then IntMax else n
  }

  /** The white space PHP skips before a leading-numeric string. */
  const NumericLeadingSpace: set<char> := {' ', '\t', '\n', '\r', '\U{0B}', '\U{0C}'}

  /** `10^n`. */
  function Pow10(n: nat): (r: nat)
    ensures r > 0
  {
    if n == 0 then 1 else 10 * Pow10(n - 1)
  }

  /** The least magnitude that `strtod` rounds to infinity: the largest
      double, `(2^53 - 1) * 2^971`, plus half a unit in its last place,
      that is `2^1024 - 2^970`. */
  const DoubleOverflow: nat := 0xFFFF_FFFF_FFFF_FC00_0000_0000_0000_0000_0000_0000_0000_0000_0000_0000_0000_0000_0000_0000_0000_0000_0000_0000_0000_0000_0000_0000_0000_0000_0000_0000_0000_0000_0000_0000_0000_0000_0000_0000_0000_0000_0000_0000_0000_0000_0000_0000_0000_0000_0000_0000_0000_0000_0000_0000_0000_0000_0000_0000_0000_0000_0000_0000_0000_0000_0000_0000

  /** PHP's `(int)` cast of a string (`zval_get_long`): leading white space
      is skipped, then the longest numeric prefix is read: an optional
      sign, digits, an optional `.` with digits, an optional exponent
      `e`/`E` with an optional sign and digits. A prefix with no digit gives
      0. The value is truncated toward zero and saturates at the 64-bit
      bounds, except that a magnitude the double conversion turns into
      infinity gives 0. */
  function IntCast(s: string): (r: int)
    ensures IntMin <= r <= IntMax
  {
    SignedPrefixValue(TrimLeft(s, NumericLeadingSpace))
  }

  /** The value of an optional sign followed by an unsigned numeric prefix. */
  function SignedPrefixValue(t: string): (r: int)
    ensures IntMin <= r <= IntMax
  {
    var neg := |t| > 0 && t[0] == '-';
    var u := if |t| > 0 && (t[0] == '-' || t[0] == '+') then t[1..] else t;
    var m: int := Magnitude(u);
    if m >= DoubleOverflow then 0 else Clamp(if neg then -m else m)
  }

  /** The exponent `e[+-]digits` at the head of `t`; 0 when there is none
      (an `e` without digits is not an exponent). */
  function Exponent(t: string): int {
    if |t| > 0 && (t[0] == 'e' || t[0] == 'E') then
      var u := t[1..];
      var v := if |u| > 0 && (u[0] == '-' || u[0] == '+') then u[1..] else u;
      var d := DigitPrefix(v);
      if |d| == 0 then 0 else if u[0] == '-' then -(DigitValue(d) as int) else DigitValue(d)
    else 0
  }

  /** `n * 10^k` truncated toward zero, for a natural `n` and any `k`. */
  function Scale(n: nat, k: int): nat {
    if k >= 0 then ProductNat(n, Pow10(k)); n * Pow10(k) else QuotientNat(n, Pow10(-k)); n / Pow10(-k)
  }

  lemma ProductNat(a: nat, b: nat)
    ensures a * b >= 0
  {
  }

  lemma QuotientNat(a: nat, b: nat)
    requires b > 0
    ensures a / b >= 0
  {
  }

  /** What follows the whole digits: the fraction digits after a dot (none
      without a dot) and the rest after them. */
  function SplitFraction(after: string): (r: (string, string))
    ensures AllDigits(r.0)
  {
    if |after| > 0 && after[0] == '.' then
      var fraction := DigitPrefix(after[1..]);
      (fraction, after[1 + |fraction|..])
    else ("", after)
  }

  /** The unsigned numeric prefix of `u`, truncated toward zero: the whole
      digits and the fraction digits form one number, scaled by the
      exponent less the length of the fraction. */
  function Magnitude(u: string): nat {
    var whole := DigitPrefix(u);
    var parts := SplitFraction(u[|whole|..]);
    if |whole| == 0 && |parts.0| == 0 then 0
    else Scale(DigitValue(whole + parts.0), Exponent(parts.1) - |parts.0|)
  }

  /** Trimming stops at once at a character outside the set. */
  lemma TrimLeftStops(s: string, cs: set<char>)
    requires |s| > 0 && s[0] !in cs
    ensures TrimLeft(s, cs) == s
  {
  }

  lemma TrimRightStops(s: string, cs: set<char>)
    requires |s| > 0 && s[|s| - 1] !in cs
    ensures TrimRight(s, cs) == s
  {
  }

  /** Trimming on the right keeps the first character of what remains. */
  lemma {:induction false} TrimRightFirst(s: string, cs: set<char>)
    ensures |TrimRight(s, cs)| > 0 ==> TrimRight(s, cs)[0] == s[0]
    decreases |s|
  {
    if |s| > 0 && s[|s| - 1] in cs {
      TrimRightFirst(s[..|s| - 1], cs);
    }
  }

  /** Trimming on the right never reaches into a prefix that ends outside
      the trimmed set. */
  lemma {:induction false} TrimRightAppend(p: string, q: string, cs: set<char>)
    requires |p| > 0 && p[|p| - 1] !in cs
    ensures TrimRight(p + q, cs) == p + TrimRight(q, cs)
    decreases |q|
  {
    if |q| > 0 && q[|q| - 1] in cs {
      assert (p + q)[..|p + q| - 1] == p + q[..|q| - 1];
      TrimRightAppend(p, q[..|q| - 1], cs);
    }
  }

  /** Trimming leaves alone a string whose ends lie outside the trimmed set. */
  lemma TrimKeeps(s: string, cs: set<char>)
    requires |s| > 0 ==> s[0] !in cs && s[|s| - 1] !in cs
    ensures Trim(s, cs) == s
  {
    if |s| > 0 {
      TrimLeftStops(s, cs);
      TrimRightStops(s, cs);
    }
  }

  /** Trimming a leading character of the set and then a string with
      untouchable ends yields that string. */
  lemma TrimLeadingOne(c: char, s: string, cs: set<char>)
    requires c in cs
    requires |s| > 0 && s[0] !in cs && s[|s| - 1] !in cs
    ensures Trim([c] + s, cs) == s
  {
    var t := [c] + s;
    assert t[1..] == s;
    TrimLeftStops(s, cs);
    assert TrimLeft(t, cs) == s;
    TrimRightStops(s, cs);
  }

  /** Trimming a character of the set from both ends of a string with
      untouchable ends yields that string. */
  lemma TrimSurrounding(c: char, s: string, cs: set<char>)
    requires c in cs
    requires |s| > 0 && s[0] !in cs && s[|s| - 1] !in cs
    ensures Trim([c] + s + [c], cs) == s
  {
    var t := [c] + s + [c];
    assert t[1..] == s + [c];
    TrimLeftStops(s + [c], cs);
    assert TrimLeft(t, cs) == s + [c];
    assert (s + [c])[..|s|] == s;
    TrimRightStops(s, cs);
  }

  /** The cast of a digit string is its value, saturated; a value too
      large for a double gives 0. */
  lemma IntCastDigits(d: string)
    requires CtypeDigit(d)
    ensures IntCast(d) == if DigitValue(d) >= DoubleOverflow then 0 else Clamp(DigitValue(d))
  {
    assert d[0] !in NumericLeadingSpace;
    TrimLeftStops(d, NumericLeadingSpace);
    MagnitudeDigits(d);
  }

  /** The cast of a minus sign and a digit string is the negated value,
      saturated; a value too large for a double gives 0. */
  lemma IntCastNegativeDigits(d: string)
    requires CtypeDigit(d)
    ensures IntCast("-" + d) == if DigitValue(d) >= DoubleOverflow then 0 else Clamp(-(DigitValue(d) as int))
  {
    hide DigitValue, Clamp, Magnitude;
    var s := "-" + d;
    TrimLeftStops(s, NumericLeadingSpace);
    assert s[0] == '-' && s[1..] == d;
    MagnitudeDigits(d);
  }

  /** A bare digit string is read whole. */
  lemma MagnitudeDigits(d: string)
    requires CtypeDigit(d)
    ensures Magnitude(d) == DigitValue(d)
  {
    DigitPrefixOfDigits(d);
    assert d[|d|..] == "";
    assert d + "" == d;
  }

  /** Digits followed by an exponent are read as the digits times the
      power of ten, as a double would be, before the cast: `(int)"1e3"` is
      1000. */
  lemma IntCastExponent(d: string, x: string)
    requires CtypeDigit(d) && CtypeDigit(x)
    ensures var v := DigitValue(d) * Pow10(DigitValue(x));
      IntCast(d + "e" + x) == if v >= DoubleOverflow then 0 else Clamp(v)
  {
    hide DigitValue, Pow10, Magnitude;
    var s := d + "e" + x;
    assert s[0] == d[0];
    TrimLeftStops(s, NumericLeadingSpace);
    MagnitudeExponent(d, x);
  }

  lemma MagnitudeExponent(d: string, x: string)
    requires CtypeDigit(d) && CtypeDigit(x)
    ensures Magnitude(d + "e" + x) == DigitValue(d) * Pow10(DigitValue(x))
  {
    hide DigitValue, Pow10, DigitPrefix, Exponent;
    var s := d + "e" + x;
    WholeDigits(d, "e" + x);
    assert s == d + ("e" + x);
    assert SplitFraction("e" + x) == ("", "e" + x);
    ExponentDigits(x);
    assert d + "" == d;
    assert Magnitude(s) == Scale(DigitValue(d), DigitValue(x));
  }

  /** Digits followed by a non-digit: the digit prefix is those digits, and
      the rest follows them. */
  lemma WholeDigits(d: string, rest: string)
    requires AllDigits(d) && (|rest| > 0 ==> !IsDigit(rest[0]))
    ensures DigitPrefix(d + rest) == d && (d + rest)[|d|..] == rest
  {
    var s := d + rest;
    assert forall k :: 0 <= k < |d| ==> s[k] == d[k];
    DigitPrefixAt(s, d);
  }

  lemma ExponentDigits(x: string)
    requires CtypeDigit(x)
    ensures Exponent("e" + x) == DigitValue(x)
  {
    assert ("e" + x)[1..] == x;
    DigitPrefixOfDigits(x);
  }

  /** A fraction after the digits is read and truncated away: `(int)"12.9"`
      is 12, the cast of the whole digits. */
  lemma IntCastFraction(d: string, f: string)
    requires CtypeDigit(d) && AllDigits(f)
    ensures IntCast(d + "." + f) == IntCast(d)
  {
    var s := d + "." + f;
    assert s[0] == d[0];
    TrimLeftStops(s, NumericLeadingSpace);
    TrimLeftStops(d, NumericLeadingSpace);
    MagnitudeFraction(d, f);
    MagnitudeDigits(d);
  }

  lemma MagnitudeFraction(d: string, f: string)
    requires CtypeDigit(d) && AllDigits(f)
    ensures Magnitude(d + "." + f) == DigitValue(d)
  {
    hide DigitValue, Exponent;
    var s := d + "." + f;
    WholeDigits(d, "." + f);
    assert s == d + ("." + f);
    DigitPrefixOfDigits(f);
    assert ("." + f)[1..] == f;
    assert ("." + f)[1 + |f|..] == "";
    assert SplitFraction("." + f) == (f, "");
    NoExponent();
    assert Magnitude(s) == Scale(DigitValue(d + f), 0 - |f|);
    DigitValueAppend(d, f);
    DigitValueBelow(f);
    DivUnique(DigitValue(d + f), Pow10(|f|), DigitValue(d), DigitValue(f));
  }

  /** Digits appended to digits shift the value by a power of ten. */
  lemma {:induction false} DigitValueAppend(a: string, b: string)
    requires AllDigits(a) && AllDigits(b)
    ensures DigitValue(a + b) == DigitValue(a) * Pow10(|b|) + DigitValue(b)
    decreases |b|
  {
    if |b| > 0 {
      var c := b[..|b| - 1];
      var last := b[|b| - 1] as int - '0' as int;
      DigitValueAppend(a, c);
      assert (a + b)[..|a + b| - 1] == a + c;
      assert DigitValue(a + b) == DigitValue(a + c) * 10 + last;
      assert DigitValue(b) == DigitValue(c) * 10 + last;
      hide DigitValue;
      ShiftDigit(DigitValue(a), Pow10(|c|), DigitValue(c), last);
    } else {
      assert a + b == a;
    }
  }

  lemma ShiftDigit(x: int, p: int, y: int, last: int)
    ensures (x * p + y) * 10 + last == x * (10 * p) + (y * 10 + last)
  {
  }

  /** `n` digits stay below `10^n`. */
  lemma {:induction false} DigitValueBelow(b: string)
    requires AllDigits(b)
    ensures DigitValue(b) < Pow10(|b|)
    decreases |b|
  {
    if |b| > 0 {
      DigitValueBelow(b[..|b| - 1]);
    }
  }

  /** Truncating division has one quotient: the `q` with a remainder
      below the divisor. */
  lemma DivUnique(x: int, p: int, q: int, r: int)
    requires p > 0 && 0 <= r < p && x == q * p + r
    ensures x / p == q
  {
    var q' := x / p;
    assert x == q' * p + x % p;
    if q' > q {
      assert q' * p - q * p == (q' - q) * p;
      MulAtLeast(q' - q, p);
    } else if q' < q {
      assert q * p - q' * p == (q - q') * p;
      MulAtLeast(q - q', p);
    }
  }

  lemma {:induction false} MulAtLeast(m: int, p: int)
    requires m >= 1 && p >= 0
    ensures m * p >= p
    decreases m
  {
    assert m * p == (m - 1) * p + p;
    if m > 1 {
      MulAtLeast(m - 1, p);
    }
  }

  /** A negative exponent divides and the cast truncates: `(int)"25e-1"`
      is 2. */
  lemma IntCastNegativeExponent(d: string, x: string)
    requires CtypeDigit(d) && CtypeDigit(x)
    ensures var v := DigitValue(d) / Pow10(DigitValue(x));
      IntCast(d + "e-" + x) == if v >= DoubleOverflow then 0 else Clamp(v)
  {
    hide DigitValue, Pow10, Magnitude;
    var s := d + "e-" + x;
    assert s[0] == d[0];
    TrimLeftStops(s, NumericLeadingSpace);
    MagnitudeNegativeExponent(d, x);
  }

  lemma MagnitudeNegativeExponent(d: string, x: string)
    requires CtypeDigit(d) && CtypeDigit(x)
    ensures Magnitude(d + "e-" + x) == DigitValue(d) / Pow10(DigitValue(x))
  {
    hide DigitValue, DigitPrefix, Exponent;
    var s := d + "e-" + x;
    WholeDigits(d, "e-" + x);
    assert s == d + ("e-" + x);
    assert SplitFraction("e-" + x) == ("", "e-" + x);
    ExponentNegativeDigits(x);
    assert d + "" == d;
    assert Magnitude(s) == Scale(DigitValue(d), -(DigitValue(x) as int));
  }

  lemma NoExponent()
    ensures Exponent("") == 0
  {
  }

  lemma ExponentNegativeDigits(x: string)
    requires CtypeDigit(x)
    ensures Exponent("e-" + x) == -(DigitValue(x) as int)
  {
    assert ("e-" + x)[1..] == "-" + x && ("-" + x)[1..] == x;
    DigitPrefixOfDigits(x);
  }

  /** A leading `+` is read and dropped: `(int)"+1e5"` is 100000. */
  lemma IntCastPlusExponent()
    ensures IntCast("+1e5") == 100000
  {
    var s := "+1e5";
    TrimLeftStops(s, NumericLeadingSpace);
    assert s[1..] == "1" + "e" + "5";
    MagnitudeExponent("1", "5");
    assert DigitValue("1") == 1 && DigitValue("5") == 5;
    assert Pow10(5) == 100000;
  }

  /** The digit prefix of a string that starts with a run of digits and
      continues with a non-digit is that run. */
  lemma {:induction false} DigitPrefixAt(s: string, d: string)
    requires AllDigits(d) && |d| <= |s|
    requires forall k :: 0 <= k < |d| ==> s[k] == d[k]
    requires |d| < |s| ==> !IsDigit(s[|d|])
    ensures DigitPrefix(s) == d
    decreases |d|
  {
    if |d| > 0 {
      DigitPrefixAt(s[1..], d[1..]);
    }
  }

  /** The cast reads back what `Decimal` printed, for every value that fits
      in a PHP integer. */
  lemma IntCastDecimal(n: nat)
    requires n <= IntMax
    ensures IntCast(Decimal(n)) == n
  {
    DecimalRoundTrip(n);
    IntCastDigits(Decimal(n));
  }

  /** The cast reads back what `sprintf('%d')` printed, for every PHP integer. */
  lemma IntCastIntToString(n: int)
    requires IntMin <= n <= IntMax
    ensures IntCast(IntToString(n)) == n
  {
    if n < 0 {
      var d := Decimal(-n);
      assert IntToString(n) == "-" + d;
      DecimalRoundTrip(-n);
      IntCastNegativeDigits(d);
      assert DigitValue(d) == -n;
    } else {
      assert IntToString(n) == Decimal(n);
      IntCastDecimal(n);
    }
  }

  /** `sprintf('%d', n)`. */
  function IntToString(n: int): string {
    if n < 0 then "-" + Decimal(-n) else Decimal(n)
  }

  /** Lexicographic order on code points, the order `ksort($a, SORT_STRING)`
      puts keys in (byte order of UTF-8 and code-point order agree). */
  predicate Less(a: string, b: string)
    decreases |a|
  {
    if |a| == 0 then |b| > 0
    else if |b| == 0 then false
    else if a[0] == b[0] then Less(a[1..], b[1..])
    else a[0] < b[0]
  }

  lemma {:induction false} LessIrreflexive(a: string)
    ensures !Less(a, a)
    decreases |a|
  {
    if |a| > 0 {
      LessIrreflexive(a[1..]);
    }
  }

  lemma {:induction false} LessAsymmetric(a: string, b: string)
    ensures Less(a, b) ==> !Less(b, a)
    decreases |a|
  {
    if |a| > 0 && |b| > 0 && a[0] == b[0] {
      LessAsymmetric(a[1..], b[1..]);
    }
  }

  lemma {:induction false} LessTransitive(a: string, b: string, c: string)
    requires Less(a, b) && Less(b, c)
    ensures Less(a, c)
    decreases |a|
  {
    if |a| > 0 && a[0] == b[0] && b[0] == c[0] {
      LessTransitive(a[1..], b[1..], c[1..]);
    }
  }

  lemma {:induction false} LessTotal(a: string, b: string)
    requires a != b
    ensures Less(a, b) || Less(b, a)
    decreases |a|
  {
    if |a| > 0 && |b| > 0 && a[0] == b[0] {
      assert a == [a[0]] + a[1..] && b == [b[0]] + b[1..];
      LessTotal(a[1..], b[1..]);
    }
  }
}
