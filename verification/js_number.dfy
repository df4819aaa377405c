/** JavaScript number conversions on strings: `String(n)` for integers,
    `parseInt(s, 10)` and `Number(s)`. Values are exact: `Number` yields a
    real, not the nearest IEEE-754 double. */
module JsNumber {
  import opened Wrappers
  import opened JsText

  function DigitChar(d: nat): (c: char)
    requires d < 10
    ensures IsDigit(c)
  {
    ('0' as int + d) as char
  }

  function DigitValue(c: char): (d: nat)
    requires IsDigit(c)
    ensures d < 10 && DigitChar(d) == c
  {
    c as int - '0' as int
  }

  predicate AllDigits(s: string) {
    forall i | 0 <= i < |s| :: IsDigit(s[i])
  }

  /** The value of a run of decimal digits, most significant first. */
  function DigitsValue(s: string): nat
    requires AllDigits(s)
    decreases |s|
  {
    if s == [] then 0 else DigitsValue(s[..|s| - 1]) * 10 + DigitValue(s[|s| - 1])
  }

  /** `String(n)` for a natural number: its decimal digits without leading
      zeros. */
  function NatToString(n: nat): (r: string)
    ensures |r| >= 1 && AllDigits(r)
    ensures |r| > 1 ==> r[0] != '0'
    decreases n
  {
    if n < 10 then [DigitChar(n)] else NatToString(n / 10) + [DigitChar(n % 10)]
  }

  /** `String(i)` for an integer. */
  function IntToString(i: int): (r: string)
    ensures |r| >= 1
    ensures forall k | 0 <= k < |r| :: r[k] == '-' || IsDigit(r[k])
  {
    if i < 0 then "-" + NatToString(-i) else NatToString(i)
  }

  /** Reading back the digits `NatToString` wrote gives the number. */
  lemma {:induction false} NatToStringValue(n: nat)
    ensures DigitsValue(NatToString(n)) == n
    decreases n
  {
    var r := NatToString(n);
    if n >= 10 {
      NatToStringValue(n / 10);
      assert r[..|r| - 1] == NatToString(n / 10);
    }
  }

  lemma NatToStringInjective(a: nat, b: nat)
    requires NatToString(a) == NatToString(b)
    ensures a == b
  {
    NatToStringValue(a);
    NatToStringValue(b);
  }

  /** The longest prefix of `s` made of decimal digits. */
  function DigitPrefix(s: string): (r: string)
    ensures AllDigits(r) && StartsWith(s, r)
    ensures |r| == |s| || !IsDigit(s[|r|])
    decreases |s|
  {
    if s != [] && IsDigit(s[0]) then [s[0]] + DigitPrefix(s[1..]) else []
  }

  lemma DigitPrefixAll(s: string)
    requires AllDigits(s)
    ensures DigitPrefix(s) == s
  {
  }

  /** `parseInt(s, 10)`: leading whitespace, an optional sign, then the
      longest run of decimal digits; `None` is `NaN` (no digit at all). */
  function ParseInt(s: string): (r: Option<int>)
    ensures r.Some? <==>
      var t := TrimStart(s);
      var u := if t != [] && (t[0] == '-' || t[0] == '+') then t[1..] else t;
      u != [] && IsDigit(u[0])
  {
    var t := TrimStart(s);
    var negative := t != [] && t[0] == '-';
    var u := if t != [] && (t[0] == '-' || t[0] == '+') then t[1..] else t;
    var ds := DigitPrefix(u);
    var magnitude: int := DigitsValue(ds);
    if ds == [] then None
    else Some(if negative then -magnitude else magnitude)
  }

  lemma DigitNotSpace(c: char)
    requires IsDigit(c) || c == '-'
    ensures !IsSpace(c)
  {
  }

  lemma IntToStringNoSpace(i: int)
    ensures NoSpace(IntToString(i))
  {
    var s := IntToString(i);
    forall k | 0 <= k < |s|
      ensures !IsSpace(s[k])
    {
      DigitNotSpace(s[k]);
    }
  }

  lemma TrimStartUnchanged(s: string)
    requires s == [] || !IsSpace(s[0])
    ensures TrimStart(s) == s
  {
  }

  /** A negative integer is written as a minus sign followed by the digits
      of its magnitude. */
  lemma NegativeIntToString(i: int)
    requires i < 0
    ensures var s := IntToString(i);
      && |s| >= 2 && s[0] == '-' && AllDigits(s[1..]) && DigitsValue(s[1..]) == -i
  {
    var s := IntToString(i);
    assert s[1..] == NatToString(-i);
    NatToStringValue(-i);
  }

  /** A non-empty run of decimal digits parses to the number it spells. */
  lemma ParseIntOfDigits(s: string)
    requires |s| >= 1 && AllDigits(s)
    ensures ParseInt(s) == Some(DigitsValue(s))
  {
    DigitNotSpace(s[0]);
    TrimStartUnchanged(s);
    assert s[0] != '-' && s[0] != '+';
    DigitPrefixAll(s);
  }

  /** A minus sign followed by a non-empty run of decimal digits parses to
      the negated number the digits spell. */
  lemma ParseIntOfNegative(s: string)
    requires |s| >= 2 && s[0] == '-' && AllDigits(s[1..])
    ensures ParseInt(s) == Some(-(DigitsValue(s[1..]) as int))
  {
    DigitNotSpace(s[0]);
    TrimStartUnchanged(s);
    DigitPrefixAll(s[1..]);
  }

  /** `parseInt(String(i), 10) == i`: the decimal rendering of an integer
      parses back to the integer. */
  lemma ParseIntOfIntToString(i: int)
    ensures ParseInt(IntToString(i)) == Some(i)
  {
    if i < 0 {
      ParseIntOfNegativeInt(i);
    } else {
      ParseIntOfDigits(NatToString(i));
      NatToStringValue(i);
    }
  }

  lemma ParseIntOfNegativeInt(i: int)
    requires i < 0
    ensures ParseInt(IntToString(i)) == Some(i)
  {
    NegativeIntToString(i);
    ParseIntOfNegative(IntToString(i));
  }

  /** The outcome of `Number(s)`. */
  datatype NumVal = NaN | Finite(value: real) | Infinite(negative: bool)

  /** `m * 10^e` as an exact real. */
  function Scale(m: nat, e: int): real
    decreases if e >= 0 then e else -e
  {
    if e == 0 then m as real
    else if e > 0 then 10.0 * Scale(m, e - 1)
    else Scale(m, e + 1) / 10.0
  }

  /** The index of the first `c` in `s`, or `|s|` when there is none. */
  function IndexOf(s: string, c: char): (i: nat)
    ensures i <= |s|
    ensures i < |s| ==> s[i] == c
    ensures forall j | 0 <= j < i :: s[j] != c
    decreases |s|
  {
    if s == [] then 0 else if s[0] == c then 0 else 1 + IndexOf(s[1..], c)
  }

  /** The index of the first exponent marker `e` or `E`, or `|s|`. */
  function ExponentAt(s: string): (i: nat)
    ensures i <= |s|
    ensures i < |s| ==> s[i] == 'e' || s[i] == 'E'
    ensures forall j | 0 <= j < i :: s[j] != 'e' && s[j] != 'E'
    decreases |s|
  {
    if s == [] then 0
    else if s[0] == 'e' || s[0] == 'E' then 0
    else 1 + ExponentAt(s[1..])
  }

  /** An optionally signed, non-empty digit run: the exponent of a decimal
      literal. */
  function SignedDigits(x: string): Option<int> {
    if |x| >= 1 && AllDigits(x) then Some(DigitsValue(x))
    else if |x| >= 2 && x[0] == '+' && AllDigits(x[1..]) then Some(DigitsValue(x[1..]))
    else if |x| >= 2 && x[0] == '-' && AllDigits(x[1..]) then Some(0 - DigitsValue(x[1..]))
    else None
  }

  /** ECMAScript's StrUnsignedDecimalLiteral without `Infinity`:
      `digits [. digits] [exponent]` or `. digits [exponent]`, with at least
      one digit in the mantissa. */
  function UnsignedDecimal(u: string): Option<real> {
    var k := ExponentAt(u);
    var mantissa := u[..k];
    var exponent := if k < |u| then SignedDigits(u[k + 1..]) else Some(0);
    var dot := IndexOf(mantissa, '.');
    var whole := mantissa[..dot];
    var fraction := if dot < |mantissa| then mantissa[dot + 1..] else [];
    if exponent.Some? && AllDigits(whole) && AllDigits(fraction) && |whole| + |fraction| >= 1 then
      Some(Scale(DigitsValue(whole + fraction), exponent.value - |fraction|))
    else None
  }

  function HexDigitValue(c: char): int {
    if IsDigit(c) then c as int - '0' as int
    else if 'a' <= c <= 'f' then c as int - 'a' as int + 10
    else if 'A' <= c <= 'F' then c as int - 'A' as int + 10
    else -1
  }

  predicate IsRadixDigits(s: string, radix: nat) {
    |s| >= 1 && forall i | 0 <= i < |s| :: 0 <= HexDigitValue(s[i]) < radix
  }

  /** The value of a digit string in the given radix, most significant digit
      first. */
  function RadixValue(s: string, radix: nat): int
    requires forall i | 0 <= i < |s| :: 0 <= HexDigitValue(s[i]) < radix
    decreases |s|
  {
    if s == [] then 0
    else
      var init := s[..|s| - 1];
      assert forall i | 0 <= i < |init| :: init[i] == s[i];
      RadixValue(init, radix) * radix + HexDigitValue(s[|s| - 1])
  }

  /** The radix a `0x`/`0o`/`0b` prefix (either case) announces, or 0. */
  function RadixPrefix(t: string): nat {
    if |t| >= 2 && t[0] == '0' then
      if t[1] == 'x' || t[1] == 'X' then 16
      else if t[1] == 'o' || t[1] == 'O' then 8
      else if t[1] == 'b' || t[1] == 'B' then 2
      else 0
    else 0
  }

  /** `Number(s)` on a string (ECMAScript StringToNumber): surrounding
      whitespace is ignored, the empty string is 0, an unsigned `0x`/`0o`/`0b`
      literal is read in its radix, `[+-]Infinity` is infinite, a signed
      decimal literal is its value, and everything else is NaN. */
  function ToNumber(s: string): NumVal {
    var t := Trim(s);
    if t == [] then Finite(0.0)
    else if RadixPrefix(t) != 0 then RadixLiteral(t[2..], RadixPrefix(t))
    else SignedDecimal(t)
  }

  /** The digits after a `0x`/`0o`/`0b` prefix. */
  function RadixLiteral(digits: string, radix: nat): NumVal {
    if IsRadixDigits(digits, radix) then Finite(RadixValue(digits, radix) as real) else NaN
  }

  /** An optional sign followed by `Infinity` or an unsigned decimal literal. */
  function SignedDecimal(t: string): NumVal
    requires t != []
  {
    if t[0] == '-' then WithSign(true, t[1..])
    else if t[0] == '+' then WithSign(false, t[1..])
    else WithSign(false, t)
  }

  /** `Infinity` or an unsigned decimal literal, negated when `negative`. */
  function WithSign(negative: bool, u: string): NumVal {
    if u == "Infinity" then Infinite(negative)
    else match UnsignedDecimal(u)
      case Some(v) => Finite(if negative then -v else v)
      case None => NaN
  }

  /** `!Number.isNaN(Number(s))`. */
  predicate IsNumeric(s: string) {
    !ToNumber(s).NaN?
  }

  lemma {:induction false} ExponentAtDigits(u: string)
    requires AllDigits(u)
    ensures ExponentAt(u) == |u|
    decreases |u|
  {
    if u != [] {
      ExponentAtDigits(u[1..]);
    }
  }

  lemma {:induction false} IndexOfAbsent(s: string, c: char)
    requires c !in s
    ensures IndexOf(s, c) == |s|
    decreases |s|
  {
    if s != [] {
      IndexOfAbsent(s[1..], c);
    }
  }

  lemma UnsignedDecimalOfDigits(u: string)
    requires |u| >= 1 && AllDigits(u)
    ensures UnsignedDecimal(u) == Some(DigitsValue(u) as real)
  {
    ExponentAtDigits(u);
    assert u[..|u|] == u;
    assert '.' !in u by {
      forall k | 0 <= k < |u|
        ensures u[k] != '.'
      {
        assert IsDigit(u[k]);
      }
    }
    IndexOfAbsent(u, '.');
    assert u + [] == u;
  }

  lemma DigitsNotSpace(s: string)
    requires AllDigits(s)
    ensures NoSpace(s)
  {
    forall k | 0 <= k < |s|
      ensures !IsSpace(s[k])
    {
      DigitNotSpace(s[k]);
    }
  }

  lemma SignedDecimalOfDigits(s: string)
    requires |s| >= 1 && AllDigits(s)
    ensures SignedDecimal(s) == Finite(DigitsValue(s) as real)
  {
    assert s[0] != '-' && s[0] != '+' && s[0] != 'I';
    UnsignedDecimalOfDigits(s);
  }

  lemma RadixPrefixOfDigits(s: string)
    requires AllDigits(s)
    ensures RadixPrefix(s) == 0
  {
    if |s| >= 2 {
      assert IsDigit(s[1]);
    }
  }

  /** A non-empty run of decimal digits is the number it spells. */
  lemma ToNumberOfDigits(s: string)
    requires |s| >= 1 && AllDigits(s)
    ensures ToNumber(s) == Finite(DigitsValue(s) as real)
  {
    DigitsNotSpace(s);
    TrimNoSpace(s);
    RadixPrefixOfDigits(s);
    SignedDecimalOfDigits(s);
  }

  lemma SignedDecimalOfNegative(t: string)
    requires |t| >= 2 && t[0] == '-' && AllDigits(t[1..])
    ensures SignedDecimal(t) == Finite(-(DigitsValue(t[1..]) as real))
  {
    var n := t[1..];
    assert n != "Infinity" by { assert IsDigit(n[0]); }
    UnsignedDecimalOfDigits(n);
    WithSignOfValue(true, n, DigitsValue(n) as real);
  }

  lemma WithSignOfValue(negative: bool, u: string, v: real)
    requires u != "Infinity" && UnsignedDecimal(u) == Some(v)
    ensures WithSign(negative, u) == Finite(if negative then -v else v)
  {
  }

  /** A minus sign followed by a non-empty run of decimal digits is the
      negated number the digits spell. */
  lemma ToNumberOfNegative(s: string)
    requires |s| >= 2 && s[0] == '-' && AllDigits(s[1..])
    ensures ToNumber(s) == Finite(-(DigitsValue(s[1..]) as real))
  {
    assert NoSpace(s) by {
      forall k | 0 <= k < |s|
        ensures !IsSpace(s[k])
      {
        if k > 0 {
          assert s[k] == s[1..][k - 1];
        }
        DigitNotSpace(s[k]);
      }
    }
    TrimNoSpace(s);
    assert RadixPrefix(s) == 0;
    SignedDecimalOfNegative(s);
  }

  /** `Number(String(i)) == i`: an integer's decimal rendering is numeric and
      denotes that integer. */
  lemma ToNumberOfIntToString(i: int)
    ensures ToNumber(IntToString(i)) == Finite(i as real)
  {
    if i < 0 {
      ToNumberOfNegativeInt(i);
    } else {
      ToNumberOfDigits(NatToString(i));
      NatToStringValue(i);
    }
  }

  lemma ToNumberOfNegativeInt(i: int)
    requires i < 0
    ensures ToNumber(IntToString(i)) == Finite(i as real)
  {
    NegativeIntToString(i);
    ToNumberOfNegative(IntToString(i));
  }
}
