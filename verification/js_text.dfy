/**
 * The two pieces of JavaScript string semantics the controllers depend on:
 * the global `parseInt` (used to compare one-time passwords) and the default
 * ordering of `Array.prototype.sort` on strings (used to order grouped listings).
 */
module JsText {
  import opened Wrappers

  /** The characters `parseInt` skips before the number: ECMAScript WhiteSpace and LineTerminator. */
  predicate IsStrWhiteSpace(c: char) {
    || c == '\t' || c == '\n' || c == '\U{000B}' || c == '\U{000C}' || c == '\r' || c == ' '
    || c == '\U{00A0}' || c == '\U{1680}' || ('\U{2000}' <= c <= '\U{200A}')
    || c == '\U{2028}' || c == '\U{2029}' || c == '\U{202F}' || c == '\U{205F}'
    || c == '\U{3000}' || c == '\U{FEFF}'
  }

  predicate IsDecimalDigit(c: char) {
    '0' <= c <= '9'
  }

  /** A digit in radix 10 or 16 (hexadecimal letters in either case). */
  predicate IsRadixDigit(c: char, radix: nat) {
    || IsDecimalDigit(c)
    || (radix == 16 && (('a' <= c <= 'f') || ('A' <= c <= 'F')))
  }

  predicate AllRadixDigits(z: string, radix: nat) {
    forall i :: 0 <= i < |z| ==> IsRadixDigit(z[i], radix)
  }

  function DigitOf(c: char): (d: nat)
    requires IsRadixDigit(c, 16)
    ensures d < 16
    ensures IsDecimalDigit(c) ==> d < 10
  {
    if IsDecimalDigit(c) then c as int - '0' as int
    else if 'a' <= c <= 'f' then c as int - 'a' as int + 10
    else c as int - 'A' as int + 10
  }

  /** The string with its leading white space removed. */
  function TrimStart(s: string): (t: string)
    ensures |t| <= |s| && t == s[|s| - |t|..]
    ensures t != [] ==> !IsStrWhiteSpace(t[0])
    ensures forall i :: 0 <= i < |s| - |t| ==> IsStrWhiteSpace(s[i])
  {
    if s != [] && IsStrWhiteSpace(s[0]) then TrimStart(s[1..]) else s
  }

  /** The longest prefix of `s` made of digits of the radix. */
  function DigitPrefix(s: string, radix: nat): (z: string)
    ensures z <= s
    ensures AllRadixDigits(z, radix)
    ensures |z| < |s| ==> !IsRadixDigit(s[|z|], radix)
  {
    if s != [] && IsRadixDigit(s[0], radix) then [s[0]] + DigitPrefix(s[1..], radix) else []
  }

  /** The number a digit string denotes, most significant digit first. */
  function ValueOf(z: string, radix: nat): nat
    requires radix == 10 || radix == 16
    requires AllRadixDigits(z, radix)
  {
    if z == [] then 0 else ValueOf(z[..|z| - 1], radix) * radix + DigitOf(z[|z| - 1])
  }

  /**
   * `parseInt(s)` with no radix argument; None is NaN.
   * After the white space and an optional sign, a `0x`/`0X` prefix selects radix 16;
   * the number is the longest digit prefix that follows, and NaN when that prefix is empty.
   */
  function ParseInt(s: string): (r: Option<int>)
    ensures s != [] && AllRadixDigits(s, 10) ==> r == Some(ValueOf(s, 10))
  {
    PlainDigitsSteps(s);
    ParseSigned(TrimStart(s))
  }

  /** `parseInt` after the white space: an optional sign, then the magnitude. */
  function ParseSigned(t: string): (r: Option<int>)
    ensures t != [] && t[0] != '-' && t[0] != '+' ==> r == ParseUnsigned(t)
  {
    var negative := t != [] && t[0] == '-';
    var u := if t != [] && (t[0] == '-' || t[0] == '+') then t[1..] else t;
    match ParseUnsigned(u)
    case None => None
    case Some(n) => var m: int := n; if negative then Some(-m) else Some(m)
  }

  /** The magnitude: hexadecimal after `0x`/`0X`, decimal otherwise; None when no digit follows. */
  function ParseUnsigned(u: string): (r: Option<nat>)
    ensures u != [] && AllRadixDigits(u, 10) ==> r == Some(ValueOf(u, 10))
  {
    PlainDigitsSteps(u);
    var hex := |u| >= 2 && u[0] == '0' && (u[1] == 'x' || u[1] == 'X');
    var radix := if hex then 16 else 10;
    var z := DigitPrefix(if hex then u[2..] else u, radix);
    if z == [] then None else Some(ValueOf(z, radix))
  }

  /** On a plain digit string, `parseInt` trims nothing, sees no sign and no `0x`, and keeps every digit. */
  lemma PlainDigitsSteps(s: string)
    ensures s != [] && AllRadixDigits(s, 10) ==>
              && TrimStart(s) == s
              && s[0] != '-' && s[0] != '+'
              && !(|s| >= 2 && (s[1] == 'x' || s[1] == 'X'))
              && DigitPrefix(s, 10) == s
  {
    if s != [] && AllRadixDigits(s, 10) {
      assert IsDecimalDigit(s[0]) by { assert IsRadixDigit(s[0], 10); }
      assert !IsStrWhiteSpace(s[0]);
      if |s| >= 2 {
        assert IsRadixDigit(s[1], 10);
      }
      DigitPrefixStops(s, [], 10);
      assert s + [] == s;
    }
  }

  /** Leading white space does not change what `parseInt` yields. */
  lemma ParseSkipsWhiteSpace(s: string)
    requires s != [] && IsStrWhiteSpace(s[0])
    ensures ParseInt(s) == ParseInt(s[1..])
  {
    assert TrimStart(s) == TrimStart(s[1..]);
  }

  /** The digit prefix of `z + rest` is `z` when `rest` does not start with a digit. */
  lemma {:induction false} DigitPrefixStops(z: string, rest: string, radix: nat)
    requires AllRadixDigits(z, radix)
    requires rest == [] || !IsRadixDigit(rest[0], radix)
    ensures DigitPrefix(z + rest, radix) == z
  {
    if z != [] {
      assert (z + rest)[0] == z[0];
      assert (z + rest)[1..] == z[1..] + rest;
      assert AllRadixDigits(z[1..], radix) by {
        forall i | 0 <= i < |z[1..]| ensures IsRadixDigit(z[1..][i], radix) {
          assert z[1..][i] == z[i + 1];
        }
      }
      DigitPrefixStops(z[1..], rest, radix);
    } else {
      assert z + rest == rest;
    }
  }

  /**
   * Whatever follows the digits is ignored: `parseInt` of digits followed by a non-digit is the
   * digits' value (unless the digits are a lone "0" and an `x` follows, which selects hexadecimal).
   */
  lemma ParseStopsAtNonDigit(z: string, rest: string)
    requires z != [] && AllRadixDigits(z, 10)
    requires rest == [] || !IsRadixDigit(rest[0], 10)
    requires !(z == "0" && rest != [] && (rest[0] == 'x' || rest[0] == 'X'))
    ensures ParseInt(z + rest) == Some(ValueOf(z, 10))
  {
    var s := z + rest;
    assert s[0] == z[0];
    assert IsDecimalDigit(s[0]) by { assert IsRadixDigit(z[0], 10); }
    assert !IsStrWhiteSpace(s[0]);
    assert TrimStart(s) == s;
    assert ParseInt(s) == ParseUnsigned(s);
    assert !(|s| >= 2 && s[0] == '0' && (s[1] == 'x' || s[1] == 'X')) by {
      if |s| >= 2 && s[0] == '0' {
        if |z| >= 2 {
          assert s[1] == z[1] && IsRadixDigit(z[1], 10);
        } else {
          assert z == "0" && s[1] == rest[0];
        }
      }
    }
    DigitPrefixStops(z, rest, 10);
    assert ParseUnsigned(s) == Some(ValueOf(z, 10));
  }

  /** A leading zero does not change the value of a digit string. */
  lemma {:induction false} ValueOfLeadingZero(z: string)
    requires AllRadixDigits(z, 10)
    ensures AllRadixDigits("0" + z, 10)
    ensures ValueOf("0" + z, 10) == ValueOf(z, 10)
  {
    var y := "0" + z;
    assert AllRadixDigits(y, 10) by {
      forall i | 0 <= i < |y| ensures IsRadixDigit(y[i], 10) {
        if i > 0 {
          assert y[i] == z[i - 1];
        }
      }
    }
    if z != [] {
      var init := z[..|z| - 1];
      InitDigits(z);
      ValueOfLeadingZero(init);
      assert y[..|y| - 1] == "0" + init;
      assert y[|y| - 1] == z[|z| - 1];
    } else {
      assert y[..0] == [];
    }
  }

  /** The last digit and the rest of a decimal numeral are determined by its value. */
  lemma LastDigitSplit(x: nat, d: nat, y: nat, e: nat)
    requires d < 10 && e < 10
    requires x * 10 + d == y * 10 + e
    ensures x == y && d == e
  {
    assert (x * 10 + d) % 10 == d;
    assert (y * 10 + e) % 10 == e;
  }

  /** Two decimal digit strings of the same length denote the same number only if they are equal. */
  lemma {:induction false} DecimalValueInjective(a: string, b: string)
    requires AllRadixDigits(a, 10) && AllRadixDigits(b, 10)
    requires |a| == |b|
    requires ValueOf(a, 10) == ValueOf(b, 10)
    ensures a == b
  {
    if a != [] {
      var n := |a| - 1;
      var a', b' := a[..n], b[..n];
      var ca, cb := a[n], b[n];
      InitDigits(a);
      InitDigits(b);
      assert IsDecimalDigit(ca) by { assert IsRadixDigit(a[n], 10); }
      assert IsDecimalDigit(cb) by { assert IsRadixDigit(b[n], 10); }
      assert ValueOf(a, 10) == ValueOf(a', 10) * 10 + DigitOf(ca);
      assert ValueOf(b, 10) == ValueOf(b', 10) * 10 + DigitOf(cb);
      LastDigitSplit(ValueOf(a', 10), DigitOf(ca), ValueOf(b', 10), DigitOf(cb));
      assert ca == cb;
      DecimalValueInjective(a', b');
      assert a == a' + [ca];
      assert b == b' + [cb];
    }
  }

  /** Dropping the last character of a digit string leaves a digit string. */
  lemma InitDigits(z: string)
    requires z != [] && AllRadixDigits(z, 10)
    ensures AllRadixDigits(z[..|z| - 1], 10)
  {
    var init := z[..|z| - 1];
    forall i | 0 <= i < |init| ensures IsRadixDigit(init[i], 10) {
      assert init[i] == z[i];
    }
  }

  // ----- the default string order of Array.prototype.sort -----

  /** `a` sorts strictly before `b`: a proper prefix, or smaller at the first difference. */
  predicate StrLess(a: string, b: string) {
    if a == [] then b != []
    else if b == [] then false
    else if a[0] != b[0] then a[0] < b[0]
    else StrLess(a[1..], b[1..])
  }

  lemma {:induction false} StrLessIrreflexive(a: string)
    ensures !StrLess(a, a)
  {
    if a != [] {
      StrLessIrreflexive(a[1..]);
    }
  }

  lemma {:induction false} StrLessTransitive(a: string, b: string, c: string)
    requires StrLess(a, b) && StrLess(b, c)
    ensures StrLess(a, c)
  {
    if a != [] && b != [] && c != [] && a[0] == b[0] && b[0] == c[0] {
      StrLessTransitive(a[1..], b[1..], c[1..]);
    }
  }

  lemma {:induction false} StrLessTotal(a: string, b: string)
    requires a != b
    ensures StrLess(a, b) || StrLess(b, a)
  {
    if a != [] && b != [] && a[0] == b[0] {
      assert a == [a[0]] + a[1..];
      assert b == [b[0]] + b[1..];
      StrLessTotal(a[1..], b[1..]);
    }
  }

  lemma {:induction false} StrLessAsymmetric(a: string, b: string)
    requires StrLess(a, b)
    ensures !StrLess(b, a)
  {
    if StrLess(b, a) {
      StrLessTransitive(a, b, a);
      StrLessIrreflexive(a);
    }
  }
}
