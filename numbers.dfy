/**
 * Integer <-> text conversions of the JavaScript runtime as the editor uses them:
 * `String(n)` / template interpolation of an integer, and `parseInt` (with and without
 * an explicit radix of 10). `NaN` is `None`.
 */
module Numbers {

  import opened Wrappers
  import opened Text

  function DigitChar(d: nat): (c: char)
    requires d < 10
    ensures IsDigit(c)
  {
    ('0' as int + d) as char
  }

  /** Decimal digits of a natural number, most significant first, no leading zeros. */
  function NatToString(n: nat): (r: string)
    ensures |r| >= 1
    ensures forall k :: 0 <= k < |r| ==> IsDigit(r[k])
    ensures |r| > 1 ==> r[0] != '0'
    decreases n
  {
    if n < 10 then [DigitChar(n)] else NatToString(n / 10) + [DigitChar(n % 10)]
  }

  /** `String(n)` for an integer `n`. */
  function IntToString(n: int): (r: string)
    ensures |r| >= 1
    ensures forall k :: 0 <= k < |r| ==> IsDigit(r[k]) || (k == 0 && r[k] == '-')
  {
    if n < 0 then "-" + NatToString(-n) else NatToString(n)
  }

  /** Value of one digit character in base 10 or 16 (`a`..`f` in either case), or `None`. */
  function DigitValue(c: char, radix: nat): (r: Option<nat>)
    ensures r.Some? ==> r.value < radix
  {
    var v: int :=
      if '0' <= c <= '9' then c as int - '0' as int
      else if 'a' <= c <= 'z' then c as int - 'a' as int + 10
      else if 'A' <= c <= 'Z' then c as int - 'A' as int + 10
      else radix;
    if 0 <= v < radix then Some(v as nat) else None
  }

  /** Length of the longest prefix of `s` made of digits of `radix`. */
  function DigitPrefixLength(s: string, radix: nat): (n: nat)
    ensures n <= |s|
    ensures forall k :: 0 <= k < n ==> DigitValue(s[k], radix).Some?
    ensures n < |s| ==> DigitValue(s[n], radix).None?
  {
    if s == [] || DigitValue(s[0], radix).None? then 0
    else 1 + DigitPrefixLength(s[1..], radix)
  }

  /** Positional value of a string of digits of `radix`, most significant first (only ever
      applied to a run of digits, so the fallback 0 for a non-digit is never used). */
  function DigitsValue(s: string, radix: nat): nat
  {
    if s == [] then 0
    else DigitsValue(s[..|s| - 1], radix) * radix + DigitValue(s[|s| - 1], radix).GetOr(0)
  }

  predicate HasHexPrefix(s: string)
  {
    |s| >= 2 && s[0] == '0' && (s[1] == 'x' || s[1] == 'X')
  }

  /** The unsigned part of `parseInt`: with no radix given a `0x` prefix selects base 16,
      then the longest run of digits is read; no digits at all is `NaN`. */
  function ParseMagnitude(u: string, radix: nat): (r: Option<nat>)
    requires radix == 0 || radix == 10
  {
    var hex := radix == 0 && HasHexPrefix(u);
    var base := if hex then 16 else 10;
    var body := if hex then u[2..] else u;
    var n := DigitPrefixLength(body, base);
    if n == 0 then None else Some(DigitsValue(body[..n], base))
  }

  /** `parseInt(s, radix)` for `radix` absent (0) or 10: skip leading whitespace, read an
      optional sign, then the magnitude. */
  function ParseIntRadix(s: string, radix: nat): (r: Option<int>)
    requires radix == 0 || radix == 10
  {
    var t := TrimStart(s);
    if |t| >= 1 && t[0] == '-' then
      match ParseMagnitude(t[1..], radix)
      case None => None
      case Some(v) => Some(-(v as int))
    else if |t| >= 1 && t[0] == '+' then
      match ParseMagnitude(t[1..], radix)
      case None => None
      case Some(v) => Some(v)
    else
      match ParseMagnitude(t, radix)
      case None => None
      case Some(v) => Some(v)
  }

  /** `parseInt(s)`. */
  function ParseInt(s: string): Option<int>
  {
    ParseIntRadix(s, 0)
  }

  lemma {:induction false} DigitsValueNat(n: nat)
    ensures forall k :: 0 <= k < |NatToString(n)| ==> DigitValue(NatToString(n)[k], 10).Some?
    ensures DigitsValue(NatToString(n), 10) == n
    decreases n
  {
    var s := NatToString(n);
    if n >= 10 {
      DigitsValueNat(n / 10);
      assert s[..|s| - 1] == NatToString(n / 10);
    }
  }

  /** The digits of a natural number read back as that number. */
  lemma {:induction false} ParseDigits(m: nat, radix: nat)
    requires radix == 0 || radix == 10
    ensures ParseMagnitude(NatToString(m), radix) == Some(m)
  {
    var u := NatToString(m);
    assert DigitPrefixLength(u, 10) == |u| by {
      DigitsValueNat(m);
      DigitPrefixAll(u, 10);
    }
    assert DigitsValue(u[..|u|], 10) == m by {
      DigitsValueNat(m);
      assert u[..|u|] == u;
    }
    assert !HasHexPrefix(u);
  }

  lemma {:induction false} ParseNegative(m: nat, radix: nat)
    requires radix == 0 || radix == 10
    ensures ParseIntRadix("-" + NatToString(m), radix) == Some(-(m as int))
  {
    var u := NatToString(m);
    var s := "-" + u;
    assert s[0] == '-' && s[1..] == u;
    TrimStartNoSpace(s);
    ParseDigits(m, radix);
  }

  lemma {:induction false} ParseNonNegative(m: nat, radix: nat)
    requires radix == 0 || radix == 10
    ensures ParseIntRadix(NatToString(m), radix) == Some(m)
  {
    var s := NatToString(m);
    assert IsDigit(s[0]);
    TrimStartNoSpace(s);
    ParseDigits(m, radix);
  }

  /** Parsing the text of an integer gives the integer back, with or without radix 10. */
  lemma ParseIntToString(n: int, radix: nat)
    requires radix == 0 || radix == 10
    ensures ParseIntRadix(IntToString(n), radix) == Some(n)
  {
    if n < 0 {
      ParseNegative(-n, radix);
    } else {
      ParseNonNegative(n, radix);
    }
  }

  lemma {:induction false} DigitPrefixAll(s: string, radix: nat)
    requires forall k :: 0 <= k < |s| ==> DigitValue(s[k], radix).Some?
    ensures DigitPrefixLength(s, radix) == |s|
  {
    if s != [] {
      DigitPrefixAll(s[1..], radix);
    }
  }

  /** Distinct integers print differently. */
  lemma IntToStringInjective(a: int, b: int)
    requires IntToString(a) == IntToString(b)
    ensures a == b
  {
    ParseIntToString(a, 10);
    ParseIntToString(b, 10);
  }
}
