/**
 * The JavaScript text primitives the viewer relies on: the white-space class
 * shared by `\s` in a RegExp and by `parseInt`, `parseInt` itself (called
 * without a radix), `String(n)` for a non-negative integer, and the string
 * order used to sort run ids.
 */
module JsText {
  import opened Wrappers
  import opened StableSort

  /** ECMAScript WhiteSpace or LineTerminator code points. */
  predicate IsJsSpace(c: char)
  {
    var n := c as int;
    || n == 0x09 || n == 0x0A || n == 0x0B || n == 0x0C || n == 0x0D
    || n == 0x20 || n == 0xA0 || n == 0x1680 || 0x2000 <= n <= 0x200A
    || n == 0x2028 || n == 0x2029 || n == 0x202F || n == 0x205F
    || n == 0x3000 || n == 0xFEFF
  }

  /** Length of the longest all-white-space prefix of `s`. */
  function SpaceRun(s: string): (k: nat)
    ensures k <= |s|
    ensures forall i :: 0 <= i < k ==> IsJsSpace(s[i])
    ensures k < |s| ==> !IsJsSpace(s[k])
  {
    if s != [] && IsJsSpace(s[0]) then 1 + SpaceRun(s[1..]) else 0
  }

  /** The digit value of `c` in radix 36, or 36 when `c` is no digit at all. */
  function DigitValue(c: char): (d: nat)
    ensures d <= 36
    ensures d < 10 <==> '0' <= c <= '9'
  {
    if '0' <= c <= '9' then c as int - '0' as int
    else if 'a' <= c <= 'z' then c as int - 'a' as int + 10
    else if 'A' <= c <= 'Z' then c as int - 'A' as int + 10
    else 36
  }

  /** Length of the longest prefix of `s` made of digits of the given radix. */
  function DigitRun(s: string, radix: nat): (k: nat)
    ensures k <= |s|
    ensures forall i :: 0 <= i < k ==> DigitValue(s[i]) < radix
    ensures k < |s| ==> DigitValue(s[k]) >= radix
  {
    if s != [] && DigitValue(s[0]) < radix then 1 + DigitRun(s[1..], radix) else 0
  }

  /** The value of a digit string, most significant digit first. */
  function DigitsValue(ds: string, radix: nat): nat
  {
    if ds == [] then 0
    else DigitsValue(ds[..|ds| - 1], radix) * radix + DigitValue(ds[|ds| - 1])
  }

  /** The number spelt by the digits at the start of `body`, or `None` when it starts with no digit. */
  function ReadDigits(body: string, radix: nat): Option<nat>
  {
    var k := DigitRun(body, radix);
    if k == 0 then None else Some(DigitsValue(body[..k], radix))
  }

  /** An unsigned number: hexadecimal after a `0x`/`0X` prefix, decimal otherwise. */
  function ReadUnsigned(u: string): Option<nat>
  {
    if |u| >= 2 && u[0] == '0' && (u[1] == 'x' || u[1] == 'X') then ReadDigits(u[2..], 16)
    else ReadDigits(u, 10)
  }

  /**
   * `parseInt(s)` without a radix argument: skip leading white space, take an
   * optional sign, read a hexadecimal number after a `0x`/`0X` prefix and a
   * decimal one otherwise, stopping at the first character that is no digit.
   * `None` stands for NaN, returned when no digit follows.
   */
  function ParseInt(s: string): Option<int>
  {
    var t := s[SpaceRun(s)..];
    var negative := |t| > 0 && t[0] == '-';
    var u := if |t| > 0 && (t[0] == '-' || t[0] == '+') then t[1..] else t;
    match ReadUnsigned(u)
    case None => None
    case Some(v) =>
      var n: int := v;
      Some(if negative then -n else n)
  }

  /** `parseInt` finds a number only where the text holds a decimal digit. */
  lemma ParseIntNeedsDigit(s: string)
    requires forall i :: 0 <= i < |s| ==> !('0' <= s[i] <= '9')
    ensures ParseInt(s) == None
  {
    var t := s[SpaceRun(s)..];
    var u := if |t| > 0 && (t[0] == '-' || t[0] == '+') then t[1..] else t;
    assert forall i :: 0 <= i < |u| ==> u[i] in s;
    if u != [] {
      assert u[0] in s;
    }
  }

  /** The decimal digit character for `d`. */
  function DigitChar(d: nat): (c: char)
    requires d < 10
    ensures DigitValue(c) == d
  {
    ('0' as int + d) as char
  }

  /** `String(n)` for a non-negative integer: its decimal digits, no leading zero. */
  function DecimalString(n: nat): (r: string)
    ensures |r| >= 1
  {
    if n < 10 then [DigitChar(n)]
    else DecimalString(n / 10) + [DigitChar(n % 10)]
  }

  /** `String(n)` is made of decimal digits and has no leading zero. */
  lemma {:induction false} DecimalStringDigits(n: nat)
    ensures var r := DecimalString(n);
      && (forall i :: 0 <= i < |r| ==> '0' <= r[i] <= '9')
      && (|r| > 1 ==> r[0] != '0')
  {
    if n >= 10 {
      DecimalStringDigits(n / 10);
    }
  }

  /** Reading the decimal digits of `n` back gives `n`. */
  lemma {:induction false} DecimalDigitsValue(n: nat)
    ensures DigitsValue(DecimalString(n), 10) == n
  {
    if n >= 10 {
      var r := DecimalString(n);
      DecimalDigitsValue(n / 10);
      assert r[..|r| - 1] == DecimalString(n / 10);
    }
  }

  /** `parseInt(String(n)) == n`: the step-input buffer round-trips the step number. */
  lemma ParseIntDecimalString(n: nat)
    ensures ParseInt(DecimalString(n)) == Some(n)
  {
    var r := DecimalString(n);
    DecimalStringDigits(n);
    ParseIntOfDigits(r);
    DecimalDigitsValue(n);
  }

  /** A decimal numeral, leading zeros included, is read back as its own value. */
  lemma ParseIntOfDigits(r: string)
    requires |r| >= 1 && forall i :: 0 <= i < |r| ==> '0' <= r[i] <= '9'
    ensures ParseInt(r) == Some(DigitsValue(r, 10))
  {
    assert SpaceRun(r) == 0 by {
      assert !IsJsSpace(r[0]);
    }
    assert r[0..] == r;
    assert r[0] != '-' && r[0] != '+';
    ReadAllDigits(r);
    assert |r| >= 2 ==> r[1] != 'x' && r[1] != 'X';
    assert ReadUnsigned(r) == ReadDigits(r, 10);
  }

  /** A run of decimal digits is read to its end. */
  lemma ReadAllDigits(s: string)
    requires |s| >= 1 && forall i :: 0 <= i < |s| ==> '0' <= s[i] <= '9'
    ensures ReadDigits(s, 10) == Some(DigitsValue(s, 10))
  {
    var k := DigitRun(s, 10);
    assert k == |s|;
    assert s[..k] == s;
  }

  /** Lexicographic order of code points: stands for `String(a).localeCompare(String(b)) <= 0`. */
  predicate StringLe(a: string, b: string)
  {
    if a == [] then true
    else if b == [] then false
    else if a[0] != b[0] then a[0] < b[0]
    else StringLe(a[1..], b[1..])
  }

  lemma {:induction false} StringLeReflexive(a: string)
    ensures StringLe(a, a)
  {
    if a != [] {
      StringLeReflexive(a[1..]);
    }
  }

  lemma {:induction false} StringLeTotal(a: string, b: string)
    ensures StringLe(a, b) || StringLe(b, a)
  {
    if a != [] && b != [] && a[0] == b[0] {
      StringLeTotal(a[1..], b[1..]);
    }
  }

  lemma {:induction false} StringLeTransitive(a: string, b: string, c: string)
    requires StringLe(a, b) && StringLe(b, c)
    ensures StringLe(a, c)
  {
    if a != [] && b != [] && c != [] && a[0] == b[0] && b[0] == c[0] {
      StringLeTransitive(a[1..], b[1..], c[1..]);
    }
  }

  lemma {:induction false} StringLeAntisymmetric(a: string, b: string)
    requires StringLe(a, b) && StringLe(b, a)
    ensures a == b
  {
    if a != [] && b != [] {
      StringLeAntisymmetric(a[1..], b[1..]);
      assert a == [a[0]] + a[1..] && b == [b[0]] + b[1..];
    }
  }

  /** The run-id order is a consistent comparator. */
  lemma StringLeIsTotalPreorder()
    ensures IsTotalPreorder(StringLe)
  {
    forall a, b
      ensures StringLe(a, b) || StringLe(b, a)
    {
      StringLeTotal(a, b);
    }
    forall a, b, c | StringLe(a, b) && StringLe(b, c)
      ensures StringLe(a, c)
    {
      StringLeTransitive(a, b, c);
    }
  }
}
