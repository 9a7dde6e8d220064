/** JavaScript's `parseInt(text)` with no radix argument, as the handlers
    apply it to path parameters and query strings: leading white space is
    skipped, one sign is read, a `0x` or `0X` prefix selects base 16, and the
    longest run of digits that follows is the value. No digits at all is
    NaN, written `None` here. */
module Numbers {
  import opened Common
  import opened Text

  function DigitValue(c: char, radix: nat): (r: Option<nat>)
    requires radix == 10 || radix == 16
    ensures r.Some? ==> r.value < radix
  {
    if '0' <= c <= '9' then Some(c as int - '0' as int)
    else if radix == 16 && 'a' <= c <= 'f' then Some(c as int - 'a' as int + 10)
    else if radix == 16 && 'A' <= c <= 'F' then Some(c as int - 'A' as int + 10)
    else None
  }

  predicate IsDigit(c: char, radix: nat)
    requires radix == 10 || radix == 16
  {
    DigitValue(c, radix).Some?
  }

  /** The length of the longest prefix made of digits. */
  function DigitRun(s: string, radix: nat): (n: nat)
    requires radix == 10 || radix == 16
    ensures n <= |s|
    ensures forall k :: 0 <= k < n ==> IsDigit(s[k], radix)
    ensures n == |s| || !IsDigit(s[n], radix)
    decreases |s|
  {
    if s != [] && IsDigit(s[0], radix) then 1 + DigitRun(s[1..], radix) else 0
  }

  /** The number a run of digits denotes, most significant digit first. */
  function DigitsValue(s: string, radix: nat): nat
    requires radix == 10 || radix == 16
    requires forall k :: 0 <= k < |s| ==> IsDigit(s[k], radix)
    decreases |s|
  {
    if s == [] then 0
    else
      assert IsDigit(s[|s| - 1], radix);
      DigitsValue(s[..|s| - 1], radix) * radix + DigitValue(s[|s| - 1], radix).value
  }

  /** The text after the sign, and whether the sign was a minus. */
  function SignOf(t: string): (bool, string) {
    if t != [] && t[0] == '-' then (true, t[1..])
    else if t != [] && t[0] == '+' then (false, t[1..])
    else (false, t)
  }

  predicate HexPrefixed(u: string) {
    |u| >= 2 && u[0] == '0' && (u[1] == 'x' || u[1] == 'X')
  }

  /** The digits after the sign, in the base their prefix selects. */
  function Magnitude(u: string): Option<nat> {
    var radix := if HexPrefixed(u) then 16 else 10;
    var w := if HexPrefixed(u) then u[2..] else u;
    var n := DigitRun(w, radix);
    if n == 0 then None else Some(DigitsValue(w[..n], radix))
  }

  /** Text that opens with a digit of the base its prefix selects. */
  predicate OpensWithDigit(u: string) {
    if HexPrefixed(u) then |u| > 2 && IsDigit(u[2], 16) else u != [] && IsDigit(u[0], 10)
  }

  /** `parseInt(s)`: a number exactly when a digit follows the white space,
      the sign and the prefix, negative only after a minus. White space
      other than ASCII is not skipped. */
  function ParseInt(s: string): (r: Option<int>)
    ensures r.Some? <==> OpensWithDigit(SignOf(TrimStart(s)).1)
    ensures r.Some? && r.value < 0 ==> SignOf(TrimStart(s)).0
    ensures r.Some? && !SignOf(TrimStart(s)).0 ==> r.value >= 0
  {
    var (negative, u) := SignOf(TrimStart(s));
    var m := Magnitude(u);
    if m.None? then None
    else
      var v: int := m.value;
      Some(if negative then -v else v)
  }

  // ---------------------------------------------------------------------
  // round trip with the decimal rendering

  lemma DigitOfDigit(d: nat)
    requires d < 10
    ensures DigitValue(Digit(d), 10) == Some(d)
  {
  }

  lemma {:induction false} NatTextValue(n: nat)
    ensures forall k :: 0 <= k < |NatText(n)| ==> IsDigit(NatText(n)[k], 10)
    ensures DigitsValue(NatText(n), 10) == n
    decreases n
  {
    var s := NatText(n);
    if n < 10 {
      DigitOfDigit(n);
      assert s[..|s| - 1] == [];
    } else {
      NatTextValue(n / 10);
      DigitOfDigit(n % 10);
      assert s[..|s| - 1] == NatText(n / 10);
    }
  }

  lemma {:induction false} DigitRunAll(s: string, radix: nat)
    requires radix == 10 || radix == 16
    requires forall k :: 0 <= k < |s| ==> IsDigit(s[k], radix)
    ensures DigitRun(s, radix) == |s|
    decreases |s|
  {
    if s != [] {
      DigitRunAll(s[1..], radix);
    }
  }

  /** Decimal digits after an optional minus sign parse as that number,
      whatever follows the digits. */
  lemma ParseIntDecimal(s: string, negative: bool, w: string)
    requires s == (if negative then "-" + w else w)
    requires w != [] && IsDigit(w[0], 10) && !HexPrefixed(w)
    ensures ParseInt(s) == Some(var v: int := DigitsValue(w[..DigitRun(w, 10)], 10); if negative then -v else v)
  {
    assert '0' <= w[0] <= '9';
    SignedText(s, negative, w);
    var m := DigitsValue(w[..DigitRun(w, 10)], 10);
    assert Magnitude(w) == Some(m);
  }

  /** An optional minus sign before text that opens with neither a sign nor
      white space: nothing is skipped and the sign is read off. */
  lemma SignedText(s: string, negative: bool, w: string)
    requires s == (if negative then "-" + w else w)
    requires w != [] && '0' <= w[0] <= '9'
    ensures TrimStart(s) == s
    ensures SignOf(s) == (negative, w)
  {
    assert s[0] == '-' || s[0] == w[0];
    if negative {
      assert s[1..] == w;
    }
  }

  /** `parseInt(String(n)) === n`: parsing is a left inverse of the decimal
      rendering of an integer. */
  lemma ParseIntText(n: int)
    ensures ParseInt(IntText(n)) == Some(n)
  {
    var m: nat := if n < 0 then -n else n;
    var d := NatText(m);
    NatTextValue(m);
    DigitRunAll(d, 10);
    NatTextNotHex(m);
    assert d[..|d|] == d;
    assert IntText(n) == (if n < 0 then "-" + d else d);
    ParseIntDecimal(IntText(n), n < 0, d);
  }

  /** A decimal rendering never looks like a hexadecimal prefix. */
  lemma NatTextNotHex(m: nat)
    ensures !HexPrefixed(NatText(m))
  {
    var d := NatText(m);
    NatTextValue(m);
    if |d| >= 2 {
      assert IsDigit(d[1], 10);
    }
  }

  /** Text after the digits is ignored: `parseInt("12abc")` is 12. */
  lemma {:induction false} DigitRunStops(s: string, rest: string, radix: nat)
    requires radix == 10 || radix == 16
    requires forall k :: 0 <= k < |s| ==> IsDigit(s[k], radix)
    requires rest == [] || !IsDigit(rest[0], radix)
    ensures DigitRun(s + rest, radix) == |s|
    decreases |s|
  {
    if s != [] {
      assert (s + rest)[1..] == s[1..] + rest;
      DigitRunStops(s[1..], rest, radix);
    }
  }

  /** `parseInt("12abc")` is 12. Text opening with `x` after a lone `0`
      is excluded: `parseInt("0x1A")` reads hexadecimal. */
  lemma ParseIntIgnoresTail(n: nat, rest: string)
    requires rest == [] || (!IsDigit(rest[0], 10) && rest[0] != 'x' && rest[0] != 'X')
    ensures ParseInt(NatText(n) + rest) == Some(n)
  {
    var d := NatText(n);
    var s := d + rest;
    NatTextValue(n);
    DigitRunStops(d, rest, 10);
    TailNotHex(d, rest);
    assert s[..|d|] == d;
    assert IsDigit(s[0], 10) by {
      assert s[0] == d[0];
    }
    ParseIntDecimal(s, false, s);
  }

  /** Digits followed by anything but `x` or `X` do not open with `0x`. */
  lemma TailNotHex(d: string, rest: string)
    requires |d| >= 1 && forall k :: 0 <= k < |d| ==> IsDigit(d[k], 10)
    requires rest == [] || (rest[0] != 'x' && rest[0] != 'X')
    ensures !HexPrefixed(d + rest)
  {
    var s := d + rest;
    if |s| >= 2 {
      if |d| >= 2 {
        assert s[1] == d[1] && IsDigit(d[1], 10);
      } else {
        assert s[1] == rest[0];
      }
    }
  }
}
