/**
 * Decimal rendering of indices (`format!("{}", i)`) and `str::parse::<usize>()`,
 * the two halves of the `##RESULT:<idx>` protocol. `usize` is taken to be 64 bits wide.
 */
module Numbers {
  import opened Wrappers

  const UsizeMax: nat := 0xFFFF_FFFF_FFFF_FFFF

  predicate IsDigit(c: char) {
    '0' <= c <= '9'
  }

  predicate AllDigits(s: string) {
    forall i :: 0 <= i < |s| ==> IsDigit(s[i])
  }

  function DigitValue(c: char): nat
    requires IsDigit(c)
  {
    (c as int) - ('0' as int)
  }

  function DigitChar(d: nat): (c: char)
    requires d < 10
    ensures IsDigit(c) && DigitValue(c) == d
  {
    ((('0' as int) + d) as char)
  }

  /** The number a string of ASCII digits denotes, most significant digit first. */
  function DigitsValue(s: string): nat
    requires AllDigits(s)
    decreases |s|
  {
    if s == [] then 0 else DigitsValue(s[..|s| - 1]) * 10 + DigitValue(s[|s| - 1])
  }

  /** `n` in decimal, without leading zeros. */
  function Decimal(n: nat): (r: string)
    decreases n
    ensures r != [] && AllDigits(r)
    ensures DigitsValue(r) == n
    ensures |r| > 1 ==> r[0] != '0'
  {
    if n < 10 then [DigitChar(n)]
    else
      var r := Decimal(n / 10) + [DigitChar(n % 10)];
      assert r[..|r| - 1] == Decimal(n / 10);
      r
  }

  /** The digits `usize::from_str` reads: the text after one optional leading `'+'`. */
  function Unsigned(s: string): (r: string)
    ensures |r| <= |s| && r == s[|s| - |r|..]
    ensures |r| < |s| <==> (s != [] && s[0] == '+')
  {
    if |s| > 0 && s[0] == '+' then s[1..] else s
  }

  /**
   * `usize::from_str`: an optional `'+'`, then one or more ASCII digits whose
   * value fits in 64 bits; anything else (a `'-'`, a blank, an overflow) fails.
   * Leading zeros are allowed.
   */
  function ParseUsize(s: string): (r: Option<nat>)
    ensures r.Some? <==> Unsigned(s) != [] && AllDigits(Unsigned(s)) && DigitsValue(Unsigned(s)) <= UsizeMax
    ensures r.Some? ==> r.value == DigitsValue(Unsigned(s)) && r.value <= UsizeMax
    ensures r.Some? ==> s != [] && (IsDigit(s[0]) || s[0] == '+')
    ensures r.Some? ==> forall i :: 0 < i < |s| ==> IsDigit(s[i])
  {
    var body := Unsigned(s);
    if body == [] || !AllDigits(body) then None
    else
      assert forall i :: 0 < i < |s| ==> s[i] == (if s[0] == '+' then body[i - 1] else body[i]);
      var v := DigitsValue(body);
      if v <= UsizeMax then Some(v) else None
  }

  predicate AllZeros(z: string) {
    forall i :: 0 <= i < |z| ==> z[i] == '0'
  }

  /** Leading zeros do not change the value of a digit string. */
  lemma {:induction false} ZerosPrefixValue(z: string, d: string)
    requires AllZeros(z) && AllDigits(d)
    ensures AllDigits(z + d) && DigitsValue(z + d) == DigitsValue(d)
    decreases |z| + |d|
  {
    if d == [] {
      assert z + d == z;
      if z != [] {
        ZerosPrefixValue(z[..|z| - 1], []);
        assert z[..|z| - 1] + [] == z[..|z| - 1];
      }
    } else {
      var n := |d| - 1;
      ZerosPrefixValue(z, d[..n]);
      assert (z + d)[..|z + d| - 1] == z + d[..n];
    }
  }

  /**
   * An index printed with a `'+'` sign or with leading zeros still reads back
   * as that index: `+7`, `007` and `+007` all name slot 7.
   */
  lemma ParseSignedPadded(plus: bool, z: string, n: nat)
    requires AllZeros(z) && n <= UsizeMax
    ensures ParseUsize((if plus then "+" else "") + z + Decimal(n)) == Some(n)
  {
    var d := z + Decimal(n);
    ZerosPrefixValue(z, Decimal(n));
    var s := (if plus then "+" else "") + z + Decimal(n);
    assert s == (if plus then "+" else "") + d;
    assert d != [] && d[0] != '+';
    assert Unsigned(s) == d;
  }

  /** Parsing a rendered index gives the index back, for every index a `usize` can hold. */
  lemma ParseDecimal(n: nat)
    requires n <= UsizeMax
    ensures ParseUsize(Decimal(n)) == Some(n)
  {
  }
}
