/**
 * Positional number rendering and parsing, as used by the wire format:
 * `Number.prototype.toString(16)` for arena indices, service ids and
 * correlation ids, `BigInt.prototype.toString()` for big integers, and
 * `parseInt(s, 16)` when a back-reference is resolved.
 */
module Radix {
  import opened Wrappers

  type Base = b: nat | b == 10 || b == 16 witness 10

  const Digits: string := "0123456789abcdef"

  /** The value of character `c` as a digit in `base`, accepting both letter cases as `parseInt` does. */
  function DigitValue(c: char, base: Base): (r: Option<nat>)
    ensures r.Some? ==> r.value < base
  {
    var d :=
      if '0' <= c <= '9' then (c as int - '0' as int)
      else if 'a' <= c <= 'f' then (c as int - 'a' as int + 10)
      else if 'A' <= c <= 'F' then (c as int - 'A' as int + 10)
      else 16;
    if d < base then Some(d) else None
  }

  predicate IsDigits(s: string, base: Base) {
    forall i :: 0 <= i < |s| ==> DigitValue(s[i], base).Some?
  }

  /** Digit character for `d`, lower case as `toString(radix)` prints it. */
  function DigitChar(d: nat, base: Base): (c: char)
    requires d < base
    ensures DigitValue(c, base) == Some(d)
  {
    Digits[d]
  }

  /** `n.toString(base)` for a non-negative integer: most significant digit first, no leading zeros. */
  function ToRadix(n: nat, base: Base): (s: string)
    ensures |s| > 0 && IsDigits(s, base)
    ensures |s| > 1 ==> s[0] != '0'
    decreases n
  {
    if n < base then [DigitChar(n, base)]
    else ToRadix(n / base, base) + [DigitChar(n % base, base)]
  }

  /** The number a string of digits denotes. */
  function FromDigits(s: string, base: Base): nat
    requires IsDigits(s, base)
    decreases |s|
  {
    if s == [] then 0
    else FromDigits(s[..|s| - 1], base) * base + DigitValue(s[|s| - 1], base).value
  }

  /** Length of the longest prefix of `s` made of digits of `base`. */
  function DigitPrefix(s: string, base: Base): (k: nat)
    ensures k <= |s| && IsDigits(s[..k], base)
    ensures k < |s| ==> DigitValue(s[k], base).None?
    decreases |s|
  {
    if s == [] || DigitValue(s[0], base).None? then 0
    else
      var k := 1 + DigitPrefix(s[1..], base);
      assert s[..k] == [s[0]] + s[1..][..k - 1];
      k
  }

  /**
   * `parseInt(s, base)` restricted to what the model needs: the longest
   * prefix of digits is read; no digits at all is NaN (`None`).
   */
  function ParseInt(s: string, base: Base): (r: Option<nat>)
    ensures r.None? <==> (s == [] || DigitValue(s[0], base).None?)
  {
    var k := DigitPrefix(s, base);
    if k == 0 then None else Some(FromDigits(s[..k], base))
  }

  lemma FromDigitsSnoc(t: string, c: char, base: Base)
    requires IsDigits(t, base) && DigitValue(c, base).Some?
    ensures IsDigits(t + [c], base)
    ensures FromDigits(t + [c], base) == FromDigits(t, base) * base + DigitValue(c, base).value
  {
    var s := t + [c];
    assert s[..|s| - 1] == t;
  }

  lemma DivMod(n: nat, base: Base)
    ensures n == (n / base) * base + n % base && n % base < base
  {
  }

  lemma ToRadixStep(n: nat, base: Base)
    requires n >= base
    ensures ToRadix(n, base) == ToRadix(n / base, base) + [DigitChar(n % base, base)]
  {
  }

  lemma FromToRadixStep(n: nat, q: nat, r: nat, base: Base)
    requires r < base && n == q * base + r
    requires ToRadix(n, base) == ToRadix(q, base) + [DigitChar(r, base)]
    requires FromDigits(ToRadix(q, base), base) == q
    ensures FromDigits(ToRadix(n, base), base) == n
  {
    FromDigitsSnoc(ToRadix(q, base), DigitChar(r, base), base);
  }

  lemma {:induction false} FromToRadix(n: nat, base: Base)
    ensures FromDigits(ToRadix(n, base), base) == n
    decreases n
  {
    if n >= base {
      var q, r := n / base, n % base;
      assert q < n;
      FromToRadix(q, base);
      ToRadixStep(n, base);
      DivMod(n, base);
      FromToRadixStep(n, q, r, base);
    }
  }

  lemma {:induction false} DigitPrefixOfDigits(s: string, base: Base)
    requires IsDigits(s, base)
    ensures DigitPrefix(s, base) == |s|
    decreases |s|
  {
    if s != [] {
      DigitPrefixOfDigits(s[1..], base);
    }
  }

  /** Reading back what `toString(base)` printed gives the number again. */
  lemma ParseToRadix(n: nat, base: Base)
    ensures ParseInt(ToRadix(n, base), base) == Some(n)
  {
    var s := ToRadix(n, base);
    DigitPrefixOfDigits(s, base);
    assert s[..|s|] == s;
    FromToRadix(n, base);
  }

  /** Distinct numbers print differently: ids built from a counter never collide. */
  lemma ToRadixInjective(m: nat, n: nat, base: Base)
    ensures ToRadix(m, base) == ToRadix(n, base) <==> m == n
  {
    FromToRadix(m, base);
    FromToRadix(n, base);
  }

  /** Hexadecimal rendering, `n.toString(16)`. */
  function Hex(n: nat): (s: string)
    ensures |s| > 0 && IsDigits(s, 16)
  {
    ToRadix(n, 16)
  }

  /** `b.toString()` for a big integer: an optional minus sign, then decimal digits. */
  function Decimal(i: int): (s: string)
    ensures |s| > 0
    ensures i >= 0 ==> IsDigits(s, 10)
    ensures i < 0 ==> s[0] == '-' && IsDigits(s[1..], 10)
  {
    if i >= 0 then ToRadix(i, 10) else "-" + ToRadix(-i, 10)
  }

  /** Inverse of `Decimal`, used to state that no information is lost. */
  function ParseDecimal(s: string): Option<int> {
    if |s| > 0 && s[0] == '-' then
      if IsDigits(s[1..], 10) && |s| > 1 then Some(-(FromDigits(s[1..], 10) as int)) else None
    else if IsDigits(s, 10) && |s| > 0 then Some(FromDigits(s, 10))
    else None
  }

  lemma DecimalRoundTrip(i: int)
    ensures ParseDecimal(Decimal(i)) == Some(i)
  {
    if i >= 0 {
      FromToRadix(i, 10);
      assert Decimal(i)[0] != '-';
    } else {
      var s := Decimal(i);
      assert s[1..] == ToRadix(-i, 10);
      FromToRadix(-i, 10);
    }
  }
}
