/** The JavaScript string and number primitives the path engine is written with:
    `String.prototype.substr`, `Number.prototype.toString()` on integers and
    `parseInt` on strings of decimal digits. */
module JsText {

  function Min(a: int, b: int): int { if a <= b then a else b }

  function Max(a: int, b: int): int { if a >= b then a else b }

  /** `s.substr(start, length)`: a negative start counts back from the end of the
      string, and both the start and the length are clamped to the string. */
  function Substr(s: string, start: int, length: int): (r: string)
    ensures |r| <= |s|
    ensures 0 <= start && 0 <= length ==> r == s[Min(start, |s|)..Min(start + length, |s|)]
    ensures length <= 0 ==> r == []
  {
    var b := if start < 0 then Max(|s| + start, 0) else Min(start, |s|);
    var n := if length < 0 then 0 else Min(length, |s| - b);
    s[b..b + n]
  }

  /** `s.substr(start)` with the length left out: everything from `start` on. */
  function SubstrFrom(s: string, start: int): (r: string)
    ensures 0 <= start <= |s| ==> r == s[start..]
    ensures start < 0 && |s| + start >= 0 ==> r == s[|s| + start..]
  {
    Substr(s, start, |s|)
  }

  predicate IsDigit(c: char) { '0' <= c <= '9' }

  predicate AllDigits(s: string) { forall i :: 0 <= i < |s| ==> IsDigit(s[i]) }

  function DigitChar(d: int): (c: char)
    requires 0 <= d <= 9
    ensures IsDigit(c)
  {
    (48 + d) as char
  }

  function DigitValue(c: char): (d: int)
    requires IsDigit(c)
    ensures 0 <= d <= 9
    ensures DigitChar(d) == c
  {
    c as int - 48
  }

  function Pow10(k: nat): (r: nat)
    ensures r >= 1
  {
    if k == 0 then 1 else 10 * Pow10(k - 1)
  }

  /** The decimal digits of a natural number, most significant first, without
      leading zeros: what `n.toString()` gives for `n >= 0`. */
  function DecimalString(n: nat): (r: string)
    ensures |r| > 0 && AllDigits(r)
  {
    if n < 10 then [DigitChar(n)] else DecimalString(n / 10) + [DigitChar(n % 10)]
  }

  /** `n.toString()` for an integer `n`: a minus sign in front of a negative one. */
  function IntToString(n: int): (r: string)
    ensures |r| > 0
    ensures n >= 0 ==> AllDigits(r)
    ensures n < 0 ==> r[0] == '-' && AllDigits(r[1..])
  {
    if n < 0 then "-" + DecimalString(-n) else DecimalString(n)
  }

  /** `parseInt(s)` for a non-empty string of decimal digits. Leading zeros are
      allowed and contribute nothing. */
  function ParseInt(s: string): (v: nat)
    requires |s| > 0 && AllDigits(s)
    ensures v < Pow10(|s|)
  {
    if |s| == 1 then DigitValue(s[0])
    else
      var v := ParseInt(s[..|s| - 1]);
      assert v * 10 <= (Pow10(|s| - 1) - 1) * 10;
      v * 10 + DigitValue(s[|s| - 1])
  }

  /** Reading back what `toString` wrote gives the number. */
  lemma {:induction false} DecimalRoundTrip(n: nat)
    ensures ParseInt(DecimalString(n)) == n
  {
    if n >= 10 {
      DecimalRoundTrip(n / 10);
      var s := DecimalString(n);
      assert s[..|s| - 1] == DecimalString(n / 10);
    }
  }

  /** Two digit strings of the same length that parse to the same number are
      the same string: the last digit is the value modulo ten, the rest is the
      value divided by ten. */
  lemma {:induction false} ParseIntInjective(a: string, b: string)
    requires |a| == |b| > 0 && AllDigits(a) && AllDigits(b)
    requires ParseInt(a) == ParseInt(b)
    ensures a == b
  {
    var n := |a|;
    if n > 1 {
      var va, vb := ParseInt(a[..n - 1]), ParseInt(b[..n - 1]);
      var da, db := DigitValue(a[n - 1]), DigitValue(b[n - 1]);
      assert va * 10 + da == vb * 10 + db;
      assert da == db && va == vb by {
        assert (va * 10 + da) % 10 == da;
        assert (vb * 10 + db) % 10 == db;
      }
      ParseIntInjective(a[..n - 1], b[..n - 1]);
      assert a == a[..n - 1] + [a[n - 1]];
      assert b == b[..n - 1] + [b[n - 1]];
    } else {
      assert DigitChar(DigitValue(a[0])) == a[0];
    }
  }
}
