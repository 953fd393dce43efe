/** Decimal fields of archive headers: what snprintf prints and what sscanf, strtol and atoi read. */
module Decimal {
  import opened ByteSeq

  const SPACE: Byte := 32
  const PLUS: Byte := 43
  const MINUS: Byte := 45

  predicate IsDigit(b: Byte) {
    48 <= b <= 57
  }

  /** isspace in the C locale. */
  predicate IsSpace(b: Byte) {
    b == 32 || 9 <= b <= 13
  }

  /** The digits printed by "%lu" or "%ld" for a non-negative number. */
  function Digits(n: nat): (r: seq<Byte>)
    ensures |r| >= 1
    ensures forall i :: 0 <= i < |r| ==> IsDigit(r[i])
  {
    if n < 10 then [48 + n] else Digits(n / 10) + [48 + n % 10]
  }

  /** The number the digits in columns `lo..hi` denote. */
  function Value(s: seq<Byte>, lo: nat, hi: nat): (r: nat)
    requires lo <= hi <= |s|
    requires forall i :: lo <= i < hi ==> IsDigit(s[i])
  {
    if lo == hi then 0
    else
      var last: int := s[hi - 1];
      assert IsDigit(last);
      10 * Value(s, lo, hi - 1) + (last - 48)
  }

  lemma {:induction false} ValueSame(s: seq<Byte>, t: seq<Byte>, k: nat)
    requires k <= |s| && k <= |t| && s[..k] == t[..k]
    requires forall i :: 0 <= i < k ==> IsDigit(s[i]) && IsDigit(t[i])
    ensures Value(s, 0, k) == Value(t, 0, k)
  {
    if k > 0 {
      assert s[..k - 1] == s[..k][..k - 1] == t[..k - 1];
      assert s[k - 1] == s[..k][k - 1] == t[k - 1];
      ValueSame(s, t, k - 1);
    }
  }

  lemma {:induction false} ValueOfDigits(n: nat)
    ensures Value(Digits(n), 0, |Digits(n)|) == n
  {
    if n >= 10 {
      var front := Digits(n / 10);
      ValueOfDigits(n / 10);
      assert Digits(n)[..|front|] == front == front[..|front|];
      ValueSame(Digits(n), front, |front|);
    }
  }

  function Pow10(k: nat): (r: nat)
    ensures r > 0
  {
    if k == 0 then 1 else 10 * Pow10(k - 1)
  }

  /** A number fits in `k` printed columns exactly when it is below ten to the `k`. */
  lemma {:induction false} DigitsFit(n: nat, k: nat)
    requires k >= 1
    ensures |Digits(n)| <= k <==> n < Pow10(k)
  {
    if k == 1 {
      assert Pow10(1) == 10 * Pow10(0);
    } else if n < 10 {
      PowerAtLeastTen(k);
    } else {
      DigitsFit(n / 10, k - 1);
      assert n == 10 * (n / 10) + n % 10;
    }
  }

  lemma {:induction false} PowerAtLeastTen(k: nat)
    requires k >= 1
    ensures Pow10(k) >= 10
  {
    if k > 1 {
      PowerAtLeastTen(k - 1);
    }
  }

  /** The end of the digit run that starts at column `i`. */
  function DigitEnd(s: seq<Byte>, i: nat): (k: nat)
    requires i <= |s|
    ensures i <= k <= |s|
    ensures forall j :: i <= j < k ==> IsDigit(s[j])
    ensures k < |s| ==> !IsDigit(s[k])
    decreases |s| - i
  {
    if i == |s| || !IsDigit(s[i]) then i else DigitEnd(s, i + 1)
  }

  lemma DigitEndOfDigits(n: nat, rest: seq<Byte>)
    requires rest == [] || !IsDigit(rest[0])
    ensures DigitEnd(Digits(n) + rest, 0) == |Digits(n)|
    ensures Value(Digits(n) + rest, 0, |Digits(n)|) == n
  {
    var ds := Digits(n);
    var s := ds + rest;
    assert s[..|ds|] == ds == ds[..|ds|];
    assert forall i :: 0 <= i < |ds| ==> s[i] == ds[i];
    assert rest != [] ==> s[|ds|] == rest[0];
    ValueOfDigits(n);
    ValueSame(s, ds, |ds|);
  }

  function SkipSpace(s: seq<Byte>, i: nat): (k: nat)
    requires i <= |s|
    ensures i <= k <= |s|
    decreases |s| - i
  {
    if i < |s| && IsSpace(s[i]) then SkipSpace(s, i + 1) else i
  }

  predicate HasSign(s: seq<Byte>, i: nat)
    requires i <= |s|
  {
    i < |s| && (s[i] == PLUS || s[i] == MINUS)
  }

  lemma {:induction false} ValueBound(s: seq<Byte>, lo: nat, hi: nat)
    requires lo <= hi <= |s| && forall i :: lo <= i < hi ==> IsDigit(s[i])
    ensures Value(s, lo, hi) < Pow10(hi - lo)
  {
    if lo < hi {
      ValueBound(s, lo, hi - 1);
      assert IsDigit(s[hi - 1]);
    }
  }

  lemma {:induction false} PowerBound(k: nat)
    requires k <= 10
    ensures Pow10(k) <= 10_000_000_000
  {
    if k < 10 {
      PowerBelow(k, 10);
    }
    assert Pow10(5) == 100_000;
    assert Pow10(10) == 100_000 * Pow10(5);
  }

  lemma {:induction false} PowerBelow(i: nat, k: nat)
    requires i <= k
    ensures Pow10(i) <= Pow10(k)
  {
    if i < k {
      PowerBelow(i, k - 1);
    }
  }

  /** sscanf with "%lu" on a field of at most ten columns: a minus sign negates modulo 2^64. */
  function ScanUnsigned(s: seq<Byte>): (r: Option<nat>)
    requires |s| <= 10
    ensures r.Some? ==> r.value < TWO64
  {
    var i := SkipSpace(s, 0);
    var j := if HasSign(s, i) then i + 1 else i;
    var k := DigitEnd(s, j);
    if k == j then None
    else
      var v := Value(s, j, k);
      ValueBound(s, j, k);
      PowerBound(k - j);
      Some(if i < j && s[i] == MINUS && v > 0 then TWO64 - v else v)
  }

  /** strtol in base ten, before its range check. */
  function ScanLong(s: seq<Byte>, from: nat): int
    requires from <= |s|
  {
    var i := SkipSpace(s, from);
    var j := if HasSign(s, i) then i + 1 else i;
    var v: int := Value(s, j, DigitEnd(s, j));
    if i < j && s[i] == MINUS then -v else v
  }

  /** atoi: strtol saturated at LONG_MAX and then cut to a 32-bit int. */
  function Atoi(s: seq<Byte>, from: nat): (r: int)
    requires from <= |s|
    ensures -TWO31 <= r < TWO31
  {
    CutToInt(Value(s, from, DigitEnd(s, from)))
  }

  function CutToInt(v: nat): (r: int)
    ensures -TWO31 <= r < TWO31
    ensures v < TWO31 ==> r == v
  {
    var low := if v >= TWO63 then TWO32 - 1 else v % TWO32;
    if low < TWO31 then low else low - TWO32
  }

  /** A printed number that is followed by a non-digit is read back. */
  lemma ScanDigits(n: nat, rest: seq<Byte>)
    requires rest == [] || !IsDigit(rest[0])
    requires |Digits(n) + rest| <= 10
    ensures ScanUnsigned(Digits(n) + rest) == Some(n)
  {
    var s := Digits(n) + rest;
    DigitEndOfDigits(n, rest);
    assert IsDigit(s[0]);
    assert SkipSpace(s, 0) == 0;
  }

  lemma {:induction false} ValueShift(s: seq<Byte>, from: nat, k: nat)
    requires from + k <= |s|
    requires forall i :: from <= i < from + k ==> IsDigit(s[i])
    ensures forall i :: 0 <= i < k ==> IsDigit(s[from..][i])
    ensures Value(s, from, from + k) == Value(s[from..], 0, k)
  {
    if k > 0 {
      ValueShift(s, from, k - 1);
    }
  }

  /** The same, for a number that starts at column `from`. */
  lemma ScanDigitsAt(s: seq<Byte>, from: nat, n: nat, rest: seq<Byte>)
    requires from <= |s| && s[from..] == Digits(n) + rest
    requires rest == [] || !IsDigit(rest[0])
    ensures ScanLong(s, from) == n
    ensures n < TWO31 ==> Atoi(s, from) == n
    ensures from < |s| && IsDigit(s[from])
  {
    var ds := Digits(n);
    DigitEndOfDigits(n, rest);
    assert forall i :: from <= i < from + |ds| ==> s[i] == s[from..][i - from] == ds[i - from];
    assert rest != [] ==> s[from + |ds|] == s[from..][|ds|] == rest[0];
    assert DigitEnd(s, from) == from + |ds|;
    ValueShift(s, from, |ds|);
    assert SkipSpace(s, from) == from;
  }
}
