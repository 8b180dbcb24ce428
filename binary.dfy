/** Binary numerals as the source builds them with Python's `bin`, `str.zfill`
    and `int(s, 2)`: a bit string is a sequence of digits, most significant first. */
module Binary {

  /** A string of binary digits, most significant first; `true` is the digit 1. */
  type Bits = seq<bool>

  function Pow2(k: nat): (r: nat)
    ensures r >= 1
  {
    if k == 0 then 1 else 2 * Pow2(k - 1)
  }

  /** `int(s, 2)`: the digits read as a big-endian unsigned number. */
  function Value(bs: Bits): nat
  {
    if bs == [] then 0 else 2 * Value(bs[..|bs| - 1]) + (if bs[|bs| - 1] then 1 else 0)
  }

  /** `bin(n)[2:]`: the shortest numeral of n, which is "0" for zero. */
  function Bin(n: nat): (r: Bits)
    ensures |r| >= 1
  {
    if n < 2 then [n == 1] else Bin(n / 2) + [n % 2 == 1]
  }

  function Zeros(k: nat): (r: Bits)
    ensures |r| == k
  {
    seq(k, _ => false)
  }

  /** `s.zfill(width)`: s padded with zeros on the left up to `width` digits;
      a longer s is returned unchanged, never truncated. */
  function ZFill(s: Bits, width: nat): (r: Bits)
    ensures |r| == if |s| >= width then |s| else width
  {
    if |s| >= width then s else Zeros(width - |s|) + s
  }

  /** Padding only adds zeros in front: the digits end with s, every added
      digit is 0, and the value is unchanged. */
  lemma ZFillMeaning(s: Bits, width: nat)
    ensures var r := ZFill(s, width);
      r[|r| - |s|..] == s && (forall i :: 0 <= i < |r| - |s| ==> !r[i]) && Value(r) == Value(s)
  {
    if |s| < width {
      ValueLeadingZeros(width - |s|, s);
      var r := ZFill(s, width);
      assert r[|r| - |s|..] == s;
    }
  }

  lemma {:induction false} ValueZeros(k: nat)
    ensures Value(Zeros(k)) == 0
  {
    if k > 0 {
      assert Zeros(k)[..k - 1] == Zeros(k - 1);
      ValueZeros(k - 1);
    }
  }

  /** Leading zeros do not change a numeral's value. */
  lemma {:induction false} ValueLeadingZeros(k: nat, s: Bits)
    ensures Value(Zeros(k) + s) == Value(s)
  {
    if s == [] {
      assert Zeros(k) + s == Zeros(k);
      ValueZeros(k);
    } else {
      var t := Zeros(k) + s;
      assert t[..|t| - 1] == Zeros(k) + s[..|s| - 1];
      ValueLeadingZeros(k, s[..|s| - 1]);
    }
  }

  /** A numeral of k digits is below 2^k. */
  lemma {:induction false} ValueBound(bs: Bits)
    ensures Value(bs) < Pow2(|bs|)
  {
    if bs != [] {
      ValueBound(bs[..|bs| - 1]);
    }
  }

  /** `int(bin(n)[2:], 2) == n`. */
  lemma {:induction false} ValueOfBin(n: nat)
    ensures Value(Bin(n)) == n
  {
    if n >= 2 {
      var b := Bin(n);
      assert b[..|b| - 1] == Bin(n / 2);
      ValueOfBin(n / 2);
    }
  }

  /** `len(bin(n)[2:])` is a digit count k with 2^(k-1) <= n < 2^k (for n >= 1). */
  lemma {:induction false} BinLength(n: nat)
    ensures n < Pow2(|Bin(n)|)
    ensures |Bin(n)| == 1 || Pow2(|Bin(n)| - 1) <= n
  {
    if n >= 2 {
      BinLength(n / 2);
    }
  }

  lemma {:induction false} Pow2Monotone(a: nat, b: nat)
    requires a <= b
    ensures Pow2(a) <= Pow2(b)
  {
    if a < b {
      Pow2Monotone(a, b - 1);
    }
  }

  /** `len(bin(n)[2:])` is the least k >= 1 with n < 2^k. */
  lemma BinLengthIsLeast(n: nat, k: nat)
    requires k >= 1 && n < Pow2(k)
    ensures |Bin(n)| <= k
  {
    BinLength(n);
    if |Bin(n)| > k {
      Pow2Monotone(k, |Bin(n)| - 1);
    }
  }

  /** Larger numbers never have shorter numerals. */
  lemma BinMonotone(n: nat, m: nat)
    requires n <= m
    ensures |Bin(n)| <= |Bin(m)|
  {
    BinLength(m);
    BinLengthIsLeast(n, |Bin(m)|);
  }

  /** A number has at least as many units as its numeral has digits. */
  lemma {:induction false} BinLengthAtMost(n: nat)
    requires n >= 1
    ensures |Bin(n)| <= n
  {
    if n >= 2 {
      BinLengthAtMost(n / 2);
    }
  }

  /** Two numerals of the same length with the same value are the same digits. */
  lemma {:induction false} ValueInjective(a: Bits, b: Bits)
    requires |a| == |b| && Value(a) == Value(b)
    ensures a == b
  {
    if a != [] {
      var n := |a|;
      assert a[n - 1] == b[n - 1];
      ValueInjective(a[..n - 1], b[..n - 1]);
      assert a == a[..n - 1] + [a[n - 1]];
      assert b == b[..n - 1] + [b[n - 1]];
    }
  }
}
