/** The header width: how many channel slots the payload's bit count occupies. */
module Utils {
  import opened Binary

  /** getHeaderLength: the number of binary digits of the image's channel count
      width * height * bands (`len(bin(maxBytes)[2:])`), rounded up to a multiple
      of bands so that the payload starts on a pixel boundary. `bands` is `len(mode)`. */
  function HeaderLength(width: nat, height: nat, bands: nat): (r: nat)
    requires bands >= 1
    ensures r % bands == 0
    ensures |Bin(width * height * bands)| <= r < |Bin(width * height * bands)| + bands
    ensures |Bin(width * height * bands)| % bands == 0 ==> r == |Bin(width * height * bands)|
  {
    var rawAmount := |Bin(width * height * bands)|;
    RoundDown(rawAmount, bands);
    if rawAmount % bands != 0 then rawAmount - rawAmount % bands + bands
    else rawAmount - rawAmount % bands
  }

  lemma RoundDown(n: nat, c: nat)
    requires c >= 1
    ensures n - n % c == (n / c) * c
    ensures (n - n % c) % c == 0 && (n - n % c + c) % c == 0
  {
    assert n == (n / c) * c + n % c;
    MultipleMod(n / c, c);
    MultipleMod(n / c + 1, c);
    assert (n / c + 1) * c == (n / c) * c + c;
  }

  lemma MultipleMod(q: nat, c: nat)
    requires c >= 1
    ensures (q * c) % c == 0 && (q * c) / c == q
  {
    DivModUnique(q * c, c, q, 0);
  }

  /** Euclidean division is determined by its quotient and remainder. */
  lemma DivModUnique(i: int, c: int, q: int, r: int)
    requires c >= 1 && 0 <= r < c && i == q * c + r
    ensures i / c == q && i % c == r
  {
    var q', r' := i / c, i % c;
    assert i == q' * c + r' && 0 <= r' < c;
    if q' != q {
      var d := if q' > q then q' - q else q - q';
      MultiplyMonotone(1, d, c);
      Distribute(q', q, c);
      assert false;
    }
  }

  lemma Distribute(a: int, b: int, c: int)
    ensures (a - b) * c == a * c - b * c
  {
  }

  /** The header width is the least multiple of bands that has room for the
      digits of width * height * bands. */
  lemma HeaderLengthIsLeast(width: nat, height: nat, bands: nat, m: nat)
    requires bands >= 1 && m % bands == 0 && m >= |Bin(width * height * bands)|
    ensures HeaderLength(width, height, bands) <= m
  {
    var raw := |Bin(width * height * bands)|;
    if raw % bands != 0 {
      RoundUpIsLeast(raw, bands, m);
    }
  }

  lemma RoundUpIsLeast(n: nat, c: nat, m: nat)
    requires c >= 1 && m % c == 0 && m >= n && n % c != 0
    ensures n - n % c + c <= m
  {
    var q, qm := n / c, m / c;
    RoundDown(n, c);
    RoundDown(m, c);
    assert q * c < qm * c;
    if qm <= q {
      MultiplyMonotone(qm, q, c);
    }
    MultiplyMonotone(q + 1, qm, c);
    assert (q + 1) * c == q * c + c;
  }

  lemma MultiplyMonotone(a: nat, b: nat, c: nat)
    requires a <= b
    ensures a * c <= b * c
  {
  }

  /** A larger image never has a narrower header (for the same number of bands). */
  lemma HeaderLengthMonotone(width: nat, height: nat, width': nat, height': nat, bands: nat)
    requires bands >= 1 && width * height <= width' * height'
    ensures HeaderLength(width, height, bands) <= HeaderLength(width', height', bands)
  {
    MultiplyMonotone(width * height, width' * height', bands);
    assert width * height * bands <= width' * height' * bands;
    BinMonotone(width * height * bands, width' * height' * bands);
    HeaderLengthIsLeast(width, height, bands, HeaderLength(width', height', bands));
  }

  /** In an image with at least one pixel the header always fits. */
  lemma HeaderFitsImage(width: nat, height: nat, bands: nat)
    requires bands >= 1 && width >= 1 && height >= 1
    ensures HeaderLength(width, height, bands) <= width * height * bands
  {
    var capacity := width * height * bands;
    MultiplyMonotone(1, width * height, bands);
    MultiplyMonotone(1, width, height);
    assert capacity >= 1;
    BinLengthAtMost(capacity);
    MultipleMod(width * height, bands);
    HeaderLengthIsLeast(width, height, bands, capacity);
  }
}
