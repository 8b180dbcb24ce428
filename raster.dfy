/** The image the codec works on (a PIL image, abstracted), the coordinate
    mapping from a frame bit to a channel, and the lowest-bit operations. */
module Raster {
  import opened Binary
  import opened Utils

  /** One channel value of a pixel; the codec handles 8-bit channels. */
  type Channel = v: int | 0 <= v < 256

  /** The lowest binary digit of a channel value: whether the value is odd. */
  function LowBit(v: Channel): bool
  {
    v % 2 == 1
  }

  /** The channel value with its lowest binary digit set to `bit`: it keeps
      every higher digit, so it moves by at most 1. */
  function WithLowBit(v: Channel, bit: bool): (r: Channel)
    ensures LowBit(r) == bit && r / 2 == v / 2
    ensures v - 1 <= r <= v + 1
  {
    2 * (v / 2) + (if bit then 1 else 0)
  }

  /** `bin(v)[-1] == "1"`: the last digit of the numeral is the lowest bit. */
  lemma LastDigit(v: Channel)
    ensures Bin(v)[|Bin(v)| - 1] == LowBit(v)
  {
  }

  /** `int(bin(v)[2:][:-1] + bit, 2)`: dropping the numeral's last digit and
      appending `bit` gives the value with its lowest bit replaced. */
  lemma {:induction false} ReplaceLastDigit(v: Channel, bit: bool)
    ensures Value(Bin(v)[..|Bin(v)| - 1] + [bit]) == WithLowBit(v, bit)
  {
    var digits := Bin(v);
    var replaced := digits[..|digits| - 1] + [bit];
    assert replaced[..|replaced| - 1] == digits[..|digits| - 1];
    if v < 2 {
      assert replaced[..|replaced| - 1] == [];
    } else {
      assert digits[..|digits| - 1] == Bin(v / 2);
      ValueOfBin(v / 2);
    }
  }

  /** The source's coordinate mapping: frame bit i goes to channel `i % bands` of
      pixel `(i // bands % width, i // bands // width)`, which is inside the image
      and is flat channel i itself. */
  lemma Locate(i: nat, width: nat, height: nat, bands: nat)
    requires width >= 1 && bands >= 1 && i < width * height * bands
    ensures 0 <= i / bands / width < height && i / bands % width < width
    ensures (i / bands / width * width + i / bands % width) * bands + i % bands == i
  {
    var p := i / bands;
    DivModUnique(i, bands, p, i % bands);
    DivBelow(i, bands, width * height);
    assert p < height * width;
    DivBelow(p, width, height);
    DivModUnique(p, width, p / width, p % width);
  }

  /** The converse: channel ch of pixel (x, y) is flat channel
      (y * width + x) * bands + ch, and the mapping leads back to (x, y, ch). */
  lemma FlatIndex(x: nat, y: nat, ch: nat, width: nat, height: nat, bands: nat)
    requires x < width && y < height && ch < bands
    ensures var i := (y * width + x) * bands + ch;
      i < width * height * bands &&
      i % bands == ch && i / bands % width == x && i / bands / width == y
  {
    var p := y * width + x;
    var i := p * bands + ch;
    DivModUnique(p, width, y, x);
    DivModUnique(i, bands, p, ch);
    PixelInside(x, y, width, height, bands);
  }

  lemma PixelInside(x: nat, y: nat, width: nat, height: nat, bands: nat)
    requires x < width && y < height
    ensures (y * width + x) * bands + bands <= width * height * bands
  {
    var p := y * width + x;
    MultiplyMonotone(y + 1, height, width);
    assert p < height * width;
    MultiplyMonotone(p + 1, width * height, bands);
    assert (p + 1) * bands == p * bands + bands;
  }

  lemma DivBelow(i: nat, c: nat, n: nat)
    requires c >= 1 && i < n * c
    ensures i / c < n
  {
    DivModUnique(i, c, i / c, i % c);
    if i / c >= n {
      MultiplyMonotone(n, i / c, c);
    }
  }

  /** A decoded image (PIL `Image`): `bands` channel values per pixel
      (`len(mode)`), pixels in row-major order, channel ch of pixel (x, y)
      at index (y * width + x) * bands + ch of `data`. The dimensions never
      change; `putpixel` replaces the channel values. */
  class Image {
    const width: nat
    const height: nat
    const bands: nat
    const data: array<Channel>

    predicate Valid()
      reads this
    {
      bands >= 1 && data.Length == width * height * bands
    }

    /** `Image.open`: an image holding the given channel values. */
    constructor (width: nat, height: nat, bands: nat, channels: seq<Channel>)
      requires bands >= 1 && |channels| == width * height * bands
      ensures Valid() && fresh(data)
      ensures this.width == width && this.height == height && this.bands == bands
      ensures data[..] == channels
    {
      this.width := width;
      this.height := height;
      this.bands := bands;
      data := new Channel[|channels|](k => if 0 <= k < |channels| then channels[k] else 0);
    }

    /** Where pixel (x, y) starts in `data`. */
    function Offset(x: nat, y: nat): nat
    {
      (y * width + x) * bands
    }

    /** `getpixel((x, y))`: the channel values of one pixel. */
    function GetPixel(x: nat, y: nat): (px: seq<Channel>)
      reads this, data
      requires Valid() && x < width && y < height
      ensures |px| == bands && Offset(x, y) + bands <= data.Length
      ensures px == data[Offset(x, y)..Offset(x, y) + bands]
    {
      PixelInside(x, y, width, height, bands);
      data[Offset(x, y)..Offset(x, y) + bands]
    }

    /** `putpixel((x, y), tuple(px))`: overwrite the channels of one pixel. */
    method PutPixel(x: nat, y: nat, px: seq<Channel>)
      requires Valid() && x < width && y < height && |px| == bands
      modifies data
      ensures Offset(x, y) + bands <= data.Length
      ensures data[..] == old(data[..])[..Offset(x, y)] + px + old(data[..])[Offset(x, y) + bands..]
    {
      var base := Offset(x, y);
      PixelInside(x, y, width, height, bands);
      forall ch | 0 <= ch < bands {
        data[base + ch] := px[ch];
      }
      assert forall k :: 0 <= k < data.Length ==>
        data[k] == if base <= k < base + bands then px[k - base] else old(data[k]);
    }
  }
}
