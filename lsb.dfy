/** The LSB frame shared by every variant of `createCodeImage` and
    `decodeImage`: a header holding the payload's bit count, then the payload,
    one bit per channel in row-major order, all channels of a pixel before the
    next pixel. */
module Lsb {
  import opened Binary
  import opened Errors
  import opened Utils
  import opened Raster
  import opened Text

  /** `bin(len(payload))[2:].zfill(headLength)`: the payload's bit count, big-endian. */
  function Header(headLength: nat, payloadBits: nat): Bits
  {
    ZFill(Bin(payloadBits), headLength)
  }

  /** `mesWithHeader`: the header followed by the payload. */
  function Frame(headLength: nat, payload: Bits): Bits
  {
    Header(headLength, |payload|) + payload
  }

  /** The channels after the embedding loop, as a flat sequence: channel k < |frame|
      has its lowest bit replaced by frame bit k. */
  function Embedded(s: seq<Channel>, frame: Bits): (r: seq<Channel>)
    requires |frame| <= |s|
    ensures |r| == |s|
  {
    seq(|s|, k requires 0 <= k < |s| => if k < |frame| then WithLowBit(s[k], frame[k]) else s[k])
  }

  /** What embedding does to each channel: channel k < |frame| carries frame
      bit k in its lowest bit and keeps every higher bit, so it moves by at
      most 1; every channel past the frame is unchanged. */
  lemma EmbeddedChannels(s: seq<Channel>, frame: Bits)
    requires |frame| <= |s|
    ensures var r := Embedded(s, frame);
      && (forall k :: 0 <= k < |frame| ==> LowBit(r[k]) == frame[k] && r[k] / 2 == s[k] / 2)
      && (forall k :: |frame| <= k < |s| ==> r[k] == s[k])
      && (forall k :: 0 <= k < |s| ==> s[k] as int - 1 <= r[k] as int <= s[k] as int + 1)
  {
  }

  /** The lowest bits of a run of channels, as the decoding loops collect them. */
  function LowBits(s: seq<Channel>): (r: Bits)
    ensures |r| == |s| && forall k :: 0 <= k < |s| ==> r[k] == LowBit(s[k])
  {
    seq(|s|, k requires 0 <= k < |s| => LowBit(s[k]))
  }

  /** What embedding `payload` does to an image's channels: nothing when the
      frame does not fit (the length check comes before any write), otherwise
      the embedded channels. */
  function CodeImage(s: seq<Channel>, width: nat, height: nat, bands: nat, payload: Bits): Option<seq<Channel>>
    requires bands >= 1 && |s| == width * height * bands
  {
    var frame := Frame(HeaderLength(width, height, bands), payload);
    if |frame| > |s| then None else Some(Embedded(s, frame))
  }

  /** Every channel the decoding loops read is inside the image: the header,
      then as many payload channels as the header says. */
  predicate Decodable(s: seq<Channel>, width: nat, height: nat, bands: nat)
  {
    && bands >= 1 && width >= 1 && height >= 1
    && |s| == width * height * bands
    && HeaderLength(width, height, bands) <= |s|
    && HeaderLength(width, height, bands) + Value(LowBits(s[..HeaderLength(width, height, bands)])) <= |s|
  }

  /** The payload bits `decodeImage` collects: `intLength` lowest bits after
      the `headLength` header bits, where `intLength` is the header's value. */
  function PayloadOf(s: seq<Channel>, width: nat, height: nat, bands: nat): Bits
    requires Decodable(s, width, height, bands)
  {
    Extract(s, HeaderLength(width, height, bands))
  }

  /** The payload behind a header of `headLength` bits. */
  function Extract(s: seq<Channel>, headLength: nat): Bits
    requires headLength <= |s| && headLength + Value(LowBits(s[..headLength])) <= |s|
  {
    var intLength := Value(LowBits(s[..headLength]));
    LowBits(s[headLength..headLength + intLength])
  }

  /** `img.getpixel(coordTup)[i % tupLength]`, where `coordTup` is
      `(i // bands % width, i // bands // width)`: the pixel that holds flat
      channel i, which lies inside the image and starts at i - i % bands, and
      the value of that channel. */
  method ReadChannel(img: Image, i: nat) returns (x: nat, y: nat, value: Channel)
    requires img.Valid() && i < img.data.Length
    ensures x < img.width && y < img.height && img.Offset(x, y) == i - i % img.bands
    ensures value == img.data[i]
  {
    NonEmptyImage(img.width, img.height, img.bands);
    Locate(i, img.width, img.height, img.bands);
    x, y := i / img.bands % img.width, i / img.bands / img.width;
    value := img.GetPixel(x, y)[i % img.bands];
  }

  /** `img.putpixel(coordTup, tuple(newPixel))` for a complete pixel: the
      collected values, embedded from base on, replace the pixel that starts at base. */
  method PutCollected(img: Image, x: nat, y: nat, newPixel: seq<Channel>,
                      ghost s: seq<Channel>, ghost frame: Bits, ghost base: nat)
    requires img.Valid() && x < img.width && y < img.height && |newPixel| == img.bands
    requires img.Offset(x, y) == base && base + |newPixel| <= |frame| <= |s|
    requires img.data[..] == Embedded(s, frame[..base]) && newPixel == Embedded(s, frame)[base..base + |newPixel|]
    modifies img.data
    ensures img.Valid() && img.data[..] == Embedded(s, frame[..base + |newPixel|])
  {
    img.PutPixel(x, y, newPixel);
    FlushPixel(s, frame, base, base + |newPixel|);
  }

  /** The last, partial pixel: its first channels take the collected values,
      the others are filled in from the pixel's old values, and the whole
      pixel is written back. */
  method CompletePixel(img: Image, x: nat, y: nat, newPixel: seq<Channel>,
                       ghost s: seq<Channel>, ghost frame: Bits, ghost base: nat)
    requires img.Valid() && x < img.width && y < img.height && |newPixel| <= img.bands
    requires img.Offset(x, y) == base && base + |newPixel| <= |frame| <= |s|
    requires img.data[..] == Embedded(s, frame[..base]) && newPixel == Embedded(s, frame)[base..base + |newPixel|]
    modifies img.data
    ensures img.Valid() && img.data[..] == Embedded(s, frame[..base + |newPixel|])
  {
    var oldPixel := img.GetPixel(x, y);
    var pixel := newPixel + oldPixel[|newPixel|..];
    img.PutPixel(x, y, pixel);
    FlushPixel(s, frame, base, base + |newPixel|);
  }

  /** The embedding loop of `createCodeImage`: frame bit i replaces the lowest
      bit of the channel `ReadChannel` reads; the values of a pixel are
      collected in `newPixel` and written when the pixel is complete, and a
      last, partial pixel is completed with its old values. */
  method EmbedFrame(img: Image, frame: Bits)
    requires img.Valid() && |frame| <= img.data.Length
    modifies img.data
    ensures img.Valid() && img.data[..] == Embedded(old(img.data[..]), frame)
  {
    ghost var s := img.data[..];
    var tupLength := img.bands;
    var newPixel: seq<Channel> := [];
    var x: nat, y: nat := 0, 0;
    ghost var base: nat := 0;  // where the pixel whose values newPixel collects starts
    for i := 0 to |frame|
      invariant i == base + |newPixel| && Aligned(base, tupLength) && |newPixel| < tupLength
      invariant img.Valid() && img.data[..] == Embedded(s, frame[..base])
      invariant newPixel == Embedded(s, frame)[base..i]
      invariant |newPixel| > 0 ==> x < img.width && y < img.height && img.Offset(x, y) == base
    {
      AlignedRemainder(base, tupLength, i);
      var oldColorInt;
      x, y, oldColorInt := ReadChannel(img, i);
      EmbedStep(s, frame, base, i);
      newPixel := newPixel + [WithLowBit(oldColorInt, frame[i])];
      if i % tupLength == tupLength - 1 {
        PutCollected(img, x, y, newPixel, s, frame, base);
        newPixel := [];
        base := base + tupLength;
      }
    }
    if |newPixel| > 0 {
      CompletePixel(img, x, y, newPixel, s, frame, base);
    }
    assert frame[..|frame|] == frame;
  }

  /** The next channel still holds its original value, and embedding it
      extends the collected values by one. */
  lemma EmbedStep(s: seq<Channel>, frame: Bits, base: nat, i: nat)
    requires base <= i < |frame| <= |s|
    ensures Embedded(s, frame[..base])[i] == s[i]
    ensures Embedded(s, frame)[base..i + 1] == Embedded(s, frame)[base..i] + [WithLowBit(s[i], frame[i])]
  {
  }

  /** Writing embedded values over the channels from base to end, on top of an
      embedding up to base, gives the embedding up to end. */
  lemma FlushPixel(s: seq<Channel>, frame: Bits, base: nat, end: nat)
    requires base <= end <= |frame| <= |s|
    ensures Embedded(s, frame[..base])[..base] + Embedded(s, frame)[base..end] + Embedded(s, frame[..base])[end..]
      == Embedded(s, frame[..end])
  {
    var before, full, after := Embedded(s, frame[..base]), Embedded(s, frame), Embedded(s, frame[..end]);
    var r := before[..base] + full[base..end] + before[end..];
    forall k | 0 <= k < |s| ensures r[k] == after[k] {
      if k < base {
        assert r[k] == before[k] && frame[..base][k] == frame[k] && frame[..end][k] == frame[k];
      } else if k < end {
        assert r[k] == full[k] && frame[..end][k] == frame[k];
      } else {
        assert r[k] == before[k];
      }
    }
  }

  /** `base` is a whole number of pixels of `bands` channels. */
  predicate Aligned(base: nat, bands: nat)
    requires bands >= 1
  {
    base == 0 || (base >= bands && Aligned(base - bands, bands))
  }

  /** Channel r of a pixel that starts at an aligned offset is at position r within its pixel. */
  lemma {:induction false} AlignedRemainder(base: nat, bands: nat, i: nat)
    requires bands >= 1 && Aligned(base, bands) && base <= i < base + bands
    ensures i % bands == i - base
  {
    if base == 0 {
      DivModUnique(i, bands, 0, i);
    } else {
      AlignedRemainder(base - bands, bands, i - bands);
      DivModUnique(i - bands, bands, (i - bands) / bands, i - base);
      DivModUnique(i, bands, (i - bands) / bands + 1, i - base);
    }
  }

  /** The reading loops of `decodeImage`: the lowest bits of channels
      start..stop-1, each located by the same coordinate mapping. */
  method ReadLowBits(img: Image, start: nat, stop: nat) returns (bits: Bits)
    requires img.Valid() && start <= stop <= img.data.Length
    ensures bits == LowBits(img.data[start..stop])
  {
    var tupLength := img.bands;
    bits := [];
    for i := start to stop
      invariant bits == LowBits(img.data[start..i])
    {
      var x, y, value := ReadChannel(img, i);
      bits := bits + [LowBit(value)];
    }
  }

  /** The part of `createCodeImage` that every variant shares once the image
      is open: build the frame, raise `tooLong` (the variant's exception) when
      it does not fit, before any channel is written, and embed it otherwise. */
  method EmbedPayload(img: Image, payload: Bits, tooLong: StegError) returns (r: Outcome)
    requires img.Valid()
    modifies img.data
    ensures img.Valid()
    ensures var coded := CodeImage(old(img.data[..]), img.width, img.height, img.bands, payload);
      && (coded.None? ==> r == Fail(tooLong) && img.data[..] == old(img.data[..]))
      && (coded.Some? ==> r == Pass && img.data[..] == coded.value)
  {
    var headLength := HeaderLength(img.width, img.height, img.bands);
    var paddedMesLength := ZFill(Bin(|payload|), headLength);
    var mesWithHeader := paddedMesLength + payload;
    if |mesWithHeader| > img.width * img.height * img.bands {
      return Fail(tooLong);
    }
    EmbedFrame(img, mesWithHeader);
    r := Pass;
  }

  /** The two reading loops that every `decodeImage` shares: `headLength`
      lowest bits read as the payload's length, then that many payload bits. */
  method ExtractPayload(img: Image) returns (binMes: Bits)
    requires img.Valid() && Decodable(img.data[..], img.width, img.height, img.bands)
    ensures binMes == PayloadOf(img.data[..], img.width, img.height, img.bands)
  {
    var headLength := HeaderLength(img.width, img.height, img.bands);
    var binLength := ReadLowBits(img, 0, headLength);
    assert img.data[0..headLength] == img.data[..headLength];
    var intLength := Value(binLength);
    binMes := ReadLowBits(img, headLength, intLength + headLength);
  }

  /** An image with a channel has a pixel. */
  lemma NonEmptyImage(width: nat, height: nat, bands: nat)
    requires width * height * bands >= 1
    ensures width >= 1 && height >= 1
  {
  }

  /** The length check fails exactly when header width plus payload exceeds the
      image's channel count; when it passes, the zero-padded header has exactly
      `headLength` bits and its value is the payload's bit count. */
  lemma FrameFits(width: nat, height: nat, bands: nat, payload: Bits)
    requires bands >= 1
    ensures var headLength := HeaderLength(width, height, bands);
      (|Frame(headLength, payload)| <= width * height * bands <==>
        headLength + |payload| <= width * height * bands) &&
      (|Frame(headLength, payload)| <= width * height * bands ==>
        |Header(headLength, |payload|)| == headLength &&
        Value(Header(headLength, |payload|)) == |payload|)
  {
    var headLength := HeaderLength(width, height, bands);
    var capacity := width * height * bands;
    ValueOfBin(|payload|);
    ZFillMeaning(Bin(|payload|), headLength);
    if headLength + |payload| <= capacity {
      BinMonotone(|payload|, capacity);
    }
  }

  /** Embedding fails exactly when the frame is too long, and a successful
      embedding changes each channel by at most 1, keeps its higher bits and
      leaves every channel past the frame as it was. */
  lemma CodeImageMeaning(s: seq<Channel>, width: nat, height: nat, bands: nat, payload: Bits)
    requires bands >= 1 && |s| == width * height * bands
    ensures var headLength := HeaderLength(width, height, bands);
      && (CodeImage(s, width, height, bands, payload).None? <==> headLength + |payload| > |s|)
      && (CodeImage(s, width, height, bands, payload).Some? ==>
            var coded := CodeImage(s, width, height, bands, payload).value;
            && |coded| == |s|
            && (forall k :: 0 <= k < |s| ==> s[k] as int - 1 <= coded[k] as int <= s[k] as int + 1 && coded[k] / 2 == s[k] / 2)
            && (forall k :: headLength + |payload| <= k < |s| ==> coded[k] == s[k]))
  {
    FrameFits(width, height, bands, payload);
    var frame := Frame(HeaderLength(width, height, bands), payload);
    if |frame| <= |s| {
      EmbeddedChannels(s, frame);
    }
  }

  /** Extraction undoes embedding: the image an embedding produces is
      decodable and yields exactly the embedded payload. */
  lemma CodeThenExtract(s: seq<Channel>, width: nat, height: nat, bands: nat, payload: Bits)
    requires bands >= 1 && |s| == width * height * bands
    requires HeaderLength(width, height, bands) + |payload| <= |s|
    ensures CodeImage(s, width, height, bands, payload).Some?
    ensures var coded := CodeImage(s, width, height, bands, payload).value;
      Decodable(coded, width, height, bands) && PayloadOf(coded, width, height, bands) == payload
  {
    FrameFits(width, height, bands, payload);
    NonEmptyImage(width, height, bands);
    CodeFrame(s, HeaderLength(width, height, bands), payload);
  }

  /** Embedding a frame whose header holds `headLength` bits, then extracting
      behind a header of that width, gives back the payload. */
  lemma CodeFrame(s: seq<Channel>, headLength: nat, payload: Bits)
    requires headLength + |payload| <= |s|
    requires |Header(headLength, |payload|)| == headLength && Value(Header(headLength, |payload|)) == |payload|
    ensures var coded := Embedded(s, Frame(headLength, payload));
      headLength + Value(LowBits(coded[..headLength])) <= |coded| && Extract(coded, headLength) == payload
  {
    var header := Header(headLength, |payload|);
    ReadFrame(s, header, payload);
    ExtractFrame(Embedded(s, header + payload), header, payload);
  }

  /** A header whose value is the payload's length leads `Extract` to exactly the payload. */
  lemma ExtractFrame(coded: seq<Channel>, header: Bits, payload: Bits)
    requires |header| + |payload| <= |coded| && Value(header) == |payload|
    requires LowBits(coded[..|header|]) == header
    requires LowBits(coded[|header|..|header| + |payload|]) == payload
    ensures |header| + Value(LowBits(coded[..|header|])) <= |coded|
    ensures Extract(coded, |header|) == payload
  {
  }

  /** The lowest bits of an embedded frame give back its header and payload. */
  lemma ReadFrame(s: seq<Channel>, header: Bits, payload: Bits)
    requires |header| + |payload| <= |s|
    ensures var coded := Embedded(s, header + payload);
      LowBits(coded[..|header|]) == header &&
      LowBits(coded[|header|..|header| + |payload|]) == payload
  {
    var frame := header + payload;
    EmbeddedLowBits(s, frame, 0, |header|);
    EmbeddedLowBits(s, frame, |header|, |header| + |payload|);
    assert frame[..|header|] == header;
    assert frame[|header|..|header| + |payload|] == payload;
    assert Embedded(s, frame)[0..|header|] == Embedded(s, frame)[..|header|];
  }

  /** Any run of frame positions reads back, lowest bit by lowest bit, as that run of the frame. */
  lemma EmbeddedLowBits(s: seq<Channel>, frame: Bits, lo: nat, hi: nat)
    requires lo <= hi <= |frame| <= |s|
    ensures LowBits(Embedded(s, frame)[lo..hi]) == frame[lo..hi]
  {
  }

  /** The property the test suite checks: a text of code points below 256
      whose frame fits is embedded, and decoding the result gives the text back. */
  lemma EncodeThenDecode(s: seq<Channel>, width: nat, height: nat, bands: nat, m: string)
    requires bands >= 1 && |s| == width * height * bands
    requires IsByteText(m) && HeaderLength(width, height, bands) + 8 * |m| <= |s|
    ensures CodeImage(s, width, height, bands, CharsToBinary(m)).Some?
    ensures var coded := CodeImage(s, width, height, bands, CharsToBinary(m)).value;
      Decodable(coded, width, height, bands) &&
      BinaryToText(PayloadOf(coded, width, height, bands)) == Success(m)
  {
    CharsToBinaryBlocks(m);
    CodeThenExtract(s, width, height, bands, CharsToBinary(m));
    TextRoundTrip(m);
  }
}
