/** steg.py: the first, module-level version of the codec. It has no ASCII
    check and raises bare Exceptions; its `getHeaderLength` is the one of
    utils.py. */
module Steg {
  import opened Binary
  import opened Errors
  import opened Utils
  import opened Raster
  import opened Text
  import opened Lsb

  const TooLong: StegError := Exception("Message is too long to hide in image.")
  const BadLength: StegError := Exception("Binary string length is not a multiple of 8.")

  /** `binaryToMessage(binaryStr)` of steg.py. */
  function DecodeText(binaryStr: Bits): Result<string>
  {
    if |binaryStr| % 8 != 0 then Failure(BadLength) else Success(GroupsToText(binaryStr))
  }

  /** `createCodeImage(filename, message)` on the opened image: every
      character becomes at least 8 digits (exactly 8 below code point 256),
      a frame that does not fit raises an Exception before any write, and
      otherwise the frame is embedded. */
  method CreateCodeImage(img: Image, message: string) returns (r: Outcome)
    requires img.Valid()
    modifies img.data
    ensures img.Valid()
    ensures var coded := CodeImage(old(img.data[..]), img.width, img.height, img.bands, CharsToBinary(message));
      && (coded.None? ==> r == Fail(TooLong) && img.data[..] == old(img.data[..]))
      && (coded.Some? ==> r == Pass && img.data[..] == coded.value)
  {
    var binMes := AppendCharBits(message);
    r := EmbedPayload(img, binMes, TooLong);
  }

  /** `decodeImage(filename)` on the opened image. */
  method DecodeImage(img: Image) returns (r: Result<string>)
    requires img.Valid() && Decodable(img.data[..], img.width, img.height, img.bands)
    ensures r == DecodeText(PayloadOf(img.data[..], img.width, img.height, img.bands))
  {
    var binMes := ExtractPayload(img);
    r := BinaryToMessage(binMes, BadLength);
  }

  /** Without the ASCII check, any message whose frame fits is embedded, and
      it comes back from the image exactly when all its code points are below
      256. */
  lemma RoundTripIff(s: seq<Channel>, width: nat, height: nat, bands: nat, m: string)
    requires bands >= 1 && |s| == width * height * bands
    requires CodeImage(s, width, height, bands, CharsToBinary(m)).Some?
    ensures var coded := CodeImage(s, width, height, bands, CharsToBinary(m)).value;
      Decodable(coded, width, height, bands) &&
      (DecodeText(PayloadOf(coded, width, height, bands)) == Success(m) <==> IsByteText(m))
  {
    CodeImageMeaning(s, width, height, bands, CharsToBinary(m));
    CodeThenExtract(s, width, height, bands, CharsToBinary(m));
    ByteTextRoundTripIff(m);
  }
}
