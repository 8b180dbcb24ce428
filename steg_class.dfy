/** stegClass.py: the earlier `Encoder` and `Decoder` classes, with the same
    typed errors as the package but without its `.png` checks. */
module StegClass {
  import opened Binary
  import opened Errors
  import opened Raster
  import opened Text
  import opened Lsb

  class Encoder {
    var message: string
    var binaryMessage: Bits

    /** The bit string is always the conversion of the message. */
    predicate Valid()
      reads this
    {
      AsciiBinary(message) == Success(binaryMessage)
    }

    constructor (message: string, binaryMessage: Bits)
      requires AsciiBinary(message) == Success(binaryMessage)
      ensures Valid() && this.message == message && this.binaryMessage == binaryMessage
    {
      this.message := message;
      this.binaryMessage := binaryMessage;
    }

    /** `Encoder(message)`: a non-ASCII message raises NonAsciiCharacterError
        and no encoder is made. */
    static method Create(message: string) returns (r: Result<Encoder>)
      ensures r.Failure? <==> !IsAscii(message)
      ensures r.Failure? ==> r.error == NonAsciiCharacter
      ensures r.Success? ==> fresh(r.value) && r.value.Valid() && r.value.message == message
    {
      var converted := MessageToBinary(message);
      match converted {
        case Failure(e) =>
          r := Failure(e);
        case Success(bits) =>
          var enc := new Encoder(message, bits);
          r := Success(enc);
      }
    }

    /** `createCodeImage(filename)` on the opened image: MessageLengthError
        before any write when the frame does not fit, otherwise the frame is
        embedded. */
    method CreateCodeImage(img: Image) returns (r: Outcome)
      requires img.Valid()
      modifies img.data
      ensures img.Valid()
      ensures var coded := CodeImage(old(img.data[..]), img.width, img.height, img.bands, binaryMessage);
        && (coded.None? ==> r == Fail(MessageLength) && img.data[..] == old(img.data[..]))
        && (coded.Some? ==> r == Pass && img.data[..] == coded.value)
    {
      r := EmbedPayload(img, binaryMessage, MessageLength);
    }
  }

  class Decoder {
    var filename: string

    constructor (filename: string)
      ensures this.filename == filename
    {
      this.filename := filename;
    }

    /** `decodeImage()` on the image `filename` names: the payload the header
        announces, converted to text. */
    method DecodeImage(img: Image) returns (r: Result<string>)
      requires img.Valid() && Decodable(img.data[..], img.width, img.height, img.bands)
      ensures r == BinaryToText(PayloadOf(img.data[..], img.width, img.height, img.bands))
    {
      var binMes := ExtractPayload(img);
      r := BinaryToMessage(binMes, BinaryStringLength);
    }
  }
}
