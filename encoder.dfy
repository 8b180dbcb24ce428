/** Steganography/encoder.py: the package's `Encoder`, which holds a message
    together with its bit string and hides it in an image. */
module PackageEncoder {
  import opened Binary
  import opened Errors
  import opened Raster
  import opened Text
  import opened Lsb

  class Encoder {
    var message: string
    var binaryMessage: Bits

    /** The bit string is always the conversion of the message. */
    predicate Valid()
      reads this
    {
      AsciiBinary(message) == Success(binaryMessage)
    }

    constructor (message: string, binaryMessage: Bits)
      requires AsciiBinary(message) == Success(binaryMessage)
      ensures Valid() && this.message == message && this.binaryMessage == binaryMessage
    {
      this.message := message;
      this.binaryMessage := binaryMessage;
    }

    /** `Encoder(message)`: converts the message at once, so a non-ASCII
        message raises NonAsciiCharacterError and no encoder is made. */
    static method Create(message: string) returns (r: Result<Encoder>)
      ensures r.Failure? <==> !IsAscii(message)
      ensures r.Failure? ==> r.error == NonAsciiCharacter
      ensures r.Success? ==> fresh(r.value) && r.value.Valid() && r.value.message == message
    {
      var converted := MessageToBinary(message);
      match converted {
        case Failure(e) =>
          r := Failure(e);
        case Success(bits) =>
          var enc := new Encoder(message, bits);
          r := Success(enc);
      }
    }

    /** `setMessage` as written: the message is stored before the conversion,
        so when the conversion raises, the encoder keeps the new message with
        the old message's bit string. */
    method SetMessageAsWritten(message: string) returns (r: Outcome)
      modifies this
      ensures this.message == message
      ensures r.Pass? <==> IsAscii(message)
      ensures r.Pass? ==> binaryMessage == CharsToBinary(message)
      ensures r.Fail? ==> r.error == NonAsciiCharacter && binaryMessage == old(binaryMessage)
    {
      this.message := message;
      var converted := MessageToBinary(message);
      match converted {
        case Failure(e) =>
          r := Fail(e);
        case Success(bits) =>
          binaryMessage := bits;
          r := Pass;
      }
    }

    /** `setMessage`, converting first: a non-ASCII message raises
        NonAsciiCharacterError and leaves the encoder as it was, so the bit
        string always matches the message. */
    method SetMessage(message: string) returns (r: Outcome)
      requires Valid()
      modifies this
      ensures Valid()
      ensures r.Pass? <==> IsAscii(message)
      ensures r.Pass? ==> this.message == message
      ensures r.Fail? ==> r.error == NonAsciiCharacter && unchanged(this)
    {
      var converted := MessageToBinary(message);
      match converted {
        case Failure(e) =>
          r := Fail(e);
        case Success(bits) =>
          this.message := message;
          binaryMessage := bits;
          r := Pass;
      }
    }

    /** `createCodeImage(filename, outputFile)`. `outputExt` is the extension
        of `outputFile` (None when no output file is given, which names a
        `.png` after the input); `img` is the opened input image. A given
        output file that is not a `.png` raises NonPngImageError before the
        image is touched; a frame that does not fit raises MessageLengthError,
        also before any write; otherwise the frame is embedded. */
    method CreateCodeImage(outputExt: Option<string>, img: Image) returns (r: Outcome)
      requires img.Valid()
      modifies img.data
      ensures img.Valid()
      ensures outputExt.Some? && outputExt.value != ".png" ==>
        r == Fail(NonPngImage) && img.data[..] == old(img.data[..])
      ensures outputExt.None? || outputExt.value == ".png" ==>
        var coded := CodeImage(old(img.data[..]), img.width, img.height, img.bands, binaryMessage);
        && (coded.None? ==> r == Fail(MessageLength) && img.data[..] == old(img.data[..]))
        && (coded.Some? ==> r == Pass && img.data[..] == coded.value)
    {
      if outputExt.Some? && outputExt.value != ".png" {
        return Fail(NonPngImage);
      }
      r := EmbedPayload(img, binaryMessage, MessageLength);
    }
  }

  /** A failed `setMessage` as written leaves an encoder whose bit string no
      longer belongs to its message. */
  method StaleBinaryMessage() returns (enc: Encoder)
    ensures enc.message == "é" && enc.binaryMessage == CharsToBinary("a")
    ensures !enc.Valid()
  {
    assert IsAscii("a");
    var created := Encoder.Create("a");
    enc := created.value;
    assert "é"[0] as int == 0xE9;
    var r := enc.SetMessageAsWritten("é");
  }
}
