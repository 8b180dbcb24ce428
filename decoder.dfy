/** Steganography/decoder.py: the package's `Decoder`, which reads the hidden
    message back out of an image. */
module PackageDecoder {
  import opened Binary
  import opened Errors
  import opened Raster
  import opened Text
  import opened Lsb

  class Decoder {
    var filename: string

    constructor (filename: string)
      ensures this.filename == filename
    {
      this.filename := filename;
    }

    method SetFilename(filename: string)
      modifies this
      ensures this.filename == filename
    {
      this.filename := filename;
    }

    /** `decodeImage()`. `ext` is the extension of `filename` and `img` the
        image it names. A file that is not a `.png` raises NonPngImageError
        before the image is read; otherwise the payload the header announces
        is read and converted to text. Decoding only reads the image. */
    method DecodeImage(ext: string, img: Image) returns (r: Result<string>)
      requires img.Valid()
      requires ext == ".png" ==> Decodable(img.data[..], img.width, img.height, img.bands)
      ensures ext != ".png" ==> r == Failure(NonPngImage)
      ensures ext == ".png" ==> r == BinaryToText(PayloadOf(img.data[..], img.width, img.height, img.bands))
    {
      if ext != ".png" {
        return Failure(NonPngImage);
      }
      var binMes := ExtractPayload(img);
      r := BinaryToMessage(binMes, BinaryStringLength);
    }
  }
}
