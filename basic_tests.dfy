/** basicTests.py: the round trip the test suite checks on each picture, one
    encoder and one decoder reused across pictures. */
module BasicTests {
  import opened Binary
  import opened Errors
  import opened Utils
  import opened Raster
  import opened Text
  import opened Lsb
  import PackageEncoder
  import PackageDecoder

  /** `testPictures()` for one picture: an ASCII message whose frame fits the
      picture is set on the encoder, hidden in the picture saved as `.png`,
      and the decoder pointed at that file reads the same message back. */
  method TestPicture(enc: PackageEncoder.Encoder, dec: PackageDecoder.Decoder, img: Image,
                     secretMessage: string, fileOut: string)
      returns (returnedMes: Result<string>)
    requires enc.Valid() && img.Valid()
    requires IsAscii(secretMessage)
    requires HeaderLength(img.width, img.height, img.bands) + 8 * |secretMessage| <= img.data.Length
    modifies enc, dec, img.data
    ensures returnedMes == Success(secretMessage)
    ensures enc.Valid() && enc.message == secretMessage && dec.filename == fileOut
  {
    var setResult := enc.SetMessage(secretMessage);
    AsciiBinaryMeaning(secretMessage);
    CodeImageMeaning(img.data[..], img.width, img.height, img.bands, enc.binaryMessage);
    CodeThenExtract(img.data[..], img.width, img.height, img.bands, enc.binaryMessage);
    var created := enc.CreateCodeImage(Some(".png"), img);
    dec.SetFilename(fileOut);
    returnedMes := dec.DecodeImage(".png", img);
  }
}
