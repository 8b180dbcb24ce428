/** Text to bits and back, as every variant of `messageToBinary` and
    `binaryToMessage` does it: one `bin(ord(ch))[2:].zfill(8)` numeral per
    character, and `chr(int(group, 2))` per group of 8 digits. */
module Text {
  import opened Binary
  import opened Errors
  import opened Utils

  /** `message.encode("ascii")` succeeds: every code point is below 128. */
  predicate IsAscii(m: string)
  {
    forall k :: 0 <= k < |m| ==> m[k] as int < 128
  }

  /** Every code point is below 256, so every numeral has at most 8 digits. */
  predicate IsByteText(m: string)
  {
    forall k :: 0 <= k < |m| ==> m[k] as int < 256
  }

  /** `bin(ord(ch))[2:].zfill(8)`. */
  function CharBits(ch: char): Bits
  {
    ZFill(Bin(ch as int), 8)
  }

  /** Digits 8k to 8k + 7: the k-th group of 8. */
  function Group(bs: Bits, k: nat): Bits
    requires 8 * k + 8 <= |bs|
  {
    bs[8 * k..8 * k + 8]
  }

  /** The string the conversion loop builds: the numerals of the characters, in order. */
  function CharsToBinary(m: string): Bits
  {
    if m == [] then [] else CharsToBinary(m[..|m| - 1]) + CharBits(m[|m| - 1])
  }

  /** `chr(int(group, 2))` of an 8-digit group. */
  function ByteChar(group: Bits): char
    requires |group| == 8
  {
    ValueBound(group);
    Value(group) as char
  }

  /** The string the decoding loop builds: one character per group of 8 digits. */
  function GroupsToText(bs: Bits): string
    requires |bs| % 8 == 0
  {
    if bs == [] then [] else GroupsToText(bs[..|bs| - 8]) + [ByteChar(bs[|bs| - 8..])]
  }

  /** What `messageToBinary` of the package and of stegClass.py returns or raises. */
  function AsciiBinary(m: string): Result<Bits>
  {
    if IsAscii(m) then Success(CharsToBinary(m)) else Failure(NonAsciiCharacter)
  }

  /** What `binaryToMessage` of the package and of stegClass.py returns or raises. */
  function BinaryToText(bs: Bits): Result<string>
  {
    if |bs| % 8 != 0 then Failure(BinaryStringLength) else Success(GroupsToText(bs))
  }

  /** `messageToBinary` of the package and of stegClass.py: the ASCII check
      (`message.encode("ascii")`), then the conversion loop. */
  method MessageToBinary(message: string) returns (r: Result<Bits>)
    ensures r == AsciiBinary(message)
  {
    if !IsAscii(message) {
      return Failure(NonAsciiCharacter);
    }
    var binaryMessage := AppendCharBits(message);
    r := Success(binaryMessage);
  }

  /** `binaryToMessage`: raise `lengthError` (BinaryStringLengthError, or the
      bare Exception of steg.py) when the length is not a multiple of 8,
      otherwise decode group by group. */
  method BinaryToMessage(binaryStr: Bits, lengthError: StegError) returns (r: Result<string>)
    ensures |binaryStr| % 8 != 0 ==> r == Failure(lengthError)
    ensures |binaryStr| % 8 == 0 ==> r == Success(GroupsToText(binaryStr))
  {
    if |binaryStr| % 8 != 0 {
      return Failure(lengthError);
    }
    var message := ReadGroups(binaryStr);
    r := Success(message);
  }

  /** The loop shared by every `messageToBinary`: append each character's
      8-digit numeral to the string built so far. */
  method AppendCharBits(message: string) returns (binaryMessage: Bits)
    ensures binaryMessage == CharsToBinary(message)
  {
    binaryMessage := [];
    for k := 0 to |message|
      invariant binaryMessage == CharsToBinary(message[..k])
    {
      assert message[..k + 1][..k] == message[..k];
      var binChar := Bin(message[k] as int);
      binaryMessage := binaryMessage + ZFill(binChar, 8);
    }
    assert message[..|message|] == message;
  }

  /** The loop shared by every `binaryToMessage`: `for i in range(8, len + 1, 8)`,
      appending `chr(int(binaryStr[i - 8:i], 2))`. */
  method ReadGroups(binaryStr: Bits) returns (message: string)
    requires |binaryStr| % 8 == 0
    ensures message == GroupsToText(binaryStr)
  {
    message := "";
    var i := 8;
    ghost var k := 0;
    while i <= |binaryStr|
      invariant i == 8 * k + 8 && 8 * k <= |binaryStr|
      invariant message == GroupsToText(binaryStr[..8 * k])
    {
      GroupsStep(binaryStr, k);
      var byteAsDecimal := Value(binaryStr[i - 8..i]);
      message := message + [byteAsDecimal as char];
      i := i + 8;
      k := k + 1;
    }
    DivModUnique(|binaryStr|, 8, k, |binaryStr| - 8 * k);
    assert binaryStr[..8 * k] == binaryStr;
  }

  /** Decoding group k of the input appends one character. */
  lemma GroupsStep(bs: Bits, k: nat)
    requires 8 * k + 8 <= |bs|
    ensures Value(bs[8 * k..8 * k + 8]) < 256
    ensures GroupsToText(bs[..8 * k + 8]) == GroupsToText(bs[..8 * k]) + [Value(bs[8 * k..8 * k + 8]) as char]
  {
    ValueBound(bs[8 * k..8 * k + 8]);
    assert bs[..8 * k + 8][..8 * k] == bs[..8 * k];
    assert bs[..8 * k + 8][8 * k..] == bs[8 * k..8 * k + 8];
  }

  /** A code point below 256 becomes exactly 8 digits, its big-endian numeral. */
  lemma CharBitsOfByte(ch: char)
    requires ch as int < 256
    ensures |CharBits(ch)| == 8 && Value(CharBits(ch)) == ch as int
  {
    CharBitsLength(ch);
    ZFillMeaning(Bin(ch as int), 8);
    ValueOfBin(ch as int);
  }

  lemma CharBitsLength(ch: char)
    requires ch as int < 256
    ensures |CharBits(ch)| == 8
  {
    BinLengthIsLeast(ch as int, 8);
  }

  /** A code point of 256 or more becomes more than 8 digits. */
  lemma CharBitsOfWide(ch: char)
    requires ch as int >= 256
    ensures |CharBits(ch)| > 8
  {
    BinLength(ch as int);
    if |Bin(ch as int)| <= 8 {
      Pow2Monotone(|Bin(ch as int)|, 8);
    }
  }

  /** For text of code points below 256 the conversion gives 8 digits per
      character, and block k is the numeral of character k. */
  lemma {:induction false} CharsToBinaryBlocks(m: string)
    requires IsByteText(m)
    ensures |CharsToBinary(m)| == 8 * |m|
    ensures forall k {:trigger Group(CharsToBinary(m), k)} :: 0 <= k < |m| ==> Group(CharsToBinary(m), k) == CharBits(m[k])
  {
    if m != [] {
      var init, last := m[..|m| - 1], m[|m| - 1];
      CharsToBinaryBlocks(init);
      CharBitsLength(last);
      assert CharsToBinary(m) == CharsToBinary(init) + CharBits(last);
      forall k | 0 <= k < |m|
        ensures Group(CharsToBinary(m), k) == CharBits(m[k])
      {
        if k < |m| - 1 {
          assert init[k] == m[k];
          GroupOfPrefix(CharsToBinary(init), CharBits(last), k);
        } else {
          GroupOfSuffix(CharsToBinary(init), CharBits(last), |init|);
        }
      }
    }
  }

  lemma GroupOfPrefix(a: Bits, b: Bits, k: nat)
    requires 8 * k + 8 <= |a|
    ensures Group(a + b, k) == Group(a, k)
  {
    assert (a + b)[8 * k..8 * k + 8] == a[8 * k..8 * k + 8];
  }

  lemma GroupOfSuffix(a: Bits, b: Bits, n: nat)
    requires |a| == 8 * n && |b| == 8
    ensures Group(a + b, n) == b
  {
    assert (a + b)[|a|..|a| + |b|] == b;
  }

  /** Block k of the conversion is the big-endian numeral of character k. */
  lemma CharsToBinaryValues(m: string)
    requires IsByteText(m)
    ensures |CharsToBinary(m)| == 8 * |m|
    ensures forall k {:trigger Group(CharsToBinary(m), k)} :: 0 <= k < |m| ==> Value(Group(CharsToBinary(m), k)) == m[k] as int
  {
    CharsToBinaryBlocks(m);
    forall k | 0 <= k < |m|
      ensures Value(Group(CharsToBinary(m), k)) == m[k] as int
    {
      CharBitsOfByte(m[k]);
    }
  }

  /** Every character contributes at least 8 digits, and a character of 256 or
      more contributes more. */
  lemma {:induction false} CharsToBinaryLength(m: string)
    ensures |CharsToBinary(m)| >= 8 * |m|
    ensures !IsByteText(m) ==> |CharsToBinary(m)| > 8 * |m|
  {
    if m != [] {
      var init := m[..|m| - 1];
      var last := m[|m| - 1];
      CharsToBinaryLength(init);
      if last as int >= 256 {
        CharBitsOfWide(last);
      }
      if !IsByteText(m) && IsByteText(init) {
        assert last as int >= 256 by {
          var k :| 0 <= k < |m| && m[k] as int >= 256;
          if k < |m| - 1 {
            assert init[k] == m[k];
          }
        }
      }
    }
  }

  /** Decoding gives one character per 8 digits: character k is `chr` of
      digits 8k..8k+7 read big-endian. */
  lemma {:induction false} GroupsToTextChars(bs: Bits)
    requires |bs| % 8 == 0
    ensures |GroupsToText(bs)| == |bs| / 8
    ensures forall k :: 0 <= k < |bs| / 8 ==> GroupsToText(bs)[k] as int == Value(Group(bs, k))
  {
    if bs != [] {
      var init := bs[..|bs| - 8];
      GroupsToTextChars(init);
      var t := GroupsToText(bs);
      forall k | 0 <= k < |bs| / 8
        ensures t[k] as int == Value(Group(bs, k))
      {
        if k < |bs| / 8 - 1 {
          assert Group(bs, k) == Group(init, k);
        } else {
          assert Group(bs, k) == bs[|bs| - 8..];
          ValueBound(bs[|bs| - 8..]);
        }
      }
    }
  }

  /** Decoding undoes encoding for every text of code points below 256. */
  lemma {:induction false} TextRoundTrip(m: string)
    requires IsByteText(m)
    ensures |CharsToBinary(m)| % 8 == 0 && GroupsToText(CharsToBinary(m)) == m
  {
    if m != [] {
      var init := m[..|m| - 1];
      var last := m[|m| - 1];
      assert m == init + [last];
      assert IsByteText(init);
      TextRoundTrip(init);
      CharBitsOfByte(last);
      GroupsToTextAppend(CharsToBinary(init), CharBits(last));
    }
  }

  /** Decoding a string followed by one more group appends one character. */
  lemma GroupsToTextAppend(bs: Bits, group: Bits)
    requires |bs| % 8 == 0 && |group| == 8
    ensures |bs + group| % 8 == 0
    ensures GroupsToText(bs + group) == GroupsToText(bs) + [ByteChar(group)]
  {
    var b := bs + group;
    assert b[..|b| - 8] == bs;
    assert b[|b| - 8..] == group;
  }

  /** Encoding undoes decoding: every bit string of whole bytes is the
      conversion of the text it decodes to. */
  lemma {:induction false} BitsRoundTrip(bs: Bits)
    requires |bs| % 8 == 0
    ensures CharsToBinary(GroupsToText(bs)) == bs
  {
    if bs != [] {
      var init := bs[..|bs| - 8];
      var group := bs[|bs| - 8..];
      assert bs == init + group;
      GroupsToTextAppend(init, group);
      BitsRoundTrip(init);
      var ch := ByteChar(group);
      CharsToBinaryAppend(GroupsToText(init), ch);
      ByteCharBits(group);
    }
  }

  lemma CharsToBinaryAppend(m: string, ch: char)
    ensures CharsToBinary(m + [ch]) == CharsToBinary(m) + CharBits(ch)
  {
    assert (m + [ch])[..|m|] == m;
  }

  /** An 8-digit group is the numeral of the character it decodes to. */
  lemma ByteCharBits(group: Bits)
    requires |group| == 8
    ensures CharBits(ByteChar(group)) == group
  {
    var ch := ByteChar(group);
    ValueBound(group);
    CharBitsOfByte(ch);
    ValueInjective(CharBits(ch), group);
  }

  /** The package's conversion: it fails exactly on non-ASCII text, and
      otherwise gives 8 big-endian digits per character that decode back to the text. */
  lemma AsciiBinaryMeaning(m: string)
    ensures AsciiBinary(m).Failure? <==> exists k :: 0 <= k < |m| && m[k] as int >= 128
    ensures AsciiBinary(m).Failure? ==> AsciiBinary(m).error == NonAsciiCharacter
    ensures AsciiBinary(m).Success? ==>
      |AsciiBinary(m).value| == 8 * |m| &&
      (forall k :: 0 <= k < |m| ==> Value(Group(AsciiBinary(m).value, k)) == m[k] as int) &&
      BinaryToText(AsciiBinary(m).value) == Success(m)
  {
    if IsAscii(m) {
      CharsToBinaryValues(m);
      TextRoundTrip(m);
    }
  }

  /** Without the ASCII check (steg.py), decoding the conversion gives the text
      back exactly when every code point is below 256. */
  lemma ByteTextRoundTripIff(m: string)
    ensures BinaryToText(CharsToBinary(m)) == Success(m) <==> IsByteText(m)
  {
    if IsByteText(m) {
      TextRoundTrip(m);
    } else {
      CharsToBinaryLength(m);
      var b := CharsToBinary(m);
      if |b| % 8 == 0 {
        GroupsToTextChars(b);
        assert |GroupsToText(b)| > |m|;
      }
    }
  }
}
