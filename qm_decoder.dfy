/**
 * The trailer resolver of QMDecoder.swift, over the file held in memory.
 *
 * An encrypted file is the encrypted audio followed by a trailer that says
 * how to decrypt it:
 *
 *  - a mobile file ends in "QTag": before the marker a big-endian 32-bit
 *    length L, before that L bytes of key region whose part up to the first
 *    comma is the Base64 key blob;
 *  - a desktop file ends in a little-endian 32-bit length L below 0x300,
 *    preceded by the L-byte key blob;
 *  - any other file is decrypted whole with the fixed 256-byte private key.
 *
 * A key blob is unwrapped by deriveKey; a derived key longer than 300 bytes
 * selects the RC4 cipher, a shorter one the map cipher.
 */
module QMDecoding {
  import opened ByteOrder
  import opened Results
  import opened QMCKeyDecoder
  import opened QMCiphers

  /** The errors searchKey, setCipher and decryptAndWriteToFile throw, with those of the decoders they call. */
  datatype DecoderError =
    | UnsupportFileExtension(ext: string)
    | CanNotReadFile
    | CanNotReadRawKeyBuffer
    | SearchRawKeyFailed
    | KeyDecodingFailed(cause: QMCKeyDecoderError)
    | CipherFailed(reason: QMCipherError)

  /** Character(",").asciiValue */
  const Comma: Byte := 44

  /** The UTF-8 bytes of "QTag". */
  const QTag: seq<Byte> := [0x51, 0x54, 0x61, 0x67]

  /** A desktop trailer length at or above this means there is no key blob. */
  const DesktopKeyLimit: nat := 0x300

  /** A derived key longer than this selects the RC4 cipher. */
  const RC4KeyThreshold: nat := 300

  type Key256 = s: seq<Byte> | |s| == 256 witness seq(256, _ => 0)

  /** privateKey256, a table defined outside the decoder; only its length matters here. */
  const PrivateKey256: Key256

  /** The bytes FileHandle.read(upToCount:) returns at position `at`: nil when none are left. */
  function ReadUpTo(file: seq<Byte>, at: nat, count: nat): (r: Option<seq<Byte>>)
    requires at <= |file|
    ensures r.Some? <==> at < |file| && count > 0
    ensures r.Some? ==> r.value == file[at..Min(at + count, |file|)]
  {
    var bytes := file[at..Min(at + count, |file|)];
    if |bytes| == 0 then None else Some(bytes)
  }

  /** Data.firstIndex(of:) */
  function FirstIndexOf(s: seq<Byte>, b: Byte): (r: Option<nat>)
    ensures r.None? ==> forall j :: 0 <= j < |s| ==> s[j] != b
    ensures r.Some? ==> r.value < |s| && s[r.value] == b && forall j :: 0 <= j < r.value ==> s[j] != b
  {
    if |s| == 0 then None
    else if s[0] == b then Some(0)
    else match FirstIndexOf(s[1..], b)
      case None => None
      case Some(i) => Some(i + 1)
  }

  /** setCipher as a function of the key blob: deriveKey, then the cipher the derived key's length selects. */
  function ChosenCipher(keyBuffer: seq<Byte>, base64Decode: seq<Byte> -> Option<seq<Byte>>): (r: Result<CipherChoice, DecoderError>)
    ensures DerivedKey(keyBuffer, base64Decode).Failure? ==> r == Failure(KeyDecodingFailed(DerivedKey(keyBuffer, base64Decode).error))
    ensures r.Success? ==> DerivedKey(keyBuffer, base64Decode) == Success(r.value.key)
  {
    match DerivedKey(keyBuffer, base64Decode)
    case Failure(e) => Failure(KeyDecodingFailed(e))
    case Success(decodedKey) => CipherFor(decodedKey)
  }

  /** The cipher setCipher builds from a derived key: RC4 above 300 bytes, the map cipher otherwise; both refuse an empty key. */
  function CipherFor(decodedKey: seq<Byte>): (r: Result<CipherChoice, DecoderError>)
    ensures r.Success? <==> |decodedKey| > 0
    ensures r.Success? ==> r.value.key == decodedKey && !r.value.StaticChoice?
    ensures r.Success? ==> (r.value.RC4Choice? <==> |decodedKey| > RC4KeyThreshold)
  {
    if |decodedKey| == 0 then Failure(CipherFailed(InvalidKeyLength))
    else if |decodedKey| > RC4KeyThreshold then Success(RC4Choice(decodedKey))
    else Success(MapChoice(decodedKey))
  }

  /** The second half of setCipher: the throwing initialiser of the cipher the key's length selects. */
  method MakeCipher(decodedKey: seq<Byte>) returns (r: Result<QMCipher, DecoderError>)
    ensures match CipherFor(decodedKey)
      case Failure(e) => r == Failure(e)
      case Success(choice) => r.Success? && fresh(r.value.Object()) && Describes(r.value, choice)
  {
    if |decodedKey| > RC4KeyThreshold {
      var c := new RC4Cipher(decodedKey);
      r := Success(RC4(c));
    } else {
      var c := MapCipher.Create(decodedKey);
      if c.Failure? {
        return Failure(CipherFailed(c.error));
      }
      r := Success(Map(c.value));
    }
  }

  /**
   * The files searchKey handles without trapping: at least four bytes, at
   * least eight behind a "QTag", and a trailer length that fits in the file
   * (Swift traps on the negative seek otherwise).
   */
  ghost predicate Searchable(file: seq<Byte>) {
    var len := |file|;
    len >= 4
    && (file[len - 4..] == QTag ==> len >= 8 && BE32(file, len - 8) + 8 <= len)
    && (file[len - 4..] != QTag && LE32(file, len - 4) < DesktopKeyLimit ==> LE32(file, len - 4) + 4 <= len)
  }

  /** Where searchKey finds the key: a blob for setCipher, or the fixed private key. */
  datatype KeySource = Blob(keyBuffer: seq<Byte>) | Private

  /** The trailer as searchKey reads it: realAudioSize, and the key source or the error thrown. */
  datatype Trailer = Trailer(realAudioSize: nat, key: Result<KeySource, DecoderError>)

  /** The reading half of searchKey, as a function of the file's bytes. */
  function LocatedKey(file: seq<Byte>): (t: Trailer)
    requires Searchable(file)
    ensures t.realAudioSize <= |file|
  {
    var len := |file|;
    if file[len - 4..] == QTag then
      var keySize := BE32(file, len - 8);
      var realAudioSize := len - keySize - 8;
      match ReadUpTo(file, realAudioSize, keySize)
      case None => Trailer(realAudioSize, Failure(CanNotReadRawKeyBuffer))
      case Some(rawKey) =>
        match FirstIndexOf(rawKey, Comma)
        case None => Trailer(realAudioSize, Failure(SearchRawKeyFailed))
        case Some(keyEndIndex) => Trailer(realAudioSize, Success(Blob(rawKey[..keyEndIndex])))
    else
      var keySize := LE32(file, len - 4);
      if keySize < DesktopKeyLimit then
        var realAudioSize := len - keySize - 4;
        match ReadUpTo(file, realAudioSize, keySize)
        case None => Trailer(realAudioSize, Failure(CanNotReadRawKeyBuffer))
        case Some(rawKey) => Trailer(realAudioSize, Success(Blob(rawKey)))
      else Trailer(len, Success(Private))
  }

  /** What searchKey leaves behind: realAudioSize, and the chosen cipher or the error thrown. */
  datatype KeySearch = KeySearch(realAudioSize: nat, cipher: Result<CipherChoice, DecoderError>)

  /** searchKey as a function of the file's bytes: read the trailer, then setCipher on the blob it names. */
  function SearchedKey(file: seq<Byte>, base64Decode: seq<Byte> -> Option<seq<Byte>>): (s: KeySearch)
    requires Searchable(file)
    ensures s.realAudioSize <= |file|
    ensures s.cipher.Success? && s.cipher.value.StaticChoice? ==> s.realAudioSize == |file| && s.cipher.value.key == PrivateKey256
  {
    var t := LocatedKey(file);
    KeySearch(t.realAudioSize,
      match t.key
      case Failure(e) => Failure(e)
      case Success(Blob(keyBuffer)) => ChosenCipher(keyBuffer, base64Decode)
      case Success(Private) => Success(StaticChoice(PrivateKey256)))
  }

  /** The four little-endian bytes of w. */
  function LE32Bytes(w: Word): (r: seq<Byte>)
    ensures |r| == 4
  {
    var be := BE32Bytes(w);
    [be[3], be[2], be[1], be[0]]
  }

  // ---------------------------------------------------------------------------
  // What the resolver recovers from files laid out as the formats prescribe
  // ---------------------------------------------------------------------------

  /**
   * A mobile file: the audio, a key region holding the blob and a comma, the
   * region's length big-endian and "QTag". The resolver finds the audio's
   * length and the blob.
   */
  lemma MobileFileResolves(audio: seq<Byte>, blob: seq<Byte>, rest: seq<Byte>)
    requires Comma !in blob
    requires |blob| + 1 + |rest| < Modulus
    ensures var region := blob + [Comma] + rest;
      var file := audio + region + BE32Bytes(|region|) + QTag;
      Searchable(file) && LocatedKey(file) == Trailer(|audio|, Success(Blob(blob)))
  {
    var region := blob + [Comma] + rest;
    MobileLayout(audio, region);
    FirstIndexOfBlob(blob, rest);
    assert region[..|blob|] == blob;
    MobileSearch(audio + region + BE32Bytes(|region|) + QTag, region, blob, |audio|);
  }

  /** The trailer of a mobile file: "QTag" last, the region's length before it, the region before that. */
  lemma MobileLayout(audio: seq<Byte>, region: seq<Byte>)
    requires |region| < Modulus
    ensures var file := audio + region + BE32Bytes(|region|) + QTag;
      var len := |file|;
      len >= 8 && file[len - 4..] == QTag && BE32(file, len - 8) == |region|
      && |region| + 8 <= len && file[len - 8 - |region|..len - 8] == region && len - |region| - 8 == |audio|
  {
    var file := audio + region + BE32Bytes(|region|) + QTag;
    var len := |file|;
    assert file[len - 4..] == QTag;
    assert BE32(file, len - 8) == |region| by {
      assert file[len - 8..len - 4] == BE32Bytes(|region|)[0..4];
      BE32OfBytes(|region|);
    }
    assert file[len - 8 - |region|..len - 8] == region;
  }

  /** searchKey on a file ending in "QTag" whose key region holds the blob and then a comma. */
  lemma MobileSearch(file: seq<Byte>, region: seq<Byte>, blob: seq<Byte>, audioSize: nat)
    requires |file| >= 8 && file[|file| - 4..] == QTag && BE32(file, |file| - 8) == |region|
    requires |region| + 8 <= |file| && file[|file| - 8 - |region|..|file| - 8] == region
    requires |file| - |region| - 8 == audioSize
    requires FirstIndexOf(region, Comma) == Some(|blob|) && region[..|blob|] == blob
    ensures Searchable(file)
    ensures LocatedKey(file) == Trailer(audioSize, Success(Blob(blob)))
  {
    assert ReadUpTo(file, audioSize, |region|) == Some(region);
    assert LocatedKey(file) == Trailer(audioSize, Success(Blob(region[..|blob|])));
  }

  lemma FirstIndexOfBlob(blob: seq<Byte>, rest: seq<Byte>)
    requires Comma !in blob
    ensures FirstIndexOf(blob + [Comma] + rest, Comma) == Some(|blob|)
  {
    var r := FirstIndexOf(blob + [Comma] + rest, Comma);
    assert (blob + [Comma] + rest)[|blob|] == Comma;
    if r.None? || r.value != |blob| {
      assert false;
    }
  }

  /** A desktop file: the audio, the blob, and the blob's length little-endian, below 0x300. */
  lemma DesktopFileResolves(audio: seq<Byte>, blob: seq<Byte>)
    requires 0 < |blob| < DesktopKeyLimit
    ensures var file := audio + blob + LE32Bytes(|blob|);
      Searchable(file) && LocatedKey(file) == Trailer(|audio|, Success(Blob(blob)))
  {
    var file := audio + blob + LE32Bytes(|blob|);
    var len := |file|;
    var le := LE32Bytes(|blob|);
    assert file[len - 4..] == le;
    assert le[3] == 0;
    assert file[len - 4..] != QTag by {
      assert file[len - 4..][3] == 0 != QTag[3];
    }
    assert [file[len - 1], file[len - 2], file[len - 3], file[len - 4]] == BE32Bytes(|blob|);
    BE32OfBytes(|blob|);
    assert LE32(file, len - 4) == |blob|;
    assert file[|audio|..|audio| + |blob|] == blob;
  }

  /** A file with no "QTag" whose last four bytes read little-endian as 0x300 or more is decrypted whole with the private key. */
  lemma FixedKeyFileResolves(file: seq<Byte>, base64Decode: seq<Byte> -> Option<seq<Byte>>)
    requires |file| >= 4 && file[|file| - 4..] != QTag && LE32(file, |file| - 4) >= DesktopKeyLimit
    ensures Searchable(file)
    ensures SearchedKey(file, base64Decode) == KeySearch(|file|, Success(StaticChoice(PrivateKey256)))
  {
  }

  /**
   * The audio, the key region and the trailer tile the file: the audio is
   * the prefix of length realAudioSize and the trailer takes 8 bytes
   * (mobile) or 4 bytes (desktop) after the region.
   */
  lemma LocatedKeyTiles(file: seq<Byte>)
    requires Searchable(file)
    ensures var t := LocatedKey(file);
      var len := |file|;
      if file[len - 4..] == QTag then t.realAudioSize + BE32(file, len - 8) + 8 == len
      else if LE32(file, len - 4) < DesktopKeyLimit then t.realAudioSize + LE32(file, len - 4) + 4 == len
      else t.realAudioSize == len
  {
  }

  /** A derived key is never empty, so setCipher never meets invalidKeyLength. */
  lemma ChosenCipherNeverRejectsKey(keyBuffer: seq<Byte>, base64Decode: seq<Byte> -> Option<seq<Byte>>)
    ensures ChosenCipher(keyBuffer, base64Decode) != Failure(CipherFailed(InvalidKeyLength))
  {
    var d := DerivedKey(keyBuffer, base64Decode);
    if d.Success? {
      DerivedKeyShape(keyBuffer, base64Decode);
      assert |d.value| >= 8;
    }
  }

  /** A blob that unwraps to the key k selects RC4 exactly when k is longer than 300 bytes. */
  lemma ChosenCipherOfWrap(rawKey: seq<Byte>, base64Decode: seq<Byte> -> Option<seq<Byte>>, prefix: seq<Byte>,
                           marker: Byte, padding: seq<Byte>, salt: seq<Byte>, payload: seq<Byte>, tail: seq<Byte>)
    requires |prefix| == 8 && |padding| == 6 && |salt| == SaltLength && |tail| == ZeroLength
    requires marker & 7 == 6 && tail[0] == 0 && |payload| % 8 == 0
    requires base64Decode(rawKey) == Some(prefix + TencentTeaEncrypt(TeaKeyOf(prefix), Frame(marker, padding, salt, payload, tail)))
    ensures var k := prefix + payload;
      ChosenCipher(rawKey, base64Decode) == if |k| > RC4KeyThreshold then Success(RC4Choice(k)) else Success(MapChoice(k))
  {
    DerivedKeyOfWrap(rawKey, base64Decode, prefix, marker, padding, salt, payload, tail);
  }

  // ---------------------------------------------------------------------------
  // The decoder object
  // ---------------------------------------------------------------------------

  /** QMDecoder, with the file at originFilePath held as its bytes. */
  class QMDecoder {
    const file: seq<Byte>
    const originFileLength: nat
    var realAudioSize: int
    var cipher: Option<QMCipher>

    /** The stored properties init sets before it calls searchKey. */
    constructor (file: seq<Byte>)
      ensures this.file == file && originFileLength == |file|
      ensures realAudioSize == 0 && cipher == None
    {
      this.file := file;
      originFileLength := |file|;
      realAudioSize := 0;
      cipher := None;
    }

    /** init: the decoder exists only when searchKey does not throw. */
    static method Create(file: seq<Byte>, base64Decode: seq<Byte> -> Option<seq<Byte>>) returns (r: Result<QMDecoder, DecoderError>)
      requires Searchable(file)
      ensures var s := SearchedKey(file, base64Decode);
        match s.cipher
        case Failure(e) => r == Failure(e)
        case Success(choice) =>
          r.Success? && fresh(r.value) && r.value.file == file && r.value.realAudioSize == s.realAudioSize
          && r.value.cipher.Some? && fresh(r.value.cipher.value.Object()) && Describes(r.value.cipher.value, choice)
    {
      var decoder := new QMDecoder(file);
      var searched := decoder.SearchKey(base64Decode);
      if searched.Failure? {
        return Failure(searched.error);
      }
      r := Success(decoder);
    }

    /** searchKey: read the trailer, set realAudioSize, and set the cipher or throw. */
    method SearchKey(base64Decode: seq<Byte> -> Option<seq<Byte>>) returns (r: Result<(), DecoderError>)
      requires Searchable(file) && originFileLength == |file|
      modifies this
      ensures var s := SearchedKey(file, base64Decode);
        realAudioSize == s.realAudioSize
        && match s.cipher
           case Failure(e) => r == Failure(e) && cipher == old(cipher)
           case Success(choice) => r.Success? && cipher.Some? && fresh(cipher.value.Object()) && Describes(cipher.value, choice)
    {
      var lastFourBytes := file[originFileLength - 4..];
      if lastFourBytes == QTag {
        var keySize := BE32(file, originFileLength - 8);
        realAudioSize := originFileLength - keySize - 8;
        var rawKey := ReadUpTo(file, realAudioSize, keySize);
        if rawKey.None? {
          return Failure(CanNotReadRawKeyBuffer);
        }
        var keyEndIndex := FirstIndexOf(rawKey.value, Comma);
        if keyEndIndex.None? {
          return Failure(SearchRawKeyFailed);
        }
        r := SetCipher(rawKey.value[..keyEndIndex.value], base64Decode);
      } else {
        var keySize := LE32(lastFourBytes, 0);
        if keySize < DesktopKeyLimit {
          realAudioSize := originFileLength - keySize - 4;
          var rawKey := ReadUpTo(file, realAudioSize, keySize);
          if rawKey.None? {
            return Failure(CanNotReadRawKeyBuffer);
          }
          r := SetCipher(rawKey.value, base64Decode);
        } else {
          realAudioSize := originFileLength;
          var c := new StaticCipher(PrivateKey256);
          cipher := Some(Static(c));
          r := Success(());
        }
      }
    }

    /** setCipher: derive the key, then RC4 above 300 bytes and the map cipher otherwise. */
    method SetCipher(keyBuffer: seq<Byte>, base64Decode: seq<Byte> -> Option<seq<Byte>>) returns (r: Result<(), DecoderError>)
      modifies this
      ensures realAudioSize == old(realAudioSize)
      ensures match ChosenCipher(keyBuffer, base64Decode)
        case Failure(e) => r == Failure(e) && cipher == old(cipher)
        case Success(choice) => r.Success? && cipher.Some? && fresh(cipher.value.Object()) && Describes(cipher.value, choice)
    {
      var decodedKey := DeriveKey(keyBuffer, base64Decode);
      if decodedKey.Failure? {
        return Failure(KeyDecodingFailed(decodedKey.error));
      }
      var c := MakeCipher(decodedKey.value);
      if c.Failure? {
        return Failure(c.error);
      }
      cipher := Some(c.value);
      r := Success(());
    }

    /**
     * decryptAndWriteToFile without the file system: the output extension
     * and the decrypted bytes that would be written. Only the first
     * realAudioSize bytes are read, and they are decrypted at offset 0.
     */
    method DecryptPayload(fileExtension: string, encryptExtDictionary: map<string, string>, quotient: SegmentQuotient)
      returns (r: Result<(string, seq<Byte>), DecoderError>)
      requires 0 <= realAudioSize
      requires cipher.Some? ==> CanDecrypt(cipher.value, 0, Min(realAudioSize, |file|))
      ensures |fileExtension| == 0 || fileExtension !in encryptExtDictionary || cipher.None? ==>
        r == Failure(UnsupportFileExtension(fileExtension))
      ensures |fileExtension| > 0 && fileExtension in encryptExtDictionary && cipher.Some? ==>
        if realAudioSize == 0 || |file| == 0 then r == Failure(CanNotReadFile)
        else r == Success((encryptExtDictionary[fileExtension], CipherDecrypt(cipher.value, Payload(), 0, quotient)))
    {
      if |fileExtension| > 0 && fileExtension in encryptExtDictionary && cipher.Some? {
        var extAndVersion := encryptExtDictionary[fileExtension];
        var fileData := ReadUpTo(file, 0, realAudioSize);
        if fileData.None? {
          return Failure(CanNotReadFile);
        }
        var decodeData := QmDecrypt(cipher.value, fileData.value, 0, quotient);
        r := Success((extAndVersion, decodeData));
      } else {
        r := Failure(UnsupportFileExtension(fileExtension));
      }
    }

    /** The bytes read(upToCount: realAudioSize) takes from the start of the file. */
    function Payload(): (p: seq<Byte>)
      requires 0 <= realAudioSize
      reads this
      ensures |p| == Min(realAudioSize, |file|) && p == file[..|p|]
    {
      file[..Min(realAudioSize, |file|)]
    }
  }
}
