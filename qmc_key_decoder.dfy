/**
 * Unwrapping of the key blob found at the end of a QMC file.
 *
 * The blob is Base64; once decoded, its first 8 bytes are kept as they are and
 * the rest is a Tencent "TEA in chained mode" ciphertext whose 16-byte TEA key
 * interleaves a fixed 8-byte key with those first 8 bytes. The chained mode
 * decrypts block k as T_k = decrypt(C_k XOR T_{k-1}), and the plain byte at
 * flat position f = 8k + j is T_k[j] XOR C_{k-1}[j]. The plain stream is
 * framed as one marker byte whose low three bits give the padding length, the
 * padding, two salt bytes, the payload and seven zero bytes.
 */
module QMCKeyDecoder {
  import opened ByteOrder
  import opened Results
  import opened Tea

  datatype QMCKeyDecoderError =
    | InBufferSizeInvalidWithBlockSize
    | InBufferSizeToSmall
    | ZeroCheckFailed
    | CanNotConstructBase64Key
    | KeyLengthTooShort
    | InvalidPaddingLength
    | TeaCipherFailed(cause: TeaCipherError)

  const SaltLength: nat := 2
  const ZeroLength: nat := 7
  /** The chained mode runs TEA with 32 rounds (16 cycles). */
  const ChainRounds: Word := 32

  /**
   * The 8 bytes that simpleMakeKey(seed: 106, length: 8) produces:
   * byte i is UInt8(|tan(106 + 0.1 * i)| * 100), worked out once.
   */
  const SimpleKey: seq<Byte> := [0x69, 0x56, 0x46, 0x38, 0x2B, 0x20, 0x15, 0x0B]

  const ZeroBlock: seq<Byte> := [0, 0, 0, 0, 0, 0, 0, 0]

  /** Block k (bytes [8k, 8k+8)) of s. */
  function BlockAt(s: seq<Byte>, k: nat): (b: seq<Byte>)
    requires 8 * k + 8 <= |s|
    ensures |b| == 8
  {
    s[8 * k..8 * k + 8]
  }

  lemma BlockAtIndex(s: seq<Byte>, k: nat, j: nat)
    requires 8 * k + 8 <= |s| && j < 8
    ensures BlockAt(s, k)[j] == s[8 * k + j]
  {
  }

  // ---------------------------------------------------------------------------
  // The chained mode, over any 8-byte block cipher
  // ---------------------------------------------------------------------------

  /** A block cipher on 8-byte blocks, given by its two directions. */
  datatype BlockCipher = BlockCipher(encrypt: seq<Byte> -> seq<Byte>, decrypt: seq<Byte> -> seq<Byte>)

  /** Both directions map blocks to blocks and undo each other. */
  ghost predicate IsBlockCipher(bc: BlockCipher) {
    && (forall b: seq<Byte> | |b| == 8 :: |bc.encrypt(b)| == 8)
    && (forall b: seq<Byte> | |b| == 8 :: |bc.decrypt(b)| == 8)
    && (forall b: seq<Byte> {:trigger bc.decrypt(bc.encrypt(b))} | |b| == 8 :: bc.decrypt(bc.encrypt(b)) == b)
    && (forall b: seq<Byte> {:trigger bc.encrypt(bc.decrypt(b))} | |b| == 8 :: bc.encrypt(bc.decrypt(b)) == b)
  }

  /** TEA with the given key words and 32 rounds, on the first 8 bytes of a block; a block cipher for every key. */
  function TeaBlocks(ks: KeySchedule): (bc: BlockCipher)
    ensures IsBlockCipher(bc)
  {
    var bc := BlockCipher(
      b => if |b| >= BlockSize then EncryptBlock(ks, ChainRounds, b) else b,
      b => if |b| >= BlockSize then DecryptBlock(ks, ChainRounds, b) else b);
    assert IsBlockCipher(bc) by {
      forall b: seq<Byte> | |b| == 8
        ensures bc.decrypt(bc.encrypt(b)) == b && bc.encrypt(bc.decrypt(b)) == b
      {
        DecryptBlockInvertsEncryptBlock(ks, ChainRounds, b);
        EncryptBlockInvertsDecryptBlock(ks, ChainRounds, b);
      }
    }
    bc
  }

  /** T_k: the decryption of ciphertext block k XORed with T_{k-1} (block 0 alone for k == 0). */
  function Chain(bc: BlockCipher, c: seq<Byte>, k: nat): (t: seq<Byte>)
    requires IsBlockCipher(bc) && 8 * k + 8 <= |c|
    ensures |t| == 8
    decreases k
  {
    if k == 0 then bc.decrypt(BlockAt(c, 0))
    else bc.decrypt(XorBytes(Chain(bc, c, k - 1), BlockAt(c, k)))
  }

  /** The byte at flat position f of the plain stream: T_{f/8}[f%8] XOR the previous ciphertext block's byte. */
  function PlainByte(bc: BlockCipher, c: seq<Byte>, f: nat): Byte
    requires IsBlockCipher(bc) && |c| % 8 == 0 && f < |c|
  {
    Chain(bc, c, f / 8)[f % 8] ^ (if f < 8 then 0 else c[f - 8])
  }

  /** The whole plain stream of a ciphertext made of whole blocks. */
  function PlainStream(bc: BlockCipher, c: seq<Byte>): (x: seq<Byte>)
    requires IsBlockCipher(bc) && |c| % 8 == 0
    ensures |x| == |c|
    ensures forall f :: 0 <= f < |c| ==> x[f] == PlainByte(bc, c, f)
  {
    seq(|c|, f requires 0 <= f < |c| => PlainByte(bc, c, f))
  }

  /**
   * The checks on a decrypted plain stream x of n bytes: the marker's low
   * three bits must make padding and salt fill the first block (padding 6),
   * flat position n - 7 must hold zero, and the payload is positions 9 .. n - 8
   * (after 1 marker byte, 6 padding bytes and 2 salt bytes).
   */
  function Unframe(x: seq<Byte>): (r: Result<seq<Byte>, QMCKeyDecoderError>)
    requires |x| >= 16
    ensures r.Success? ==> |r.value| == |x| - 16
  {
    if (x[0] & 7) as int + SaltLength != 8 then Failure(InvalidPaddingLength)
    else if x[|x| - 7] != 0 then Failure(ZeroCheckFailed)
    else Success(x[9..|x| - 7])
  }

  /** The chained-mode decryption of c followed by the checks on its plain stream. */
  function ChainedDecrypt(bc: BlockCipher, c: seq<Byte>): (r: Result<seq<Byte>, QMCKeyDecoderError>)
    requires IsBlockCipher(bc) && |c| % 8 == 0 && |c| >= 16
    ensures r.Success? ==> |r.value| == |c| - 16
  {
    Unframe(PlainStream(bc, c))
  }

  /**
   * decryptTencentTea as a function of its input: the two size checks, the
   * TEA key check, then the chained decryption with 32-round TEA.
   */
  function TencentTeaDecrypt(inBuffer: seq<Byte>, key: seq<Byte>): (r: Result<seq<Byte>, QMCKeyDecoderError>)
    ensures r.Success? ==> |r.value| == |inBuffer| - 16
  {
    if |inBuffer| % 8 != 0 then Failure(InBufferSizeInvalidWithBlockSize)
    else if |inBuffer| < 16 then Failure(InBufferSizeToSmall)
    else if |key| != KeySize then Failure(TeaCipherFailed(KeySizeInvalid))
    else ChainedDecrypt(TeaBlocks(ScheduleOf(key)), inBuffer)
  }

  // ---------------------------------------------------------------------------
  // The matching encryption, as the reference the decryption is checked against
  // ---------------------------------------------------------------------------

  /** (T_k, C_k) for the plain stream x: T_k = X_k XOR C_{k-1}, C_k = encrypt(T_k) XOR T_{k-1}. */
  function WrapStep(bc: BlockCipher, x: seq<Byte>, k: nat): (tc: (seq<Byte>, seq<Byte>))
    requires IsBlockCipher(bc) && 8 * k + 8 <= |x|
    ensures |tc.0| == 8 && |tc.1| == 8
    decreases k
  {
    if k == 0 then
      var t := BlockAt(x, 0);
      (t, bc.encrypt(t))
    else
      var prev := WrapStep(bc, x, k - 1);
      var t := XorBytes(BlockAt(x, k), prev.1);
      (t, XorBytes(bc.encrypt(t), prev.0))
  }

  /** C_0 ++ ... ++ C_{m-1}. */
  function WrapBlocks(bc: BlockCipher, x: seq<Byte>, m: nat): (c: seq<Byte>)
    requires IsBlockCipher(bc) && 8 * m <= |x|
    ensures |c| == 8 * m
    decreases m
  {
    if m == 0 then [] else WrapBlocks(bc, x, m - 1) + WrapStep(bc, x, m - 1).1
  }

  /** The chained-mode encryption of a plain stream made of whole blocks. */
  function WrapStream(bc: BlockCipher, x: seq<Byte>): (c: seq<Byte>)
    requires IsBlockCipher(bc) && |x| % 8 == 0
    ensures |c| == |x|
  {
    WrapBlocks(bc, x, |x| / 8)
  }

  /** The encryption the decryption below undoes: the chained mode over TEA with 32 rounds under a 16-byte key. */
  function TencentTeaEncrypt(key: seq<Byte>, x: seq<Byte>): (c: seq<Byte>)
    requires |key| == KeySize && |x| % 8 == 0
    ensures |c| == |x|
  {
    WrapStream(TeaBlocks(ScheduleOf(key)), x)
  }

  /** The plain stream that frames a payload: marker, six padding bytes, two salt bytes, payload, seven trailing bytes. */
  function Frame(marker: Byte, padding: seq<Byte>, salt: seq<Byte>, payload: seq<Byte>, tail: seq<Byte>): (x: seq<Byte>)
    requires |padding| == 6 && |salt| == SaltLength && |tail| == ZeroLength
    ensures |x| == |payload| + 16
  {
    [marker] + padding + salt + payload + tail
  }

  // ---------------------------------------------------------------------------
  // Round trips
  // ---------------------------------------------------------------------------

  lemma {:induction false} WrapBlocksBlock(bc: BlockCipher, x: seq<Byte>, m: nat, k: nat)
    requires IsBlockCipher(bc) && 8 * m <= |x| && k < m
    ensures BlockAt(WrapBlocks(bc, x, m), k) == WrapStep(bc, x, k).1
    decreases m
  {
    var front, last := WrapBlocks(bc, x, m - 1), WrapStep(bc, x, m - 1).1;
    assert WrapBlocks(bc, x, m) == front + last;
    if k < m - 1 {
      WrapBlocksBlock(bc, x, m - 1, k);
      assert BlockAt(front + last, k) == BlockAt(front, k);
    } else {
      assert BlockAt(front + last, k) == last;
    }
  }

  /** Decrypting the encryption of x recovers each T_k. */
  lemma {:induction false} ChainOfWrap(bc: BlockCipher, x: seq<Byte>, k: nat)
    requires IsBlockCipher(bc) && |x| % 8 == 0 && 8 * k + 8 <= |x|
    ensures Chain(bc, WrapStream(bc, x), k) == WrapStep(bc, x, k).0
    decreases k
  {
    var c := WrapStream(bc, x);
    var tc := WrapStep(bc, x, k);
    WrapBlocksBlock(bc, x, |x| / 8, k);
    if k > 0 {
      var prev := WrapStep(bc, x, k - 1);
      ChainOfWrap(bc, x, k - 1);
      XorBytesCancel(prev.0, bc.encrypt(tc.0));
    }
  }

  /** Byte j of block k of the plain stream, by its block and offset. */
  lemma PlainByteInBlock(bc: BlockCipher, c: seq<Byte>, k: nat, j: nat)
    requires IsBlockCipher(bc) && |c| % 8 == 0 && 8 * k + 8 <= |c| && j < 8
    ensures PlainByte(bc, c, 8 * k + j) == Chain(bc, c, k)[j] ^ (if k == 0 then 0 else c[8 * k + j - 8])
  {
    BlockPosition(k, j);
  }

  /** Flat position 8k + j lies in block k at byte j. */
  lemma BlockPosition(k: nat, j: nat)
    requires j < 8
    ensures (8 * k + j) / 8 == k && (8 * k + j) % 8 == j
  {
  }

  /** Once T_k is known to be X_k XOR C_{k-1}, byte j of block k of the plain stream is X_k[j]. */
  lemma PlainByteOfMaskedChain(bc: BlockCipher, c: seq<Byte>, k: nat, j: nat, xBlock: seq<Byte>)
    requires IsBlockCipher(bc) && |c| % 8 == 0 && 8 * k + 8 <= |c| && j < 8 && |xBlock| == 8
    requires k == 0 ==> Chain(bc, c, k) == xBlock
    requires k > 0 ==> Chain(bc, c, k) == XorBytes(xBlock, BlockAt(c, k - 1))
    ensures PlainByte(bc, c, 8 * k + j) == xBlock[j]
  {
    var m: Byte := if k == 0 then 0 else c[8 * k + j - 8];
    assert Chain(bc, c, k)[j] ^ m == xBlock[j] by {
      if k > 0 {
        var cb := BlockAt(c, k - 1);
        assert cb[j] == m;
        XorBytesUnmaskAt(xBlock, cb, j);
      }
    }
    PlainByteInBlock(bc, c, k, j);
  }

  /** Byte j of block k of the plain stream of the encryption of x is the same byte of x. */
  lemma PlainByteOfWrap(bc: BlockCipher, x: seq<Byte>, k: nat, j: nat)
    requires IsBlockCipher(bc) && |x| % 8 == 0 && 8 * k + 8 <= |x| && j < 8
    ensures PlainByte(bc, WrapStream(bc, x), 8 * k + j) == x[8 * k + j]
  {
    var c := WrapStream(bc, x);
    ChainOfWrap(bc, x, k);
    if k > 0 {
      WrapBlocksBlock(bc, x, |x| / 8, k - 1);
    }
    PlainByteOfMaskedChain(bc, c, k, j, BlockAt(x, k));
  }

  /** The plain stream of the encryption of x is x. */
  lemma PlainStreamOfWrapStream(bc: BlockCipher, x: seq<Byte>)
    requires IsBlockCipher(bc) && |x| % 8 == 0
    ensures PlainStream(bc, WrapStream(bc, x)) == x
  {
    forall f | 0 <= f < |x|
      ensures PlainByte(bc, WrapStream(bc, x), f) == x[f]
    {
      var k, j := f / 8, f % 8;
      assert f == 8 * k + j;
      PlainByteOfWrap(bc, x, k, j);
    }
  }

  /** The first block of the plain stream of c is T_0. */
  lemma FirstBlockOfPlainStream(bc: BlockCipher, c: seq<Byte>)
    requires IsBlockCipher(bc) && |c| % 8 == 0 && 8 <= |c|
    ensures BlockAt(PlainStream(bc, c), 0) == Chain(bc, c, 0)
  {
    var x := PlainStream(bc, c);
    forall j | 0 <= j < 8
      ensures x[j] == Chain(bc, c, 0)[j]
    {
      PlainByteInBlock(bc, c, 0, j);
    }
  }

  /** Block k > 0 of the plain stream of c, with the previous ciphertext block taken back off, is T_k. */
  lemma LaterBlockOfPlainStream(bc: BlockCipher, c: seq<Byte>, k: nat)
    requires IsBlockCipher(bc) && |c| % 8 == 0 && 8 * k + 8 <= |c| && k > 0
    ensures XorBytes(BlockAt(PlainStream(bc, c), k), BlockAt(c, k - 1)) == Chain(bc, c, k)
  {
    var x := PlainStream(bc, c);
    var t := Chain(bc, c, k);
    forall j | 0 <= j < 8
      ensures x[8 * k + j] == t[j] ^ c[8 * k + j - 8]
    {
      PlainByteInBlock(bc, c, k, j);
    }
    UnmaskBlock(x, c, t, k);
  }

  /** If block k of x is t XORed with block k - 1 of c, XORing that block back in gives t. */
  lemma UnmaskBlock(x: seq<Byte>, c: seq<Byte>, t: seq<Byte>, k: nat)
    requires |t| == 8 && 8 * k + 8 <= |x| && 8 * k + 8 <= |c| && k > 0
    requires forall j :: 0 <= j < 8 ==> x[8 * k + j] == t[j] ^ c[8 * k + j - 8]
    ensures XorBytes(BlockAt(x, k), BlockAt(c, k - 1)) == t
  {
    var xb, cb := BlockAt(x, k), BlockAt(c, k - 1);
    forall j | 0 <= j < 8
      ensures XorBytes(xb, cb)[j] == t[j]
    {
      BlockAtIndex(x, k, j);
      BlockAtIndex(c, k - 1, j);
      assert 8 * (k - 1) + j == 8 * k + j - 8;
      XorBytesAt(xb, cb, j);
    }
  }

  /** Encrypting the plain stream of c gives back each T_k and each ciphertext block. */
  lemma {:induction false} WrapStepOfPlainStream(bc: BlockCipher, c: seq<Byte>, k: nat)
    requires IsBlockCipher(bc) && |c| % 8 == 0 && 8 * k + 8 <= |c|
    ensures WrapStep(bc, PlainStream(bc, c), k) == (Chain(bc, c, k), BlockAt(c, k))
    decreases k
  {
    var x := PlainStream(bc, c);
    var t := Chain(bc, c, k);
    if k == 0 {
      FirstBlockOfPlainStream(bc, c);
    } else {
      LaterBlockOfPlainStream(bc, c, k);
      WrapStepOfPlainStream(bc, c, k - 1);
      var tPrev := Chain(bc, c, k - 1);
      var masked := XorBytes(tPrev, BlockAt(c, k));
      assert t == bc.decrypt(masked);
      assert bc.encrypt(t) == masked;
      XorBytesUnmask(tPrev, BlockAt(c, k));
    }
  }

  /** Encrypting the plain stream of c gives back c's first m blocks. */
  lemma {:induction false} WrapBlocksOfPlainStream(bc: BlockCipher, c: seq<Byte>, m: nat)
    requires IsBlockCipher(bc) && |c| % 8 == 0 && 8 * m <= |c|
    ensures WrapBlocks(bc, PlainStream(bc, c), m) == c[..8 * m]
    decreases m
  {
    if m > 0 {
      WrapBlocksOfPlainStream(bc, c, m - 1);
      WrapStepOfPlainStream(bc, c, m - 1);
      WrapBlocksExtend(bc, PlainStream(bc, c), c, m);
    }
  }

  /** When the first m - 1 wrapped blocks and block m - 1 match c, so do the first m blocks. */
  lemma WrapBlocksExtend(bc: BlockCipher, x: seq<Byte>, c: seq<Byte>, m: nat)
    requires IsBlockCipher(bc) && 0 < m && 8 * m <= |x| && 8 * m <= |c|
    requires WrapBlocks(bc, x, m - 1) == c[..8 * (m - 1)] && WrapStep(bc, x, m - 1).1 == BlockAt(c, m - 1)
    ensures WrapBlocks(bc, x, m) == c[..8 * m]
  {
    assert c[..8 * m] == c[..8 * (m - 1)] + BlockAt(c, m - 1);
  }

  /** The encryption of the plain stream of c is c: every ciphertext of whole blocks is a wrapped stream. */
  lemma WrapStreamOfPlainStream(bc: BlockCipher, c: seq<Byte>)
    requires IsBlockCipher(bc) && |c| % 8 == 0
    ensures WrapStream(bc, PlainStream(bc, c)) == c
  {
    WrapBlocksOfPlainStream(bc, c, |c| / 8);
  }

  /** Unframing a framed payload whose first trailing byte is zero gives the payload back. */
  lemma UnframeOfFrame(marker: Byte, padding: seq<Byte>, salt: seq<Byte>, payload: seq<Byte>, tail: seq<Byte>)
    requires |padding| == 6 && |salt| == SaltLength && |tail| == ZeroLength
    requires marker & 7 == 6 && tail[0] == 0
    ensures Unframe(Frame(marker, padding, salt, payload, tail)) == Success(payload)
  {
    var x := Frame(marker, padding, salt, payload, tail);
    assert x[9..|x| - 7] == payload;
  }

  /** A stream that unframes is the frame of its own marker, padding, salt, payload and tail, with a zero first trailing byte. */
  lemma FrameOfUnframe(x: seq<Byte>)
    requires |x| >= 16 && Unframe(x).Success?
    ensures x[0] & 7 == 6 && x[|x| - 7] == 0
    ensures x == Frame(x[0], x[1..7], x[7..9], Unframe(x).value, x[|x| - 7..])
  {
    assert x == [x[0]] + x[1..7] + x[7..9] + x[9..|x| - 7] + x[|x| - 7..];
  }

  /** The chained decryption of an encrypted frame with a zero first trailing byte is its payload. */
  lemma ChainedDecryptOfWrap(bc: BlockCipher, marker: Byte, padding: seq<Byte>, salt: seq<Byte>, payload: seq<Byte>, tail: seq<Byte>)
    requires IsBlockCipher(bc) && |padding| == 6 && |salt| == SaltLength && |tail| == ZeroLength
    requires marker & 7 == 6 && tail[0] == 0 && |payload| % 8 == 0
    ensures ChainedDecrypt(bc, WrapStream(bc, Frame(marker, padding, salt, payload, tail))) == Success(payload)
  {
    PlainStreamOfWrapStream(bc, Frame(marker, padding, salt, payload, tail));
    UnframeOfFrame(marker, padding, salt, payload, tail);
  }

  /**
   * c is the encryption of a frame around payload whose marker announces six
   * padding bytes and whose first trailing byte is zero.
   */
  ghost predicate IsFramedEncryption(bc: BlockCipher, c: seq<Byte>, payload: seq<Byte>)
    requires IsBlockCipher(bc) && |c| % 8 == 0 && |c| >= 16
  {
    var x := PlainStream(bc, c);
    && x[0] & 7 == 6 && x[|x| - 7] == 0 && |payload| == |c| - 16
    && c == WrapStream(bc, Frame(x[0], x[1..7], x[7..9], payload, x[|x| - 7..]))
  }

  /** Whatever the chained decryption accepts is the encryption of a frame around what it returns. */
  lemma ChainedDecryptIsFrame(bc: BlockCipher, c: seq<Byte>)
    requires IsBlockCipher(bc) && |c| % 8 == 0 && |c| >= 16 && ChainedDecrypt(bc, c).Success?
    ensures IsFramedEncryption(bc, c, ChainedDecrypt(bc, c).value)
  {
    WrapStreamOfPlainStream(bc, c);
    FrameOfUnframe(PlainStream(bc, c));
  }

  /** Decrypting a correctly framed payload encrypted under the same key gives the payload back. */
  lemma TencentTeaDecryptOfWrap(key: seq<Byte>, marker: Byte, padding: seq<Byte>, salt: seq<Byte>, payload: seq<Byte>, tail: seq<Byte>)
    requires |key| == KeySize && |padding| == 6 && |salt| == SaltLength && |tail| == ZeroLength
    requires marker & 7 == 6 && tail[0] == 0 && |payload| % 8 == 0
    ensures TencentTeaDecrypt(TencentTeaEncrypt(key, Frame(marker, padding, salt, payload, tail)), key) == Success(payload)
  {
    ChainedDecryptOfWrap(TeaBlocks(ScheduleOf(key)), marker, padding, salt, payload, tail);
  }

  /** A successful decryption means the input is the encryption of a correctly framed payload. */
  lemma TencentTeaDecryptIsFrame(inBuffer: seq<Byte>, key: seq<Byte>)
    requires TencentTeaDecrypt(inBuffer, key).Success?
    ensures |key| == KeySize && |inBuffer| % 8 == 0 && |inBuffer| >= 16
    ensures IsFramedEncryption(TeaBlocks(ScheduleOf(key)), inBuffer, TencentTeaDecrypt(inBuffer, key).value)
  {
    ChainedDecryptIsFrame(TeaBlocks(ScheduleOf(key)), inBuffer);
  }

  // ---------------------------------------------------------------------------
  // decryptTencentTea, step by step
  // ---------------------------------------------------------------------------

  /** The TEA block cipher decrypts with the cipher object's 32-round decryption. */
  lemma TeaBlocksDecrypt(ks: KeySchedule, b: seq<Byte>)
    requires |b| == BlockSize
    ensures TeaBlocks(ks).decrypt(b) == DecryptBlock(ks, ChainRounds, b)
  {
  }

  /** TEA decryption with the given key words and rounds is the block cipher's decryption on every block. */
  ghost predicate DecryptsAs(ks: KeySchedule, rounds: Word, bc: BlockCipher) {
    forall b: seq<Byte> {:trigger DecryptBlock(ks, rounds, b)} | |b| == BlockSize :: DecryptBlock(ks, rounds, b) == bc.decrypt(b)
  }

  /** What decryptTencentTea knows once its size checks have passed and its cipher object exists. */
  ghost predicate Decrypting(tea: TeaCipher, bc: BlockCipher, c: seq<Byte>)
    reads tea
  {
    IsBlockCipher(bc) && DecryptsAs(tea.Schedule(), tea.rounds, bc) && |c| % 8 == 0 && |c| >= 16
  }

  /** The local variables of decryptTencentTea that its nested cryptBlock reads and rewrites. */
  datatype Cursor = Cursor(tempBuffer: seq<Byte>, ivPrevious: seq<Byte>, ivCurrent: seq<Byte>, inBufferPosition: nat, tempIndex: nat)

  /**
   * The cursor stands in ciphertext block k of c: tempBuffer holds T_k,
   * ivCruuent holds C_k, ivPrevious holds C_{k-1} (zeros in the first block),
   * the next block to read starts at 8k + 8, and tempIndex is an offset in
   * block k, 8 meaning the block is used up.
   */
  ghost predicate AtBlock(bc: BlockCipher, c: seq<Byte>, k: nat, cur: Cursor) {
    && IsBlockCipher(bc) && |c| % 8 == 0
    && 8 * k + 8 <= |c| && cur.inBufferPosition == 8 * k + 8 && cur.tempIndex <= 8
    && cur.tempBuffer == Chain(bc, c, k) && cur.ivCurrent == BlockAt(c, k)
    && cur.ivPrevious == (if k == 0 then ZeroBlock else BlockAt(c, k - 1))
  }

  /**
   * The nested cryptBlock: moves the IVs on by one block, XORs the next
   * ciphertext block into tempBuffer byte by byte, decrypts it in place and
   * restarts tempIndex.
   */
  method CryptBlock(tea: TeaCipher, ghost bc: BlockCipher, inBuffer: seq<Byte>, cur: Cursor) returns (next: Cursor)
    requires DecryptsAs(tea.Schedule(), tea.rounds, bc)
    requires cur.inBufferPosition + 8 <= |inBuffer| && |cur.tempBuffer| == 8
    ensures var block := inBuffer[cur.inBufferPosition..cur.inBufferPosition + 8];
      next == Cursor(bc.decrypt(XorBytes(cur.tempBuffer, block)), cur.ivCurrent, block, cur.inBufferPosition + 8, 0)
  {
    var ivPrevious := cur.ivCurrent;
    var ivCurrent := inBuffer[cur.inBufferPosition..cur.inBufferPosition + 8];
    var tempBuffer := cur.tempBuffer;
    for j := 0 to 8
      invariant |tempBuffer| == 8
      invariant forall i :: 0 <= i < j ==> tempBuffer[i] == cur.tempBuffer[i] ^ ivCurrent[i]
      invariant forall i :: j <= i < 8 ==> tempBuffer[i] == cur.tempBuffer[i]
    {
      tempBuffer := tempBuffer[j := tempBuffer[j] ^ ivCurrent[j]];
    }
    assert tempBuffer == XorBytes(cur.tempBuffer, ivCurrent);
    tempBuffer := tea.Decrypt(tempBuffer);
    next := Cursor(tempBuffer, ivPrevious, ivCurrent, cur.inBufferPosition + 8, 0);
  }

  /** cryptBlock at the end of block k leaves the cursor at the start of block k + 1. */
  lemma AtNextBlock(bc: BlockCipher, c: seq<Byte>, k: nat, cur: Cursor, next: Cursor)
    requires AtBlock(bc, c, k, cur) && 8 * k + 16 <= |c|
    requires next == Cursor(bc.decrypt(XorBytes(cur.tempBuffer, c[8 * k + 8..8 * k + 16])), cur.ivCurrent,
                            c[8 * k + 8..8 * k + 16], 8 * k + 16, 0)
    ensures AtBlock(bc, c, k + 1, next)
  {
    assert next.ivCurrent == BlockAt(c, k + 1);
  }

  /** In block k > 0, the byte at tempIndex XORed with ivPrevious is the plain byte at 8k + tempIndex. */
  lemma PlainByteAtCursor(bc: BlockCipher, c: seq<Byte>, k: nat, cur: Cursor)
    requires AtBlock(bc, c, k, cur) && k > 0 && cur.tempIndex < 8
    ensures cur.tempBuffer[cur.tempIndex] ^ cur.ivPrevious[cur.tempIndex] == PlainStream(bc, c)[8 * k + cur.tempIndex]
  {
    PlainByteInBlock(bc, c, k, cur.tempIndex);
    assert c[8 * k + cur.tempIndex - 8] == BlockAt(c, k - 1)[cur.tempIndex];
  }

  /**
   * The output loop's invariant: the cursor is in block k > 0 at flat
   * position 9 + |copied|, at most n - 7, and copied holds the plain bytes
   * from flat position 9 on.
   */
  ghost predicate Copied(bc: BlockCipher, c: seq<Byte>, k: nat, cur: Cursor, copied: seq<Byte>) {
    && AtBlock(bc, c, k, cur) && k > 0
    && 8 * k + cur.tempIndex == 9 + |copied| && 9 + |copied| <= |c| - 7
    && copied == PlainStream(bc, c)[9..9 + |copied|]
  }

  /** Copying the byte under the cursor keeps the output loop's invariant. */
  lemma CopyByte(bc: BlockCipher, c: seq<Byte>, k: nat, cur: Cursor, copied: seq<Byte>)
    requires Copied(bc, c, k, cur, copied) && cur.tempIndex < 8 && |copied| < |c| - 16
    ensures Copied(bc, c, k, cur.(tempIndex := cur.tempIndex + 1),
                   copied + [cur.tempBuffer[cur.tempIndex] ^ cur.ivPrevious[cur.tempIndex]])
  {
    PlainByteAtCursor(bc, c, k, cur);
    var x := PlainStream(bc, c);
    assert x[9..9 + |copied| + 1] == x[9..9 + |copied|] + [x[9 + |copied|]];
  }

  /** A used-up block is never the last one while bytes remain to copy. */
  lemma CopyBound(bc: BlockCipher, c: seq<Byte>, k: nat, cur: Cursor, copied: seq<Byte>)
    requires Copied(bc, c, k, cur, copied) && cur.tempIndex == 8
    ensures 8 * k + 16 <= |c| && cur.inBufferPosition + 8 <= |c| && |cur.tempBuffer| == 8
  {
    RoundUpToBlock(k, |c|);
  }

  /** A multiple of 8 that has room for 8k + 15 bytes has room for 8k + 16. */
  lemma RoundUpToBlock(k: nat, n: nat)
    requires n % 8 == 0 && 8 * k + 15 <= n
    ensures 8 * k + 16 <= n
  {
    assert n == 8 * (n / 8);
  }

  /** cryptBlock at the end of a used-up block keeps the output loop's invariant. */
  lemma CopyCross(bc: BlockCipher, c: seq<Byte>, k: nat, cur: Cursor, copied: seq<Byte>, next: Cursor)
    requires Copied(bc, c, k, cur, copied) && cur.tempIndex == 8 && 8 * k + 16 <= |c|
    requires next == Cursor(bc.decrypt(XorBytes(cur.tempBuffer, c[8 * k + 8..8 * k + 16])), cur.ivCurrent,
                            c[8 * k + 8..8 * k + 16], 8 * k + 16, 0)
    ensures Copied(bc, c, k + 1, next, copied)
  {
    AtNextBlock(bc, c, k, cur, next);
  }

  /** Once n - 16 bytes are copied, the cursor is on offset 1 of the last block and the payload is complete. */
  lemma CopiedAll(bc: BlockCipher, c: seq<Byte>, k: nat, cur: Cursor, copied: seq<Byte>)
    requires Copied(bc, c, k, cur, copied) && |copied| == |c| - 16
    ensures k == |c| / 8 - 1 && cur.tempIndex == 1 && AtBlock(bc, c, k, cur)
    ensures copied == PlainStream(bc, c)[9..|c| - 7]
  {
  }

  /** The salt loop: steps over the two salt bytes, crossing from block 0 into block 1 on the way. */
  method SkipSalt(tea: TeaCipher, ghost bc: BlockCipher, inBuffer: seq<Byte>, cur: Cursor) returns (next: Cursor)
    requires Decrypting(tea, bc, inBuffer) && AtBlock(bc, inBuffer, 0, cur) && cur.tempIndex == 7
    ensures Copied(bc, inBuffer, 1, next, [])
  {
    next := cur;
    ghost var k: nat := 0;
    var saltIndex := 1;
    while saltIndex <= SaltLength
      invariant 1 <= saltIndex <= SaltLength + 1
      invariant 8 * k + next.tempIndex == 6 + saltIndex && AtBlock(bc, inBuffer, k, next)
      decreases SaltLength + 1 - saltIndex, if next.tempIndex == 8 then 1 else 0
    {
      if next.tempIndex < 8 {
        next := next.(tempIndex := next.tempIndex + 1);
        saltIndex := saltIndex + 1;
      } else {
        var crossed := CryptBlock(tea, bc, inBuffer, next);
        AtNextBlock(bc, inBuffer, k, next, crossed);
        next, k := crossed, k + 1;
      }
    }
  }

  /**
   * The output loop: overwrites the zero-filled outputBuffer with the plain
   * bytes at flat positions 9 .. n - 8, calling cryptBlock at each block
   * boundary, and stops on flat position n - 7, in the last block.
   */
  method CopyPayload(tea: TeaCipher, ghost bc: BlockCipher, inBuffer: seq<Byte>, cur: Cursor, outputBuffer: seq<Byte>)
    returns (next: Cursor, output: seq<Byte>)
    requires Decrypting(tea, bc, inBuffer) && Copied(bc, inBuffer, 1, cur, [])
    requires |outputBuffer| == |inBuffer| - 16
    ensures AtBlock(bc, inBuffer, |inBuffer| / 8 - 1, next) && next.tempIndex == 1
    ensures output == PlainStream(bc, inBuffer)[9..|inBuffer| - 7]
  {
    next, output := cur, outputBuffer;
    ghost var k: nat := 1;
    var outputBufferPosition := 0;
    while outputBufferPosition < |output|
      invariant 0 <= outputBufferPosition <= |output| == |outputBuffer|
      invariant Copied(bc, inBuffer, k, next, output[..outputBufferPosition])
      decreases |output| - outputBufferPosition, if next.tempIndex == 8 then 1 else 0
    {
      ghost var copied := output[..outputBufferPosition];
      if next.tempIndex < 8 {
        CopyByte(bc, inBuffer, k, next, copied);
        output := output[outputBufferPosition := next.tempBuffer[next.tempIndex] ^ next.ivPrevious[next.tempIndex]];
        assert output[..outputBufferPosition + 1] == copied + [output[outputBufferPosition]];
        outputBufferPosition := outputBufferPosition + 1;
        next := next.(tempIndex := next.tempIndex + 1);
      } else {
        CopyBound(bc, inBuffer, k, next, copied);
        var crossed := CryptBlock(tea, bc, inBuffer, next);
        CopyCross(bc, inBuffer, k, next, copied, crossed);
        next, k := crossed, k + 1;
      }
    }
    assert output[..outputBufferPosition] == output;
    CopiedAll(bc, inBuffer, k, next, output);
  }

  /** The cursor decryptTencentTea starts from: block 0, ivPrevious all zeros, tempIndex just past the padding. */
  lemma StartCursor(bc: BlockCipher, c: seq<Byte>, tempBuffer: seq<Byte>, tempIndex: nat)
    requires IsBlockCipher(bc) && |c| % 8 == 0 && |c| >= 16 && tempBuffer == Chain(bc, c, 0) && tempIndex <= 8
    ensures tempBuffer[0] == PlainStream(bc, c)[0]
    ensures AtBlock(bc, c, 0, Cursor(tempBuffer, ZeroBlock, c[0..8], 8, tempIndex))
  {
    PlainByteInBlock(bc, c, 0, 0);
  }

  /** Where the output loop stops, the byte under the cursor is the plain byte at n - 7. */
  lemma ZeroCheckByte(bc: BlockCipher, c: seq<Byte>, cur: Cursor)
    requires |c| >= 16 && AtBlock(bc, c, |c| / 8 - 1, cur) && cur.tempIndex == 1
    ensures cur.tempBuffer[1] ^ cur.ivPrevious[1] == PlainStream(bc, c)[|c| - 7]
  {
    PlainByteAtCursor(bc, c, |c| / 8 - 1, cur);
  }

  /**
   * The part of decryptTencentTea after the first block has been decrypted
   * into tempBuffer: the padding-length check, the salt loop, the output loop
   * and the zero check, which compares the same position seven times.
   */
  method DecryptFrame(tea: TeaCipher, ghost bc: BlockCipher, inBuffer: seq<Byte>, tempBuffer: seq<Byte>)
    returns (r: Result<seq<Byte>, QMCKeyDecoderError>)
    requires Decrypting(tea, bc, inBuffer) && tempBuffer == Chain(bc, inBuffer, 0)
    ensures r == Unframe(PlainStream(bc, inBuffer))
  {
    var paddingLength := (tempBuffer[0] & 7) as int;
    var outputLength := |inBuffer| - 1 - paddingLength - SaltLength - ZeroLength;
    StartCursor(bc, inBuffer, tempBuffer, 1 + paddingLength);
    if paddingLength + SaltLength != 8 {
      return Failure(InvalidPaddingLength);
    }
    var outputBuffer := seq(outputLength, _ => 0);
    var cur := Cursor(tempBuffer, ZeroBlock, inBuffer[0..8], 8, 1 + paddingLength);
    cur := SkipSalt(tea, bc, inBuffer, cur);
    cur, outputBuffer := CopyPayload(tea, bc, inBuffer, cur, outputBuffer);
    ZeroCheckByte(bc, inBuffer, cur);
    for zeroIndex := 1 to ZeroLength + 1
      invariant zeroIndex > 1 ==> cur.tempBuffer[cur.tempIndex] == cur.ivPrevious[cur.tempIndex]
    {
      if cur.tempBuffer[cur.tempIndex] != cur.ivPrevious[cur.tempIndex] {
        return Failure(ZeroCheckFailed);
      }
    }
    r := Success(outputBuffer);
  }

  /**
   * decryptTencentTea: the two size checks, a 32-round TEA cipher (whose
   * key-size error is passed on), the first block decrypted into tempBuffer,
   * then the rest of the frame.
   */
  method DecryptTencentTea(inBuffer: seq<Byte>, key: seq<Byte>) returns (r: Result<seq<Byte>, QMCKeyDecoderError>)
    ensures r == TencentTeaDecrypt(inBuffer, key)
  {
    if |inBuffer| % 8 != 0 {
      return Failure(InBufferSizeInvalidWithBlockSize);
    }
    if |inBuffer| < 16 {
      return Failure(InBufferSizeToSmall);
    }
    var created := TeaCipher.Create(key, ChainRounds);
    if created.Failure? {
      return Failure(TeaCipherFailed(created.error));
    }
    var tea := created.value;
    ghost var bc := TeaBlocks(ScheduleOf(key));
    var tempBuffer := tea.Decrypt(inBuffer);
    DecryptBlockOfPrefix(ScheduleOf(key), ChainRounds, inBuffer);
    assert Decrypting(tea, bc, inBuffer) by {
      forall b: seq<Byte> | |b| == BlockSize
        ensures DecryptBlock(tea.Schedule(), tea.rounds, b) == bc.decrypt(b)
      {
        TeaBlocksDecrypt(ScheduleOf(key), b);
      }
    }
    TeaBlocksDecrypt(ScheduleOf(key), BlockAt(inBuffer, 0));
    r := DecryptFrame(tea, bc, inBuffer, tempBuffer);
  }

  // ---------------------------------------------------------------------------
  // deriveKey
  // ---------------------------------------------------------------------------

  /** The 16-byte TEA key: SimpleKey[i] at even position 2i, prefix[i] at odd position 2i + 1. */
  function TeaKeyOf(prefix: seq<Byte>): (teaKey: seq<Byte>)
    requires |prefix| >= 8
    ensures |teaKey| == KeySize
    ensures forall i :: 0 <= i < 8 ==> teaKey[2 * i] == SimpleKey[i] && teaKey[2 * i + 1] == prefix[i]
  {
    var teaKey := seq(KeySize, j requires 0 <= j < KeySize => if j % 2 == 0 then SimpleKey[j / 2] else prefix[j / 2]);
    assert forall i :: 0 <= i < 8 ==> (2 * i) / 2 == i && (2 * i + 1) / 2 == i && (2 * i + 1) % 2 == 1;
    teaKey
  }

  /** The TEA key depends on the first 8 bytes only. */
  lemma TeaKeyOfPrefix(a: seq<Byte>, b: seq<Byte>)
    requires |a| >= 8 && b == a[..8]
    ensures TeaKeyOf(a) == TeaKeyOf(b)
  {
    forall j | 0 <= j < KeySize
      ensures TeaKeyOf(a)[j] == TeaKeyOf(b)[j]
    {
      assert a[j / 2] == b[j / 2];
    }
  }

  /**
   * deriveKey as a function of its input, with Foundation's Base64 decoding
   * passed in: the Base64 check, the length check, then the first 8 decoded
   * bytes followed by the decryption of the rest under the interleaved key.
   */
  function DerivedKey(rawKey: seq<Byte>, base64Decode: seq<Byte> -> Option<seq<Byte>>): Result<seq<Byte>, QMCKeyDecoderError> {
    match base64Decode(rawKey)
    case None => Failure(CanNotConstructBase64Key)
    case Some(decoded) =>
      if |decoded| < 16 then Failure(KeyLengthTooShort)
      else
        var sub := TencentTeaDecrypt(decoded[8..], TeaKeyOf(decoded));
        if sub.Failure? then Failure(sub.error) else Success(decoded[..8] + sub.value)
  }

  /** deriveKey: decodes the Base64 blob, fills teaKey in a loop and unwraps the rest of the blob. */
  method DeriveKey(rawKey: seq<Byte>, base64Decode: seq<Byte> -> Option<seq<Byte>>) returns (r: Result<seq<Byte>, QMCKeyDecoderError>)
    ensures r == DerivedKey(rawKey, base64Decode)
  {
    var base64DecodedKey := base64Decode(rawKey);
    if base64DecodedKey.None? {
      return Failure(CanNotConstructBase64Key);
    }
    var decoded := base64DecodedKey.value;
    if |decoded| < 16 {
      return Failure(KeyLengthTooShort);
    }
    var teaKey := seq(KeySize, _ => 0);
    for index := 0 to 8
      invariant |teaKey| == KeySize
      invariant forall j :: 0 <= j < 2 * index ==> teaKey[j] == TeaKeyOf(decoded)[j]
    {
      teaKey := teaKey[2 * index := SimpleKey[index]];
      teaKey := teaKey[2 * index + 1 := decoded[index]];
      assert forall j :: 2 * index <= j < 2 * index + 2 ==> j / 2 == index;
    }
    assert teaKey == TeaKeyOf(decoded);
    var subBuffer := DecryptTencentTea(decoded[8..], teaKey);
    if subBuffer.Failure? {
      return Failure(subBuffer.error);
    }
    r := Success(decoded[..8] + subBuffer.value);
  }

  /** A derived key keeps the first 8 decoded bytes and is 16 bytes shorter than the decoded blob. */
  lemma DerivedKeyShape(rawKey: seq<Byte>, base64Decode: seq<Byte> -> Option<seq<Byte>>)
    requires DerivedKey(rawKey, base64Decode).Success?
    ensures base64Decode(rawKey).Some? && |base64Decode(rawKey).value| >= 16
    ensures var decoded, key := base64Decode(rawKey).value, DerivedKey(rawKey, base64Decode).value;
      |key| == |decoded| - 16 && key[..8] == decoded[..8]
  {
  }

  /**
   * A blob made of 8 bytes followed by a correctly framed payload, encrypted
   * under the key those 8 bytes select, derives those 8 bytes and the payload.
   */
  lemma DerivedKeyOfWrap(rawKey: seq<Byte>, base64Decode: seq<Byte> -> Option<seq<Byte>>, prefix: seq<Byte>,
                         marker: Byte, padding: seq<Byte>, salt: seq<Byte>, payload: seq<Byte>, tail: seq<Byte>)
    requires |prefix| == 8 && |padding| == 6 && |salt| == SaltLength && |tail| == ZeroLength
    requires marker & 7 == 6 && tail[0] == 0 && |payload| % 8 == 0
    requires base64Decode(rawKey) == Some(prefix + TencentTeaEncrypt(TeaKeyOf(prefix), Frame(marker, padding, salt, payload, tail)))
    ensures DerivedKey(rawKey, base64Decode) == Success(prefix + payload)
  {
    var decoded := base64Decode(rawKey).value;
    assert decoded[..8] == prefix && decoded[8..] == TencentTeaEncrypt(TeaKeyOf(prefix), Frame(marker, padding, salt, payload, tail));
    TeaKeyOfPrefix(decoded, prefix);
    TencentTeaDecryptOfWrap(TeaKeyOf(prefix), marker, padding, salt, payload, tail);
  }
}
