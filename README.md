# QMCDecode cryptographic core in Dafny

This project models the decrypting core of QMCDecode, a macOS tool that turns
QQ Music's encrypted audio files (`.qmc*`, `.mflac`, `.mgg`, ...) back into
plain audio, and proves properties of that model. It covers:

- **TEA block cipher** (`TeaCipher.swift`): the 16-byte key read as four
  big-endian words, an even number of rounds, one 8-byte block in and out,
  all arithmetic wrapping modulo 2^32 (`tea_cipher.dfy`, module `Tea`).
- **Key unwrapping** (`QMCKeyDecoder.swift`): `deriveKey` decodes the Base64
  key blob found in the file's trailer, builds a 16-byte TEA key by
  interleaving a fixed 8-byte key with the blob's first 8 bytes, and unwraps
  the rest with `decryptTencentTea`: Tencent's chained TEA mode with 32
  rounds, a padding/salt header and a zero check (`qmc_key_decoder.dfy`,
  module `QMCKeyDecoder`).
- **Payload ciphers** (`QMCipher.swift`): the static and map ciphers, which
  XOR with a byte of the key picked by the absolute offset, and the RC4
  variant, which schedules a box from the key, hashes the key, and XORs the
  first 128 bytes with key bytes and every later byte with an RC4 stream
  restarted for each 5120-byte segment (`qm_cipher.dfy`, module `QMCiphers`).
- **Trailer resolver** (`QMDecoder.swift`): `searchKey` reads the end of the
  file (a "QTag" trailer from the mobile app, a little-endian length from the
  desktop app, or neither) to find the audio length and the key. `setCipher`
  picks RC4 for a derived key longer than 300 bytes and the map cipher
  otherwise. `decryptAndWriteToFile` decrypts the audio prefix at offset 0
  (`qm_decoder.dfy`, module `QMDecoding`).

`byte_order.dfy` (module `ByteOrder`) holds bytes, wrapping 32-bit words, the
two byte orders and byte-wise XOR. `results.dfy` (module `Results`) holds
`Option` and `Result`, which model Swift's optionals and thrown errors.

Each source operation that works step by step is a `method` with its loops,
proved against a function that states what it computes. The properties
proved about those functions include:

- TEA decryption inverts encryption;
- the chained mode's decryption and encryption invert each other, in both
  directions;
- a framed payload unwraps to itself, and anything that unwraps is such a
  frame;
- every payload cipher is its own inverse at a fixed offset, and can
  decrypt data in pieces at their absolute offsets;
- the RC4 box stays a rearrangement of `i & 0xFF`;
- each trailer layout resolves to the audio length and key blob it was
  built from.

### Behaviour that may surprise

The model keeps these behaviours of the Swift code as written:

- **Unmasking in `decryptTencentTea`** (`QMCKeyDecoder.swift:127`). Each
  output byte is XORed with the matching byte of the previous *ciphertext*
  block (`ivPrevious`), not of the previous plaintext block.
- **The zero check** (`QMCKeyDecoder.swift:135-140`). The loop runs seven
  times but compares the same byte (flat position n − 7) each time, so the
  other six trailing bytes are never checked.
- **The map cipher's `rotate`** (`QMCipher.swift:76-81`). It computes
  `((value << r) | (value >> r)) & 0xff` with `r = (bits + 4) % 8`, which is a
  rotation only when r is 0 or 4 (`QMCiphers.RotateIsNotRotation`).

## Model

| member | source | states |
|---|---|---|
| ByteOrder.SubAdd | QMCDecode/TeaCipher.swift:109-110 | wrapping `&-` of m undoes wrapping `&+` of m on UInt32 |
| ByteOrder.AddSub | QMCDecode/TeaCipher.swift:77-78 | wrapping `&+` of m undoes wrapping `&-` of m on UInt32 |
| ByteOrder.BitXor | QMCDecode/TeaCipher.swift:77 | the exclusive or of two 32-bit values stays within 32 bits |
| ByteOrder.BE32OfBytes | QMCDecode/TeaCipher.swift:115-124 | reading back the four big-endian bytes a word is written as gives the word |
| ByteOrder.BytesOfBE32 | QMCDecode/TeaCipher.swift:98-104 | writing the word read from four bytes big-endian gives the four bytes |
| ByteOrder.BE32BytesAt | QMCDecode/TeaCipher.swift:44-58 | the word loaded big-endian at any position writes back as the four bytes there |
| ByteOrder.XorBytesInvolution | QMCDecode/QMCipher.swift:34-39 | XORing with the same mask twice gives the data back |
| ByteOrder.XorBytesSplit | QMCDecode/QMCipher.swift:153-188 | byte-wise XOR commutes with cutting both operands at one point |
| Tea.Mix | QMCDecode/TeaCipher.swift:77-78 | no contract: the Feistel function `((v << 4) &+ a) ^ (v &+ sum) ^ ((v >> 5) &+ b)` on UInt32; the cycle lemmas below show each use of it cancels |
| Tea.ScheduleOfBytes | QMCDecode/TeaCipher.swift:44-58 | key0..key3 are exactly key bytes [0,4), [4,8), [8,12), [12,16) read big-endian |
| Tea.SumAfterIsProduct | QMCDecode/TeaCipher.swift:107 | decrypt's starting sum `delta &* (rounds / 2)` is the sum encryption reaches after rounds / 2 wrapping additions of delta |
| Tea.SumAfterStepBack | QMCDecode/TeaCipher.swift:111 | `sum &- delta` steps the running sum back exactly one encryption cycle |
| Tea.DecryptCycleUndoesEncryptCycle | QMCDecode/TeaCipher.swift:108-112 | one decryption cycle undoes one encryption cycle run with the same sum |
| Tea.EncryptCycleUndoesDecryptCycle | QMCDecode/TeaCipher.swift:75-79 | one encryption cycle undoes one decryption cycle run with the same sum |
| Tea.DecryptCyclesUndoEncryptCycles | QMCDecode/TeaCipher.swift:107-112 | count decryption cycles started from the final sum undo count encryption cycles |
| Tea.EncryptCyclesUndoDecryptCycles | QMCDecode/TeaCipher.swift:74-79 | count encryption cycles undo count decryption cycles started from that sum |
| Tea.EncryptBlock | QMCDecode/TeaCipher.swift:64-92 | TEA encryption of src[0..8) is one 8-byte block; Tea.DecryptBlockInvertsEncryptBlock states that DecryptBlock undoes it |
| Tea.DecryptBlock | QMCDecode/TeaCipher.swift:97-125 | TEA decryption of src[0..8) is one 8-byte block; Tea.EncryptBlockInvertsDecryptBlock states that EncryptBlock undoes it |
| Tea.WordsOfBytesOf | QMCDecode/TeaCipher.swift:115-124 | the two output words read back from the 8 output bytes are v0 and v1 |
| Tea.BytesOfWordsOf | QMCDecode/TeaCipher.swift:98-104 | an 8-byte block is the serialisation of the two words read from it |
| Tea.DecryptBlockInvertsEncryptBlock | QMCDecode/TeaCipher.swift:97-125 | decrypt(encrypt(b)) == b for every 8-byte block, key and round count |
| Tea.EncryptBlockInvertsDecryptBlock | QMCDecode/TeaCipher.swift:64-92 | encrypt(decrypt(b)) == b for every 8-byte block, key and round count |
| Tea.DecryptBlockOfPrefix | QMCDecode/TeaCipher.swift:98-104 | only src[0..8) takes part in decrypt; later bytes are ignored |
| Tea.TeaCipher.constructor | QMCDecode/TeaCipher.swift:41-58 | the key words are the big-endian words of the key and rounds is kept |
| Tea.TeaCipher.Create | QMCDecode/TeaCipher.swift:32-59 | a key of other than 16 bytes throws keySizeInvalid, then odd rounds throw oddNumberOfRoundsSpecified, otherwise a cipher with those key words and rounds |
| Tea.TeaCipher.Encrypt | QMCDecode/TeaCipher.swift:64-92 | the rounds / 2 loop returns the TEA encryption of src[0..8), which decrypt inverts |
| Tea.TeaCipher.Decrypt | QMCDecode/TeaCipher.swift:97-125 | the rounds / 2 loop returns the TEA decryption of src[0..8), which encrypt inverts |
| QMCKeyDecoder.TeaBlocks | QMCDecode/QMCKeyDecoder.swift:79 | TEA with 32 rounds under any 16-byte key maps blocks to blocks, and its two directions undo each other |
| QMCKeyDecoder.TeaBlocksDecrypt | QMCDecode/QMCKeyDecoder.swift:79-81 | the block cipher's decryption is the 32-round cipher object's decrypt |
| QMCKeyDecoder.BlockAtIndex | QMCDecode/QMCKeyDecoder.swift:101 | byte j of ciphertext block k is inBuffer[8k + j] |
| QMCKeyDecoder.Chain | QMCDecode/QMCKeyDecoder.swift:99-109 | T_k, the 8-byte block cryptBlock leaves in tempBuffer: block 0 decrypted, then block k XOR T_{k-1} decrypted |
| QMCKeyDecoder.PlainByte | QMCDecode/QMCKeyDecoder.swift:127 | no contract: `tempBuffer[tempIndex] ^ ivPrevious[tempIndex]` at flat position f, that is T_{f/8}[f%8] XOR the previous ciphertext block's byte (zero in block 0) |
| QMCKeyDecoder.PlainStream | QMCDecode/QMCKeyDecoder.swift:99-133 | the flat plain stream has the ciphertext's length, and byte f is T_{f/8}[f%8] XOR the previous ciphertext block's byte |
| QMCKeyDecoder.Unframe | QMCDecode/QMCKeyDecoder.swift:83-140 | the padding check and the zero check on the plain stream; a success is its positions 9 .. n − 8, 16 bytes shorter (UnframeOfFrame and FrameOfUnframe characterise it both ways) |
| QMCKeyDecoder.ChainedDecrypt | QMCDecode/QMCKeyDecoder.swift:81-141 | chained decryption followed by those checks; a success is 16 bytes shorter than the ciphertext |
| QMCKeyDecoder.TencentTeaDecrypt | QMCDecode/QMCKeyDecoder.swift:84-90 | a successful unwrap is 16 bytes shorter than its input (marker, 6 padding, 2 salt, 7 zero bytes) |
| QMCKeyDecoder.WrapStream | QMCDecode/QMCKeyDecoder.swift:99-109 | the chained encryption that cryptBlock inverts keeps the length of a whole-block plain stream (PlainStreamOfWrapStream and WrapStreamOfPlainStream make the two mutually inverse) |
| QMCKeyDecoder.TencentTeaEncrypt | QMCDecode/QMCKeyDecoder.swift:99-109 | the chained encryption keeps the length of a whole-block plain stream |
| QMCKeyDecoder.Frame | QMCDecode/QMCKeyDecoder.swift:83-96 | a frame is 16 bytes longer than its payload |
| QMCKeyDecoder.WrapBlocksBlock | QMCDecode/QMCKeyDecoder.swift:99-109 | block k of the chained encryption is the C_k of step k |
| QMCKeyDecoder.ChainOfWrap | QMCDecode/QMCKeyDecoder.swift:99-109 | decrypting the chained encryption of x recovers every T_k |
| QMCKeyDecoder.PlainByteInBlock | QMCDecode/QMCKeyDecoder.swift:127 | the plain byte at 8k + j is T_k[j] XOR ivPrevious[j] (zeros in block 0) |
| QMCKeyDecoder.PlainByteOfMaskedChain | QMCDecode/QMCKeyDecoder.swift:127 | when T_k is X_k XOR C_{k-1}, the plain byte at 8k + j is X_k[j] |
| QMCKeyDecoder.PlainByteOfWrap | QMCDecode/QMCKeyDecoder.swift:127 | the plain byte of the chained encryption of x at 8k + j is x[8k + j] |
| QMCKeyDecoder.PlainStreamOfWrapStream | QMCDecode/QMCKeyDecoder.swift:99-133 | the chained decryption's plain stream of the chained encryption of x is x |
| QMCKeyDecoder.FirstBlockOfPlainStream | QMCDecode/QMCKeyDecoder.swift:81 | the first plain block is the first ciphertext block decrypted |
| QMCKeyDecoder.LaterBlockOfPlainStream | QMCDecode/QMCKeyDecoder.swift:99-109 | a later plain block XOR the previous ciphertext block is T_k |
| QMCKeyDecoder.UnmaskBlock | QMCDecode/QMCKeyDecoder.swift:127 | XORing ivPrevious back into a block of plain bytes gives T_k |
| QMCKeyDecoder.WrapStepOfPlainStream | QMCDecode/QMCKeyDecoder.swift:99-109 | encrypting the plain stream of c step by step gives back each T_k and each ciphertext block |
| QMCKeyDecoder.WrapBlocksOfPlainStream | QMCDecode/QMCKeyDecoder.swift:99-109 | the first m blocks of the encryption of the plain stream of c are c's first m blocks |
| QMCKeyDecoder.WrapStreamOfPlainStream | QMCDecode/QMCKeyDecoder.swift:99-133 | every whole-block ciphertext is the chained encryption of its own plain stream |
| QMCKeyDecoder.UnframeOfFrame | QMCDecode/QMCKeyDecoder.swift:83-140 | a frame with padding 6 in the marker's low bits and a zero at n − 7 unframes to its payload |
| QMCKeyDecoder.FrameOfUnframe | QMCDecode/QMCKeyDecoder.swift:83-140 | a stream that passes the padding and zero checks is the frame of its marker, padding, salt, output and tail |
| QMCKeyDecoder.ChainedDecryptOfWrap | QMCDecode/QMCKeyDecoder.swift:81-141 | the chained decryption of an encrypted good frame returns its payload |
| QMCKeyDecoder.ChainedDecryptIsFrame | QMCDecode/QMCKeyDecoder.swift:81-141 | whatever the chained decryption accepts is the encryption of a good frame around its output |
| QMCKeyDecoder.TencentTeaDecryptOfWrap | QMCDecode/QMCKeyDecoder.swift:70-142 | decryptTencentTea of a good frame encrypted under the same key returns the payload |
| QMCKeyDecoder.TencentTeaDecryptIsFrame | QMCDecode/QMCKeyDecoder.swift:70-142 | a successful decryptTencentTea means a 16-byte key, a whole-block input of at least 16 bytes, and an encrypted good frame around the output |
| QMCKeyDecoder.CryptBlock | QMCDecode/QMCKeyDecoder.swift:99-109 | cryptBlock moves the IVs on one block, decrypts tempBuffer XOR the next ciphertext block, advances inBufferPosition by 8 and resets tempIndex |
| QMCKeyDecoder.AtNextBlock | QMCDecode/QMCKeyDecoder.swift:99-109 | cryptBlock at the end of block k leaves the cursor at the start of block k + 1 |
| QMCKeyDecoder.PlainByteAtCursor | QMCDecode/QMCKeyDecoder.swift:127 | `tempBuffer[tempIndex] ^ ivPrevious[tempIndex]` is the plain byte under the cursor |
| QMCKeyDecoder.CopyByte | QMCDecode/QMCKeyDecoder.swift:126-129 | copying one byte keeps the output loop's invariant |
| QMCKeyDecoder.CopyBound | QMCDecode/QMCKeyDecoder.swift:130-132 | the output loop calls cryptBlock only where a next ciphertext block exists |
| QMCKeyDecoder.CopyCross | QMCDecode/QMCKeyDecoder.swift:130-132 | cryptBlock at a block boundary keeps the output loop's invariant |
| QMCKeyDecoder.CopiedAll | QMCDecode/QMCKeyDecoder.swift:125-133 | once outputLength bytes are copied they are plain bytes 9 .. n − 8, and the cursor is on n − 7 |
| QMCKeyDecoder.SkipSalt | QMCDecode/QMCKeyDecoder.swift:111-120 | the salt loop steps over two bytes, crossing into block 1, and leaves the cursor on flat position 9 |
| QMCKeyDecoder.CopyPayload | QMCDecode/QMCKeyDecoder.swift:122-133 | the output loop fills outputBuffer with plain bytes 9 .. n − 8 and stops on n − 7 |
| QMCKeyDecoder.StartCursor | QMCDecode/QMCKeyDecoder.swift:81-96 | the initial variables put the cursor in block 0 with zero ivPrevious and the marker as plain byte 0 |
| QMCKeyDecoder.ZeroCheckByte | QMCDecode/QMCKeyDecoder.swift:135-140 | the byte the zero check compares is plain byte n − 7 |
| QMCKeyDecoder.DecryptFrame | QMCDecode/QMCKeyDecoder.swift:83-141 | the padding check, both loops and the zero check return exactly the unframing of the plain stream, error for error |
| QMCKeyDecoder.DecryptTencentTea | QMCDecode/QMCKeyDecoder.swift:70-142 | the method throws and returns exactly as the decryption function does, so the round trips above hold for it |
| QMCKeyDecoder.TeaKeyOf | QMCDecode/QMCKeyDecoder.swift:37-42 | the TEA key has 16 bytes, the fixed key's byte i at 2i and decoded byte i at 2i + 1 |
| QMCKeyDecoder.TeaKeyOfPrefix | QMCDecode/QMCKeyDecoder.swift:39-42 | the TEA key depends on the first 8 decoded bytes only |
| QMCKeyDecoder.DerivedKey | QMCDecode/QMCKeyDecoder.swift:27-50 | no contract: deriveKey's canNotConstructBase64Key, then keyLengthTooShort below 16 decoded bytes, then the first 8 decoded bytes followed by the unwrapped rest; DerivedKeyShape and DerivedKeyOfWrap state its properties |
| QMCKeyDecoder.DeriveKey | QMCDecode/QMCKeyDecoder.swift:27-50 | the method throws and returns exactly as the derivation function does |
| QMCKeyDecoder.DerivedKeyShape | QMCDecode/QMCKeyDecoder.swift:27-50 | a derived key means Base64 decoding succeeded with at least 16 bytes, and the key keeps the first 8 of them and is 16 bytes shorter |
| QMCKeyDecoder.DerivedKeyOfWrap | QMCDecode/QMCKeyDecoder.swift:27-50 | a blob of 8 bytes followed by a good frame encrypted under the key they select derives those 8 bytes and the payload |
| QMCiphers.ReducedOffset | QMCDecode/QMCipher.swift:43 | t is at most 0x7FFF, agrees with the offset modulo 0x7FFF, and is the offset itself up to 0x7FFF |
| QMCiphers.MaskIndex | QMCDecode/QMCipher.swift:42-46 | the key index getMask reads is below 256 |
| QMCiphers.MaskIndexPeriod | QMCDecode/QMCipher.swift:42-46 | away from 0 and 0x7FFF the mask repeats with period 0x7FFF |
| QMCiphers.MaskIndexAtBoundary | QMCDecode/QMCipher.swift:43 | offsets 0 and 0xFFFE read the same index but 0x7FFF reads the next one, since 0x7FFF is not reduced |
| QMCiphers.Pow2Byte | QMCDecode/QMCipher.swift:76-81 | the shift factor 2^r of rotate is never zero |
| QMCiphers.Rotate | QMCDecode/QMCipher.swift:76-81 | no contract: `((value << r) \| (value >> r)) & 0xff` on a UInt8 with r = (bits + 4) % 8, the left shift as a wrapping multiplication by 2^r and the right shift as division by 2^r; the three lemmas below state its behaviour |
| QMCiphers.RotateIdentity | QMCDecode/QMCipher.swift:76-81 | with bits % 8 == 4, rotate returns the byte unchanged |
| QMCiphers.RotateSwapsNibbles | QMCDecode/QMCipher.swift:76-81 | with bits % 8 == 0 (a shift by 4 each way), applying rotate twice gives the byte back |
| QMCiphers.RotateIsNotRotation | QMCDecode/QMCipher.swift:76-81 | for other amounts rotate is not a rotation: 0x02 with bits 5 gives 0x05 |
| QMCiphers.TableMask | QMCDecode/QMCipher.swift:42-46 | no contract: getMask, key[index] for the static cipher and, as at lines 70-74, rotate(key[index], index & 7) for the map cipher, with index = MaskIndex(offset) |
| QMCiphers.LongKeyInRange | QMCDecode/QMCipher.swift:42-46 | a key of at least 256 bytes never makes getMask index out of range |
| QMCiphers.TableStream | QMCDecode/QMCipher.swift:36-38 | the mask stream has one byte per data byte |
| QMCiphers.TableDecrypt | QMCDecode/QMCipher.swift:34-39 | byte i of the output is data[i] XOR getMask(offset + i) |
| QMCiphers.TableDecryptTwice | QMCDecode/QMCipher.swift:34-39 | decrypting twice at the same offset gives the data back |
| QMCiphers.TableDecryptSplit | QMCDecode/QMCipher.swift:34-39 | decrypting two pieces at their own absolute offsets gives the same bytes as decrypting the whole |
| QMCiphers.TableQmDecrypt | QMCDecode/QMCipher.swift:34-39 | the loop returns the table decryption, so the two properties above hold for it |
| QMCiphers.StaticCipher.constructor | QMCDecode/QMCipher.swift:30-31 | key and keyLength are the given key and its length |
| QMCiphers.StaticCipher.Create | QMCDecode/QMCipher.swift:26-32 | an empty key throws invalidKeyLength, otherwise a cipher holding the key |
| QMCiphers.StaticCipher.QmDecrypt | QMCDecode/QMCipher.swift:34-46 | qmDecrypt is the static table decryption with addend 27 |
| QMCiphers.MapCipher.constructor | QMCDecode/QMCipher.swift:58-59 | key and keyLength are the given key and its length |
| QMCiphers.MapCipher.Create | QMCDecode/QMCipher.swift:54-60 | an empty key throws invalidKeyLength, otherwise a cipher holding the key |
| QMCiphers.MapCipher.QmDecrypt | QMCDecode/QMCipher.swift:62-74 | qmDecrypt is the map table decryption with addend 71214 and rotate |
| QMCiphers.InitialBox | QMCDecode/QMCipher.swift:103-106 | the initial box has one entry per key byte |
| QMCiphers.InitialBoxEntry | QMCDecode/QMCipher.swift:103-106 | initial entry i is i & 0xFF, never more than i |
| QMCiphers.SwapIsUpdate | QMCDecode/QMCipher.swift:111 | the tuple swap equals assigning seedBox[index] and then seedBox[tempIndex] |
| QMCiphers.SwapPermutes | QMCDecode/QMCipher.swift:111 | a swap keeps every value and its multiplicity |
| QMCiphers.Scheduled | QMCDecode/QMCipher.swift:108-113 | after any number of scheduling passes the box keeps the key's length and tempIndex stays inside it |
| QMCiphers.ScheduledPermutes | QMCDecode/QMCipher.swift:108-113 | after any number of scheduling passes the box is a rearrangement of the initial box |
| QMCiphers.NextScheduling | QMCDecode/QMCipher.swift:110-111 | one scheduling pass keeps the box length and tempIndex inside the box |
| QMCiphers.NextSchedulingPermutes | QMCDecode/QMCipher.swift:110-111 | one scheduling pass keeps every value of the box and its multiplicity |
| QMCiphers.Mod | QMCDecode/QMCipher.swift:110 | the remainder is below the key length |
| QMCiphers.ModIsRemainder | QMCDecode/QMCipher.swift:110 | the subtraction-based remainder is Swift's `%` on non-negative operands |
| QMCiphers.RemainderUnique | QMCDecode/QMCipher.swift:110 | x = q·n + r with 0 ≤ r < n fixes r as x % n |
| QMCiphers.SmallRemainder | QMCDecode/QMCipher.swift:110 | `originKey[index % keyLength]` is `originKey[index]` inside the loop |
| QMCiphers.SeedBoxOf | QMCDecode/QMCipher.swift:103-113 | the seed box after both loops of init has one entry per key byte (SeedBoxIsRearrangement states its contents) |
| QMCiphers.SeedBoxIsRearrangement | QMCDecode/QMCipher.swift:103-114 | the seed box has the key's length, is a rearrangement of the values i & 0xFF, and every entry is below the key length |
| QMCiphers.HashFrom | QMCDecode/QMCipher.swift:117-129 | the hash loop never lowers the running value, and when it changes it, the value passed through a non-zero key byte whose wrapped product was strictly larger |
| QMCiphers.KeyHash | QMCDecode/QMCipher.swift:115-129 | hashValue is at least 1 |
| QMCiphers.KeyHashOfSmallBytes | QMCDecode/QMCipher.swift:117-129 | a key of zero and one bytes leaves hashValue at 1 |
| QMCiphers.SegmentKey | QMCDecode/QMCipher.swift:132-136 | getSegmentKey is a valid key index |
| QMCiphers.Advance | QMCDecode/QMCipher.swift:207-210 | one pass of encodeAllSegment keeps left, right and the box length valid |
| QMCiphers.AdvancedBy | QMCDecode/QMCipher.swift:200-210 | any number of passes over a copy of the seed box keeps the indices valid |
| QMCiphers.Output | QMCDecode/QMCipher.swift:213-214 | no contract: the byte encodeAllSegment XORs in, newSeedBox[(newSeedBox[left] + newSeedBox[right]) % originKeyLength] |
| QMCiphers.Rc4Mask | QMCDecode/QMCipher.swift:193-217 | no contract: the key stream byte at absolute offset o, from encodeFirstSegment below 128 and from encodeAllSegment started at o's segment otherwise (SegmentMaskIsRc4Mask and StreamInSegment tie it to those methods) |
| QMCiphers.Rc4Stream | QMCDecode/QMCipher.swift:138-191 | the RC4 key stream for n bytes from an absolute offset has n bytes (Rc4StreamAt gives each byte) |
| QMCiphers.Rc4Decrypt | QMCDecode/QMCipher.swift:138-191 | RC4 qmDecrypt as a function keeps the data length (Rc4DecryptAt, Rc4DecryptTwice and Rc4DecryptSplit give its bytes, inverse and split) |
| QMCiphers.MaskStreamAt | QMCDecode/QMCipher.swift:138-191 | byte i of a mask stream is the mask at offset + i |
| QMCiphers.MaskStreamConcat | QMCDecode/QMCipher.swift:138-191 | a mask stream cut at s is the first s bytes followed by the stream from offset + s |
| QMCiphers.Rc4StreamAt | QMCDecode/QMCipher.swift:138-191 | byte i of the RC4 stream is the mask at absolute offset offset + i |
| QMCiphers.Rc4StreamSplit | QMCDecode/QMCipher.swift:138-191 | both halves of an RC4 stream cut at s are the streams of the two pieces |
| QMCiphers.Rc4DecryptAt | QMCDecode/QMCipher.swift:138-191 | byte i of the RC4 output is data[i] XOR the mask at absolute offset offset + i |
| QMCiphers.Rc4DecryptTwice | QMCDecode/QMCipher.swift:138-191 | RC4 decrypting twice at the same offset gives the data back |
| QMCiphers.Rc4DecryptSplit | QMCDecode/QMCipher.swift:138-191 | RC4 decrypting two pieces at their own absolute offsets gives the same bytes as decrypting the whole |
| QMCiphers.NextBoundary | QMCDecode/QMCipher.swift:165-166 | the alignment piece ends on a segment boundary |
| QMCiphers.NextSegment | QMCDecode/QMCipher.swift:176-180 | a whole segment from a boundary ends on a boundary |
| QMCiphers.DivModInSegment | QMCDecode/QMCipher.swift:202 | inside one segment, offset / 5120 is fixed and offset % 5120 grows with the position |
| QMCiphers.SegmentMaskIsRc4Mask | QMCDecode/QMCipher.swift:199-217 | encodeAllSegment on a piece inside one segment gives each byte the key stream of its absolute offset |
| QMCiphers.Rc4StreamEntry | QMCDecode/QMCipher.swift:138-191 | one entry of the RC4 stream is the mask at its absolute offset |
| QMCiphers.StreamInFirstSegment | QMCDecode/QMCipher.swift:193-197 | inside the first 128 bytes the stream is what encodeFirstSegment XORs in |
| QMCiphers.StreamInSegment | QMCDecode/QMCipher.swift:199-217 | inside one later segment the stream is what encodeAllSegment XORs into the piece starting there |
| QMCiphers.StreamEntryInSegment | QMCDecode/QMCipher.swift:199-217 | one entry of the stream inside a later segment is encodeAllSegment's byte for it |
| QMCiphers.RC4Cipher.constructor | QMCDecode/QMCipher.swift:98-129 | the object holds the key, the scheduled seed box and the key hash |
| QMCiphers.RC4Cipher.Create | QMCDecode/QMCipher.swift:93-97 | an empty key throws invalidKeyLength, otherwise a scheduled cipher |
| QMCiphers.RC4Cipher.ScheduleBox | QMCDecode/QMCipher.swift:103-113 | both seedBox loops leave the seed box, which is a rearrangement of the initial box |
| QMCiphers.RC4Cipher.ScheduleStep | QMCDecode/QMCipher.swift:109-112 | one pass of the scheduling loop is one scheduling pass |
| QMCiphers.RC4Cipher.Remainder | QMCDecode/QMCipher.swift:110 | Swift's `%` on the new tempIndex is the remainder used by the scheduling passes |
| QMCiphers.RC4Cipher.InitialSeedBox | QMCDecode/QMCipher.swift:103-106 | the first loop writes index & 0xff at every index |
| QMCiphers.RC4Cipher.HashKey | QMCDecode/QMCipher.swift:115-129 | the hash loop computes the key hash, which is at least 1 |
| QMCiphers.RC4Cipher.EncodeFirstSegment | QMCDecode/QMCipher.swift:193-197 | byte i becomes data[i] XOR originKey[getSegmentKey(offset + i)] |
| QMCiphers.RC4Cipher.EncodeAllSegment | QMCDecode/QMCipher.swift:199-217 | byte i becomes data[i] XOR the RC4 output after skipLength + i + 1 passes over a copy of the seed box; seedBox is not changed |
| QMCiphers.RC4Cipher.QmDecrypt | QMCDecode/QMCipher.swift:138-191 | the four-stage piecewise loop returns data XOR the RC4 stream at absolute offsets, so it is self-inverse and splits |
| QMCiphers.RC4Cipher.DecryptRest | QMCDecode/QMCipher.swift:164-190 | the alignment piece and the later stages XOR every remaining byte with its stream byte |
| QMCiphers.RC4Cipher.DecryptSegments | QMCDecode/QMCipher.swift:175-190 | whole segments and the rest XOR every remaining byte with its stream byte |
| QMCiphers.RC4Cipher.ReplaceFirstSegment | QMCDecode/QMCipher.swift:154-158 | encoding the first-segment piece and putting it back extends the XORed prefix |
| QMCiphers.RC4Cipher.ReplaceAllSegment | QMCDecode/QMCipher.swift:165-169 | encoding a piece inside one segment and putting it back extends the XORed prefix |
| QMCiphers.GeneratorStream | QMCDecode/QMCipher.swift:206-216 | the generator emits one byte per data byte |
| QMCiphers.GeneratorStreamAt | QMCDecode/QMCipher.swift:212-214 | byte i of the generator stream is the output after skip + i + 1 passes |
| QMCiphers.RunGenerator | QMCDecode/QMCipher.swift:200-216 | the loop from −skipLength XORs data with the generator stream |
| QMCiphers.FirstPieceXored | QMCDecode/QMCipher.swift:154-158 | a first-segment piece put back with replaceSubrange extends the XORed prefix |
| QMCiphers.SegmentPieceXored | QMCDecode/QMCipher.swift:165-187 | a later-segment piece put back with replaceSubrange extends the XORed prefix |
| QMCiphers.XorPiece | QMCDecode/QMCipher.swift:158 | replaceSubrange with the next bytes XORed extends the XORed prefix and leaves the rest untouched |
| QMCiphers.XoredAll | QMCDecode/QMCipher.swift:190 | a fully XORed result is data XOR the stream |
| QMCiphers.XorOneMore | QMCDecode/QMCipher.swift:214 | XORing byte k in place extends the XORed prefix by one |
| QMCiphers.Pass | QMCDecode/QMCipher.swift:206-216 | one loop pass advances the generator and XORs its output once index is not negative |
| QMCiphers.AdvanceStep | QMCDecode/QMCipher.swift:207-214 | the index updates, the tuple swap and the emitted byte are one generator pass and its output |
| QMCiphers.CipherDecrypt | QMCDecode/QMCipher.swift:11-15 | qmDecrypt through the protocol keeps the data length |
| QMCiphers.QmDecrypt | QMCDecode/QMCipher.swift:11-15 | a protocol call returns the chosen cipher's decryption |
| QMCiphers.CipherDecryptTwice | QMCDecode/QMCipher.swift:13 | every cipher is its own inverse at a fixed offset |
| QMCiphers.CipherDecryptSplit | QMCDecode/QMCipher.swift:13 | every cipher can decrypt data in two pieces at their own absolute offsets |
| QMDecoding.ReadUpTo | QMCDecode/QMDecoder.swift:108 | read(upToCount:) returns nil exactly when nothing is left to read, else at most count bytes from the position |
| QMDecoding.FirstIndexOf | QMCDecode/QMDecoder.swift:113 | firstIndex(of:) is the first position holding the byte, or nil when none does |
| QMDecoding.CipherFor | QMCDecode/QMDecoder.swift:146-150 | a derived key gives a cipher exactly when it is non-empty; the cipher holds that key, is never the static cipher, and is RC4 exactly when the key is longer than 300 bytes |
| QMDecoding.ChosenCipher | QMCDecode/QMDecoder.swift:142-151 | setCipher as a function: a deriveKey error is rethrown, and a chosen cipher holds exactly the key deriveKey returned |
| QMDecoding.MakeCipher | QMCDecode/QMDecoder.swift:146-150 | a derived key longer than 300 bytes builds an RC4 cipher, a shorter non-empty one a map cipher, and an empty one throws |
| QMDecoding.LocatedKey | QMCDecode/QMDecoder.swift:87-138 | realAudioSize never exceeds the file length |
| QMDecoding.MobileLayout | QMCDecode/QMDecoder.swift:93-107 | in a mobile file the marker is last, the length before it, and the region before that ends where the audio ends |
| QMDecoding.MobileSearch | QMCDecode/QMDecoder.swift:93-118 | searchKey on a QTag file whose region holds the blob and a comma returns the audio length and the blob |
| QMDecoding.FirstIndexOfBlob | QMCDecode/QMDecoder.swift:113 | the first comma after a comma-free blob is at the blob's length |
| QMDecoding.MobileFileResolves | QMCDecode/QMDecoder.swift:93-118 | audio + blob + "," + rest + BE32(region length) + "QTag" resolves to the audio length and the blob |
| QMDecoding.DesktopFileResolves | QMCDecode/QMDecoder.swift:120-133 | audio + blob + LE32(blob length), the length in 1 ..< 0x300, resolves to the audio length and the blob |
| QMDecoding.FixedKeyFileResolves | QMCDecode/QMDecoder.swift:134-138 | a file with no QTag and a little-endian length of at least 0x300 is decrypted whole with the static cipher on the private key |
| QMDecoding.SearchedKey | QMCDecode/QMDecoder.swift:79-140 | searchKey as a function: realAudioSize never exceeds the file length, and the static cipher is chosen only with the private key over the whole file |
| QMDecoding.LocatedKeyTiles | QMCDecode/QMDecoder.swift:79-140 | audio, key region and trailer tile the file: 8 trailer bytes for QTag, 4 for desktop, none for the fixed key |
| QMDecoding.ChosenCipherNeverRejectsKey | QMCDecode/QMDecoder.swift:142-151 | setCipher never throws invalidKeyLength, because a derived key is never empty |
| QMDecoding.ChosenCipherOfWrap | QMCDecode/QMDecoder.swift:142-151 | a blob that unwraps to key k selects RC4 exactly when k is longer than 300 bytes, and the map cipher otherwise |
| QMDecoding.LE32Bytes | QMCDecode/QMDecoder.swift:121-123 | a little-endian length takes four bytes |
| QMDecoding.QMDecoder.constructor | QMCDecode/QMDecoder.swift:34-46 | the decoder holds the file and its length, with realAudioSize 0 and no cipher |
| QMDecoding.QMDecoder.Create | QMCDecode/QMDecoder.swift:34-49 | init fails with searchKey's error, or holds the audio length and a fresh cipher of the chosen kind |
| QMDecoding.QMDecoder.SearchKey | QMCDecode/QMDecoder.swift:79-140 | searchKey sets realAudioSize as the trailer says and either throws, keeping the cipher, or sets a fresh cipher of the chosen kind |
| QMDecoding.QMDecoder.SetCipher | QMCDecode/QMDecoder.swift:142-151 | setCipher derives the key and sets RC4 above 300 bytes and the map cipher otherwise, or throws and keeps the old cipher |
| QMDecoding.QMDecoder.DecryptPayload | QMCDecode/QMDecoder.swift:51-69 | an empty or unknown extension or no cipher throws unsupportFileExtension; nothing to read throws canNotReadFile; otherwise the output extension and the first realAudioSize bytes decrypted at offset 0 |
| QMDecoding.QMDecoder.Payload | QMCDecode/QMDecoder.swift:56 | the bytes read are the file's first min(realAudioSize, length) bytes |

## Left out

- Foundation's Base64 decoding is a function parameter of `DeriveKey`, `DerivedKey`, `SetCipher`, `SearchKey` and `Create`. The model does not implement Base64.
- `simpleMakeKey` computes `tan` in floating point; the model uses its 8 resulting bytes for seed 106 and length 8 as the constant `SimpleKey`.
- The floating-point expression in `getSegmentKey`, `Int(floor(Double(hash) / (Double(index + 1) * Double(seed)) * 100))`, is a function parameter (`SegmentQuotient`). The model keeps the indexing around it and the final `% originKeyLength`. A zero seed byte gives an infinite quotient, which traps in Swift; the parameter hides this.
- QMCiphers.SegmentKey: does not state the quotient's value, because that value comes from the floating-point parameter above.
- QMCiphers.Rotate: the definition is the general formula; only the lemmas about it are limited, stating what rotate does for shifts of 0 and 4 and one counterexample for the other shifts, and no general property beyond those.
- The file system is left out: file handles, input streams, `FileManager` attributes, seeking, closing and writing the output file. The file is a byte sequence held by the decoder, and `originFilePath` and `outputDirectory` are not modelled. The errors only these calls throw are left out: canNotReadFileByStream, canNotGetFileLength and canNotReadSizeBuffer.
- QMDecoding.ReadUpTo: returns nil for an empty read, including a read of zero bytes, so a desktop trailer of length 0 throws canNotReadRawKeyBuffer. Foundation's behaviour at end of file is otherwise not modelled.
- QMDecoding.QMDecoder.DecryptPayload: takes the path extension and `encryptExtDictionary` (a table defined outside the decoder) as parameters, and maps each extension to its output extension only. It returns the bytes instead of writing them.
- `matchingDecoder` has empty branches and is left out.
- Swift rethrows the errors of `deriveKey` and of the cipher initialisers unchanged; the model wraps them in `KeyDecodingFailed` and `CipherFailed` so that one `Result` type carries all of them.
- `privateKey256` is defined outside the core; `PrivateKey256` is an unspecified 256-byte constant.
- Offsets and sizes are `nat`. The negative values Swift's `Int` allows never reach these functions, and the negative seeks that trap in Swift are excluded by the precondition `Searchable`.
- Swift traps become preconditions:
  - out-of-range key indexing in the table ciphers (`MasksInRange`; a derived key shorter than 256 bytes can trap the map cipher);
  - short TEA inputs (`|src| >= 8`);
  - negative seeks in `searchKey` (`Searchable`).
- Arrays and `Data` are value sequences (`seq<Byte>`). `inout` parameters and `replaceSubrange` are modelled as returning the new sequence, so in-place aliasing is not modelled.
- The nested `postProcessed` of `qmDecrypt` is inlined: its three counter updates sit at each stage.
- Where the static cipher's initialiser cannot fail, the non-throwing constructor is used: the private key is not empty, and a key longer than 300 bytes for RC4 is not empty either.
- The zero check is modelled as written: it compares one position seven times.
- The host byte order is taken to be little-endian: `load(as:).bigEndian` and `CFSwapInt32HostToBig` are modelled as big-endian reads and writes.
