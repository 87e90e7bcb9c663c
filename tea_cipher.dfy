/**
 * TEA (Wheeler and Needham's Tiny Encryption Algorithm) on one 8-byte block,
 * with a 16-byte key and an even, configurable number of rounds (a "round"
 * here is half a cycle: rounds / 2 cycles are run). Words are read and written
 * big-endian, and all arithmetic wraps modulo 2^32.
 */
module Tea {
  import opened ByteOrder
  import opened Results

  datatype TeaCipherError = KeySizeInvalid | OddNumberOfRoundsSpecified

  const BlockSize: nat := 8
  const KeySize: nat := 16
  const Delta: Word := 0x9E37_79B9
  /** The round count used when a caller gives none. */
  const NumRounds: Word := 64

  /** The four key words key0..key3. */
  datatype KeySchedule = KeySchedule(k0: Word, k1: Word, k2: Word, k3: Word)

  /** The two halves v0, v1 of a block. */
  datatype Words = Words(v0: Word, v1: Word)

  /** key0..key3 are the big-endian words of key bytes [0,4), [4,8), [8,12), [12,16). */
  function ScheduleOf(key: seq<Byte>): KeySchedule
    requires |key| == KeySize
  {
    KeySchedule(BE32(key, 0), BE32(key, 4), BE32(key, 8), BE32(key, 12))
  }

  /** Serialising each key word big-endian gives back the four key bytes it was read from. */
  lemma ScheduleOfBytes(key: seq<Byte>)
    requires |key| == KeySize
    ensures BE32Bytes(ScheduleOf(key).k0) == key[0..4] && BE32Bytes(ScheduleOf(key).k1) == key[4..8]
    ensures BE32Bytes(ScheduleOf(key).k2) == key[8..12] && BE32Bytes(ScheduleOf(key).k3) == key[12..16]
  {
    var ks := ScheduleOf(key);
    assert BE32Bytes(ks.k0) == key[0..4] by { BE32BytesAt(key, 0); }
    assert BE32Bytes(ks.k1) == key[4..8] by { BE32BytesAt(key, 4); }
    assert BE32Bytes(ks.k2) == key[8..12] by { BE32BytesAt(key, 8); }
    assert BE32Bytes(ks.k3) == key[12..16] by { BE32BytesAt(key, 12); }
  }

  /** The Feistel function ((v << 4) &+ a) ^ (v &+ sum) ^ ((v >> 5) &+ b) on UInt32. */
  function Mix(v: Word, sum: Word, a: Word, b: Word): Word {
    Xor(Xor(Add(v * 16 % Modulus, a), Add(v, sum)), Add(v / 32, b))
  }

  /** One encryption cycle with the running sum already advanced. */
  function EncryptCycle(ks: KeySchedule, w: Words, sum: Word): Words {
    var v0 := Add(w.v0, Mix(w.v1, sum, ks.k0, ks.k1));
    Words(v0, Add(w.v1, Mix(v0, sum, ks.k2, ks.k3)))
  }

  /** One decryption cycle, before the running sum is stepped back. */
  function DecryptCycle(ks: KeySchedule, w: Words, sum: Word): Words {
    var v1 := Sub(w.v1, Mix(w.v0, sum, ks.k2, ks.k3));
    Words(Sub(w.v0, Mix(v1, sum, ks.k0, ks.k1)), v1)
  }

  /** The running sum after count cycles of encryption: count wrapping additions of Delta. */
  function SumAfter(count: nat): Word {
    if count == 0 then 0 else Add(SumAfter(count - 1), Delta)
  }

  /** The running sum the decryptor starts from, delta &* count, is the sum encryption reaches after count cycles. */
  lemma {:induction false} SumAfterIsProduct(count: Word)
    ensures SumAfter(count) == Mul(Delta, count)
  {
    if count != 0 {
      SumAfterIsProduct(count - 1);
      AddMod(Delta * (count - 1), Delta);
    }
  }

  lemma AddMod(x: nat, y: nat)
    ensures (x % Modulus + y) % Modulus == (x + y) % Modulus
  {
    var q := x / Modulus;
    assert x == q * Modulus + x % Modulus;
    assert x + y == q * Modulus + (x % Modulus + y);
    ModShift(q, x % Modulus + y);
  }

  lemma ModShift(q: nat, r: nat)
    ensures (q * Modulus + r) % Modulus == r % Modulus
  {}

  /** Encryption cycles 1..count; cycle i runs with sum == SumAfter(i). */
  function EncryptCycles(ks: KeySchedule, w: Words, count: nat): Words
    decreases count
  {
    if count == 0 then w else EncryptCycle(ks, EncryptCycles(ks, w, count - 1), SumAfter(count))
  }

  /** count decryption cycles starting from the running sum `sum`, which drops by Delta per cycle. */
  function DecryptCycles(ks: KeySchedule, w: Words, sum: Word, count: nat): Words
    decreases count
  {
    if count == 0 then w else DecryptCycles(ks, DecryptCycle(ks, w, sum), Sub(sum, Delta), count - 1)
  }

  lemma DecryptCycleUndoesEncryptCycle(ks: KeySchedule, w: Words, sum: Word)
    ensures DecryptCycle(ks, EncryptCycle(ks, w, sum), sum) == w
  {
    var e := EncryptCycle(ks, w, sum);
    SubAdd(w.v1, Mix(e.v0, sum, ks.k2, ks.k3));
    SubAdd(w.v0, Mix(w.v1, sum, ks.k0, ks.k1));
  }

  lemma EncryptCycleUndoesDecryptCycle(ks: KeySchedule, w: Words, sum: Word)
    ensures EncryptCycle(ks, DecryptCycle(ks, w, sum), sum) == w
  {
    var d := DecryptCycle(ks, w, sum);
    AddSub(w.v0, Mix(d.v1, sum, ks.k0, ks.k1));
    AddSub(w.v1, Mix(w.v0, sum, ks.k2, ks.k3));
  }

  /** Stepping the running sum back by Delta gives the sum one cycle earlier. */
  lemma SumAfterStepBack(count: nat)
    requires count > 0
    ensures Sub(SumAfter(count), Delta) == SumAfter(count - 1)
  {
    SubAdd(SumAfter(count - 1), Delta);
  }

  /** v0 and v1: the big-endian words of src[0..4) and src[4..8); later bytes are ignored. */
  function WordsOf(src: seq<Byte>): Words
    requires |src| >= BlockSize
  {
    Words(BE32(src, 0), BE32(src, 4))
  }

  /** v0 then v1, each serialised big-endian. */
  function BytesOf(w: Words): (r: seq<Byte>)
    ensures |r| == BlockSize
  {
    BE32Bytes(w.v0) + BE32Bytes(w.v1)
  }

  /** TEA encryption of the first 8 bytes of src: rounds / 2 cycles, sum counting up from 0. */
  function EncryptBlock(ks: KeySchedule, rounds: Word, src: seq<Byte>): (r: seq<Byte>)
    requires |src| >= BlockSize
    ensures |r| == BlockSize
  {
    BytesOf(EncryptCycles(ks, WordsOf(src), rounds / 2))
  }

  /** TEA decryption of the first 8 bytes of src: rounds / 2 cycles, sum counting down from where encryption ends. */
  function DecryptBlock(ks: KeySchedule, rounds: Word, src: seq<Byte>): (r: seq<Byte>)
    requires |src| >= BlockSize
    ensures |r| == BlockSize
  {
    BytesOf(DecryptCycles(ks, WordsOf(src), SumAfter(rounds / 2), rounds / 2))
  }

  lemma WordsOfBytesOf(w: Words)
    ensures WordsOf(BytesOf(w)) == w
  {
    var hi, lo := BE32Bytes(w.v0), BE32Bytes(w.v1);
    Halves(hi, lo);
    BE32OfBytes(w.v0);
    BE32OfBytes(w.v1);
    assert BE32(hi + lo, 0) == BE32(hi, 0);
    assert BE32(hi + lo, 4) == BE32(lo, 0);
  }

  /** The two 4-byte halves of an 8-byte block. */
  lemma Halves(hi: seq<Byte>, lo: seq<Byte>)
    requires |hi| == 4 && |lo| == 4
    ensures (hi + lo)[0..4] == hi && (hi + lo)[4..8] == lo
  {
  }

  lemma BytesOfWordsOf(b: seq<Byte>)
    requires |b| == BlockSize
    ensures BytesOf(WordsOf(b)) == b
  {
    var w := WordsOf(b);
    assert BE32Bytes(w.v0) == b[0..4] by {
      BE32BytesAt(b, 0);
    }
    assert BE32Bytes(w.v1) == b[4..8] by {
      BE32BytesAt(b, 4);
    }
    assert b == b[0..4] + b[4..8];
  }

  /** Decryption cycles undo encryption cycles when started from the sum encryption ended with. */
  lemma {:induction false} DecryptCyclesUndoEncryptCycles(ks: KeySchedule, w: Words, count: nat)
    ensures DecryptCycles(ks, EncryptCycles(ks, w, count), SumAfter(count), count) == w
    decreases count
  {
    if count != 0 {
      var prev := EncryptCycles(ks, w, count - 1);
      var sum := SumAfter(count);
      DecryptCycleUndoesEncryptCycle(ks, prev, sum);
      assert DecryptCycle(ks, EncryptCycles(ks, w, count), sum) == prev;
      SumAfterStepBack(count);
      DecryptCyclesUndoEncryptCycles(ks, w, count - 1);
      assert DecryptCycles(ks, prev, SumAfter(count - 1), count - 1) == w;
    }
  }

  /** Encryption cycles undo decryption cycles that started from SumAfter(count). */
  lemma {:induction false} EncryptCyclesUndoDecryptCycles(ks: KeySchedule, w: Words, count: nat)
    ensures EncryptCycles(ks, DecryptCycles(ks, w, SumAfter(count), count), count) == w
    decreases count
  {
    if count != 0 {
      var sum := SumAfter(count);
      var first := DecryptCycle(ks, w, sum);
      SumAfterStepBack(count);
      assert DecryptCycles(ks, w, sum, count) == DecryptCycles(ks, first, SumAfter(count - 1), count - 1);
      EncryptCyclesUndoDecryptCycles(ks, first, count - 1);
      EncryptCycleUndoesDecryptCycle(ks, w, sum);
    }
  }

  /** decrypt(encrypt(b)) == b for every 8-byte block, key and round count. */
  lemma DecryptBlockInvertsEncryptBlock(ks: KeySchedule, rounds: Word, b: seq<Byte>)
    requires |b| == BlockSize
    ensures DecryptBlock(ks, rounds, EncryptBlock(ks, rounds, b)) == b
  {
    var w := EncryptCycles(ks, WordsOf(b), rounds / 2);
    WordsOfBytesOf(w);
    DecryptCyclesUndoEncryptCycles(ks, WordsOf(b), rounds / 2);
    BytesOfWordsOf(b);
  }

  /** encrypt(decrypt(b)) == b for every 8-byte block, key and round count. */
  lemma EncryptBlockInvertsDecryptBlock(ks: KeySchedule, rounds: Word, b: seq<Byte>)
    requires |b| == BlockSize
    ensures EncryptBlock(ks, rounds, DecryptBlock(ks, rounds, b)) == b
  {
    var w := DecryptCycles(ks, WordsOf(b), SumAfter(rounds / 2), rounds / 2);
    WordsOfBytesOf(w);
    EncryptCyclesUndoDecryptCycles(ks, WordsOf(b), rounds / 2);
    BytesOfWordsOf(b);
  }

  /** Only the first 8 bytes of src take part in its decryption. */
  lemma DecryptBlockOfPrefix(ks: KeySchedule, rounds: Word, src: seq<Byte>)
    requires |src| >= BlockSize
    ensures DecryptBlock(ks, rounds, src) == DecryptBlock(ks, rounds, src[..BlockSize])
  {
    assert src[0..4] == src[..BlockSize][0..4] && src[4..8] == src[..BlockSize][4..8];
  }

  /** The cipher object: the key words and the round count, fixed by the initialiser. */
  class TeaCipher {
    var key0: Word
    var key1: Word
    var key2: Word
    var key3: Word
    var rounds: Word

    function Schedule(): KeySchedule
      reads this
    {
      KeySchedule(key0, key1, key2, key3)
    }

    /** The assignments of the initialiser, once its two checks have passed. */
    constructor (key: seq<Byte>, rounds: Word)
      requires |key| == KeySize && rounds % 2 == 0
      ensures Schedule() == ScheduleOf(key) && this.rounds == rounds
    {
      this.rounds := rounds;
      key0 := BE32(key, 0);
      key1 := BE32(key, 4);
      key2 := BE32(key, 8);
      key3 := BE32(key, 12);
    }

    /** The throwing initialiser: the key size is checked first, then the parity of rounds. */
    static method Create(key: seq<Byte>, rounds: Word := NumRounds) returns (r: Result<TeaCipher, TeaCipherError>)
      ensures |key| != KeySize ==> r == Failure(KeySizeInvalid)
      ensures |key| == KeySize && rounds % 2 != 0 ==> r == Failure(OddNumberOfRoundsSpecified)
      ensures |key| == KeySize && rounds % 2 == 0 ==>
        r.Success? && fresh(r.value) && r.value.Schedule() == ScheduleOf(key) && r.value.rounds == rounds
    {
      if |key| != KeySize {
        return Failure(KeySizeInvalid);
      }
      if rounds % 2 != 0 {
        return Failure(OddNumberOfRoundsSpecified);
      }
      var c := new TeaCipher(key, rounds);
      r := Success(c);
    }

    /** Encrypts the block in src[0..8); src may be longer, but not shorter. */
    method Encrypt(src: seq<Byte>) returns (r: seq<Byte>)
      requires |src| >= BlockSize
      ensures r == EncryptBlock(Schedule(), rounds, src)
    {
      var v0 := BE32(src, 0);
      var v1 := BE32(src, 4);
      var sum: Word := 0;
      for i := 0 to rounds / 2
        invariant sum == SumAfter(i)
        invariant Words(v0, v1) == EncryptCycles(Schedule(), WordsOf(src), i)
      {
        sum := Add(sum, Delta);
        v0 := Add(v0, Mix(v1, sum, key0, key1));
        v1 := Add(v1, Mix(v0, sum, key2, key3));
      }
      r := BE32Bytes(v0) + BE32Bytes(v1);
    }

    /** Decrypts the block in src[0..8); src may be longer, but not shorter. */
    method Decrypt(src: seq<Byte>) returns (r: seq<Byte>)
      requires |src| >= BlockSize
      ensures r == DecryptBlock(Schedule(), rounds, src)
    {
      var v0 := BE32(src, 0);
      var v1 := BE32(src, 4);
      var half := rounds / 2;
      var sum := Mul(Delta, half);
      SumAfterIsProduct(half);
      for i := 0 to half
        invariant sum == SumAfter(half - i)
        invariant DecryptCycles(Schedule(), Words(v0, v1), sum, half - i)
               == DecryptCycles(Schedule(), WordsOf(src), SumAfter(half), half)
      {
        v1 := Sub(v1, Mix(v0, sum, key2, key3));
        v0 := Sub(v0, Mix(v1, sum, key0, key1));
        SumAfterStepBack(half - i);
        sum := Sub(sum, Delta);
      }
      r := BE32Bytes(v0) + BE32Bytes(v1);
    }
  }
}
