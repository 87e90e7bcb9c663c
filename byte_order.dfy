/**
 * Bytes, unsigned 32-bit words and the two byte orders the decoder reads.
 *
 * A Swift `UInt8` is modelled as a `bv8` and a `UInt32` as an integer in
 * [0, 2^32); on words the wrapping operators `&+`, `&-` and `&*`, the shifts
 * and the bitwise exclusive or are written out as integer arithmetic. Swift loads a `UInt32` from raw bytes with
 * `load(as:)` and converts with `.bigEndian` / `.littleEndian`, and serialises
 * with `CFSwapInt32HostToBig`; whatever the host order, the effect is the
 * explicit big- or little-endian decoding and encoding written out here.
 */
module ByteOrder {

  /** One Swift `UInt8`. */
  type Byte = bv8

  const Modulus: int := 0x1_0000_0000

  /** One Swift `UInt32`. */
  type Word = x: int | 0 <= x < 0x1_0000_0000

  /** a &+ b */
  function Add(a: Word, b: Word): Word { (a + b) % Modulus }

  /** a &- b */
  function Sub(a: Word, b: Word): Word { (a - b) % Modulus }

  /** a &* b */
  function Mul(a: Word, b: Word): Word { (a * b) % Modulus }

  /** a ^ b, the bitwise exclusive or of two UInt32 values. */
  function Xor(a: Word, b: Word): Word {
    Pow2Of32();
    BitXor(a, b, 32)
  }

  /** 2^n */
  function Pow2(n: nat): nat {
    if n == 0 then 1 else 2 * Pow2(n - 1)
  }

  lemma Pow2Of32()
    ensures Pow2(32) == Modulus
  {
    assert Pow2(8) == 0x100;
    assert Pow2(16) == 0x1_0000;
    assert Pow2(24) == 0x100_0000;
  }

  /** The exclusive or of the low `width` bits of a and b, bit by bit from the least significant. */
  function BitXor(a: nat, b: nat, width: nat): (r: nat)
    ensures r < Pow2(width)
  {
    if width == 0 then 0 else (a % 2 + b % 2) % 2 + 2 * BitXor(a / 2, b / 2, width - 1)
  }

  /** Wrapping subtraction undoes wrapping addition. */
  lemma SubAdd(a: Word, m: Word)
    ensures Sub(Add(a, m), m) == a
  {}

  /** Wrapping addition undoes wrapping subtraction. */
  lemma AddSub(a: Word, m: Word)
    ensures Add(Sub(a, m), m) == a
  {}

  /** The big-endian 32-bit word in s[i..i+4]. */
  function BE32(s: seq<Byte>, i: nat): Word
    requires i + 4 <= |s|
  {
    Compose(s[i..i + 4])
  }

  /** Encoding a decoded word gives the four bytes it was read from. */
  lemma BE32BytesAt(s: seq<Byte>, i: nat)
    requires i + 4 <= |s|
    ensures BE32Bytes(BE32(s, i)) == s[i..i + 4]
  {
    BytesOfBE32(s[i..i + 4]);
  }

  /** The value of four base-256 digits, most significant first. */
  function Compose(s: seq<Byte>): Word
    requires |s| == 4
  {
    s[0] as int * 0x100_0000 + s[1] as int * 0x1_0000 + s[2] as int * 0x100 + s[3] as int
  }

  /** The four bytes of w, most significant first. */
  function BE32Bytes(w: Word): (r: seq<Byte>)
    ensures |r| == 4
  {
    [ByteOf(w / 0x100_0000), ByteOf(w / 0x1_0000 % 0x100), ByteOf(w / 0x100 % 0x100), ByteOf(w % 0x100)]
  }

  /** The little-endian 32-bit word in s[i..i+4]. */
  function LE32(s: seq<Byte>, i: nat): Word
    requires i + 4 <= |s|
  {
    BE32([s[i + 3], s[i + 2], s[i + 1], s[i]], 0)
  }

  /** The byte whose value is x, counted up from zero (a conversion the solver does not have to bit-blast). */
  function ByteOf(x: nat): Byte
    requires x < 0x100
  {
    if x == 0 then 0 else ByteOf(x - 1) + 1
  }

  lemma {:induction false} ByteOfValue(x: nat)
    requires x < 0x100
    ensures ByteOf(x) as int == x
  {
    if x > 0 {
      ByteOfValue(x - 1);
    }
  }

  /** The byte counted up to a byte's own value is that byte. */
  lemma ByteOfByte(b: Byte)
    ensures ByteOf(b as int) == b
  {
    ByteOfValue(b as int);
  }

  lemma DigitsOfCompose(s: seq<Byte>)
    requires |s| == 4
    ensures Compose(s) / 0x100_0000 == s[0] as int && Compose(s) / 0x1_0000 % 0x100 == s[1] as int
    ensures Compose(s) / 0x100 % 0x100 == s[2] as int && Compose(s) % 0x100 == s[3] as int
  {
    Undigits(s[0] as int, s[1] as int, s[2] as int, s[3] as int);
  }

  lemma DivMod8(q: int, r: int)
    requires 0 <= q && 0 <= r < 0x100
    ensures (q * 0x100 + r) / 0x100 == q && (q * 0x100 + r) % 0x100 == r
  {}

  lemma DivMod16(q: int, r: int)
    requires 0 <= q && 0 <= r < 0x1_0000
    ensures (q * 0x1_0000 + r) / 0x1_0000 == q
  {}

  lemma DivMod24(q: int, r: int)
    requires 0 <= q && 0 <= r < 0x100_0000
    ensures (q * 0x100_0000 + r) / 0x100_0000 == q
  {}

  /** A word is the sum of its four base-256 digits. */
  lemma Digits(w: Word)
    ensures w == (w / 0x100_0000) * 0x100_0000 + (w / 0x1_0000 % 0x100) * 0x1_0000 + (w / 0x100 % 0x100) * 0x100 + w % 0x100
  {
    var a, r := w / 0x100_0000, w % 0x100_0000;
    var b, r' := r / 0x1_0000, r % 0x1_0000;
    var c, d := r' / 0x100, r' % 0x100;
    assert w == a * 0x100_0000 + b * 0x1_0000 + c * 0x100 + d;
    Undigits(a, b, c, d);
  }

  /** The base-256 digits of a four-digit number are the digits it was built from. */
  lemma Undigits(a: int, b: int, c: int, d: int)
    requires 0 <= a < 0x100 && 0 <= b < 0x100 && 0 <= c < 0x100 && 0 <= d < 0x100
    ensures var w := a * 0x100_0000 + b * 0x1_0000 + c * 0x100 + d;
      w / 0x100_0000 == a && w / 0x1_0000 % 0x100 == b && w / 0x100 % 0x100 == c && w % 0x100 == d
  {
    DivMod24(a, b * 0x1_0000 + c * 0x100 + d);
    DivMod16(a * 0x100 + b, c * 0x100 + d);
    DivMod8(a, b);
    DivMod8(a * 0x1_0000 + b * 0x100 + c, d);
    DivMod8(a * 0x100 + b, c);
  }

  /** Decoding what was encoded gives the word back. */
  lemma BE32OfBytes(w: Word)
    ensures BE32(BE32Bytes(w), 0) == w
  {
    var r := BE32Bytes(w);
    ByteOfValue(w / 0x100_0000);
    ByteOfValue(w / 0x1_0000 % 0x100);
    ByteOfValue(w / 0x100 % 0x100);
    ByteOfValue(w % 0x100);
    assert r[0] as int == w / 0x100_0000;
    assert r[1] as int == w / 0x1_0000 % 0x100;
    assert r[2] as int == w / 0x100 % 0x100;
    assert r[3] as int == w % 0x100;
    Digits(w);
  }

  /** Encoding what was decoded gives the four bytes back. */
  lemma BytesOfBE32(s: seq<Byte>)
    requires |s| == 4
    ensures BE32Bytes(Compose(s)) == s
  {
    var w := Compose(s);
    DigitsOfCompose(s);
    ByteOfByte(s[0]);
    ByteOfByte(s[1]);
    ByteOfByte(s[2]);
    ByteOfByte(s[3]);
  }

  /** Byte-wise exclusive or of two sequences of equal length. */
  function XorBytes(a: seq<Byte>, b: seq<Byte>): (r: seq<Byte>)
    requires |a| == |b|
    ensures |r| == |a|
  {
    seq(|a|, i requires 0 <= i < |a| => a[i] ^ b[i])
  }

  /** Xoring byte i of a ^ b with b[i] again gives back a[i]. */
  lemma XorBytesUnmaskAt(a: seq<Byte>, b: seq<Byte>, i: nat)
    requires |a| == |b| && i < |a|
    ensures XorBytes(a, b)[i] ^ b[i] == a[i]
  {
  }

  lemma XorBytesAt(a: seq<Byte>, b: seq<Byte>, i: nat)
    requires |a| == |b| && i < |a|
    ensures XorBytes(a, b)[i] == a[i] ^ b[i]
  {
  }

  /** XOR with the same mask twice is the identity. */
  lemma XorBytesInvolution(a: seq<Byte>, m: seq<Byte>)
    requires |a| == |m|
    ensures XorBytes(XorBytes(a, m), m) == a
  {
    var once := XorBytes(a, m);
    forall i | 0 <= i < |a|
      ensures XorBytes(once, m)[i] == a[i]
    {
      assert once[i] == a[i] ^ m[i];
    }
  }

  /** XORing a with (b XOR a) gives b. */
  lemma XorBytesCancel(a: seq<Byte>, b: seq<Byte>)
    requires |a| == |b|
    ensures XorBytes(a, XorBytes(b, a)) == b
  {
    var inner := XorBytes(b, a);
    forall i | 0 <= i < |a|
      ensures XorBytes(a, inner)[i] == b[i]
    {
      assert inner[i] == b[i] ^ a[i];
    }
  }

  /** XORing (a XOR b) with a again gives b. */
  lemma XorBytesUnmask(a: seq<Byte>, b: seq<Byte>)
    requires |a| == |b|
    ensures XorBytes(XorBytes(a, b), a) == b
  {
    var inner := XorBytes(a, b);
    forall i | 0 <= i < |a|
      ensures XorBytes(inner, a)[i] == b[i]
    {
      assert inner[i] == a[i] ^ b[i];
    }
  }

  /** XOR acts position by position, so it commutes with cutting both operands at the same point. */
  lemma XorBytesSplit(a: seq<Byte>, m: seq<Byte>, s: nat)
    requires |a| == |m| && s <= |a|
    ensures XorBytes(a, m) == XorBytes(a[..s], m[..s]) + XorBytes(a[s..], m[s..])
  {
    var whole, left, right := XorBytes(a, m), XorBytes(a[..s], m[..s]), XorBytes(a[s..], m[s..]);
    forall i | 0 <= i < |a|
      ensures whole[i] == (left + right)[i]
    {
      if i < s {
        assert left[i] == a[i] ^ m[i];
      } else {
        assert right[i - s] == a[i] ^ m[i];
      }
    }
  }
}
