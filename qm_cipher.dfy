/**
 * The three payload ciphers of QMCipher.swift. Each one XORs the payload
 * with a key stream whose byte at a given position depends only on the
 * absolute offset of that position in the audio data:
 *
 *  - the static cipher takes key[(t * t + 27) & 0xFF],
 *  - the map cipher takes key[(t * t + 71214) & 0xFF] put through `rotate`,
 *  - the RC4 cipher takes, below offset 128, a key byte chosen by the
 *    segment key, and elsewhere an RC4-style output byte of a fresh copy of
 *    the scheduled box, skipped forward by the position inside the 5120-byte
 *    segment plus the segment key.
 *
 * Offsets are non-negative (the decoder only ever starts at 0). Every Swift
 * `& 0xFF` and `& 0x7` below is applied to a non-negative Int and is written
 * as the remainder modulo 256 or 8; every `%` is on non-negative operands.
 */
module QMCiphers {
  import opened ByteOrder
  import opened Results

  datatype QMCipherError = InvalidKeyLength

  // ---------------------------------------------------------------------------
  // Static and map ciphers
  // ---------------------------------------------------------------------------

  /** The constant each table cipher adds to t * t before masking to a byte. */
  datatype TableKind = StaticTable | MapTable

  function Addend(kind: TableKind): nat {
    match kind
    case StaticTable => 27
    case MapTable => 71_214
  }

  /** Offsets beyond 0x7FFF are reduced modulo 0x7FFF; 0x7FFF itself is not. */
  function ReducedOffset(offset: nat): (t: nat)
    ensures t <= 0x7FFF
    ensures t % 0x7FFF == offset % 0x7FFF
    ensures offset <= 0x7FFF ==> t == offset
  {
    if offset > 0x7FFF then offset % 0x7FFF else offset
  }

  /** The key index getMask reads for an absolute offset: (t * t + addend) & 0xFF. */
  function MaskIndex(kind: TableKind, offset: nat): (index: nat)
    ensures index < 0x100
  {
    var t := ReducedOffset(offset);
    (t * t + Addend(kind)) % 0x100
  }

  /** Away from 0 and 0x7FFF the mask index repeats with period 0x7FFF. */
  lemma MaskIndexPeriod(kind: TableKind, offset: nat)
    requires offset != 0 && offset != 0x7FFF
    ensures MaskIndex(kind, offset + 0x7FFF) == MaskIndex(kind, offset)
  {
    assert ReducedOffset(offset + 0x7FFF) == ReducedOffset(offset);
  }

  /** Because 0x7FFF is not reduced, offsets 0x7FFF and 0xFFFE (which reduces to 0) read different key bytes. */
  lemma MaskIndexAtBoundary(kind: TableKind)
    ensures MaskIndex(kind, 0) == Addend(kind) % 0x100
    ensures MaskIndex(kind, 0xFFFE) == MaskIndex(kind, 0)
    ensures MaskIndex(kind, 0x7FFF) == (Addend(kind) + 1) % 0x100
  {
    assert ReducedOffset(0xFFFE) == 0;
    assert 0x7FFF * 0x7FFF == 0x3FFF_0001;
  }

  /** 2^r as a byte, for r < 8. */
  function Pow2Byte(r: nat): (f: Byte)
    requires r < 8
    ensures f != 0
  {
    if r == 0 then 1 else if r == 1 then 2 else if r == 2 then 4 else if r == 3 then 8
    else if r == 4 then 16 else if r == 5 then 32 else if r == 6 then 64 else 128
  }

  /**
   * QMMapCipher.rotate: ((value << r) | (value >> r)) & 0xff with
   * r = (bits + 4) % 8, on a UInt8, so the left shift drops the bits it
   * pushes out. On a byte, value << r is value * 2^r wrapped to 8 bits and
   * value >> r is value / 2^r. This is a rotation only when r is 0 or 4.
   */
  function Rotate(value: Byte, bits: nat): Byte {
    var factor := Pow2Byte((bits + 4) % 8);
    ((value * factor) | (value / factor)) & 0xFF
  }

  /** With bits % 8 == 4 the byte is returned unchanged. */
  lemma RotateIdentity(value: Byte, bits: nat)
    requires bits % 8 == 4
    ensures Rotate(value, bits) == value
  {
    assert (bits + 4) % 8 == 0;
  }

  /** With bits % 8 == 0 it swaps the nibbles, so applying it twice gives the byte back. */
  lemma RotateSwapsNibbles(value: Byte, bits: nat)
    requires bits % 8 == 0
    ensures Rotate(Rotate(value, bits), bits) == value
  {
    assert (bits + 4) % 8 == 4;
    var once := Rotate(value, bits);
    assert once == ((value * 16) | (value / 16)) & 0xFF;
    assert Rotate(once, bits) == ((once * 16) | (once / 16)) & 0xFF;
  }

  /** For the other amounts it is not a rotation: it can turn one set bit into two. */
  lemma RotateIsNotRotation()
    ensures Rotate(0x02, 5) == 0x05
  {
  }

  /** getMask of the two table ciphers at an absolute offset. */
  function TableMask(kind: TableKind, key: seq<Byte>, offset: nat): Byte
    requires MaskIndex(kind, offset) < |key|
  {
    var index := MaskIndex(kind, offset);
    match kind
    case StaticTable => key[index]
    case MapTable => Rotate(key[index], index % 8)
  }

  /** Every key index read for offsets offset ..< offset + n lies inside the key (Swift traps otherwise). */
  ghost predicate MasksInRange(kind: TableKind, key: seq<Byte>, offset: nat, n: nat) {
    forall o: nat {:trigger MaskIndex(kind, o)} :: offset <= o < offset + n ==> MaskIndex(kind, o) < |key|
  }

  /** A key of 256 bytes or more, such as the fixed private key, covers every offset. */
  lemma LongKeyInRange(kind: TableKind, key: seq<Byte>, offset: nat, n: nat)
    requires |key| >= 0x100
    ensures MasksInRange(kind, key, offset, n)
  {
  }

  /** The key stream of a table cipher for n bytes starting at an absolute offset. */
  function TableStream(kind: TableKind, key: seq<Byte>, offset: nat, n: nat): (s: seq<Byte>)
    requires MasksInRange(kind, key, offset, n)
    ensures |s| == n
  {
    seq(n, i requires 0 <= i < n => TableMask(kind, key, offset + i))
  }

  /** qmDecrypt of a table cipher: data XOR the key stream that starts at offset. */
  function TableDecrypt(kind: TableKind, key: seq<Byte>, data: seq<Byte>, offset: nat): (r: seq<Byte>)
    requires MasksInRange(kind, key, offset, |data|)
    ensures |r| == |data|
    ensures forall i :: 0 <= i < |data| ==> r[i] == data[i] ^ TableMask(kind, key, offset + i)
  {
    XorBytes(data, TableStream(kind, key, offset, |data|))
  }

  /** Decrypting twice at the same offset gives the data back. */
  lemma TableDecryptTwice(kind: TableKind, key: seq<Byte>, data: seq<Byte>, offset: nat)
    requires MasksInRange(kind, key, offset, |data|)
    ensures TableDecrypt(kind, key, TableDecrypt(kind, key, data, offset), offset) == data
  {
    XorBytesInvolution(data, TableStream(kind, key, offset, |data|));
  }

  /** Cutting the data anywhere and decrypting both pieces at their own offsets gives the same bytes. */
  lemma TableDecryptSplit(kind: TableKind, key: seq<Byte>, data: seq<Byte>, offset: nat, s: nat)
    requires MasksInRange(kind, key, offset, |data|) && s <= |data|
    ensures MasksInRange(kind, key, offset, s) && MasksInRange(kind, key, offset + s, |data| - s)
    ensures TableDecrypt(kind, key, data, offset)
         == TableDecrypt(kind, key, data[..s], offset) + TableDecrypt(kind, key, data[s..], offset + s)
  {
    var whole := TableDecrypt(kind, key, data, offset);
    var left, right := TableDecrypt(kind, key, data[..s], offset), TableDecrypt(kind, key, data[s..], offset + s);
    forall i | 0 <= i < |data|
      ensures whole[i] == (left + right)[i]
    {
      if i >= s {
        assert offset + s + (i - s) == offset + i;
      }
    }
  }

  /** Shared body of the two table ciphers' qmDecrypt: one pass over the data with getMask(offset + index). */
  method TableQmDecrypt(kind: TableKind, key: seq<Byte>, data: seq<Byte>, offset: nat) returns (r: seq<Byte>)
    requires MasksInRange(kind, key, offset, |data|)
    ensures r == TableDecrypt(kind, key, data, offset)
  {
    var resultArray := seq(|data|, _ => 0);
    for index := 0 to |data|
      invariant |resultArray| == |data|
      invariant forall i :: 0 <= i < index ==> resultArray[i] == data[i] ^ TableMask(kind, key, offset + i)
    {
      resultArray := resultArray[index := data[index] ^ TableMask(kind, key, offset + index)];
    }
    r := resultArray;
  }

  /** QMStaticCipher: a fixed key read through (t * t + 27) & 0xFF. */
  class StaticCipher {
    var key: seq<Byte>
    var keyLength: nat

    constructor (originKey: seq<Byte>)
      requires |originKey| > 0
      ensures key == originKey && keyLength == |originKey|
    {
      key := originKey;
      keyLength := |originKey|;
    }

    /** The throwing initialiser: an empty key is rejected. */
    static method Create(originKey: seq<Byte>) returns (r: Result<StaticCipher, QMCipherError>)
      ensures |originKey| == 0 ==> r == Failure(InvalidKeyLength)
      ensures |originKey| > 0 ==> r.Success? && fresh(r.value) && r.value.key == originKey && r.value.keyLength == |originKey|
    {
      if |originKey| == 0 {
        return Failure(InvalidKeyLength);
      }
      var c := new StaticCipher(originKey);
      r := Success(c);
    }

    method QmDecrypt(data: seq<Byte>, offset: nat) returns (r: seq<Byte>)
      requires MasksInRange(StaticTable, key, offset, |data|)
      ensures r == TableDecrypt(StaticTable, key, data, offset)
    {
      r := TableQmDecrypt(StaticTable, key, data, offset);
    }
  }

  /** QMMapCipher: the key byte at (t * t + 71214) & 0xFF, rotated by its index & 7. */
  class MapCipher {
    var key: seq<Byte>
    var keyLength: nat

    constructor (originKey: seq<Byte>)
      requires |originKey| > 0
      ensures key == originKey && keyLength == |originKey|
    {
      key := originKey;
      keyLength := |originKey|;
    }

    /** The throwing initialiser: an empty key is rejected. */
    static method Create(originKey: seq<Byte>) returns (r: Result<MapCipher, QMCipherError>)
      ensures |originKey| == 0 ==> r == Failure(InvalidKeyLength)
      ensures |originKey| > 0 ==> r.Success? && fresh(r.value) && r.value.key == originKey && r.value.keyLength == |originKey|
    {
      if |originKey| == 0 {
        return Failure(InvalidKeyLength);
      }
      var c := new MapCipher(originKey);
      r := Success(c);
    }

    method QmDecrypt(data: seq<Byte>, offset: nat) returns (r: seq<Byte>)
      requires MasksInRange(MapTable, key, offset, |data|)
      ensures r == TableDecrypt(MapTable, key, data, offset)
    {
      r := TableQmDecrypt(MapTable, key, data, offset);
    }
  }

  // ---------------------------------------------------------------------------
  // RC4 cipher: key scheduling and key hash
  // ---------------------------------------------------------------------------

  function Min(a: nat, b: nat): nat {
    if a < b then a else b
  }

  const FirstSegmentSize: nat := 0x80
  const SegmentSize: nat := 0x1400

  /** The box before scheduling: entry i holds i & 0xFF. */
  function InitialBox(n: nat): (box: seq<Byte>)
    ensures |box| == n
  {
    seq(n, i => ByteOf(i % 0x100))
  }

  /** Entry i of the initial box is i & 0xFF, never more than i. */
  lemma InitialBoxEntry(n: nat, i: nat)
    requires i < n
    ensures InitialBox(n)[i] as int == i % 0x100 <= i
  {
    ByteOfValue(i % 0x100);
  }

  /** The box with positions i and j exchanged, as Swift's tuple assignment does it. */
  function Swap(s: seq<Byte>, i: nat, j: nat): (r: seq<Byte>)
    requires i < |s| && j < |s|
    ensures |r| == |s|
  {
    seq(|s|, k requires 0 <= k < |s| => if k == j then s[i] else if k == i then s[j] else s[k])
  }

  /** Swapping is the two assignments s[i] := s[j] and then s[j] := the old s[i]. */
  lemma SwapIsUpdate(s: seq<Byte>, i: nat, j: nat)
    requires i < |s| && j < |s|
    ensures Swap(s, i, j) == s[i := s[j]][j := s[i]]
  {
  }

  /** Exchanging two entries keeps every value and how often it occurs. */
  lemma SwapPermutes(s: seq<Byte>, i: nat, j: nat)
    requires i < |s| && j < |s|
    ensures multiset(Swap(s, i, j)) == multiset(s)
  {
    SwapIsUpdate(s, i, j);
  }

  /** The box and tempIndex of the scheduling loop in init. */
  datatype Scheduling = Scheduling(box: seq<Byte>, tempIndex: nat)

  /**
   * The state after the first `count` passes of the scheduling loop. Every
   * pass only swaps, so the box stays a rearrangement of the initial box,
   * and tempIndex stays inside the box.
   */
  function Scheduled(key: seq<Byte>, count: nat): (st: Scheduling)
    requires 0 < |key| && count <= |key|
    ensures |st.box| == |key| && st.tempIndex < |key|
  {
    if count == 0 then Scheduling(InitialBox(|key|), 0)
    else NextScheduling(key, count - 1, Scheduled(key, count - 1))
  }

  /** However many passes have run, the box is a rearrangement of the initial box. */
  lemma {:induction false} ScheduledPermutes(key: seq<Byte>, count: nat)
    requires 0 < |key| && count <= |key|
    ensures multiset(Scheduled(key, count).box) == multiset(InitialBox(|key|))
    decreases count
  {
    if count > 0 {
      var prev := Scheduled(key, count - 1);
      ScheduledPermutes(key, count - 1);
      NextSchedulingPermutes(key, count - 1, prev);
      SamePermutation(Scheduled(key, count).box, prev.box, InitialBox(|key|));
    }
  }

  /** Being a rearrangement is transitive. */
  lemma SamePermutation(a: seq<Byte>, b: seq<Byte>, c: seq<Byte>)
    requires multiset(a) == multiset(b) && multiset(b) == multiset(c)
    ensures multiset(a) == multiset(c)
  {
  }

  /** Pass `index` of the scheduling loop: move tempIndex on by box[index] and the key byte, then swap. */
  function NextScheduling(key: seq<Byte>, index: nat, prev: Scheduling): (st: Scheduling)
    requires index < |key| == |prev.box| && prev.tempIndex < |key|
    ensures |st.box| == |key| && st.tempIndex < |key|
  {
    var tempIndex := Mod(prev.box[index] as int + prev.tempIndex + key[index] as int, |key|);
    Scheduling(Swap(prev.box, index, tempIndex), tempIndex)
  }

  /** A pass only swaps, so it keeps every value of the box and how often it occurs. */
  lemma NextSchedulingPermutes(key: seq<Byte>, index: nat, prev: Scheduling)
    requires index < |key| == |prev.box| && prev.tempIndex < |key|
    ensures multiset(NextScheduling(key, index, prev).box) == multiset(prev.box)
  {
    var tempIndex := Mod(prev.box[index] as int + prev.tempIndex + key[index] as int, |key|);
    SwapPermutes(prev.box, index, tempIndex);
  }

  /** x % n for natural x, by repeated subtraction, so that unfolding it needs only linear arithmetic. */
  function Mod(x: nat, n: nat): (r: nat)
    requires n > 0
    ensures r < n
    decreases x
  {
    if x < n then x else Mod(x - n, n)
  }

  /** Mod is the remainder of Euclidean division. */
  lemma {:induction false} ModIsRemainder(x: nat, n: nat)
    requires n > 0
    ensures Mod(x, n) == x % n
    decreases x
  {
    if x >= n {
      ModIsRemainder(x - n, n);
      RemainderUnique(x, n, (x - n) / n + 1, (x - n) % n);
    }
  }

  /** x = q * n + r with 0 <= r < n fixes r as x % n. */
  lemma RemainderUnique(x: int, n: int, q: int, r: int)
    requires n > 0 && 0 <= r < n && x == q * n + r
    ensures x % n == r
  {
    var d := q - x / n;
    assert d * n == x % n - r;
    OnlyZeroMultipleInRange(d, n);
  }

  /** The only multiple of n strictly between -n and n is zero. */
  lemma OnlyZeroMultipleInRange(d: int, n: int)
    requires n > 0 && -n < d * n < n
    ensures d == 0
  {
  }

  /** A position below the key length is its own remainder, so init's key[index % keyLength] is key[index]. */
  lemma SmallRemainder(index: nat, n: nat)
    requires index < n
    ensures index % n == index
  {
  }

  /** seedBox as init leaves it. */
  function SeedBoxOf(key: seq<Byte>): (box: seq<Byte>)
    requires |key| > 0
    ensures |box| == |key|
  {
    Scheduled(key, |key|).box
  }

  /** The seed box holds every value i & 0xFF for i < n exactly as often as the initial box does, so each entry is below n. */
  lemma SeedBoxIsRearrangement(key: seq<Byte>)
    requires |key| > 0
    ensures |SeedBoxOf(key)| == |key|
    ensures multiset(SeedBoxOf(key)) == multiset(InitialBox(|key|))
    ensures forall j :: 0 <= j < |key| ==> SeedBoxOf(key)[j] as int < |key|
  {
    ScheduledPermutes(key, |key|);
    var box, init := SeedBoxOf(key), InitialBox(|key|);
    forall j | 0 <= j < |key|
      ensures box[j] as int < |key|
    {
      assert box[j] in multiset(init);
      var i :| 0 <= i < |key| && init[i] == box[j];
      InitialBoxEntry(|key|, i);
    }
  }

  /**
   * The key hash loop of init, from position index with the running value
   * hash: zero key bytes are skipped and the loop stops at the first wrapped
   * product that is zero or not larger than the running value. The running
   * value never decreases.
   */
  function HashFrom(key: seq<Byte>, index: nat, hash: Word): (h: Word)
    requires index <= |key|
    ensures hash <= h
    ensures h != hash ==> exists j :: index <= j < |key| && key[j] != 0 && hash < Mul(hash, key[j] as int) <= h
    decreases |key| - index
  {
    if index == |key| then hash
    else if key[index] == 0 then HashFrom(key, index + 1, hash)
    else
      var nextHash := Mul(hash, key[index] as int);
      if nextHash == 0 || nextHash <= hash then hash else HashFrom(key, index + 1, nextHash)
  }

  /** hashValue as init leaves it. */
  function KeyHash(key: seq<Byte>): (h: Word)
    ensures h >= 1
  {
    HashFrom(key, 0, 1)
  }

  /** A key made only of zero and one bytes never raises the hash above 1. */
  lemma {:induction false} KeyHashOfSmallBytes(key: seq<Byte>, index: nat)
    requires index <= |key|
    requires forall i :: 0 <= i < |key| ==> key[i] <= 1
    ensures HashFrom(key, index, 1) == 1
    decreases |key| - index
  {
    if index < |key| && key[index] == 0 {
      KeyHashOfSmallBytes(key, index + 1);
    }
  }

  /** The Double expression of getSegmentKey, Int(floor(Double(hash) / (Double(index + 1) * Double(seed)) * 100)). */
  type SegmentQuotient = (Word, nat, Byte) -> nat

  /** getSegmentKey: the floor quotient for the key byte at index % n, reduced modulo n. */
  function SegmentKey(key: seq<Byte>, hash: Word, quotient: SegmentQuotient, index: nat): (k: nat)
    requires |key| > 0
    ensures k < |key|
  {
    quotient(hash, index, key[index % |key|]) % |key|
  }

  // ---------------------------------------------------------------------------
  // RC4 cipher: the key stream
  // ---------------------------------------------------------------------------

  /** The box and the two indices of encodeAllSegment. */
  datatype Generator = Generator(box: seq<Byte>, left: nat, right: nat)

  ghost predicate InBox(g: Generator) {
    0 < |g.box| && g.left < |g.box| && g.right < |g.box|
  }

  /** One pass of encodeAllSegment's loop before it emits: advance left, advance right by box[left], swap. */
  function Advance(g: Generator): (next: Generator)
    requires InBox(g)
    ensures InBox(next) && |next.box| == |g.box|
  {
    var n := |g.box|;
    var left := (g.left + 1) % n;
    var right := (g.box[left] as int + g.right) % n;
    Generator(Swap(g.box, right, left), left, right)
  }

  /** The generator after `steps` passes over a fresh copy of the seed box. */
  function AdvancedBy(seedBox: seq<Byte>, steps: nat): (g: Generator)
    requires |seedBox| > 0
    ensures InBox(g) && |g.box| == |seedBox|
  {
    if steps == 0 then Generator(seedBox, 0, 0) else Advance(AdvancedBy(seedBox, steps - 1))
  }

  /** The byte a pass emits: box[(box[left] + box[right]) % n]. */
  function Output(g: Generator): Byte
    requires InBox(g)
  {
    g.box[(g.box[g.left] as int + g.box[g.right] as int) % |g.box|]
  }

  /** The key material of one RC4 cipher object. */
  datatype Rc4Key = Rc4Key(originKey: seq<Byte>, seedBox: seq<Byte>, hashValue: Word)

  ghost predicate Keyed(k: Rc4Key) {
    |k.originKey| > 0 && |k.seedBox| == |k.originKey|
  }

  /** How many passes encodeAllSegment makes before it emits for a piece that starts at offset. */
  function SkipLength(k: Rc4Key, quotient: SegmentQuotient, offset: nat): nat
    requires Keyed(k)
  {
    offset % SegmentSize + SegmentKey(k.originKey, k.hashValue, quotient, offset / SegmentSize)
  }

  /** What encodeFirstSegment XORs into the byte at absolute offset o. */
  function FirstSegmentMask(k: Rc4Key, quotient: SegmentQuotient, o: nat): Byte
    requires Keyed(k)
  {
    k.originKey[SegmentKey(k.originKey, k.hashValue, quotient, o)]
  }

  /** What encodeAllSegment XORs into byte i of a piece that starts at offset. */
  function SegmentMask(k: Rc4Key, quotient: SegmentQuotient, offset: nat, i: nat): Byte
    requires Keyed(k)
  {
    Output(AdvancedBy(k.seedBox, SkipLength(k, quotient, offset) + i + 1))
  }

  /**
   * The RC4 key stream by absolute offset: the first 128 bytes come from
   * encodeFirstSegment, every later byte from encodeAllSegment over the
   * 5120-byte segment it lies in.
   */
  function Rc4Mask(k: Rc4Key, quotient: SegmentQuotient, o: nat): Byte
    requires Keyed(k)
  {
    if o < FirstSegmentSize then FirstSegmentMask(k, quotient, o)
    else Output(AdvancedBy(k.seedBox, o % SegmentSize + SegmentKey(k.originKey, k.hashValue, quotient, o / SegmentSize) + 1))
  }

  /** The n bytes a mask gives at absolute offsets offset, offset + 1, ... */
  function MaskStream(mask: nat -> Byte, offset: nat, n: nat): (s: seq<Byte>)
    ensures |s| == n
  {
    if n == 0 then [] else MaskStream(mask, offset, n - 1) + [mask(offset + n - 1)]
  }

  lemma {:induction false} MaskStreamAt(mask: nat -> Byte, offset: nat, n: nat)
    ensures forall i :: 0 <= i < n ==> MaskStream(mask, offset, n)[i] == mask(offset + i)
  {
    if n > 0 {
      MaskStreamAt(mask, offset, n - 1);
    }
  }

  /** A mask stream cut at s is the stream of the first s bytes followed by the stream from offset + s. */
  lemma {:induction false} MaskStreamConcat(mask: nat -> Byte, offset: nat, n: nat, s: nat)
    requires s <= n
    ensures MaskStream(mask, offset, n) == MaskStream(mask, offset, s) + MaskStream(mask, offset + s, n - s)
    decreases n
  {
    if n > s {
      MaskStreamConcat(mask, offset, n - 1, s);
      assert offset + s + (n - s) - 1 == offset + n - 1;
    }
  }

  /** The RC4 key stream as a function of the absolute offset. */
  function Rc4MaskOf(k: Rc4Key, quotient: SegmentQuotient): nat -> Byte
    requires Keyed(k)
  {
    (o: nat) => Rc4Mask(k, quotient, o)
  }

  function Rc4Stream(k: Rc4Key, quotient: SegmentQuotient, offset: nat, n: nat): (s: seq<Byte>)
    requires Keyed(k)
    ensures |s| == n
  {
    MaskStream(Rc4MaskOf(k, quotient), offset, n)
  }

  /** Byte i of the stream is the mask at absolute offset offset + i. */
  lemma Rc4StreamAt(k: Rc4Key, quotient: SegmentQuotient, offset: nat, n: nat)
    requires Keyed(k)
    ensures forall i :: 0 <= i < n ==> Rc4Stream(k, quotient, offset, n)[i] == Rc4Mask(k, quotient, offset + i)
  {
    MaskStreamAt(Rc4MaskOf(k, quotient), offset, n);
  }

  /** qmDecrypt of the RC4 cipher, by absolute offset. */
  function Rc4Decrypt(k: Rc4Key, quotient: SegmentQuotient, data: seq<Byte>, offset: nat): (r: seq<Byte>)
    requires Keyed(k)
    ensures |r| == |data|
  {
    XorBytes(data, Rc4Stream(k, quotient, offset, |data|))
  }

  /** Byte i of the output is data[i] XOR the mask at absolute offset offset + i. */
  lemma Rc4DecryptAt(k: Rc4Key, quotient: SegmentQuotient, data: seq<Byte>, offset: nat)
    requires Keyed(k)
    ensures forall i :: 0 <= i < |data| ==> Rc4Decrypt(k, quotient, data, offset)[i] == data[i] ^ Rc4Mask(k, quotient, offset + i)
  {
    Rc4StreamAt(k, quotient, offset, |data|);
  }

  /** Decrypting twice at the same offset gives the data back. */
  lemma Rc4DecryptTwice(k: Rc4Key, quotient: SegmentQuotient, data: seq<Byte>, offset: nat)
    requires Keyed(k)
    ensures Rc4Decrypt(k, quotient, Rc4Decrypt(k, quotient, data, offset), offset) == data
  {
    XorBytesInvolution(data, Rc4Stream(k, quotient, offset, |data|));
  }

  /** The stream for n bytes is the stream for the first s bytes followed by the stream from offset + s. */
  lemma Rc4StreamConcat(k: Rc4Key, quotient: SegmentQuotient, offset: nat, n: nat, s: nat)
    requires Keyed(k) && s <= n
    ensures Rc4Stream(k, quotient, offset, n) == Rc4Stream(k, quotient, offset, s) + Rc4Stream(k, quotient, offset + s, n - s)
  {
    MaskStreamConcat(Rc4MaskOf(k, quotient), offset, n, s);
  }

  /** Both halves of a cut stream, as slices. */
  lemma Rc4StreamSplit(k: Rc4Key, quotient: SegmentQuotient, offset: nat, n: nat, s: nat)
    requires Keyed(k) && s <= n
    ensures Rc4Stream(k, quotient, offset, n)[..s] == Rc4Stream(k, quotient, offset, s)
    ensures Rc4Stream(k, quotient, offset, n)[s..] == Rc4Stream(k, quotient, offset + s, n - s)
  {
    Rc4StreamConcat(k, quotient, offset, n, s);
  }

  /** Cutting the data anywhere and decrypting both pieces at their own offsets gives the same bytes. */
  lemma Rc4DecryptSplit(k: Rc4Key, quotient: SegmentQuotient, data: seq<Byte>, offset: nat, s: nat)
    requires Keyed(k) && s <= |data|
    ensures Rc4Decrypt(k, quotient, data, offset)
         == Rc4Decrypt(k, quotient, data[..s], offset) + Rc4Decrypt(k, quotient, data[s..], offset + s)
  {
    Rc4StreamSplit(k, quotient, offset, |data|, s);
    XorBytesSplit(data, Rc4Stream(k, quotient, offset, |data|), s);
  }

  /** Moving up to the next multiple of the segment size lands on a boundary. */
  lemma NextBoundary(o: nat)
    requires o % SegmentSize != 0
    ensures (o + (SegmentSize - o % SegmentSize)) % SegmentSize == 0
  {
    assert o + (SegmentSize - o % SegmentSize) == (o / SegmentSize + 1) * SegmentSize;
  }

  /** A boundary plus one segment is a boundary. */
  lemma NextSegment(o: nat)
    requires o % SegmentSize == 0
    ensures (o + SegmentSize) % SegmentSize == 0
  {
    assert o + SegmentSize == (o / SegmentSize + 1) * SegmentSize;
  }

  lemma DivModInSegment(offset: nat, i: nat)
    requires offset % SegmentSize + i < SegmentSize
    ensures (offset + i) / SegmentSize == offset / SegmentSize
    ensures (offset + i) % SegmentSize == offset % SegmentSize + i
  {
    var q, r := offset / SegmentSize, offset % SegmentSize;
    assert offset + i == q * SegmentSize + (r + i);
  }

  /** A piece past the first 128 bytes that stays inside one segment gets the key stream of its absolute offsets. */
  lemma SegmentMaskIsRc4Mask(k: Rc4Key, quotient: SegmentQuotient, offset: nat, i: nat, o: nat)
    requires Keyed(k) && offset >= FirstSegmentSize && offset % SegmentSize + i < SegmentSize && o == offset + i
    ensures SegmentMask(k, quotient, offset, i) == Rc4Mask(k, quotient, o)
  {
    DivModInSegment(offset, i);
  }

  /** One entry of the key stream. */
  lemma Rc4StreamEntry(k: Rc4Key, quotient: SegmentQuotient, offset: nat, n: nat, j: nat, o: nat)
    requires Keyed(k) && j < n && o == offset + j
    ensures Rc4Stream(k, quotient, offset, n)[j] == Rc4Mask(k, quotient, o)
  {
    Rc4StreamAt(k, quotient, offset, n);
  }

  /** Inside the first 128 bytes, the key stream is what encodeFirstSegment emits at each absolute offset. */
  lemma StreamInFirstSegment(k: Rc4Key, quotient: SegmentQuotient, offset: nat, n: nat, processed: nat, length: nat)
    requires Keyed(k) && processed + length <= n && offset + processed + length <= FirstSegmentSize
    ensures forall j :: processed <= j < processed + length ==>
      Rc4Stream(k, quotient, offset, n)[j] == FirstSegmentMask(k, quotient, offset + j)
  {
    Rc4StreamAt(k, quotient, offset, n);
  }

  /** Inside one segment past the first, the key stream is what encodeAllSegment emits for the piece starting there. */
  lemma StreamInSegment(k: Rc4Key, quotient: SegmentQuotient, offset: nat, n: nat, processed: nat, length: nat)
    requires Keyed(k) && processed + length <= n
    requires FirstSegmentSize <= offset + processed && (offset + processed) % SegmentSize + length <= SegmentSize
    ensures forall j :: processed <= j < processed + length ==>
      Rc4Stream(k, quotient, offset, n)[j] == SegmentMask(k, quotient, offset + processed, j - processed)
  {
    forall j | processed <= j < processed + length
      ensures Rc4Stream(k, quotient, offset, n)[j] == SegmentMask(k, quotient, offset + processed, j - processed)
    {
      StreamEntryInSegment(k, quotient, offset, n, offset + processed, j - processed, j);
    }
  }

  lemma StreamEntryInSegment(k: Rc4Key, quotient: SegmentQuotient, offset: nat, n: nat, start: nat, i: nat, j: nat)
    requires Keyed(k) && j < n && start == offset + j - i && j >= i
    requires FirstSegmentSize <= start && start % SegmentSize + i < SegmentSize
    ensures Rc4Stream(k, quotient, offset, n)[j] == SegmentMask(k, quotient, start, i)
  {
    var o := offset + j;
    assert SegmentMask(k, quotient, start, i) == Rc4Mask(k, quotient, o) by {
      SegmentMaskIsRc4Mask(k, quotient, start, i, o);
    }
    Rc4StreamEntry(k, quotient, offset, n, j, o);
  }

  // ---------------------------------------------------------------------------
  // RC4 cipher: the object
  // ---------------------------------------------------------------------------

  /** QMRC4Cipher. */
  class RC4Cipher {
    const originKey: seq<Byte>
    const originKeyLength: nat
    const seedBox: seq<Byte>
    var hashValue: Word

    function Key(): Rc4Key
      reads this
    {
      Rc4Key(originKey, seedBox, hashValue)
    }

    ghost predicate Valid()
      reads this
    {
      Keyed(Key()) && originKeyLength == |originKey|
    }

    /** The assignments and loops of the initialiser, once the key is known not to be empty. */
    constructor (originKey: seq<Byte>)
      requires |originKey| > 0
      ensures Valid() && Key() == Rc4Key(originKey, SeedBoxOf(originKey), KeyHash(originKey))
    {
      this.originKey := originKey;
      originKeyLength := |originKey|;
      var box := ScheduleBox(originKey);
      seedBox := box;
      new;
      hashValue := HashKey(originKey);
    }

    /** The throwing initialiser: an empty key is rejected. */
    static method Create(originKey: seq<Byte>) returns (r: Result<RC4Cipher, QMCipherError>)
      ensures |originKey| == 0 ==> r == Failure(InvalidKeyLength)
      ensures |originKey| > 0 ==>
        r.Success? && fresh(r.value) && r.value.Valid()
        && r.value.Key() == Rc4Key(originKey, SeedBoxOf(originKey), KeyHash(originKey))
    {
      if |originKey| == 0 {
        return Failure(InvalidKeyLength);
      }
      var c := new RC4Cipher(originKey);
      r := Success(c);
    }

    /** The seedBox loops of init: fill with index & 0xff, then swap as the key dictates. */
    static method ScheduleBox(originKey: seq<Byte>) returns (seedBox: seq<Byte>)
      requires |originKey| > 0
      ensures seedBox == SeedBoxOf(originKey)
    {
      var keyLength := |originKey|;
      seedBox := InitialSeedBox(keyLength);
      var tempIndex: nat := 0;
      for index := 0 to keyLength
        invariant |seedBox| == keyLength && tempIndex < keyLength
        invariant Scheduling(seedBox, tempIndex) == Scheduled(originKey, index)
      {
        seedBox, tempIndex := ScheduleStep(originKey, index, seedBox, tempIndex);
      }
    }

    /** One pass of the scheduling loop of init: move tempIndex on by box[index] and the key byte, then swap. */
    static method ScheduleStep(originKey: seq<Byte>, index: nat, seedBox: seq<Byte>, tempIndex: nat)
      returns (seedBox': seq<Byte>, tempIndex': nat)
      requires index < |originKey| == |seedBox| && tempIndex < |originKey|
      ensures Scheduling(seedBox', tempIndex') == NextScheduling(originKey, index, Scheduling(seedBox, tempIndex))
    {
      var keyLength := |originKey|;
      SmallRemainder(index, keyLength);
      tempIndex' := Remainder(seedBox[index] as int + tempIndex + originKey[index % keyLength] as int, keyLength);
      seedBox' := seedBox[index := seedBox[tempIndex']][tempIndex' := seedBox[index]];
      SwapIsUpdate(seedBox, index, tempIndex');
    }

    /** x % n, as init computes tempIndex. */
    static method Remainder(x: nat, n: nat) returns (r: nat)
      requires n > 0
      ensures r == Mod(x, n)
    {
      r := x % n;
      ModIsRemainder(x, n);
    }

    /** The first seedBox loop of init: entry index gets index & 0xff. */
    static method InitialSeedBox(keyLength: nat) returns (seedBox: seq<Byte>)
      ensures seedBox == InitialBox(keyLength)
    {
      seedBox := seq(keyLength, _ => 0);
      for index := 0 to keyLength
        invariant |seedBox| == keyLength
        invariant forall i :: 0 <= i < index ==> seedBox[i] == ByteOf(i % 0x100)
      {
        seedBox := seedBox[index := ByteOf(index % 0x100)];
      }
    }

    /** The hashValue loop of init. */
    static method HashKey(originKey: seq<Byte>) returns (hashValue: Word)
      ensures hashValue == KeyHash(originKey)
    {
      hashValue := 1;
      for index := 0 to |originKey|
        invariant HashFrom(originKey, index, hashValue) == KeyHash(originKey)
      {
        var value := originKey[index];
        if value == 0 {
          continue;
        }
        var nextHash := Mul(hashValue, value as int);
        if nextHash == 0 || nextHash <= hashValue {
          break;
        }
        hashValue := nextHash;
      }
    }

    /** encodeFirstSegment: XOR with originKey[getSegmentKey(index + offset)]. */
    method EncodeFirstSegment(data: seq<Byte>, offset: nat, quotient: SegmentQuotient) returns (r: seq<Byte>)
      requires Valid()
      ensures |r| == |data|
      ensures forall i :: 0 <= i < |data| ==> r[i] == data[i] ^ FirstSegmentMask(Key(), quotient, offset + i)
    {
      r := data;
      for index := 0 to |data|
        invariant |r| == |data|
        invariant forall i :: 0 <= i < index ==> r[i] == data[i] ^ FirstSegmentMask(Key(), quotient, offset + i)
        invariant forall i :: index <= i < |data| ==> r[i] == data[i]
      {
        r := r[index := r[index] ^ originKey[SegmentKey(originKey, hashValue, quotient, index + offset)]];
      }
    }

    /**
     * encodeAllSegment: a fresh copy of the seed box is advanced skipLength
     * times without emitting, then once per byte, each pass XORing its
     * output into the byte; self.seedBox is left as it is.
     */
    method EncodeAllSegment(data: seq<Byte>, offset: nat, quotient: SegmentQuotient) returns (r: seq<Byte>)
      requires Valid()
      ensures |r| == |data|
      ensures forall i :: 0 <= i < |data| ==> r[i] == data[i] ^ SegmentMask(Key(), quotient, offset, i)
    {
      var skipLength := offset % SegmentSize + SegmentKey(originKey, hashValue, quotient, offset / SegmentSize);
      r := RunGenerator(seedBox, originKeyLength, skipLength, data);
      assert skipLength == SkipLength(Key(), quotient, offset);
    }

    /**
     * qmDecrypt: the first-segment piece, the piece up to the next segment
     * boundary, whole segments while more than one segment is left, then the
     * rest; each piece is cut out of the result, run through its encoder at
     * the running offset and put back.
     */
    method QmDecrypt(data: seq<Byte>, offset: nat, quotient: SegmentQuotient) returns (r: seq<Byte>)
      requires Valid()
      ensures r == Rc4Decrypt(Key(), quotient, data, offset)
    {
      ghost var stream := Rc4Stream(Key(), quotient, offset, |data|);
      var size := |data|;
      var toProcess := size;
      var processed := 0;
      var newOffset := offset;
      var resultArray := data;
      if newOffset < FirstSegmentSize {
        var processLength := Min(size, FirstSegmentSize - newOffset);
        resultArray := ReplaceFirstSegment(data, offset, stream, resultArray, 0, processLength, newOffset, quotient);
        toProcess, processed, newOffset := toProcess - processLength, processed + processLength, newOffset + processLength;
        if toProcess == 0 {
          XoredAll(resultArray, data, stream);
          return resultArray;
        }
        assert newOffset == FirstSegmentSize;
      }
      resultArray := DecryptRest(data, offset, stream, resultArray, processed, toProcess, newOffset, quotient);
      XoredAll(resultArray, data, stream);
      r := resultArray;
    }

    /** The stages of qmDecrypt past the first segment: up to the next segment boundary, then whole segments and the rest. */
    method DecryptRest(ghost data: seq<Byte>, ghost offset: nat, ghost stream: seq<Byte>, resultArray: seq<Byte>,
                       processed: nat, toProcess: nat, newOffset: nat, quotient: SegmentQuotient)
      returns (result: seq<Byte>)
      requires Valid() && stream == Rc4Stream(Key(), quotient, offset, |data|)
      requires toProcess == |data| - processed && newOffset == offset + processed && FirstSegmentSize <= newOffset
      requires XoredBelow(resultArray, data, stream, processed)
      ensures XoredBelow(result, data, stream, |data|)
    {
      if newOffset % SegmentSize == 0 {
        result := DecryptSegments(data, offset, stream, resultArray, processed, toProcess, newOffset, quotient);
        return;
      }
      NextBoundary(newOffset);
      var processLength := Min(SegmentSize - newOffset % SegmentSize, toProcess);
      result := ReplaceAllSegment(data, offset, stream, resultArray, processed, processLength, newOffset, quotient);
      if toProcess == processLength {
        return;
      }
      result := DecryptSegments(data, offset, stream, result, processed + processLength, toProcess - processLength,
                                newOffset + processLength, quotient);
    }

    /** The last two stages of qmDecrypt, from a segment boundary: whole segments while more than one is left, then the rest. */
    method DecryptSegments(ghost data: seq<Byte>, ghost offset: nat, ghost stream: seq<Byte>, resultArray: seq<Byte>,
                           processed0: nat, toProcess0: nat, newOffset0: nat, quotient: SegmentQuotient)
      returns (result: seq<Byte>)
      requires Valid() && stream == Rc4Stream(Key(), quotient, offset, |data|)
      requires toProcess0 == |data| - processed0 && newOffset0 == offset + processed0
      requires FirstSegmentSize <= newOffset0 && newOffset0 % SegmentSize == 0
      requires XoredBelow(resultArray, data, stream, processed0)
      ensures XoredBelow(result, data, stream, |data|)
    {
      result := resultArray;
      var toProcess, processed, newOffset := toProcess0, processed0, newOffset0;
      while toProcess > SegmentSize
        invariant toProcess == |data| - processed && newOffset == offset + processed
        invariant FirstSegmentSize <= newOffset && newOffset % SegmentSize == 0
        invariant XoredBelow(result, data, stream, processed)
      {
        result := ReplaceAllSegment(data, offset, stream, result, processed, SegmentSize, newOffset, quotient);
        toProcess, processed, newOffset := toProcess - SegmentSize, processed + SegmentSize, newOffset + SegmentSize;
        NextSegment(newOffset - SegmentSize);
      }
      if toProcess > 0 {
        result := ReplaceAllSegment(data, offset, stream, result, processed, toProcess, newOffset, quotient);
        processed := processed + toProcess;
      }
    }

    /** One first-segment piece of qmDecrypt: encodeFirstSegment on a copy, then replaceSubrange. */
    method ReplaceFirstSegment(ghost data: seq<Byte>, ghost offset: nat, ghost stream: seq<Byte>, resultArray: seq<Byte>,
                               processed: nat, processLength: nat, newOffset: nat, quotient: SegmentQuotient)
      returns (result: seq<Byte>)
      requires Valid() && stream == Rc4Stream(Key(), quotient, offset, |data|)
      requires processed + processLength <= |data| && newOffset == offset + processed
      requires newOffset + processLength <= FirstSegmentSize
      requires XoredBelow(resultArray, data, stream, processed)
      ensures XoredBelow(result, data, stream, processed + processLength)
    {
      var tempBuffer := EncodeFirstSegment(resultArray[processed..processed + processLength], newOffset, quotient);
      result := resultArray[..processed] + tempBuffer + resultArray[processed + processLength..];
      FirstPieceXored(Key(), quotient, data, offset, stream, resultArray, processed, processLength, newOffset, tempBuffer);
    }

    /** One piece of qmDecrypt inside a single segment: encodeAllSegment on a copy, then replaceSubrange. */
    method ReplaceAllSegment(ghost data: seq<Byte>, ghost offset: nat, ghost stream: seq<Byte>, resultArray: seq<Byte>,
                             processed: nat, processLength: nat, newOffset: nat, quotient: SegmentQuotient)
      returns (result: seq<Byte>)
      requires Valid() && stream == Rc4Stream(Key(), quotient, offset, |data|)
      requires processed + processLength <= |data| && newOffset == offset + processed
      requires FirstSegmentSize <= newOffset && newOffset % SegmentSize + processLength <= SegmentSize
      requires XoredBelow(resultArray, data, stream, processed)
      ensures XoredBelow(result, data, stream, processed + processLength)
    {
      var tempBuffer := EncodeAllSegment(resultArray[processed..processed + processLength], newOffset, quotient);
      result := resultArray[..processed] + tempBuffer + resultArray[processed + processLength..];
      SegmentPieceXored(Key(), quotient, data, offset, stream, resultArray, processed, processLength, newOffset, tempBuffer);
    }
  }

  /** The bytes encodeAllSegment emits after skipping `skip` passes over a fresh copy of the seed box. */
  function GeneratorStream(seedBox: seq<Byte>, skip: nat, n: nat): (s: seq<Byte>)
    requires |seedBox| > 0
    ensures |s| == n
  {
    seq(n, i requires 0 <= i < n => Output(AdvancedBy(seedBox, skip + i + 1)))
  }

  lemma GeneratorStreamAt(seedBox: seq<Byte>, skip: nat, n: nat, i: nat)
    requires |seedBox| > 0 && i < n
    ensures GeneratorStream(seedBox, skip, n)[i] == Output(AdvancedBy(seedBox, skip + i + 1))
  {
  }

  /**
   * The loop of encodeAllSegment over a fresh copy of the seed box: passes
   * with a negative index only advance, the others also XOR their output
   * into data[index].
   */
  method RunGenerator(seedBox: seq<Byte>, n: nat, skipLength: nat, data: seq<Byte>) returns (r: seq<Byte>)
    requires n == |seedBox| > 0
    ensures r == XorBytes(data, GeneratorStream(seedBox, skipLength, |data|))
  {
    ghost var stream := GeneratorStream(seedBox, skipLength, |data|);
    var newSeedBox := seedBox;
    var left: nat, right: nat := 0, 0;
    r := data;
    for index: int := -(skipLength as int) to |data|
      invariant Generator(newSeedBox, left, right) == AdvancedBy(seedBox, index + skipLength)
      invariant XoredBelow(r, data, stream, index)
    {
      newSeedBox, left, right, r := Pass(seedBox, skipLength, data, stream, index, newSeedBox, left, right, r);
    }
    XoredAll(r, data, stream);
  }

  /** r is data with the positions below k XORed with the stream and the others untouched. */
  ghost predicate XoredBelow(r: seq<Byte>, data: seq<Byte>, stream: seq<Byte>, k: int) {
    |r| == |data| == |stream|
    && (forall i :: 0 <= i < |data| && i < k ==> r[i] == data[i] ^ stream[i])
    && (forall i :: 0 <= i < |data| && k <= i ==> r[i] == data[i])
  }

  /** A first-segment piece encoded at its absolute offset and put back extends the XORed prefix. */
  lemma FirstPieceXored(k: Rc4Key, quotient: SegmentQuotient, data: seq<Byte>, offset: nat, stream: seq<Byte>,
                        r: seq<Byte>, processed: nat, length: nat, start: nat, piece: seq<Byte>)
    requires Keyed(k) && stream == Rc4Stream(k, quotient, offset, |data|)
    requires |piece| == length && processed + length <= |data|
    requires start == offset + processed && start + length <= FirstSegmentSize
    requires XoredBelow(r, data, stream, processed)
    requires forall i :: 0 <= i < |piece| ==>
      piece[i] == r[processed..processed + length][i] ^ FirstSegmentMask(k, quotient, start + i)
    ensures XoredBelow(r[..processed] + piece + r[processed + length..], data, stream, processed + length)
  {
    assert forall i :: 0 <= i < length ==> piece[i] == data[processed + i] ^ stream[processed + i] by {
      StreamInFirstSegment(k, quotient, offset, |data|, processed, length);
      forall i | 0 <= i < length
        ensures piece[i] == data[processed + i] ^ stream[processed + i]
      {
        assert r[processed..processed + length][i] == data[processed + i];
        assert stream[processed + i] == FirstSegmentMask(k, quotient, offset + (processed + i));
      }
    }
    XorPiece(r, data, stream, processed, piece);
  }

  /** A piece inside one later segment, encoded from its starting offset and put back, extends the XORed prefix. */
  lemma SegmentPieceXored(k: Rc4Key, quotient: SegmentQuotient, data: seq<Byte>, offset: nat, stream: seq<Byte>,
                          r: seq<Byte>, processed: nat, length: nat, start: nat, piece: seq<Byte>)
    requires Keyed(k) && stream == Rc4Stream(k, quotient, offset, |data|)
    requires |piece| == length && processed + length <= |data|
    requires start == offset + processed && FirstSegmentSize <= start && start % SegmentSize + length <= SegmentSize
    requires XoredBelow(r, data, stream, processed)
    requires forall i :: 0 <= i < |piece| ==>
      piece[i] == r[processed..processed + length][i] ^ SegmentMask(k, quotient, start, i)
    ensures XoredBelow(r[..processed] + piece + r[processed + length..], data, stream, processed + length)
  {
    assert forall i :: 0 <= i < length ==> piece[i] == data[processed + i] ^ stream[processed + i] by {
      StreamInSegment(k, quotient, offset, |data|, processed, length);
      forall i | 0 <= i < length
        ensures piece[i] == data[processed + i] ^ stream[processed + i]
      {
        assert r[processed..processed + length][i] == data[processed + i];
        assert stream[processed + i] == SegmentMask(k, quotient, start, processed + i - processed);
      }
    }
    XorPiece(r, data, stream, processed, piece);
  }

  /** Putting back a piece that holds the next bytes XORed with the stream extends the XORed prefix. */
  lemma XorPiece(r: seq<Byte>, data: seq<Byte>, stream: seq<Byte>, k: nat, piece: seq<Byte>)
    requires XoredBelow(r, data, stream, k) && k + |piece| <= |data|
    requires forall i :: 0 <= i < |piece| ==> piece[i] == data[k + i] ^ stream[k + i]
    ensures XoredBelow(r[..k] + piece + r[k + |piece|..], data, stream, k + |piece|)
  {
    var end := k + |piece|;
    var r' := r[..k] + piece + r[end..];
    forall i | 0 <= i < |data|
      ensures i < end ==> r'[i] == data[i] ^ stream[i]
      ensures end <= i ==> r'[i] == data[i]
    {
      if i < k {
        assert r'[i] == r[i];
      } else if i < end {
        assert r'[i] == piece[i - k];
      } else {
        assert r'[i] == r[i];
      }
    }
  }

  lemma XoredAll(r: seq<Byte>, data: seq<Byte>, stream: seq<Byte>)
    requires XoredBelow(r, data, stream, |data|)
    ensures r == XorBytes(data, stream)
  {
  }

  lemma XorOneMore(r: seq<Byte>, data: seq<Byte>, stream: seq<Byte>, k: nat)
    requires XoredBelow(r, data, stream, k) && k < |data|
    ensures XoredBelow(r[k := r[k] ^ stream[k]], data, stream, k + 1)
  {
  }

  /** One pass of encodeAllSegment's loop: advance the generator, and XOR its output into r[index] once index is not negative. */
  method Pass(ghost seedBox: seq<Byte>, ghost skipLength: nat, ghost data: seq<Byte>, ghost stream: seq<Byte>, index: int,
              box: seq<Byte>, left: nat, right: nat, r: seq<Byte>) returns (box': seq<Byte>, left': nat, right': nat, r': seq<Byte>)
    requires |seedBox| > 0 && stream == GeneratorStream(seedBox, skipLength, |data|)
    requires -(skipLength as int) <= index < |data|
    requires Generator(box, left, right) == AdvancedBy(seedBox, index + skipLength)
    requires XoredBelow(r, data, stream, index)
    ensures Generator(box', left', right') == AdvancedBy(seedBox, index + 1 + skipLength)
    ensures XoredBelow(r', data, stream, index + 1)
  {
    ghost var next := AdvancedBy(seedBox, index + 1 + skipLength);
    assert next == Advance(Generator(box, left, right));
    var seedByte;
    box', left', right', seedByte := AdvanceStep(box, left, right);
    r' := r;
    if index >= 0 {
      assert stream[index] == Output(next) by { GeneratorStreamAt(seedBox, skipLength, |data|, index); }
      XorOneMore(r, data, stream, index);
      r' := r[index := r[index] ^ seedByte];
    }
  }

  /**
   * One pass of encodeAllSegment's loop on the box and indices it keeps in
   * local variables: swap in place, then the byte at (box[left] + box[right]) % n.
   */
  method AdvanceStep(box: seq<Byte>, left: nat, right: nat) returns (box': seq<Byte>, left': nat, right': nat, seedByte: Byte)
    requires InBox(Generator(box, left, right))
    ensures Generator(box', left', right') == Advance(Generator(box, left, right))
    ensures seedByte == Output(Advance(Generator(box, left, right)))
  {
    var n := |box|;
    left' := (left + 1) % n;
    right' := (box[left'] as int + right) % n;
    box' := box[right' := box[left']][left' := box[right']];
    SwapIsUpdate(box, right', left');
    var seedValue := box'[left'] as int + box'[right'] as int;
    seedByte := box'[seedValue % n];
  }

  // ---------------------------------------------------------------------------
  // The QMCipher protocol
  // ---------------------------------------------------------------------------

  /** A value conforming to the QMCipher protocol: one of the three cipher objects. */
  datatype QMCipher = Static(staticCipher: StaticCipher) | Map(mapCipher: MapCipher) | RC4(rc4Cipher: RC4Cipher) {
    function Object(): object {
      match this
      case Static(c) => c
      case Map(c) => c
      case RC4(c) => c
    }
  }

  /** A cipher by kind and key, as the decoder chooses it. */
  datatype CipherChoice = StaticChoice(key: seq<Byte>) | MapChoice(key: seq<Byte>) | RC4Choice(key: seq<Byte>)

  /** c is the object the choice describes, initialised from its key. */
  ghost predicate Describes(c: QMCipher, choice: CipherChoice)
    reads c.Object()
  {
    match c
    case Static(s) => choice == StaticChoice(s.key) && s.keyLength == |s.key|
    case Map(m) => choice == MapChoice(m.key) && m.keyLength == |m.key|
    case RC4(r) => choice == RC4Choice(r.originKey) && r.Valid() && r.Key() == Rc4Key(r.originKey, SeedBoxOf(r.originKey), KeyHash(r.originKey))
  }

  /** qmDecrypt(data, offset) neither indexes outside the key nor works on an unscheduled RC4 object. */
  ghost predicate CanDecrypt(c: QMCipher, offset: nat, n: nat)
    reads c.Object()
  {
    match c
    case Static(s) => MasksInRange(StaticTable, s.key, offset, n)
    case Map(m) => MasksInRange(MapTable, m.key, offset, n)
    case RC4(r) => r.Valid()
  }

  /** What qmDecrypt returns, whichever cipher answers it. */
  ghost function CipherDecrypt(c: QMCipher, data: seq<Byte>, offset: nat, quotient: SegmentQuotient): (r: seq<Byte>)
    requires CanDecrypt(c, offset, |data|)
    reads c.Object()
    ensures |r| == |data|
  {
    match c
    case Static(s) => TableDecrypt(StaticTable, s.key, data, offset)
    case Map(m) => TableDecrypt(MapTable, m.key, data, offset)
    case RC4(r) => Rc4Decrypt(r.Key(), quotient, data, offset)
  }

  /** A call of qmDecrypt through the protocol. */
  method QmDecrypt(c: QMCipher, data: seq<Byte>, offset: nat, quotient: SegmentQuotient) returns (r: seq<Byte>)
    requires CanDecrypt(c, offset, |data|)
    ensures r == CipherDecrypt(c, data, offset, quotient)
  {
    match c
    case Static(s) =>
      r := s.QmDecrypt(data, offset);
    case Map(m) =>
      r := m.QmDecrypt(data, offset);
    case RC4(rc4) =>
      r := rc4.QmDecrypt(data, offset, quotient);
  }

  /** Every cipher is its own inverse at a fixed offset. */
  lemma CipherDecryptTwice(c: QMCipher, data: seq<Byte>, offset: nat, quotient: SegmentQuotient)
    requires CanDecrypt(c, offset, |data|)
    ensures CipherDecrypt(c, CipherDecrypt(c, data, offset, quotient), offset, quotient) == data
  {
    match c
    case Static(s) => TableDecryptTwice(StaticTable, s.key, data, offset);
    case Map(m) => TableDecryptTwice(MapTable, m.key, data, offset);
    case RC4(r) => Rc4DecryptTwice(r.Key(), quotient, data, offset);
  }

  /** Every cipher can decrypt the data in two pieces, each at its own absolute offset. */
  lemma CipherDecryptSplit(c: QMCipher, data: seq<Byte>, offset: nat, quotient: SegmentQuotient, s: nat)
    requires CanDecrypt(c, offset, |data|) && s <= |data|
    ensures CanDecrypt(c, offset, s) && CanDecrypt(c, offset + s, |data| - s)
    ensures CipherDecrypt(c, data, offset, quotient)
         == CipherDecrypt(c, data[..s], offset, quotient) + CipherDecrypt(c, data[s..], offset + s, quotient)
  {
    match c
    case Static(st) => TableDecryptSplit(StaticTable, st.key, data, offset, s);
    case Map(m) => TableDecryptSplit(MapTable, m.key, data, offset, s);
    case RC4(r) => Rc4DecryptSplit(r.Key(), quotient, data, offset, s);
  }
}
