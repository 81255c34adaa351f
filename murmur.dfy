/** The 32-bit `murmur32` hash of the SNP-calling programs: MurmurHash3's
    x86_32 block, tail and finalisation steps, except that the running hash
    starts from `seed ^ len` instead of `seed`. */
module Murmur {

  const C1: bv32 := 0xcc9e2d51
  const C2: bv32 := 0x1b873593
  const R1: bv32 := 15
  const R2: bv32 := 13
  const M: bv32 := 5
  const N: bv32 := 0xe6546b64

  /** `key.len() as u32`: the length truncated to 32 bits. */
  function LenWord(key: seq<bv8>): bv32
  {
    (|key| % 0x1_0000_0000) as bv32
  }

  /** The length word of a one-byte key. */
  lemma LenWordOne(key: seq<bv8>)
    requires |key| == 1
    ensures LenWord(key) == 1
  {
    assert |key| % 0x1_0000_0000 == 1;
  }

  /** The length word of a one-block key. */
  lemma LenWordFour(key: seq<bv8>)
    requires |key| == 4
    ensures LenWord(key) == 4
  {
    assert |key| % 0x1_0000_0000 == 4;
  }

  /** `u32::from_le_bytes([b0, b1, b2, b3])`. */
  function LeWord(b0: bv8, b1: bv8, b2: bv8, b3: bv8): bv32
  {
    (b0 as bv32) | ((b1 as bv32) << 8) | ((b2 as bv32) << 16) | ((b3 as bv32) << 24)
  }

  /** The word's four bytes, least significant first, are the bytes read. */
  lemma LeWordBytes(b0: bv8, b1: bv8, b2: bv8, b3: bv8)
    ensures var w := LeWord(b0, b1, b2, b3);
      (w & 0xff) as bv8 == b0 && ((w >> 8) & 0xff) as bv8 == b1 &&
      ((w >> 16) & 0xff) as bv8 == b2 && (w >> 24) as bv8 == b3
  {
  }

  /** `u32::wrapping_mul`: the product modulo 2^32. */
  function WrappingMul(a: bv32, b: bv32): bv32
  {
    a * b
  }

  /** `u32::wrapping_add`: the sum modulo 2^32. */
  function WrappingAdd(a: bv32, b: bv32): bv32
  {
    a + b
  }

  /** `a ^ b` on u32. */
  function Xor(a: bv32, b: bv32): bv32
  {
    a ^ b
  }

  /** `a >> s` on u32. */
  function Shr(a: bv32, s: bv32): bv32
    requires s < 32
  {
    a >> s
  }

  /** Rotating the bits of x left by r places. */
  function Rotl(x: bv32, r: bv32): bv32
    requires 0 < r < 32
  {
    (x << r) | (x >> (32 - r))
  }

  /** Rotl is `u32::rotate_left` for the two amounts the hash uses. */
  lemma RotlIsRotateLeft(x: bv32)
    ensures Rotl(x, 15) == x.RotateLeft(15) && Rotl(x, 13) == x.RotateLeft(13)
  {
  }

  /** The multiply-rotate-multiply scramble applied to each 32-bit word. */
  function ScrambleK(k: bv32): bv32
  {
    WrappingMul(Rotl(WrappingMul(k, C1), R1), C2)
  }

  /** Mixing one scrambled block into the running hash. */
  function MixBlock(hash: bv32, k: bv32): bv32
  {
    WrappingAdd(WrappingMul(Rotl(Xor(hash, ScrambleK(k)), R2), M), N)
  }

  /** Block b of the key read as a little-endian word. */
  function BlockWord(key: seq<bv8>, b: nat): bv32
    requires 4 * b + 4 <= |key|
  {
    LeWord(key[4 * b], key[4 * b + 1], key[4 * b + 2], key[4 * b + 3])
  }

  /** The running hash after mixing the first n blocks into h0. */
  function BlocksHash(h0: bv32, key: seq<bv8>, n: nat): bv32
    requires 4 * n <= |key|
  {
    if n == 0 then h0 else MixBlock(BlocksHash(h0, key, n - 1), BlockWord(key, n - 1))
  }

  /** The shift 8·t that places trailing byte t, for t < 3. */
  function ByteShift(t: nat): bv32
    requires t < 3
  {
    if t == 0 then 0 else if t == 1 then 8 else 16
  }

  /** `u32::from(x) << j`: byte x moved up by j bits. */
  function ShiftedByte(x: bv8, j: bv32): bv32
    requires j < 32
  {
    (x as bv32) << j
  }

  /** The 1 to 3 trailing bytes folded into one word, byte t at bits 8·t. */
  function TailWord(tail: seq<bv8>): bv32
    requires |tail| < 4
  {
    if tail == [] then 0
    else Xor(TailWord(tail[..|tail| - 1]), ShiftedByte(tail[|tail| - 1], ByteShift(|tail| - 1)))
  }

  /** Folding one more trailing byte into the tail word. */
  lemma TailWordSnoc(tail: seq<bv8>, x: bv8)
    requires |tail| < 3
    ensures TailWord(tail + [x]) == Xor(TailWord(tail), ShiftedByte(x, ByteShift(|tail|)))
  {
    assert (tail + [x])[..|tail|] == tail;
  }

  /** The final avalanche. */
  function Fmix(h: bv32): bv32
  {
    var h1 := Xor(h, Shr(h, 16));
    var h2 := WrappingMul(h1, 0x85ebca6b);
    var h3 := Xor(h2, Shr(h2, 13));
    var h4 := WrappingMul(h3, 0xc2b2ae35);
    Xor(h4, Shr(h4, 16))
  }

  /** The MurmurHash3 x86_32 steps from the initial state h0 on: the whole
      blocks, the scrambled tail (only when there is one), then the length
      xor and the avalanche. */
  function Murmur3From(key: seq<bv8>, h0: bv32): bv32
  {
    var blocks := |key| / 4;
    var h := BlocksHash(h0, key, blocks);
    var h' := if |key| % 4 != 0 then Xor(h, ScrambleK(TailWord(key[4 * blocks..]))) else h;
    Fmix(Xor(h', LenWord(key)))
  }

  /** Reference MurmurHash3_x86_32: the running hash starts at the seed. */
  function ReferenceMurmur3(key: seq<bv8>, seed: bv32): bv32
  {
    Murmur3From(key, seed)
  }

  /** What `murmur32` computes: the running hash starts at `seed ^ len`. */
  function MurmurHash(key: seq<bv8>, seed: bv32): bv32
  {
    Murmur3From(key, Xor(seed, LenWord(key)))
  }

  /** The block loop of `murmur32`: every whole four-byte block of the key,
      read little-endian, is scrambled and mixed into the running hash. */
  method MixBlocks(key: seq<bv8>, h0: bv32) returns (hash: bv32, i: nat)
    ensures i == 4 * (|key| / 4)
    ensures hash == BlocksHash(h0, key, |key| / 4)
  {
    hash := h0;
    i := 0;
    ghost var b := 0;
    while i + 4 <= |key|
      invariant i == 4 * b && i <= |key|
      invariant hash == BlocksHash(h0, key, b)
    {
      ghost var prev := hash;
      var k := LeWord(key[i], key[i + 1], key[i + 2], key[i + 3]);
      k := WrappingMul(k, C1);
      k := Rotl(k, R1);
      k := WrappingMul(k, C2);
      hash := Xor(hash, k);
      hash := Rotl(hash, R2);
      hash := WrappingAdd(WrappingMul(hash, M), N);
      assert k == ScrambleK(BlockWord(key, b));
      assert hash == MixBlock(prev, BlockWord(key, b));
      i := i + 4;
      b := b + 1;
    }
  }

  /** The tail loop of `murmur32`: the bytes from start on (fewer than four)
      folded into one word, byte t at bits 8·t, then scrambled. */
  method ScrambleTail(key: seq<bv8>, start: nat) returns (k: bv32)
    requires start <= |key| < start + 4
    ensures k == ScrambleK(TailWord(key[start..]))
  {
    k := 0;
    var i := start;
    var j: bv32 := 0;
    while i < |key|
      invariant start <= i <= |key|
      invariant i < |key| ==> j == ByteShift(i - start)
      invariant k == TailWord(key[start..i])
    {
      ghost var t := key[start..i];
      TailWordSnoc(t, key[i]);
      assert key[start..i + 1] == t + [key[i]];
      assert j == ByteShift(|t|);
      k := Xor(k, ShiftedByte(key[i], j));
      assert k == TailWord(t + [key[i]]);
      i := i + 1;
      j := j + 8;
    }
    assert key[start..i] == key[start..];
    k := WrappingMul(k, C1);
    k := Rotl(k, R1);
    k := WrappingMul(k, C2);
  }

  /** `murmur32(key, seed)`: the block loop, the tail loop when bytes remain,
      then the length xor and the final scramble. */
  method Murmur32(key: seq<bv8>, seed: bv32) returns (h: bv32)
    ensures h == MurmurHash(key, seed)
  {
    var hash, i := MixBlocks(key, Xor(seed, LenWord(key)));
    if i < |key| {
      var k := ScrambleTail(key, i);
      hash := Xor(hash, k);
    }
    hash := Xor(hash, LenWord(key));
    ghost var mixed := hash;
    hash := Xor(hash, Shr(hash, 16));
    hash := WrappingMul(hash, 0x85ebca6b);
    hash := Xor(hash, Shr(hash, 13));
    hash := WrappingMul(hash, 0xc2b2ae35);
    hash := Xor(hash, Shr(hash, 16));
    assert hash == Fmix(mixed);
    return hash;
  }

  /** Published MurmurHash3_x86_32 test vectors for the empty key hold for
      the reference function. */
  lemma ReferenceVectorsEmpty()
    ensures ReferenceMurmur3([], 0) == 0
    ensures ReferenceMurmur3([], 1) == 0x514E28B7
  {
    assert Fmix(0) == 0;
    assert Fmix(1) == 0x514E28B7;
  }

  /** Mixing the zero block into the zero hash. */
  lemma MixOfZeroBlock()
    ensures MixBlock(0, 0) == 0xe6546b64
  {
  }

  /** The avalanche on the zero-block state. */
  lemma FmixOfZeroBlock()
    ensures Fmix(0xe6546b60) == 0x2362F9DE
  {
  }

  /** The published vector for one zero block. */
  lemma ReferenceVectorZeroBlock()
    ensures ReferenceMurmur3([0, 0, 0, 0], 0) == 0x2362F9DE
  {
    hide Fmix, MixBlock;
    var key: seq<bv8> := [0, 0, 0, 0];
    assert BlockWord(key, 0) == 0;
    MixOfZeroBlock();
    assert BlocksHash(0, key, 1) == 0xe6546b64;
    LenWordFour(key);
    assert Xor(0xe6546b64, 4) == 0xe6546b60;
    FmixOfZeroBlock();
  }

  /** The tail word of "a": the byte itself. */
  lemma TailOfA()
    ensures TailWord([0x61]) == 0x61
  {
    assert [0x61][..0] == [];
  }

  /** The scrambled tail word of "a". */
  lemma ScrambleOfA()
    ensures ScrambleK(0x61) == 0x504ba9d5
  {
  }

  /** The avalanche on the reference state for "a". */
  lemma FmixOfA()
    ensures Fmix(0xc70c1b58) == 0x7FA09EA6
  {
  }

  /** The avalanche on the state `murmur32` reaches for "a". */
  lemma FmixOfShiftedA()
    ensures Fmix(0xc70c1b59) == 0x527AF074
  {
  }

  /** The published vector for the one-byte key "a". */
  lemma ReferenceVectorOneByte()
    ensures ReferenceMurmur3([0x61], 0x9747b28c) == 0x7FA09EA6
  {
    hide Fmix, ScrambleK;
    var key: seq<bv8> := [0x61];
    assert key[4 * 0..] == [0x61];
    TailOfA();
    ScrambleOfA();
    assert Xor(0x9747b28c, 0x504ba9d5) == 0xc70c1b59;
    LenWordOne(key);
    assert Xor(0xc70c1b59, 1) == 0xc70c1b58;
    FmixOfA();
  }

  /** Mixing the block "aaaa" into the seed 0x9747b28c. */
  lemma MixOfAaaa()
    ensures MixBlock(0x9747b28c, 0x61616161) == 0x720c8863
  {
  }

  /** The avalanche on the reference state for "aaaa". */
  lemma FmixOfAaaa()
    ensures Fmix(0x720c8867) == 0x5A97808A
  {
  }

  /** The published vector for the one-block key "aaaa". */
  lemma ReferenceVectorOneBlock()
    ensures ReferenceMurmur3([0x61, 0x61, 0x61, 0x61], 0x9747b28c) == 0x5A97808A
  {
    hide Fmix, MixBlock;
    var key: seq<bv8> := [0x61, 0x61, 0x61, 0x61];
    assert BlockWord(key, 0) == 0x61616161;
    MixOfAaaa();
    assert BlocksHash(0x9747b28c, key, 1) == 0x720c8863;
    LenWordFour(key);
    assert Xor(0x720c8863, 4) == 0x720c8867;
    FmixOfAaaa();
  }

  /** What `murmur32` computes on the one-byte key "a". */
  lemma MurmurOfA()
    ensures MurmurHash([0x61], 0x9747b28c) == 0x527AF074
  {
    hide Fmix, ScrambleK;
    var key: seq<bv8> := [0x61];
    assert key[4 * 0..] == [0x61];
    TailOfA();
    ScrambleOfA();
    LenWordOne(key);
    assert Xor(0x9747b28c, 1) == 0x9747b28d;
    assert Xor(0x9747b28d, 0x504ba9d5) == 0xc70c1b58;
    assert Xor(0xc70c1b58, 1) == 0xc70c1b59;
    FmixOfShiftedA();
  }

  /** On the one-byte key "a" the two differ: with the running hash started
      at seed ^ 1, `murmur32` is not MurmurHash3. */
  lemma DiffersFromReference()
    ensures MurmurHash([0x61], 0x9747b28c) != ReferenceMurmur3([0x61], 0x9747b28c)
  {
    hide MurmurHash, ReferenceMurmur3;
    MurmurOfA();
    ReferenceVectorOneByte();
  }

  /** The byte a character stands for in an ASCII string: its code. */
  function CharByte(c: char): bv8
  {
    ((c as int) % 0x100) as bv8
  }

  /** `s.as_bytes()` for an ASCII string: one byte per character, holding
      the character's code. */
  function AsBytes(s: string): (b: seq<bv8>)
    ensures |b| == |s|
    ensures forall i :: 0 <= i < |s| ==> b[i] == CharByte(s[i])
  {
    if s == [] then [] else [CharByte(s[0])] + AsBytes(s[1..])
  }
}
