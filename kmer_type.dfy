/** The nucleotide bit-packing codec: a k-mer over {A, C, G, T} packed two bits
    per base into the smallest unsigned integer that holds it, first base most
    significant. */
module KmerTypes {
  import opened Outcome
  import opened UInt

  /** A packed k-mer: a tagged union over the unsigned integer widths. */
  datatype KmerType =
    | U8(v8: u8)
    | U16(v16: u16)
    | U32(v32: u32)
    | U64(v64: u64)
    | U128(v128: u128)

  /** The bit width of the active variant. */
  function Bits(x: KmerType): nat
  {
    match x
    case U8(_) => 8
    case U16(_) => 16
    case U32(_) => 32
    case U64(_) => 64
    case U128(_) => 128
  }

  /** The integer held by the active variant. */
  function Payload(x: KmerType): (v: nat)
    ensures v < Pow2(Bits(x))
  {
    Pow2Widths();
    match x
    case U8(a) => a
    case U16(a) => a
    case U32(a) => a
    case U64(a) => a
    case U128(a) => a
  }

  /** Two values of the same variant: the variants have distinct widths. */
  predicate SameVariant(x: KmerType, y: KmerType)
  {
    Bits(x) == Bits(y)
  }

  /** The value of the same variant as `like` holding v. */
  function WithPayload(like: KmerType, v: nat): (r: KmerType)
    requires v < Pow2(Bits(like))
    ensures SameVariant(r, like) && Payload(r) == v
  {
    Pow2Widths();
    match like
    case U8(_) => U8(v)
    case U16(_) => U16(v)
    case U32(_) => U32(v)
    case U64(_) => U64(v)
    case U128(_) => U128(v)
  }

  /** The derived equality: a value is its variant and its payload, so values
      of different variants are never equal. */
  lemma VariantAndPayloadDetermine(x: KmerType, y: KmerType)
    ensures x == y <==> SameVariant(x, y) && Payload(x) == Payload(y)
    ensures SameVariant(x, y) <==> x.U8? == y.U8? && x.U16? == y.U16? && x.U32? == y.U32? && x.U64? == y.U64?
  {
  }

  /** `self << rhs`: same variant, bits shifted past the width are lost, and a
      shift by the width or more fails the overflow check. */
  function Shl(x: KmerType, rhs: nat): (r: Result<KmerType>)
    ensures r.Ok? <==> rhs < Bits(x)
    ensures r.Err? ==> r.fault == ShiftOverflow
    ensures r.Ok? ==> SameVariant(r.value, x) && Payload(r.value) == ShiftLeft(Payload(x), rhs, Bits(x))
  {
    if rhs >= Bits(x) then Err(ShiftOverflow)
    else Ok(WithPayload(x, ShiftLeft(Payload(x), rhs, Bits(x))))
  }

  /** `self >> rhs`: same variant, payload divided by 2^rhs. */
  function Shr(x: KmerType, rhs: nat): (r: Result<KmerType>)
    ensures r.Ok? <==> rhs < Bits(x)
    ensures r.Err? ==> r.fault == ShiftOverflow
    ensures r.Ok? ==> SameVariant(r.value, x) && Payload(r.value) == ShiftRight(Payload(x), rhs)
  {
    if rhs >= Bits(x) then Err(ShiftOverflow)
    else Ok(WithPayload(x, ShiftRight(Payload(x), rhs)))
  }

  /** The variant of x holding `op` applied to the payloads of x and y. */
  function Combine(op: BitOp, x: KmerType, y: KmerType): (r: KmerType)
    requires SameVariant(x, y)
    ensures SameVariant(r, x) && Payload(r) == Bitwise(op, Payload(x), Payload(y), Bits(x))
  {
    WithPayload(x, Bitwise(op, Payload(x), Payload(y), Bits(x)))
  }

  /** `self | rhs`, defined only between equal variants. */
  function BitOr(x: KmerType, y: KmerType): (r: Result<KmerType>)
    ensures r.Ok? <==> SameVariant(x, y)
    ensures r.Err? ==> r.fault == VariantMismatch
    ensures r.Ok? ==> SameVariant(r.value, x)
    ensures r.Ok? ==> forall i :: 0 <= i < Bits(x) ==>
                        Bit(Payload(r.value), i) == (if Bit(Payload(x), i) == 1 || Bit(Payload(y), i) == 1 then 1 else 0)
  {
    if SameVariant(x, y) then
      BitsOfCombine(OrOp, x, y);
      Ok(Combine(OrOp, x, y))
    else Err(VariantMismatch)
  }

  /** `self & rhs`, defined only between equal variants. */
  function BitAnd(x: KmerType, y: KmerType): (r: Result<KmerType>)
    ensures r.Ok? <==> SameVariant(x, y)
    ensures r.Err? ==> r.fault == VariantMismatch
    ensures r.Ok? ==> SameVariant(r.value, x)
    ensures r.Ok? ==> forall i :: 0 <= i < Bits(x) ==>
                        Bit(Payload(r.value), i) == (if Bit(Payload(x), i) == 1 && Bit(Payload(y), i) == 1 then 1 else 0)
  {
    if SameVariant(x, y) then
      BitsOfCombine(AndOp, x, y);
      Ok(Combine(AndOp, x, y))
    else Err(VariantMismatch)
  }

  /** `self |= rhs`: the new value of `self` is `self | rhs`. */
  function BitOrAssign(self: KmerType, rhs: KmerType): (r: Result<KmerType>)
    ensures r == BitOr(self, rhs)
  {
    if SameVariant(self, rhs) then Ok(Combine(OrOp, self, rhs)) else Err(VariantMismatch)
  }

  /** `self &= rhs`: the new value of `self` is `self & rhs`. */
  function BitAndAssign(self: KmerType, rhs: KmerType): (r: Result<KmerType>)
    ensures r == BitAnd(self, rhs)
  {
    if SameVariant(self, rhs) then Ok(Combine(AndOp, self, rhs)) else Err(VariantMismatch)
  }

  /** `self ^= rhs`: the new value of `self` is the bitwise exclusive or. */
  function BitXorAssign(self: KmerType, rhs: KmerType): (r: Result<KmerType>)
    ensures r.Ok? <==> SameVariant(self, rhs)
    ensures r.Err? ==> r.fault == VariantMismatch
    ensures r.Ok? ==> SameVariant(r.value, self)
    ensures r.Ok? ==> forall i :: 0 <= i < Bits(self) ==>
                        Bit(Payload(r.value), i) == (if Bit(Payload(self), i) != Bit(Payload(rhs), i) then 1 else 0)
  {
    if SameVariant(self, rhs) then
      BitsOfCombine(XorOp, self, rhs);
      Ok(Combine(XorOp, self, rhs))
    else Err(VariantMismatch)
  }

  lemma BitsOfCombine(op: BitOp, x: KmerType, y: KmerType)
    requires SameVariant(x, y)
    ensures forall i :: 0 <= i < Bits(x) ==>
              Bit(Payload(Combine(op, x, y)), i) == CombineBits(op, Bit(Payload(x), i), Bit(Payload(y), i))
  {
    forall i | 0 <= i < Bits(x)
      ensures Bit(Payload(Combine(op, x, y)), i) == CombineBits(op, Bit(Payload(x), i), Bit(Payload(y), i))
    {
      BitwiseBit(op, Payload(x), Payload(y), Bits(x), i);
    }
  }

  /** `to_u16`: the payload of a U16, a panic for every other variant. */
  function ToU16(x: KmerType): (r: Result<u16>)
    ensures r.Ok? <==> x.U16?
    ensures r.Err? ==> r.fault == UnsupportedVariant
    ensures r.Ok? ==> r.value == Payload(x)
  {
    match x
    case U8(_) => Err(UnsupportedVariant)
    case U16(val) => Ok(val)
    case U32(_) => Err(UnsupportedVariant)
    case U64(_) => Err(UnsupportedVariant)
    case U128(_) => Err(UnsupportedVariant)
  }

  /** The width init_kmer_type picks for a k-mer of length len <= 64. */
  function Width(len: nat): nat
  {
    if len <= 4 then 8 else if len <= 8 then 16 else if len <= 16 then 32 else if len <= 32 then 64 else 128
  }

  /** `init_kmer_type(len, val)`: the smallest variant with room for 2·len bits,
      holding val; lengths above 64 are refused. */
  function InitKmerType(len: nat, val: u8): (r: Result<KmerType>)
    ensures r.Ok? <==> len <= 64
    ensures r.Err? ==> r.fault == KmerTooLong
    ensures r.Ok? ==> Payload(r.value) == val && Bits(r.value) == Width(len)
    ensures r.Ok? ==> 2 * len <= Bits(r.value) && (Bits(r.value) > 8 ==> Bits(r.value) < 4 * len)
  {
    if len <= 4 then Ok(U8(val))
    else if len <= 8 then Ok(U16(val))
    else if len <= 16 then Ok(U32(val))
    else if len <= 32 then Ok(U64(val))
    else if len <= 64 then Ok(U128(val))
    else Err(KmerTooLong)
  }

  // ---------------------------------------------------------------------------
  // The encoding as a base-4 number

  predicate IsBase(c: char)
  {
    c == 'A' || c == 'C' || c == 'G' || c == 'T'
  }

  predicate AllBases(s: string)
  {
    forall i :: 0 <= i < |s| ==> IsBase(s[i])
  }

  /** The 2-bit code of a nucleotide: A, C, G, T are 0b00, 0b01, 0b10, 0b11. */
  function BaseCode(c: char): (d: nat)
    requires IsBase(c)
    ensures d < 4
  {
    match c
    case 'A' => 0
    case 'C' => 1
    case 'G' => 2
    case 'T' => 3
  }

  /** The nucleotide of a 2-bit code. */
  function CodeBase(d: nat): (c: char)
    requires d < 4
    ensures IsBase(c) && BaseCode(c) == d
  {
    if d == 0 then 'A' else if d == 1 then 'C' else if d == 2 then 'G' else 'T'
  }

  /** The bases read left to right as the digits of a base-4 number. */
  function Base4(s: string): (v: nat)
    requires AllBases(s)
    ensures v < Pow2(2 * |s|)
  {
    if s == [] then 0
    else
      var prefix := s[..|s| - 1];
      assert AllBases(prefix);
      var p := Base4(prefix);
      assert Pow2(2 * |s|) == 4 * Pow2(2 * |prefix|);
      p * 4 + BaseCode(s[|s| - 1])
  }

  /** What `binary_encode` computes: an over-long k-mer is refused first, then
      any character outside {A, C, G, T}; otherwise the base-4 value of the
      bases, held in the variant init_kmer_type chooses for the length. */
  function Encoding(s: string): (r: Result<KmerType>)
    ensures r.Ok? <==> |s| <= 64 && AllBases(s)
    ensures |s| > 64 ==> r == Err(KmerTooLong)
    ensures |s| <= 64 && !AllBases(s) ==> r == Err(InvalidCharacter)
    ensures r.Ok? ==> SameVariant(r.value, InitKmerType(|s|, 0).value)
  {
    if |s| > 64 then Err(KmerTooLong)
    else if !AllBases(s) then Err(InvalidCharacter)
    else
      var init := InitKmerType(|s|, 0).value;
      Pow2Monotone(2 * |s|, Bits(init));
      Ok(WithPayload(init, Base4(s)))
  }

  lemma EncodeStep(p: nat, code: nat, m: nat, n: nat)
    requires code < 4 && (4 * p + code) * Pow2(2 * m) < Pow2(n)
    ensures ShiftLeft(code, 2 * m, n) == code * Pow2(2 * m)
    ensures Bitwise(OrOp, p * Pow2(2 * m + 2), code * Pow2(2 * m), n) == (4 * p + code) * Pow2(2 * m)
  {
    hide Pow2, Bitwise, ShiftLeft, ShiftRight;
    var q := Pow2(2 * m);
    Pow2Succ(2 * m);
    Pow2Succ(2 * m + 1);
    assert (4 * p + code) * q == p * (4 * q) + code * q;
    ShiftRoundTrip(code, 2 * m, n);
    OrDisjoint(p, code * q, 2 * m + 2, n);
  }

  lemma PrefixBound(s: string, i: nat, n: nat)
    requires i < |s| && AllBases(s[..i + 1]) && 2 * |s| <= n
    ensures Base4(s[..i + 1]) * Pow2(2 * (|s| - 1 - i)) < Pow2(n)
  {
    var v := Base4(s[..i + 1]);
    var q := Pow2(2 * (|s| - 1 - i));
    Pow2Add(2 * (i + 1), 2 * (|s| - 1 - i));
    assert v * q < Pow2(2 * (i + 1)) * q by {
      MulStep(q, v, Pow2(2 * (i + 1)));
    }
    Pow2Monotone(2 * |s|, n);
  }

  /** The first i bases are nucleotides, and x holds their base-4 value
      shifted to the top of a 2·|kmer|-bit field. */
  predicate EncodedPrefix(kmer: string, i: nat, x: KmerType)
    requires i <= |kmer|
  {
    AllBases(kmer[..i]) && Payload(x) == Base4(kmer[..i]) * Pow2(2 * (|kmer| - i))
  }

  /** Shifting a 2-bit code to bit 2·m, with room for bits 2·m and 2·m + 1,
      neither overflows nor loses a bit. */
  lemma ShiftedCode(val: KmerType, m: nat)
    requires Payload(val) < 4 && 2 * m + 2 <= Bits(val)
    ensures Shl(val, m * 2).Ok?
    ensures Payload(Shl(val, m * 2).value) == Payload(val) * Pow2(2 * m)
  {
    var q := Pow2(2 * m);
    assert Pow2(2 * m + 2) == 4 * q;
    Pow2Monotone(2 * m + 2, Bits(val));
    assert Payload(val) * q < Pow2(Bits(val)) by {
      MulStep(q, Payload(val), 4);
    }
    ShiftRoundTrip(Payload(val), 2 * m, Bits(val));
  }

  /** One iteration of the encoding loop: OR-ing base i's code, already
      shifted to bit 2·(len−1−i), into the value of bases 0 .. i−1 gives the
      value of bases 0 .. i. */
  lemma OrStep(kmer: string, i: nat, m: nat, result: KmerType, code: nat, shifted: KmerType)
    requires i < |kmer| && m == |kmer| - 1 - i && IsBase(kmer[i])
    requires 2 * |kmer| <= Bits(result) && SameVariant(shifted, result)
    requires EncodedPrefix(kmer, i, result)
    requires code == BaseCode(kmer[i]) && Payload(shifted) == code * Pow2(2 * m)
    ensures BitOrAssign(result, shifted).Ok?
    ensures EncodedPrefix(kmer, i + 1, BitOrAssign(result, shifted).value)
  {
    PrefixExtend(kmer, i);
    var p := Base4(kmer[..i]);
    var n := Bits(result);
    assert Payload(result) == p * Pow2(2 * m + 2) by {
      assert 2 * (|kmer| - i) == 2 * m + 2;
    }
    assert (4 * p + code) * Pow2(2 * m) < Pow2(n) by {
      PrefixBound(kmer, i, n);
    }
    EncodeStep(p, code, m, n);
  }

  lemma PrefixExtend(kmer: string, i: nat)
    requires i < |kmer| && AllBases(kmer[..i]) && IsBase(kmer[i])
    ensures AllBases(kmer[..i + 1])
    ensures Base4(kmer[..i + 1]) == 4 * Base4(kmer[..i]) + BaseCode(kmer[i])
  {
    assert kmer[..i + 1] == kmer[..i] + [kmer[i]];
    assert kmer[..i + 1][..i] == kmer[..i];
  }

  /** `binary_encode`: for each base left to right, OR its code shifted to bit
      2·(len − 1 − i) into the result. */
  method BinaryEncode(kmer: string) returns (r: Result<KmerType>)
    ensures r == Encoding(kmer)
  {
    hide Encoding, Bitwise, ShiftLeft, ShiftRight, Base4;
    var kmerLen := |kmer|;
    var init := InitKmerType(kmerLen, 0);
    if init.Err? {
      return Err(init.fault);
    }
    var result := init.value;
    for i := 0 to kmerLen
      invariant SameVariant(result, init.value)
      invariant EncodedPrefix(kmer, i, result)
    {
      var code: u8;
      match kmer[i] {
        case 'A' => code := 0;
        case 'C' => code := 1;
        case 'G' => code := 2;
        case 'T' => code := 3;
        case _ => return Err(InvalidCharacter);
      }
      var val := InitKmerType(kmerLen, code).value;
      ghost var m := kmerLen - 1 - i;
      assert Payload(val) == BaseCode(kmer[i]);
      ShiftedCode(val, m);
      var shifted := Shl(val, (kmerLen - 1 - i) * 2).value;
      OrStep(kmer, i, m, result, code, shifted);
      result := BitOrAssign(result, shifted).value;
    }
    assert kmer[..kmerLen] == kmer;
    EncodingOfPayload(kmer, result);
    return Ok(result);
  }

  /** A value of the variant chosen for the length that holds the base-4
      value of the k-mer is its encoding. */
  lemma EncodingOfPayload(kmer: string, x: KmerType)
    requires |kmer| <= 64 && AllBases(kmer)
    requires SameVariant(x, InitKmerType(|kmer|, 0).value)
    requires Payload(x) == Base4(kmer) * Pow2(0)
    ensures Encoding(kmer) == Ok(x)
  {
  }

  // ---------------------------------------------------------------------------
  // Reading the 2-bit fields back

  /** The n 2-bit fields of v, most significant first, as nucleotides. */
  function Digits(v: nat, n: nat): (s: string)
    ensures |s| == n && AllBases(s)
  {
    if n == 0 then [] else Digits(v / 4, n - 1) + [CodeBase(v % 4)]
  }

  /** Unpacking a k-mer of known length. */
  function Decode(x: KmerType, len: nat): (s: string)
    ensures |s| == len && AllBases(s)
  {
    Digits(Payload(x), len)
  }

  lemma {:induction false} DigitsOfBase4(s: string)
    requires AllBases(s)
    ensures Digits(Base4(s), |s|) == s
  {
    if s != [] {
      var prefix := s[..|s| - 1];
      DigitsOfBase4(prefix);
      DivUnique(Base4(s), 4, Base4(prefix), BaseCode(s[|s| - 1]));
      assert s == prefix + [s[|s| - 1]];
    }
  }

  /** Round trip: reading the 2-bit fields back, most significant first,
      recovers the k-mer. */
  lemma DecodeEncoding(s: string)
    requires Encoding(s).Ok?
    ensures Decode(Encoding(s).value, |s|) == s
  {
    DigitsOfBase4(s);
  }

  /** For k-mers of one length, equal encodings mean equal k-mers. */
  lemma EncodingInjective(s1: string, s2: string)
    requires |s1| == |s2| && Encoding(s1).Ok? && Encoding(s2).Ok?
    ensures Encoding(s1) == Encoding(s2) <==> s1 == s2
  {
    if Encoding(s1) == Encoding(s2) {
      DecodeEncoding(s1);
      DecodeEncoding(s2);
    }
  }

  lemma {:induction false} DigitsAt(v: nat, n: nat, i: nat)
    requires i < n
    ensures Digits(v, n)[i] == CodeBase((v / Pow2(2 * (n - 1 - i))) % 4)
  {
    if i < n - 1 {
      DigitsAt(v / 4, n - 1, i);
      var q := Pow2(2 * (n - 2 - i));
      Pow2Add(2, 2 * (n - 2 - i));
      assert Pow2(2) == 4;
      DivDiv(v, 4, q);
      assert Digits(v, n)[i] == Digits(v / 4, n - 1)[i];
    }
  }

  /** Base i of the k-mer sits in bits 2·(len−1−i) and 2·(len−1−i)+1:
      `(x >> 2·(len−1−i)) & 0b11` is its code. */
  lemma FieldOfBase(s: string, i: nat)
    requires Encoding(s).Ok? && i < |s|
    ensures ShiftRight(Payload(Encoding(s).value), 2 * (|s| - 1 - i)) % 4 == BaseCode(s[i])
  {
    DecodeEncoding(s);
    DigitsAt(Payload(Encoding(s).value), |s|, i);
  }

  /** The value stays below 4^len, so the chosen variant loses no bit. */
  lemma EncodingFits(s: string)
    requires Encoding(s).Ok?
    ensures Payload(Encoding(s).value) < Pow2(2 * |s|) <= Pow2(Bits(Encoding(s).value))
  {
    Pow2Monotone(2 * |s|, Bits(Encoding(s).value));
  }

  /** `binary_encode(s).to_u16()` succeeds exactly for lengths 5 to 8. */
  lemma EncodingToU16(s: string)
    requires Encoding(s).Ok?
    ensures ToU16(Encoding(s).value).Ok? <==> 5 <= |s| <= 8
  {
  }

  /** A left shift that loses no bit is undone by the right shift, and
      neither changes the variant. */
  lemma ShlShrRoundTrip(x: KmerType, n: nat)
    requires n < Bits(x) && Payload(x) * Pow2(n) < Pow2(Bits(x))
    ensures Shl(x, n).Ok? && Shr(Shl(x, n).value, n) == Ok(x)
  {
    ShiftRoundTrip(Payload(x), n, Bits(x));
  }
}
