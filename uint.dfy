/** Rust's fixed-width unsigned integers (u8 .. u128) as bounded naturals, with
    their shift and bitwise operators defined arithmetically. */
module UInt {

  function Pow2(n: nat): (r: nat)
    ensures r >= 1
  {
    if n == 0 then 1 else 2 * Pow2(n - 1)
  }

  lemma {:induction false} Pow2Add(a: nat, b: nat)
    ensures Pow2(a + b) == Pow2(a) * Pow2(b)
  {
    if a > 0 {
      Pow2Add(a - 1, b);
    }
  }

  lemma {:induction false} Pow2Monotone(a: nat, b: nat)
    requires a <= b
    ensures Pow2(a) <= Pow2(b)
  {
    if a < b {
      Pow2Monotone(a, b - 1);
    }
  }

  /** The sizes of Rust's unsigned integer types. */
  lemma Pow2Widths()
    ensures Pow2(8) == 0x100
    ensures Pow2(16) == 0x1_0000
    ensures Pow2(32) == 0x1_0000_0000
    ensures Pow2(64) == 0x1_0000_0000_0000_0000
    ensures Pow2(128) == 0x1_0000_0000_0000_0000_0000_0000_0000_0000
  {
    assert Pow2(8) == 0x100;
    Pow2Add(8, 8);
    Pow2Add(16, 16);
    Pow2Add(32, 32);
    Pow2Add(64, 64);
  }

  type u8 = x: nat | x < 0x100
  type u16 = x: nat | x < 0x1_0000
  type u32 = x: nat | x < 0x1_0000_0000
  type u64 = x: nat | x < 0x1_0000_0000_0000_0000
  type u128 = x: nat | x < 0x1_0000_0000_0000_0000_0000_0000_0000_0000

  /** Bit i of x (bit 0 is the least significant). */
  function Bit(x: nat, i: nat): nat
  {
    (x / Pow2(i)) % 2
  }

  datatype BitOp = OrOp | AndOp | XorOp

  /** One bit of `|`, `&` or `^`. */
  function CombineBits(op: BitOp, x: nat, y: nat): nat
  {
    match op
    case OrOp => if x == 1 || y == 1 then 1 else 0
    case AndOp => if x == 1 && y == 1 then 1 else 0
    case XorOp => if x != y then 1 else 0
  }

  /** The n-bit bitwise operator: bits 0 .. n-1 of a and b combined, least
      significant bit first. */
  function Bitwise(op: BitOp, a: nat, b: nat, n: nat): (r: nat)
    ensures r < Pow2(n)
  {
    if n == 0 then 0
    else 2 * Bitwise(op, a / 2, b / 2, n - 1) + CombineBits(op, a % 2, b % 2)
  }

  /** `a << s` on an n-bit unsigned integer: the bits moved past bit n - 1 are lost. */
  function ShiftLeft(a: nat, s: nat, n: nat): (r: nat)
    ensures r < Pow2(n)
  {
    (a * Pow2(s)) % Pow2(n)
  }

  /** `a >> s` on an unsigned integer. */
  function ShiftRight(a: nat, s: nat): (r: nat)
    ensures r <= a
  {
    var d := Pow2(s);
    DivAtMost(a, d);
    a / d
  }

  /** Dividing by a positive divisor never increases a natural number. */
  lemma DivAtMost(a: nat, d: nat)
    requires d >= 1
    ensures 0 <= a / d <= a
  {
    var q, r := a / d, a % d;
    assert a == d * q + r;
    assert d * q == q + (d - 1) * q;
  }

  lemma DivUnique(x: int, d: int, q: int, r: int)
    requires d > 0 && 0 <= r < d && x == d * q + r
    ensures x / d == q && x % d == r
  {
    var q', r' := x / d, x % d;
    assert d * q' + r' == d * q + r;
    if q' > q {
      MulStep(d, q, q');
      assert false;
    } else if q' < q {
      MulStep(d, q', q);
      assert false;
    }
  }

  lemma {:induction false} MulStep(d: int, a: int, b: int)
    requires d > 0 && a < b
    ensures d * a + d <= d * b
    decreases b - a
  {
    assert d * b == d * (b - 1) + d;
    if a < b - 1 {
      MulStep(d, a, b - 1);
    }
  }

  /** Dividing by a product is dividing by each factor in turn. */
  lemma DivDiv(x: nat, a: nat, b: nat)
    requires a > 0 && b > 0
    ensures x / (a * b) == (x / a) / b
  {
    var y := x / a;
    var q, r1, r2 := y / b, x % a, y % b;
    assert x == a * y + r1;
    assert y == b * q + r2;
    assert a * y == (a * b) * q + a * r2;
    MulStep(a, r2, b);
    DivUnique(x, a * b, q, a * r2 + r1);
  }

  lemma DivHalf(x: nat, p: nat)
    requires p > 0
    ensures x / (2 * p) == (x / 2) / p
  {
    var h := x / 2;
    var q, r := h / p, h % p;
    assert x == 2 * p * q + (2 * r + x % 2);
    DivUnique(x, 2 * p, q, 2 * r + x % 2);
  }

  /** Bit 0 is the parity. */
  lemma BitZero(x: nat)
    ensures Bit(x, 0) == x % 2
  {
  }

  /** Bit i of x is bit i - 1 of x / 2. */
  lemma BitShift(x: nat, i: nat)
    requires i > 0
    ensures Bit(x, i) == Bit(x / 2, i - 1)
  {
    DivHalf(x, Pow2(i - 1));
  }

  /** Bit i of the bitwise result combines bit i of each operand: Bitwise
      agrees with the bit-by-bit definition of Rust's `|`, `&` and `^`. */
  lemma {:induction false} BitwiseBit(op: BitOp, a: nat, b: nat, n: nat, i: nat)
    requires i < n
    ensures Bit(Bitwise(op, a, b, n), i) == CombineBits(op, Bit(a, i), Bit(b, i))
  {
    hide Bit;
    var v := Bitwise(op, a, b, n);
    var rest := Bitwise(op, a / 2, b / 2, n - 1);
    var low := CombineBits(op, a % 2, b % 2);
    assert v == 2 * rest + low && v / 2 == rest && v % 2 == low;
    if i == 0 {
      BitZero(v);
      BitZero(a);
      BitZero(b);
    } else {
      BitwiseBit(op, a / 2, b / 2, n - 1, i - 1);
      BitShift(v, i);
      BitShift(a, i);
      BitShift(b, i);
    }
  }

  lemma {:induction false} OrZero(a: nat, n: nat)
    requires a < Pow2(n)
    ensures Bitwise(OrOp, a, 0, n) == a
  {
    if n > 0 {
      OrZero(a / 2, n - 1);
    }
  }

  /** One more bit doubles the power. */
  lemma Pow2Succ(k: nat)
    ensures Pow2(0) == 1 && Pow2(k + 1) == 2 * Pow2(k)
  {
  }

  /** One step of the bitwise operator: the low bit, then the rest. */
  lemma BitwiseStep(op: BitOp, a: nat, b: nat, n: nat)
    requires n > 0
    ensures Bitwise(op, a, b, n) == 2 * Bitwise(op, a / 2, b / 2, n - 1) + CombineBits(op, a % 2, b % 2)
  {
  }

  /** OR of a value whose low s bits are zero with a value below 2^s is their sum. */
  lemma {:induction false} OrDisjoint(hi: nat, lo: nat, s: nat, n: nat)
    requires lo < Pow2(s)
    requires hi * Pow2(s) + lo < Pow2(n)
    ensures Bitwise(OrOp, hi * Pow2(s), lo, n) == hi * Pow2(s) + lo
  {
    hide Pow2, Bitwise;
    Pow2Succ(0);
    if n == 0 {
    } else if s == 0 {
      OrZero(hi, n);
    } else {
      var p := Pow2(s - 1);
      Pow2Succ(s - 1);
      Pow2Succ(n - 1);
      var x := hi * Pow2(s);
      assert x == 2 * (hi * p);
      assert x / 2 == hi * p && x % 2 == 0;
      assert lo / 2 < p;
      assert hi * p + lo / 2 < Pow2(n - 1);
      OrDisjoint(hi, lo / 2, s - 1, n - 1);
      BitwiseStep(OrOp, x, lo, n);
    }
  }

  /** A left shift that loses no bits is undone by the right shift. */
  lemma ShiftRoundTrip(a: nat, s: nat, n: nat)
    requires a * Pow2(s) < Pow2(n)
    ensures ShiftLeft(a, s, n) == a * Pow2(s)
    ensures ShiftRight(ShiftLeft(a, s, n), s) == a
  {
    var p := Pow2(s);
    var x := a * p;
    DivUnique(x, Pow2(n), 0, x);
    DivUnique(x, p, a, 0);
  }
}
