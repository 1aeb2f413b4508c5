/** Fixed-width integers of the sniffer protocol, an optional value, and the
    bit-level helpers the decoders share. Integer types are unbounded in Dafny,
    so every width the protocol uses is a subset type whose range the verifier
    checks on each assignment. */
module Prelude {

  datatype Option<T> = None | Some(value: T)

  /** An unsigned 8-bit value (Rust `u8`). */
  type byte = x: int | 0 <= x < 0x100

  /** An unsigned 16-bit value (Rust `u16`). */
  type u16 = x: int | 0 <= x < 0x1_0000

  /** An unsigned 32-bit value (Rust `u32`). */
  type u32 = x: int | 0 <= x < 0x1_0000_0000

  /** A signed 16-bit value (Rust `i16`). */
  type i16 = x: int | -0x8000 <= x < 0x8000

  /** The byte at position `i` of `s`, or 0 if `s` is shorter: a field the
      frame does not reach keeps the zero it was initialised with. */
  function At(s: seq<byte>, i: nat): byte
    decreases |s|
  {
    if |s| == 0 then 0 else if i == 0 then s[0] else At(s[1..], i - 1)
  }

  lemma {:induction false} AtIndex(s: seq<byte>, i: nat)
    ensures At(s, i) == if i < |s| then s[i] else 0
    decreases |s|
  {
    if |s| > 0 && i > 0 {
      AtIndex(s[1..], i - 1);
    }
  }

  /** Every position at once. */
  lemma AtAll(s: seq<byte>)
    ensures forall i: nat :: At(s, i) == if i < |s| then s[i] else 0
  {
    forall i: nat
      ensures At(s, i) == if i < |s| then s[i] else 0
    {
      AtIndex(s, i);
    }
  }

  /** Two bytes, least significant first. */
  function LittleEndian16(lo: byte, hi: byte): u16
  {
    lo + 0x100 * hi
  }

  /** Two 16-bit halves, least significant first: with each half itself
      `LittleEndian16` of two bytes, four bytes least significant first. */
  function LittleEndian32(lo: u16, hi: u16): u32
  {
    lo + 0x1_0000 * hi
  }

  /** `a / d`, by repeated subtraction. */
  function Quotient(a: nat, d: nat): (q: nat)
    requires d > 0
    ensures q <= a
    decreases a
  {
    if a < d then 0 else 1 + Quotient(a - d, d)
  }

  /** `a % d`, by repeated subtraction. */
  function Remainder(a: nat, d: nat): (r: nat)
    requires d > 0
    ensures r < d && r <= a
    decreases a
  {
    if a < d then a else Remainder(a - d, d)
  }

  /** Bits `shift` to `shift + width - 1` of `b`: Rust's `(b >> shift) & mask`
      with a mask of `width` one bits. */
  function Bits(b: byte, shift: nat, width: nat): (r: byte)
    requires 1 <= width && shift + width <= 8
    ensures r < Pow2(width)
  {
    Remainder(Quotient(b, Pow2(shift)), Pow2(width))
  }

  /** Bit `k` of `b` is set. */
  predicate Bit(b: byte, k: nat)
    requires k < 8
  {
    Bits(b, k, 1) == 1
  }

  function Pow2(k: nat): (p: nat)
    ensures p >= 1
  {
    if k == 0 then 1 else 2 * Pow2(k - 1)
  }

  /** `a / 2`: the bits of `a` shifted one place down. */
  function Half(a: nat): (h: nat)
    ensures 2 * h <= a <= 2 * h + 1
  {
    a / 2
  }

  /** Bitwise OR of two naturals, computed bit by bit from the least
      significant end. Rust's `x |= y` on unsigned integers is `x := BitOr(x, y)`. */
  function BitOr(a: nat, b: nat): nat
    decreases a + b
  {
    if a == 0 then b
    else if b == 0 then a
    else 2 * BitOr(Half(a), Half(b)) + (if a - 2 * Half(a) == 1 || b - 2 * Half(b) == 1 then 1 else 0)
  }

  /** OR-ing a value shifted left by `k` bits into an accumulator whose bits
      from `k` upward are still zero is plain addition: this is why the
      `counter |= (b as u16) << 8` idiom assembles a little-endian number. */
  lemma {:induction false} BitOrDisjoint(a: nat, b: nat, k: nat)
    requires a < Pow2(k)
    ensures BitOr(a, b * Pow2(k)) == a + b * Pow2(k)
  {
    if a == 0 || b == 0 {
    } else {
      assert k >= 1;
      var h := b * Pow2(k - 1);
      assert b * Pow2(k) == 2 * h;
      assert Half(2 * h) == h;
      assert Half(a) < Pow2(k - 1);
      BitOrDisjoint(Half(a), b, k - 1);
    }
  }

  /** OR-ing two `k`-bit values gives a `k`-bit value. */
  lemma {:induction false} BitOrBounded(a: nat, b: nat, k: nat)
    requires a < Pow2(k) && b < Pow2(k)
    ensures BitOr(a, b) < Pow2(k)
  {
    if a != 0 && b != 0 {
      assert k >= 1;
      BitOrBounded(Half(a), Half(b), k - 1);
    }
  }

  lemma {:induction false} Pow2Add(j: nat, k: nat)
    ensures Pow2(j + k) == Pow2(j) * Pow2(k)
  {
    if k > 0 {
      Pow2Add(j, k - 1);
      assert Pow2(j + k) == 2 * Pow2(j + k - 1);
    }
  }

  /** The powers of two that the fixed widths use. */
  lemma Pow2Widths()
    ensures Pow2(8) == 0x100 && Pow2(16) == 0x1_0000 && Pow2(24) == 0x100_0000 && Pow2(32) == 0x1_0000_0000
  {
    assert Pow2(8) == 0x100;
    Pow2Add(8, 8);
    Pow2Add(16, 8);
    Pow2Add(16, 16);
  }

  /** Rust's `|` on `u16`. */
  function Or16(a: u16, b: u16): u16
  {
    Pow2Widths();
    BitOrBounded(a, b, 16);
    BitOr(a, b)
  }

  /** Rust's `|` on `u32`. */
  function Or32(a: u32, b: u32): u32
  {
    Pow2Widths();
    BitOrBounded(a, b, 32);
    BitOr(a, b)
  }

  /** `acc | (b << 8)` where `acc` fits in 8 bits. */
  lemma OrAt8(acc: nat, b: nat)
    requires acc < 0x100
    ensures BitOr(acc, b * 0x100) == acc + b * 0x100
  {
    Pow2Widths();
    BitOrDisjoint(acc, b, 8);
  }

  /** `acc | (b << 16)` where `acc` fits in 16 bits. */
  lemma OrAt16(acc: nat, b: nat)
    requires acc < 0x1_0000
    ensures BitOr(acc, b * 0x1_0000) == acc + b * 0x1_0000
  {
    Pow2Widths();
    BitOrDisjoint(acc, b, 16);
  }

  /** `acc | (b << 24)` where `acc` fits in 24 bits. */
  lemma OrAt24(acc: nat, b: nat)
    requires acc < 0x100_0000
    ensures BitOr(acc, b * 0x100_0000) == acc + b * 0x100_0000
  {
    Pow2Widths();
    BitOrDisjoint(acc, b, 24);
  }
}
