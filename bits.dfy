/** Bit and byte helpers, and the optional value, shared by the two-wire
    bus engine, the sensor decoder and the radio driver. C's `uint8_t` is `byte`; one sampled or
    driven line level is `bit`. */
module Bits {

  type bit = x: int | 0 <= x < 2
  type byte = x: int | 0 <= x < 256

  /** A value that may be absent. */
  datatype Option<T> = None | Some(value: T)

  function Pow2(n: nat): (p: nat)
    ensures p >= 1
  {
    if n == 0 then 1 else 2 * Pow2(n - 1)
  }

  /** `v >> i` on an unsigned value: `i` successive halvings. */
  function Shr(v: nat, i: nat): nat
  {
    if i == 0 then v else Shr(v / 2, i - 1)
  }

  /** Bit `i` of `v`, as `(v >> i) & 0x1` computes it. */
  function BitOf(v: nat, i: nat): bit
  {
    Shr(v, i) % 2
  }

  /** Shifting by one more place halves the shifted value. */
  lemma {:induction false} ShrStep(v: nat, i: nat)
    ensures Shr(v, i + 1) == Shr(v, i) / 2
  {
    if i > 0 {
      ShrStep(v / 2, i - 1);
    }
  }

  /** The `n` low bits of `v`, most significant first. */
  function LowBits(v: nat, n: nat): (s: seq<bit>)
    ensures |s| == n
  {
    if n == 0 then [] else LowBits(v / 2, n - 1) + [v % 2]
  }

  /** The eight bits of a byte, most significant first (the order in
      which the bus engine clocks them). */
  function MsbBits(v: byte): (s: seq<bit>)
    ensures |s| == 8
  {
    LowBits(v, 8)
  }

  /** The number whose binary digits, most significant first, are `s`:
      what `v |= (b << i)` accumulates over bits sampled MSB first. */
  function FromMsb(s: seq<bit>): nat
  {
    if s == [] then 0 else 2 * FromMsb(s[..|s| - 1]) + s[|s| - 1]
  }

  /** Position `k` of the MSB-first list holds bit `n - 1 - k`. */
  lemma {:induction false} LowBitsAt(v: nat, n: nat, k: nat)
    requires k < n
    ensures LowBits(v, n)[k] == BitOf(v, n - 1 - k)
  {
    if k < n - 1 {
      LowBitsAt(v / 2, n - 1, k);
      assert Shr(v, n - 1 - k) == Shr(v / 2, n - 2 - k);
    }
  }

  /** Clocking out the low `n` bits of `v` MSB first and reassembling them
      gives `v` back. */
  lemma {:induction false} FromMsbOfLowBits(v: nat, n: nat)
    requires v < Pow2(n)
    ensures FromMsb(LowBits(v, n)) == v
  {
    if n > 0 {
      FromMsbOfLowBits(v / 2, n - 1);
      assert LowBits(v, n)[..n - 1] == LowBits(v / 2, n - 1);
    }
  }

  lemma FromMsbOfBits(v: byte)
    ensures FromMsb(MsbBits(v)) == v
  {
    FromMsbOfLowBits(v, 8);
  }

  /** `x << n` on an unbounded value: `n` successive doublings. */
  function Shl(x: nat, n: nat): nat
    decreases n
  {
    if n == 0 then x else Shl(2 * x, n - 1)
  }

  /** A bit or-ed in at place `i` below a value already shifted one place
      further: the two do not overlap, so the or is a sum. */
  lemma {:induction false} ShlStep(x: nat, b: nat, i: nat)
    ensures Shl(x, i + 1) + Shl(b, i) == Shl(2 * x + b, i)
    decreases i
  {
    if i > 0 {
      ShlStep(2 * x, 2 * b, i - 1);
    }
  }
}
