/** Slot arithmetic of the Robin Hood map: the capacity of a table with
    capacity exponent `size`, the home slot of a hash and the cyclic probe
    distance between a home slot and a position (hash.h lines 8-10). */
module Slots {

  /** The C type int64_t. Hashes are stored in the buckets as int64. */
  type Int64 = x: int | -0x8000_0000_0000_0000 <= x < 0x8000_0000_0000_0000

  /** 2^64: the modulus of size_t arithmetic. */
  const SizeMod: nat := 0x1_0000_0000_0000_0000

  /** The C type size_t. */
  type SizeT = x: int | 0 <= x < SizeMod

  /** `++n` on a size_t: wraps from 2^64 - 1 to 0. */
  function SizeInc(n: SizeT): (r: SizeT)
    ensures (n + 1 - r) % SizeMod == 0
  {
    if n + 1 == SizeMod then 0 else n + 1
  }

  /** `--n` on a size_t: wraps from 0 to 2^64 - 1. */
  function SizeDec(n: SizeT): (r: SizeT)
    ensures (r + 1 - n) % SizeMod == 0
  {
    if n == 0 then SizeMod - 1 else n - 1
  }

  /** An unsigned C result reduced to size_t. */
  function Wrap(x: int): (r: SizeT)
  {
    x % SizeMod
  }

  /** Reducing to size_t first does not change a remainder modulo a power of
      two that fits in 64 bits: C's `(a - b) % n` on size_t agrees with the
      Euclidean remainder when n is such a power. */
  lemma WrapModPow2(x: int, log: nat)
    requires log <= 64
    ensures Wrap(x) % Pow2(log) == x % Pow2(log)
  {
    var c := Pow2(log);
    assert Pow2(64) == SizeMod by { Pow2Of64(); }
    var k := Pow2(64 - log);
    Pow2Add(log, 64 - log);
    assert SizeMod == c * k;
    ModOfMultiple(x, k, c);
  }

  function Pow2(n: nat): (r: nat)
    ensures r >= 1
  {
    if n == 0 then 1 else 2 * Pow2(n - 1)
  }

  lemma {:induction false} Pow2Monotone(m: nat, n: nat)
    requires m <= n
    ensures Pow2(m) <= Pow2(n)
    ensures m < n ==> 2 * Pow2(m) <= Pow2(n)
  {
    if m < n {
      Pow2Monotone(m, n - 1);
    }
  }

  /** RH_HASH_SIZE: a table with capacity exponent `size` has 2^size slots. */
  function Capacity(size: nat): (r: nat)
    ensures r >= 1
  {
    Pow2(size)
  }

  /** RH_HASH_SLOT: `hash & ~(~0 << size)` keeps the low `size` bits of the
      two's complement representation of the hash, which is the remainder of
      the hash modulo 2^size, taken non-negative also for a negative hash
      (Dafny's % is Euclidean). */
  function HashSlot(hash: int, size: nat): (r: nat)
    ensures r < Capacity(size)
  {
    hash % Capacity(size)
  }

  /** The mask of RH_HASH_SLOT on the bit-vector representation: the
      remainder of an int64 hash modulo 2^size is its low `size` bits. */
  lemma {:induction false} HashSlotIsLowBits(hash: Int64, size: nat)
    requires size < 64
    ensures HashSlot(hash, size) == (hash % SizeMod) % Capacity(size)
  {
    var c := Capacity(size);
    assert Pow2(64) == SizeMod by { Pow2Of64(); }
    var k := Pow2(64 - size);
    Pow2Add(size, 64 - size);
    assert SizeMod == c * k;
    ModOfMultiple(hash, k, c);
  }

  lemma Pow2Of64()
    ensures Pow2(64) == SizeMod
  {
    assert Pow2(2) == 4;
    Pow2Add(2, 2);
    assert Pow2(4) == 16;
    Pow2Add(4, 4);
    assert Pow2(8) == 0x100;
    Pow2Add(8, 8);
    assert Pow2(16) == 0x1_0000;
    Pow2Add(16, 16);
    assert Pow2(32) == 0x1_0000_0000;
    Pow2Add(32, 32);
  }

  /** A table of any representable capacity exponent has fewer than 2^64
      slots, so a count of its slots never wraps a size_t. */
  lemma CapacityBelowSizeMod(size: nat)
    requires size < 64
    ensures Capacity(size) < SizeMod
  {
    Pow2Monotone(size, 64);
    Pow2Of64();
  }

  lemma {:induction false} Pow2Add(m: nat, n: nat)
    ensures Pow2(m + n) == Pow2(m) * Pow2(n)
  {
    if n > 0 {
      Pow2Add(m, n - 1);
      assert Pow2(m + n) == 2 * Pow2(m + n - 1);
      assert Pow2(n) == 2 * Pow2(n - 1);
    }
  }

  /** Euclidean division is unique: a quotient and a remainder in [0, c) that
      rebuild x are x / c and x % c. */
  lemma DivModUnique(x: int, q: int, r: int, c: int)
    requires c > 0 && 0 <= r < c && x == q * c + r
    ensures x / c == q && x % c == r
  {
    var q0, r0 := x / c, x % c;
    assert x == q0 * c + r0;
    assert (q - q0) * c == r0 - r;
    if q > q0 {
      MulAtLeast(q - q0, c);
    } else if q < q0 {
      MulAtLeast(q0 - q, c);
    }
  }

  lemma MulAtLeast(k: int, c: int)
    requires k >= 1 && c > 0
    ensures k * c >= c
  {
    assert k * c == c + (k - 1) * c;
  }

  /** Reducing modulo a multiple of c first does not change the remainder
      modulo c. */
  lemma ModOfMultiple(x: int, k: nat, c: nat)
    requires k > 0 && c > 0
    ensures (x % (k * c)) % c == x % c
  {
    var m := k * c;
    var q, y := x / m, x % m;
    assert x == q * m + y;
    var q1, r1 := y / c, y % c;
    assert y == q1 * c + r1;
    assert x == (q * k + q1) * c + r1;
    DivModUnique(x, q * k + q1, r1, c);
  }

  /** Adding a multiple of c does not change the remainder modulo c. */
  lemma ModShift(x: int, t: int, c: nat)
    requires c > 0
    ensures (x + t * c) % c == x % c
  {
    var q, r := x / c, x % c;
    assert x == q * c + r;
    assert x + t * c == (q + t) * c + r;
    DivModUnique(x + t * c, q + t, r, c);
  }

  /** RH_SLOT_DIST: how many steps forward, wrapping at the end of the table,
      it takes to get from `slot` to `pos`. */
  function SlotDist(slot: nat, pos: nat, size: nat): (r: nat)
    requires slot < Capacity(size) && pos < Capacity(size)
    ensures r < Capacity(size)
    ensures r == 0 <==> slot == pos
  {
    if slot > pos then pos + Capacity(size) - slot else pos - slot
  }

  /** Going SlotDist(slot, pos) steps forward from slot, modulo the capacity,
      arrives at pos. */
  lemma SlotDistWraps(slot: nat, pos: nat, size: nat)
    requires slot < Capacity(size) && pos < Capacity(size)
    ensures (slot + SlotDist(slot, pos, size)) % Capacity(size) == pos
  {
    var c := Capacity(size);
    if slot > pos {
      DivModUnique(pos + c, 1, pos, c);
    } else {
      DivModUnique(pos, 0, pos, c);
    }
  }

  /** The next position of a scan, wrapping from the last slot to 0. */
  function Next(i: nat, size: nat): (r: nat)
    requires i < Capacity(size)
    ensures r < Capacity(size)
  {
    if i + 1 == Capacity(size) then 0 else i + 1
  }

  /** Next is the source's step `(i + 1) & ~(~0 << size)`, which is the mask
      of RH_HASH_SLOT applied to i + 1. */
  lemma NextIsMaskedIncrement(i: nat, size: nat)
    requires i < Capacity(size)
    ensures Next(i, size) == HashSlot(i + 1, size)
  {
    var c := Capacity(size);
    if i + 1 == c {
      DivModUnique(i + 1, 1, 0, c);
    } else {
      DivModUnique(i + 1, 0, i + 1, c);
    }
  }

  /** The position just before `i`, wrapping from 0 to the last slot. */
  function Prev(i: nat, size: nat): (r: nat)
    requires i < Capacity(size)
    ensures r < Capacity(size)
    ensures Next(r, size) == i
  {
    if i == 0 then Capacity(size) - 1 else i - 1
  }

  lemma PrevOfNext(i: nat, size: nat)
    requires i < Capacity(size)
    ensures Prev(Next(i, size), size) == i
  {
  }

  /** The position `d` steps on from `h`. */
  function Ahead(h: nat, d: nat, size: nat): (r: nat)
    requires h < Capacity(size)
    ensures r < Capacity(size)
  {
    if d == 0 then h else Next(Ahead(h, d - 1, size), size)
  }

  lemma NextAhead(h: nat, d: nat, size: nat)
    requires h < Capacity(size)
    ensures Next(Ahead(h, d, size), size) == Ahead(h, d + 1, size)
  {
  }

  /** One step forward adds one to the distance, unless it comes back home. */
  lemma SlotDistNext(h: nat, i: nat, size: nat)
    requires h < Capacity(size) && i < Capacity(size)
    requires Next(i, size) != h
    ensures SlotDist(h, Next(i, size), size) == SlotDist(h, i, size) + 1
  {
  }

  /** Only the slot just before home is at the largest distance. */
  lemma SlotDistLast(h: nat, i: nat, size: nat)
    requires h < Capacity(size) && i < Capacity(size)
    ensures Next(i, size) == h <==> SlotDist(h, i, size) == Capacity(size) - 1
  {
  }

  /** One step back subtracts one from a positive distance. */
  lemma SlotDistPrev(h: nat, i: nat, size: nat)
    requires h < Capacity(size) && i < Capacity(size)
    requires i != h
    ensures SlotDist(h, Prev(i, size), size) == SlotDist(h, i, size) - 1
  {
  }

  /** Walking forward from `i` brings a target `e` one step closer. */
  lemma SlotDistFromNext(i: nat, e: nat, size: nat)
    requires i < Capacity(size) && e < Capacity(size)
    requires i != e
    ensures SlotDist(Next(i, size), e, size) == SlotDist(i, e, size) - 1
  {
  }

  /** Walking d steps from h, with d below the capacity, arrives at a
      position whose distance from h is exactly d. */
  lemma {:induction false} SlotDistAhead(h: nat, d: nat, size: nat)
    requires h < Capacity(size) && d < Capacity(size)
    ensures SlotDist(h, Ahead(h, d, size), size) == d
  {
    if d > 0 {
      var a := Ahead(h, d - 1, size);
      SlotDistAhead(h, d - 1, size);
      SlotDistLast(h, a, size);
      SlotDistNext(h, a, size);
    }
  }

  /** Walking SlotDist(h, pos) steps from h arrives at pos. */
  lemma {:induction false} AheadSlotDist(h: nat, pos: nat, size: nat)
    requires h < Capacity(size) && pos < Capacity(size)
    ensures Ahead(h, SlotDist(h, pos, size), size) == pos
    decreases SlotDist(h, pos, size)
  {
    if pos != h {
      SlotDistPrev(h, pos, size);
      AheadSlotDist(h, Prev(pos, size), size);
    }
  }
}
