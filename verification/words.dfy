/** Fixed-width words of the C program, as bounded integers, and the
    bit-level facts the routing trie relies on: the bit the trie follows at
    each level, the contiguous masks it accumulates, and prefix bit paths. */
module Words {

  /** uint8_t, uint16_t and uint32_t values. */
  type Byte = x: int | 0 <= x < 0x100
  type U16 = x: int | 0 <= x < 0x1_0000
  type Word32 = x: int | 0 <= x < 0x1_0000_0000

  /** The value `1 << 31` of a uint32_t. */
  const TopBit: Word32 := 0x8000_0000

  function Pow2(n: nat): (r: nat)
    ensures r >= 1
  {
    if n == 0 then 1 else 2 * Pow2(n - 1)
  }

  /** Eight more doublings multiply by 256. */
  lemma {:induction false} Pow2Plus8(n: nat)
    ensures Pow2(n + 8) == 0x100 * Pow2(n)
  {
    if n == 0 {
      assert Pow2(8) == 0x100;
    } else {
      Pow2Plus8(n - 1);
      assert Pow2(n + 8) == 2 * Pow2(n - 1 + 8);
    }
  }

  lemma Pow2Of31()
    ensures Pow2(31) == TopBit
  {
    assert Pow2(7) == 0x80;
    Pow2Plus8(7);
    Pow2Plus8(15);
    Pow2Plus8(23);
  }

  /** A positive multiple of a positive number is at least that number. */
  lemma {:induction false} MulAtLeast(d: int, k: nat)
    requires d > 0 && k >= 1
    ensures d * k >= d
  {
    if k > 1 {
      MulAtLeast(d, k - 1);
      assert d * k == d * (k - 1) + d;
    }
  }

  /** Division has one quotient: `q` when the remainder lies in [0, d). */
  lemma DivUnique(x: int, d: int, q: int, r: int)
    requires d > 0 && 0 <= r < d && x == d * q + r
    ensures x / d == q
  {
    var k := x / d - q;
    assert d * k == r - x % d;
    if k >= 1 {
      MulAtLeast(d, k);
    } else if k <= -1 {
      MulAtLeast(d, -k);
    }
  }

  /** Halving, then dividing by `p`, is dividing by `2 * p`. */
  lemma DivHalf(x: nat, p: nat)
    requires p >= 1
    ensures (x / 2) / p == x / (2 * p)
  {
    var q, r := (x / 2) / p, (x / 2) % p;
    assert x == (2 * p) * q + (2 * r + x % 2);
    DivUnique(x, 2 * p, q, 2 * r + x % 2);
  }

  /** Bit `pos` of `x` (bit 0 is the least significant): the value the C code
      computes as `(x & (1 << pos)) >> pos`, with 1 read as true. */
  function Bit(x: nat, pos: nat): bool
  {
    if pos == 0 then x % 2 == 1 else Bit(x / 2, pos - 1)
  }

  /** Bit `pos` is the lowest bit of `x` shifted right by `pos`. */
  lemma {:induction false} BitIsShift(x: nat, pos: nat)
    ensures Bit(x, pos) <==> (x / Pow2(pos)) % 2 == 1
  {
    if pos > 0 {
      BitIsShift(x / 2, pos - 1);
      DivHalf(x, Pow2(pos - 1));
    }
  }

  /** Adding a power of two above all bits of `y` sets exactly that bit. */
  lemma {:induction false} BitAddHigh(y: nat, q: nat, pos: nat)
    requires y < Pow2(q)
    ensures Bit(y + Pow2(q), pos) == (pos == q || Bit(y, pos))
  {
    if q == 0 {
      assert y == 0;
      BitOfZero(pos);
      if pos > 0 {
        assert (y + Pow2(q)) / 2 == 0;
        BitOfZero(pos - 1);
      }
    } else if pos > 0 {
      assert (y + Pow2(q)) / 2 == y / 2 + Pow2(q - 1);
      BitAddHigh(y / 2, q - 1, pos - 1);
    }
  }

  lemma {:induction false} BitOfZero(pos: nat)
    ensures !Bit(0, pos)
  {
    if pos > 0 { BitOfZero(pos - 1); }
  }

  /** One step of the mask loop, `mask = (mask >> 1) | (1 << 31)`: the
      shifted value is below 1 << 31, so the OR is an addition. */
  function NextMask(m: Word32): Word32
  {
    m / 2 + TopBit
  }

  /** A mask step sets the top bit and moves every other bit down by one. */
  lemma NextMaskBits(m: Word32)
    ensures Bit(NextMask(m), 31)
    ensures forall pos | 0 <= pos < 31 :: Bit(NextMask(m), pos) == Bit(m, pos + 1)
  {
    Pow2Of31();
    BitAddHigh(m / 2, 31, 31);
    forall pos | 0 <= pos < 31 ensures Bit(NextMask(m), pos) == Bit(m, pos + 1) {
      BitAddHigh(m / 2, 31, pos);
    }
  }

  /** The mask after `k` steps of the mask loop from 0. */
  function Mask(k: nat): Word32
    requires k <= 32
  {
    if k == 0 then 0 else NextMask(Mask(k - 1))
  }

  /** The mask after `k` steps has exactly its top `k` bits set. */
  lemma {:induction false} MaskBit(k: nat, pos: nat)
    requires k <= 32 && pos < 32
    ensures Bit(Mask(k), pos) <==> pos >= 32 - k
  {
    if k == 0 {
      BitOfZero(pos);
    } else {
      NextMaskBits(Mask(k - 1));
      if pos < 31 {
        MaskBit(k - 1, pos + 1);
      }
    }
  }

  /** A mask with more steps has a bit set that one with fewer lacks. */
  lemma MaskDiffers(lo: nat, hi: nat)
    requires lo < hi <= 32
    ensures Mask(lo) != Mask(hi)
  {
    MaskBit(lo, 32 - hi);
    MaskBit(hi, 32 - hi);
  }

  /** Distinct step counts give distinct masks, for up to 32 steps. */
  lemma MaskInjective(i: nat, j: nat)
    requires i <= 32 && j <= 32 && Mask(i) == Mask(j)
    ensures i == j
  {
    if i < j {
      MaskDiffers(i, j);
    } else if j < i {
      MaskDiffers(j, i);
    }
  }

  /** Number of consecutive 1-bits of `m` from bit `31 - d` downwards. */
  function OnesFrom(m: Word32, d: nat): (n: nat)
    requires d <= 32
    ensures n <= 32 - d
    decreases 32 - d
  {
    if d == 32 || !Bit(m, 31 - d) then 0 else 1 + OnesFrom(m, d + 1)
  }

  /** The number of leading 1-bits of a mask: the prefix length. */
  function PrefixLength(m: Word32): (n: nat)
    ensures n <= 32
  {
    OnesFrom(m, 0)
  }

  /** A mask with no gap: `k` leading 1-bits followed by 0-bits. */
  predicate IsContiguous(m: Word32)
  {
    m == Mask(PrefixLength(m))
  }

  lemma {:induction false} OnesFromMask(k: nat, d: nat)
    requires d <= k <= 32
    ensures OnesFrom(Mask(k), d) == k - d
    decreases k - d
  {
    if d < k {
      MaskBit(k, 31 - d);
      OnesFromMask(k, d + 1);
    } else if d < 32 {
      MaskBit(k, 31 - d);
    }
  }

  /** The masks the insertion loop can reach are exactly the contiguous ones,
      and each has its step count as prefix length. */
  lemma MaskIsContiguous(k: nat)
    requires k <= 32
    ensures PrefixLength(Mask(k)) == k && IsContiguous(Mask(k))
  {
    OnesFromMask(k, 0);
  }

  /** The top `k` bits of `x`, most significant first: the path the trie
      follows for `x` down to depth `k`. */
  function TopBits(x: Word32, k: nat): (s: seq<bool>)
    requires k <= 32
    ensures |s| == k
  {
    seq(k, i requires 0 <= i < k => Bit(x, 31 - i))
  }

  lemma TopBitsPrefix(x: Word32, j: nat, k: nat)
    requires j <= k <= 32
    ensures TopBits(x, k)[..j] == TopBits(x, j)
  {
  }

  lemma TopBitsStep(x: Word32, k: nat)
    requires k < 32
    ensures TopBits(x, k + 1) == TopBits(x, k) + [Bit(x, 31 - k)]
  {
  }
}
