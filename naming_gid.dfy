/**
 * The global identifier (GID) of the naming layer: a 128-bit value made of
 * two 64-bit words.  The most significant word carries, from the top down,
 * the locality prefix (bits 32-63, stored with a +1 offset), the was-split
 * flag (bit 31), a 15-bit credit count (bits 16-30) and 16 further bits
 * (bits 0-15).  The least significant word is the object's local identity.
 *
 * Unsigned 64-bit words are modelled as integers in [0, 2^64); wrap-around
 * is written out with `%`.  A mask operation on the high word is modelled
 * by taking the word apart into its four bit fields and putting it back
 * together (Pack), which is what `&`, `|` and `<<` with the fixed masks of
 * the source compute.
 */
module NamingGid {

  const TwoTo16: int := 0x1_0000
  const TwoTo31: int := 0x8000_0000
  const TwoTo32: int := 0x1_0000_0000
  const TwoTo64: int := 0x1_0000_0000_0000_0000
  const TwoTo128: int := 0x1_0000_0000_0000_0000_0000_0000_0000_0000

  /** credit_base_mask + 1: credits are 15 bits wide. */
  const CreditLimit: int := 0x8000

  type Word = x: int | 0 <= x < TwoTo64
  type Word32 = x: int | 0 <= x < TwoTo32
  type Word16 = x: int | 0 <= x < TwoTo16

  /** gid_type: the two words id_msb_ and id_lsb_. */
  datatype Gid = Gid(msb: Word, lsb: Word)

  /** The all-zero GID, invalid_gid. */
  const InvalidGid: Gid := Gid(0, 0)

  /** The 128-bit unsigned integer the two words stand for. */
  function Value(g: Gid): int {
    g.msb * TwoTo64 + g.lsb
  }

  // ---------------------------------------------------------------------
  // Bit fields of the high word

  /** Bits 0-15 of the high word. */
  function Low16(m: Word): int { m % TwoTo16 }

  /** Bits 16-30 of the high word: `(m & credit_mask) >> 16`. */
  function CreditBits(m: Word): int { (m / TwoTo16) % CreditLimit }

  /** Bit 31 of the high word: `m & was_split_mask`, shifted down. */
  function SplitBit(m: Word): int { (m / TwoTo31) % 2 }

  /** Bits 32-63 of the high word: `m >> 32`. */
  function High32(m: Word): int { m / TwoTo32 }

  /** Reassembles a high word from its four fields. */
  function Pack(high: int, split: int, credit: int, low: int): (m: Word)
    requires 0 <= high < TwoTo32 && 0 <= split < 2
    requires 0 <= credit < CreditLimit && 0 <= low < TwoTo16
    ensures High32(m) == high && SplitBit(m) == split
    ensures CreditBits(m) == credit && Low16(m) == low
  {
    var m := high * TwoTo32 + split * TwoTo31 + credit * TwoTo16 + low;
    assert m / TwoTo16 == high * TwoTo16 + split * CreditLimit + credit;
    assert m / TwoTo31 == high * 2 + split;
    m
  }

  /** Every high word is the packing of its own fields. */
  lemma {:induction false} PackFields(m: Word)
    ensures Pack(High32(m), SplitBit(m), CreditBits(m), Low16(m)) == m
  {
    var q := m / TwoTo16;
    assert m == q * TwoTo16 + Low16(m);
    assert q == (q / CreditLimit) * CreditLimit + CreditBits(m);
    var q2 := q / CreditLimit;
    assert q2 == m / TwoTo31;
    assert q2 == (q2 / 2) * 2 + SplitBit(m);
    assert q2 / 2 == High32(m);
  }

  /** Two high words are equal exactly when all four fields are. */
  lemma FieldsDetermineWord(m1: Word, m2: Word)
    requires High32(m1) == High32(m2) && SplitBit(m1) == SplitBit(m2)
    requires CreditBits(m1) == CreditBits(m2) && Low16(m1) == Low16(m2)
    ensures m1 == m2
  {
    PackFields(m1);
    PackFields(m2);
  }

  /** `m & ~credit_mask | ((c & credit_base_mask) << 16)`: replaces the credit field. */
  function ReplaceCredit(m: Word, c: int): Word
    requires 0 <= c
  {
    Pack(High32(m), SplitBit(m), c % CreditLimit, Low16(m))
  }

  /** `m & ~(credit_mask | was_split_mask)`: strip_credit_from_gid on a word. */
  function StripMsb(m: Word): (r: Word)
    ensures CreditBits(r) == 0 && SplitBit(r) == 0
    ensures High32(r) == High32(m) && Low16(r) == Low16(m)
    ensures CreditBits(m) == 0 && SplitBit(m) == 0 ==> r == m
  {
    if CreditBits(m) == 0 && SplitBit(m) == 0 then PackFields(m); m
    else Pack(High32(m), 0, 0, Low16(m))
  }

  /** `((x << 16) & credit_mask) >> 16` for an unsigned 32-bit x. */
  function ShiftedCredit(x: Word32): (c: int)
    ensures c == x % CreditLimit
  {
    var shifted := (x * TwoTo16) % TwoTo32;
    ShiftedCreditSteps(x);
    CreditBits(shifted)
  }

  /** The arithmetic behind ShiftedCredit, with the powers of two written as literals. */
  lemma ShiftedCreditSteps(x: Word32)
    ensures CreditBits((x * TwoTo16) % TwoTo32) == x % CreditLimit
  {
    var hi := x / TwoTo16;
    var lo := x % TwoTo16;
    assert x == hi * TwoTo16 + lo;
    MulDistrib(hi, lo);
    LowShiftFits(lo);
    ModAbove(hi, lo * TwoTo16);
    DivExact(lo);
    ModCreditOfLow(hi, lo);
  }

  // Single arithmetic facts about the powers of two, each proved on its own.

  lemma MulDistrib(hi: int, lo: int)
    ensures (hi * TwoTo16 + lo) * TwoTo16 == hi * TwoTo32 + lo * TwoTo16
  {
  }

  lemma LowShiftFits(lo: int)
    requires 0 <= lo < TwoTo16
    ensures 0 <= lo * TwoTo16 < TwoTo32
  {
  }

  lemma ModAbove(hi: int, y: int)
    requires 0 <= y < TwoTo32
    ensures (hi * TwoTo32 + y) % TwoTo32 == y
  {
  }

  lemma DivExact(lo: int)
    ensures (lo * TwoTo16) / TwoTo16 == lo
  {
  }

  lemma ModCreditOfLow(hi: int, lo: int)
    ensures (hi * TwoTo16 + lo) % CreditLimit == lo % CreditLimit
  {
    assert hi * TwoTo16 + lo == (2 * hi) * CreditLimit + lo;
  }

  // ---------------------------------------------------------------------
  // gid_type construction, validity, arithmetic and comparison

  /** `gid_type(lsb_id)` and `gid = lsb_id`: the high word is zero. */
  function FromLsb(lsb: Word): (r: Gid)
    ensures Value(r) == lsb
  {
    Gid(0, lsb)
  }

  /** The `safe_bool` conversion: a GID is valid unless both words are zero. */
  function IsValid(g: Gid): (b: bool)
    ensures b <==> Value(g) != 0
  {
    g.msb != 0 || g.lsb != 0
  }

  /** The 128-bit value never exceeds 2^128 - 1 and identifies the GID. */
  lemma {:induction false} ValueInjective(a: Gid, b: Gid)
    ensures 0 <= Value(a) < TwoTo128
    ensures Value(a) == Value(b) <==> a == b
  {
    if Value(a) == Value(b) {
      assert a.msb == Value(a) / TwoTo64;
      assert b.msb == Value(b) / TwoTo64;
    }
  }

  lemma ModWideUp(s: int, l: int)
    requires 0 <= s < 2 * TwoTo64 + 1 && 0 <= l < TwoTo64
    ensures (s * TwoTo64 + l) % TwoTo128 == (s % TwoTo64) * TwoTo64 + l
  {
    if s >= 2 * TwoTo64 {
      assert s * TwoTo64 + l == (s - 2 * TwoTo64) * TwoTo64 + l + 2 * TwoTo128;
    } else if s >= TwoTo64 {
      assert s * TwoTo64 + l == (s - TwoTo64) * TwoTo64 + l + TwoTo128;
    }
  }

  lemma ModWideDown(s: int, l: int)
    requires -TwoTo64 - 1 <= s < TwoTo64 && 0 <= l < TwoTo64
    ensures (s * TwoTo64 + l) % TwoTo128 == (s % TwoTo64) * TwoTo64 + l
  {
    if s < -TwoTo64 {
      assert s * TwoTo64 + l == (s + 2 * TwoTo64) * TwoTo64 + l - 2 * TwoTo128;
    } else if s < 0 {
      assert s * TwoTo64 + l == (s + TwoTo64) * TwoTo64 + l - TwoTo128;
    }
  }

  /** `gid + gid`: word-wise addition with a carry from the low word into the high word. */
  function Add(a: Gid, b: Gid): (r: Gid)
    ensures Value(r) == (Value(a) + Value(b)) % TwoTo128
  {
    var lsb: Word := (a.lsb + b.lsb) % TwoTo64;
    var msb: Word := (a.msb + b.msb) % TwoTo64;
    var r := if lsb < a.lsb || lsb < b.lsb then Gid((msb + 1) % TwoTo64, lsb) else Gid(msb, lsb);
    assert Value(r) == (Value(a) + Value(b)) % TwoTo128 by {
      var carry := if a.lsb + b.lsb >= TwoTo64 then 1 else 0;
      assert lsb == a.lsb + b.lsb - carry * TwoTo64;
      assert (lsb < a.lsb || lsb < b.lsb) <==> carry == 1;
      var s := a.msb + b.msb + carry;
      assert msb == if a.msb + b.msb >= TwoTo64 then a.msb + b.msb - TwoTo64 else a.msb + b.msb;
      assert r.msb == s % TwoTo64;
      assert Value(a) + Value(b) == s * TwoTo64 + lsb;
      ModWideUp(s, lsb);
    }
    r
  }

  /** `gid - gid`: word-wise subtraction with a borrow from the high word. */
  function Sub(a: Gid, b: Gid): (r: Gid)
    ensures Value(r) == (Value(a) - Value(b)) % TwoTo128
  {
    var lsb: Word := (a.lsb - b.lsb) % TwoTo64;
    var msb: Word := (a.msb - b.msb) % TwoTo64;
    var r := if lsb > a.lsb then Gid((msb - 1) % TwoTo64, lsb) else Gid(msb, lsb);
    assert Value(r) == (Value(a) - Value(b)) % TwoTo128 by {
      var borrow := if a.lsb < b.lsb then 1 else 0;
      assert lsb == a.lsb - b.lsb + borrow * TwoTo64;
      assert (lsb > a.lsb) <==> borrow == 1;
      var s := a.msb - b.msb - borrow;
      assert r.msb == s % TwoTo64 by {
        if borrow == 1 {
          ModMinusOne(a.msb - b.msb);
        }
      }
      assert Value(a) - Value(b) == s * TwoTo64 + lsb by {
        SubDistrib(a.msb, b.msb, borrow);
      }
      ModWideDown(s, lsb);
    }
    r
  }

  lemma SubDistrib(x: int, y: int, z: int)
    ensures (x - y - z) * TwoTo64 == x * TwoTo64 - y * TwoTo64 - z * TwoTo64
  {
  }

  lemma ModMinusOne(x: int)
    ensures (x % TwoTo64 - 1) % TwoTo64 == (x - 1) % TwoTo64
  {
  }

  /** `gid + uint64`. */
  function AddWord(a: Gid, rhs: Word): (r: Gid)
    ensures Value(r) == (Value(a) + rhs) % TwoTo128
  {
    Add(a, Gid(0, rhs))
  }

  /** `gid - uint64`. */
  function SubWord(a: Gid, rhs: Word): (r: Gid)
    ensures Value(r) == (Value(a) - rhs) % TwoTo128
  {
    Sub(a, Gid(0, rhs))
  }

  /** Subtraction undoes addition, modulo 2^128. */
  lemma {:induction false} SubUndoesAdd(a: Gid, b: Gid)
    ensures Sub(Add(a, b), b) == a
  {
    var d := Sub(Add(a, b), b);
    ValueInjective(a, b);
    ValueInjective(b, a);
    WrapThenUnwrap(Value(a), Value(b));
    ValueInjective(d, a);
  }

  lemma WrapThenUnwrap(x: int, y: int)
    requires 0 <= x < TwoTo128 && 0 <= y < TwoTo128
    ensures (((x + y) % TwoTo128) - y) % TwoTo128 == x
  {
    if x + y >= TwoTo128 {
      assert (x + y) % TwoTo128 == x + y - TwoTo128;
    }
  }

  /** A carry out of the low word increments the high word (the worked example of the design). */
  lemma CarryIntoMsb()
    ensures Add(Gid(0, TwoTo64 - 1), Gid(0, 1)) == Gid(1, 0)
  {
    ValueInjective(Add(Gid(0, TwoTo64 - 1), Gid(0, 1)), Gid(1, 0));
  }

  /** Bitwise AND of two naturals. */
  function BitAnd(x: nat, y: nat): (r: nat)
    ensures r <= x && r <= y
    decreases x
  {
    if x == 0 || y == 0 then 0
    else 2 * BitAnd(x / 2, y / 2) + (if x % 2 == 1 && y % 2 == 1 then 1 else 0)
  }

  /** Bit i of x: the lowest bit of x shifted right by i. */
  predicate Bit(x: nat, i: nat)
    decreases i
  {
    if i == 0 then x % 2 == 1 else Bit(x / 2, i - 1)
  }

  /** 2^k. */
  function Pow2(k: nat): (p: nat)
    ensures p >= 1
  {
    if k == 0 then 1 else 2 * Pow2(k - 1)
  }

  /** No bit of zero is set. */
  lemma {:induction false} NoBitOfZero(i: nat)
    ensures !Bit(0, i)
  {
    if i > 0 {
      NoBitOfZero(i - 1);
    }
  }

  /** Bit i of `x & y` is set exactly when bit i is set in both x and y. */
  lemma {:induction false} BitAndBits(x: nat, y: nat, i: nat)
    ensures Bit(BitAnd(x, y), i) <==> Bit(x, i) && Bit(y, i)
    decreases i
  {
    if x == 0 || y == 0 {
      NoBitOfZero(i);
    } else {
      BitAndHalves(x, y);
      if i > 0 {
        BitAndBits(x / 2, y / 2, i - 1);
        assert Bit(BitAnd(x, y), i) == Bit(BitAnd(x / 2, y / 2), i - 1);
      }
    }
  }

  /** The lowest bit of `x & y`, and the rest shifted down. */
  lemma BitAndHalves(x: nat, y: nat)
    requires x != 0 && y != 0
    ensures BitAnd(x, y) / 2 == BitAnd(x / 2, y / 2)
    ensures BitAnd(x, y) % 2 == 1 <==> x % 2 == 1 && y % 2 == 1
  {
    var b := if x % 2 == 1 && y % 2 == 1 then 1 else 0;
    assert BitAnd(x, y) == 2 * BitAnd(x / 2, y / 2) + b;
  }

  /** `&` is commutative. */
  lemma {:induction false} BitAndCommutes(x: nat, y: nat)
    ensures BitAnd(x, y) == BitAnd(y, x)
    decreases x
  {
    if x != 0 && y != 0 {
      BitAndCommutes(x / 2, y / 2);
    }
  }

  /** Halving and then reducing modulo p is reducing modulo 2p and halving. */
  lemma ModDouble(x: nat, p: nat)
    requires p >= 1
    ensures x % (2 * p) == 2 * ((x / 2) % p) + x % 2
  {
    var q, b := (x / 2) / p, (x / 2) % p;
    var s := 2 * b + x % 2;
    assert x == (2 * p) * q + s;
    DivUnique(x, 2 * p, q, s);
  }

  /** Writing x as d*q + s with 0 <= s < d fixes the remainder. */
  lemma DivUnique(x: int, d: int, q: int, s: int)
    requires x >= 0 && d >= 1 && 0 <= s < d && x == d * q + s
    ensures x % d == s
  {
    var k := q - x / d;
    assert d * k == x % d - s;
    assert k >= 1 ==> d * k >= d;
    assert k <= -1 ==> d * k <= 0 - d;
  }

  /** Masking with 2^k - 1 keeps the k lowest bits: `x & (2^k - 1) == x % 2^k`. */
  lemma {:induction false} BitAndLowMask(x: nat, k: nat)
    ensures BitAnd(x, Pow2(k) - 1) == x % Pow2(k)
    decreases k
  {
    if x != 0 && k != 0 {
      var p := Pow2(k - 1);
      var mask := Pow2(k) - 1;
      assert mask == 2 * p - 1;
      assert mask / 2 == p - 1 && mask % 2 == 1;
      BitAndOdd(x, mask);
      BitAndLowMask(x / 2, k - 1);
      ModDouble(x, p);
    }
  }

  /** With an odd mask, the lowest bit of x is kept. */
  lemma BitAndOdd(x: nat, mask: nat)
    requires x != 0 && mask % 2 == 1
    ensures BitAnd(x, mask) == 2 * BitAnd(x / 2, mask / 2) + x % 2
  {
  }

  /** 2^(j+k) == 2^j * 2^k. */
  lemma {:induction false} Pow2Add(j: nat, k: nat)
    ensures Pow2(j + k) == Pow2(j) * Pow2(k)
    decreases j
  {
    if j > 0 {
      Pow2Add(j - 1, k);
    }
  }

  /** 2^64 as a power. */
  lemma Pow2Of64()
    ensures Pow2(64) == TwoTo64
  {
    assert Pow2(4) == 16 by {
      assert Pow2(1) == 2 && Pow2(2) == 4 && Pow2(3) == 8;
    }
    Pow2Add(4, 4);
    Pow2Add(8, 8);
    Pow2Add(16, 16);
    Pow2Add(32, 32);
  }

  /** `gid & uint64`: masks the low word bit by bit and keeps the high word. */
  function AndLsb(a: Gid, rhs: Word): (r: Gid)
    ensures r.msb == a.msb && r.lsb <= a.lsb && r.lsb <= rhs
    ensures forall i: nat :: Bit(r.lsb, i) <==> Bit(a.lsb, i) && Bit(rhs, i)
  {
    AndLsbBits(a.lsb, rhs);
    Gid(a.msb, BitAnd(a.lsb, rhs))
  }

  /** Every bit of `x & y` at once. */
  lemma AndLsbBits(x: nat, y: nat)
    ensures forall i: nat :: Bit(BitAnd(x, y), i) <==> Bit(x, i) && Bit(y, i)
  {
    forall i: nat
      ensures Bit(BitAnd(x, y), i) <==> Bit(x, i) && Bit(y, i)
    {
      BitAndBits(x, y, i);
    }
  }

  /**
   * The masks `gid & w` is used with: all ones keeps the GID, zero clears
   * the low word, 2^k - 1 keeps the low word modulo 2^k, and the operands
   * of the masking commute.
   */
  lemma AndLsbMasks(a: Gid, w: Word, k: nat)
    requires k <= 64
    ensures AndLsb(a, TwoTo64 - 1) == a
    ensures AndLsb(a, 0) == Gid(a.msb, 0)
    ensures Pow2(k) - 1 < TwoTo64 && AndLsb(a, Pow2(k) - 1).lsb == a.lsb % Pow2(k)
    ensures AndLsb(a, w).lsb == BitAnd(w, a.lsb)
  {
    AllOnesMask(a.lsb);
    LowMask(a.lsb, k);
    BitAndCommutes(a.lsb, w);
  }

  /** `x & 0xffff'ffff'ffff'ffff == x` for a word x. */
  lemma AllOnesMask(x: Word)
    ensures BitAnd(x, TwoTo64 - 1) == x
  {
    Pow2Of64();
    BitAndLowMask(x, 64);
  }

  /** BitAndLowMask for a mask that fits in a word. */
  lemma LowMask(x: Word, k: nat)
    requires k <= 64
    ensures Pow2(k) - 1 < TwoTo64 && BitAnd(x, Pow2(k) - 1) == x % Pow2(k)
  {
    Pow2Of64();
    Pow2Monotone(k, 64);
    BitAndLowMask(x, k);
  }

  /** 2^j <= 2^k for j <= k. */
  lemma {:induction false} Pow2Monotone(j: nat, k: nat)
    requires j <= k
    ensures Pow2(j) <= Pow2(k)
    decreases k
  {
    if j < k {
      Pow2Monotone(j, k - 1);
    }
  }

  /** `operator<`: lexicographic on (msb, lsb). */
  function Less(a: Gid, b: Gid): (r: bool)
    ensures r <==> Value(a) < Value(b)
  {
    if a.msb < b.msb then true
    else if a.msb > b.msb then false
    else a.lsb < b.lsb
  }

  /** `operator<=`. */
  function LessEq(a: Gid, b: Gid): (r: bool)
    ensures r <==> Value(a) <= Value(b)
  {
    if a.msb < b.msb then true
    else if a.msb > b.msb then false
    else a.lsb <= b.lsb
  }

  /** `operator>`. */
  function Greater(a: Gid, b: Gid): (r: bool)
    ensures r <==> Value(a) > Value(b)
  {
    if a.msb > b.msb then true
    else if a.msb < b.msb then false
    else a.lsb > b.lsb
  }

  /** `operator>=`. */
  function GreaterEq(a: Gid, b: Gid): (r: bool)
    ensures r <==> Value(a) >= Value(b)
  {
    if a.msb > b.msb then true
    else if a.msb < b.msb then false
    else a.lsb >= b.lsb
  }

  /** The ordering is a strict total order whose equality is `operator==`. */
  lemma {:induction false} LessIsTotalOrder(a: Gid, b: Gid, c: Gid)
    ensures !Less(a, a)
    ensures Less(a, b) && Less(b, c) ==> Less(a, c)
    ensures Less(a, b) || Less(b, a) || a == b
    ensures LessEq(a, b) <==> Less(a, b) || a == b
    ensures Greater(a, b) <==> Less(b, a)
  {
    ValueInjective(a, b);
  }

  // ---------------------------------------------------------------------
  // Locality prefix

  /** get_gid_from_prefix: `gid_type(uint64(prefix + 1) << 32, 0)`, the +1 computed in 32 bits. */
  function GidFromPrefix(prefix: Word32): (r: Gid)
    ensures r.lsb == 0 && CreditBits(r.msb) == 0 && SplitBit(r.msb) == 0 && Low16(r.msb) == 0
    ensures High32(r.msb) == (prefix + 1) % TwoTo32
  {
    var high := (prefix + 1) % TwoTo32;
    assert high * TwoTo32 == Pack(high, 0, 0, 0);
    Gid(high * TwoTo32, 0)
  }

  /** get_prefix_from_gid: `uint32(msb >> 32) - 1`, the -1 computed in 32 bits. */
  function PrefixFromGid(g: Gid): (p: Word32)
    ensures (p + 1) % TwoTo32 == High32(g.msb)
  {
    (High32(g.msb) - 1) % TwoTo32
  }

  /** Every 32-bit prefix survives the round trip through a GID. */
  lemma PrefixRoundTrip(prefix: Word32)
    ensures PrefixFromGid(GidFromPrefix(prefix)) == prefix
  {
  }

  /** get_locality_from_gid keeps the prefix bits and clears everything else. */
  function LocalityFromGid(g: Gid): (r: Gid)
    ensures r == Gid(Pack(High32(g.msb), 0, 0, 0), 0)
    ensures PrefixFromGid(r) == PrefixFromGid(g)
  {
    GidFromPrefix(PrefixFromGid(g))
  }

  // ---------------------------------------------------------------------
  // Credit and was-split fields

  /** get_credit_from_gid. */
  function Credit(g: Gid): (c: Word16)
    ensures c < CreditLimit
  {
    CreditBits(g.msb)
  }

  /** gid_was_split: bit 31 of the high word is set. */
  function WasSplit(g: Gid): (r: bool)
    ensures r <==> g.msb % TwoTo32 >= TwoTo31
  {
    SplitBitIsBit31(g.msb);
    SplitBit(g.msb) == 1
  }

  /** The split field is set exactly when the low 32 bits reach 2^31. */
  lemma SplitBitIsBit31(m: Word)
    ensures SplitBit(m) == 1 <==> m % TwoTo32 >= TwoTo31
  {
    var q, s := m / TwoTo31, m % TwoTo31;
    var b := q % 2;
    assert m == TwoTo31 * q + s;
    assert q == 2 * (q / 2) + b;
    assert m == TwoTo32 * (q / 2) + (TwoTo31 * b + s);
    assert 0 <= b < 2;
    assert 0 <= TwoTo31 * b + s < TwoTo32;
    DivUnique(m, TwoTo32, q / 2, TwoTo31 * b + s);
  }

  /** Everything but the credit field is the same: `a.msb & ~credit_mask == b.msb & ~credit_mask`. */
  predicate SameExceptCredit(a: Gid, b: Gid) {
    High32(a.msb) == High32(b.msb) && SplitBit(a.msb) == SplitBit(b.msb)
    && Low16(a.msb) == Low16(b.msb) && a.lsb == b.lsb
  }

  /** Everything but the credit field and the was-split flag is the same. */
  predicate SameAddressBits(a: Gid, b: Gid) {
    High32(a.msb) == High32(b.msb) && Low16(a.msb) == Low16(b.msb) && a.lsb == b.lsb
  }

  /** The GID set_credit_for_gid leaves behind; the source asserts the credit fits 15 bits. */
  function WithCredit(g: Gid, credit: Word16): (r: Gid)
    requires credit < CreditLimit
    ensures Credit(r) == credit && SameExceptCredit(r, g)
  {
    Gid(ReplaceCredit(g.msb, credit), g.lsb)
  }

  /** Setting the credit that is already there changes nothing. */
  lemma WithOwnCredit(g: Gid)
    ensures WithCredit(g, Credit(g)) == g
  {
    FieldsDetermineWord(WithCredit(g, Credit(g)).msb, g.msb);
  }

  /** The later of two credit updates wins. */
  lemma WithCreditTwice(g: Gid, c1: Word16, c2: Word16)
    requires c1 < CreditLimit && c2 < CreditLimit
    ensures WithCredit(WithCredit(g, c1), c2) == WithCredit(g, c2)
  {
    FieldsDetermineWord(WithCredit(WithCredit(g, c1), c2).msb, WithCredit(g, c2).msb);
  }

  /** The GID add_credit_to_gid leaves behind, with the total it returns. */
  function AddedCredit(g: Gid, credit: Word16): (r: (Gid, Word16))
    requires Credit(g) + credit < CreditLimit
    ensures r.1 == Credit(g) + credit
    ensures Credit(r.0) == r.1 && SameExceptCredit(r.0, g)
  {
    var c := Credit(g) + credit;
    (Gid(ReplaceCredit(g.msb, c), g.lsb), c)
  }

  /** strip_credit_from_gid on a GID: clears credit and was-split, keeps the low word. */
  function Strip(g: Gid): (r: Gid)
    ensures Credit(r) == 0 && !WasSplit(r) && SameAddressBits(r, g)
  {
    Gid(StripMsb(g.msb), g.lsb)
  }

  /** Stripping twice is stripping once. */
  lemma StripIdempotent(g: Gid)
    ensures Strip(Strip(g)) == Strip(g)
  {
  }

  /** Stripped GIDs are equal exactly when all non-ownership bits are: address equality ignores ownership. */
  lemma {:induction false} StripEqualIff(a: Gid, b: Gid)
    ensures Strip(a) == Strip(b) <==> SameAddressBits(a, b)
  {
    if SameAddressBits(a, b) {
      FieldsDetermineWord(Strip(a).msb, Strip(b).msb);
    }
  }

  /** Two credit values on the same GID give the same address. */
  lemma StripIgnoresCredit(g: Gid, c1: Word16, c2: Word16)
    requires c1 < CreditLimit && c2 < CreditLimit
    ensures Strip(WithCredit(g, c1)) == Strip(WithCredit(g, c2))
  {
    StripEqualIff(WithCredit(g, c1), WithCredit(g, c2));
  }

  /** Integer division as C computes it for a non-negative dividend: truncation toward zero. */
  function TruncDiv(a: nat, b: int): (q: int)
    requires b != 0
    ensures b >= 1 ==> 0 <= q <= a && q == a / b
  {
    if b > 0 then a / b else -(a / -b)
  }

  /**
   * The two credit fields split_credits_for_gid computes from `credits`:
   * `newcredits = credits / fraction` in `int`, stored as unsigned 32-bit;
   * the kept share is `((credits - newcredits) << 16) & credit_mask` and the
   * given share `(newcredits << 16) & credit_mask`, both shifted back down.
   */
  function SplitShares(credits: int, fraction: int): (r: (int, int))
    requires 0 <= credits < CreditLimit
    requires fraction != 0 && -TwoTo31 <= fraction < TwoTo31
    ensures 0 <= r.0 < CreditLimit && 0 <= r.1 < CreditLimit
    ensures fraction >= 1 ==> r.1 == credits / fraction && r.0 == credits - credits / fraction
  {
    var newCredits: Word32 := TruncDiv(credits, fraction) % TwoTo32;
    var keptCredits: Word32 := (credits - newCredits) % TwoTo32;
    var r := (ShiftedCredit(keptCredits), ShiftedCredit(newCredits));
    PositiveShares(credits, fraction, newCredits, keptCredits, r);
    r
  }

  /** With a positive fraction no field wraps: both shares are small non-negative numbers. */
  lemma PositiveShares(credits: int, fraction: int, newCredits: Word32, keptCredits: Word32, r: (int, int))
    requires 0 <= credits < CreditLimit && fraction != 0
    requires newCredits == TruncDiv(credits, fraction) % TwoTo32
    requires keptCredits == (credits - newCredits) % TwoTo32
    requires r == (keptCredits % CreditLimit, newCredits % CreditLimit)
    ensures fraction >= 1 ==> r.1 == credits / fraction && r.0 == credits - credits / fraction
  {
    if fraction >= 1 {
      var q := credits / fraction;
      assert TruncDiv(credits, fraction) == q;
      assert 0 <= q <= credits;
      assert newCredits == q;
      assert keptCredits == credits - q;
    }
  }

  /**
   * split_credits_for_gid: the original GID keeps `credits - credits / fraction`,
   * the returned one receives `credits / fraction`, both get the was-split flag.
   * Result: (the GID left in place, the GID returned).
   */
  function Split(g: Gid, fraction: int): (r: (Gid, Gid))
    requires fraction != 0 && -TwoTo31 <= fraction < TwoTo31
    ensures WasSplit(r.0) && WasSplit(r.1)
    ensures SameAddressBits(r.0, g) && SameAddressBits(r.1, g)
    ensures fraction >= 1 ==> Credit(r.1) == Credit(g) / fraction
    ensures fraction >= 1 ==> Credit(r.0) == Credit(g) - Credit(g) / fraction
  {
    var shares := SplitShares(CreditBits(g.msb), fraction);
    var kept := Pack(High32(g.msb), 1, shares.0, Low16(g.msb));
    var given := Pack(High32(g.msb), 1, shares.1, Low16(g.msb));
    (Gid(kept, g.lsb), Gid(given, g.lsb))
  }

  /** Splitting by a positive fraction conserves the credit. */
  lemma SplitConservesCredit(g: Gid, fraction: int)
    requires 1 <= fraction < TwoTo31
    ensures Credit(Split(g, fraction).0) + Credit(Split(g, fraction).1) == Credit(g)
  {
  }

  /**
   * is_local_address: the stripped high word equals the prefix GID's high
   * word, that is bits 32-63 and 0-15 agree and the prefix carries neither
   * credit nor the was-split flag.
   */
  function IsLocalAddress(g: Gid, prefix: Gid): (r: bool)
    ensures r <==> High32(g.msb) == High32(prefix.msb) && Low16(g.msb) == Low16(prefix.msb)
                   && CreditBits(prefix.msb) == 0 && SplitBit(prefix.msb) == 0
  {
    var s := StripMsb(g.msb);
    if High32(s) == High32(prefix.msb) && Low16(s) == Low16(prefix.msb)
       && CreditBits(prefix.msb) == 0 && SplitBit(prefix.msb) == 0
    then
      FieldsDetermineWord(s, prefix.msb);
      s == prefix.msb
    else s == prefix.msb
  }

  /** Against a locality prefix, a GID is local exactly when its prefix matches and bits 0-15 of its high word are zero. */
  lemma {:induction false} IsLocalAddressOfPrefix(g: Gid, prefix: Word32)
    ensures IsLocalAddress(g, GidFromPrefix(prefix))
            <==> PrefixFromGid(g) == prefix && Low16(g.msb) == 0
  {
    var p := GidFromPrefix(prefix);
    if PrefixFromGid(g) == prefix && Low16(g.msb) == 0 {
      FieldsDetermineWord(StripMsb(g.msb), p.msb);
    }
  }

  /** Credit and was-split never affect locality. */
  lemma IsLocalAddressIgnoresOwnership(g: Gid, h: Gid, prefix: Gid)
    requires SameAddressBits(g, h)
    ensures IsLocalAddress(g, prefix) == IsLocalAddress(h, prefix)
  {
    FieldsDetermineWord(StripMsb(g.msb), StripMsb(h.msb));
  }

  // ---------------------------------------------------------------------
  // gid_type as an object updated in place

  /** A gid_type variable: the operators and credit helpers that take `gid_type&` update its words. */
  class GidObject {
    var msb: Word
    var lsb: Word

    function Get(): Gid
      reads this
    {
      Gid(msb, lsb)
    }

    /** `gid_type(msb_id, lsb_id)`. */
    constructor (msb': Word, lsb': Word)
      ensures Get() == Gid(msb', lsb')
    {
      msb, lsb := msb', lsb';
    }

    /** `gid = lsb_id`: clears the high word. */
    method AssignLsb(lsb': Word)
      modifies this
      ensures Get() == FromLsb(lsb')
    {
      msb := 0;
      lsb := lsb';
    }

    /** `gid += rhs`, returning a copy of the new value. */
    method AddAssign(rhs: Gid) returns (r: Gid)
      modifies this
      ensures Get() == Add(old(Get()), rhs) && r == Get()
    {
      var sum := Add(Get(), rhs);
      msb, lsb := sum.msb, sum.lsb;
      r := sum;
    }

    /** `gid -= rhs`, returning a copy of the new value. */
    method SubAssign(rhs: Gid) returns (r: Gid)
      modifies this
      ensures Get() == Sub(old(Get()), rhs) && r == Get()
    {
      var diff := Sub(Get(), rhs);
      msb, lsb := diff.msb, diff.lsb;
      r := diff;
    }

    /** `++gid`. */
    method PreIncrement()
      modifies this
      ensures Get() == AddWord(old(Get()), 1)
      ensures Value(Get()) == (Value(old(Get())) + 1) % TwoTo128
    {
      var _ := AddAssign(Gid(0, 1));
    }

    /** `gid++`: returns the old value. */
    method PostIncrement() returns (t: Gid)
      modifies this
      ensures t == old(Get()) && Get() == AddWord(old(Get()), 1)
    {
      t := Get();
      PreIncrement();
    }

    /** `--gid`. */
    method PreDecrement()
      modifies this
      ensures Get() == SubWord(old(Get()), 1)
      ensures Value(Get()) == (Value(old(Get())) - 1) % TwoTo128
    {
      var _ := SubAssign(Gid(0, 1));
    }

    /** `gid--` as written: returns the old value but INCREMENTS the GID. */
    method PostDecrement() returns (t: Gid)
      modifies this
      ensures t == old(Get()) && Get() == AddWord(old(Get()), 1)
    {
      t := Get();
      PreIncrement();
    }

    /** `gid--` as evidently intended: returns the old value and decrements. */
    method PostDecrementCorrected() returns (t: Gid)
      modifies this
      ensures t == old(Get()) && Get() == SubWord(old(Get()), 1)
    {
      t := Get();
      PreDecrement();
    }

    /** add_credit_to_gid: adds to the credit field and returns the new total. */
    method AddCredit(credit: Word16) returns (total: Word16)
      requires Credit(Get()) + credit < CreditLimit
      modifies this
      ensures (Get(), total) == AddedCredit(old(Get()), credit)
    {
      var m := msb;
      var c := CreditBits(m) + credit;
      msb := ReplaceCredit(m, c);
      total := c;
    }

    /** set_credit_for_gid. */
    method SetCredit(credit: Word16)
      requires credit < CreditLimit
      modifies this
      ensures Get() == WithCredit(old(Get()), credit)
    {
      msb := ReplaceCredit(msb, credit);
    }

    /** strip_credit_from_gid(gid_type&). */
    method StripCredit()
      modifies this
      ensures Get() == Strip(old(Get()))
    {
      msb := StripMsb(msb);
    }

    /** split_credits_for_gid: this GID keeps its share, the returned GID carries the other. */
    method SplitCredits(fraction: int) returns (given: Gid)
      requires fraction != 0 && -TwoTo31 <= fraction < TwoTo31
      modifies this
      ensures (Get(), given) == Split(old(Get()), fraction)
    {
      var m := msb;
      var shares := SplitShares(CreditBits(m), fraction);
      msb := Pack(High32(m), 1, shares.0, Low16(m));
      given := Gid(Pack(High32(m), 1, shares.1, Low16(m)), lsb);
    }
  }

  // ---------------------------------------------------------------------
  // Post-decrement

  /** As written, `gid--` leaves the successor behind, not the predecessor. */
  lemma PostDecrementAsWrittenIncrements()
    ensures AddWord(Gid(0, 5), 1) == Gid(0, 6)
    ensures AddWord(Gid(0, 5), 1) != SubWord(Gid(0, 5), 1)
  {
    ValueInjective(AddWord(Gid(0, 5), 1), Gid(0, 6));
    ValueInjective(SubWord(Gid(0, 5), 1), Gid(0, 4));
  }

  /** The corrected decrement undoes an increment. */
  lemma DecrementUndoesIncrement(g: Gid)
    ensures SubWord(AddWord(g, 1), 1) == g
  {
    SubUndoesAdd(g, Gid(0, 1));
  }
}
