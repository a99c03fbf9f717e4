/** 64-bit words as the kernel's C code sees them.

A `uint64_t` is a number below 2^64. The masks the kernel uses are written arithmetically: `x & ~0xFFF`
is `PageBase(x)`, `x & PAGING_PRESENT` asks for the parity of `x`. Bitwise "or" has no arithmetic form on
arbitrary operands, so it is defined digit by digit, and `OrIsBitwise` shows that it is the machine's "or". */
module Words {

  type u64 = x: int | 0 <= x < 0x1_0000_0000_0000_0000

  /** `x % 2^64`, what an unsigned C addition or multiplication keeps. */
  function Wrap(x: int): u64 {
    x % 0x1_0000_0000_0000_0000
  }

  /** Quotient and remainder of `base * q + r`. */
  lemma QuotientRemainder(q: nat, r: nat, base: nat)
    requires r < base
    ensures (base * q + r) / base == q && (base * q + r) % base == r
    ensures q != 0 ==> base * q + r != 0
  {
    var x := base * q + r;
    var d := x / base - q;
    assert x == base * (x / base) + x % base;
    assert base * d == base * (x / base) - base * q;
    Multiple(base, d);
    Multiple(base, q);
  }

  /** A multiple of `base` nearer to zero than `base` is zero. */
  lemma Multiple(base: nat, d: int)
    ensures (1 <= d ==> base <= base * d) && (d <= -1 ==> base * d + base <= 0)
  {
    if 1 <= d {
      assert base * d == base + base * (d - 1);
    } else if d <= -1 {
      assert base * d + base == base * (d + 1);
    }
  }

  function Pow2(k: nat): (p: nat)
    ensures 0 < p
  {
    if k == 0 then 1 else 2 * Pow2(k - 1)
  }

  /** Binary digit `k` of `x`. */
  predicate Bit(x: nat, k: nat) {
    if k == 0 then x % 2 == 1 else Bit(x / 2, k - 1)
  }

  function BitOr(a: nat, b: nat): nat
    decreases a + b
  {
    if a == 0 then b
    else if b == 0 then a
    else 2 * BitOr(a / 2, b / 2) + if a % 2 == 1 || b % 2 == 1 then 1 else 0
  }

  /** `x & ~0xFFF`. The C literal is sign-extended, so bits 52 to 63 survive. */
  function PageBase(x: nat): nat {
    x - x % 0x1000
  }

  /** The frame number a page-table entry or physical address names: `(x & ~0xFFF) / 0x1000`. */
  function Frame(x: nat): nat {
    x / 0x1000
  }

  /** One unfolding of `BitOr`, with no case split on zero operands. */
  lemma OrUnfold(a: nat, b: nat)
    ensures BitOr(a, b) / 2 == BitOr(a / 2, b / 2)
    ensures BitOr(a, b) % 2 == 1 <==> a % 2 == 1 || b % 2 == 1
  {
    if a == 0 {
      assert BitOr(0, b / 2) == b / 2;
    } else if b == 0 {
      assert BitOr(a / 2, 0) == a / 2;
    }
  }

  /** Every binary digit of `BitOr(a, b)` is the "or" of the operands' digits. */
  lemma {:induction false} OrIsBitwise(a: nat, b: nat, k: nat)
    ensures Bit(BitOr(a, b), k) <==> Bit(a, k) || Bit(b, k)
    decreases k
  {
    OrUnfold(a, b);
    if k != 0 {
      OrIsBitwise(a / 2, b / 2, k - 1);
    }
  }

  /** "Or" does not carry: operands below 2^k give a result below 2^k. */
  lemma {:induction false} OrBound(a: nat, b: nat, k: nat)
    requires a < Pow2(k) && b < Pow2(k)
    ensures a <= BitOr(a, b) && b <= BitOr(a, b) < Pow2(k)
    decreases k
  {
    OrUnfold(a, b);
    if k != 0 {
      OrBound(a / 2, b / 2, k - 1);
    }
  }

  /** `x >> k`. */
  function Shift(x: nat, k: nat): nat {
    if k == 0 then x else Shift(x / 2, k - 1)
  }

  /** The low `k` digits of `x` are zero. */
  predicate LowClear(x: nat, k: nat) {
    k == 0 || (x % 2 == 0 && LowClear(x / 2, k - 1))
  }

  /** Where one operand stops below the other's lowest digit, "or" is a sum. */
  lemma {:induction false} OrDisjoint(high: nat, low: nat, k: nat)
    requires LowClear(high, k) && low < Pow2(k)
    ensures BitOr(high, low) == high + low
    decreases k
  {
    OrUnfold(high, low);
    if k != 0 {
      OrDisjoint(high / 2, low / 2, k - 1);
    }
  }

  lemma {:induction false} OrShift(a: nat, b: nat, k: nat)
    ensures Shift(BitOr(a, b), k) == BitOr(Shift(a, k), Shift(b, k))
    decreases k
  {
    OrUnfold(a, b);
    if k != 0 {
      OrShift(a / 2, b / 2, k - 1);
    }
  }

  lemma ThreeDigits(x: nat, k: nat)
    requires 3 <= k
    ensures Shift(x, k) == Shift(x / 8, k - 3)
    ensures LowClear(x, k) <==> x % 8 == 0 && LowClear(x / 8, k - 3)
  {
    var y := x / 2;
    var z := y / 2;
    assert Shift(x, k) == Shift(y, k - 1) == Shift(z, k - 2) == Shift(z / 2, k - 3);
    assert LowClear(y, k - 1) <==> y % 2 == 0 && LowClear(z, k - 2);
    assert LowClear(z, k - 2) <==> z % 2 == 0 && LowClear(z / 2, k - 3);
    assert z / 2 == x / 8;
  }

  lemma PageShift(x: nat)
    ensures Shift(x, 12) == Frame(x)
    ensures x % 0x1000 == 0 ==> LowClear(x, 12)
  {
    ThreeDigits(x, 12);
    ThreeDigits(x / 8, 9);
    ThreeDigits(x / 64, 6);
    ThreeDigits(x / 512, 3);
  }

  lemma Pow2Values()
    ensures Pow2(12) == 0x1000 && Pow2(64) == 0x1_0000_0000_0000_0000
  {
    assert Pow2(12) == 4096;
    assert Pow2(24) == 4096 * Pow2(12);
    Pow2Add(32, 32);
    assert Pow2(32) == 0x1_0000_0000;
  }

  lemma {:induction false} Pow2Add(a: nat, b: nat)
    ensures Pow2(a + b) == Pow2(a) * Pow2(b)
  {
    if a != 0 {
      Pow2Add(a - 1, b);
    }
  }

  lemma {:induction false} ShiftBits(x: nat, n: nat, k: nat)
    ensures Bit(Shift(x, n), k) == Bit(x, n + k)
    decreases n
  {
    if n != 0 {
      ShiftBits(x / 2, n - 1, k);
    }
  }

  lemma {:induction false} ClearBits(x: nat, n: nat, k: nat)
    requires LowClear(x, n) && k < n
    ensures !Bit(x, k)
    decreases n
  {
    if k != 0 {
      ClearBits(x / 2, n - 1, k - 1);
    }
  }

  /** Masking clears the low twelve bits and no other. */
  lemma PageBaseBits(x: nat, k: nat)
    ensures Bit(PageBase(x), k) <==> 12 <= k && Bit(x, k)
  {
    PageShift(x);
    PageShift(PageBase(x));
    if 12 <= k {
      ShiftBits(x, 12, k - 12);
      ShiftBits(PageBase(x), 12, k - 12);
    } else {
      ClearBits(PageBase(x), 12, k);
    }
  }

  /** The machine "or" of two words is a word. */
  function Or(a: u64, b: u64): (r: u64)
    ensures a <= r && b <= r
  {
    assert BitOr(a, b) < 0x1_0000_0000_0000_0000 && a <= BitOr(a, b) && b <= BitOr(a, b) by {
      Pow2Values();
      OrBound(a, b, 64);
    }
    BitOr(a, b)
  }

  /** Or-ing an offset to the address of a page adds it. */
  lemma OrOffset(page: nat, offset: nat)
    requires page % 0x1000 == 0 && offset < 0x1000
    ensures BitOr(page, offset) == page + offset
  {
    Pow2Values();
    PageShift(page);
    OrDisjoint(page, offset, 12);
  }

  /** "Or" acts on the frame-number part and on each flag separately. */
  lemma OrFrame(a: u64, b: u64)
    ensures Frame(Or(a, b)) == BitOr(Frame(a), Frame(b))
  {
    PageShift(a);
    PageShift(b);
    PageShift(BitOr(a, b));
    OrShift(a, b, 12);
  }

  /** Adding digits that are already there changes nothing, and nothing else changes nothing. */
  lemma {:induction false} OrAbsorbs(a: nat, b: nat)
    ensures BitOr(a, b) == a <==> forall k: nat :: Bit(b, k) ==> Bit(a, k)
  {
    if BitOr(a, b) == a {
      forall k: nat | Bit(b, k) ensures Bit(a, k) {
        OrIsBitwise(a, b, k);
      }
    } else {
      var k := FindDifference(BitOr(a, b), a);
      OrIsBitwise(a, b, k);
    }
  }

  lemma {:induction false} FindDifference(x: nat, y: nat) returns (k: nat)
    requires x != y
    ensures Bit(x, k) != Bit(y, k)
    decreases x + y
  {
    if x % 2 != y % 2 {
      k := 0;
    } else {
      k := FindDifference(x / 2, y / 2);
      k := k + 1;
    }
  }
}
