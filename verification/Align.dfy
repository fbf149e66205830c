/** Powers of two and rounding up to them, in 64-bit arithmetic. */
module Align {
  import opened Machine

  const GPU_HUGE_PAGE_SIZE: int := 0x20_0000

  /** The value of an unsigned 64-bit computation. */
  function Wrap(x: int): U64 {
    if 0 <= x < TWO_64 then x else x % TWO_64
  }

  predicate IsPow2(a: int) {
    a == 1 || (a > 1 && a % 2 == 0 && IsPow2(a / 2))
  }

  predicate Divides(a: int, b: int) {
    a != 0 && b % a == 0
  }

  /** `x & ~(a - 1)` for a power of two `a`. */
  function Masked(x: int, a: int): int
    requires a > 0
  {
    x - x % a
  }

  /** The ALIGN_UP macro. */
  function AlignUp(x: U64, a: int): U64
    requires a > 0
  {
    Masked(Wrap(x + a - 1), a)
  }

  lemma {:induction false} MulBounds(a: int, k: int)
    requires a > 0
    ensures (k >= 1 ==> a * k >= a) && (k <= -1 ==> a * k <= -a)
  {
  }

  lemma {:induction false} MultipleMod(a: int, q: int)
    requires a > 0
    ensures (a * q) % a == 0
  {
    var d := (a * q) / a;
    assert a * (q - d) == (a * q) % a;
    MulBounds(a, q - d);
  }

  lemma {:induction false} DividesFactor(a: int, b: int) returns (q: int)
    requires a > 0 && Divides(a, b)
    ensures b == a * q
  {
    q := b / a;
  }

  lemma {:induction false} DividesSum(a: int, b: int, c: int)
    requires a > 0 && Divides(a, b) && Divides(a, c)
    ensures Divides(a, b + c) && Divides(a, b - c)
  {
    var p := DividesFactor(a, b);
    var q := DividesFactor(a, c);
    assert b + c == a * (p + q) && b - c == a * (p - q);
    MultipleMod(a, p + q);
    MultipleMod(a, p - q);
  }

  lemma {:induction false} DividesTransitive(a: int, b: int, c: int)
    requires a > 0 && b > 0 && Divides(a, b) && Divides(b, c)
    ensures Divides(a, c)
  {
    var p := DividesFactor(a, b);
    var q := DividesFactor(b, c);
    assert c == a * (p * q);
    MultipleMod(a, p * q);
  }

  /** Between two different multiples of `a` there is room for `a`. */
  lemma {:induction false} MultiplesApart(a: int, b: int, c: int)
    requires a > 0 && Divides(a, b) && Divides(a, c) && b < c
    ensures b + a <= c
  {
    var p := DividesFactor(a, b);
    var q := DividesFactor(a, c);
    MulBounds(a, q - p);
    assert a * (q - p) == c - b;
  }

  lemma {:induction false} MaskedIs(x: int, a: int)
    requires a > 0
    ensures Divides(a, Masked(x, a)) && Masked(x, a) <= x < Masked(x, a) + a
  {
    MultipleMod(a, x / a);
  }

  /** Without wrap-around, ALIGN_UP is the least multiple at or above its argument. */
  lemma {:induction false} AlignUpIs(x: U64, a: int)
    requires a > 0 && x + a <= TWO_64
    ensures Divides(a, AlignUp(x, a)) && x <= AlignUp(x, a) < x + a
    ensures forall y | Divides(a, y) && y >= x :: y >= AlignUp(x, a)
  {
    MaskedIs(x + a - 1, a);
    forall y | Divides(a, y) && y >= x
      ensures y >= AlignUp(x, a)
    {
      if y < AlignUp(x, a) {
        MultiplesApart(a, y, AlignUp(x, a));
      }
    }
  }

  /** Of two powers of two the smaller divides the larger. */
  lemma {:induction false} Pow2Divides(a: int, b: int)
    requires IsPow2(a) && IsPow2(b) && a <= b
    ensures Divides(a, b)
    decreases b
  {
    if a < b {
      if a == b / 2 {
        MultipleMod(a, 2);
      } else {
        assert a <= b / 2 by {
          if a > b / 2 {
            Pow2Half(a, b);
          }
        }
        Pow2Divides(a, b / 2);
        var q := DividesFactor(a, b / 2);
        assert b == a * (2 * q);
        MultipleMod(a, 2 * q);
      }
    }
  }

  /** No power of two lies strictly between another and its double. */
  lemma {:induction false} Pow2Half(a: int, b: int)
    requires IsPow2(a) && IsPow2(b) && a < b
    ensures a <= b / 2
    decreases b
  {
    if a > 1 && b > 2 {
      Pow2Half(a / 2, b / 2);
    }
  }

  // ---- Alignment boosting ----

  /** The alignment of a big buffer: doubled up to the huge page size while the buffer is twice as big. */
  function Boosted(align: int, size: U64): (r: int)
    requires align > 0
    ensures r >= align
    decreases GPU_HUGE_PAGE_SIZE - align
  {
    if align < GPU_HUGE_PAGE_SIZE && size >= 2 * align then Boosted(2 * align, size) else align
  }

  method Boost(requested: U64, size: U64) returns (align: U64)
    requires requested > 0
    ensures align == Boosted(requested, size)
  {
    align := requested;
    while align < GPU_HUGE_PAGE_SIZE && size >= 2 * align
      invariant align > 0 && Boosted(align, size) == Boosted(requested, size)
      decreases GPU_HUGE_PAGE_SIZE - align
    {
      align := 2 * align;
    }
  }

  lemma {:induction false} Pow2Product(a: int, b: int)
    requires IsPow2(a) && IsPow2(b)
    ensures IsPow2(a * b)
  {
    if a > 1 {
      var c := a / 2 * b;
      Pow2Product(a / 2, b);
      assert a * b == 2 * c;
    }
  }

  lemma {:induction false} SmallPowers()
    ensures IsPow2(0x20) && IsPow2(0x1_0000)
  {
    assert IsPow2(0x10) by { assert IsPow2(4); }
    Pow2Product(0x10, 0x10);
    Pow2Product(0x100, 0x100);
  }

  lemma {:induction false} HugeIsPow2()
    ensures IsPow2(GPU_HUGE_PAGE_SIZE)
  {
    SmallPowers();
    Pow2Product(0x20, 0x1_0000);
  }

  /** Every power of two among the 64-bit numbers divides the number of them. */
  lemma {:induction false} Pow2DividesTop(a: int)
    requires IsPow2(a) && a < TWO_64
    ensures Divides(a, TWO_64) && 2 * a <= TWO_64
  {
    SmallPowers();
    Pow2Product(0x1_0000, 0x1_0000);
    Pow2Product(0x1_0000_0000, 0x1_0000_0000);
    Pow2Divides(a, TWO_64);
    Pow2Half(a, TWO_64);
  }

  /**
    Boosting keeps a power of two, yields a multiple of the alignment it starts from, goes no
    further than the huge page size or the buffer size, and stops only when it has to.
   */
  lemma {:induction false} BoostedIs(align: int, size: U64)
    requires IsPow2(align)
    ensures var b := Boosted(align, size);
      && IsPow2(b) && Divides(align, b) && (b == align || (b <= GPU_HUGE_PAGE_SIZE && b <= size))
      && (b >= GPU_HUGE_PAGE_SIZE || size < 2 * b)
    decreases GPU_HUGE_PAGE_SIZE - align
  {
    if align < GPU_HUGE_PAGE_SIZE && size >= 2 * align {
      HugeIsPow2();
      Pow2Half(align, GPU_HUGE_PAGE_SIZE);
      BoostedIs(2 * align, size);
      MultipleMod(align, 2);
      DividesTransitive(align, 2 * align, Boosted(align, size));
    } else {
      MultipleMod(align, 1);
    }
  }
}
