/** Rounding arithmetic of the memory manager: `align_down`, `align_up` and
    `size_align`, over unbounded naturals. */
module Align {

  function AlignDown(val: nat, align: nat): (r: nat) {
    if align == 0 then val else (val / align) * align
  }

  function DivCeil(val: nat, align: nat): (q: nat)
    requires align > 0
  {
    val / align + (if val % align == 0 then 0 else 1)
  }

  function AlignUp(val: nat, align: nat): (r: nat) {
    if align == 0 then val else DivCeil(val, align) * align
  }

  predicate Aligned(val: nat, align: nat) {
    align == 0 || val % align == 0
  }

  /** The page sizes the kernel can be configured with. */
  predicate BasePage(page: nat) {
    page == 0x1000 || page == 0x4000 || page == 0x10000
  }

  /** Smallest `pow * 2^k` that is at least `val`. */
  function DoubleUntil(pow: nat, val: nat): (r: nat)
    requires pow > 0
    ensures r >= val && r >= pow
    ensures pow >= val ==> r == pow
    ensures r > pow ==> r < 2 * val
    decreases if pow >= val then 0 else val - pow
  {
    if pow >= val then pow else DoubleUntil(2 * pow, val)
  }

  function NextPowerOfTwo(val: nat): (r: nat) {
    DoubleUntil(1, val)
  }

  function SizeAlign(val: nat, page: nat): (r: nat) {
    if val < page then NextPowerOfTwo(val) else AlignUp(val, page)
  }

  /** Distinct multiples of `align` are at least `align` apart. */
  lemma MulGap(x: nat, y: nat, align: nat)
    ensures x < y ==> x * align + align <= y * align
  {
    if x < y {
      assert (x + 1) * align <= y * align;
    }
  }

  /** Quotient and remainder are determined by their defining equation. */
  lemma DivUnique(val: nat, align: nat, q: nat, r: nat)
    requires align > 0 && r < align && val == q * align + r
    ensures val / align == q && val % align == r
  {
    var q' := val / align;
    assert val == q' * align + val % align;
    MulGap(q', q, align);
    MulGap(q, q', align);
  }

  lemma MulMod(q: nat, align: nat)
    requires align > 0
    ensures (q * align) % align == 0 && (q * align) / align == q
  {
    DivUnique(q * align, align, q, 0);
  }

  /** A larger multiple is larger by at least one step. */
  lemma NextMultiple(x: nat, y: nat, align: nat)
    requires align > 0 && x % align == 0 && y % align == 0 && y < x
    ensures y + align <= x
  {
    assert x == x / align * align && y == y / align * align;
    MulGap(y / align, x / align, align);
    MulGap(x / align, y / align, align);
  }

  /** `align_up` yields the least aligned value that is not below its argument. */
  lemma AlignUpLeast(val: nat, align: nat)
    ensures AlignUp(val, align) >= val
    ensures Aligned(AlignUp(val, align), align)
    ensures align > 0 ==> AlignUp(val, align) < val + align
    ensures forall m: nat :: m >= val && Aligned(m, align) ==> AlignUp(val, align) <= m
  {
    if align > 0 {
      var q := DivCeil(val, align);
      MulMod(q, align);
      assert val == (val / align) * align + val % align;
      assert q == val / align || q * align == (val / align) * align + align;
      forall m: nat | m >= val && Aligned(m, align)
        ensures AlignUp(val, align) <= m
      {
        assert m == (m / align) * align;
        MulGap(m / align, q, align);
        MulGap(q, m / align, align);
      }
    }
  }

  /** `align_down` yields the greatest aligned value that is not above its argument. */
  lemma AlignDownGreatest(val: nat, align: nat)
    ensures AlignDown(val, align) <= val
    ensures Aligned(AlignDown(val, align), align)
    ensures align > 0 ==> val < AlignDown(val, align) + align
    ensures forall m: nat :: m <= val && Aligned(m, align) ==> m <= AlignDown(val, align)
  {
    if align > 0 {
      var q := val / align;
      MulMod(q, align);
      assert val == q * align + val % align;
      forall m: nat | m <= val && Aligned(m, align)
        ensures m <= AlignDown(val, align)
      {
        assert m == (m / align) * align;
        MulGap(q, m / align, align);
        MulGap(m / align, q, align);
      }
    }
  }

  lemma AlignUpFixed(val: nat, align: nat)
    requires Aligned(val, align)
    ensures AlignUp(val, align) == val
  {
    AlignUpLeast(val, align);
  }

  lemma DoubleUntilMonotone(pow: nat, v: nat, w: nat)
    requires pow > 0 && v <= w
    ensures DoubleUntil(pow, v) <= DoubleUntil(pow, w)
    decreases if pow >= w then 0 else w - pow
  {
    if pow < v { DoubleUntilMonotone(2 * pow, v, w); }
  }

  /** Rounding a rounded value again changes nothing, when the start divides the chain. */
  lemma DoubleUntilIdempotent(pow: nat, val: nat)
    requires pow > 0
    ensures DoubleUntil(pow, DoubleUntil(pow, val)) == DoubleUntil(pow, val)
    decreases if pow >= val then 0 else val - pow
  {
    if pow < val { DoubleUntilIdempotent(2 * pow, val); }
  }

  lemma PageIsPower(page: nat)
    requires BasePage(page)
    ensures NextPowerOfTwo(page) == page
  {
    assert DoubleUntil(0x400, page) == page;
    assert DoubleUntil(0x20, page) == DoubleUntil(0x400, page);
    assert DoubleUntil(1, page) == DoubleUntil(0x20, page);
  }

  /** `size_align` never rounds down, never yields zero, is monotone, and applying it
      twice (as `alloc` and `find_free_ram` do by calling `build` again) is harmless. */
  lemma {:induction false} SizeAlignProps(val: nat, page: nat)
    requires BasePage(page)
    ensures SizeAlign(val, page) >= val && SizeAlign(val, page) >= 1
    ensures SizeAlign(SizeAlign(val, page), page) == SizeAlign(val, page)
    ensures val < page ==> SizeAlign(val, page) <= page
  {
    AlignUpLeast(val, page);
    PageIsPower(page);
    if val < page {
      DoubleUntilMonotone(1, val, page);
      DoubleUntilIdempotent(1, val);
      if SizeAlign(val, page) == page { AlignUpFixed(page, page); }
    } else {
      AlignUpFixed(AlignUp(val, page), page);
    }
  }

  lemma SizeAlignMonotone(v: nat, w: nat, page: nat)
    requires BasePage(page) && v <= w
    ensures SizeAlign(v, page) <= SizeAlign(w, page)
  {
    AlignUpLeast(v, page);
    AlignUpLeast(w, page);
    SizeAlignProps(v, page);
    if w < page {
      DoubleUntilMonotone(1, v, w);
    }
  }
}
