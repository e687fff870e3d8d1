/** `compute_aligned_size` from the Vulkan utility module: rounding a byte size up
    to an alignment with `(size + (alignment - 1)) & !(alignment - 1)` in `u32`. */
module Align {
  import opened Wrappers
  import opened Bits

  /** The two ways the `u32` expression panics in a debug build. */
  datatype AlignError = AlignmentUnderflow | SizeOverflow

  /** The source expression, with its subtraction and addition checked and the
      mask applied bit by bit.  Every alignment is accepted, as in the source. */
  function ComputeAlignedSize(size: nat, alignment: nat): (r: Result<nat, AlignError>)
    requires IsU32(size) && IsU32(alignment)
    ensures r.Failure? <==> alignment == 0 || size + alignment - 1 > U32_MAX
    ensures r == Failure(AlignmentUnderflow) <==> alignment == 0
    ensures r.Success? ==> IsU32(r.value)
  {
    if alignment == 0 then Failure(AlignmentUnderflow)
    else if size + (alignment - 1) > U32_MAX then Failure(SizeOverflow)
    else
      BitAndLe(size + (alignment - 1), NotU32(alignment - 1));
      Success(BitAnd(size + (alignment - 1), NotU32(alignment - 1)))
  }

  /** Reference definition: the smallest multiple of `a` that is at least `size`. */
  function RoundUp(size: nat, a: nat): nat
    requires a > 0
  {
    ((size + a - 1) / a) * a
  }

  lemma RoundUpIsLeastMultiple(size: nat, a: nat)
    requires a > 0
    ensures RoundUp(size, a) % a == 0
    ensures size <= RoundUp(size, a) < size + a
    ensures forall m: nat :: m % a == 0 && m >= size ==> RoundUp(size, a) <= m
  {
    var x := size + a - 1;
    var q := x / a;
    assert x == q * a + x % a;
    ModUnique(q * a, a, q, 0);
    forall m: nat | m % a == 0 && m >= size
      ensures q * a <= m
    {
      var j := m / a;
      assert m == j * a;
      assert (q - j) * a == q * a - m;
      MulMonotone(q - j, a);
    }
  }

  /** For a power-of-two alignment that fits in `u32` the mask expression rounds up to
      the next multiple, whenever the sum does not overflow. */
  lemma AlignedSizeRoundsUp(size: nat, k: nat)
    requires IsU32(size) && Pow2(k) <= U32_MAX && size + Pow2(k) - 1 <= U32_MAX
    ensures ComputeAlignedSize(size, Pow2(k)) == Success(RoundUp(size, Pow2(k)))
    ensures RoundUp(size, Pow2(k)) % Pow2(k) == 0
    ensures size <= RoundUp(size, Pow2(k)) < size + Pow2(k)
  {
    var a := Pow2(k);
    var x := size + (a - 1);
    assert BitAnd(x, NotU32(a - 1)) == RoundUp(size, a) by {
      MaskU32(x, k);
      MaskedIsRoundUp(size, a);
    }
    assert ComputeAlignedSize(size, a) == Success(BitAnd(x, NotU32(a - 1)));
    RoundUpIsLeastMultiple(size, a);
  }

  lemma MaskedIsRoundUp(size: nat, a: nat)
    requires a > 0
    ensures size + a - 1 - (size + a - 1) % a == RoundUp(size, a)
  {
    var x := size + a - 1;
    assert x == (x / a) * a + x % a;
  }

  /** Aligning an already aligned size changes nothing, so aligning twice is aligning once. */
  lemma AlignedSizeIdempotent(size: nat, k: nat)
    requires IsU32(size) && Pow2(k) <= U32_MAX && size + Pow2(k) - 1 <= U32_MAX
    ensures var r := RoundUp(size, Pow2(k));
      r + Pow2(k) - 1 <= U32_MAX ==> ComputeAlignedSize(r, Pow2(k)) == Success(r)
  {
    var a := Pow2(k);
    var r := RoundUp(size, a);
    AlignedSizeRoundsUp(size, k);
    if r + a - 1 <= U32_MAX {
      AlignedSizeRoundsUp(r, k);
      RoundUpIsLeastMultiple(r, a);
    }
  }
}
