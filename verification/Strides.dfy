/** Index arithmetic for blocks of equal width laid out one behind the other. */
module Strides {
  /** Where block k of the given width begins: k * width, written as the repeated addition that the
      layout proofs follow. */
  function Stride(width: nat, k: nat): nat {
    if k == 0 then 0 else Stride(width, k - 1) + width
  }

  lemma {:induction false} StrideIsProduct(width: nat, k: nat)
    ensures Stride(width, k) == k * width
  {
    if k > 0 {
      StrideIsProduct(width, k - 1);
      assert (k - 1) * width + width == k * width;
    }
  }

  lemma {:induction false} StrideMonotone(width: nat, j: nat, k: nat)
    requires j < k
    ensures Stride(width, j) + width <= Stride(width, k)
    decreases k
  {
    if j < k - 1 {
      StrideMonotone(width, j, k - 1);
    }
  }

  /** Positions inside blocks are distinct. */
  lemma StrideInjective(width: nat, j: nat, x: nat, k: nat, y: nat)
    requires x < width && y < width
    ensures Stride(width, j) + x == Stride(width, k) + y <==> j == k && x == y
  {
    if j < k {
      StrideMonotone(width, j, k);
    } else if k < j {
      StrideMonotone(width, k, j);
    }
  }
}
