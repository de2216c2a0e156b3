/** 32-bit hash values and their reduction to a table size without division (src/bloom.cpp, src/cuckoocache.h). */
module Hashing {
  import opened Numbers

  type Hash = h: nat | h < TWO_32

  /** The upper half of the product spreads the hash values evenly: each position gets those of one interval. */
  function FastMod(h: nat, n: nat): (pos: nat)
    requires h < TWO_32 && n > 0
    ensures pos < n && pos * TWO_32 <= h * n < (pos + 1) * TWO_32
  {
    Product(h, n);
    h * n / TWO_32
  }

  lemma {:induction false} Product(h: nat, n: nat)
    requires h < TWO_32 && n > 0
    ensures 0 <= h * n / TWO_32 < n
  {
    MulMono(h + 1, TWO_32, n);
    Distribute(h, 1, n);
    MulNat(h, n);
    DivBelow(h * n, TWO_32, n);
  }
}
