/**
 * The policy binder: the node mask handed to `mbind` with `MPOL_BIND`.
 * The mask is one `unsigned long`, so it can name nodes 0 to 63 only.
 * Masks are modelled by their value as unsigned numbers: bit i of an
 * `unsigned long` m, `(m >> i) & 1`, is (m / 2^i) % 2.
 */
module PolicyBinder {

  import opened Machine

  /** sizeof(unsigned long) * 8: the bit width of the mask and mbind's maxnode argument. */
  const ULONG_BITS: nat := 64

  function Pow2(k: nat): (r: nat)
    ensures r >= 1
  {
    if k == 0 then 1 else 2 * Pow2(k - 1)
  }

  lemma {:induction false} Pow2Add(a: nat, b: nat)
    ensures Pow2(a + b) == Pow2(a) * Pow2(b)
  {
    if a > 0 {
      Pow2Add(a - 1, b);
      assert Pow2(a + b) == 2 * Pow2(a - 1 + b);
      assert 2 * (Pow2(a - 1) * Pow2(b)) == (2 * Pow2(a - 1)) * Pow2(b);
    }
  }

  lemma {:induction false} Pow2Below(a: nat, b: nat)
    requires a < b
    ensures Pow2(a) < Pow2(b)
  {
    if a < b - 1 {
      Pow2Below(a, b - 1);
    }
  }

  /** 2^(8k) is 256^k. */
  lemma {:induction false} Pow2Bytes(k: nat)
    ensures Pow2(8 * k) == Pow256(k)
  {
    if k > 0 {
      Pow2Bytes(k - 1);
      Pow2Add(8 * (k - 1), 8);
      assert Pow2(8) == 256;
    }
  }

  /** An `unsigned long` holds exactly the numbers below 2^ULONG_BITS. */
  lemma ULongWidth()
    ensures Pow2(ULONG_BITS) == ADDRESS_LIMIT
  {
    Pow2Bytes(HEADER);
    WordWidth();
  }

  /** Whether bit `node` of the mask is set: `(mask >> node) & 1`. */
  predicate HasNode(mask: nat, node: nat) {
    (mask / Pow2(node)) % 2 == 1
  }

  /** A power of two has exactly one bit set. */
  lemma OnlyBit(target: nat, node: nat)
    ensures HasNode(Pow2(target), node) <==> node == target
  {
    var m := Pow2(target);
    if node == target {
      DivModUnique(m, m, 1, 0);
    } else if node < target {
      var d := target - node;
      Pow2Add(d, node);
      DivModUnique(m, Pow2(node), Pow2(d), 0);
      DivModUnique(Pow2(d), 2, Pow2(d - 1), 0);
    } else {
      Pow2Below(target, node);
      DivModUnique(m, Pow2(node), 0, m);
    }
  }

  /** `1UL << target`: a mask that fits an `unsigned long` and allows exactly the target node. */
  function NodeMask(target: nat): (mask: nat)
    requires target < ULONG_BITS
    ensures mask < ADDRESS_LIMIT
    ensures forall node :: HasNode(mask, node) <==> node == target
  {
    Pow2Below(target, ULONG_BITS);
    ULongWidth();
    forall node
      ensures HasNode(Pow2(target), node) <==> node == target
    {
      OnlyBit(target, node);
    }
    Pow2(target)
  }
}
