/** Naturally aligned power-of-two blocks of page frames. */
module Dyadic {
  import opened Bits

  const MAX_ORDER: nat := 11

  datatype Block = Block(pfn: nat, order: nat) {
    function End(): nat { pfn + Pow2(order) }
    predicate Natural() { Aligned(pfn, order) && order <= MAX_ORDER }
    predicate Has(f: nat) { pfn <= f < End() }
    predicate Within(b: Block) { b.pfn <= pfn && End() <= b.End() }
    predicate Apart(b: Block) { End() <= b.pfn || b.End() <= pfn }
    ghost function Frames(): (s: set<nat>)
      ensures forall f :: f in s <==> Has(f)
    {
      set f | pfn <= f < End() && Has(f)
    }
    function Buddy(): Block
      requires Natural()
    {
      Block(Xor(pfn, Pow2(order)), order)
    }
    /** The block of the next order that holds this block and its buddy. */
    function Parent(): Block
      requires Natural()
    {
      if Buddy().pfn < pfn then Block(Buddy().pfn, order + 1) else Block(pfn, order + 1)
    }
    function Left(): Block
      requires order > 0
    {
      Block(pfn, order - 1)
    }
    function Right(): Block
      requires order > 0
    {
      Block(pfn + Pow2(order - 1), order - 1)
    }
  }

  /** Two natural blocks that share a frame are nested. */
  lemma {:induction false} Laminar(a: Block, b: Block, f: nat)
    requires Aligned(a.pfn, a.order) && Aligned(b.pfn, b.order) && a.order <= b.order
    requires a.Has(f) && b.Has(f)
    ensures a.Within(b)
    decreases a.order
  {
    if a.order > 0 {
      var a', b' := Block(a.pfn / 2, a.order - 1), Block(b.pfn / 2, b.order - 1);
      Laminar(a', b', f / 2);
    }
  }

  /** Natural blocks are either apart or nested. */
  lemma ApartOrNested(a: Block, b: Block)
    requires a.Natural() && b.Natural() && a.order <= b.order
    ensures a.Apart(b) || a.Within(b)
    ensures a.order == b.order ==> a.Apart(b) || a == b
  {
    if !a.Apart(b) {
      Laminar(a, b, if a.pfn < b.pfn then b.pfn else a.pfn);
    }
  }

  lemma BuddyFacts(b: Block)
    requires b.Natural()
    ensures b.Buddy().Natural() && b.Buddy().Buddy() == b && b.Buddy() != b
    ensures b.Buddy().Apart(b)
    ensures b.Parent() == b.Buddy().Parent() && Aligned(b.Parent().pfn, b.order + 1)
    ensures forall f :: b.Parent().Has(f) <==> b.Has(f) || b.Buddy().Has(f)
  {
    XorPow2(b.pfn, b.order);
    XorPow2Aligned(b.pfn, b.order);
    XorPow2(b.Buddy().pfn, b.order);
    assert Pow2(b.order + 1) == 2 * Pow2(b.order);
  }

  lemma Halves(b: Block)
    requires b.Natural() && b.order > 0
    ensures b.Left().Natural() && b.Right().Natural()
    ensures b.Left().Buddy() == b.Right() && b.Right().Buddy() == b.Left()
    ensures b.Left().Apart(b.Right()) && b.Left().Within(b) && b.Right().Within(b)
    ensures forall f :: b.Has(f) <==> b.Left().Has(f) || b.Right().Has(f)
  {
    hide Aligned, Xor, Pow2;
    HalfOf(b.order);
    AlignedLess(b.pfn, b.order, b.order - 1);
    AlignedAdd(b.pfn, b.order - 1);
    XorPow2(b.pfn, b.order - 1);
    XorPow2Aligned(b.pfn, b.order - 1);
    BuddyFacts(b.Left());
  }

  lemma HalfOf(o: nat)
    requires o > 0
    ensures Pow2(o) == 2 * Pow2(o - 1)
  {
  }
}
