/** Sets of free blocks.  The merge rule of a buddy allocator keeps the set
    canonical: it is a function of the frames it covers. */
module FreeSets {
  import opened Bits
  import opened Dyadic

  ghost predicate Tiling(blocks: set<Block>) {
    && (forall b :: b in blocks ==> b.Natural())
    && (forall a, b :: a in blocks && b in blocks && a != b ==> a.Apart(b))
  }

  /** No block of one set meets a block of the other. */
  ghost predicate Separate(xs: set<Block>, ys: set<Block>) {
    forall a, b :: a in xs && b in ys ==> a.Apart(b)
  }

  ghost predicate NoBuddies(blocks: set<Block>)
    requires forall b :: b in blocks ==> b.Natural()
  {
    forall b :: b in blocks && b.order < MAX_ORDER ==> b.Buddy() !in blocks
  }

  ghost predicate Canonical(blocks: set<Block>) {
    Tiling(blocks) && NoBuddies(blocks)
  }

  ghost function FramesOf(blocks: set<Block>): (s: set<nat>)
    ensures forall f :: f in s <==> exists b :: b in blocks && b.Has(f)
  {
    var r := set b, f | b in blocks && f in b.Frames() :: f;
    assert forall b, f :: b in blocks && b.Has(f) ==> f in b.Frames();
    r
  }

  /** All frames of `b` are in `frames`. */
  ghost predicate Inside(b: Block, frames: set<nat>) {
    forall f :: b.Has(f) ==> f in frames
  }

  /** The maximal natural blocks that fit into a set of frames. */
  ghost predicate IsMaximal(b: Block, frames: set<nat>) {
    && b.Natural() && Inside(b, frames)
    && (b.order < MAX_ORDER ==> !Inside(b.Parent(), frames))
  }

  ghost function Maximal(frames: set<nat>): (blocks: set<Block>)
    ensures forall b :: b in blocks <==> IsMaximal(b, frames)
  {
    var r := set p, o | p in frames && 0 <= o <= MAX_ORDER && IsMaximal(Block(p, o), frames) :: Block(p, o);
    assert forall b :: IsMaximal(b, frames) ==> b.Has(b.pfn) && b == Block(b.pfn, b.order);
    r
  }

  /** In a canonical set, a natural run of free frames lies inside one free block. */
  lemma {:induction false} RunInsideOneBlock(blocks: set<Block>, run: Block) returns (home: Block)
    requires Canonical(blocks) && run.Natural() && Inside(run, FramesOf(blocks))
    ensures home in blocks && run.Within(home) && run.order <= home.order
    decreases run.order
  {
    assert run.Has(run.pfn);
    if run.order == 0 {
      home :| home in blocks && home.Has(run.pfn);
    } else {
      Halves(run);
      var l := RunInsideOneBlock(blocks, run.Left());
      var r := RunInsideOneBlock(blocks, run.Right());
      assert l.Has(run.pfn);
      if l.order >= run.order {
        ApartOrNested(run, l);
        home := l;
      } else {
        ApartOrNested(run.Left(), l);
        assert l == run.Left();
        assert r.Has(run.Right().pfn);
        if r.order >= run.order {
          ApartOrNested(run, r);
          home := r;
        } else {
          ApartOrNested(run.Right(), r);
          assert false;
        }
      }
    }
  }

  lemma MemberIsMaximal(blocks: set<Block>, b: Block)
    requires Canonical(blocks) && b in blocks
    ensures IsMaximal(b, FramesOf(blocks))
  {
    hide Aligned, Xor, Pow2;
    if b.order < MAX_ORDER {
      BuddyFacts(b);
      assert b.Has(b.pfn) && b.Parent().Has(b.pfn);
      if Inside(b.Parent(), FramesOf(blocks)) {
        var home := RunInsideOneBlock(blocks, b.Parent());
        assert false;
      }
    }
  }

  lemma MaximalIsMember(blocks: set<Block>, b: Block)
    requires Canonical(blocks) && IsMaximal(b, FramesOf(blocks))
    ensures b in blocks
  {
    hide Aligned, Xor, Pow2;
    var home := RunInsideOneBlock(blocks, b);
    assert b.Has(b.pfn);
    if home.order == b.order {
      ApartOrNested(b, home);
    } else {
      BuddyFacts(b);
      assert b.Parent().Has(b.pfn);
      ApartOrNested(b.Parent(), home);
      assert false;
    }
  }

  /** A canonical set is exactly the set of maximal blocks of its frames. */
  lemma CanonicalIsMaximal(blocks: set<Block>)
    requires Canonical(blocks)
    ensures blocks == Maximal(FramesOf(blocks))
  {
    forall b | b in blocks ensures IsMaximal(b, FramesOf(blocks)) {
      MemberIsMaximal(blocks, b);
    }
    forall b | IsMaximal(b, FramesOf(blocks)) ensures b in blocks {
      MaximalIsMember(blocks, b);
    }
  }

  /** Two canonical sets over the same frames are equal. */
  lemma CanonicalUnique(a: set<Block>, b: set<Block>)
    requires Canonical(a) && Canonical(b) && FramesOf(a) == FramesOf(b)
    ensures a == b
  {
    CanonicalIsMaximal(a);
    CanonicalIsMaximal(b);
  }

  lemma SeparateFrames(xs: set<Block>, ys: set<Block>)
    ensures Separate(xs, ys) <==> FramesOf(xs) !! FramesOf(ys)
  {
    if FramesOf(xs) !! FramesOf(ys) {
      forall a, b | a in xs && b in ys ensures a.Apart(b) {
        var f := if a.pfn < b.pfn then b.pfn else a.pfn;
        assert a.Has(f) ==> f in FramesOf(xs);
        assert b.Has(f) ==> f in FramesOf(ys);
      }
    }
  }

  /** Gluing two separate tilings. */
  lemma TilingUnion(xs: set<Block>, ys: set<Block>)
    requires Tiling(xs) && Tiling(ys) && Separate(xs, ys)
    ensures Tiling(xs + ys) && xs !! ys
  {
    forall x | x in xs ensures x !in ys {
      assert !x.Apart(x);
    }
  }

  lemma TilingSplit(xs: set<Block>, ys: set<Block>)
    requires Tiling(xs + ys) && xs !! ys
    ensures Tiling(xs) && Tiling(ys) && Separate(xs, ys)
  {
    forall a | a in xs ensures a in xs + ys {}
    forall a | a in ys ensures a in xs + ys {}
  }

  lemma FramesAdd(blocks: set<Block>, b: Block)
    ensures FramesOf(blocks + {b}) == FramesOf(blocks) + b.Frames()
  {}

  lemma SingleFrames(b: Block)
    ensures FramesOf({b}) == b.Frames()
  {}

  lemma FramesUnion(a: set<Block>, b: set<Block>)
    ensures FramesOf(a + b) == FramesOf(a) + FramesOf(b)
  {}

  lemma FramesRemove(blocks: set<Block>, b: Block)
    requires Tiling(blocks) && b in blocks
    ensures FramesOf(blocks - {b}) == FramesOf(blocks) - b.Frames()
  {
    var rest := blocks - {b};
    assert rest + {b} == blocks;
    FramesAdd(rest, b);
    SingleFrames(b);
    SeparateFrames(rest, {b});
  }
}
