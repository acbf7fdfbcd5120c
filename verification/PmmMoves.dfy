/** The moves the allocator makes between free blocks and allocations, on sets of
    blocks, and why its merge test can be trusted. */
module PmmMoves {
  import opened Basics
  import opened Bits
  import opened Dyadic
  import opened FreeSets
  import opened PmmSpec
  import opened PmmLists

  lemma SplitTiling(xs: set<Block>, b: Block)
    requires Tiling(xs + {b}) && b !in xs && b.order > 0
    ensures Tiling(xs + {b.Left(), b.Right()}) && b.Left() !in xs && b.Right() !in xs
    ensures FramesOf(xs + {b.Left(), b.Right()}) == FramesOf(xs + {b})
  {
    assert b in xs + {b};
    Halves(b);
    TilingSplit(xs, {b});
    TilingUnion(xs, {b.Left(), b.Right()});
    FramesUnion(xs, {b});
    FramesUnion(xs, {b.Left(), b.Right()});
    assert FramesOf({b}) == FramesOf({b.Left(), b.Right()});
  }

  lemma MergeTiling(xs: set<Block>, b: Block)
    requires b.Natural() && b.order < MAX_ORDER
    requires Tiling(xs + {b, b.Buddy()}) && b !in xs && b.Buddy() !in xs
    ensures Tiling(xs + {b.Parent()}) && b.Parent() !in xs
    ensures FramesOf(xs + {b.Parent()}) == FramesOf(xs + {b, b.Buddy()})
  {
    BuddyFacts(b);
    TilingSplit(xs, {b, b.Buddy()});
    assert FramesOf({b.Parent()}) == FramesOf({b, b.Buddy()});
    SeparateFrames(xs, {b, b.Buddy()});
    SeparateFrames(xs, {b.Parent()});
    TilingUnion(xs, {b.Parent()});
    FramesUnion(xs, {b.Parent()});
    FramesUnion(xs, {b, b.Buddy()});
  }

  /** A free block is taken off its list. */
  lemma Take(s: State, b: Block, managed: set<nat>)
    requires Partition(s, managed) && b in s.free
    ensures Partition(State(s.free - {b}, s.used + {b}), managed) && b !in s.used
  {
    assert s.free - {b} + (s.used + {b}) == s.free + s.used;
  }

  /** The block in hand is halved. */
  lemma Split(s: State, b: Block, managed: set<nat>)
    requires Partition(State(s.free, s.used + {b}), managed) && b !in s.used && b.order > 0
    ensures Partition(State(s.free, s.used + {b.Left(), b.Right()}), managed)
    ensures b.Left() !in s.used && b.Right() !in s.used && b.Left() !in s.free && b.Left() != b.Right()
    ensures b.Right().Natural() && b.Left().Natural() && b.Right().Buddy() == b.Left()
  {
    assert b in s.used + {b} && b in s.free + (s.used + {b});
    var rest := s.free + s.used;
    assert s.free + (s.used + {b}) == rest + {b};
    SplitTiling(rest, b);
    Halves(b);
    assert s.free + (s.used + {b.Left(), b.Right()}) == rest + {b.Left(), b.Right()};
  }

  /** The block in hand absorbs its free buddy. */
  lemma Merge(s: State, b: Block, managed: set<nat>)
    requires Partition(State(s.free, s.used + {b}), managed) && b !in s.used
    requires b.Natural() && b.order < MAX_ORDER && b.Buddy() in s.free
    ensures Partition(State(s.free - {b.Buddy()}, s.used + {b.Parent()}), managed)
    ensures b.Parent() !in s.used && b.Parent().Natural()
  {
    BuddyFacts(b);
    var rest := s.free - {b.Buddy()} + s.used;
    assert s.free + (s.used + {b}) == rest + {b, b.Buddy()};
    MergeTiling(rest, b);
    assert s.free - {b.Buddy()} + (s.used + {b.Parent()}) == rest + {b.Parent()};
  }

  /** The block in hand, whose buddy is not free, becomes free. */
  lemma Finish(s: State, b: Block, managed: set<nat>)
    requires Partition(State(s.free, s.used + {b}), managed) && b !in s.used && b.Natural()
    requires b.order < MAX_ORDER ==> b.Buddy() !in s.free
    ensures Partition(State(s.free + {b}, s.used), managed) && b !in s.free
  {
    assert s.free + {b} + s.used == s.free + (s.used + {b});
    forall c | c in s.free + {b} && c.order < MAX_ORDER ensures c.Buddy() !in s.free + {b} {
      BuddyFacts(c);
    }
  }

  /** Which list each free block is on. */
  ghost predicate Homes(lists: Lists, free: set<Block>) {
    forall b :: b in free <==> IsList(ListOf(b)) && ListOf(b) in lists && b.pfn in lists[ListOf(b)]
  }

  /** Heads of allocations and unmanaged frames are not flagged free.  Nothing
      is said of frames inside a block: their flags and orders may be stale. */
  ghost predicate Flags(pages: seq<Page>, used: set<Block>, managed: set<nat>) {
    && (forall f :: 0 <= f < |pages| && f !in managed ==> FREE !in pages[f].flags)
    && (forall b :: b in used ==> b.pfn < |pages| && FREE !in pages[b.pfn].flags)
  }

  ghost predicate Coherent(pages: seq<Page>, zones: seq<Zone>, lists: Lists, s: State, managed: set<nat>) {
    Linked(pages, zones, lists) && Homes(lists, s.free) && Flags(pages, s.used, managed)
  }

  /** A block in a partition that meets the buddy of `b` starts at that buddy. */
  lemma BuddyFrameIsHead(s: State, b: Block, c: Block, managed: set<nat>)
    requires Partition(State(s.free, s.used + {b}), managed) && b !in s.used
    requires b.Natural() && b.order < MAX_ORDER
    requires c in s.free + s.used && c.Natural() && c.Has(b.Buddy().pfn)
    ensures c.pfn == b.Buddy().pfn && c.order <= b.order
  {
    hide Aligned, Xor;
    BuddyFacts(b);
    var all := s.free + (s.used + {b});
    assert b in all && c in all && (b in s.used + {b});
    assert b !in s.free;
    assert b != c && b.Apart(c);
    var buddy := b.Buddy();
    assert buddy.Has(buddy.pfn) && b.Has(b.pfn) && b.Parent().Has(b.pfn) && b.Parent().Has(buddy.pfn);
    if c.order > b.order {
      Laminar(b.Parent(), c, buddy.pfn);
      assert false;
    } else {
      Laminar(c, buddy, buddy.pfn);
    }
  }

  /** The merge test is exact: flag and order say free block iff the buddy is one,
      and then it is on the same zone's list of that order. */
  lemma MergeTestExact(pages: seq<Page>, zones: seq<Zone>, lists: Lists, s: State, b: Block, managed: set<nat>)
    requires Coherent(pages, zones, lists, s, managed)
    requires Partition(State(s.free, s.used + {b}), managed) && b !in s.used
    requires b.Natural() && b.order < MAX_ORDER && b.Buddy().pfn < |pages|
    ensures FREE in pages[b.Buddy().pfn].flags && pages[b.Buddy().pfn].order == b.order <==> b.Buddy() in s.free
    ensures ListOf(b.Buddy()) == ListOf(b)
    ensures b.Buddy() in s.free ==> ListOf(b) in lists && b.Buddy().pfn in lists[ListOf(b)]
  {
    hide Linked, Homes, Flags, Partition, Aligned;
    var buddy := b.Buddy();
    BuddyFacts(b);
    BuddyInZone(b);
    if buddy in s.free {
      var _ := ListedAt(lists, s.free, buddy);
      OnOneList(pages, zones, lists, ListOf(buddy), buddy.pfn);
    }
    if FREE in pages[buddy.pfn].flags && pages[buddy.pfn].order == b.order {
      var c := FlaggedHead(pages, s, b, managed);
      var _ := ListedAt(lists, s.free, c);
      OnOneList(pages, zones, lists, ListOf(c), c.pfn);
    }
  }

  /** A frame at the buddy's place that is flagged free heads a free block. */
  lemma FlaggedHead(pages: seq<Page>, s: State, b: Block, managed: set<nat>) returns (c: Block)
    requires Flags(pages, s.used, managed) && Partition(State(s.free, s.used + {b}), managed) && b !in s.used
    requires b.Natural() && b.order < MAX_ORDER && b.Buddy().pfn < |pages| && FREE in pages[b.Buddy().pfn].flags
    ensures c in s.free && c.pfn == b.Buddy().pfn
  {
    hide Aligned;
    var buddy := b.Buddy();
    BuddyFacts(b);
    c :| c in s.free + (s.used + {b}) && c.Has(buddy.pfn);
    assert buddy.Has(buddy.pfn);
    assert c in s.free + s.used;
    BuddyFrameIsHead(s, b, c, managed);
  }

  /** Everything else keeps clear of the block in hand. */
  lemma HandApart(free: set<Block>, others: set<Block>, b: Block, managed: set<nat>)
    requires Partition(State(free, others + {b}), managed) && b !in others
    ensures forall c :: c in free || c in others ==> c.Apart(b) && c != b
    ensures b.Natural() && b.pfn in managed
  {
    var all := free + (others + {b});
    assert b in others + {b} && b in all && b.Has(b.pfn);
    forall c | c in free || c in others ensures c.Apart(b) && c != b {
      assert c in all;
    }
  }

  /** Frames of the block in hand are on no free list. */
  lemma NotListed(pages: seq<Page>, zones: seq<Zone>, lists: Lists, s: State, others: set<Block>, b: Block, f: nat,
                  managed: set<nat>)
    requires Coherent(pages, zones, lists, s, managed)
    requires Partition(State(s.free, others + {b}), managed) && b !in others && b.Has(f)
    ensures forall id :: id in lists ==> f !in lists[id]
  {
    HandApart(s.free, others, b, managed);
    hide Partition, Linked;
    forall id | id in lists ensures f !in lists[id] {
      var c := Block(f, id.order);
      assert c.Has(f) && c !in s.free;
      if f in lists[id] {
        OnOneList(pages, zones, lists, id, f);
        assert false;
      }
    }
  }

  /** Writing a descriptor of the block in hand, not flagged free unless it was. */
  lemma TouchCoherent(pages: seq<Page>, zones: seq<Zone>, lists: Lists, s: State, others: set<Block>, b: Block, f: nat,
                      page: Page, managed: set<nat>)
    requires Coherent(pages, zones, lists, s, managed)
    requires s.used <= others && Partition(State(s.free, others + {b}), managed)
    requires b !in others && b.Has(f) && f < |pages|
    requires FREE in page.flags ==> FREE in pages[f].flags
    ensures Coherent(pages[f := page], zones, lists, s, managed)
  {
    NotListed(pages, zones, lists, s, others, b, f, managed);
    TouchLinked(pages, zones, lists, f, page);
  }

  lemma PushCoherent(pages: seq<Page>, zones: seq<Zone>, lists: Lists, s: State, others: set<Block>, b: Block,
                     managed: set<nat>)
    requires Coherent(pages, zones, lists, s, managed)
    requires s.used <= others && Partition(State(s.free, others + {b}), managed) && b !in others && b.Natural()
    requires b.pfn < |pages|
    ensures Head(pages, zones, ListOf(b)) && ListOf(b) in lists
    ensures Coherent(Pushed(pages, b.pfn, b.order, zones[ZoneOf(b.pfn)].freeList[b.order]),
                     zones[ZoneOf(b.pfn) := PushedZone(zones[ZoneOf(b.pfn)], b.order, b.pfn)],
                     lists[ListOf(b) := [b.pfn] + lists[ListOf(b)]], State(s.free + {b}, s.used), managed)
  {
    hide Partition, Linked, Homes, Flags, Pushed, PushedZone, FramesOf;
    assert b.Has(b.pfn);
    NotListed(pages, zones, lists, s, others, b, b.pfn, managed);
    HandApart(s.free, others, b, managed);
    HasList(pages, zones, lists, b);
    PushLinked(pages, zones, lists, ListOf(b), b.pfn);
    PushFlags(pages, s.used, b, zones[ZoneOf(b.pfn)].freeList[b.order], managed);
    PushHomes(lists, s.free, b);
  }

  lemma HasList(pages: seq<Page>, zones: seq<Zone>, lists: Lists, b: Block)
    requires Linked(pages, zones, lists) && IsList(ListOf(b))
    ensures ListOf(b) in lists && Distinct(lists[ListOf(b)])
  {
    assert Chain(pages, zones[ZoneOf(b.pfn)], ListOf(b), lists[ListOf(b)]);
  }

  lemma PushHomes(lists: Lists, free: set<Block>, b: Block)
    requires Homes(lists, free) && ListOf(b) in lists && IsList(ListOf(b))
    ensures Homes(lists[ListOf(b) := [b.pfn] + lists[ListOf(b)]], free + {b})
  {
    var lists' := lists[ListOf(b) := [b.pfn] + lists[ListOf(b)]];
    forall c ensures c in free + {b} <==> IsList(ListOf(c)) && ListOf(c) in lists' && c.pfn in lists'[ListOf(c)] {
      assert c == b <==> ListOf(c) == ListOf(b) && c.pfn == b.pfn;
    }
  }

  lemma PushFlags(pages: seq<Page>, used: set<Block>, b: Block, head: int, managed: set<nat>)
    requires Flags(pages, used, managed) && b.pfn < |pages| && b.pfn in managed
    requires head == NULL || 0 <= head < |pages|
    requires forall u :: u in used ==> u.Apart(b)
    ensures Flags(Pushed(pages, b.pfn, b.order, head), used, managed)
  {
    var pages' := Pushed(pages, b.pfn, b.order, head);
    assert forall f :: 0 <= f < |pages| && f != b.pfn ==> pages'[f].flags == pages[f].flags;
    forall u | u in used ensures u.pfn != b.pfn {
      assert u.Apart(b);
    }
  }

  lemma UnlinkCoherent(pages: seq<Page>, zones: seq<Zone>, lists: Lists, s: State, b: Block, managed: set<nat>)
    returns (i: nat)
    requires Coherent(pages, zones, lists, s, managed) && b in s.free
    ensures ListOf(b) in lists && i < |lists[ListOf(b)]| && lists[ListOf(b)][i] == b.pfn
    ensures Neighbours(pages, b.pfn) && Head(pages, zones, ListOf(b))
    ensures zones[ZoneOf(b.pfn)].freeCount[b.order] > 0
    ensures Coherent(Unlinked(pages, b.pfn),
                     zones[ZoneOf(b.pfn) := UnlinkedZone(zones[ZoneOf(b.pfn)], b.order, pages[b.pfn])],
                     lists[ListOf(b) := RemoveAt(lists[ListOf(b)], i)], State(s.free - {b}, s.used), managed)
  {
    hide Linked, Homes, Flags, RemoveAt, Unlinked, UnlinkedZone;
    i := ListedAt(lists, s.free, b);
    HasList(pages, zones, lists, b);
    UnlinkLinked(pages, zones, lists, ListOf(b), i);
    UnlinkHomes(lists, s.free, b, i);
    UnlinkFlags(pages, s.used, b.pfn, managed);
  }

  lemma ListedAt(lists: Lists, free: set<Block>, b: Block) returns (i: nat)
    requires Homes(lists, free) && b in free
    ensures IsList(ListOf(b)) && ListOf(b) in lists && i < |lists[ListOf(b)]| && lists[ListOf(b)][i] == b.pfn
  {
    i :| 0 <= i < |lists[ListOf(b)]| && lists[ListOf(b)][i] == b.pfn;
  }

  lemma UnlinkHomes(lists: Lists, free: set<Block>, b: Block, i: nat)
    requires Homes(lists, free) && b in free && ListOf(b) in lists
    requires i < |lists[ListOf(b)]| && lists[ListOf(b)][i] == b.pfn && Distinct(lists[ListOf(b)])
    ensures Homes(lists[ListOf(b) := RemoveAt(lists[ListOf(b)], i)], free - {b})
  {
    hide Distinct, RemoveAt;
    RemoveAtMembers(lists[ListOf(b)], i);
    var lists' := lists[ListOf(b) := RemoveAt(lists[ListOf(b)], i)];
    forall c ensures c in free - {b} <==> IsList(ListOf(c)) && ListOf(c) in lists' && c.pfn in lists'[ListOf(c)] {
      assert c == b <==> ListOf(c) == ListOf(b) && c.pfn == b.pfn;
    }
  }

  lemma UnlinkFlags(pages: seq<Page>, used: set<Block>, p: nat, managed: set<nat>)
    requires Flags(pages, used, managed) && Neighbours(pages, p)
    ensures Flags(Unlinked(pages, p), used, managed)
  {
    assert forall f :: 0 <= f < |pages| ==> Unlinked(pages, p)[f].flags == pages[f].flags;
  }

  /** What leaving a partition for another one says about the frames involved. */
  lemma AllocatedSpec(s: State, s': State, b: Block, managed: set<nat>)
    requires Partition(s, managed) && Partition(s', managed) && s'.used == s.used + {b} && b !in s.used
    ensures Allocates(s, b, s')
  {
    FreeFromUsed(s, managed);
    FreeFromUsed(s', managed);
    AllocatedFrames(s, s', b, managed);
  }

  lemma AllocatedFrames(s: State, s': State, b: Block, managed: set<nat>)
    requires Tiling(s'.free + s'.used) && s'.free !! s'.used && FramesOf(s'.free + s'.used) == managed
    requires FramesOf(s.free) == managed - FramesOf(s.used) && s'.used == s.used + {b} && b !in s.used
    ensures b.Natural() && Inside(b, FramesOf(s.free))
    ensures managed - FramesOf(s'.used) == FramesOf(s.free) - b.Frames()
  {
    TilingSplit(s'.free, s'.used);
    TilingSplit(s.used, {b});
    SeparateFrames(s.used, {b});
    SingleFrames(b);
    FramesUnion(s.used, {b});
    FramesUnion(s'.free, s'.used);
    assert b in s'.used;
  }

  lemma ReleasedSpec(s: State, s': State, b: Block, managed: set<nat>)
    requires Partition(s, managed) && Partition(s', managed) && b in s.used && s'.used == s.used - {b}
    ensures Releases(s, b, s')
  {
    FreeFromUsed(s, managed);
    FreeFromUsed(s', managed);
    TilingSplit(s.free, s.used);
    ReleasedFrames(s, b, managed);
  }

  /** Frames not yet handed to the allocator, as single-frame blocks. */
  ghost function Units(frames: set<nat>): (blocks: set<Block>)
    ensures forall b :: b in blocks <==> b.order == 0 && b.pfn in frames
  {
    var r := set f | f in frames :: Block(f, 0);
    assert forall b: Block :: b.order == 0 && b.pfn in frames ==> b == Block(b.pfn, 0);
    r
  }

  lemma UnitsAdd(frames: set<nat>, f: nat)
    ensures Units(frames + {f}) == Units(frames) + {Block(f, 0)}
  {
    forall b ensures b in Units(frames + {f}) <==> b in Units(frames) + {Block(f, 0)} {
      assert b == Block(b.pfn, b.order);
    }
  }

  lemma UnitsTile(frames: set<nat>)
    ensures Tiling(Units(frames)) && FramesOf(Units(frames)) == frames
  {
    UnitsApart(frames);
    UnitsCover(frames);
  }

  lemma UnitsApart(frames: set<nat>)
    ensures Tiling(Units(frames))
  {
    forall b | b in Units(frames) ensures b.Natural() && b.End() == b.pfn + 1 {}
  }

  lemma UnitCovered(frames: set<nat>, f: nat)
    ensures f in FramesOf(Units(frames)) <==> f in frames
  {
    var b := Block(f, 0);
    assert b.Has(f) && (f in frames ==> b in Units(frames));
  }

  lemma UnitsCover(frames: set<nat>)
    ensures FramesOf(Units(frames)) == frames
  {
    forall f: nat ensures f in FramesOf(Units(frames)) <==> f in frames { UnitCovered(frames, f); }
  }

  /** A block's worth of untouched frames comes into hand. */
  lemma Gather(free: set<Block>, rest: set<nat>, b: Block, managed: set<nat>)
    requires Partition(State(free, Units(rest)), managed)
    requires b.Natural() && b.Frames() <= rest
    ensures Partition(State(free, Units(rest - b.Frames()) + {b}), managed)
    ensures b !in Units(rest - b.Frames())
  {
    UnitsAndBlock(rest, b);
    UnitsTile(rest);
    Retile(free, Units(rest), Units(rest - b.Frames()) + {b});
  }

  lemma UnitsAndBlock(rest: set<nat>, b: Block)
    requires b.Natural() && b.Frames() <= rest
    ensures Tiling(Units(rest - b.Frames()) + {b}) && b !in Units(rest - b.Frames())
    ensures FramesOf(Units(rest - b.Frames()) + {b}) == rest
  {
    var left := Units(rest - b.Frames());
    UnitsTile(rest - b.Frames());
    SingleFrames(b);
    SeparateFrames(left, {b});
    TilingUnion(left, {b});
    FramesUnion(left, {b});
  }

  /** Part of a tiling may be replaced by another tiling of the same frames. */
  lemma Retile(free: set<Block>, xs: set<Block>, ys: set<Block>)
    requires Tiling(free + xs) && free !! xs && Tiling(ys) && FramesOf(xs) == FramesOf(ys)
    ensures Tiling(free + ys) && free !! ys && FramesOf(free + ys) == FramesOf(free + xs)
  {
    TilingSplit(free, xs);
    SeparateFrames(free, xs);
    SeparateFrames(free, ys);
    TilingUnion(free, ys);
    FramesUnion(free, xs);
    FramesUnion(free, ys);
  }

  /** No larger natural block starts at `b` and ends by `end`. */
  predicate Greedy(b: Block, end: nat) {
    b.order == MAX_ORDER || !Aligned(b.pfn, b.order + 1) || b.pfn + Pow2(b.order + 1) > end
  }

  /** A greedy tile laid before `b` is not its buddy. */
  lemma GreedyNotBuddy(tile: Block, b: Block, end: nat)
    requires tile.Natural() && b.Natural() && b.order < MAX_ORDER
    requires Greedy(tile, end) && tile.End() <= b.pfn && b.End() <= end
    ensures b.Buddy() != tile
  {
    XorPow2(b.pfn, b.order);
    if !Aligned(b.pfn, b.order + 1) { AlignedClear(b.pfn, b.order); }
    assert Pow2(b.order + 1) == 2 * Pow2(b.order);
  }
}
