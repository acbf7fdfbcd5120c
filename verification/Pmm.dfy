/** The buddy page-frame allocator: page descriptors and zone free lists updated
    in place, proved to take the steps of PmmSpec. */
module Pmm {
  import opened Basics
  import opened Bits
  import opened Dyadic
  import opened FreeSets
  import opened PmmSpec
  import opened PmmLists
  import opened PmmMoves

  const PAGE_SIZE: nat := 4096
  const LOWEST_PFN: nat := 256         // memory below 1 MB is never managed
  const PAGE_ARRAY_SIZE: nat := 262144

  function PhysToPfn(phys: nat): nat { phys / PAGE_SIZE }
  function PfnToPhys(pfn: nat): nat { pfn * PAGE_SIZE }

  function SelectZone(phys: nat): nat {
    if phys < 16 * 1024 * 1024 then DMA
    else if phys < 896 * 1024 * 1024 then NORMAL
    else HIGHMEM
  }

  /** The zone a block is freed into is the zone it came from. */
  lemma SelectZoneOfPfn(phys: nat)
    ensures SelectZone(phys) == ZoneOf(PhysToPfn(phys))
  {}

  datatype Range = Range(start: nat, end: nat) {
    predicate Has(f: nat) { start <= f < end }
    ghost function Frames(): (s: set<nat>)
      ensures forall f :: f in s <==> Has(f)
    {
      set f | start <= f < end && Has(f)
    }
  }

  ghost predicate InZone(r: Range, zone: nat, total: nat) {
    r.end <= total && LOWEST_PFN <= r.start && forall f :: r.Has(f) ==> ZoneOf(f) == zone
  }

  ghost function FramesIn(ranges: seq<Range>): (s: set<nat>)
    ensures forall f :: f in s <==> exists z :: 0 <= z < |ranges| && ranges[z].Has(f)
  {
    var s := set z, f | 0 <= z < |ranges| && ranges[z].start <= f < ranges[z].end && ranges[z].Has(f) :: f;
    s
  }

  function EmptyZone(): Zone {
    Zone(seq(MAX_ORDER + 1, _ => NULL), seq(MAX_ORDER + 1, _ => 0), 0)
  }

  ghost function EmptyLists(): Lists {
    map z, o | 0 <= z <= HIGHMEM && 0 <= o <= MAX_ORDER :: ListId(z, o) := []
  }

  lemma {:induction false} NoPages(counts: seq<nat>)
    requires forall i :: 0 <= i < |counts| ==> counts[i] == 0
    ensures PagesIn(counts) == 0
  {
    if counts != [] { NoPages(counts[..|counts| - 1]); }
  }

  lemma NothingListed(pages: seq<Page>, managed: set<nat>)
    requires forall f :: 0 <= f < |pages| && f !in managed ==> FREE !in pages[f].flags
    ensures Coherent(pages, seq(HIGHMEM + 1, _ => EmptyZone()), EmptyLists(), State({}, {}), managed)
    ensures Partition(State({}, Units(managed)), managed)
  {
    NoPages(EmptyZone().freeCount);
    forall id ensures id in EmptyLists() <==> IsList(id) {
      assert id == ListId(id.zone, id.order);
    }
    UnitsTile(managed);
    assert {} + Units(managed) == Units(managed);
  }

  lemma RangesManaged(ranges: seq<Range>, total: nat)
    requires forall z :: 0 <= z < |ranges| ==> z <= HIGHMEM && InZone(ranges[z], z, total)
    ensures forall f :: f in FramesIn(ranges) ==> LOWEST_PFN <= f < total
  {}

  /** Frame `p` heads a free block of the zone, the smallest that can hold 2^order frames. */
  ghost predicate BestFit(free: set<Block>, zone: nat, order: nat, p: nat) {
    exists o :: order <= o && Block(p, o) in free && ZoneOf(p) == zone && NoneBetween(free, zone, order, o)
  }

  /** No free block of the zone has an order from `order` up to below `o`. */
  ghost predicate NoneBetween(free: set<Block>, zone: nat, order: nat, o: nat) {
    forall b :: b in free && ZoneOf(b.pfn) == zone && order <= b.order ==> o <= b.order
  }

  /** Reference counts are as they were. */
  ghost predicate RefsKept(was: seq<Page>, now: seq<Page>) {
    |was| == |now| && forall f :: 0 <= f < |was| ==> now[f].refCount == was[f].refCount
  }

  /** ... but for frame `p`, whose count is `n`. */
  ghost predicate RefsSet(was: seq<Page>, now: seq<Page>, p: nat, n: nat) {
    |was| == |now| && forall f :: 0 <= f < |was| ==> now[f].refCount == if f == p then n else was[f].refCount
  }

  lemma PushedRefs(pages: seq<Page>, p: nat, order: nat, head: int)
    requires p < |pages| && (head != NULL ==> 0 <= head < |pages|)
    ensures RefsKept(pages, Pushed(pages, p, order, head))
  {}

  lemma UnlinkedRefs(pages: seq<Page>, p: nat)
    requires Neighbours(pages, p)
    ensures RefsKept(pages, Unlinked(pages, p))
  {}

  lemma KeptSame(a: seq<Page>)
    ensures RefsKept(a, a)
  {}

  lemma KeptThenSet(a: seq<Page>, b: seq<Page>, p: nat, page: Page)
    requires RefsKept(a, b) && p < |b|
    ensures RefsSet(a, b[p := page], p, page.refCount)
  {}

  lemma KeptBeforeSet(a: seq<Page>, b: seq<Page>, c: seq<Page>, p: nat, n: nat)
    requires RefsKept(a, b) && RefsSet(b, c, p, n)
    ensures RefsSet(a, c, p, n)
  {}

  lemma SetThenSame(a: seq<Page>, b: seq<Page>, p: nat, n: nat, f: nat, page: Page)
    requires RefsSet(a, b, p, n) && f < |b| && page.refCount == b[f].refCount
    ensures RefsSet(a, b[f := page], p, n)
  {}

  lemma KeptThenKept(a: seq<Page>, b: seq<Page>, c: seq<Page>)
    requires RefsKept(a, b) && RefsKept(b, c)
    ensures RefsKept(a, c)
  {}

  lemma SetThenKept(a: seq<Page>, b: seq<Page>, c: seq<Page>, p: nat, n: nat)
    requires RefsSet(a, b, p, n) && RefsKept(b, c)
    ensures RefsSet(a, c, p, n)
  {}

  class Pmm {
    const pageArray: array<Page>
    const zones: array<Zone>
    var totalFrames: nat
    var ready: bool
    ghost var lists: Lists
    ghost var state: State
    ghost var managed: set<nat>

    ghost predicate Intact()
      reads this, pageArray, zones
    {
      && Coherent(pageArray[..], zones[..], lists, state, managed)
      && totalFrames <= pageArray.Length <= PAGE_ARRAY_SIZE
      && (forall f :: f in managed ==> LOWEST_PFN <= f < totalFrames)
    }

    ghost predicate Valid()
      reads this, pageArray, zones
    {
      Intact() && Partition(state, managed)
    }

    /** `b` has been taken from the free blocks or the allocations and not yet put back. */
    ghost predicate InHand(b: Block)
      reads this, pageArray, zones
    {
      Intact() && b !in state.used && Partition(State(state.free, state.used + {b}), managed)
      && b.Natural() && LOWEST_PFN <= b.pfn < totalFrames
    }

    lemma InHandBounds(b: Block)
      requires Intact() && b !in state.used && Partition(State(state.free, state.used + {b}), managed)
      ensures InHand(b) && b.End() <= totalFrames && b.Frames() <= managed
    {
      var all := state.free + (state.used + {b});
      assert b in state.used + {b} && b in all;
      assert b.Has(b.pfn) && b.Has(b.End() - 1);
      assert b.pfn in FramesOf(all) && b.End() - 1 in FramesOf(all);
    }

    lemma BeginFree(b: Block)
      requires Valid() && b in state.used
      ensures state.used - {b} + {b} == state.used
      ensures b.Natural() && LOWEST_PFN <= b.pfn < totalFrames
      ensures Coherent(pageArray[..], zones[..], lists, State(state.free, state.used - {b}), managed)
    {
      var all := state.free + state.used;
      assert b in all && b.Has(b.pfn);
      assert b.pfn in FramesOf(all);
    }

    lemma EndAlloc(b: Block)
      requires InHand(b) && FREE !in pageArray[b.pfn].flags
      ensures Coherent(pageArray[..], zones[..], lists, State(state.free, state.used + {b}), managed)
    {}

    lemma BuddyUnmanaged(b: Block)
      requires InHand(b) && b.order < MAX_ORDER && b.Buddy().pfn >= totalFrames
      ensures b.Buddy() !in state.free
    {
      var all := state.free + (state.used + {b});
      BuddyFacts(b);
      assert b.Buddy().Has(b.Buddy().pfn) && b.Buddy().pfn !in FramesOf(all);
      assert state.free <= all;
    }

    /** Frame facts of a merge about to happen. */
    lemma MergeInHand(b: Block)
      requires InHand(b) && b.order < MAX_ORDER && b.Buddy() in state.free
      ensures b.Parent() !in state.used && b.Parent().Has(b.Buddy().pfn)
      ensures Partition(State(state.free - {b.Buddy()}, state.used + {b.Parent()}), managed)
      ensures ZoneOf(b.Parent().pfn) == ZoneOf(b.Buddy().pfn) == ZoneOf(b.pfn)
    {
      Merge(state, b, managed);
      BuddyFacts(b);
      BuddyInZone(b);
      assert b.Buddy().Has(b.Buddy().pfn);
    }

    lemma SplitInHand(b: Block)
      requires InHand(b) && b.order > 0
      ensures b.Right().pfn < totalFrames && ZoneOf(b.Right().pfn) == ZoneOf(b.pfn)
      ensures state.used + {b.Left()} + {b.Right()} == state.used + {b.Left(), b.Right()}
    {
      InHandBounds(b);
      Halves(b);
      assert b.Right().Has(b.Right().pfn);
      BlockInOneZone(b, b.Right().pfn);
    }

    /** The descriptor writes that link `p` in as the head of a free list. */
    method LinkIn(zone: nat, order: nat, p: nat)
      requires Head(pageArray[..], zones[..], ListId(zone, order)) && p < pageArray.Length
      modifies pageArray, zones
      ensures pageArray[..] == Pushed(old(pageArray[..]), p, order, old(zones[zone].freeList[order]))
      ensures zones[..] == old(zones[..])[zone := PushedZone(old(zones[zone]), order, p)]
    {
      var head := zones[zone].freeList[order];
      pageArray[p] := pageArray[p].(flags := {FREE}, order := order, next := head, prev := NULL);
      if head != NULL {
        pageArray[head] := pageArray[head].(prev := p);
      }
      zones[zone] := PushedZone(zones[zone], order, p);
    }

    /** The descriptor writes that take `p` out of a free list. */
    method LinkOut(zone: nat, order: nat, p: nat)
      requires Head(pageArray[..], zones[..], ListId(zone, order)) && Neighbours(pageArray[..], p)
      requires zones[zone].freeCount[order] > 0
      modifies pageArray, zones
      ensures pageArray[..] == Unlinked(old(pageArray[..]), p)
      ensures zones[..] == old(zones[..])[zone := UnlinkedZone(old(zones[zone]), order, old(pageArray[p]))]
    {
      var page := pageArray[p];
      zones[zone] := UnlinkedZone(zones[zone], order, page);
      if page.prev != NULL {
        pageArray[page.prev] := pageArray[page.prev].(next := page.next);
      }
      if page.next != NULL {
        pageArray[page.next] := pageArray[page.next].(prev := page.prev);
      }
    }

    /** Make a block in hand, whose buddy is not free, the head of its free list. */
    method PushFront(zone: nat, order: nat, p: nat, ghost others: set<Block>)
      requires Intact() && zone == ZoneOf(p) && p < totalFrames
      requires CanFree(Block(p, order), others)
      modifies `lists, `state, pageArray, zones
      ensures Intact() && state == State(old(state.free) + {Block(p, order)}, old(state.used))
      ensures Partition(State(state.free, others), managed) && RefsKept(old(pageArray[..]), pageArray[..])
    {
      hide Coherent, Partition, Pushed, PushedZone, RefsKept;
      ghost var b := Block(p, order);
      PushCoherent(pageArray[..], zones[..], lists, state, others, b, managed);
      PushedRefs(pageArray[..], p, order, zones[zone].freeList[order]);
      LinkIn(zone, order, p);
      lists := lists[ListOf(b) := [p] + lists[ListOf(b)]];
      state := State(state.free + {b}, state.used);
      Finish(State(old(state.free), others), b, managed);
    }

    ghost predicate CanFree(b: Block, others: set<Block>)
      reads this
    {
      && b.Natural() && b !in others && state.used <= others && Partition(State(state.free, others + {b}), managed)
      && (b.order < MAX_ORDER ==> b.Buddy() !in state.free)
    }

    method Unlink(zone: nat, order: nat, p: nat)
      requires Intact() && Block(p, order) in state.free && zone == ZoneOf(p)
      modifies `lists, `state, pageArray, zones
      ensures Intact() && state == State(old(state.free) - {Block(p, order)}, old(state.used))
      ensures RefsKept(old(pageArray[..]), pageArray[..])
    {
      hide Coherent, Unlinked, UnlinkedZone, RemoveAt, RefsKept;
      ghost var b := Block(p, order);
      ghost var i := UnlinkCoherent(pageArray[..], zones[..], lists, state, b, managed);
      UnlinkedRefs(pageArray[..], p);
      LinkOut(zone, order, p);
      lists := lists[ListOf(b) := RemoveAt(lists[ListOf(b)], i)];
      state := State(state.free - {b}, state.used);
    }

    /** Rewrite a descriptor of the block in hand. */
    method Touch(ghost b: Block, f: nat, page: Page)
      requires InHand(b) && b.Has(f) && f < pageArray.Length
      requires FREE in page.flags ==> FREE in pageArray[f].flags
      modifies pageArray
      ensures pageArray[..] == old(pageArray[..])[f := page]
      ensures InHand(b)
    {
      TouchCoherent(pageArray[..], zones[..], lists, state, state.used, b, f, page, managed);
      pageArray[f] := page;
      assert pageArray[..] == old(pageArray[..])[f := page];
    }

    lemma ListsInRange(zone: nat)
      requires Intact() && zone <= HIGHMEM
      ensures zones.Length == HIGHMEM + 1 && |zones[zone].freeList| == MAX_ORDER + 1
    {
      assert ZoneShape(zones[..][zone]);
    }

    lemma EmptyList(zone: nat, order: nat)
      requires Intact() && IsList(ListId(zone, order))
      ensures order < |zones[zone].freeList|
      ensures zones[zone].freeList[order] == NULL ==>
        forall b :: b in state.free && ZoneOf(b.pfn) == zone ==> b.order != order
    {
      var id := ListId(zone, order);
      assert Chain(pageArray[..], zones[zone], id, lists[id]);
    }

    /** The smallest order from `order` up whose list is not empty. */
    method SmallestOrder(zone: nat, order: nat) returns (found: nat)
      requires Valid() && zone <= HIGHMEM
      ensures found >= order
      ensures found <= MAX_ORDER ==> zones[zone].freeList[found] != NULL
      ensures found > MAX_ORDER <==> !HasRun(state.free, zone, order)
      ensures NoneBetween(state.free, zone, order, found)
    {
      RunIffLargeBlock(state.free, zone, order);
      hide Partition, Coherent, HasRun;
      found := order;
      ListsInRange(zone);
      while found <= MAX_ORDER && zones[zone].freeList[found] == NULL
        invariant order <= found
        invariant NoneBetween(state.free, zone, order, found)
      {
        EmptyList(zone, found);
        found := found + 1;
      }
      if found <= MAX_ORDER {
        var p := FirstOnList(zone, found);
      }
    }

    /** Find and take the first block of the smallest sufficient order. */
    method TakeSmallest(zone: nat, order: nat) returns (found: nat, p: nat)
      requires Valid() && zone <= HIGHMEM
      modifies `lists, `state, pageArray, zones
      ensures found > MAX_ORDER <==> !HasRun(old(state.free), zone, order)
      ensures found > MAX_ORDER ==> Valid() && state == old(state)
      ensures found <= MAX_ORDER ==>
        order <= found && ZoneOf(p) == zone && InHand(Block(p, found)) && state.used == old(state.used)
      ensures found <= MAX_ORDER ==> BestFit(old(state.free), zone, order, p)
      ensures RefsKept(old(pageArray[..]), pageArray[..])
    {
      hide HasRun, FramesOf, Inside, Canonical;
      found := SmallestOrder(zone, order);
      p := 0;
      if found <= MAX_ORDER {
        p := FirstOnList(zone, found);
        Take(state, Block(p, found), managed);
        Unlink(zone, found, p);
        InHandBounds(Block(p, found));
      }
    }

    method FirstOnList(zone: nat, order: nat) returns (p: nat)
      requires Intact() && IsList(ListId(zone, order)) && zones[zone].freeList[order] != NULL
      ensures Block(p, order) in state.free && ZoneOf(p) == zone
    {
      ghost var id := ListId(zone, order);
      assert Chain(pageArray[..], zones[zone], id, lists[id]);
      p := zones[zone].freeList[order];
      assert p in lists[id];
      OnOneList(pageArray[..], zones[..], lists, id, p);
      assert ListOf(Block(p, order)) == id;
    }

    /** Halve the block in hand down to `order`, freeing right halves. */
    method SplitDown(zone: nat, found: nat, order: nat, p: nat)
      requires order <= found && ZoneOf(p) == zone && InHand(Block(p, found))
      modifies `lists, `state, pageArray, zones
      ensures InHand(Block(p, order)) && state.used == old(state.used)
      ensures RefsKept(old(pageArray[..]), pageArray[..])
    {
      hide Partition, Coherent, RefsKept;
      KeptSame(pageArray[..]);
      var o := found;
      while o > order
        invariant order <= o && InHand(Block(p, o)) && state.used == old(state.used)
        invariant RefsKept(old(pageArray[..]), pageArray[..])
      {
        ghost var before := pageArray[..];
        ghost var b := Block(p, o);
        o := o - 1;
        var buddyPfn := p + Pow2(o);
        Split(state, b, managed);
        SplitInHand(b);
        if buddyPfn < totalFrames {
          PushFront(zone, o, buddyPfn, state.used + {b.Left()});
          KeptThenKept(old(pageArray[..]), before, pageArray[..]);
        }
        InHandBounds(b.Left());
      }
    }

    /** Allocate 2^order frames from a zone: the smallest sufficient block, halved down. */
    method BuddyAlloc(zone: nat, order: nat) returns (phys: nat)
      requires Valid() && zone <= HIGHMEM
      modifies `lists, `state, pageArray, zones
      ensures Valid()
      ensures phys == 0 <==> !HasRun(old(state.free), zone, order)
      ensures phys == 0 ==> state == old(state)
      ensures phys != 0 ==>
        phys % PAGE_SIZE == 0 && BestFit(old(state.free), zone, order, PhysToPfn(phys)) &&
        Allocates(old(state), Block(PhysToPfn(phys), order), state)
      ensures if phys == 0 then RefsKept(old(pageArray[..]), pageArray[..])
        else RefsSet(old(pageArray[..]), pageArray[..], PhysToPfn(phys), 1)
    {
      hide Coherent, Partition, Allocates, HasRun, NoneBetween, RefsKept, RefsSet;
      var found, p := TakeSmallest(zone, order);
      if found > MAX_ORDER { return 0; }
      ghost var taken := pageArray[..];
      SplitDown(zone, found, order, p);
      KeptThenKept(old(pageArray[..]), taken, pageArray[..]);
      ghost var page := pageArray[p].(flags := pageArray[p].flags - {FREE}, order := order, refCount := 1);
      KeptThenSet(old(pageArray[..]), pageArray[..], p, page);
      ghost var b := Block(p, order);
      Touch(b, p, pageArray[p].(flags := pageArray[p].flags - {FREE}, order := order, refCount := 1));
      EndAlloc(b);
      state := State(state.free, state.used + {b});
      AllocatedSpec(old(state), state, b, managed);
      phys := PfnToPhys(p);
    }

    /** Give an outstanding allocation back, merging with free buddies on the way up. */
    method BuddyFree(zone: nat, phys: nat, order: nat)
      requires Valid() && zone == ZoneOf(PhysToPfn(phys))
      requires PhysToPfn(phys) < totalFrames ==> Block(PhysToPfn(phys), order) in state.used
      modifies `lists, `state, pageArray, zones
      ensures Valid()
      ensures if PhysToPfn(phys) < totalFrames
              then Releases(old(state), Block(PhysToPfn(phys), order), state)
              else state == old(state)
      ensures PhysToPfn(phys) < totalFrames ==> RefsSet(old(pageArray[..]), pageArray[..], PhysToPfn(phys), 0)
    {
      hide Coherent, Partition, Releases, RefsKept, RefsSet;
      KeptSame(pageArray[..]);
      var pfn := PhysToPfn(phys);
      if pfn >= totalFrames { return; }
      ghost var b := Block(pfn, order);
      BeginFree(b);
      state := State(state.free, state.used - {b});
      KeptThenSet(pageArray[..], pageArray[..], pfn, pageArray[pfn].(refCount := 0));
      Touch(b, pfn, pageArray[pfn].(refCount := 0));
      var o := order;
      while o < MAX_ORDER
        invariant InHand(Block(pfn, o)) && ZoneOf(pfn) == zone
        invariant state.used == old(state.used) - {b}
        invariant RefsSet(old(pageArray[..]), pageArray[..], b.pfn, 0)
        decreases MAX_ORDER - o
      {
        ghost var before := pageArray[..];
        var bPfn := Xor(pfn, Pow2(o));
        ghost var cur := Block(pfn, o);
        if bPfn >= totalFrames { BuddyUnmanaged(cur); break; }
        MergeTestExact(pageArray[..], zones[..], lists, state, cur, managed);
        if FREE !in pageArray[bPfn].flags || pageArray[bPfn].order != o { break; }
        MergeInHand(cur);
        Unlink(zone, o, bPfn);
        SetThenKept(old(pageArray[..]), before, pageArray[..], b.pfn, 0);
        SetThenSame(old(pageArray[..]), pageArray[..], b.pfn, 0, bPfn, pageArray[bPfn].(flags := {}));
        InHandBounds(cur.Parent());
        Touch(cur.Parent(), bPfn, pageArray[bPfn].(flags := {}));
        if bPfn < pfn { pfn := bPfn; }
        o := o + 1;
      }
      ghost var merged := pageArray[..];
      PushFront(zone, o, pfn, state.used);
      SetThenKept(old(pageArray[..]), merged, pageArray[..], b.pfn, 0);
      assert state == State(state.free, state.used);
      ReleasedSpec(old(state), state, b, managed);
    }

    /** The free blocks and the frames in `rest`, not yet added, make up the managed frames. */
    ghost predicate Filling(rest: set<nat>)
      reads this, pageArray, zones
    {
      Intact() && state.used == {} && Partition(State(state.free, Units(rest)), managed)
    }

    /** The largest natural block at `pfn` that ends by `end`. */
    method LargestFit(pfn: nat, end: nat) returns (order: nat)
      requires pfn < end
      ensures Block(pfn, order).Natural() && pfn + Pow2(order) <= end && Greedy(Block(pfn, order), end)
    {
      order := MAX_ORDER;
      while order > 0
        invariant order <= MAX_ORDER && Greedy(Block(pfn, order), end)
      {
        MaskTest(pfn, order);
        if And(pfn, Pow2(order) - 1) == 0 && pfn + Pow2(order) <= end { break; }
        order := order - 1;
      }
    }

    /** Every free block of `zone` is a greedy tile of [start, pfn). */
    ghost predicate Tiled(zone: nat, start: nat, pfn: nat, end: nat)
      reads this
    {
      forall b :: b in state.free && ZoneOf(b.pfn) == zone ==> start <= b.pfn && b.End() <= pfn && Greedy(b, end)
    }

    /** Add a free page range: greedy tiling by natural blocks. */
    method BuddyFreeRange(zone: nat, start: nat, end: nat, ghost rest: set<nat>)
      requires Filling(rest) && end <= totalFrames
      requires forall f :: start <= f < end ==> f in rest && ZoneOf(f) == zone
      requires forall b :: b in state.free ==> ZoneOf(b.pfn) != zone
      modifies `lists, `state, pageArray, zones
      ensures Filling(rest - Range(start, end).Frames())
      ensures forall b :: b in state.free ==> b in old(state.free) || ZoneOf(b.pfn) == zone
    {
      hide Coherent, Partition;
      var pfn := start;
      ghost var left := rest;
      while pfn < end
        invariant start <= pfn && (pfn <= end || pfn == start)
        invariant left == rest - Range(start, pfn).Frames()
        invariant Filling(left) && Tiled(zone, start, pfn, end)
        invariant forall b :: b in state.free ==> b in old(state.free) || ZoneOf(b.pfn) == zone
      {
        var order := LargestFit(pfn, end);
        ghost var b := Block(pfn, order);
        ghost var was := state.free;
        FreshTile(b, zone, start, end, left);
        PushFront(zone, order, pfn, Units(left - b.Frames()));
        pfn := pfn + Pow2(order);
        left := left - b.Frames();
        assert forall f: nat :: b.Has(f) <==> b.pfn <= f < pfn;
        forall c | c in state.free && ZoneOf(c.pfn) == zone ensures start <= c.pfn && c.End() <= pfn && Greedy(c, end) {
          assert c in was || c == b;
        }
      }
      assert Range(start, pfn).Frames() == Range(start, end).Frames();
    }

    lemma FreshTile(b: Block, zone: nat, start: nat, end: nat, left: set<nat>)
      requires Filling(left) && Tiled(zone, start, b.pfn, end)
      requires b.Natural() && ZoneOf(b.pfn) == zone && b.End() <= end
      requires forall f :: b.pfn <= f < end ==> f in left
      ensures CanFree(b, Units(left - b.Frames()))
    {
      Gather(state.free, left, b, managed);
      if b.order < MAX_ORDER {
        BuddyFacts(b);
        BuddyInZone(b);
        var buddy := b.Buddy();
        if buddy in state.free {
          GreedyNotBuddy(buddy, b, end);
        }
      }
    }

    /** A fresh allocator: zone z manages the frames ranges[z], whose descriptors may
        hold anything; no descriptor outside the ranges may be flagged free. */
    constructor (initial: seq<Page>, total: nat, ranges: seq<Range>)
      requires |ranges| == HIGHMEM + 1 && total <= |initial| <= PAGE_ARRAY_SIZE
      requires forall z :: 0 <= z < |ranges| ==> InZone(ranges[z], z, total)
      requires forall f :: 0 <= f < |initial| && f !in FramesIn(ranges) ==> FREE !in initial[f].flags
      ensures Valid() && ready && totalFrames == total
      ensures pageArray.Length == |initial| && fresh(pageArray) && fresh(zones)
      ensures managed == FramesIn(ranges) && state == State(Maximal(managed), {})
    {
      hide Coherent, Partition, EmptyLists, EmptyZone, FramesIn, InZone, Maximal, FramesOf, Units;
      pageArray := new Page[|initial|](i requires 0 <= i < |initial| => initial[i]);
      zones := new Zone[HIGHMEM + 1](_ => EmptyZone());
      totalFrames := total;
      ready := false;
      lists := EmptyLists();
      state := State({}, {});
      managed := FramesIn(ranges);
      new;
      assert pageArray[..] == initial && zones[..] == seq(HIGHMEM + 1, _ => EmptyZone());
      NothingListed(initial, managed);
      RangesManaged(ranges, total);
      AddRanges(ranges);
      ready := true;
    }

    method AddRanges(ranges: seq<Range>)
      requires |ranges| == HIGHMEM + 1 && managed == FramesIn(ranges) && Filling(managed)
      requires forall z :: 0 <= z < |ranges| ==> InZone(ranges[z], z, totalFrames)
      requires state.free == {}
      modifies `lists, `state, pageArray, zones
      ensures Valid() && state == State(Maximal(managed), {})
    {
      hide Partition, Coherent;
      ghost var rest: set<nat> := managed;
      var z := 0;
      while z < |ranges|
        invariant z <= |ranges| && Filling(rest)
        invariant forall b :: b in state.free ==> ZoneOf(b.pfn) < z
        invariant forall f :: f in rest <==> f in managed && ZoneOf(f) >= z
      {
        assert ranges[z] == Range(ranges[z].start, ranges[z].end);
        BuddyFreeRange(z, ranges[z].start, ranges[z].end, rest);
        rest := rest - ranges[z].Frames();
        z := z + 1;
      }
      NothingLeft(rest);
    }

    lemma NothingLeft(rest: set<nat>)
      requires Filling(rest) && rest == {}
      ensures Valid() && state == State(Maximal(managed), {})
    {
      assert Units(rest) == {} && state == State(state.free, {});
      FreeFromUsed(state, managed);
      assert managed - FramesOf({}) == managed;
    }

    /** Allocation from NORMAL, then DMA; HIGHMEM is never used: a run below 896 MB, and one
        below 16 MB only if there is none above. */
    method AllocPages(order: nat) returns (phys: nat)
      requires Valid()
      modifies `lists, `state, pageArray, zones
      ensures Valid()
      ensures phys == 0 <==> !ready || (!HasRun(old(state.free), NORMAL, order) && !HasRun(old(state.free), DMA, order))
      ensures phys == 0 <==> !ready || !FreeRun(old(FramesOf(state.free)), 0, 896 * 1024 * 1024, order)
      ensures phys == 0 ==> state == old(state)
      ensures phys != 0 ==> phys + 4096 * Pow2(order) <= 896 * 1024 * 1024
      ensures phys != 0 && phys < 16 * 1024 * 1024 ==>
        !FreeRun(old(FramesOf(state.free)), 16 * 1024 * 1024, 896 * 1024 * 1024, order)
      ensures phys != 0 ==>
        phys % 4096 == 0 && Allocates(old(state), Block(PhysToPfn(phys), order), state) &&
        BestFit(old(state.free), if HasRun(old(state.free), NORMAL, order) then NORMAL else DMA, order, PhysToPfn(phys))
      ensures phys != 0 ==> RefsSet(old(pageArray[..]), pageArray[..], phys / 4096, 1)
    {
      hide Coherent, Partition, Allocates, HasRun, BestFit, FreeRun, FramesOf, ZoneOf, RefsSet, RefsKept;
      if !ready { return 0; }
      RunByAddress(state.free, order);
      ghost var was, high := state, HasRun(state.free, NORMAL, order);
      phys := BuddyAlloc(NORMAL, order);
      if phys == 0 {
        ghost var before := pageArray[..];
        phys := BuddyAlloc(DMA, order);
        if phys != 0 { KeptBeforeSet(old(pageArray[..]), before, pageArray[..], PhysToPfn(phys), 1); }
      }
      if phys != 0 { ChosenBelow(was, if high then NORMAL else DMA, order, PhysToPfn(phys), state); }
    }

    /** Where the block handed out lies. */
    lemma ChosenBelow(was: State, zone: nat, order: nat, p: nat, now: State)
      requires zone <= NORMAL && Allocates(was, Block(p, order), now) && BestFit(was.free, zone, order, p)
      ensures 4096 * (p + Pow2(order)) <= 896 * 1024 * 1024
      ensures 4096 * p < 16 * 1024 * 1024 ==> zone == DMA
    {
      var b := Block(p, order);
      var last := b.End() - 1;
      assert b.Has(last);
      BlockInOneZone(b, last);
    }

    /** Freeing: a no-op for null or an address beyond memory, otherwise the exact inverse. */
    method FreePages(phys: nat, order: nat)
      requires Valid()
      requires ready && phys != 0 && PhysToPfn(phys) < totalFrames ==> Block(PhysToPfn(phys), order) in state.used
      modifies `lists, `state, pageArray, zones
      ensures Valid()
      ensures if ready && phys != 0 && PhysToPfn(phys) < totalFrames
              then Releases(old(state), Block(PhysToPfn(phys), order), state)
              else state == old(state)
      ensures ready && phys != 0 && PhysToPfn(phys) < totalFrames ==>
        RefsSet(old(pageArray[..]), pageArray[..], phys / 4096, 0)
    {
      hide RefsSet;
      if !ready || phys == 0 { return; }
      SelectZoneOfPfn(phys);
      BuddyFree(SelectZone(phys), phys, order);
    }

    /** The frames single-page allocation can still hand out. */
    ghost function Available(): set<nat>
      reads this
    {
      set f | f in FramesOf(state.free) && ZoneOf(f) != HIGHMEM
    }

    lemma SinglePageRuns()
      ensures HasRun(state.free, NORMAL, 0) || HasRun(state.free, DMA, 0) <==> Available() != {}
    {
      if f :| f in Available() {
        var b := Block(f, 0);
        assert b.Natural() && b.Has(f) && Inside(b, FramesOf(state.free));
      }
      if b: Block :| b.Natural() && b.order == 0 && ZoneOf(b.pfn) <= NORMAL && Inside(b, FramesOf(state.free)) {
        assert b.Has(b.pfn) && b.pfn in Available();
      }
    }

    method AllocPage() returns (phys: nat)
      requires Valid()
      modifies `lists, `state, pageArray, zones
      ensures Valid()
      ensures phys == 0 <==> !ready || old(Available()) == {}
      ensures phys == 0 <==> !ready || forall f :: f in old(FramesOf(state.free)) ==> 4096 * f >= 896 * 1024 * 1024
      ensures phys == 0 ==> state == old(state)
      ensures phys != 0 ==> phys < 896 * 1024 * 1024
      ensures phys != 0 && phys < 16 * 1024 * 1024 ==>
        forall f :: f in old(FramesOf(state.free)) ==> 4096 * f < 16 * 1024 * 1024 || 4096 * f >= 896 * 1024 * 1024
      ensures phys != 0 ==>
        var f := PhysToPfn(phys);
        phys == PfnToPhys(f) && f in old(Available()) && LOWEST_PFN <= f < totalFrames &&
        Block(f, 0) !in old(state.used) && state.used == old(state.used) + {Block(f, 0)} &&
        FramesOf(state.free) == FramesOf(old(state.free)) - {f} && Available() == old(Available()) - {f}
    {
      SinglePageRuns();
      hide Coherent, Partition, Allocates, HasRun, NoneBetween, FreeRun;
      FrameRuns(FramesOf(state.free), 0, 896 * 1024 * 1024);
      FrameRuns(FramesOf(state.free), 16 * 1024 * 1024, 896 * 1024 * 1024);
      phys := AllocPages(0);
      if phys != 0 {
        PageAllocated(old(state), PhysToPfn(phys), state, managed);
        assert ZoneOf(PhysToPfn(phys)) != HIGHMEM;
      }
    }

    method FreePage(phys: nat)
      requires Valid() && ready && phys != 0 && Block(PhysToPfn(phys), 0) in state.used
      modifies `lists, `state, pageArray, zones
      ensures Valid()
      ensures state.used == old(state.used) - {Block(PhysToPfn(phys), 0)}
      ensures FramesOf(state.free) == FramesOf(old(state.free)) + {PhysToPfn(phys)}
    {
      hide Coherent, Partition, Releases;
      UsedFrame(state, PhysToPfn(phys), managed);
      FreePages(phys, 0);
      PageReleased(old(state), PhysToPfn(phys), state, managed);
    }
  }
}
