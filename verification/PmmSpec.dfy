/** The page-frame allocator as a state machine over sets of blocks, and what
    every run of it keeps. */
module PmmSpec {
  import opened Bits
  import opened Dyadic
  import opened FreeSets

  const DMA: nat := 0
  const NORMAL: nat := 1
  const HIGHMEM: nat := 2
  const DMA_END: nat := 4096         // frame number of 16 MB
  const NORMAL_END: nat := 229376    // frame number of 896 MB

  function ZoneOf(pfn: nat): nat {
    if pfn < DMA_END then DMA else if pfn < NORMAL_END then NORMAL else HIGHMEM
  }

  lemma ZoneBoundsAligned()
    ensures Aligned(DMA_END, MAX_ORDER) && Aligned(NORMAL_END, MAX_ORDER)
  {
    assert Aligned(2, 0) && Aligned(4, 1) && Aligned(8, 2) && Aligned(16, 3);
    assert Aligned(32, 4) && Aligned(64, 5) && Aligned(128, 6) && Aligned(256, 7);
    assert Aligned(512, 8) && Aligned(1024, 9) && Aligned(2048, 10) && Aligned(4096, 11);
    assert Aligned(112, 0) && Aligned(224, 1) && Aligned(448, 2) && Aligned(896, 3);
    assert Aligned(1792, 4) && Aligned(3584, 5) && Aligned(7168, 6) && Aligned(14336, 7);
    assert Aligned(28672, 8) && Aligned(57344, 9) && Aligned(114688, 10) && Aligned(229376, 11);
  }

  /** No natural block crosses a zone bound: both are multiples of the largest block. */
  lemma BlockInOneZone(b: Block, f: nat)
    requires b.Natural() && b.Has(f)
    ensures ZoneOf(f) == ZoneOf(b.pfn)
  {
    ZoneBoundsAligned();
    AlignedLess(DMA_END, MAX_ORDER, b.order);
    AlignedLess(NORMAL_END, MAX_ORDER, b.order);
    if b.pfn < DMA_END { AlignedBound(b.pfn, DMA_END, b.order); }
    else if b.pfn < NORMAL_END { AlignedBound(b.pfn, NORMAL_END, b.order); }
  }

  /** Merging never leaves the zone. */
  lemma BuddyInZone(b: Block)
    requires b.Natural() && b.order < MAX_ORDER
    ensures ZoneOf(b.Buddy().pfn) == ZoneOf(b.pfn) == ZoneOf(b.Parent().pfn)
  {
    BuddyFacts(b);
    assert b.Has(b.pfn) && b.Buddy().Has(b.Buddy().pfn);
    BlockInOneZone(b.Parent(), b.pfn);
    BlockInOneZone(b.Parent(), b.Buddy().pfn);
  }

  /** Zone `zone` holds a natural run of 2^order free frames. */
  ghost predicate HasRun(free: set<Block>, zone: nat, order: nat) {
    exists b: Block :: b.Natural() && b.order == order && ZoneOf(b.pfn) == zone && Inside(b, FramesOf(free))
  }

  /** A run is found exactly if some free block of the zone is large enough. */
  lemma RunIffLargeBlock(free: set<Block>, zone: nat, order: nat)
    requires Canonical(free)
    ensures HasRun(free, zone, order) <==>
            exists b :: b in free && ZoneOf(b.pfn) == zone && order <= b.order
  {
    if HasRun(free, zone, order) {
      var run: Block :| run.Natural() && run.order == order && ZoneOf(run.pfn) == zone && Inside(run, FramesOf(free));
      var home := RunInsideOneBlock(free, run);
      assert run.Has(run.pfn) && home.Has(run.pfn);
      BlockInOneZone(home, run.pfn);
    }
    if b :| b in free && ZoneOf(b.pfn) == zone && order <= b.order {
      AlignedLess(b.pfn, b.order, order);
      Pow2Monotone(order, b.order);
      var run := Block(b.pfn, order);
      assert forall f :: run.Has(f) ==> b.Has(f);
      assert Inside(run, FramesOf(free));
    }
  }

  /** The `k`-th run of `n` frames is free and lies between two addresses. */
  ghost predicate RunAt(frames: set<nat>, low: nat, high: nat, k: nat, n: nat) {
    low <= k * n * 4096 && (k * n + n) * 4096 <= high && forall f :: k * n <= f < k * n + n ==> f in frames
  }

  /** Between two addresses lie 2^order free frames in a row that start at a multiple of 2^order. */
  ghost predicate FreeRun(frames: set<nat>, low: nat, high: nat, order: nat) {
    order <= 11 && exists k: nat :: RunAt(frames, low, high, k, Pow2(order))
  }

  /** A run of one frame is a frame. */
  lemma FrameRuns(frames: set<nat>, low: nat, high: nat)
    ensures FreeRun(frames, low, high, 0) <==>
      exists f :: f in frames && low <= 4096 * f && 4096 * f + 4096 <= high
  {
    var n := Pow2(0);
    if f: nat :| f in frames && low <= 4096 * f && 4096 * f + 4096 <= high { assert RunAt(frames, low, high, f, n); }
    if FreeRun(frames, low, high, 0) {
      var k: nat :| RunAt(frames, low, high, k, n);
      assert k * n in frames;
    }
  }

  /** The two zones that are allocated from, by address. */
  lemma RunByAddress(free: set<Block>, order: nat)
    ensures HasRun(free, NORMAL, order) <==> FreeRun(FramesOf(free), 16 * 1024 * 1024, 896 * 1024 * 1024, order)
    ensures HasRun(free, DMA, order) <==> FreeRun(FramesOf(free), 0, 16 * 1024 * 1024, order)
    ensures HasRun(free, NORMAL, order) || HasRun(free, DMA, order) <==>
      FreeRun(FramesOf(free), 0, 896 * 1024 * 1024, order)
  {
    ZoneByAddress(free, DMA, 0, 16 * 1024 * 1024, order);
    ZoneByAddress(free, NORMAL, 16 * 1024 * 1024, 896 * 1024 * 1024, order);
    var n, frames := Pow2(order), FramesOf(free);
    if FreeRun(frames, 0, 896 * 1024 * 1024, order) {
      var k: nat :| RunAt(frames, 0, 896 * 1024 * 1024, k, n);
      RunIsBlock(frames, 0, 896 * 1024 * 1024, k, order);
      assert ZoneOf(Block(k * n, order).pfn) <= NORMAL;
    }
    if k: nat :| RunAt(frames, 0, 16 * 1024 * 1024, k, n) { assert RunAt(frames, 0, 896 * 1024 * 1024, k, n); }
    if k: nat :| RunAt(frames, 16 * 1024 * 1024, 896 * 1024 * 1024, k, n) {
      assert RunAt(frames, 0, 896 * 1024 * 1024, k, n);
    }
  }

  lemma ZoneByAddress(free: set<Block>, zone: nat, low: nat, high: nat, order: nat)
    requires forall f: nat :: ZoneOf(f) == zone <==> low <= f * 4096 < high
    requires low % 4096 == 0 && high % 4096 == 0
    ensures HasRun(free, zone, order) <==> FreeRun(FramesOf(free), low, high, order)
  {
    hide Aligned, ZoneOf, FramesOf, RunAt, Inside;
    if b: Block :| b.Natural() && b.order == order && ZoneOf(b.pfn) == zone && Inside(b, FramesOf(free)) {
      BlockByAddress(FramesOf(free), b, zone, low, high);
    }
    if FreeRun(FramesOf(free), low, high, order) {
      var k: nat :| RunAt(FramesOf(free), low, high, k, Pow2(order));
      RunIsBlock(FramesOf(free), low, high, k, order);
      assert ZoneOf(k * Pow2(order)) == zone;
    }
  }

  lemma BlockByAddress(frames: set<nat>, b: Block, zone: nat, low: nat, high: nat)
    requires forall f: nat :: ZoneOf(f) == zone <==> low <= f * 4096 < high
    requires high % 4096 == 0 && b.Natural() && ZoneOf(b.pfn) == zone && Inside(b, frames)
    ensures RunAt(frames, low, high, Shr(b.pfn, b.order), Pow2(b.order))
  {
    hide Aligned, ZoneOf;
    AlignedMultiple(b.pfn, b.order);
    var last := b.End() - 1;
    assert b.Has(last);
    BlockInOneZone(b, last);
  }

  lemma RunIsBlock(frames: set<nat>, low: nat, high: nat, k: nat, order: nat)
    requires RunAt(frames, low, high, k, Pow2(order)) && order <= 11
    ensures var b := Block(k * Pow2(order), order);
      b.Natural() && Inside(b, frames) && low <= b.pfn * 4096 && (b.pfn + Pow2(order)) * 4096 <= high
  {
    hide Aligned;
    MultipleAligned(k, order);
  }

  lemma Pow2Monotone(a: nat, b: nat)
    requires a <= b
    ensures Pow2(a) <= Pow2(b)
  {
    if a < b { Pow2Monotone(a, b - 1); }
  }

  datatype State = State(free: set<Block>, used: set<Block>)

  /** Free blocks and outstanding allocations tile the managed frames. */
  ghost predicate Partition(s: State, managed: set<nat>) {
    && s.free !! s.used
    && Tiling(s.free + s.used)
    && FramesOf(s.free + s.used) == managed
    && NoBuddies(s.free)
  }

  /** `b` is carved out of free frames. */
  ghost predicate Allocates(s: State, b: Block, s': State) {
    && b.Natural() && Inside(b, FramesOf(s.free))
    && s'.used == s.used + {b}
    && s'.free == Maximal(FramesOf(s.free) - b.Frames())
  }

  /** The outstanding allocation `b` is given back. */
  ghost predicate Releases(s: State, b: Block, s': State) {
    && b in s.used
    && s'.used == s.used - {b}
    && s'.free == Maximal(FramesOf(s.free) + b.Frames())
  }

  ghost predicate Step(s: State, s': State) {
    s' == s || (exists b :: Allocates(s, b, s')) || (exists b :: Releases(s, b, s'))
  }

  /** A run from the state that greedy tiling of the managed frames builds. */
  ghost predicate Run(states: seq<State>, managed: set<nat>) {
    && |states| > 0
    && states[0] == State(Maximal(managed), {})
    && forall i :: 0 <= i < |states| - 1 ==> Step(states[i], states[i + 1])
  }

  lemma MaximalCanonical(frames: set<nat>)
    ensures Canonical(Maximal(frames)) && FramesOf(Maximal(frames)) == frames
  {
    var blocks := Maximal(frames);
    forall a, b | a in blocks && b in blocks && a != b ensures a.Apart(b) {
      MaximalApart(a, b, frames);
    }
    forall b | b in blocks && b.order < MAX_ORDER ensures b.Buddy() !in blocks {
      BuddyFacts(b);
      if b.Buddy() in blocks {
        assert Inside(b.Parent(), frames);
      }
    }
    forall f | f in frames ensures f in FramesOf(blocks) {
      var b := GrowToMaximal(Block(f, 0), frames);
      assert Block(f, 0).Has(f);
    }
  }

  lemma MaximalApart(a: Block, b: Block, frames: set<nat>)
    requires IsMaximal(a, frames) && IsMaximal(b, frames) && a != b
    ensures a.Apart(b)
  {
    hide Aligned, Xor, Pow2;
    var lo, hi := if a.order <= b.order then a else b, if a.order <= b.order then b else a;
    ApartOrNested(lo, hi);
    if lo.Within(hi) && lo.order < hi.order {
      BuddyFacts(lo);
      assert lo.Has(lo.pfn) && hi.Has(lo.pfn) && lo.Parent().Has(lo.pfn);
      ApartOrNested(lo.Parent(), hi);
    }
  }

  lemma {:induction false} GrowToMaximal(b: Block, frames: set<nat>) returns (m: Block)
    requires b.Natural() && Inside(b, frames)
    ensures IsMaximal(m, frames) && b.Within(m)
    decreases MAX_ORDER - b.order
  {
    m := b;
    if b.order < MAX_ORDER {
      BuddyFacts(b);
      assert forall f :: b.Has(f) ==> b.Parent().Has(f);
      assert b.Has(b.pfn) && b.Has(b.End() - 1);
      if Inside(b.Parent(), frames) { m := GrowToMaximal(b.Parent(), frames); }
    }
  }

  /** A partitioned state is determined by its outstanding allocations. */
  lemma FreeFromUsed(s: State, managed: set<nat>)
    requires Partition(s, managed)
    ensures FramesOf(s.free) == managed - FramesOf(s.used)
    ensures s.free == Maximal(managed - FramesOf(s.used))
  {
    FramesUnion(s.free, s.used);
    TilingSplit(s.free, s.used);
    SeparateFrames(s.free, s.used);
    CanonicalIsMaximal(s.free);
  }

  /** Converse: the maximal blocks of the unallocated frames complete a partition. */
  lemma PartitionFromUsed(s: State, managed: set<nat>)
    requires Tiling(s.used) && FramesOf(s.used) <= managed
    requires s.free == Maximal(managed - FramesOf(s.used))
    ensures Partition(s, managed)
  {
    MaximalCanonical(managed - FramesOf(s.used));
    FramesUnion(s.free, s.used);
    SeparateFrames(s.free, s.used);
    TilingUnion(s.free, s.used);
  }

  lemma AllocateKeepsPartition(s: State, b: Block, s': State, managed: set<nat>)
    requires Partition(s, managed) && Allocates(s, b, s')
    ensures Partition(s', managed) && b !in s.used
  {
    hide Partition, Tiling, FramesOf, Maximal;
    TakenTiling(s, b, managed);
    FreeFromUsed(s, managed);
    PartitionFromUsed(s', managed);
  }

  lemma TakenTiling(s: State, b: Block, managed: set<nat>)
    requires Partition(s, managed) && b.Natural() && Inside(b, FramesOf(s.free))
    ensures Tiling(s.used + {b}) && b !in s.used && FramesOf(s.used + {b}) <= managed
    ensures managed - FramesOf(s.used + {b}) == FramesOf(s.free) - b.Frames()
  {
    hide Maximal, FramesOf;
    TilingSplit(s.free, s.used);
    SeparateFrames(s.free, s.used);
    SingleFrames(b);
    SeparateFrames(s.used, {b});
    TilingUnion(s.used, {b});
    FramesUnion(s.used, {b});
    FramesUnion(s.free, s.used);
    FreeFromUsed(s, managed);
  }

  lemma ReleasedFrames(s: State, b: Block, managed: set<nat>)
    requires Tiling(s.used) && b in s.used
    requires managed == FramesOf(s.free + s.used) && FramesOf(s.free) == managed - FramesOf(s.used)
    ensures managed - FramesOf(s.used - {b}) == FramesOf(s.free) + b.Frames()
    ensures FramesOf(s.used - {b}) <= managed
  {
    FramesUnion(s.free, s.used);
    FramesRemove(s.used, b);
    FramesAdd(s.used, b);
    assert s.used + {b} == s.used;
  }

  lemma ReleaseKeepsPartition(s: State, b: Block, s': State, managed: set<nat>)
    requires Partition(s, managed) && Releases(s, b, s')
    ensures Partition(s', managed)
  {
    TilingSplit(s.free, s.used);
    FreeFromUsed(s, managed);
    ReleasedFrames(s, b, managed);
    PartitionFromUsed(s', managed);
  }

  lemma StepKeepsPartition(s: State, s': State, managed: set<nat>)
    requires Partition(s, managed) && Step(s, s')
    ensures Partition(s', managed)
  {
    if b :| Allocates(s, b, s') {
      AllocateKeepsPartition(s, b, s', managed);
    } else if b :| Releases(s, b, s') {
      ReleaseKeepsPartition(s, b, s', managed);
    }
  }

  /** Safety over whole runs: every reachable state is a partition. */
  lemma {:induction false} RunKeepsPartition(states: seq<State>, managed: set<nat>, i: nat)
    requires Run(states, managed) && i < |states|
    ensures Partition(states[i], managed)
    decreases i
  {
    if i == 0 {
      PartitionFromUsed(states[0], managed);
    } else {
      RunKeepsPartition(states, managed, i - 1);
      StepKeepsPartition(states[i - 1], states[i], managed);
    }
  }

  /** Confluence: whatever was allocated and freed on the way, the free blocks
      depend only on which allocations are outstanding. */
  lemma Confluence(a: seq<State>, b: seq<State>, managed: set<nat>)
    requires Run(a, managed) && Run(b, managed)
    requires FramesOf(a[|a| - 1].used) == FramesOf(b[|b| - 1].used)
    ensures a[|a| - 1].free == b[|b| - 1].free
  {
    RunKeepsPartition(a, managed, |a| - 1);
    RunKeepsPartition(b, managed, |b| - 1);
    FreeFromUsed(a[|a| - 1], managed);
    FreeFromUsed(b[|b| - 1], managed);
  }

  /** Freeing everything restores the initial set of blocks. */
  lemma Restoration(a: seq<State>, managed: set<nat>)
    requires Run(a, managed) && a[|a| - 1].used == {}
    ensures a[|a| - 1] == a[0]
  {
    Confluence(a, a[..1], managed);
  }

  lemma SingleFrame(f: nat)
    ensures Block(f, 0).Has(f) && Block(f, 0).Frames() == {f}
  {}

  /** What single-page steps do to the frames. */
  lemma PageAllocated(s: State, f: nat, s': State, managed: set<nat>)
    requires Partition(s, managed) && Allocates(s, Block(f, 0), s')
    ensures f in FramesOf(s.free) && f in managed && Block(f, 0) !in s.used
    ensures s'.used == s.used + {Block(f, 0)} && FramesOf(s'.free) == FramesOf(s.free) - {f}
  {
    hide Partition, Canonical;
    var b := Block(f, 0);
    AllocateKeepsPartition(s, b, s', managed);
    FreeFromUsed(s, managed);
    SingleFrame(f);
    MaximalCanonical(FramesOf(s.free) - b.Frames());
  }

  lemma PageReleased(s: State, f: nat, s': State, managed: set<nat>)
    requires Partition(s, managed) && Releases(s, Block(f, 0), s')
    ensures f in managed && f !in FramesOf(s.free)
    ensures s'.used == s.used - {Block(f, 0)} && FramesOf(s'.free) == FramesOf(s.free) + {f}
  {
    hide Partition, Canonical;
    UsedFrame(s, f, managed);
    SingleFrame(f);
    MaximalCanonical(FramesOf(s.free) + Block(f, 0).Frames());
  }

  lemma UsedFrame(s: State, f: nat, managed: set<nat>)
    requires Partition(s, managed) && Block(f, 0) in s.used
    ensures f in managed && f !in FramesOf(s.free)
  {
    FreeFromUsed(s, managed);
    FramesUnion(s.free, s.used);
    assert Block(f, 0).Has(f) && f in FramesOf(s.used);
  }

  /** Two states of the same frames with the same allocations are the same state. */
  lemma SameAllocations(s: State, s': State, managed: set<nat>)
    requires Partition(s, managed) && Partition(s', managed) && s.used == s'.used
    ensures s == s'
  {
    FreeFromUsed(s, managed);
    FreeFromUsed(s', managed);
  }

  lemma FreeFrame(s: State, f: nat, managed: set<nat>)
    requires Partition(s, managed) && f in FramesOf(s.free)
    ensures f in managed && Block(f, 0) !in s.used
  {
    hide Partition, FramesOf;
    FreeFromUsed(s, managed);
    if Block(f, 0) in s.used { UsedFrame(s, f, managed); }
  }
}
