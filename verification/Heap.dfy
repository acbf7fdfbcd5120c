/** The kernel heap: first fit, splitting, growth and coalescing over headers kept
    in the heap itself, for callers that free in stack order. */
module Heap {
  import opened Basics
  import opened HeapSpec
  import opened HeapWords

  /** The blocks in `live` keep their sizes. */
  ghost predicate SizesKept(live: seq<nat>, was: Headers, hdrs: Headers) {
    forall b :: b in live ==> b in was && b in hdrs && hdrs[b].size == was[b].size
  }

  lemma SizesTransitive(live: seq<nat>, a: Headers, b: Headers, c: Headers)
    requires SizesKept(live, a, b) && SizesKept(live, b, c)
    ensures SizesKept(live, a, c)
  {}

  /** `blk` is the first block of the list that can hold `size` bytes. */
  ghost predicate FirstIn(list: seq<nat>, hdrs: Headers, size: nat, blk: nat) {
    exists k :: 0 <= k < |list| && list[k] == blk && TooSmall(list[..k], hdrs, size)
  }

  function Marked(hdrs: Headers, blk: nat): Headers
    requires blk in hdrs
  {
    hdrs[blk := hdrs[blk].(magic := USED)]
  }

  ghost predicate TooSmall(list: seq<nat>, hdrs: Headers, size: nat) {
    forall b :: b in list ==> b in hdrs && hdrs[b].size < size
  }

  /** The free blocks other than `blk` are still free and of the same size. */
  ghost predicate FreeKept(list: seq<nat>, was: Headers, list': seq<nat>, hdrs: Headers, blk: int) {
    forall b :: b in list && b != blk ==> b in was && b in list' && b in hdrs && hdrs[b].size == was[b].size
  }

  /** Of the `size` bytes that `blk` had, it keeps all, or what it does not keep is the free block
      just after it. */
  ghost predicate RestFree(size: nat, list: seq<nat>, hdrs: Headers, blk: nat) {
    blk in hdrs &&
    (hdrs[blk].size == size ||
     var rest := blk + 32 + hdrs[blk].size;
     rest in list && rest in hdrs && hdrs[rest].magic == FREE && hdrs[blk].size + 32 + hdrs[rest].size == size)
  }

  /** What a free of `blk` leaves: with the block after it, if that is free, it is one block, which
      heads the list; the rest of the list keeps its order. */
  ghost predicate Coalesced(brk: nat, was: Headers, list: seq<nat>, hdrs: Headers, list': seq<nat>, blk: nat)
    requires blk in was
  {
    var next := blk + 32 + was[blk].size;
    && (next < brk ==> next in was)
    && if next < brk && was[next].magic == FREE
       then next !in list' &&
            hdrs == was[blk := Hdr(FREE, was[blk].size + 32 + was[next].size, was[blk].prevPhys)] &&
            exists k :: 0 <= k < |list| && list[k] == next && list' == [blk] + list[..k] + list[k + 1..]
       else hdrs == was[blk := was[blk].(magic := FREE)] && list' == [blk] + list
  }

  lemma {:induction false} RemovedAt(list: seq<nat>, x: nat) returns (k: nat)
    requires x in list
    ensures k < |list| && list[k] == x && Remove(list, x) == list[..k] + list[k + 1..]
  {
    if list[0] == x {
      k := 0;
    } else {
      k := RemovedAt(list[1..], x);
      k := k + 1;
      assert list[..k] == [list[0]] + list[1..][..k - 1] && list[k + 1..] == list[1..][k..];
    }
  }

  lemma FreedMerged(brk: nat, was: Headers, list: seq<nat>, hdrs: Headers, blk: nat)
    requires blk in was && Distinct(list) && blk !in list
    requires var next := blk + 32 + was[blk].size;
      && next < brk && next in was && was[next].magic == FREE && next in list
      && hdrs == was[blk := Hdr(FREE, was[blk].size + 32 + was[next].size, was[blk].prevPhys)]
    ensures Coalesced(brk, was, list, hdrs, [blk] + Remove(list, blk + 32 + was[blk].size), blk)
  {
    var next := blk + 32 + was[blk].size;
    var k := RemovedAt(list, next);
    RemoveMembers(list, next);
    assert [blk] + Remove(list, next) == [blk] + list[..k] + list[k + 1..];
  }

  /** Freeing the newest live block when a free one follows. */
  lemma MergeOk(start: nat, brk: nat, was: Headers, list: seq<nat>, blocks: seq<nat>, live: seq<nat>, used: int, i: nat)
    requires HeapOk(start, brk, was, list, blocks, live, used) && Newest(blocks, live, i)
    requires i + 1 < |blocks| && blocks[i + 1] !in live && blocks[i + 1] in was && was[blocks[i + 1]].magic == FREE
    requires blocks[i] in was && blocks[i + 1] == blocks[i] + HDR + was[blocks[i]].size < brk
    requires Distinct(list) && blocks[i] !in list
    ensures var blk, next := blocks[i], blocks[i + 1];
      var hdrs := was[blk := Hdr(FREE, was[blk].size + 32 + was[next].size, was[blk].prevPhys)];
      var list' := [blk] + Remove(list, next);
      && HeapOk(start, brk, hdrs, list', RemoveAt(blocks, i + 1), live[..|live| - 1], used - was[blk].size)
      && Coalesced(brk, was, list, hdrs, list', blk)
  {
    hide HeapOk, Coalesced, Remove, RemoveAt;
    var blk, next := blocks[i], blocks[i + 1];
    AbsorbOk(start, brk, was, list, blocks, live, used, i);
    var merged := AbsorbHeaders(was, blk, next);
    ReleaseOk(start, brk, merged, Remove(list, next), RemoveAt(blocks, i + 1), live, used + HDR + was[next].size, i);
    var hdrs := was[blk := Hdr(FREE, was[blk].size + 32 + was[next].size, was[blk].prevPhys)];
    assert hdrs == merged[blk := merged[blk].(magic := FREE)];
    FreedMerged(brk, was, list, hdrs, blk);
  }

  lemma FreedAlone(brk: nat, was: Headers, list: seq<nat>, blk: nat)
    requires blk in was
    requires var next := blk + 32 + was[blk].size; next < brk ==> next in was && was[next].magic != FREE
    ensures Coalesced(brk, was, list, was[blk := was[blk].(magic := FREE)], [blk] + list, blk)
  {}

  /** Allocating a block and freeing it again: what fitted before fits again. */
  lemma FitsAgain(brk: nat, list0: seq<nat>, hdrs0: Headers, list1: seq<nat>, hdrs1: Headers,
                  list2: seq<nat>, hdrs2: Headers, blk: nat, size: nat)
    requires FreeKept(list0, hdrs0, list1, hdrs1, blk) && blk in hdrs1 && blk !in list1
    requires blk in list0 ==> blk in hdrs0 && RestFree(hdrs0[blk].size, list1, hdrs1, blk)
    requires Coalesced(brk, hdrs1, list1, hdrs2, list2, blk) && forall b :: b in list1 ==> b < brk
    requires exists b :: b in list0 && b in hdrs0 && hdrs0[b].size >= size
    ensures exists b :: b in list2 && b in hdrs2 && hdrs2[b].size >= size
  {
    var next := blk + 32 + hdrs1[blk].size;
    assert blk in list2 && blk in hdrs2;
    var b :| b in list0 && b in hdrs0 && hdrs0[b].size >= size;
    if b != blk && (next >= brk || hdrs1[next].magic != FREE || b != next) {
      assert b in list1;
      assert b in list2 && hdrs2[b] == hdrs1[b];
    } else {
      assert hdrs2[blk].size >= size;
    }
  }

  /** What carving `size` bytes out of the free block `blk` leaves free. */
  lemma CarvedRest(was: Headers, list: seq<nat>, hdrs: Headers, list': seq<nat>, blk: nat, size: nat)
    requires Distinct(list) && blk in list && forall b :: b in list ==> b in was
    requires if was[blk].size < size + MIN_BLOCK then hdrs == was && list' == Remove(list, blk)
      else hdrs == SplitHeaders(was, blk, size) && list' == [blk + HDR + size] + Remove(list, blk) &&
           blk + HDR + size !in Remove(list, blk)
    ensures blk in hdrs && FreeKept(list, was, list', Marked(hdrs, blk), blk)
    ensures RestFree(was[blk].size, list', Marked(hdrs, blk), blk)
  {
    RemoveMembers(list, blk);
    if was[blk].size >= size + MIN_BLOCK { assert blk + HDR + size in list'; }
  }

  lemma KeptAfterGrowth(list: seq<nat>, was: Headers, grown: nat, hdr: Hdr, list': seq<nat>, hdrs: Headers, blk: int)
    requires grown !in list && forall b :: b in list ==> b in was
    requires FreeKept([grown] + list, was[grown := hdr], list', hdrs, blk)
    ensures FreeKept(list, was, list', hdrs, blk)
  {
    forall b | b in list && b != blk ensures b in list' && b in hdrs && hdrs[b].size == was[b].size {
      assert b in [grown] + list;
    }
  }

  lemma HeadFits(list: seq<nat>, hdrs: Headers, size: nat)
    requires list != [] && list[0] in hdrs && hdrs[list[0]].size >= size
    ensures forall blk :: FirstIn(list, hdrs, size, blk) ==> blk == list[0]
  {
    forall blk | FirstIn(list, hdrs, size, blk) ensures blk == list[0] {
      var k :| 0 <= k < |list| && list[k] == blk && TooSmall(list[..k], hdrs, size);
      if k > 0 { assert list[..k][0] in list[..k]; }
    }
  }

  /** With the new block at its head, the list fits the request if the block does. */
  lemma FitsAfter(list: seq<nat>, was: Headers, blk: nat, hdr: Hdr, size: nat)
    requires blk !in list
    ensures (exists b :: b in [blk] + list && b in was[blk := hdr] && was[blk := hdr][b].size >= size) <==>
      hdr.size >= size || exists b :: b in list && b in was && was[b].size >= size
  {
    if hdr.size >= size { assert blk in [blk] + list; }
    if b :| b in list && b in was && was[b].size >= size { assert b in [blk] + list && b != blk; }
  }

  class Heap {
    const start: nat
    const end: nat
    var brk: nat
    var hdrs: Headers
    var freeList: seq<nat>
    var usedBytes: int
    var allocCount: nat
    var freeCount: nat
    var peakUsage: int
    ghost var blocks: seq<nat>
    ghost var live: seq<nat>   // blocks handed out and not freed, oldest first

    ghost predicate Valid()
      reads this
    {
      && HeapOk(start, brk, hdrs, freeList, blocks, live, usedBytes)
      && brk <= end < ADDRESS_SPACE && usedBytes <= peakUsage
    }

    /** A free block can hold `size` bytes. */
    ghost predicate Fits(size: nat)
      reads this
    {
      exists b :: b in freeList && b in hdrs && hdrs[b].size >= size
    }

    /** How a request of `size` bytes ends, as the code works it out in 32-bit words. */
    ghost function AnswerFor(size: nat): Answer
      reads this
    {
      if size == 0 then Null
      else if Fits(RoundedWord(size)) then (if size <= ADDRESS_SPACE - HEAP_ALIGN then Served else Small)
      else GrowthAnswer(brk, end, RoundedWord(size))
    }

    ghost function GrowthsFor(size: nat): nat
      reads this
    {
      if size == 0 || Fits(RoundedWord(size)) then 0 else Growths(brk, end, RoundedWord(size))
    }

    /** How it should end: null for size 0 or when no block is free for it and there is no room to
        grow, a block otherwise. */
    ghost predicate Refusable(size: nat)
      reads this
    {
      size == 0 || (!Fits(AlignUp(size, HEAP_ALIGN)) && !RoomFor(brk, end, AlignUp(size, HEAP_ALIGN)))
    }

    /** What the caller can check: the request does not wrap when rounded, and fits a free block or
        grows rightly; or it wraps, nothing at all is free, and the next page does not wrap. */
    ghost predicate Sound(size: nat)
      requires brk <= end
      reads this
    {
      || size == 0
      || (size <= ADDRESS_SPACE - HEAP_ALIGN &&
          (Fits(AlignUp(size, HEAP_ALIGN)) || GrowthRight(brk, end, AlignUp(size, HEAP_ALIGN))))
      || (size > ADDRESS_SPACE - HEAP_ALIGN && freeList == [] && brk + PAGE < ADDRESS_SPACE)
    }

    /** A request is answered as it should be exactly when it is sound; when it is not, it gets a
        block that is too small, or memory outside the heap. */
    lemma AnsweredIff(size: nat)
      requires Valid() && size < ADDRESS_SPACE
      ensures AnswerFor(size) == (if Refusable(size) then Null else Served) <==> Sound(size)
      ensures !Sound(size) ==> AnswerFor(size) == if Fits(RoundedWord(size)) then Small else Outside
    {
      hide HeapOk, GrowthAnswer, RoundedWord, GrowthRight, RoomFor, AlignUp;
      RoundingWraps(size);
      AlignUpFacts(size);
      if size <= ADDRESS_SPACE - HEAP_ALIGN {
        AlignedBelow(size);
        if size > 0 { GrowthAnswerIff(brk, end, AlignUp(size, HEAP_ALIGN)); }
      } else {
        ZeroGrowth(brk, end);
        NothingSoLarge(size);
        FitsZero();
      }
    }

    /** The retry after a growth finds the block, or it is not made, exactly when no second page
        is added for the one request that has no room for its header. */
    lemma RetriedOnceIff(size: nat)
      requires Valid() && size < ADDRESS_SPACE
      ensures GrowthsFor(size) <= 1 <==>
        size == 0 || Fits(RoundedWord(size)) || RoundedWord(size) + HDR <= ADDRESS_SPACE || brk + 2 * PAGE > end
    {
      hide HeapOk, Growths;
      assert RoundedWord(size) % HEAP_ALIGN == 0 && RoundedWord(size) < ADDRESS_SPACE;
      RetriedIff(brk, end, RoundedWord(size));
    }

    lemma NothingSoLarge(size: nat)
      requires Valid() && size > ADDRESS_SPACE - HEAP_ALIGN
      ensures !Fits(AlignUp(size, HEAP_ALIGN)) && !RoomFor(brk, end, AlignUp(size, HEAP_ALIGN))
    {
      AlignUpFacts(size);
      AlignUpFacts(AlignUp(size, HEAP_ALIGN) + HDR);
      forall b | b in freeList ensures b in hdrs && hdrs[b].size < ADDRESS_SPACE - HEAP_ALIGN {
        assert b in blocks;
        var i :| 0 <= i < |blocks| && blocks[i] == b;
        BlockAligned(start, brk, hdrs, blocks, i);
      }
    }

    lemma FitsZero()
      requires Valid()
      ensures Fits(0) <==> freeList != []
    {
      if freeList != [] { FreeBlock(freeList[0]); }
    }

    constructor (virtStart: nat, size: nat)
      requires 0 < virtStart && virtStart % HEAP_ALIGN == 0 && virtStart + size < ADDRESS_SPACE
      ensures start == virtStart && end == virtStart + size && live == [] && usedBytes == 0
      ensures (WordTest(virtStart, end, PAGE) ==> Inside(virtStart, end, PAGE)) ==> Valid()
      ensures virtStart + 8192 <= end ==>
        Valid() && brk == virtStart + 8192 && freeList == [virtStart] && hdrs == map[virtStart := Hdr(FREE, 8160, NULL)]
    {
      start := virtStart;
      end := virtStart + size;
      brk := virtStart;
      hdrs := map[];
      freeList, blocks, live := [], [], [];
      usedBytes, allocCount, freeCount, peakUsage := 0, 0, 0, 0;
      new;
      var _, _ := Expand(PAGE);
    }

    /** Add a free block at the end of the heap, at the head of the free list, if the 32-bit test
        passes.  When the block would not lie inside the heap (`outside`), nothing is said of what
        the code does then. */
    method Expand(minSize: nat) returns (blk: nat, outside: bool)
      requires Valid() && minSize < ADDRESS_SPACE
      modifies `brk, `hdrs, `freeList, `blocks
      ensures outside <==> old(WordTest(brk, end, minSize) && !Inside(brk, end, minSize))
      ensures !outside ==> Valid() && SizesKept(live, old(hdrs), hdrs)
      ensures !outside ==> (blk != NULL <==> old(Inside(brk, end, minSize)))
      ensures !outside && blk == NULL ==>
        brk == old(brk) && hdrs == old(hdrs) && freeList == old(freeList) && blocks == old(blocks)
      ensures !outside && blk != NULL ==>
        blk == old(brk) && brk == old(brk) + ExpandWord(minSize) && freeList == [blk] + old(freeList)
      ensures !outside && blk != NULL ==>
        blk !in old(freeList) && hdrs == old(hdrs)[blk := Hdr(FREE, Recorded(minSize), NULL)]
    {
      hide HeapOk, ExpandWord, Recorded;
      LiveKnown();
      RecordedSize(minSize);
      outside := false;
      var expand := ExpandWord(minSize);
      if (brk + expand) % ADDRESS_SPACE > end { return NULL, outside; }
      if expand == 0 || brk + expand > end { return brk, true; }
      BrkNotNull();
      ExpandOk(start, brk, hdrs, freeList, blocks, live, usedBytes, expand - HDR);
      blk := brk;
      brk := brk + expand;
      hdrs := hdrs[blk := Hdr(FREE, expand - HDR, NULL)];
      freeList := [blk] + freeList;
      blocks := blocks + [blk];
    }

    lemma FreeKnown()
      requires Valid()
      ensures Distinct(freeList) && forall b :: b in freeList ==> b in hdrs && b < brk && hdrs[b].magic == FREE
    {
      forall b | b in freeList ensures b in hdrs && b < brk && hdrs[b].magic == FREE {
        FreeBlock(b);
        var i :| 0 <= i < |blocks| && blocks[i] == b;
        BlockAligned(start, brk, hdrs, blocks, i);
      }
    }

    lemma KeptSame()
      requires Valid()
      ensures SizesKept(live, hdrs, hdrs)
      ensures forall blk: int :: FreeKept(freeList, hdrs, freeList, hdrs, blk)
    {
      FreeKnown();
      LiveKnown();
    }

    lemma LiveKnown()
      requires Valid()
      ensures Distinct(live) && brk !in live && brk !in freeList
      ensures forall b :: b in live ==> b in hdrs && b !in freeList
      ensures live != [] ==> live[|live| - 1] !in live[..|live| - 1]
    {
      LayoutDistinct(start, brk, hdrs, blocks);
    }

    lemma BrkNotNull()
      requires Valid()
      ensures brk > 0
    {
      if blocks != [] { BlockAligned(start, brk, hdrs, blocks, |blocks| - 1); }
    }

    lemma FreeBlock(b: nat)
      requires Valid() && b in freeList
      ensures b in hdrs && hdrs[b].magic == FREE
      ensures exists i :: 0 <= i < |blocks| && blocks[i] == b && IsFree(freeList, blocks, i)
    {
      assert b in blocks;
    }

    /** First fit: the first block of the free list that is large enough, or NULL. */
    method FirstFit(size: nat) returns (blk: nat)
      requires Valid()
      ensures blk == NULL <==> !Fits(size)
      ensures blk != NULL ==> blk in freeList && blk in hdrs && hdrs[blk].size >= size
      ensures blk != NULL ==> FirstIn(freeList, hdrs, size, blk)
    {
      hide HeapOk;
      var k := 0;
      while k < |freeList|
        invariant k <= |freeList| && TooSmall(freeList[..k], hdrs, size)
      {
        blk := freeList[k];
        FreeBlock(blk);
        NotNull(blk);
        if hdrs[blk].magic == FREE && hdrs[blk].size >= size { return; }
        assert freeList[..k + 1] == freeList[..k] + [blk];
        k := k + 1;
      }
      assert freeList[..k] == freeList;
      blk := NULL;
    }

    lemma NotNull(b: nat)
      requires Valid() && b in freeList
      ensures b != NULL
    {
      LayoutDistinct(start, brk, hdrs, blocks);
    }

    /** The newest live block is `blk`, whose header is about to be marked used. */
    ghost predicate Taking(blk: nat)
      reads this
    {
      && blk in hdrs && live != [] && live[|live| - 1] == blk && brk <= end < ADDRESS_SPACE
      && HeapOk(start, brk, Marked(hdrs, blk), freeList, blocks, live, usedBytes + hdrs[blk].size)
      && usedBytes <= peakUsage
    }

    /** The block in hand is cut down to `size` when the rest can stand alone; the rest goes to
        the head of the free list. */
    method MaybeSplit(blk: nat, size: nat)
      requires Taking(blk) && NobodyBehind(Marked(hdrs, blk), blocks, blk)
      requires hdrs[blk].size >= size && size % HEAP_ALIGN == 0
      modifies `hdrs, `freeList, `blocks
      ensures Taking(blk) && size <= hdrs[blk].size < size + MIN_BLOCK
      ensures hdrs[blk].magic == old(hdrs)[blk].magic && SizesKept(live[..|live| - 1], old(hdrs), hdrs)
      ensures if old(hdrs)[blk].size < size + MIN_BLOCK then hdrs == old(hdrs) && freeList == old(freeList)
        else freeList == [blk + HDR + size] + old(freeList) &&
             hdrs == SplitHeaders(old(hdrs), blk, size) && blk + HDR + size !in old(freeList)
    {
      hide HeapOk;
      ghost var i := NewestIndex(blk);
      if hdrs[blk].size < size + MIN_BLOCK { return; }
      SplitOk(start, brk, Marked(hdrs, blk), freeList, blocks, live, usedBytes + hdrs[blk].size, i, size);
      RemainderFresh(blk, i, size);
      var remainder := blk + HDR + size;
      ghost var split := SplitHeaders(Marked(hdrs, blk), blk, size);
      hdrs := hdrs[remainder := Hdr(FREE, hdrs[blk].size - size - HDR, blk)];
      freeList := [remainder] + freeList;
      hdrs := hdrs[blk := hdrs[blk].(size := size)];
      blocks := Insert(blocks, i, remainder);
      assert Marked(hdrs, blk) == split;
    }

    lemma NewestIndex(blk: nat) returns (i: nat)
      requires Taking(blk)
      ensures i < |blocks| && blocks[i] == blk
      ensures forall b :: b in live[..|live| - 1] ==> b in hdrs && b != blk
    {
      assert live[|live| - 1] in live;
      assert blk in blocks;
      i :| 0 <= i < |blocks| && blocks[i] == blk;
      forall b | b in live[..|live| - 1] ensures b in hdrs && b != blk { assert b in live && b in blocks; }
    }

    lemma RemainderFresh(blk: nat, i: nat, size: nat)
      requires Taking(blk) && i < |blocks| && blocks[i] == blk && size % HEAP_ALIGN == 0 && hdrs[blk].size >= size + HDR
      ensures blk + HDR + size !in live && blk + HDR + size !in freeList
    {
      SplitLayout(start, brk, Marked(hdrs, blk), blocks, i, size);
    }

    /** The block leaves the free list, still marked free. */
    method TakeOff(blk: nat)
      requires Valid() && blk in freeList
      modifies `freeList, `live
      ensures Taking(blk) && NobodyBehind(Marked(hdrs, blk), blocks, blk)
      ensures freeList == Remove(old(freeList), blk) && live == old(live) + [blk]
    {
      hide HeapOk, Remove;
      FreeBlock(blk);
      ghost var i :| 0 <= i < |blocks| && blocks[i] == blk && IsFree(freeList, blocks, i);
      TakeOk(start, brk, hdrs, freeList, blocks, live, usedBytes, i);
      freeList := Remove(freeList, blk);
      live := live + [blk];
      assert Marked(hdrs, blk)[blk].prevPhys == hdrs[blk].prevPhys;
    }

    /** Take a free block off the list, cut it down, mark it used and count it. */
    method Carve(blk: nat, size: nat)
      requires Valid() && blk in freeList && blk in hdrs && hdrs[blk].size >= size && size % HEAP_ALIGN == 0
      modifies `hdrs, `freeList, `blocks, `live, `usedBytes, `peakUsage, `allocCount
      ensures Valid() && live == old(live) + [blk] && blk in hdrs && size <= hdrs[blk].size < size + MIN_BLOCK
      ensures usedBytes == old(usedBytes) + hdrs[blk].size && allocCount == old(allocCount) + 1
      ensures peakUsage == if usedBytes > old(peakUsage) then usedBytes else old(peakUsage)
      ensures SizesKept(old(live), old(hdrs), hdrs)
      ensures FreeKept(old(freeList), old(hdrs), freeList, hdrs, blk)
      ensures RestFree(old(hdrs)[blk].size, freeList, hdrs, blk)
    {
      hide HeapOk, NobodyBehind, Remove, FreeKept, RestFree;
      FreeKnown();
      TakeOff(blk);
      assert live[..|live| - 1] == old(live);
      MaybeSplit(blk, size);
      ghost var _ := NewestIndex(blk);
      CarvedRest(old(hdrs), old(freeList), hdrs, freeList, blk, size);
      hdrs := hdrs[blk := hdrs[blk].(magic := USED)];
      usedBytes := usedBytes + hdrs[blk].size;
      allocCount := allocCount + 1;
      if usedBytes > peakUsage { peakUsage := usedBytes; }
    }

    /** Allocate: the first block that fits, or growth and another try, as often as it takes.  The
        answer is that of `AnswerFor`; `growths` counts the retries.  When it is `Outside`, nothing
        is said of what the code does then. */
    method Kmalloc(size: nat) returns (ptr: nat, ghost answer: Answer, ghost growths: nat)
      requires Valid() && size < ADDRESS_SPACE
      modifies this
      ensures answer == old(AnswerFor(size)) && growths == old(GrowthsFor(size))
      ensures answer != Outside ==> Valid() && SizesKept(old(live), old(hdrs), hdrs)
      ensures answer != Outside ==> brk == old(brk) + Grown(RoundedWord(size), growths)
      ensures answer != Outside ==> FreeKept(old(freeList), old(hdrs), freeList, hdrs, ptr - 32)
      ensures (answer == Served || answer == Small) && ptr - 32 in old(freeList) ==>
        ptr - 32 in old(hdrs) && RestFree(old(hdrs)[ptr - 32].size, freeList, hdrs, ptr - 32)
      ensures answer == Null ==> ptr == NULL && live == old(live) && usedBytes == old(usedBytes)
      ensures answer == Null ==> allocCount == old(allocCount) && peakUsage == old(peakUsage)
      ensures answer == Served || answer == Small ==>
        && allocCount == old(allocCount) + 1
        && peakUsage == if usedBytes > old(peakUsage) then usedBytes else old(peakUsage)
      ensures freeCount == old(freeCount)
      ensures answer == Served || answer == Small ==>
        && ptr % HEAP_ALIGN == 0 && ptr > HDR && live == old(live) + [ptr - HDR] && ptr - HDR in hdrs
        && RoundedWord(size) <= hdrs[ptr - HDR].size < RoundedWord(size) + MIN_BLOCK
        && usedBytes == old(usedBytes) + hdrs[ptr - HDR].size
      ensures answer == Served ==> ptr % 16 == 0 && size <= hdrs[ptr - 32].size < size + 63
      ensures answer == Small ==> hdrs[ptr - HDR].size < size
      ensures (answer == Served || answer == Small) && old(Fits(RoundedWord(size))) ==>
        FirstIn(old(freeList), old(hdrs), RoundedWord(size), ptr - HDR)
      ensures answer == Served && !old(Fits(RoundedWord(size))) ==> ptr == old(brk) + HDR
      decreases end - brk
    {
      hide HeapOk, AlignUp, FirstIn, TooSmall, Marked, RoundedWord, GrowthAnswer;
      hide Growths, ExpandWord, Recorded, WordTest, Inside, Grown, FreeKept, RestFree, SizesKept;
      LiveKnown();
      KeptSame();
      GrownMore(RoundedWord(size), 0);
      if size == 0 { return NULL, Null, 0; }
      RoundedFacts(size);
      var aligned := RoundedWord(size);
      var blk := FirstFit(aligned);
      if blk != NULL {
        Carve(blk, aligned);
        PayloadAligned(|live| - 1);
        return blk + HDR, if size <= ADDRESS_SPACE - HEAP_ALIGN then Served else Small, 0;
      }
      GrowthStep(brk, end, aligned);
      FreeKnown();
      ghost var was, list := hdrs, freeList;
      var outside;
      blk, outside := Expand(aligned);
      if outside { return NULL, Outside, 0; }
      if blk == NULL { return NULL, Null, 0; }
      assert blk !in list;
      ghost var hdrs1 := hdrs;
      FitsAfter(list, was, blk, Hdr(FREE, Recorded(aligned), NULL), aligned);
      if Recorded(aligned) >= aligned { HeadFits(freeList, hdrs, aligned); }
      ptr, answer, growths := Kmalloc(aligned);
      if answer != Outside {
        SizesTransitive(old(live), was, hdrs1, hdrs);
        KeptAfterGrowth(list, was, blk, Hdr(FREE, Recorded(aligned), NULL), freeList, hdrs, ptr - 32);
      }
      GrownMore(aligned, growths);
      growths := growths + 1;
    }

    lemma PayloadAligned(k: nat)
      requires Valid() && k < |live|
      ensures (live[k] + HDR) % HEAP_ALIGN == 0 && live[k] >= start > 0
    {
      assert live[k] in blocks;
      var i :| 0 <= i < |blocks| && blocks[i] == live[k];
      BlockAligned(start, brk, hdrs, blocks, i);
    }

    /** Two live payloads never overlap, and none reaches into another's header. */
    lemma PayloadsDisjoint(j: nat, k: nat)
      requires Valid() && j < |live| && k < |live| && j != k
      ensures live[j] in hdrs && live[k] in hdrs
      ensures live[j] + HDR + hdrs[live[j]].size <= live[k] || live[k] + HDR + hdrs[live[k]].size <= live[j]
    {
      assert live[j] in blocks && live[k] in blocks;
      var x :| 0 <= x < |blocks| && blocks[x] == live[j];
      var y :| 0 <= y < |blocks| && blocks[y] == live[k];
      assert live[j] != live[k];
      if x < y { LaterBlock(start, brk, hdrs, blocks, x, y); } else { LaterBlock(start, brk, hdrs, blocks, y, x); }
    }

    /** Every live payload lies inside the heap. */
    lemma PayloadInside(k: nat)
      requires Valid() && k < |live|
      ensures live[k] in hdrs && start <= live[k] && live[k] + HDR + hdrs[live[k]].size <= brk <= end
    {
      assert live[k] in blocks;
      var i :| 0 <= i < |blocks| && blocks[i] == live[k];
      BlockAligned(start, brk, hdrs, blocks, i);
    }

    /** What a free of the newest block finds around it. */
    lemma Neighbours() returns (i: nat)
      requires Valid() && live != []
      ensures Newest(blocks, live, i) && blocks[i] in hdrs && hdrs[blocks[i]].magic == USED
      ensures blocks[i] + HDR + hdrs[blocks[i]].size == Next(brk, blocks, i)
      ensures i + 1 < |blocks| ==>
        blocks[i + 1] in hdrs && blocks[i + 1] < brk && (hdrs[blocks[i + 1]].magic == FREE <==> blocks[i + 1] !in live)
      ensures var p := hdrs[blocks[i]].prevPhys; p != NULL ==> p in hdrs && p != blocks[i] && hdrs[p].magic == USED
    {
      var b := live[|live| - 1];
      assert b in blocks;
      i :| 0 <= i < |blocks| && blocks[i] == b;
      assert HeapSpec.Fits(brk, hdrs, blocks, i);
      NoBackwardMerge(start, brk, hdrs, freeList, blocks, live, usedBytes, i);
      if i + 1 < |blocks| {
        assert blocks[i + 1] in blocks;
        BlockAligned(start, brk, hdrs, blocks, i + 1);
      }
    }

    /** Free: a no-op for null, for a block that is not in use, otherwise the newest block is
        released, merged with a free block after it.  The merge with the block before never happens. */
    method Kfree(ptr: nat)
      requires Valid() && (ptr != NULL ==> ptr >= HDR && ptr - HDR in hdrs)
      requires ptr != NULL && hdrs[ptr - HDR].magic == USED ==> live != [] && live[|live| - 1] == ptr - HDR
      modifies this
      ensures Valid()
      ensures if ptr != NULL && old(hdrs)[ptr - HDR].magic == USED
        then live == old(live)[..|old(live)| - 1] && usedBytes == old(usedBytes) - old(hdrs)[ptr - HDR].size &&
             freeCount == old(freeCount) + 1
        else live == old(live) && usedBytes == old(usedBytes) && hdrs == old(hdrs) && freeList == old(freeList)
      ensures ptr != NULL && old(hdrs)[ptr - HDR].magic == USED ==>
        ptr - 32 in old(hdrs) && Coalesced(brk, old(hdrs), old(freeList), hdrs, freeList, ptr - 32)
      ensures brk == old(brk) && SizesKept(live, old(hdrs), hdrs)
      ensures allocCount == old(allocCount) && peakUsage == old(peakUsage)
    {
      hide HeapOk, Coalesced, Remove, RemoveAt, Newest, NobodyBehind;
      FreeKnown();
      LiveKnown();
      if ptr == NULL || hdrs[ptr - HDR].magic != USED { return; }
      var blk := ptr - HDR;
      ghost var i := Neighbours();
      ghost var was, list, used := hdrs, freeList, usedBytes;
      usedBytes := usedBytes - hdrs[blk].size;
      freeCount := freeCount + 1;
      hdrs := hdrs[blk := hdrs[blk].(magic := FREE)];
      var next := blk + HDR + hdrs[blk].size;
      if next < brk && hdrs[next].magic == FREE {
        MergeOk(start, brk, was, list, blocks, live, used, i);
        freeList := Remove(freeList, next);
        hdrs := hdrs[blk := hdrs[blk].(size := hdrs[blk].size + HDR + hdrs[next].size)];
        blocks := RemoveAt(blocks, i + 1);
        assert hdrs == was[blk := Hdr(FREE, was[blk].size + 32 + was[next].size, was[blk].prevPhys)];
      } else {
        NobodyBehindTop(start, brk, was, list, blocks, live, used, i);
        ReleaseOk(start, brk, was, list, blocks, live, used, i);
        FreedAlone(brk, was, list, blk);
      }
      var prev := hdrs[blk].prevPhys;
      if prev != NULL && hdrs[prev].magic == FREE {
        assert false;   // the block before is live: freed later than this one
      }
      freeList := [blk] + freeList;
      live := live[..|live| - 1];
    }

    lemma NewestUsed()
      requires Valid() && live != []
      ensures var b := live[|live| - 1]; b in hdrs && hdrs[b].magic == USED && b > 0
    {
      var i := Neighbours();
      BlockAligned(start, brk, hdrs, blocks, i);
    }

    /** Conservation over a pair of calls: after a request that gets a block, and the free of that
        block, the live blocks are the same, and every size that fitted before fits again. */
    method KmallocThenKfree(size: nat) returns (ptr: nat)
      requires Valid() && size < ADDRESS_SPACE && AnswerFor(size) in {Served, Small}
      modifies this
      ensures Valid() && live == old(live) && usedBytes == old(usedBytes) && SizesKept(live, old(hdrs), hdrs)
      ensures forall n: nat :: old(Fits(n)) ==> Fits(n)
    {
      hide HeapOk, AnswerFor, GrowthsFor, Growths, FreeKept, RestFree, Coalesced, FirstIn, RoundedWord, Grown;
      ghost var list, was, before := freeList, hdrs, live;
      ghost var answer, growths;
      ptr, answer, growths := Kmalloc(size);
      ghost var list1, hdrs1 := freeList, hdrs;
      NewestUsed();
      LiveKnown();
      FreeKnown();
      assert live[|live| - 1] == ptr - 32 && live[..|live| - 1] == before;
      Kfree(ptr);
      forall n: nat | old(Fits(n)) ensures Fits(n) {
        FitsAgain(brk, list, was, list1, hdrs1, freeList, hdrs, ptr - 32, n);
      }
    }
  }
}
