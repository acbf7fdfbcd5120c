/** Blocks of the kernel heap: headers that tile the heap, and what keeps the
    back pointers honest when blocks are freed in stack order. */
module HeapSpec {
  import opened Basics

  const HDR: nat := 32
  const HEAP_ALIGN: nat := 16
  const MIN_BLOCK: nat := 48     // a header and one unit of payload
  const PAGE: nat := 4096
  const NULL: nat := 0

  datatype Magic = FREE | USED

  datatype Hdr = Hdr(magic: Magic, size: nat, prevPhys: nat)

  type Headers = map<nat, Hdr>

  function Remove(l: seq<nat>, x: nat): (r: seq<nat>) {
    if l == [] then [] else if l[0] == x then l[1..] else [l[0]] + Remove(l[1..], x)
  }

  lemma {:induction false} RemoveMembers(l: seq<nat>, x: nat)
    requires Distinct(l)
    ensures Distinct(Remove(l, x)) && forall y :: y in Remove(l, x) <==> y in l && y != x
  {
    if l != [] {
      assert l == [l[0]] + l[1..];
      RemoveMembers(l[1..], x);
      var r := Remove(l[1..], x);
      assert forall k :: 0 <= k < |r| ==> r[k] in r && r[k] in l[1..];
      assert l[0] !in l[1..];
    }
  }

  function Next(brk: nat, blocks: seq<nat>, i: nat): nat { if i + 1 < |blocks| then blocks[i + 1] else brk }

  /** Block `i` has a header, is a multiple of the unit, and ends where the next one starts. */
  ghost predicate Fits(brk: nat, hdrs: Headers, blocks: seq<nat>, i: nat)
    requires i < |blocks|
  {
    blocks[i] in hdrs && hdrs[blocks[i]].size % HEAP_ALIGN == 0 &&
    blocks[i] + HDR + hdrs[blocks[i]].size == Next(brk, blocks, i)
  }

  /** Headers tile the heap from `start` to `brk`. */
  ghost predicate Layout(start: nat, brk: nat, hdrs: Headers, blocks: seq<nat>) {
    && 0 < start && start % HEAP_ALIGN == 0
    && (if blocks == [] then brk == start else blocks[0] == start)
    && (forall i :: 0 <= i < |blocks| ==> Fits(brk, hdrs, blocks, i))
  }

  /** A later block starts where an earlier one ends, or after. */
  lemma {:induction false} LaterBlock(start: nat, brk: nat, hdrs: Headers, blocks: seq<nat>, i: nat, j: nat)
    requires Layout(start, brk, hdrs, blocks) && i < j < |blocks|
    ensures blocks[i] in hdrs && blocks[i] + HDR + hdrs[blocks[i]].size <= blocks[j]
    decreases j - i
  {
    assert Fits(brk, hdrs, blocks, i);
    if i + 1 < j { LaterBlock(start, brk, hdrs, blocks, i + 1, j); }
  }

  lemma {:induction false} BlockAligned(start: nat, brk: nat, hdrs: Headers, blocks: seq<nat>, i: nat)
    requires Layout(start, brk, hdrs, blocks) && i < |blocks|
    ensures blocks[i] in hdrs && blocks[i] % HEAP_ALIGN == 0 && start <= blocks[i]
    ensures blocks[i] + HDR + hdrs[blocks[i]].size <= brk
  {
    assert Fits(brk, hdrs, blocks, i) && Fits(brk, hdrs, blocks, |blocks| - 1);
    if i > 0 {
      BlockAligned(start, brk, hdrs, blocks, i - 1);
      assert Fits(brk, hdrs, blocks, i - 1);
    }
    if i + 1 < |blocks| { LaterBlock(start, brk, hdrs, blocks, i, |blocks| - 1); }
  }

  lemma LayoutDistinct(start: nat, brk: nat, hdrs: Headers, blocks: seq<nat>)
    requires Layout(start, brk, hdrs, blocks)
    ensures Distinct(blocks) && brk !in blocks && NULL !in blocks
  {
    forall i, j | 0 <= i < j < |blocks| ensures blocks[i] != blocks[j] { LaterBlock(start, brk, hdrs, blocks, i, j); }
    forall i | 0 <= i < |blocks| ensures blocks[i] != brk && blocks[i] != NULL {
      BlockAligned(start, brk, hdrs, blocks, i);
    }
  }

  /** The live blocks, oldest first, are the ones tagged used; the free list holds the others. */
  ghost predicate Tagged(hdrs: Headers, freeList: seq<nat>, blocks: seq<nat>, live: seq<nat>) {
    && Distinct(live) && Distinct(freeList)
    && (forall b :: b in live ==> b in blocks)
    && (forall b :: b in blocks ==> b in hdrs && (hdrs[b].magic == USED <==> b in live))
    && (forall b :: b in freeList <==> b in blocks && b !in live)
  }

  ghost predicate Older(live: seq<nat>, a: nat, b: nat) {
    exists k :: 0 <= k < |live| && live[k] == b && a in live[..k]
  }

  /** A back pointer is null or names the block just before, which is live, and older than this one. */
  ghost predicate BackPointer(hdrs: Headers, blocks: seq<nat>, live: seq<nat>, i: nat)
    requires i < |blocks|
  {
    blocks[i] in hdrs && hdrs[blocks[i]].prevPhys != NULL ==>
      i > 0 && hdrs[blocks[i]].prevPhys == blocks[i - 1] && blocks[i - 1] in live &&
      (blocks[i] in live ==> Older(live, blocks[i - 1], blocks[i]))
  }

  ghost predicate BackPointers(hdrs: Headers, blocks: seq<nat>, live: seq<nat>) {
    forall i :: 0 <= i < |blocks| ==> BackPointer(hdrs, blocks, live, i)
  }

  ghost function Sum(hdrs: Headers, live: seq<nat>): nat
    requires forall b :: b in live ==> b in hdrs
  {
    if live == [] then 0 else Sum(hdrs, live[..|live| - 1]) + hdrs[live[|live| - 1]].size
  }

  lemma {:induction false} SumFrame(hdrs: Headers, hdrs': Headers, live: seq<nat>)
    requires forall b :: b in live ==> b in hdrs && b in hdrs' && hdrs'[b].size == hdrs[b].size
    ensures Sum(hdrs', live) == Sum(hdrs, live)
  {
    if live != [] { SumFrame(hdrs, hdrs', live[..|live| - 1]); }
  }

  ghost predicate HeapOk(start: nat, brk: nat, hdrs: Headers, freeList: seq<nat>, blocks: seq<nat>, live: seq<nat>,
                         used: int) {
    && Layout(start, brk, hdrs, blocks) && Tagged(hdrs, freeList, blocks, live) && BackPointers(hdrs, blocks, live)
    && used == Sum(hdrs, live)
  }

  // ---- growing the heap ----

  lemma ExpandLayout(start: nat, brk: nat, hdrs: Headers, blocks: seq<nat>, size: nat)
    requires Layout(start, brk, hdrs, blocks) && size % HEAP_ALIGN == 0
    ensures Layout(start, brk + HDR + size, hdrs[brk := Hdr(FREE, size, NULL)], blocks + [brk])
  {
    LayoutDistinct(start, brk, hdrs, blocks);
    var hdrs' := hdrs[brk := Hdr(FREE, size, NULL)];
    var blocks' := blocks + [brk];
    var brk' := brk + HDR + size;
    forall i | 0 <= i < |blocks'| ensures Fits(brk', hdrs', blocks', i) {
      if i < |blocks| { assert Fits(brk, hdrs, blocks, i) && blocks[i] in blocks; }
    }
  }

  lemma ExpandOk(start: nat, brk: nat, hdrs: Headers, freeList: seq<nat>, blocks: seq<nat>, live: seq<nat>, used: int,
                 size: nat)
    requires HeapOk(start, brk, hdrs, freeList, blocks, live, used) && size % HEAP_ALIGN == 0
    ensures var hdrs' := hdrs[brk := Hdr(FREE, size, NULL)];
      HeapOk(start, brk + HDR + size, hdrs', [brk] + freeList, blocks + [brk], live, used)
  {
    hide Layout, Older;
    LayoutDistinct(start, brk, hdrs, blocks);
    ExpandLayout(start, brk, hdrs, blocks, size);
    SumFrame(hdrs, hdrs[brk := Hdr(FREE, size, NULL)], live);
    ExpandBack(hdrs, blocks, live, brk, size);
  }

  lemma ExpandBack(hdrs: Headers, blocks: seq<nat>, live: seq<nat>, brk: nat, size: nat)
    requires BackPointers(hdrs, blocks, live) && brk !in blocks
    ensures BackPointers(hdrs[brk := Hdr(FREE, size, NULL)], blocks + [brk], live)
  {
    var hdrs', blocks' := hdrs[brk := Hdr(FREE, size, NULL)], blocks + [brk];
    forall k | 0 <= k < |blocks'| ensures BackPointer(hdrs', blocks', live, k) {
      if k < |blocks| { assert BackPointer(hdrs, blocks, live, k) && blocks[k] in blocks; }
    }
  }

  // ---- taking a block ----

  /** No block's back pointer names `b`. */
  ghost predicate NobodyBehind(hdrs: Headers, blocks: seq<nat>, b: nat) {
    forall k :: 0 <= k < |blocks| && blocks[k] in hdrs ==> hdrs[blocks[k]].prevPhys != b
  }

  ghost predicate IsFree(freeList: seq<nat>, blocks: seq<nat>, i: nat) {
    i < |blocks| && blocks[i] in freeList
  }

  /** Marking a free block used: it becomes the newest live block. */
  lemma TakeOk(start: nat, brk: nat, hdrs: Headers, freeList: seq<nat>, blocks: seq<nat>, live: seq<nat>, used: int,
               i: nat)
    requires HeapOk(start, brk, hdrs, freeList, blocks, live, used) && IsFree(freeList, blocks, i)
    ensures var b := blocks[i];
      b in hdrs &&
      var hdrs' := hdrs[b := hdrs[b].(magic := USED)];
      HeapOk(start, brk, hdrs', Remove(freeList, b), blocks, live + [b], used + hdrs[b].size)
    ensures NobodyBehind(hdrs, blocks, blocks[i])
  {
    hide Layout, BackPointers, NobodyBehind, Sum;
    LayoutDistinct(start, brk, hdrs, blocks);
    var b := blocks[i];
    assert b in blocks && b != NULL;
    RetagLayout(start, brk, hdrs, blocks, i, USED);
    RemoveMembers(freeList, b);
    SumTake(hdrs, live, b);
    TakeBack(hdrs, blocks, live, i);
    NobodyBehindFree(hdrs, blocks, live, b);
    TakeTagged(hdrs, freeList, blocks, live, b);
  }

  lemma TakeTagged(hdrs: Headers, freeList: seq<nat>, blocks: seq<nat>, live: seq<nat>, b: nat)
    requires Tagged(hdrs, freeList, blocks, live) && b in blocks && b in freeList
    ensures b in hdrs && Tagged(hdrs[b := hdrs[b].(magic := USED)], Remove(freeList, b), blocks, live + [b])
  {
    RemoveMembers(freeList, b);
    assert forall j :: 0 <= j < |live| ==> live[j] in live;
  }

  lemma SumTake(hdrs: Headers, live: seq<nat>, b: nat)
    requires b in hdrs && b !in live && forall x :: x in live ==> x in hdrs
    ensures forall x :: x in live + [b] ==> x in hdrs
    ensures Sum(hdrs[b := hdrs[b].(magic := USED)], live + [b]) == Sum(hdrs, live) + hdrs[b].size
  {
    SumFrame(hdrs, hdrs[b := hdrs[b].(magic := USED)], live);
    assert (live + [b])[..|live|] == live;
  }

  /** Back pointers name live blocks only. */
  lemma NobodyBehindFree(hdrs: Headers, blocks: seq<nat>, live: seq<nat>, b: nat)
    requires BackPointers(hdrs, blocks, live) && b !in live && b != NULL
    ensures NobodyBehind(hdrs, blocks, b)
  {
    hide Older;
    forall k | 0 <= k < |blocks| && blocks[k] in hdrs ensures hdrs[blocks[k]].prevPhys != b {
      assert BackPointer(hdrs, blocks, live, k);
    }
  }

  lemma RetagLayout(start: nat, brk: nat, hdrs: Headers, blocks: seq<nat>, i: nat, magic: Magic)
    requires Layout(start, brk, hdrs, blocks) && i < |blocks|
    ensures blocks[i] in hdrs && Layout(start, brk, hdrs[blocks[i] := hdrs[blocks[i]].(magic := magic)], blocks)
  {
    assert Fits(brk, hdrs, blocks, i);
    var hdrs' := hdrs[blocks[i] := hdrs[blocks[i]].(magic := magic)];
    forall k | 0 <= k < |blocks| ensures Fits(brk, hdrs', blocks, k) {
      assert Fits(brk, hdrs, blocks, k);
    }
  }

  lemma TakeBack(hdrs: Headers, blocks: seq<nat>, live: seq<nat>, i: nat)
    requires BackPointers(hdrs, blocks, live) && Distinct(blocks) && i < |blocks| && blocks[i] !in live
    ensures blocks[i] in hdrs ==>
      BackPointers(hdrs[blocks[i] := hdrs[blocks[i]].(magic := USED)], blocks, live + [blocks[i]])
  {
    var b := blocks[i];
    var live' := live + [b];
    if b in hdrs {
      var hdrs' := hdrs[b := hdrs[b].(magic := USED)];
      forall k | 0 <= k < |blocks| ensures BackPointer(hdrs', blocks, live', k) {
        assert BackPointer(hdrs, blocks, live, k);
        if blocks[k] in live {
          if k > 0 && Older(live, blocks[k - 1], blocks[k]) { OlderGrows(live, b, blocks[k - 1], blocks[k]); }
        } else if blocks[k] == b {
          assert live'[|live|] == b && live'[..|live|] == live;
        }
      }
    }
  }

  lemma OlderGrows(live: seq<nat>, x: nat, a: nat, b: nat)
    requires Older(live, a, b)
    ensures Older(live + [x], a, b)
  {
    var k :| 0 <= k < |live| && live[k] == b && a in live[..k];
    assert (live + [x])[k] == b && (live + [x])[..k] == live[..k];
  }

  // ---- splitting the block just taken ----

  function SplitHeaders(hdrs: Headers, b: nat, size: nat): Headers
    requires b in hdrs && hdrs[b].size >= size + HDR
  {
    hdrs[b + HDR + size := Hdr(FREE, hdrs[b].size - size - HDR, b)][b := hdrs[b].(size := size)]
  }

  function Insert(blocks: seq<nat>, i: nat, r: nat): seq<nat>
    requires i < |blocks|
  {
    blocks[..i + 1] + [r] + blocks[i + 1..]
  }

  lemma SplitLayout(start: nat, brk: nat, hdrs: Headers, blocks: seq<nat>, i: nat, size: nat)
    requires Layout(start, brk, hdrs, blocks) && i < |blocks| && size % HEAP_ALIGN == 0
    requires blocks[i] in hdrs && hdrs[blocks[i]].size >= size + HDR
    ensures Layout(start, brk, SplitHeaders(hdrs, blocks[i], size), Insert(blocks, i, blocks[i] + HDR + size))
    ensures blocks[i] + HDR + size !in blocks
  {
    var b := blocks[i];
    var r := b + HDR + size;
    SplitFresh(start, brk, hdrs, blocks, i, size);
    LayoutDistinct(start, brk, hdrs, blocks);
    var hdrs', blocks' := SplitHeaders(hdrs, b, size), Insert(blocks, i, r);
    forall k | 0 <= k < |blocks'| ensures Fits(brk, hdrs', blocks', k) {
      if k <= i {
        assert Fits(brk, hdrs, blocks, k) && blocks'[k] == blocks[k];
      } else if k > i + 1 {
        assert Fits(brk, hdrs, blocks, k - 1) && blocks'[k] == blocks[k - 1];
      }
    }
  }

  lemma SplitFresh(start: nat, brk: nat, hdrs: Headers, blocks: seq<nat>, i: nat, size: nat)
    requires Layout(start, brk, hdrs, blocks) && i < |blocks|
    requires blocks[i] in hdrs && hdrs[blocks[i]].size >= size + HDR
    ensures blocks[i] + HDR + size !in blocks && Fits(brk, hdrs, blocks, i)
  {
    assert Fits(brk, hdrs, blocks, i);
    forall k | 0 <= k < |blocks| ensures blocks[k] != blocks[i] + HDR + size {
      if k < i { LaterBlock(start, brk, hdrs, blocks, k, i); }
      if k > i { LaterBlock(start, brk, hdrs, blocks, i, k); }
    }
  }

  lemma InsertMembers(blocks: seq<nat>, i: nat, r: nat)
    requires i < |blocks|
    ensures forall x :: x in Insert(blocks, i, r) <==> x in blocks || x == r
  {
    assert blocks == blocks[..i + 1] + blocks[i + 1..];
  }

  /** Splitting the newest live block: the remainder is free and points back to it. */
  lemma SplitOk(start: nat, brk: nat, hdrs: Headers, freeList: seq<nat>, blocks: seq<nat>, live: seq<nat>, used: int,
                i: nat, size: nat)
    requires HeapOk(start, brk, hdrs, freeList, blocks, live, used) && i < |blocks| && size % HEAP_ALIGN == 0
    requires blocks[i] in hdrs && hdrs[blocks[i]].size >= size + HDR
    requires live != [] && live[|live| - 1] == blocks[i] && NobodyBehind(hdrs, blocks, blocks[i])
    ensures var b := blocks[i];
      var r := b + HDR + size;
      var used' := used - (hdrs[b].size - size);
      HeapOk(start, brk, SplitHeaders(hdrs, b, size), [r] + freeList, Insert(blocks, i, r), live, used')
  {
    hide Layout, BackPointers, NobodyBehind, Sum, Insert;
    var b := blocks[i];
    LayoutDistinct(start, brk, hdrs, blocks);
    SplitLayout(start, brk, hdrs, blocks, i, size);
    InsertMembers(blocks, i, b + HDR + size);
    SplitBack(hdrs, blocks, live, i, size);
    SplitSum(hdrs, live, b, size);
    assert b in blocks;
  }

  lemma SplitSum(hdrs: Headers, live: seq<nat>, b: nat, size: nat)
    requires b in hdrs && hdrs[b].size >= size + HDR && live != [] && live[|live| - 1] == b && Distinct(live)
    requires b + HDR + size !in live && forall x :: x in live ==> x in hdrs
    ensures forall x :: x in live ==> x in SplitHeaders(hdrs, b, size)
    ensures Sum(SplitHeaders(hdrs, b, size), live) == Sum(hdrs, live) - (hdrs[b].size - size)
  {
    var older := live[..|live| - 1];
    assert forall x :: x in older ==> x in live && x != b;
    SumFrame(hdrs, SplitHeaders(hdrs, b, size), older);
  }

  lemma SplitBack(hdrs: Headers, blocks: seq<nat>, live: seq<nat>, i: nat, size: nat)
    requires BackPointers(hdrs, blocks, live) && Distinct(blocks) && i < |blocks| && blocks[i] in live
    requires blocks[i] in hdrs && hdrs[blocks[i]].size >= size + HDR && NobodyBehind(hdrs, blocks, blocks[i])
    requires blocks[i] + HDR + size !in blocks && forall x :: x in live ==> x in blocks
    ensures BackPointers(SplitHeaders(hdrs, blocks[i], size), Insert(blocks, i, blocks[i] + HDR + size), live)
  {
    hide Older;
    var hdrs', blocks' := SplitHeaders(hdrs, blocks[i], size), Insert(blocks, i, blocks[i] + HDR + size);
    forall k | 0 <= k < |blocks'| ensures BackPointer(hdrs', blocks', live, k) {
      if k <= i { assert blocks'[k] == blocks[k] && BackPointer(hdrs, blocks, live, k); }
      if k > i + 1 { assert blocks'[k] == blocks[k - 1] && BackPointer(hdrs, blocks, live, k - 1); }
    }
  }

  // ---- releasing the newest live block ----

  ghost predicate Newest(blocks: seq<nat>, live: seq<nat>, i: nat) {
    i < |blocks| && live != [] && live[|live| - 1] == blocks[i]
  }

  function AbsorbHeaders(hdrs: Headers, b: nat, n: nat): Headers
    requires b in hdrs && n in hdrs
  {
    hdrs[b := hdrs[b].(size := hdrs[b].size + HDR + hdrs[n].size)]
  }

  lemma AbsorbLayout(start: nat, brk: nat, hdrs: Headers, blocks: seq<nat>, i: nat)
    requires Layout(start, brk, hdrs, blocks) && i + 1 < |blocks|
    ensures blocks[i] in hdrs && blocks[i + 1] in hdrs
    ensures Layout(start, brk, AbsorbHeaders(hdrs, blocks[i], blocks[i + 1]), RemoveAt(blocks, i + 1))
  {
    assert Fits(brk, hdrs, blocks, i) && Fits(brk, hdrs, blocks, i + 1);
    LayoutDistinct(start, brk, hdrs, blocks);
    var hdrs', blocks' := AbsorbHeaders(hdrs, blocks[i], blocks[i + 1]), RemoveAt(blocks, i + 1);
    forall k | 0 <= k < |blocks'| ensures Fits(brk, hdrs', blocks', k) {
      if k <= i {
        assert Fits(brk, hdrs, blocks, k) && blocks'[k] == blocks[k];
      } else {
        assert Fits(brk, hdrs, blocks, k + 1) && blocks'[k] == blocks[k + 1];
      }
    }
  }

  /** The newest live block absorbs the free block after it. */
  lemma AbsorbOk(start: nat, brk: nat, hdrs: Headers, freeList: seq<nat>, blocks: seq<nat>, live: seq<nat>, used: int,
                 i: nat)
    requires HeapOk(start, brk, hdrs, freeList, blocks, live, used) && Newest(blocks, live, i)
    requires i + 1 < |blocks| && blocks[i + 1] !in live
    ensures var b, n := blocks[i], blocks[i + 1];
      b in hdrs && n in hdrs && n in freeList &&
      var hdrs', blocks' := AbsorbHeaders(hdrs, b, n), RemoveAt(blocks, i + 1);
      HeapOk(start, brk, hdrs', Remove(freeList, n), blocks', live, used + HDR + hdrs[n].size) &&
      NobodyBehind(hdrs', blocks', b) && Newest(blocks', live, i)
  {
    hide Layout, Older;
    var b, n := blocks[i], blocks[i + 1];
    assert b in blocks && n in blocks;
    LayoutDistinct(start, brk, hdrs, blocks);
    AbsorbLayout(start, brk, hdrs, blocks, i);
    RemoveAtMembers(blocks, i + 1);
    RemoveMembers(freeList, n);
    AbsorbBack(hdrs, blocks, live, i);
    SumFrame(hdrs, AbsorbHeaders(hdrs, b, n), live[..|live| - 1]);
  }

  lemma AbsorbBack(hdrs: Headers, blocks: seq<nat>, live: seq<nat>, i: nat)
    requires BackPointers(hdrs, blocks, live) && Distinct(blocks) && i + 1 < |blocks| && blocks[i + 1] !in live
    requires blocks[i] in hdrs && blocks[i + 1] in hdrs && NULL !in blocks
    ensures BackPointers(AbsorbHeaders(hdrs, blocks[i], blocks[i + 1]), RemoveAt(blocks, i + 1), live)
    ensures NobodyBehind(AbsorbHeaders(hdrs, blocks[i], blocks[i + 1]), RemoveAt(blocks, i + 1), blocks[i])
  {
    hide Older;
    var hdrs', blocks' := AbsorbHeaders(hdrs, blocks[i], blocks[i + 1]), RemoveAt(blocks, i + 1);
    assert blocks[i] in blocks;
    forall k | 0 <= k < |blocks'|
      ensures BackPointer(hdrs', blocks', live, k)
      ensures blocks'[k] in hdrs' ==> hdrs'[blocks'[k]].prevPhys != blocks[i]
    {
      var k0 := if k <= i then k else k + 1;
      assert blocks'[k] == blocks[k0] && BackPointer(hdrs, blocks, live, k0);
    }
  }

  /** When no free block follows the newest live one, no back pointer names it. */
  lemma NobodyBehindNewest(hdrs: Headers, freeList: seq<nat>, blocks: seq<nat>, live: seq<nat>, i: nat)
    requires Tagged(hdrs, freeList, blocks, live) && BackPointers(hdrs, blocks, live)
    requires Distinct(blocks) && NULL !in blocks
    requires Newest(blocks, live, i) && (i + 1 < |blocks| ==> blocks[i + 1] in live)
    ensures NobodyBehind(hdrs, blocks, blocks[i])
  {
    assert blocks[i] in blocks;
    forall k | 0 <= k < |blocks| && blocks[k] in hdrs ensures hdrs[blocks[k]].prevPhys != blocks[i] {
      assert BackPointer(hdrs, blocks, live, k);
      if k == i + 1 {
        assert !Older(live, blocks[i], blocks[k]);
      }
    }
  }

  lemma NobodyBehindTop(start: nat, brk: nat, hdrs: Headers, freeList: seq<nat>, blocks: seq<nat>, live: seq<nat>,
                        used: int, i: nat)
    requires HeapOk(start, brk, hdrs, freeList, blocks, live, used) && Newest(blocks, live, i)
    requires i + 1 < |blocks| ==> blocks[i + 1] in live
    ensures NobodyBehind(hdrs, blocks, blocks[i])
  {
    LayoutDistinct(start, brk, hdrs, blocks);
    NobodyBehindNewest(hdrs, freeList, blocks, live, i);
  }

  /** The block being freed never merges backwards: the block before it is live. */
  lemma NoBackwardMerge(start: nat, brk: nat, hdrs: Headers, freeList: seq<nat>, blocks: seq<nat>, live: seq<nat>,
                        used: int, i: nat)
    requires HeapOk(start, brk, hdrs, freeList, blocks, live, used) && Newest(blocks, live, i)
    ensures blocks[i] in hdrs
    ensures var p := hdrs[blocks[i]].prevPhys;
      p != NULL ==> p in hdrs && p != blocks[i] && hdrs[p].magic == USED
  {
    LayoutDistinct(start, brk, hdrs, blocks);
    assert Fits(brk, hdrs, blocks, i);
    assert BackPointer(hdrs, blocks, live, i);
    if hdrs[blocks[i]].prevPhys != NULL { assert blocks[i - 1] in blocks; }
  }

  /** Marking the newest live block free puts it at the head of the free list. */
  lemma ReleaseOk(start: nat, brk: nat, hdrs: Headers, freeList: seq<nat>, blocks: seq<nat>, live: seq<nat>, used: int,
                  i: nat)
    requires HeapOk(start, brk, hdrs, freeList, blocks, live, used) && Newest(blocks, live, i)
    requires NobodyBehind(hdrs, blocks, blocks[i])
    ensures var b := blocks[i];
      b in hdrs &&
      var hdrs' := hdrs[b := hdrs[b].(magic := FREE)];
      HeapOk(start, brk, hdrs', [b] + freeList, blocks, live[..|live| - 1], used - hdrs[b].size)
  {
    hide Layout;
    LayoutDistinct(start, brk, hdrs, blocks);
    var b, n := blocks[i], |live| - 1;
    assert b in blocks && live == live[..n] + [b];
    RetagLayout(start, brk, hdrs, blocks, i, FREE);
    SumFrame(hdrs, hdrs[b := hdrs[b].(magic := FREE)], live[..n]);
    ReleaseBack(hdrs, blocks, live, i);
  }

  lemma ReleaseBack(hdrs: Headers, blocks: seq<nat>, live: seq<nat>, i: nat)
    requires BackPointers(hdrs, blocks, live) && Newest(blocks, live, i) && NobodyBehind(hdrs, blocks, blocks[i])
    requires Distinct(live) && blocks[i] in hdrs
    ensures BackPointers(hdrs[blocks[i] := hdrs[blocks[i]].(magic := FREE)], blocks, live[..|live| - 1])
  {
    var n := |live| - 1;
    var live' := live[..n];
    assert live == live' + [blocks[i]];
    var hdrs' := hdrs[blocks[i] := hdrs[blocks[i]].(magic := FREE)];
    forall k | 0 <= k < |blocks| ensures BackPointer(hdrs', blocks, live', k) {
      assert BackPointer(hdrs, blocks, live, k);
      if k > 0 && blocks[k] in live' && Older(live, blocks[k - 1], blocks[k]) {
        var j :| 0 <= j < |live| && live[j] == blocks[k] && blocks[k - 1] in live[..j];
        assert j < n && live'[j] == blocks[k] && live'[..j] == live[..j];
      }
    }
  }
}
