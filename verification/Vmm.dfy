/** The virtual memory manager: page tables written in place in physical memory,
    with frames from the buddy allocator. */
module Vmm {
  import opened Basics
  import opened Bits
  import opened Dyadic
  import opened FreeSets
  import opened PmmSpec
  import opened Paging
  import opened VmmSpec
  import opened CloneSpec
  import PmmMoves
  import Pmm

  /** The frames placed by `at` came from the free ones, are outstanding now, and
      enough are left for the parts still to be placed. */
  ghost predicate Account(parts: set<Part>, at: Placement, free: set<nat>, free': set<nat>,
                          used: set<Block>, used': set<Block>, avail: set<nat>) {
    && at.Values <= free && free' == free - at.Values
    && used' == used + PmmMoves.Units(at.Values)
    && |parts - at.Keys| <= |avail| && avail <= free'
  }

  ghost predicate Extends(at: Placement, at': Placement) {
    forall d :: d in at ==> d in at' && at'[d] == at[d]
  }

  lemma OneMore<T>(a: set<T>, b: set<T>, x: T)
    ensures a + b + {x} == a + (b + {x})
  {}

  lemma OneLess<T>(a: set<T>, b: set<T>, x: T)
    ensures a - b - {x} == a - (b + {x})
  {}

  lemma AccountStep(parts: set<Part>, at: Placement, d: Part, f: nat, free: set<nat>, free': set<nat>,
                    used: set<Block>, used': set<Block>, avail: set<nat>)
    requires Account(parts, at, free, free', used, used', avail)
    requires d in parts && d !in at && f in avail
    ensures Account(parts, at[d := f], free, free' - {f}, used, used' + {Block(f, 0)}, avail - {f})
    ensures f in free && f !in at.Values
  {
    OneFewer(parts, at, d, f, avail);
    ValuesAdd(at, d, f);
    PmmMoves.UnitsAdd(at.Values, f);
    OneMore(used, PmmMoves.Units(at.Values), Block(f, 0));
    OneLess(free, at.Values, f);
  }

  lemma AccountOpens(parts: set<Part>, free: set<nat>, used: set<Block>, avail: set<nat>)
    requires |parts| <= |avail| && avail <= free
    ensures Account(parts, map[], free, free, used, used, avail)
  {
    var none: Placement := map[];
    assert parts - none.Keys == parts && none.Values == {};
    assert PmmMoves.Units({}) == {};
    assert free - {} == free && used + {} == used;
  }

  /** While a part is missing, a frame is left. */
  lemma AccountLeft(parts: set<Part>, at: Placement, d: Part, free: set<nat>, free': set<nat>,
                    used: set<Block>, used': set<Block>, avail: set<nat>)
    requires Account(parts, at, free, free', used, used', avail) && d in parts && d !in at
    ensures avail != {}
  {
    assert d in parts - at.Keys;
  }

  /** After releasing `parts` of a directory: their frames are free again and no longer outstanding. */
  ghost predicate Ledger(mem: Memory, dir: nat, parts: set<Part>, free: set<nat>, free': set<nat>,
                         used: set<Block>, used': set<Block>)
    requires dir < |mem| && forall d :: d in parts ==> Has(mem, dir, d)
  {
    free' == free + FramesFor(mem, dir, parts) && used' == used - PmmMoves.Units(FramesFor(mem, dir, parts))
  }

  ghost predicate Outstanding(mem: Memory, dir: nat, used: set<Block>)
    requires dir < |mem|
  {
    forall d :: Has(mem, dir, d) ==> Block(Where(mem, dir, d), 0) in used && Where(mem, dir, d) != 0
  }

  ghost predicate ReleaseState(mem: Memory, dir: nat, parts: set<Part>, free: set<nat>, free': set<nat>,
                               used: set<Block>, used': set<Block>) {
    && Unshared(mem, dir) && Outstanding(mem, dir, used)
    && (forall d :: d in parts ==> Has(mem, dir, d))
    && Ledger(mem, dir, parts, free, free', used, used')
  }

  lemma LedgerStep(mem: Memory, dir: nat, parts: set<Part>, d: Part, free: set<nat>, free': set<nat>,
                   used: set<Block>, used': set<Block>)
    requires ReleaseState(mem, dir, parts, free, free', used, used')
    requires dir < |mem| && Has(mem, dir, d) && d !in parts
    ensures Block(Where(mem, dir, d), 0) in used' && Where(mem, dir, d) != 0
    ensures var f := Where(mem, dir, d);
      ReleaseState(mem, dir, parts + {d}, free, free' + {f}, used, used' - {Block(f, 0)})
  {
    FramesForAdd(mem, dir, parts, d);
    PmmMoves.UnitsAdd(FramesFor(mem, dir, parts), Where(mem, dir, d));
    OneLess(used, PmmMoves.Units(FramesFor(mem, dir, parts)), Block(Where(mem, dir, d), 0));
    OneMore(free, FramesFor(mem, dir, parts), Where(mem, dir, d));
  }

  class Vmm {
    const pmm: Pmm.Pmm
    const mem: array<Frame>   // physical memory by frame number

    constructor (pmm: Pmm.Pmm, mem: array<Frame>)
      requires pmm.Valid() && pmm.ready && mem.Length == pmm.pageArray.Length
      requires mem as object != pmm.pageArray && mem as object != pmm.zones
      ensures Valid() && this.pmm == pmm && this.mem == mem
    {
      this.pmm := pmm;
      this.mem := mem;
    }

    ghost predicate Valid()
      reads this, pmm, pmm.pageArray, pmm.zones
    {
      && pmm.Valid() && pmm.ready && mem.Length == pmm.pageArray.Length
      && mem as object != pmm.pageArray && mem as object != pmm.zones
    }

    ghost function Free(): set<nat>
      reads pmm
    {
      FramesOf(pmm.state.free)
    }

    /** A well-formed directory none of whose own frames is free. */
    ghost predicate Directory(dir: nat)
      reads this, pmm, mem
    {
      WellFormed(mem[..], dir) && Held(mem[..], dir, Free())
    }

    lemma Bounds()
      requires Valid()
      ensures pmm.totalFrames <= mem.Length <= 0x4_0000
    {}

    lemma DirectoryFacts(dir: nat, f: nat)
      requires Directory(dir)
      ensures dir < mem.Length && (f in Free() ==> f != dir && !IsTable(mem[..], dir, f))
      ensures forall i :: 0 <= i < ENTRIES && Present(mem[dir][i]) ==> Target(mem[dir][i]) < mem.Length
    {}

    /** One frame from the buddy allocator, by physical address; 0 when none is left. */
    method AllocFrame() returns (phys: nat)
      requires Valid()
      modifies pmm`lists, pmm`state, pmm.pageArray, pmm.zones
      ensures Valid()
      ensures phys == 0 <==> old(pmm.Available()) == {}
      ensures phys == 0 ==> pmm.state == old(pmm.state)
      ensures phys != 0 ==> TookFrame(phys, old(pmm.Available()), old(Free()), old(pmm.state.used))
    {
      hide PmmMoves.Coherent, Partition;
      Bounds();
      phys := pmm.AllocPage();
    }

    ghost predicate TookFrame(phys: nat, avail: set<nat>, free: set<nat>, used: set<Block>)
      reads this, pmm
    {
      var f := phys / 4096;
      && phys == 4096 * f && f in avail && 0 < f < mem.Length <= 0x4_0000
      && Free() == free - {f} && pmm.Available() == avail - {f} && pmm.state.used == used + {Block(f, 0)}
    }

    /** Allocate and zero a page table; 0 when no frame is left. */
    method AllocPageTable() returns (table: nat)
      requires Valid()
      modifies pmm`lists, pmm`state, pmm.pageArray, pmm.zones, mem
      ensures Valid()
      ensures table == 0 <==> old(pmm.Available()) == {}
      ensures table == 0 ==> pmm.state == old(pmm.state) && mem[..] == old(mem[..])
      ensures table != 0 ==> TookFrame(table, old(pmm.Available()), old(Free()), old(pmm.state.used))
      ensures table != 0 ==> mem[..] == old(mem[..])[table / 4096 := Zeros()]
    {
      table := AllocFrame();
      if table != 0 {
        ZeroFrame(table / 4096);
      }
    }

    /** Store one word of physical memory. */
    method Store(f: nat, i: nat, w: Word)
      requires Valid() && f < mem.Length && i < ENTRIES
      modifies mem
      ensures Valid() && mem[..] == SetWord(old(mem[..]), f, i, w)
    {
      mem[f] := mem[f][i := w];
      assert mem[..] == SetWord(old(mem[..]), f, i, w);
    }

    method ZeroFrame(f: nat)
      requires Valid() && f < mem.Length
      modifies mem
      ensures Valid() && mem[..] == old(mem[..])[f := Zeros()]
    {
      var i := 0;
      while i < ENTRIES
        invariant i <= ENTRIES
        invariant forall k :: 0 <= k < i ==> mem[f][k] == 0
        invariant forall g :: 0 <= g < mem.Length && g != f ==> mem[g] == old(mem[g])
      {
        mem[f] := mem[f][i := 0];
        i := i + 1;
      }
      assert mem[f] == Zeros();
    }

    /** Make sure directory slot `i` has a table; a new one is empty and maps nothing. */
    method EnsureTable(dir: nat, i: nat, flags: Word) returns (ok: bool)
      requires Valid() && Directory(dir) && i < ENTRIES
      modifies pmm`lists, pmm`state, pmm.pageArray, pmm.zones, mem
      ensures Valid() && Directory(dir)
      ensures !ok <==> !old(Present(mem[dir][i])) && old(pmm.Available()) == {}
      ensures !ok || old(Present(mem[dir][i])) ==> pmm.state == old(pmm.state) && mem[..] == old(mem[..])
      ensures ok && !old(Present(mem[dir][i])) ==>
        exists f :: f in old(pmm.Available()) &&
          Free() == old(Free()) - {f} && pmm.Available() == old(pmm.Available()) - {f}
      ensures ok && !old(Present(mem[dir][i])) ==> TableAs(mem[dir][i], flags)
      ensures ok ==> TableReady(old(mem[..]), mem[..], dir, i)
      ensures OthersKept(old(mem[..]), mem[..], dir, i, old(Free()))
    {
      hide WellFormed, Held, FramesOf, TableReady, OthersKept, Or, And, TableEntry, TableAs, Zeros;
      hide PmmMoves.Coherent, Partition;
      DirectoryFacts(dir, 0);
      NothingWritten(mem[..], dir, i, old(Free()));
      if Present(mem[dir][i]) { return true; }
      var table := AllocPageTable();
      if table == 0 { return false; }
      TableAdded(old(mem[..]), dir, i, table / 4096, flags, old(Free()));
      Store(dir, i, TableEntry(table, flags));
      ok := true;
    }

    lemma NothingWritten(m: Memory, dir: nat, i: nat, free: set<nat>)
      requires dir < |m| && i < ENTRIES
      ensures OthersKept(m, m, dir, i, free) && (Present(m[dir][i]) ==> TableReady(m, m, dir, i))
    {}

    lemma TableAdded(was: Memory, dir: nat, i: nat, t: nat, flags: Word, free: set<nat>)
      requires WellFormed(was, dir) && Held(was, dir, free) && i < ENTRIES && !Present(was[dir][i])
      requires t in free && t < |was| <= 0x4_0000
      ensures 4096 * t < WORD && TableEntry(4096 * t, flags) < WORD && TableAs(TableEntry(4096 * t, flags), flags)
      ensures var mem' := SetWord(was[t := Zeros()], dir, i, TableEntry(4096 * t, flags));
        && WellFormed(mem', dir) && Held(mem', dir, free - {t})
        && TableReady(was, mem', dir, i) && OthersKept(was, mem', dir, i, free)
    {
      hide TableAs;
      FrameAddress(t);
      TableEntryFacts(4096 * t, flags);
      TableEntryBits(4096 * t, flags);
      OtherFrame(was, dir, t, Zeros());
      FreshTable(was[t := Zeros()], dir, i, t, TableEntry(4096 * t, flags));
    }

    /** Map one page: a point update of the flat map, or out of memory and no change. */
    method MapPage(dir: nat, virt: Word, phys: Word, flags: Word) returns (r: int)
      requires Valid() && Directory(dir)
      modifies pmm`lists, pmm`state, pmm.pageArray, pmm.zones, mem
      ensures Valid() && Directory(dir) && (r == 0 || r == -1)
      ensures PageEntry(phys, flags) < WORD && VPage(virt) < VPAGES
      ensures MapOutcome(old(mem[..]), mem[..], dir, VPage(virt), PageEntry(phys, flags), r == 0,
                         old(pmm.Available()), pmm.Available())
      ensures r == 0 ==> MappedAs(mem[..], dir, virt, phys, flags)
      ensures r == 0 && !old(Present(mem[dir][virt / 0x40_0000])) ==> TableAs(mem[dir][virt / 0x40_0000], flags)
      ensures r == -1 || old(Present(mem[dir][VPage(virt) / ENTRIES])) ==> pmm.state == old(pmm.state)
      ensures Free() <= old(Free())
      ensures PdeIndex(virt) < ENTRIES && OthersKept(old(mem[..]), mem[..], dir, PdeIndex(virt), old(Free()))
    {
      IndexBits(virt);
      PageEntryFacts(phys, flags);
      DirectoryFacts(dir, 0);
      ByDivision(virt);
      hide And, Or, Shr, Present, Huge, FramesOf, TableReady, OthersKept, Walk, TableAs, MappedAs, UpdatedAt;
      var i := PdeIndex(virt);
      var ok := EnsureTable(dir, i, flags);
      if !ok { return -1; }
      MapFinish(old(mem[..]), mem[..], dir, virt, PageEntry(phys, flags), old(Free()), Free(),
                old(pmm.Available()), pmm.Available());
      Store(Target(mem[dir][i]), PteIndex(virt), PageEntry(phys, flags));
      MappedByBits(old(mem[..]), mem[..], dir, virt, phys, flags);
      r := 0;
    }

    /** Unmap one page: a point delete; nothing is allocated or freed. */
    method UnmapPage(dir: nat, virt: Word)
      requires Valid() && Directory(dir)
      modifies mem
      ensures Valid() && Directory(dir)
      ensures UpdatedAt(old(mem[..]), mem[..], dir, virt / 4096, None)
      ensures PdeIndex(virt) < ENTRIES && OthersKept(old(mem[..]), mem[..], dir, PdeIndex(virt), {})
      ensures mem[dir] == old(mem[dir])
    {
      ByDivision(virt);
      IndexBits(virt);
      DirectoryFacts(dir, 0);
      var pde := mem[dir][PdeIndex(virt)];
      if !Present(pde) { return; }
      ZeroAbsent();
      TableWrite(mem[..], dir, PdeIndex(virt), PteIndex(virt), 0);
      Store(Target(pde), PteIndex(virt), 0);
    }

    /** Translate an address; 0 when it is not mapped. */
    method VirtToPhys(dir: nat, virt: Word) returns (phys: nat)
      requires dir < mem.Length
      requires var pde := mem[dir][virt / 0x40_0000]; Present(pde) && !Huge(pde) ==> Target(pde) < mem.Length
      ensures var pde := mem[dir][virt / 0x40_0000];
        if Present(pde) && Huge(pde) then phys == pde / 0x40_0000 * 0x40_0000 + virt % 0x40_0000
        else match Walk(mem[..], dir, virt / 4096)
          case None => phys == 0
          case Some(e) => phys == e / 4096 * 4096 + virt % 4096
    {
      ByDivision(virt);
      IndexBits(virt);
      var pde := mem[dir][PdeIndex(virt)];
      if !Present(pde) { return 0; }
      if Huge(pde) {
        HugeAddress(pde, virt);
        return Or(And(pde, 0xFFC0_0000), And(virt, 0x3F_FFFF));
      }
      var pte := mem[Target(pde)][PteIndex(virt)];
      if !Present(pte) { return 0; }
      TranslatedAddress(pte, virt);
      return Or(And(pte, PTE_ADDR_MASK), And(virt, 0xFFF));
    }

    /** How many pages a size rounds up to, as the code works it out in 32-bit words. */
    function PagesOf(size: Word): nat { Shr(And((size + 4095) % WORD, PTE_ADDR_MASK), 12) }

    /** The pages it takes to hold `size` bytes. */
    function PagesIn(size: nat): nat { (size + 4095) / 4096 }

    /** The code's count is right exactly up to 4 GB less a page; beyond that it is 0. */
    lemma PagesIff(size: Word)
      ensures PagesOf(size) == PagesIn(size) <==> size <= 0xFFFF_F000
      ensures size > 0xFFFF_F000 ==> PagesOf(size) == 0
      ensures PagesOf(size) < VPAGES
    {
      hide And, Shr;
      var sum := (size + 4095) % WORD;
      Parts(sum);
      FrameAddress(Shr(sum, 12));
      assert PagesOf(size) == sum / 4096;
      assert sum == if size <= 0xFFFF_F000 then size + 4095 else size + 4095 - WORD;
    }

    /** What range mapping has achieved after `i` of `n` pages. */
    ghost predicate RangeSoFar(was: Memory, dir: nat, virt: Word, phys: Word, flags: Word, i: nat, n: nat, enough: bool)
      reads this, pmm, mem
    {
      && dir < |was| == mem.Length && VPage(virt) < VPAGES
      && RangeMapped(was, mem[..], dir, VPage(virt), phys, flags, i, enough)
      && (enough ==> |Missing(mem[..], dir, VPage(virt), i, n)| <= |pmm.Available()|)
    }

    /** One page of a range; a failure is ignored. */
    method MapNext(dir: nat, virt: Word, phys: Word, flags: Word, i: nat, ghost n: nat, ghost was: Memory,
                   ghost enough: bool)
      requires Valid() && Directory(dir) && i < n < VPAGES
      requires RangeSoFar(was, dir, virt, phys, flags, i, n, enough)
      modifies pmm`lists, pmm`state, pmm.pageArray, pmm.zones, mem
      ensures Valid() && Directory(dir) && RangeSoFar(was, dir, virt, phys, flags, i + 1, n, enough)
    {
      RangeAddressPage(virt, i);
      DirectoryFacts(dir, 0);
      hide RangeMapped, MapOutcome, Missing, FramesOf, And, Shr, Or;
      hide WellFormed, Held, PageEntry, RangeAddress, RangePage, VPage;
      ghost var m, avail := mem[..], pmm.Available();
      var r := MapPage(dir, RangeAddress(virt, i), RangeAddress(phys, i), flags);
      RangeProgress(was, m, mem[..], dir, VPage(virt), phys, flags, i, n, enough, r == 0, avail, pmm.Available());
    }

    /** Map a range: failures of single pages are ignored.  With a free frame for every missing
        table it is the bulk update of the flat map by the pages of `size`, as long as rounding
        the size up does not wrap; when it does, nothing is mapped. */
    method MapRange(dir: nat, virt: Word, phys: Word, size: Word, flags: Word)
      requires Valid() && Directory(dir)
      modifies pmm`lists, pmm`state, pmm.pageArray, pmm.zones, mem
      ensures Valid() && Directory(dir) && VPage(virt) < VPAGES
      ensures size <= 0xFFFF_F000 ==>
        RangeMapped(old(mem[..]), mem[..], dir, VPage(virt), phys, flags, PagesIn(size), false)
      ensures var pages := PagesIn(size);
        size <= 0xFFFF_F000 && |Missing(old(mem[..]), dir, VPage(virt), 0, pages)| <= |old(pmm.Available())| ==>
        RangeMapped(old(mem[..]), mem[..], dir, VPage(virt), phys, flags, pages, true)
      ensures size > 0xFFFF_F000 ==> Untouched(old(mem[..]), old(pmm.state))
    {
      hide RangeMapped, Missing, PagesOf, PagesIn, VPage, RangeSoFar, Directory, Untouched, Valid, And, Shr;
      PagesIff(size);
      var n := PagesOf(size);
      ghost var was, s := mem[..], pmm.state;
      ghost var enough := RangeBegin(dir, virt, phys, flags, n);
      var i := 0;
      while i < n
        invariant i <= n && Valid() && Directory(dir)
        invariant RangeSoFar(was, dir, virt, phys, flags, i, n, enough)
        invariant i == 0 ==> Untouched(was, s)
      {
        MapNext(dir, virt, phys, flags, i, n, was, enough);
        i := i + 1;
      }
      RangeEnd(was, dir, virt, phys, flags, n, enough);
    }

    /** Memory and the allocator are as they were. */
    ghost predicate Untouched(was: Memory, s: State)
      reads this, pmm, mem
    {
      mem[..] == was && pmm.state == s
    }

    /** 4 GB less one byte is taken for no page at all. */
    lemma NoPages()
      ensures PagesOf(0xFFFF_FFFF) == 0 && PagesIn(0xFFFF_FFFF) == VPAGES
    {
      PagesIff(0xFFFF_FFFF);
    }

    lemma RangeBegin(dir: nat, virt: Word, phys: Word, flags: Word, n: nat) returns (enough: bool)
      requires Directory(dir)
      ensures VPage(virt) < VPAGES && dir < mem.Length
      ensures enough <==> |Missing(mem[..], dir, VPage(virt), 0, n)| <= |pmm.Available()|
      ensures RangeSoFar(mem[..], dir, virt, phys, flags, 0, n, enough) && Untouched(mem[..], pmm.state)
    {
      IndexBits(virt);
      RangeStart(mem[..], dir, VPage(virt), phys, flags);
      enough := |Missing(mem[..], dir, VPage(virt), 0, n)| <= |pmm.Available()|;
    }

    lemma RangeEnd(was: Memory, dir: nat, virt: Word, phys: Word, flags: Word, n: nat, enough: bool)
      requires RangeSoFar(was, dir, virt, phys, flags, n, n, enough)
      ensures dir < |was| == mem.Length && VPage(virt) < VPAGES
      ensures RangeMapped(was, mem[..], dir, VPage(virt), phys, flags, n, false)
      ensures enough ==> RangeMapped(was, mem[..], dir, VPage(virt), phys, flags, n, true)
    {
      RangeWeaken(was, mem[..], dir, VPage(virt), phys, flags, n, enough);
    }

    ghost predicate Budget(was: Memory, src: nat, at: Placement, free: set<nat>, used: set<Block>)
      reads this, pmm
    {
      src < |was| &&
      Account(PartsOf(was, src), at, free, Free(), used, pmm.state.used, pmm.Available())
    }

    /** A frame for one more part of the clone. */
    method AllocFor(ghost was: Memory, src: nat, ghost at: Placement, ghost d: Part, ghost free: set<nat>,
                    ghost used: set<Block>)
      returns (phys: nat)
      requires Valid() && Budget(was, src, at, free, used)
      requires Has(was, src, d) && d !in at
      modifies pmm`lists, pmm`state, pmm.pageArray, pmm.zones
      ensures Valid() && phys != 0 && phys == 4096 * (phys / 4096) && phys / 4096 < mem.Length <= 0x4_0000
      ensures phys / 4096 in free && phys / 4096 !in at.Values
      ensures Budget(was, src, at[d := phys / 4096], free, used)
    {
      assert d in PartsOf(was, src);
      hide PartsOf, FramesOf, Has, Account;
      ghost var avail, free0, used0 := pmm.Available(), Free(), pmm.state.used;
      AccountLeft(PartsOf(was, src), at, d, free, free0, used, used0, avail);
      phys := AllocFrame();
      AccountStep(PartsOf(was, src), at, d, phys / 4096, free, free0, used, used0, avail);
    }

    lemma AvailableIsFree()
      ensures pmm.Available() <= Free()
    {}

    /** Copy a page's contents. */
    method CopyFrame(to: nat, from: nat)
      requires Valid() && to < mem.Length && from < mem.Length && to != from
      modifies mem
      ensures Valid() && mem[..] == old(mem[..])[to := old(mem[from])]
    {
      var k := 0;
      while k < ENTRIES
        invariant k <= ENTRIES
        invariant forall w :: 0 <= w < k ==> mem[to][w] == old(mem[from])[w]
        invariant forall g :: 0 <= g < mem.Length && g != to ==> mem[g] == old(mem[g])
      {
        mem[to] := mem[to][k := mem[from][k]];
        k := k + 1;
      }
      assert mem[to] == old(mem[from]);
    }

    /** A copy of `src` under way: slot `i`, and `k` entries of its table. */
    ghost predicate Cloning(was: Memory, src: nat, at: Placement, i: nat, k: int, free: set<nat>, used: set<Block>)
      reads this, pmm, mem
    {
      Budget(was, src, at, free, used) && Progress(was, src, mem[..], at, i, k) && SourceSafe(was, src, free)
    }

    lemma ReadSource(was: Memory, src: nat, at: Placement, i: nat, k: int, free: set<nat>, used: set<Block>, d: Part)
      requires Cloning(was, src, at, i, k, free, used) && Has(was, src, d)
      ensures Where(was, src, d) < mem.Length && mem[Where(was, src, d)] == was[Where(was, src, d)]
      ensures src < mem.Length && mem[src] == was[src] && Where(was, src, d) !in free
      ensures WellFormed(was, src) && mem.Length == |was|
      ensures Root in at && at[Root] < mem.Length
      ensures i < KERNEL_FIRST && k >= 0 && Has(was, src, Table(i)) ==> Table(i) in at && at[Table(i)] < mem.Length
      ensures !Reached(d, i, k) ==> d !in at
    {
      SourceFrame(was, src, mem[..], at, i, k, free, d);
      assert i < KERNEL_FIRST && k >= 0 && Has(was, src, Table(i)) ==> Reached(Table(i), i, k);
    }

    lemma LeafStored(was: Memory, src: nat, m: Memory, at: Placement, i: nat, j: nat, phys: nat)
      requires Progress(was, src, m, at, i, j) && i < KERNEL_FIRST && j < ENTRIES
      requires Has(was, src, Page(i, j)) && WellFormed(was, src)
      requires phys == 4096 * (phys / 4096) && phys / 4096 < |m| <= 0x4_0000 && phys / 4096 !in at.Values
      requires Where(was, src, Page(i, j)) < |was|
      ensures var e, f, at' := was[Target(was[src][i])][j], phys / 4096, at[Page(i, j) := phys / 4096];
        phys < WORD && Repointed(phys, e) < WORD && Table(i) in at && at[Table(i)] < |m| && at[Table(i)] != f &&
        var copied := m[f := was[Where(was, src, Page(i, j))]];
        Progress(was, src, SetWord(copied, at[Table(i)], j, Repointed(phys, e)), at', i, j + 1)
    {
      RepointedFacts(phys, was[Target(was[src][i])][j]);
      CopiedLeaf(was, src, m, at, i, j, phys / 4096);
      assert Reached(Table(i), i, j);
    }

    /** Copy the page that entry `e` in slot `j` maps, and point the clone's entry at the copy. */
    method ClonePage(e: Word, dstTable: nat, j: nat, ghost i: nat, src: nat, ghost was: Memory,
                     ghost at: Placement, ghost free: set<nat>, ghost used: set<Block>)
      returns (ghost at': Placement)
      requires Valid() && Cloning(was, src, at, i, j, free, used) && i < KERNEL_FIRST && j < ENTRIES
      requires Has(was, src, Page(i, j)) && e == was[Target(was[src][i])][j]
      requires Table(i) in at && dstTable == at[Table(i)]
      modifies pmm`lists, pmm`state, pmm.pageArray, pmm.zones, mem
      ensures Valid() && Cloning(was, src, at', i, j + 1, free, used)
      ensures Extends(at, at')
    {
      hide Progress, SourceSafe, Budget, WellFormed;
      ghost var d := Page(i, j);
      ReadSource(was, src, at, i, j, free, used, d);
      ghost var m := mem[..];
      var phys := AllocFor(was, src, at, d, free, used);
      LeafStored(was, src, m, at, i, j, phys);
      CopyFrame(phys / 4096, Target(e));
      Store(dstTable, j, Repointed(phys, e));
      at' := at[d := phys / 4096];
    }

    /** Copy entry `j` of a user table, with the page it maps. */
    method CloneEntry(srcTable: nat, dstTable: nat, j: nat, ghost i: nat, src: nat, ghost was: Memory,
                      ghost at: Placement, ghost free: set<nat>, ghost used: set<Block>)
      returns (ghost at': Placement)
      requires Valid() && Cloning(was, src, at, i, j, free, used) && i < KERNEL_FIRST && j < ENTRIES
      requires Has(was, src, Table(i)) && srcTable == Where(was, src, Table(i))
      requires Table(i) in at && dstTable == at[Table(i)]
      modifies pmm`lists, pmm`state, pmm.pageArray, pmm.zones, mem
      ensures Valid() && Cloning(was, src, at', i, j + 1, free, used)
      ensures Extends(at, at')
    {
      hide Progress, SourceSafe, Budget;
      ReadSource(was, src, at, i, j, free, used, Table(i));
      at' := at;
      var e := mem[srcTable][j];
      if !Present(e) {
        AbsentLeaf(was, src, mem[..], at, i, j);
        Store(dstTable, j, 0);
      } else {
        at' := ClonePage(e, dstTable, j, i, src, was, at, free, used);
      }
    }

    /** Copy the table of slot `i`, entry by entry. */
    method CloneTable(srcTable: nat, dstTable: nat, ghost i: nat, src: nat, ghost was: Memory,
                      ghost at: Placement, ghost free: set<nat>, ghost used: set<Block>)
      returns (ghost at': Placement)
      requires Valid() && Cloning(was, src, at, i, 0, free, used) && i < KERNEL_FIRST
      requires Has(was, src, Table(i)) && srcTable == Where(was, src, Table(i))
      requires Table(i) in at && dstTable == at[Table(i)]
      modifies pmm`lists, pmm`state, pmm.pageArray, pmm.zones, mem
      ensures Valid() && Cloning(was, src, at', i, ENTRIES, free, used) && Extends(at, at')
    {
      hide Cloning;
      at' := at;
      var j := 0;
      while j < ENTRIES
        invariant j <= ENTRIES && Valid() && Cloning(was, src, at', i, j, free, used) && Extends(at, at')
      {
        at' := CloneEntry(srcTable, dstTable, j, i, src, was, at', free, used);
        j := j + 1;
      }
    }

    lemma SlotFilled(was: Memory, src: nat, at: Placement, i: nat, k: int, free: set<nat>, used: set<Block>)
      requires Cloning(was, src, at, i, k, free, used) && i < ENTRIES
      requires if i >= KERNEL_FIRST || !Present(was[src][i]) then k == -1 else k == ENTRIES
      ensures Root in at && at[Root] < mem.Length && mem.Length == |was|
      ensures Progress(was, src, SetWord(mem[..], at[Root], i, RootWord(was, src, at, i)), at, i + 1, -1)
    {
      FillSlot(was, src, mem[..], at, i, k);
    }

    lemma TableHere(was: Memory, src: nat, at: Placement, i: nat, free: set<nat>, used: set<Block>)
      requires Cloning(was, src, at, i, -1, free, used) && i < KERNEL_FIRST && Present(was[src][i])
      ensures Has(was, src, Table(i)) && Table(i) !in at && Root in at
    {
      assert !Reached(Table(i), i, -1) && Reached(Root, i, -1);
    }

    lemma TablePlaced(was: Memory, src: nat, m: Memory, at: Placement, i: nat, f: nat)
      requires Progress(was, src, m, at, i, -1) && i < KERNEL_FIRST && Has(was, src, Table(i)) && WellFormed(was, src)
      requires f < |m| <= 0x4_0000 && f !in at.Values && Table(i) !in at
      ensures Progress(was, src, m, at[Table(i) := f], i, 0) && Extends(at, at[Table(i) := f])
      ensures 4096 * f < WORD && Repointed(4096 * f, was[src][i]) < WORD
      ensures Link(f, was[src][i]) == Repointed(4096 * f, was[src][i])
    {
      NewTable(was, src, m, at, i, f);
      RepointedFacts(4096 * f, was[src][i]);
    }

    /** Copy one directory slot: absent, shared with the kernel, or a table of its own. */
    method CloneSlot(src: nat, dst: nat, i: nat, ghost was: Memory, ghost at: Placement, ghost free: set<nat>,
                     ghost used: set<Block>)
      returns (ghost at': Placement)
      requires Valid() && Cloning(was, src, at, i, -1, free, used) && i < ENTRIES && Root in at && dst == at[Root]
      modifies pmm`lists, pmm`state, pmm.pageArray, pmm.zones, mem
      ensures Valid() && Cloning(was, src, at', i + 1, -1, free, used) && Extends(at, at')
    {
      hide Progress, SourceSafe, Budget, WellFormed, Repointed;
      ReadSource(was, src, at, i, -1, free, used, Root);
      var e := mem[src][i];
      at' := at;
      if !Present(e) {
        SlotFilled(was, src, at, i, -1, free, used);
        Store(dst, i, 0);
      } else if i >= KERNEL_FIRST {
        SlotFilled(was, src, at, i, -1, free, used);
        Store(dst, i, e);
      } else {
        at' := CloneUserSlot(e, src, dst, i, was, at, free, used);
      }
    }

    /** A user slot: a new table, filled entry by entry, then hung into the clone. */
    method CloneUserSlot(e: Word, src: nat, dst: nat, i: nat, ghost was: Memory, ghost at: Placement,
                         ghost free: set<nat>, ghost used: set<Block>)
      returns (ghost at': Placement)
      requires Valid() && Cloning(was, src, at, i, -1, free, used) && i < KERNEL_FIRST && Root in at && dst == at[Root]
      requires Present(was[src][i]) && e == was[src][i]
      modifies pmm`lists, pmm`state, pmm.pageArray, pmm.zones, mem
      ensures Valid() && Cloning(was, src, at', i + 1, -1, free, used) && Extends(at, at')
    {
      hide Progress, SourceSafe, Budget, WellFormed, Repointed, Link;
      TableHere(was, src, at, i, free, used);
      ReadSource(was, src, at, i, -1, free, used, Table(i));
      var phys := AllocFor(was, src, at, Table(i), free, used);
      ghost var at1 := at[Table(i) := phys / 4096];
      TablePlaced(was, src, mem[..], at, i, phys / 4096);
      at' := CloneTable(Target(e), phys / 4096, i, src, was, at1, free, used);
      SlotFilled(was, src, at', i, ENTRIES, free, used);
      Store(dst, i, Repointed(phys, e));
    }

    lemma BudgetSays(was: Memory, src: nat, at: Placement, free: set<nat>, used: set<Block>)
      requires Budget(was, src, at, free, used)
      ensures at.Values <= free && Free() == free - at.Values
      ensures pmm.state.used == used + PmmMoves.Units(at.Values)
    {}

    lemma SourceInMemory(was: Memory, src: nat, free: set<nat>)
      requires SourceSafe(was, src, free)
      ensures src < |was| && Has(was, src, Root)
    {}

    lemma CloneBegins(src: nat)
      requires Valid() && SourceSafe(mem[..], src, Free()) && |PartsOf(mem[..], src)| <= |pmm.Available()|
      ensures src < mem.Length && Budget(mem[..], src, map[], Free(), pmm.state.used)
    {
      hide PartsOf, SourceSafe, FramesOf;
      SourceInMemory(mem[..], src, Free());
      AvailableIsFree();
      AccountOpens(PartsOf(mem[..], src), Free(), pmm.state.used, pmm.Available());
    }

    lemma CloneStarts(was: Memory, src: nat, dst: nat, free: set<nat>, used: set<Block>)
      requires mem[..] == was && SourceSafe(was, src, free) && dst < mem.Length
      requires Budget(was, src, map[Root := dst], free, used)
      ensures Cloning(was, src, map[Root := dst], 0, -1, free, used)
    {
      hide Progress, SourceSafe, Budget;
      SourceInMemory(was, src, free);
      Begin(was, src, dst);
    }

    /** Deep-copy a directory.  With a free frame for every part it cannot fail. */
    method CloneDir(src: nat) returns (dst: nat, ghost at: Placement)
      requires Valid() && SourceSafe(mem[..], src, Free())
      requires |PartsOf(mem[..], src)| <= |pmm.Available()|
      modifies pmm`lists, pmm`state, pmm.pageArray, pmm.zones, mem
      ensures Valid() && Cloned(old(mem[..]), src, mem[..], at)
      ensures Root in at && dst == at[Root] && at.Values <= old(Free())
      ensures Free() == old(Free()) - at.Values
      ensures pmm.state.used == old(pmm.state.used) + PmmMoves.Units(at.Values)
      ensures src < |old(mem[..])| == mem.Length && dst < mem.Length
      ensures forall virt: Word :: CopiedAt(old(mem[..]), src, mem[..], dst, old(Free()), virt)
      ensures Directory(dst) && Apart(src, dst)
    {
      hide Valid, SourceSafe, Budget, PartsOf, Apart, Directory, Cloning, Cloned, CopiedAt;
      ghost var was, free, used := mem[..], Free(), pmm.state.used;
      CloneBegins(src);
      ghost var none: Placement := map[];
      var phys := AllocFor(was, src, none, Root, free, used);
      dst := phys / 4096;
      at := none[Root := dst];
      CloneStarts(was, src, dst, free, used);
      var i := 0;
      while i < ENTRIES
        invariant i <= ENTRIES && Valid() && Cloning(was, src, at, i, -1, free, used)
        invariant Root in at && at[Root] == dst
      {
        at := CloneSlot(src, dst, i, was, at, free, used);
        i := i + 1;
      }
      CloneEnds(was, src, at, free, used);
    }

    lemma CloneEnds(was: Memory, src: nat, at: Placement, free: set<nat>, used: set<Block>)
      requires Valid() && Cloning(was, src, at, ENTRIES, -1, free, used)
      ensures Cloned(was, src, mem[..], at) && Root in at && at.Values <= free
      ensures Free() == free - at.Values && pmm.state.used == used + PmmMoves.Units(at.Values)
      ensures src < |was| == mem.Length && at[Root] < mem.Length
      ensures forall virt: Word :: CopiedAt(was, src, mem[..], at[Root], free, virt)
      ensures Directory(at[Root]) && Apart(src, at[Root])
    {
      hide CopiedAt, Progress, SourceSafe, Budget, WellFormed, PartsOf, Held, OwnUserHalf, FramesOf;
      BudgetSays(was, src, at, free, used);
      Bounds();
      SameSize(was, src, mem[..], at);
      CloneByAddress(was, src, mem[..], at, free);
      CloneIsDirectory(was, src, mem[..], at, free);
      CloneSeparate(was, src, mem[..], at, free);
    }

    lemma SameSize(was: Memory, src: nat, m: Memory, at: Placement)
      requires Cloned(was, src, m, at)
      ensures |was| == |m|
    {}

    /** Each of two directories has a user half of its own. */
    ghost predicate Apart(a: nat, b: nat)
      reads this, pmm, mem
    {
      OwnUserHalf(mem[..], a, b, Free()) && OwnUserHalf(mem[..], b, a, Free())
    }

    /** The two directories, by number. */
    lemma OwnHalfBounds(src: nat, dst: nat)
      requires OwnUserHalf(mem[..], src, dst, Free())
      ensures Directory(dst) && src < mem.Length && dst < mem.Length
    {}

    /** Mapping in the user half of `dst`, which may be a clone and `src` its source, or the source
        and `src` its clone: the other directory stays as it was, and the two as separate. */
    method MapInClone(dst: nat, virt: Word, phys: Word, flags: Word, ghost src: nat) returns (r: int)
      requires Valid() && OwnUserHalf(mem[..], src, dst, Free()) && virt < 0xC000_0000
      modifies pmm`lists, pmm`state, pmm.pageArray, pmm.zones, mem
      ensures Valid() && OwnUserHalf(mem[..], src, dst, Free()) && src < mem.Length && dst < mem.Length
      ensures SourceAsItWas(old(mem[..]), mem[..], src)
      ensures EditStep(Snapshot(old(mem[..]), old(Free())), Snapshot(mem[..], Free()), dst)
      ensures r == 0 ==> MappedAs(mem[..], dst, virt, phys, flags)
      ensures PageEntry(phys, flags) < WORD && VPage(virt) < VPAGES
      ensures MapOutcome(old(mem[..]), mem[..], dst, VPage(virt), PageEntry(phys, flags), r == 0,
                         old(pmm.Available()), pmm.Available())
    {
      hide EditStep, OthersKept, OwnUserHalf, SourceAsItWas, FramesOf, MapOutcome, And, Shr;
      hide Or, WellFormed, Held, PageEntry, VPage, PdeIndex, Present, MappedAs;
      ByDivision(virt);
      OwnHalfBounds(src, dst);
      ghost var free := Free();
      r := MapPage(dst, virt, phys, flags);
      EditIsolated(old(mem[..]), mem[..], dst, src, PdeIndex(virt), free);
    }

    method UnmapInClone(dst: nat, virt: Word, ghost src: nat)
      requires Valid() && OwnUserHalf(mem[..], src, dst, Free()) && virt < 0xC000_0000
      modifies mem
      ensures Valid() && OwnUserHalf(mem[..], src, dst, Free()) && src < mem.Length && dst < mem.Length
      ensures SourceAsItWas(old(mem[..]), mem[..], src)
      ensures EditStep(Snapshot(old(mem[..]), old(Free())), Snapshot(mem[..], Free()), dst)
      ensures UpdatedAt(old(mem[..]), mem[..], dst, virt / 4096, None)
    {
      hide EditStep, OwnUserHalf, SourceAsItWas, FramesOf, And, Shr, Or, WellFormed;
      hide Held, VPage, PdeIndex, Present, UpdatedAt, Walk;
      ByDivision(virt);
      OwnHalfBounds(src, dst);
      UnmapPage(dst, virt);
      EditIsolated(old(mem[..]), mem[..], dst, src, PdeIndex(virt), Free());
    }

    lemma EditIsolated(was: Memory, m: Memory, dst: nat, src: nat, i: nat, free: set<nat>)
      requires OwnUserHalf(was, src, dst, free) && |m| == |was| && i < KERNEL_FIRST && m == mem[..]
      requires dst < |was| && (OthersKept(was, m, dst, i, free) || OthersKept(was, m, dst, i, {}))
      requires Directory(dst) && Free() <= free
      ensures src < |was| && SourceAsItWas(was, m, src) && OwnUserHalf(m, src, dst, Free())
      ensures EditStep(Snapshot(was, free), Snapshot(m, Free()), dst)
    {
      hide SourceAsItWas, OfSource, FramesOf, SourceSafe;
      Isolated(was, m, src, dst, i, free, Free());
    }

    ghost predicate Releasing(dir: nat, parts: set<Part>, free: set<nat>, used: set<Block>)
      reads this, pmm, mem
    {
      ReleaseState(mem[..], dir, parts, free, Free(), used, pmm.state.used)
    }

    method FreeFrame(phys: nat)
      requires Valid() && phys != 0 && phys == 4096 * (phys / 4096) && Block(phys / 4096, 0) in pmm.state.used
      modifies pmm`lists, pmm`state, pmm.pageArray, pmm.zones
      ensures Valid() && Free() == old(Free()) + {phys / 4096}
      ensures pmm.state.used == old(pmm.state.used) - {Block(phys / 4096, 0)}
    {
      hide Partition, FramesOf, PmmMoves.Coherent;
      pmm.FreePage(phys);
    }

    /** Release the frame of one part. */
    method ReleasePart(phys: nat, dir: nat, ghost d: Part, ghost parts: set<Part>, ghost free: set<nat>,
                       ghost used: set<Block>)
      requires Valid() && Releasing(dir, parts, free, used)
      requires dir < mem.Length && Has(mem[..], dir, d) && d !in parts && phys == 4096 * Where(mem[..], dir, d)
      modifies pmm`lists, pmm`state, pmm.pageArray, pmm.zones
      ensures Valid() && Releasing(dir, parts + {d}, free, used)
    {
      hide ReleaseState, FramesOf, Has, Where, Present, Target, PmmMoves.Units, PmmMoves.Coherent, Partition;
      LedgerStep(mem[..], dir, parts, d, free, Free(), used, pmm.state.used);
      FreeFrame(phys);
    }

    /** Release every page that the table of slot `i` maps, then the table. */
    method ReleaseTable(table: nat, dir: nat, i: nat, ghost free: set<nat>, ghost used: set<Block>)
      requires Valid() && i < KERNEL_FIRST && dir < mem.Length
      requires Has(mem[..], dir, Table(i)) && table == Where(mem[..], dir, Table(i))
      requires Releasing(dir, GoneParts(mem[..], dir, i, 0), free, used)
      modifies pmm`lists, pmm`state, pmm.pageArray, pmm.zones
      ensures Valid() && Releasing(dir, GoneParts(mem[..], dir, i + 1, 0), free, used)
    {
      hide Releasing, GoneParts;
      var j := 0;
      while j < ENTRIES
        invariant j <= ENTRIES && Valid() && Releasing(dir, GoneParts(mem[..], dir, i, j), free, used)
      {
        GonePage(mem[..], dir, i, j);
        var e := mem[table][j];
        if Present(e) {
          Parts(e);
          ReleasePart(And(e, PTE_ADDR_MASK), dir, Page(i, j), GoneParts(mem[..], dir, i, j), free, used);
        }
        j := j + 1;
      }
      GoneTable(mem[..], dir, i);
      ReleasePart(4096 * table, dir, Table(i), GoneParts(mem[..], dir, i, ENTRIES), free, used);
    }

    lemma ReleaseBegins(dir: nat)
      requires Unshared(mem[..], dir) && Outstanding(mem[..], dir, pmm.state.used)
      ensures dir < mem.Length && Releasing(dir, GoneParts(mem[..], dir, 0, 0), Free(), pmm.state.used)
    {
      GoneAll(mem[..], dir);
      assert FramesFor(mem[..], dir, {}) == {} && PmmMoves.Units({}) == {};
    }

    lemma SlotTable(dir: nat, i: nat, free: set<nat>, used: set<Block>, parts: set<Part>)
      requires Releasing(dir, parts, free, used) && i < KERNEL_FIRST
      ensures dir < mem.Length && (Present(mem[dir][i]) ==> Has(mem[..], dir, Table(i)))
    {}

    /** Free all user pages, user tables and the directory; memory contents are not touched. */
    method DestroyDir(dir: nat)
      requires Valid() && Unshared(mem[..], dir) && Outstanding(mem[..], dir, pmm.state.used)
      modifies pmm`lists, pmm`state, pmm.pageArray, pmm.zones
      ensures Valid()
      ensures var frames := FramesFor(mem[..], dir, PartsOf(mem[..], dir));
        Free() == old(Free()) + frames && pmm.state.used == old(pmm.state.used) - PmmMoves.Units(frames)
      ensures forall f :: f in Free() <==> f in old(Free()) || OwnFrame(mem[..], dir, f)
    {
      hide OwnFrame, Releasing, GoneParts, FramesFor, Unshared, Outstanding;
      ghost var free, used := Free(), pmm.state.used;
      ReleaseBegins(dir);
      var i := 0;
      while i < KERNEL_FIRST
        invariant i <= KERNEL_FIRST && Valid() && Releasing(dir, GoneParts(mem[..], dir, i, 0), free, used)
      {
        SlotTable(dir, i, free, used, GoneParts(mem[..], dir, i, 0));
        GoneTable(mem[..], dir, i);
        var e := mem[dir][i];
        if Present(e) {
          ReleaseTable(Target(e), dir, i, free, used);
        }
        i := i + 1;
      }
      GoneAll(mem[..], dir);
      ReleasePart(4096 * dir, dir, Root, GoneParts(mem[..], dir, KERNEL_FIRST, 0), free, used);
      ReleaseEnds(dir, free, used);
      forall f ensures f in FramesFor(mem[..], dir, PartsOf(mem[..], dir)) <==> OwnFrame(mem[..], dir, f) {
        FramesByAddress(mem[..], dir, f);
      }
    }

    lemma ReleaseEnds(dir: nat, free: set<nat>, used: set<Block>)
      requires dir < mem.Length && Releasing(dir, PartsOf(mem[..], dir), free, used)
      ensures var frames := FramesFor(mem[..], dir, PartsOf(mem[..], dir));
        Free() == free + frames && pmm.state.used == used - PmmMoves.Units(frames)
    {}

    lemma FreeNotOutstanding(f: nat)
      requires Valid() && f in Free()
      ensures f >= Pmm.LOWEST_PFN && Block(f, 0) !in pmm.state.used
    {
      hide Partition, FramesOf, PmmMoves.Coherent;
      PmmSpec.FreeFrame(pmm.state, f, pmm.managed);
    }

    lemma CloneOutstanding(was: Memory, src: nat, at: Placement, used: set<Block>)
      requires Cloned(was, src, mem[..], at) && WellFormed(was, src) && |was| <= 0x4_0000
      requires pmm.state.used == used + PmmMoves.Units(at.Values) && 0 !in at.Values
      ensures Root in at && Unshared(mem[..], at[Root]) && Outstanding(mem[..], at[Root], pmm.state.used)
      ensures FramesFor(mem[..], at[Root], PartsOf(mem[..], at[Root])) == at.Values
    {
      CloneUnshared(was, src, mem[..], at);
      forall d | Has(mem[..], at[Root], d) ensures Where(mem[..], at[Root], d) in at.Values {
        assert d in PartsOf(mem[..], at[Root]);
      }
    }

    lemma GivenBack(free: set<nat>, used: set<Block>, frames: set<nat>)
      requires frames <= free && forall f :: f in frames ==> Block(f, 0) !in used
      ensures free - frames + frames == free
      ensures used + PmmMoves.Units(frames) - PmmMoves.Units(frames) == used
    {
      forall b | b in PmmMoves.Units(frames) ensures b !in used {
        assert b == Block(b.pfn, 0);
      }
    }

    /** Conservation across layers: cloning a directory and destroying the clone leaves
        the allocator with the identical blocks, and the source's map, tables and pages
        with the identical contents. */
    method CloneThenDestroy(src: nat)
      requires Valid() && SourceSafe(mem[..], src, Free())
      requires |PartsOf(mem[..], src)| <= |pmm.Available()|
      modifies pmm`lists, pmm`state, pmm.pageArray, pmm.zones, mem
      ensures Valid() && pmm.state == old(pmm.state)
      ensures SameMap(old(mem[..]), mem[..], src)
      ensures forall d :: Has(old(mem[..]), src, d) ==>
        var f := Where(old(mem[..]), src, d); f < mem.Length && mem[f] == old(mem[..])[f]
    {
      hide Cloned, PartsOf, FramesOf, Has, SameMap, SourceSafe, Valid;
      SourceFacts(src);
      ghost var was, free, s := mem[..], Free(), pmm.state;
      var dst, at := CloneDir(src);
      SourceKept(was, src, mem[..], at, free);
      DestroyClone(was, src, dst, at, free, s);
    }

    method DestroyClone(ghost was: Memory, ghost src: nat, dst: nat, ghost at: Placement, ghost free: set<nat>,
                        ghost s: State)
      requires Valid() && Cloned(was, src, mem[..], at) && WellFormed(was, src) && Root in at && dst == at[Root]
      requires |was| == mem.Length && Partition(s, pmm.managed) && free == FramesOf(s.free) && 0 !in at.Values
      requires at.Values <= free && Free() == free - at.Values && pmm.state.used == s.used + PmmMoves.Units(at.Values)
      modifies pmm`lists, pmm`state, pmm.pageArray, pmm.zones
      ensures Valid() && pmm.state == s
    {
      hide Cloned, PartsOf, FramesFor, FramesOf, Has, Unshared, Outstanding, Partition, WellFormed, PmmMoves.Coherent;
      Bounds();
      forall f | f in at.Values ensures Block(f, 0) !in s.used { PmmSpec.FreeFrame(s, f, pmm.managed); }
      CloneOutstanding(was, src, at, s.used);
      DestroyDir(dst);
      GivenBack(free, s.used, at.Values);
      SameAllocations(s, pmm.state, pmm.managed);
    }

    lemma SourceFacts(src: nat)
      requires Valid() && SourceSafe(mem[..], src, Free())
      ensures WellFormed(mem[..], src) && Partition(pmm.state, pmm.managed) && 0 !in Free()
      ensures forall d :: Has(mem[..], src, d) ==> Where(mem[..], src, d) < mem.Length
    {
      hide Partition, FramesOf;
      if 0 in Free() { FreeNotOutstanding(0); }
    }
  }
}
