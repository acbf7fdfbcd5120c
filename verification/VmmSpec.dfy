/** What a page directory in physical memory means: a partial map from virtual
    page numbers to page-table entries. */
module VmmSpec {
  import opened Basics
  import opened Bits
  import opened Paging

  type Memory = seq<Frame>

  ghost predicate IsTable(mem: Memory, dir: nat, f: nat)
    requires dir < |mem|
  {
    exists i :: 0 <= i < ENTRIES && Present(mem[dir][i]) && Target(mem[dir][i]) == f
  }

  /** Tables are in memory, distinct, not the directory, and no entry maps 4 MB. */
  ghost predicate WellFormed(mem: Memory, dir: nat) {
    && dir < |mem|
    && (forall i :: 0 <= i < ENTRIES && Present(mem[dir][i]) ==>
          !Huge(mem[dir][i]) && Target(mem[dir][i]) < |mem| && Target(mem[dir][i]) != dir)
    && (forall i, j :: 0 <= i < j < ENTRIES && Present(mem[dir][i]) && Present(mem[dir][j]) ==>
          Target(mem[dir][i]) != Target(mem[dir][j]))
  }

  /** The directory and its tables are not free frames. */
  ghost predicate Held(mem: Memory, dir: nat, free: set<nat>)
    requires dir < |mem|
  {
    dir !in free && forall i :: 0 <= i < ENTRIES && Present(mem[dir][i]) ==> Target(mem[dir][i]) !in free
  }

  /** The flat map: the entry for a virtual page, if it is mapped. */
  function Walk(mem: Memory, dir: nat, vpage: nat): Option<Word>
    requires dir < |mem| && vpage < VPAGES
  {
    var pde := mem[dir][vpage / ENTRIES];
    if !Present(pde) || Target(pde) >= |mem| then None
    else
      var pte := mem[Target(pde)][vpage % ENTRIES];
      if Present(pte) then Some(pte) else None
  }

  function SetWord(mem: Memory, f: nat, i: nat, w: Word): Memory
    requires f < |mem| && i < ENTRIES
  {
    mem[f := mem[f][i := w]]
  }

  function Zeros(): (f: Frame)
    ensures forall i :: 0 <= i < 1024 ==> f[i] == 0
  {
    seq(1024, _ => 0)
  }

  ghost predicate SameMap(mem: Memory, mem': Memory, dir: nat)
    requires dir < |mem| == |mem'|
  {
    forall p :: 0 <= p < VPAGES ==> Walk(mem', dir, p) == Walk(mem, dir, p)
  }

  ghost predicate UpdatedAt(mem: Memory, mem': Memory, dir: nat, vpage: nat, entry: Option<Word>)
    requires dir < |mem| == |mem'|
  {
    forall p :: 0 <= p < VPAGES ==> Walk(mem', dir, p) == if p == vpage then entry else Walk(mem, dir, p)
  }

  /** Only slot `i` of the directory and its table were written; a new table is a frame that was free. */
  ghost predicate OthersKept(mem: Memory, mem': Memory, dir: nat, i: nat, free: set<nat>)
    requires dir < |mem| == |mem'| && i < ENTRIES
  {
    && (forall k :: 0 <= k < ENTRIES && k != i ==> mem'[dir][k] == mem[dir][k])
    && (Present(mem[dir][i]) ==> mem'[dir][i] == mem[dir][i])
    && (!Present(mem[dir][i]) && Present(mem'[dir][i]) ==> Target(mem'[dir][i]) in free)
    && (forall f :: 0 <= f < |mem| && f != dir && !(Present(mem'[dir][i]) && Target(mem'[dir][i]) == f) ==>
          mem'[f] == mem[f])
  }

  /** Slot `i` has a table now, no other slot changed, and the flat map is the same. */
  ghost predicate TableReady(mem: Memory, mem': Memory, dir: nat, i: nat)
    requires dir < |mem| == |mem'|
  {
    && SameMap(mem, mem', dir)
    && forall k :: 0 <= k < ENTRIES ==> (Present(mem'[dir][k]) <==> Present(mem[dir][k]) || k == i)
  }

  lemma ZeroAbsent()
    ensures !Present(0)
  {}

  /** Writes elsewhere do not show through a directory. */
  lemma OtherFrame(mem: Memory, dir: nat, f: nat, frame: Frame)
    requires WellFormed(mem, dir) && f < |mem| && f != dir && !IsTable(mem, dir, f)
    ensures WellFormed(mem[f := frame], dir) && SameMap(mem, mem[f := frame], dir)
    ensures forall g :: IsTable(mem[f := frame], dir, g) <==> IsTable(mem, dir, g)
  {
    assert mem[f := frame][dir] == mem[dir];
  }

  /** Writing one table entry is a point update of the flat map. */
  lemma TableWrite(mem: Memory, dir: nat, i: nat, j: nat, e: Word)
    requires WellFormed(mem, dir) && i < ENTRIES && j < ENTRIES && Present(mem[dir][i])
    ensures var mem' := SetWord(mem, Target(mem[dir][i]), j, e);
      WellFormed(mem', dir) && mem'[dir] == mem[dir] &&
      UpdatedAt(mem, mem', dir, ENTRIES * i + j, if Present(e) then Some(e) else None)
  {
    var t := Target(mem[dir][i]);
    var mem' := SetWord(mem, t, j, e);
    forall p | 0 <= p < VPAGES
      ensures Walk(mem', dir, p) ==
        if p == ENTRIES * i + j then (if Present(e) then Some(e) else None) else Walk(mem, dir, p)
    {
      var pde := mem[dir][p / ENTRIES];
      if Present(pde) && Target(pde) == t { assert p / ENTRIES == i; }
    }
  }

  /** Hanging a zeroed table into an absent slot maps nothing new. */
  lemma FreshTable(mem: Memory, dir: nat, i: nat, f: nat, e: Word)
    requires WellFormed(mem, dir) && i < ENTRIES && !Present(mem[dir][i])
    requires f < |mem| && f != dir && !IsTable(mem, dir, f) && mem[f] == Zeros()
    requires Present(e) && !Huge(e) && Target(e) == f
    ensures var mem' := SetWord(mem, dir, i, e);
      WellFormed(mem', dir) && SameMap(mem, mem', dir) &&
      forall g :: IsTable(mem', dir, g) <==> g == f || IsTable(mem, dir, g)
  {
    ZeroAbsent();
    var mem' := SetWord(mem, dir, i, e);
    forall k | 0 <= k < ENTRIES && k != i ensures mem'[dir][k] == mem[dir][k] {}
    forall g | IsTable(mem, dir, g) ensures IsTable(mem', dir, g) {
      var k :| 0 <= k < ENTRIES && Present(mem[dir][k]) && Target(mem[dir][k]) == g;
      assert mem'[dir][k] == mem[dir][k];
    }
    assert mem'[dir][i] == e;
    forall p | 0 <= p < VPAGES ensures Walk(mem', dir, p) == Walk(mem, dir, p) {
      if p / ENTRIES != i {
        assert Present(mem[dir][p / ENTRIES]) ==> IsTable(mem, dir, Target(mem[dir][p / ENTRIES]));
      }
    }
  }

  // ---- ranges ----

  /** Page number of the i-th page of a range starting at page `first`; addresses wrap at 4 GB. */
  function RangePage(first: nat, i: nat): nat { (first + i) % VPAGES }

  /** How far page `q` lies behind page `first`, modulo the address space. */
  function Offset(first: nat, q: nat): nat
    requires first < VPAGES
  {
    if first <= q then q - first else q + VPAGES - first
  }

  function RangeAddress(base: Word, i: nat): Word { (And(base, PTE_ADDR_MASK) + 4096 * i) % WORD }

  lemma OffsetUnique(first: nat, q: nat, i: nat)
    requires first < VPAGES && q < VPAGES && i < VPAGES
    ensures Offset(first, q) == i <==> q == RangePage(first, i)
  {
    assert RangePage(first, i) == if first + i < VPAGES then first + i else first + i - VPAGES;
  }

  lemma RangeAddressPage(base: Word, i: nat)
    requires i < VPAGES && VPage(base) < VPAGES
    ensures VPage(RangeAddress(base, i)) == RangePage(VPage(base), i) < VPAGES
    ensures Offset(VPage(base), RangePage(VPage(base), i)) == i
  {
    Parts(base);
    var p := VPage(base);
    OffsetUnique(p, RangePage(p, i), i);
    WrappedAddress(p, i);
    FrameAddress(RangePage(p, i));
  }

  lemma WrappedAddress(p: nat, i: nat)
    requires p < VPAGES && i < VPAGES
    ensures (4096 * p + 4096 * i) % WORD == 4096 * RangePage(p, i) && RangePage(p, i) < VPAGES
  {
    assert RangePage(p, i) == if p + i < VPAGES then p + i else p + i - VPAGES;
  }

  /** Directory slots without a table that pages from..n of a range need. */
  ghost function Missing(mem: Memory, dir: nat, first: nat, from: nat, n: nat): (slots: set<nat>)
    requires dir < |mem|
    ensures forall k :: k in slots <==>
      0 <= k < ENTRIES && !Present(mem[dir][k]) && exists i :: from <= i < n && RangePage(first, i) / ENTRIES == k
  {
    set k | 0 <= k < ENTRIES && !Present(mem[dir][k]) && exists i :: from <= i < n && RangePage(first, i) / ENTRIES == k
  }

  lemma SubsetSize<T>(a: set<T>, b: set<T>)
    requires a <= b
    ensures |a| <= |b|
  {
    assert a + (b - a) == b;
  }

  /** Pages of the range up to `n` map to consecutive frames, `missed` ones may be unmapped; others as before. */
  ghost predicate RangeMapped(was: Memory, mem: Memory, dir: nat, first: nat, base: Word, flags: Word, n: nat,
                              all: bool)
    requires dir < |was| == |mem| && first < VPAGES
  {
    forall q :: 0 <= q < VPAGES ==>
      if Offset(first, q) < n then
        PageEntry(RangeAddress(base, Offset(first, q)), flags) < WORD &&
        (Walk(mem, dir, q) == Some(PageEntry(RangeAddress(base, Offset(first, q)), flags)) ||
         (!all && Walk(mem, dir, q) == None && Walk(was, dir, q) == None))
      else Walk(mem, dir, q) == Walk(was, dir, q)
  }

  lemma RangeStart(mem: Memory, dir: nat, first: nat, base: Word, flags: Word)
    requires dir < |mem| && first < VPAGES
    ensures RangeMapped(mem, mem, dir, first, base, flags, 0, true)
    ensures RangeMapped(mem, mem, dir, first, base, flags, 0, false)
  {}

  lemma RangeWeaken(was: Memory, mem: Memory, dir: nat, first: nat, base: Word, flags: Word, n: nat, all: bool)
    requires dir < |was| == |mem| && first < VPAGES && RangeMapped(was, mem, dir, first, base, flags, n, all)
    ensures RangeMapped(was, mem, dir, first, base, flags, n, false)
  {}

  lemma RangeStep(was: Memory, mem: Memory, mem': Memory, dir: nat, first: nat, base: Word, flags: Word, i: nat,
                  all: bool)
    requires dir < |was| == |mem| == |mem'| && i < VPAGES && first < VPAGES
    requires RangeMapped(was, mem, dir, first, base, flags, i, all)
    requires PageEntry(RangeAddress(base, i), flags) < WORD
    requires UpdatedAt(mem, mem', dir, RangePage(first, i), Some(PageEntry(RangeAddress(base, i), flags)))
    ensures RangeMapped(was, mem', dir, first, base, flags, i + 1, all)
  {
    hide Offset, RangePage, RangeAddress, PageEntry, Walk;
    forall q | 0 <= q < VPAGES ensures Offset(first, q) == i <==> q == RangePage(first, i) {
      OffsetUnique(first, q, i);
    }
  }

  lemma RangeMiss(was: Memory, mem: Memory, dir: nat, first: nat, base: Word, flags: Word, i: nat)
    requires dir < |was| == |mem| && i < VPAGES && first < VPAGES
    requires RangeMapped(was, mem, dir, first, base, flags, i, false)
    requires PageEntry(RangeAddress(base, i), flags) < WORD
    requires !Present(mem[dir][RangePage(first, i) / ENTRIES])
    ensures RangeMapped(was, mem, dir, first, base, flags, i + 1, false)
  {
    forall q | 0 <= q < VPAGES ensures Offset(first, q) == i <==> q == RangePage(first, i) {
      OffsetUnique(first, q, i);
    }
  }

  lemma MissingStep(mem: Memory, mem': Memory, dir: nat, first: nat, i: nat, n: nat)
    requires dir < |mem| == |mem'| && i < n
    requires forall k :: 0 <= k < ENTRIES ==>
      (Present(mem'[dir][k]) <==> Present(mem[dir][k]) || k == RangePage(first, i) / ENTRIES)
    ensures var k := RangePage(first, i) / ENTRIES;
      k < ENTRIES && Missing(mem', dir, first, i + 1, n) <= Missing(mem, dir, first, i, n) - {k} &&
      (!Present(mem[dir][k]) ==> k in Missing(mem, dir, first, i, n))
  {}

  /** Mapping one page fails exactly when it needs a table and no frame is left, and then
      changes nothing; otherwise it is a point update that takes at most one frame. */
  ghost predicate MapOutcome(mem: Memory, mem': Memory, dir: nat, vpage: nat, entry: Word, mapped: bool,
                             avail: set<nat>, avail': set<nat>)
    requires dir < |mem| == |mem'| && vpage < VPAGES
  {
    var slot := vpage / ENTRIES;
    var absent := !Present(mem[dir][slot]);
    && (mapped <==> !(absent && avail == {}))
    && (if mapped && absent then exists f :: f in avail && avail' == avail - {f} else avail' == avail)
    && (!mapped ==> mem' == mem)
    && (mapped ==> UpdatedAt(mem, mem', dir, vpage, Some(entry)))
    && (mapped ==> forall k :: 0 <= k < ENTRIES ==> (Present(mem'[dir][k]) <==> Present(mem[dir][k]) || k == slot))
  }

  /** The address is mapped to the frame of `phys` with the flags asked for. */
  ghost predicate MappedAs(mem: Memory, dir: nat, virt: Word, phys: Word, flags: Word)
    requires dir < |mem|
  {
    match Walk(mem, dir, virt / 4096)
    case None => false
    case Some(e) => MapsAs(e, phys, flags)
  }

  /** A range mapped, address by address: page i leads to the i-th frame, modulo 4 GB on both sides. */
  lemma RangeByAddress(was: Memory, mem: Memory, dir: nat, virt: Word, phys: Word, flags: Word, n: nat, i: nat)
    requires dir < |was| == |mem| && VPage(virt) < VPAGES && i < n && i < VPAGES
    requires RangeMapped(was, mem, dir, VPage(virt), phys, flags, n, true)
    ensures MappedAs(mem, dir, (virt / 4096 + i) % 0x10_0000 * 4096, (phys / 4096 + i) % 0x10_0000 * 4096, flags)
  {
    hide MapsAs, PageEntry, Offset;
    ByDivision(virt);
    ByDivision(phys);
    RangeAddressPage(virt, i);
    RangeAddressPage(phys, i);
    var q, to := RangePage(VPage(virt), i), RangeAddress(phys, i);
    ByDivision(to);
    PageEntryBits(to, flags);
    assert Walk(mem, dir, q) == Some(PageEntry(to, flags));
    SameFrame(PageEntry(to, flags), to, (phys / 4096 + i) % 0x10_0000 * 4096, flags);
  }

  lemma SameFrame(e: Word, phys: Word, phys': Word, flags: Word)
    requires MapsAs(e, phys, flags) && phys / 4096 == phys' / 4096
    ensures MapsAs(e, phys', flags)
  {
    hide And;
  }

  lemma MappedByBits(was: Memory, mem: Memory, dir: nat, virt: Word, phys: Word, flags: Word)
    requires dir < |was| == |mem| && PageEntry(phys, flags) < WORD && VPage(virt) < VPAGES
    requires UpdatedAt(was, mem, dir, VPage(virt), Some(PageEntry(phys, flags)))
    ensures MappedAs(mem, dir, virt, phys, flags)
  {
    hide MapsAs, PageEntry;
    ByDivision(virt);
    PageEntryBits(phys, flags);
  }

  /** Writing the page entry into a table that is ready completes the mapping. */
  lemma MapFinish(was: Memory, mid: Memory, dir: nat, virt: Word, entry: Word, free0: set<nat>, free: set<nat>,
                  avail: set<nat>, avail': set<nat>)
    requires dir < |was| == |mid| && WellFormed(mid, dir) && Held(mid, dir, free) && Present(entry)
    requires PdeIndex(virt) < ENTRIES
    requires TableReady(was, mid, dir, PdeIndex(virt)) && OthersKept(was, mid, dir, PdeIndex(virt), free0)
    requires if Present(was[dir][PdeIndex(virt)]) then avail' == avail
      else exists f :: f in avail && avail' == avail - {f}
    ensures PteIndex(virt) < ENTRIES && VPage(virt) < VPAGES && Target(mid[dir][PdeIndex(virt)]) < |mid|
    ensures var mem' := SetWord(mid, Target(mid[dir][PdeIndex(virt)]), PteIndex(virt), entry);
      && WellFormed(mem', dir) && Held(mem', dir, free)
      && OthersKept(was, mem', dir, PdeIndex(virt), free0)
      && MapOutcome(was, mem', dir, VPage(virt), entry, true, avail, avail')
  {
    IndexBits(virt);
    hide And, Shr;
    TableWrite(mid, dir, PdeIndex(virt), PteIndex(virt), entry);
  }

  /** One iteration of range mapping, with what it does to the count of missing tables. */
  lemma RangeProgress(was: Memory, mem: Memory, mem': Memory, dir: nat, first: nat, base: Word, flags: Word,
                      i: nat, n: nat, enough: bool, mapped: bool, avail: set<nat>, avail': set<nat>)
    requires dir < |was| == |mem| == |mem'| && i < n <= VPAGES && first < VPAGES
    requires RangeMapped(was, mem, dir, first, base, flags, i, enough) && PageEntry(RangeAddress(base, i), flags) < WORD
    requires enough ==> |Missing(mem, dir, first, i, n)| <= |avail|
    requires MapOutcome(mem, mem', dir, RangePage(first, i), PageEntry(RangeAddress(base, i), flags), mapped,
                        avail, avail')
    ensures RangeMapped(was, mem', dir, first, base, flags, i + 1, enough)
    ensures enough ==> |Missing(mem', dir, first, i + 1, n)| <= |avail'|
  {
    hide RangeMapped, UpdatedAt;
    var slots := Missing(mem, dir, first, i, n);
    var k := RangePage(first, i) / ENTRIES;
    if mapped {
      MissingStep(mem, mem', dir, first, i, n);
      RangeStep(was, mem, mem', dir, first, base, flags, i, enough);
      SubsetSize(Missing(mem', dir, first, i + 1, n), if k in slots then slots - {k} else slots);
    } else {
      assert k in slots;
      RangeMiss(was, mem, dir, first, base, flags, i);
    }
  }

  // ---- translation ----

  /** A mapped address translates to its page's frame and the offset in the page. */
  lemma TranslatedAddress(e: Word, virt: Word)
    ensures Or(And(e, PTE_ADDR_MASK), And(virt, 0xFFF)) == e / 4096 * 4096 + virt % 4096 < WORD
  {
    ByDivision(e);
    ByDivision(virt);
    Parts(e);
    Parts(virt);
    Joined(Shr(e, 12), Flags(virt));
  }

  /** Inside a 4 MB page the directory entry gives the upper 10 bits, the address the lower 22. */
  lemma HugeAddress(pde: Word, virt: Word)
    ensures Or(And(pde, 0xFFC0_0000), And(virt, 0x3F_FFFF)) ==
      pde / 0x40_0000 * 0x40_0000 + virt % 0x40_0000 < WORD
  {
    hide And, Or, Shr, Shl;
    Pow12();
    AndLow(pde, 22);
    AndLow(virt, 22);
    var h := Shr(pde, 22);
    Shl12(h);
    Shl12(Shr(virt, 22));
    Shl12(0x3FF);
    AndHigh(pde, 22, 0x3FF);
    NoHighBits(h, 10);
    OrHighLow(h, 22, And(virt, 0x3F_FFFF));
  }
}
