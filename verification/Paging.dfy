/** Two-level 32-bit paging (Intel SDM volume 3A, section 4.3): entries, indices
    and the flat map from virtual pages to entries that a directory stands for. */
module Paging {
  import opened Bits

  const WORD: nat := 0x1_0000_0000
  type Word = w: nat | w < WORD

  const PTE_PRESENT: Word := 0x001
  const PTE_USER: Word := 0x004
  const PTE_HUGE: Word := 0x080
  const PTE_ADDR_MASK: Word := 0xFFFF_F000
  const PTE_KEPT_FLAGS: Word := 0x11E   // WRITE | USER | WRITETHROUGH | NOCACHE | GLOBAL
  const PTE_NEW_TABLE: Word := 0x003    // PRESENT | WRITE
  const KERNEL_FIRST: nat := 768        // directory index of KERNEL_BASE
  const ENTRIES: nat := 1024
  const VPAGES: nat := 1024 * 1024

  type Frame = f: seq<Word> | |f| == 1024 witness seq(1024, _ => 0)

  function VPage(virt: Word): nat { Shr(virt, 12) }
  function PdeIndex(virt: Word): nat { And(Shr(virt, 22), 0x3FF) }
  function PteIndex(virt: Word): nat { And(Shr(virt, 12), 0x3FF) }
  function Flags(e: Word): nat { And(e, 0xFFF) }
  predicate Present(e: Word) { And(e, PTE_PRESENT) != 0 }
  predicate Huge(e: Word) { And(e, PTE_HUGE) != 0 }
  /** The frame an entry points to. */
  function Target(e: Word): nat { Shr(And(e, PTE_ADDR_MASK), 12) }

  function PageEntry(phys: Word, flags: Word): nat {
    Or(Or(And(phys, PTE_ADDR_MASK), PTE_PRESENT), And(flags, PTE_KEPT_FLAGS))
  }
  function TableEntry(table: Word, flags: Word): nat {
    Or(Or(And(table, PTE_ADDR_MASK), PTE_NEW_TABLE), And(flags, PTE_USER))
  }
  /** An entry of a cloned table: another frame, the same low 12 bits. */
  function Repointed(page: Word, e: Word): nat {
    Or(And(page, PTE_ADDR_MASK), And(e, 0xFFF))
  }

  /** A word is its frame number and its low 12 bits. */
  lemma Parts(w: Word)
    ensures w == 4096 * Shr(w, 12) + Flags(w) && Flags(w) < 4096 && Shr(w, 12) < 0x10_0000
    ensures And(w, PTE_ADDR_MASK) == 4096 * Shr(w, 12) && Target(w) == Shr(w, 12)
  {
    Pow12();
    AndLow(w, 12);
    var h := Shr(w, 12);
    Shl12(h);
    Shl12(0xF_FFFF);
    AndHigh(w, 12, 0xF_FFFF);
    NoHighBits(h, 20);
    AndLow(4096 * h, 12);
    Shl12(Shr(4096 * h, 12));
  }

  lemma FrameAddress(f: nat)
    requires f < 0x10_0000
    ensures 4096 * f < WORD && Shr(4096 * f, 12) == f && Target(4096 * f) == f
  {
    Parts(4096 * f);
  }

  /** The two indices are the two halves of the virtual page number. */
  lemma IndexBits(virt: Word)
    ensures VPage(virt) == 1024 * PdeIndex(virt) + PteIndex(virt) < VPAGES
    ensures PdeIndex(virt) < ENTRIES && PteIndex(virt) < ENTRIES
  {
    Pow12();
    Parts(virt);
    var p := Shr(virt, 12);
    ShrAdd(virt, 12, 10);
    AndLow(p, 10);
    Shl12(Shr(p, 10));
    NoHighBits(Shr(p, 10), 10);
  }

  /** Joining a frame number and low bits, and taking them apart again. */
  lemma Joined(h: nat, low: nat)
    requires h < 0x10_0000 && low < 4096
    ensures Or(4096 * h, low) == 4096 * h + low < WORD
    ensures Target(4096 * h + low) == h && Flags(4096 * h + low) == low
    ensures Present(4096 * h + low) == Present(low) && Huge(4096 * h + low) == Huge(low)
  {
    hide And, Or, Shr;
    Pow12();
    Shl12(h);
    OrHighLow(h, 12, low);
    Parts(4096 * h + low);
    AndIgnoresHigh(h, 12, low, PTE_PRESENT);
    AndIgnoresHigh(h, 12, low, PTE_HUGE);
  }

  lemma {:induction false} OrSelf(a: nat, b: nat)
    requires a % 2 == 1 || b % 2 == 1
    ensures Or(a, b) % 2 == 1
  {}

  lemma OddPresent(w: Word)
    requires w % 2 == 1
    ensures Present(w)
  {
    AndStep(w, 1);
  }

  lemma PageEntryFacts(phys: Word, flags: Word)
    ensures PageEntry(phys, flags) < WORD && Present(PageEntry(phys, flags))
    ensures Target(PageEntry(phys, flags)) == Target(phys)
    ensures Flags(PageEntry(phys, flags)) == Or(PTE_PRESENT, And(flags, PTE_KEPT_FLAGS))
  {
    hide And, Or, Shr, Present;
    var kept := And(flags, PTE_KEPT_FLAGS);
    Parts(phys);
    AndBounded(flags, PTE_KEPT_FLAGS);
    Pow12();
    OrBounded(PTE_PRESENT, kept, 12);
    OrSelf(PTE_PRESENT, kept);
    OddPresent(Or(PTE_PRESENT, kept));
    OrAssociative(And(phys, PTE_ADDR_MASK), PTE_PRESENT, kept);
    Joined(Shr(phys, 12), Or(PTE_PRESENT, kept));
  }

  /** A page entry by its bits: the frame of `phys`; present; write, user, write-through, no-cache
      and global as in `flags`; accessed, dirty, 4 MB and the three spare bits clear. */
  predicate MapsAs(e: Word, phys: Word, flags: Word) {
    && e / 4096 == phys / 4096
    && And(e, 0x001) == 0x001
    && And(e, 0x002) == And(flags, 0x002) && And(e, 0x004) == And(flags, 0x004)
    && And(e, 0x008) == And(flags, 0x008) && And(e, 0x010) == And(flags, 0x010)
    && And(e, 0x100) == And(flags, 0x100)
    && And(e, 0xEE0) == 0
  }

  /** The entry of a new table by its bits: present, writable, user as in `flags`, no other bit. */
  predicate TableAs(e: Word, flags: Word) {
    And(e, 0x003) == 0x003 && And(e, 0x004) == And(flags, 0x004) && And(e, 0xFF8) == 0
  }

  /** Where an address lies, by division. */
  lemma ByDivision(virt: Word)
    ensures VPage(virt) == virt / 4096 < VPAGES && PdeIndex(virt) == virt / 0x40_0000 < ENTRIES
    ensures Target(virt) == virt / 4096 && Flags(virt) == virt % 4096
    ensures PdeIndex(virt) < KERNEL_FIRST <==> virt < 0xC000_0000
  {
    hide And, Shr;
    Parts(virt);
    IndexBits(virt);
  }

  /** What a mask of low bits sees of an address, constant bits and permitted flags joined. */
  lemma JoinedBits(w: Word, ones: nat, flags: Word, kept: nat, m: nat)
    requires m < 4096
    ensures And(Or(Or(And(w, PTE_ADDR_MASK), ones), And(flags, kept)), m) == Or(And(ones, m), And(flags, And(kept, m)))
  {
    hide And, Or, Shr, Shl, Pow2;
    var high := And(w, PTE_ADDR_MASK);
    AddressBits(w, m);
    AndOr(Or(high, ones), And(flags, kept), m);
    AndOr(high, ones, m);
    Nothing(0, And(ones, m));
    AndAssociative(flags, kept, m);
  }

  lemma AddressBits(w: Word, m: nat)
    requires m < 4096
    ensures And(And(w, PTE_ADDR_MASK), m) == 0
  {
    hide And, Shr;
    Pow12();
    Parts(w);
    Shl12(Shr(w, 12));
    AndIgnoresHigh(Shr(w, 12), 12, 0, m);
    Nothing(0, m);
  }

  lemma PageEntryBits(phys: Word, flags: Word)
    ensures PageEntry(phys, flags) < WORD && MapsAs(PageEntry(phys, flags), phys, flags)
  {
    hide And, Or, Shr, Target, Flags, PageEntry;
    PageEntryFacts(phys, flags);
    Parts(PageEntry(phys, flags));
    Parts(phys);
    PageBit(phys, flags, 0x001);
    PageBit(phys, flags, 0x002);
    PageBit(phys, flags, 0x004);
    PageBit(phys, flags, 0x008);
    PageBit(phys, flags, 0x010);
    PageBit(phys, flags, 0x100);
    PageBit(phys, flags, 0xEE0);
    KeptBits();
    Nothing(flags, 0x001);
    Nothing(flags, And(flags, 0x002));
    Nothing(flags, And(flags, 0x004));
    Nothing(flags, And(flags, 0x008));
    Nothing(flags, And(flags, 0x010));
    Nothing(flags, And(flags, 0x100));
    Nothing(0x001, 0);
  }

  lemma PageBit(phys: Word, flags: Word, m: nat)
    requires m < 4096
    ensures And(PageEntry(phys, flags), m) == Or(And(PTE_PRESENT, m), And(flags, And(PTE_KEPT_FLAGS, m)))
  {
    hide And, Or;
    JoinedBits(phys, PTE_PRESENT, flags, PTE_KEPT_FLAGS, m);
  }

  /** Which bits the two masks hold. */
  lemma KeptBits()
    ensures And(PTE_PRESENT, 0x001) == 0x001 && And(PTE_PRESENT, 0x002) == 0 && And(PTE_PRESENT, 0x004) == 0
    ensures And(PTE_PRESENT, 0x008) == 0 && And(PTE_PRESENT, 0x010) == 0 && And(PTE_PRESENT, 0x100) == 0
    ensures And(PTE_PRESENT, 0xEE0) == 0
    ensures And(PTE_KEPT_FLAGS, 0x001) == 0 && And(PTE_KEPT_FLAGS, 0x002) == 0x002
    ensures And(PTE_KEPT_FLAGS, 0x004) == 0x004 && And(PTE_KEPT_FLAGS, 0x008) == 0x008
    ensures And(PTE_KEPT_FLAGS, 0x010) == 0x010 && And(PTE_KEPT_FLAGS, 0x100) == 0x100
    ensures And(PTE_KEPT_FLAGS, 0xEE0) == 0
  {}

  lemma TableEntryFacts(table: Word, flags: Word)
    ensures TableEntry(table, flags) < WORD && Present(TableEntry(table, flags)) && !Huge(TableEntry(table, flags))
    ensures Target(TableEntry(table, flags)) == Target(table)
  {
    hide And, Or, Shr, Present, Huge;
    var user := And(flags, PTE_USER);
    Parts(table);
    AndBounded(flags, PTE_USER);
    Pow12();
    var low := Or(PTE_NEW_TABLE, user);
    assert Pow2(3) == 8;
    OrBounded(PTE_NEW_TABLE, user, 3);
    OrSelf(PTE_NEW_TABLE, user);
    OddPresent(low);
    OrAssociative(And(table, PTE_ADDR_MASK), PTE_NEW_TABLE, user);
    Joined(Shr(table, 12), low);
    LowNotHuge(low);
  }

  lemma TableEntryBits(table: Word, flags: Word)
    ensures TableEntry(table, flags) < WORD && TableAs(TableEntry(table, flags), flags)
  {
    hide And, Or, Shr, Target, Flags;
    TableEntryFacts(table, flags);
    JoinedBits(table, PTE_NEW_TABLE, flags, PTE_USER, 0x003);
    JoinedBits(table, PTE_NEW_TABLE, flags, PTE_USER, 0x004);
    JoinedBits(table, PTE_NEW_TABLE, flags, PTE_USER, 0xFF8);
    TableBits();
    Nothing(flags, And(flags, 0x004));
    Nothing(0x003, 0);
  }

  lemma TableBits()
    ensures And(PTE_NEW_TABLE, 0x003) == 0x003 && And(PTE_NEW_TABLE, 0x004) == 0 && And(PTE_NEW_TABLE, 0xFF8) == 0
    ensures And(PTE_USER, 0x003) == 0 && And(PTE_USER, 0x004) == 0x004 && And(PTE_USER, 0xFF8) == 0
  {}

  lemma LowNotHuge(low: Word)
    requires low < 128
    ensures !Huge(low)
  {
    assert Pow2(7) == 128 by { assert Pow2(3) == 8 && Pow2(5) == 32; }
    ShlPow2(1, 7);
    AndHigh(low, 7, 1);
    SmallShr(low, 7);
  }

  lemma {:induction false} SmallShr(a: nat, n: nat)
    requires a < Pow2(n)
    ensures Shr(a, n) == 0
  {
    if n > 0 { SmallShr(a / 2, n - 1); }
  }

  lemma RepointedFacts(page: Word, e: Word)
    ensures Repointed(page, e) < WORD
    ensures Target(Repointed(page, e)) == Target(page) && Flags(Repointed(page, e)) == Flags(e)
    ensures Present(Repointed(page, e)) == Present(e) && Huge(Repointed(page, e)) == Huge(e)
  {
    Parts(page);
    Parts(e);
    Joined(Shr(page, 12), Flags(e));
    Joined(Shr(e, 12), Flags(e));
  }
}
