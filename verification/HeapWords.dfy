/** The 32-bit sums of the kernel heap: rounding a request, growing the heap, and what
    a request for which nothing is free comes to. */
module HeapWords {
  import opened HeapSpec

  const ADDRESS_SPACE: nat := 0x1_0000_0000

  function AlignUp(x: nat, unit: nat): nat
    requires unit > 0
  {
    (x + unit - 1) / unit * unit
  }

  lemma AlignUpFacts(x: nat)
    ensures AlignUp(x, HEAP_ALIGN) % HEAP_ALIGN == 0 && x <= AlignUp(x, HEAP_ALIGN) < x + HEAP_ALIGN
    ensures AlignUp(x, PAGE) % HEAP_ALIGN == 0 && x <= AlignUp(x, PAGE) < x + PAGE
  {
    UnitMultiple(x, HEAP_ALIGN, 1);
    UnitMultiple(x, PAGE, 256);
  }

  /** A multiple of a larger unit is one of the smaller. */
  lemma UnitMultiple(x: nat, unit: nat, k: nat)
    requires unit == k * HEAP_ALIGN && 1 <= k <= 256
    ensures AlignUp(x, unit) % HEAP_ALIGN == 0 && x <= AlignUp(x, unit) < x + unit
  {
    var q := (x + unit - 1) / unit;
    var low := (x + unit - 1) % unit;
    assert x + unit - 1 == q * unit + low && 0 <= low < unit;
    assert q * unit == q * k * HEAP_ALIGN;
    ModMultiple(q * k);
  }

  lemma ModMultiple(a: nat)
    ensures a * HEAP_ALIGN % HEAP_ALIGN == 0
  {
  }

  /** A request rounded up in 32-bit words, as the allocator computes it. */
  function RoundedWord(size: nat): nat { (size + HEAP_ALIGN - 1) % ADDRESS_SPACE / HEAP_ALIGN * HEAP_ALIGN }

  /** The rounded request covers the request exactly when it does not wrap: the sizes within
      16 bytes of the top of the address space round to 0. */
  lemma RoundingWraps(size: nat)
    requires size < ADDRESS_SPACE
    ensures RoundedWord(size) == AlignUp(size, HEAP_ALIGN) <==> size <= ADDRESS_SPACE - HEAP_ALIGN
    ensures size > ADDRESS_SPACE - HEAP_ALIGN ==> RoundedWord(size) == 0
  {
    if size > ADDRESS_SPACE - HEAP_ALIGN {
      assert (size + HEAP_ALIGN - 1) % ADDRESS_SPACE == size + HEAP_ALIGN - 1 - ADDRESS_SPACE < HEAP_ALIGN;
      AlignUpFacts(size);
    }
  }

  lemma AlignedBelow(size: nat)
    requires size <= ADDRESS_SPACE - HEAP_ALIGN
    ensures AlignUp(size, HEAP_ALIGN) <= ADDRESS_SPACE - HEAP_ALIGN
  {
  }

  /** How far the heap grows for a block of `min` bytes, in 32-bit words. */
  function ExpandWord(min: nat): nat { (min + HDR + PAGE - 1) % ADDRESS_SPACE / PAGE * PAGE }

  /** The test for room as the allocator makes it, on a 32-bit address sum. */
  predicate WordTest(brk: nat, end: nat, min: nat) { (brk + ExpandWord(min)) % ADDRESS_SPACE <= end }

  predicate RoomFor(brk: nat, end: nat, min: nat) { brk + AlignUp(min + HDR, PAGE) <= end }

  /** The growth stays below 4 GB, or wraps to one page for which there is no room. */
  predicate GrowthSound(brk: nat, end: nat, min: nat) {
    || brk + AlignUp(min + HDR, PAGE) < ADDRESS_SPACE
    || (min + HDR > ADDRESS_SPACE && end < brk + PAGE < ADDRESS_SPACE)
  }

  lemma ExpandWordIs(min: nat)
    requires min < ADDRESS_SPACE
    ensures var top := min + HDR;
      if top + PAGE - 1 < ADDRESS_SPACE then ExpandWord(min) == AlignUp(top, PAGE) < ADDRESS_SPACE
      else AlignUp(top, PAGE) >= ADDRESS_SPACE && ExpandWord(min) == if top <= ADDRESS_SPACE then 0 else PAGE
  {
  }

  /** The test for room is right exactly when the growth is sound, and then so is the amount. */
  lemma GrowthIff(brk: nat, end: nat, min: nat)
    requires brk <= end < ADDRESS_SPACE && min < ADDRESS_SPACE
    ensures (WordTest(brk, end, min) <==> RoomFor(brk, end, min)) <==> GrowthSound(brk, end, min)
    ensures RoomFor(brk, end, min) ==> ExpandWord(min) == AlignUp(min + HDR, PAGE)
  {
    hide ExpandWord, AlignUp;
    ExpandWordIs(min);
  }

  /** The kernel's heap of 256 MB from 0xD0000000, two pages in use, asked for 768 MB: the sum
      wraps to 0x3000, and the heap would go on from there. */
  lemma GrowthWraps()
    ensures !GrowthSound(0xD000_2000, 0xE000_0000, 0x3000_0000) && !RoomFor(0xD000_2000, 0xE000_0000, 0x3000_0000)
    ensures WordTest(0xD000_2000, 0xE000_0000, 0x3000_0000)
    ensures (0xD000_2000 + ExpandWord(0x3000_0000)) % ADDRESS_SPACE == 0x3000
  {
  }

  // ---- what growing comes to ----

  /** The block of a growth lies inside the heap. */
  predicate Inside(brk: nat, end: nat, min: nat) { 0 < ExpandWord(min) && brk + ExpandWord(min) <= end }

  /** The size recorded for the new block, in 32 bits. */
  function Recorded(min: nat): nat { (ExpandWord(min) + ADDRESS_SPACE - HDR) % ADDRESS_SPACE }

  lemma ExpandPages(min: nat) returns (pages: nat)
    ensures ExpandWord(min) == PAGE * pages && pages < ADDRESS_SPACE / PAGE
  {
    pages := (min + HDR + PAGE - 1) % ADDRESS_SPACE / PAGE;
  }

  lemma RecordedSize(min: nat)
    ensures ExpandWord(min) > 0 ==>
      ExpandWord(min) >= PAGE && Recorded(min) == ExpandWord(min) - HDR && Recorded(min) % HEAP_ALIGN == 0
  {
    hide ExpandWord;
    var pages := ExpandPages(min);
    if pages > 0 {
      assert ExpandWord(min) - HDR == HEAP_ALIGN * (256 * pages - 2) < ADDRESS_SPACE;
    }
  }

  /** How a request ends: refused, given a block that is large enough, given one that is not, or
      the heap grows over memory that is not its own. */
  datatype Answer = Null | Served | Small | Outside

  /** A request for `min` bytes that nothing free can hold: the heap grows and the request is
      made again, as often as it takes. */
  function GrowthAnswer(brk: nat, end: nat, min: nat): Answer
    decreases if brk <= end then end - brk else 0
  {
    if !WordTest(brk, end, min) then Null
    else if !Inside(brk, end, min) then Outside
    else if min == 0 then Null
    else if Recorded(min) >= min then Served
    else GrowthAnswer(brk + ExpandWord(min), end, min)
  }

  /** How often the heap grows on the way. */
  function Growths(brk: nat, end: nat, min: nat): nat
    decreases if brk <= end then end - brk else 0
  {
    if !Inside(brk, end, min) then 0
    else if min == 0 || Recorded(min) >= min then 1
    else 1 + Growths(brk + ExpandWord(min), end, min)
  }

  /** By how much, all in all. */
  function Grown(min: nat, growths: nat): nat { growths * ExpandWord(min) }

  lemma GrownMore(min: nat, growths: nat)
    ensures Grown(min, 0) == 0 && Grown(min, growths + 1) == ExpandWord(min) + Grown(min, growths)
  {
    hide ExpandWord;
  }

  /** The retry finds the new block exactly when the header still fits into 4 GB with it. */
  lemma RetryFits(min: nat)
    requires min % HEAP_ALIGN == 0 && min < ADDRESS_SPACE
    ensures Recorded(min) >= min <==> min + HDR <= ADDRESS_SPACE
    ensures min + HDR > ADDRESS_SPACE ==> min == ADDRESS_SPACE - HEAP_ALIGN && ExpandWord(min) == PAGE
  {
    hide ExpandWord, AlignUp;
    ExpandWordIs(min);
    AlignUpFacts(min + HDR);
  }

  /** Where the break is when no further page fits. */
  function LastBreak(brk: nat, end: nat): nat
    requires brk <= end
  {
    brk + (end - brk) / PAGE * PAGE
  }

  lemma NextPage(brk: nat, end: nat)
    requires brk <= end
    ensures brk + PAGE <= end ==>
      LastBreak(brk + PAGE, end) == LastBreak(brk, end) && (end - brk) / PAGE == 1 + (end - brk - PAGE) / PAGE
    ensures end < brk + PAGE ==> LastBreak(brk, end) == brk && (end - brk) / PAGE == 0
  {
  }

  /** The one request for which the retry does not find the block takes all pages of the heap,
      one by one; then it is refused, or the next page wraps. */
  lemma {:induction false} GrowsUntilFull(brk: nat, end: nat)
    requires brk <= end < ADDRESS_SPACE
    ensures var top := ADDRESS_SPACE - HEAP_ALIGN;
      && Growths(brk, end, top) == (end - brk) / PAGE
      && GrowthAnswer(brk, end, top) == if LastBreak(brk, end) + PAGE < ADDRESS_SPACE then Null else Outside
    decreases end - brk
  {
    hide LastBreak;
    var top := ADDRESS_SPACE - HEAP_ALIGN;
    RetryFits(top);
    NextPage(brk, end);
    if brk + PAGE <= end { GrowsUntilFull(brk + PAGE, end); }
  }

  /** One growth. */
  lemma GrowthStep(brk: nat, end: nat, min: nat)
    requires brk <= end < ADDRESS_SPACE && min % HEAP_ALIGN == 0 && min < ADDRESS_SPACE
    ensures !Inside(brk, end, min) ==>
      Growths(brk, end, min) == 0 && GrowthAnswer(brk, end, min) == if WordTest(brk, end, min) then Outside else Null
    ensures Inside(brk, end, min) ==>
      var next := brk + ExpandWord(min);
      && brk < next <= end && WordTest(brk, end, min)
      && GrowthAnswer(brk, end, min) ==
           (if min == 0 then Null else if Recorded(min) >= min then Served else GrowthAnswer(next, end, min))
      && Growths(brk, end, min) == 1 + if min == 0 || Recorded(min) >= min then 0 else Growths(next, end, min)
    ensures Recorded(min) < min ==> GrowthAnswer(brk, end, min) != Served
  {
    hide ExpandWord;
    RetryFits(min);
    if min + HDR > ADDRESS_SPACE { GrowsUntilFull(brk, end); }
  }

  lemma RoundedFacts(size: nat)
    requires 0 < size < ADDRESS_SPACE
    ensures var aligned := RoundedWord(size);
      && aligned % HEAP_ALIGN == 0 && aligned <= ADDRESS_SPACE - HEAP_ALIGN && RoundedWord(aligned) == aligned
      && if size <= ADDRESS_SPACE - HEAP_ALIGN then size <= aligned < size + 16 && aligned > 0
         else aligned == 0 && size > MIN_BLOCK
  {
    hide RoundedWord, AlignUp;
    RoundingWraps(size);
    if size <= ADDRESS_SPACE - HEAP_ALIGN {
      AlignUpFacts(size);
      AlignedBelow(size);
      RoundedTwice(AlignUp(size, HEAP_ALIGN));
    } else {
      RoundedTwice(0);
    }
  }

  lemma RoundedTwice(size: nat)
    requires size % HEAP_ALIGN == 0 && size <= ADDRESS_SPACE - HEAP_ALIGN
    ensures RoundedWord(size) == size
  {
  }

  /** Growth for any other request: at most once. */
  lemma GrowsOnce(brk: nat, end: nat, min: nat)
    requires brk <= end < ADDRESS_SPACE && min % HEAP_ALIGN == 0 && min + HDR <= ADDRESS_SPACE
    ensures Growths(brk, end, min) == if RoomFor(brk, end, min) then 1 else 0
    ensures GrowthAnswer(brk, end, min) ==
      if !WordTest(brk, end, min) then Null
      else if !RoomFor(brk, end, min) then Outside
      else if min == 0 then Null else Served
  {
    hide ExpandWord, AlignUp;
    RetryFits(min);
    ExpandWordIs(min);
    AlignUpFacts(min + HDR);
  }

  /** The request is retried more than once exactly when the retry cannot find the block and two
      pages fit. */
  lemma RetriedIff(brk: nat, end: nat, min: nat)
    requires brk <= end < ADDRESS_SPACE && min % HEAP_ALIGN == 0 && min < ADDRESS_SPACE
    ensures Growths(brk, end, min) > 1 <==> min + HDR > ADDRESS_SPACE && brk + 2 * PAGE <= end
  {
    RetryFits(min);
    if min + HDR > ADDRESS_SPACE { GrowsUntilFull(brk, end); } else { GrowsOnce(brk, end, min); }
  }

  /** The growth is sound, or takes pages until none fits and does not wrap then. */
  predicate GrowthRight(brk: nat, end: nat, min: nat)
    requires brk <= end
  {
    GrowthSound(brk, end, min) || (min + HDR > ADDRESS_SPACE && LastBreak(brk, end) + PAGE < ADDRESS_SPACE)
  }

  /** A request that nothing free can hold is answered as it should, with a block if there is room
      and null otherwise, exactly when the growth is right. */
  lemma GrowthAnswerIff(brk: nat, end: nat, min: nat)
    requires brk <= end < ADDRESS_SPACE && min % HEAP_ALIGN == 0 && 0 < min < ADDRESS_SPACE
    ensures GrowthAnswer(brk, end, min) == (if RoomFor(brk, end, min) then Served else Null) <==>
      GrowthRight(brk, end, min)
    ensures !GrowthRight(brk, end, min) ==> GrowthAnswer(brk, end, min) == Outside
  {
    hide ExpandWord, AlignUp, WordTest, GrowthAnswer, LastBreak;
    RetryFits(min);
    ExpandWordIs(min);
    if min + HDR > ADDRESS_SPACE {
      GrowsUntilFull(brk, end);
      NextPage(brk, end);
    } else {
      GrowsOnce(brk, end, min);
      GrowthIff(brk, end, min);
    }
  }

  /** A request that rounds to 0 adds a page if one fits, and is refused by the retry, unless the
      page wraps. */
  lemma ZeroGrowth(brk: nat, end: nat)
    requires brk <= end < ADDRESS_SPACE
    ensures GrowthAnswer(brk, end, 0) == if brk + PAGE < ADDRESS_SPACE then Null else Outside
    ensures Growths(brk, end, 0) == if brk + PAGE <= end then 1 else 0
  {
    assert ExpandWord(0) == PAGE;
  }

  // ---- two requests near 4 GB, on the kernel's heap ----

  /** Sizes from 0xFFFFFFE1 to 0xFFFFFFF0 are refused, after every page left was added. */
  lemma TopRequest(size: nat)
    requires 0xFFFF_FFE1 <= size <= 0xFFFF_FFF0
    ensures RoundedWord(size) == 0xFFFF_FFF0
    ensures GrowthAnswer(0xD000_2000, 0xE000_0000, RoundedWord(size)) == Null
    ensures Growths(0xD000_2000, 0xE000_0000, RoundedWord(size)) == 65534
  {
    assert RoundedWord(size) == 0xFFFF_FFF0;
    GrowsUntilFull(0xD000_2000, 0xE000_0000);
  }

  /** 0xFFFFFFFF rounds to 0: with nothing free it is refused, and a page was added. */
  lemma ZeroRequest()
    ensures RoundedWord(0xFFFF_FFFF) == 0
    ensures GrowthAnswer(0xD000_2000, 0xE000_0000, 0) == Null && Growths(0xD000_2000, 0xE000_0000, 0) == 1
  {
    ZeroGrowth(0xD000_2000, 0xE000_0000);
  }
}
