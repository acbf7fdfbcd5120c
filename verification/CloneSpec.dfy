/** The frames a directory's user half is made of, and what a deep copy of it is. */
module CloneSpec {
  import opened Basics
  import opened Paging
  import opened VmmSpec

  /** A frame's role below a directory. */
  datatype Part = Root | Table(i: nat) | Page(i: nat, j: nat)

  type Placement = map<Part, nat>

  /** The directory in frame `dir` has this part: a user table, or a user page mapped by one. */
  predicate Has(mem: Memory, dir: nat, d: Part)
    requires dir < |mem|
  {
    match d
    case Root => true
    case Table(i) => i < KERNEL_FIRST && Present(mem[dir][i]) && Target(mem[dir][i]) < |mem|
    case Page(i, j) =>
      i < KERNEL_FIRST && j < ENTRIES && Present(mem[dir][i]) && Target(mem[dir][i]) < |mem| &&
      Present(mem[Target(mem[dir][i])][j])
  }

  /** The frame that holds a part. */
  function Where(mem: Memory, dir: nat, d: Part): nat
    requires dir < |mem| && Has(mem, dir, d)
  {
    match d
    case Root => dir
    case Table(i) => Target(mem[dir][i])
    case Page(i, j) => Target(mem[Target(mem[dir][i])][j])
  }

  ghost function PartsOf(mem: Memory, dir: nat): (parts: set<Part>)
    requires dir < |mem|
    ensures forall d :: d in parts <==> Has(mem, dir, d)
  {
    {Root} + (set i | 0 <= i < KERNEL_FIRST && Has(mem, dir, Table(i)) :: Table(i))
    + (set i, j | 0 <= i < KERNEL_FIRST && 0 <= j < ENTRIES && Has(mem, dir, Page(i, j)) :: Page(i, j))
  }

  ghost predicate Injective(at: Placement) {
    forall d, e :: d in at && e in at && d != e ==> at[d] != at[e]
  }

  /** An entry with the same flags that points to frame `f`. */
  function Link(f: nat, e: Word): Word {
    if 4096 * f < WORD then RepointedFacts(4096 * f, e); Repointed(4096 * f, e) else 0
  }

  /** What the clone's directory holds in slot `i`. */
  function RootWord(mem: Memory, src: nat, at: Placement, i: nat): Word
    requires src < |mem| && i < ENTRIES
  {
    var e := mem[src][i];
    if !Present(e) then 0
    else if i >= KERNEL_FIRST then e
    else if Table(i) in at then Link(at[Table(i)], e) else 0
  }

  /** What the clone's table `i` holds in slot `j`. */
  function LeafWord(mem: Memory, src: nat, at: Placement, i: nat, j: nat): Word
    requires src < |mem| && Has(mem, src, Table(i)) && j < ENTRIES
  {
    var e := mem[Target(mem[src][i])][j];
    if !Present(e) then 0 else if Page(i, j) in at then Link(at[Page(i, j)], e) else 0
  }

  /** The walk has come to directory slot `i`; in its table `k` entries are done, or k == -1 before the table. */
  predicate Reached(d: Part, i: nat, k: int) {
    match d
    case Root => true
    case Table(c) => c < i || (c == i && k >= 0)
    case Page(c, e) => c < i || (c == i && e < k)
  }

  ghost predicate Placed(mem: Memory, src: nat, m: Memory, at: Placement, i: nat, k: int)
    requires src < |mem| == |m|
  {
    && (forall d :: d in at <==> Has(mem, src, d) && Reached(d, i, k))
    && Injective(at)
    && (forall d :: d in at ==> at[d] < |m|)
    && (forall f :: 0 <= f < |m| && f !in at.Values ==> m[f] == mem[f])
  }

  ghost predicate RootDone(mem: Memory, src: nat, m: Memory, at: Placement, i: nat)
    requires src < |mem| == |m| && i <= ENTRIES
  {
    Root in at && at[Root] < |m| && forall c :: 0 <= c < i ==> m[at[Root]][c] == RootWord(mem, src, at, c)
  }

  ghost predicate TablesDone(mem: Memory, src: nat, m: Memory, at: Placement, i: nat, k: int)
    requires src < |mem| == |m|
  {
    forall c: nat, e: nat :: Table(c) in at && e < ENTRIES && (c < i || e < k) ==>
      Has(mem, src, Table(c)) && at[Table(c)] < |m| && m[at[Table(c)]][e] == LeafWord(mem, src, at, c, e)
  }

  ghost predicate PagesDone(mem: Memory, src: nat, m: Memory, at: Placement)
    requires src < |mem| == |m|
  {
    forall c: nat, e: nat :: Page(c, e) in at ==>
      Has(mem, src, Page(c, e)) && at[Page(c, e)] < |m| && Where(mem, src, Page(c, e)) < |mem| &&
      m[at[Page(c, e)]] == mem[Where(mem, src, Page(c, e))]
  }

  ghost predicate Progress(mem: Memory, src: nat, m: Memory, at: Placement, i: nat, k: int) {
    && src < |mem| == |m| && i <= ENTRIES
    && Placed(mem, src, m, at, i, k) && RootDone(mem, src, m, at, i)
    && TablesDone(mem, src, m, at, i, k) && PagesDone(mem, src, m, at)
  }

  /** `m` is `mem` with a deep copy of the user half of `src`, its parts placed by `at`. */
  ghost predicate Cloned(mem: Memory, src: nat, m: Memory, at: Placement) {
    Progress(mem, src, m, at, ENTRIES, -1)
  }

  /** None of the source's frames may be handed out while it is being copied. */
  ghost predicate SourceSafe(mem: Memory, src: nat, free: set<nat>) {
    && WellFormed(mem, src) && Held(mem, src, free)
    && forall d :: Has(mem, src, d) ==> Where(mem, src, d) < |mem| && Where(mem, src, d) !in free
  }

  // ---- the steps of the copy ----

  lemma Begin(mem: Memory, src: nat, f: nat)
    requires src < |mem| && f < |mem|
    ensures Progress(mem, src, mem, map[Root := f], 0, -1)
  {}

  /** Writing the frame of one part leaves the frames of the others. */
  lemma WriteOwn(mem: Memory, src: nat, m: Memory, at: Placement, i: nat, k: int, d: Part, frame: Frame)
    requires src < |mem| == |m| && Placed(mem, src, m, at, i, k) && d in at
    ensures forall e :: e in at && e != d ==> at[e] < |m| && m[at[d] := frame][at[e]] == m[at[e]]
    ensures Placed(mem, src, m[at[d] := frame], at, i, k)
  {
    assert at[d] in at.Values;
  }

  lemma ValuesAdd(at: Placement, d: Part, f: nat)
    requires d !in at
    ensures at[d := f].Values == at.Values + {f}
  {
    var at' := at[d := f];
    assert at'[d] == f;
    forall g | g in at.Values ensures g in at'.Values {
      var e :| e in at && at[e] == g;
      assert at'[e] == g;
    }
  }

  /** Placing one more part in a frame of its own. */
  lemma Extended(at: Placement, d: Part, f: nat)
    requires Injective(at) && d !in at && f !in at.Values
    ensures Injective(at[d := f]) && at[d := f].Values == at.Values + {f}
    ensures forall e :: e in at ==> at[d := f][e] == at[e] && at[e] != f
  {
    ValuesAdd(at, d, f);
    assert forall e :: e in at ==> at[e] in at.Values;
  }

  /** One part fewer to place, one frame fewer to place it in. */
  lemma OneFewer(parts: set<Part>, at: Placement, d: Part, f: nat, avail: set<nat>)
    requires d in parts && d !in at && f in avail && |parts - at.Keys| <= |avail|
    ensures |parts - at[d := f].Keys| <= |avail - {f}|
  {
    assert parts - at[d := f].Keys == (parts - at.Keys) - {d};
  }

  /** `m'` and `at'` agree with `m` and `at` on every part placed so far. */
  ghost predicate Grown(m: Memory, m': Memory, at: Placement, at': Placement) {
    |m| == |m'| && forall d :: d in at ==> at[d] < |m| && d in at' && at'[d] == at[d] && m'[at[d]] == m[at[d]]
  }

  lemma RootKept(mem: Memory, src: nat, m: Memory, m': Memory, at: Placement, at': Placement, i: nat, k: int)
    requires src < |mem| == |m| && i <= ENTRIES && Placed(mem, src, m, at, i, k) && RootDone(mem, src, m, at, i)
    requires WellFormed(mem, src) && Grown(m, m', at, at')
    ensures RootDone(mem, src, m', at', i)
  {
    forall c | 0 <= c < i && c < KERNEL_FIRST && Present(mem[src][c]) ensures Table(c) in at {
      assert Has(mem, src, Table(c)) && Reached(Table(c), i, k);
    }
  }

  lemma TablesKept(mem: Memory, src: nat, m: Memory, m': Memory, at: Placement, at': Placement, i: nat, k: int)
    requires src < |mem| == |m| && Placed(mem, src, m, at, i, k) && TablesDone(mem, src, m, at, i, k)
    requires Grown(m, m', at, at')
    requires forall c: nat :: Table(c) in at' && (c < i || k > 0) ==> Table(c) in at
    ensures TablesDone(mem, src, m', at', i, k)
  {
    forall c: nat, e: nat | Table(c) in at && e < ENTRIES && (c < i || e < k)
      ensures Has(mem, src, Page(c, e)) ==> Page(c, e) in at
    {
      assert Reached(Table(c), i, k);
      assert Has(mem, src, Page(c, e)) ==> Reached(Page(c, e), i, k);
    }
  }

  lemma PagesKept(mem: Memory, src: nat, m: Memory, m': Memory, at: Placement, at': Placement)
    requires src < |mem| == |m| && PagesDone(mem, src, m, at) && Grown(m, m', at, at')
    requires forall c: nat, e: nat :: Page(c, e) in at' ==> Page(c, e) in at
    ensures PagesDone(mem, src, m', at')
  {}

  lemma PlacedMore(mem: Memory, src: nat, m: Memory, m': Memory, at: Placement, i: nat, k: int, d: Part, f: nat,
                   k': int)
    requires src < |mem| == |m| == |m'| && Placed(mem, src, m, at, i, k) && d !in at && f < |m| && f !in at.Values
    requires Has(mem, src, d) && Reached(d, i, k')
    requires forall e :: e != d && Has(mem, src, e) ==> (Reached(e, i, k') <==> Reached(e, i, k))
    requires forall g :: 0 <= g < |m| && g != f ==> m'[g] == m[g]
    ensures Placed(mem, src, m', at[d := f], i, k') && Grown(m, m', at, at[d := f])
  {
    Extended(at, d, f);
  }

  /** Writing directory slot `i`: it has no user table, or its table is complete. */
  lemma FillSlot(mem: Memory, src: nat, m: Memory, at: Placement, i: nat, k: int)
    requires Progress(mem, src, m, at, i, k) && i < ENTRIES && WellFormed(mem, src)
    requires if i >= KERNEL_FIRST || !Present(mem[src][i]) then k == -1 else k == ENTRIES
    ensures Progress(mem, src, SetWord(m, at[Root], i, RootWord(mem, src, at, i)), at, i + 1, -1)
  {
    hide Placed, RootWord, LeafWord, TablesDone, PagesDone, Has, Where;
    RootPlaced(mem, src, m, at, i, k);
    SlotReached(mem, src, i, k);
    WriteOwn(mem, src, m, at, i, k, Root, m[at[Root]][i := RootWord(mem, src, at, i)]);
    SlotPlaced(mem, src, SetWord(m, at[Root], i, RootWord(mem, src, at, i)), at, i, k);
    SlotTables(mem, src, m, SetWord(m, at[Root], i, RootWord(mem, src, at, i)), at, i, k);
    PagesElsewhere(mem, src, m, SetWord(m, at[Root], i, RootWord(mem, src, at, i)), at);
  }

  lemma RootPlaced(mem: Memory, src: nat, m: Memory, at: Placement, i: nat, k: int)
    requires src < |mem| == |m| && Placed(mem, src, m, at, i, k)
    ensures Root in at && at[Root] < |m|
  {
    assert Has(mem, src, Root) && Reached(Root, i, k);
  }

  /** With slot `i` complete the walk has reached the same parts as at slot i + 1. */
  lemma SlotReached(mem: Memory, src: nat, i: nat, k: int)
    requires src < |mem| && i < ENTRIES
    requires if i >= KERNEL_FIRST || !Present(mem[src][i]) then k == -1 else k == ENTRIES
    ensures forall d :: Has(mem, src, d) ==> (Reached(d, i, k) <==> Reached(d, i + 1, -1))
  {
  }

  lemma SlotPlaced(mem: Memory, src: nat, m: Memory, at: Placement, i: nat, k: int)
    requires src < |mem| == |m| && Placed(mem, src, m, at, i, k)
    requires forall d :: Has(mem, src, d) ==> (Reached(d, i, k) <==> Reached(d, i + 1, -1))
    ensures Placed(mem, src, m, at, i + 1, -1)
  {
    hide Has, Reached;
  }

  lemma SlotTables(mem: Memory, src: nat, m: Memory, m': Memory, at: Placement, i: nat, k: int)
    requires src < |mem| == |m| == |m'| && i < ENTRIES
    requires Placed(mem, src, m, at, i, k) && TablesDone(mem, src, m, at, i, k)
    requires if i >= KERNEL_FIRST || !Present(mem[src][i]) then k == -1 else k == ENTRIES
    requires forall d :: d in at && d != Root ==> at[d] < |m| && m'[at[d]] == m[at[d]]
    ensures TablesDone(mem, src, m', at, i + 1, -1)
  {
    hide LeafWord;
  }

  lemma PagesElsewhere(mem: Memory, src: nat, m: Memory, m': Memory, at: Placement)
    requires src < |mem| == |m| == |m'| && PagesDone(mem, src, m, at)
    requires forall d :: d in at && d != Root ==> at[d] < |m| && m'[at[d]] == m[at[d]]
    ensures PagesDone(mem, src, m', at)
  {
    hide Where;
  }

  /** A frame for the table of slot `i`. */
  lemma NewTable(mem: Memory, src: nat, m: Memory, at: Placement, i: nat, f: nat)
    requires Progress(mem, src, m, at, i, -1) && i < KERNEL_FIRST && Has(mem, src, Table(i)) && WellFormed(mem, src)
    requires f < |m| && f !in at.Values
    ensures Progress(mem, src, m, at[Table(i) := f], i, 0)
  {
    PlacedMore(mem, src, m, m, at, i, -1, Table(i), f, 0);
    RootKept(mem, src, m, m, at, at[Table(i) := f], i, -1);
    TablesKept(mem, src, m, m, at, at[Table(i) := f], i, -1);
    PagesKept(mem, src, m, m, at, at[Table(i) := f]);
  }

  /** An entry of the source table that maps nothing. */
  lemma AbsentLeaf(mem: Memory, src: nat, m: Memory, at: Placement, i: nat, j: nat)
    requires Progress(mem, src, m, at, i, j) && i < KERNEL_FIRST && j < ENTRIES && Has(mem, src, Table(i))
    requires !Present(mem[Target(mem[src][i])][j])
    ensures Table(i) in at && Progress(mem, src, SetWord(m, at[Table(i)], j, 0), at, i, j + 1)
  {
    assert Reached(Table(i), i, j);
    WriteOwn(mem, src, m, at, i, j, Table(i), m[at[Table(i)]][j := 0]);
  }

  lemma PlacePage(mem: Memory, src: nat, m: Memory, at: Placement, i: nat, j: nat, f: nat)
    requires Progress(mem, src, m, at, i, j) && i < KERNEL_FIRST && j < ENTRIES && Has(mem, src, Page(i, j))
    requires WellFormed(mem, src) && f < |m| && f !in at.Values && Where(mem, src, Page(i, j)) < |mem|
    ensures var at' := at[Page(i, j) := f];
      var m' := m[f := mem[Where(mem, src, Page(i, j))]];
      Placed(mem, src, m', at', i, j + 1) && RootDone(mem, src, m', at', i) &&
      TablesDone(mem, src, m', at', i, j) && PagesDone(mem, src, m', at')
  {
    var d := Page(i, j);
    var at' := at[d := f];
    var m' := m[f := mem[Where(mem, src, d)]];
    PlacedMore(mem, src, m, m', at, i, j, d, f, j + 1);
    RootKept(mem, src, m, m', at, at', i, j);
    TablesKept(mem, src, m, m', at, at', i, j);
  }

  /** A mapped page: a new frame with its contents, and an entry that points to it. */
  lemma CopiedLeaf(mem: Memory, src: nat, m: Memory, at: Placement, i: nat, j: nat, f: nat)
    requires Progress(mem, src, m, at, i, j) && i < KERNEL_FIRST && j < ENTRIES && Has(mem, src, Page(i, j))
    requires WellFormed(mem, src) && f < |m| && f !in at.Values && Where(mem, src, Page(i, j)) < |mem|
    ensures Table(i) in at && at[Table(i)] != f
    ensures var at' := at[Page(i, j) := f];
      Progress(mem, src,
               SetWord(m[f := mem[Where(mem, src, Page(i, j))]], at[Table(i)], j, LeafWord(mem, src, at', i, j)),
               at', i, j + 1)
  {
    assert Reached(Table(i), i, j);
    assert at[Table(i)] in at.Values;
    var d := Page(i, j);
    var at' := at[d := f];
    var m1 := m[f := mem[Where(mem, src, d)]];
    PlacePage(mem, src, m, at, i, j, f);
    var frame := m1[at'[Table(i)]][j := LeafWord(mem, src, at', i, j)];
    WriteOwn(mem, src, m1, at', i, j + 1, Table(i), frame);
    WriteLeaf(mem, src, m1, at', i, j);
    assert SetWord(m1, at[Table(i)], j, LeafWord(mem, src, at', i, j)) == m1[at'[Table(i)] := frame];
  }

  /** Filling in entry `j` of the table in hand. */
  lemma WriteLeaf(mem: Memory, src: nat, m: Memory, at: Placement, i: nat, j: nat)
    requires src < |mem| == |m| && Placed(mem, src, m, at, i, j + 1)
    requires Table(i) in at && j < ENTRIES && i < KERNEL_FIRST
    requires RootDone(mem, src, m, at, i) && TablesDone(mem, src, m, at, i, j) && PagesDone(mem, src, m, at)
    ensures var m' := SetWord(m, at[Table(i)], j, LeafWord(mem, src, at, i, j));
      RootDone(mem, src, m', at, i) && TablesDone(mem, src, m', at, i, j + 1) && PagesDone(mem, src, m', at)
  {
    var frame := m[at[Table(i)]][j := LeafWord(mem, src, at, i, j)];
    WriteOwn(mem, src, m, at, i, j + 1, Table(i), frame);
  }

  // ---- what a finished clone is ----

  lemma LinkFacts(f: nat, e: Word)
    requires f < 0x4_0000
    ensures Target(Link(f, e)) == f && Flags(Link(f, e)) == Flags(e)
    ensures Present(Link(f, e)) == Present(e) && Huge(Link(f, e)) == Huge(e)
  {
    FrameAddress(f);
    RepointedFacts(4096 * f, e);
  }

  /** The clone has the same parts as its source, each in the frame it was placed in. */
  lemma ClonePart(mem: Memory, src: nat, m: Memory, at: Placement, d: Part)
    requires Cloned(mem, src, m, at) && WellFormed(mem, src) && |mem| <= 0x4_0000
    ensures Root in at && at[Root] < |m|
    ensures Has(m, at[Root], d) <==> Has(mem, src, d)
    ensures Has(mem, src, d) ==> d in at && Where(m, at[Root], d) == at[d]
  {
    assert Has(mem, src, d) ==> Reached(d, ENTRIES, -1);
    match d
    case Root =>
    case Table(i) => CloneTable(mem, src, m, at, i);
    case Page(i, j) =>
      CloneTable(mem, src, m, at, i);
      if Has(mem, src, Table(i)) && j < ENTRIES {
        CloneLeaf(mem, src, m, at, i, j);
      }
  }

  lemma CloneTable(mem: Memory, src: nat, m: Memory, at: Placement, i: nat)
    requires Cloned(mem, src, m, at) && WellFormed(mem, src) && |mem| <= 0x4_0000
    ensures Has(m, at[Root], Table(i)) <==> Has(mem, src, Table(i))
    ensures Has(mem, src, Table(i)) ==>
      Table(i) in at && Target(m[at[Root]][i]) == at[Table(i)] && Flags(m[at[Root]][i]) == Flags(mem[src][i])
  {
    ZeroAbsent();
    if i < KERNEL_FIRST {
      assert m[at[Root]][i] == RootWord(mem, src, at, i);
      if Has(mem, src, Table(i)) {
        assert Reached(Table(i), ENTRIES, -1);
        LinkFacts(at[Table(i)], mem[src][i]);
      }
    }
  }

  lemma CloneLeaf(mem: Memory, src: nat, m: Memory, at: Placement, i: nat, j: nat)
    requires Cloned(mem, src, m, at) && WellFormed(mem, src) && |mem| <= 0x4_0000
    requires Has(mem, src, Table(i)) && j < ENTRIES
    ensures Table(i) in at && at[Table(i)] < |m|
    ensures var e, e' := mem[Target(mem[src][i])][j], m[at[Table(i)]][j];
      (Present(e') <==> Present(e)) &&
      (Present(e) ==> Page(i, j) in at && Target(e') == at[Page(i, j)] && Flags(e') == Flags(e))
  {
    ZeroAbsent();
    assert Reached(Table(i), ENTRIES, -1);
    assert m[at[Table(i)]][j] == LeafWord(mem, src, at, i, j);
    if Has(mem, src, Page(i, j)) {
      assert Reached(Page(i, j), ENTRIES, -1);
      LinkFacts(at[Page(i, j)], mem[Target(mem[src][i])][j]);
    }
  }

  /** What a clone holds at an address.  Below 3 GB: a formerly free frame with equal contents and
      the same low 12 bits where the source has a page, nothing where it has none.  From 3 GB on:
      the source's own directory word. */
  ghost predicate CopiedAt(mem: Memory, src: nat, m: Memory, dst: nat, free: set<nat>, virt: Word)
    requires src < |mem| == |m| && dst < |m|
  {
    if virt < 0xC000_0000 then
      match (Walk(mem, src, virt / 4096), Walk(m, dst, virt / 4096))
      case (None, None) => true
      case (Some(e), Some(e')) =>
        && e' / 4096 in free && e' % 4096 == e % 4096
        && e / 4096 < |mem| && e' / 4096 < |m| && m[e' / 4096] == mem[e / 4096]
      case _ => false
    else
      var e := mem[src][virt / 0x40_0000];
      m[dst][virt / 0x40_0000] == if Present(e) then e else 0
  }

  /** Deep copy: each mapped user page maps in the clone to a frame of its own, taken
      from the free frames, with equal contents and flags; unmapped pages stay unmapped. */
  lemma DeepCopy(mem: Memory, src: nat, m: Memory, at: Placement, free: set<nat>, virt: Word)
    requires Cloned(mem, src, m, at) && SourceSafe(mem, src, free) && at.Values <= free && |mem| <= 0x4_0000
    requires virt < 0xC000_0000
    ensures Root in at && at[Root] < |m| && CopiedAt(mem, src, m, at[Root], free, virt)
    ensures Walk(mem, src, virt / 4096).Some? ==>
      var d := Page(virt / 0x40_0000, virt / 4096 % 1024);
      Has(mem, src, d) && d in at && Walk(m, at[Root], virt / 4096).value / 4096 == at[d]
  {
    hide Flags, Target, Present, Progress;
    var i, j := virt / 0x40_0000, virt / 4096 % 1024;
    assert virt / 4096 / ENTRIES == i && i < KERNEL_FIRST;
    CloneSlots(mem, src, m, at, free, i);
    if Present(mem[src][i]) {
      CloneLeaf(mem, src, m, at, i, j);
      var e, e' := mem[Target(mem[src][i])][j], m[at[Table(i)]][j];
      ByDivision(e);
      ByDivision(e');
      if Present(e) { PageThere(mem, src, m, at, free, i, j); }
    }
  }

  lemma CloneSlots(mem: Memory, src: nat, m: Memory, at: Placement, free: set<nat>, i: nat)
    requires Cloned(mem, src, m, at) && SourceSafe(mem, src, free) && |mem| <= 0x4_0000 && i < KERNEL_FIRST
    ensures Root in at && at[Root] < |m| && (Present(m[at[Root]][i]) <==> Present(mem[src][i]))
    ensures Present(mem[src][i]) ==>
      Has(mem, src, Table(i)) && Table(i) in at && at[Table(i)] < |m| && Target(m[at[Root]][i]) == at[Table(i)]
  {
    CloneTable(mem, src, m, at, i);
    ClonePart(mem, src, m, at, Root);
    if Present(m[at[Root]][i]) { SlotOfClone(mem, src, m, at, i); }
    if Present(mem[src][i]) { assert Has(mem, src, Table(i)) && Reached(Table(i), ENTRIES, -1); }
    assert m[at[Root]][i] == RootWord(mem, src, at, i);
    if Present(mem[src][i]) { LinkFacts(at[Table(i)], mem[src][i]); }
  }

  /** The page of a mapped entry and its copy. */
  lemma PageThere(mem: Memory, src: nat, m: Memory, at: Placement, free: set<nat>, i: nat, j: nat)
    requires Cloned(mem, src, m, at) && SourceSafe(mem, src, free) && at.Values <= free
    requires i < KERNEL_FIRST && j < ENTRIES && Has(mem, src, Page(i, j))
    ensures var d := Page(i, j);
      d in at && at[d] in free && at[d] < |m| && Where(mem, src, d) < |mem| && m[at[d]] == mem[Where(mem, src, d)]
  {
    assert Reached(Page(i, j), ENTRIES, -1);
    assert at[Page(i, j)] in at.Values;
  }

  /** Different pages of the clone never share a frame, even where the source's did. */
  lemma PagesDistinct(mem: Memory, src: nat, m: Memory, at: Placement, v: Word, w: Word)
    requires Cloned(mem, src, m, at) && WellFormed(mem, src) && |mem| <= 0x4_0000
    requires v < 0xC000_0000 && w < 0xC000_0000 && v / 4096 != w / 4096
    requires Root in at && at[Root] < |m|
    requires Walk(m, at[Root], v / 4096).Some? && Walk(m, at[Root], w / 4096).Some?
    ensures Walk(m, at[Root], v / 4096).value / 4096 != Walk(m, at[Root], w / 4096).value / 4096
  {
    hide Walk, Has, RootDone, TablesDone, PagesDone;
    PageOf(mem, src, m, at, v);
    PageOf(mem, src, m, at, w);
    assert v / 4096 / 1024 == v / 0x40_0000 && w / 4096 / 1024 == w / 0x40_0000;
  }

  /** The frame of a clone's page is the one placed for it. */
  lemma PageOf(mem: Memory, src: nat, m: Memory, at: Placement, v: Word)
    requires Cloned(mem, src, m, at) && WellFormed(mem, src) && |mem| <= 0x4_0000 && v < 0xC000_0000
    requires Root in at && at[Root] < |m| && Walk(m, at[Root], v / 4096).Some?
    ensures var d := Page(v / 0x40_0000, v / 4096 % 1024);
      d in at && Walk(m, at[Root], v / 4096).value / 4096 == at[d]
  {
    hide Flags, Target, Present, Progress;
    ByDivision(Walk(m, at[Root], v / 4096).value);
    assert v / 4096 / 1024 == v / 0x40_0000;
    ClonePart(mem, src, m, at, Page(v / 0x40_0000, v / 4096 % 1024));
  }

  /** From 3 GB on the kernel is shared: present entries are the source's own words. */
  lemma KernelShared(mem: Memory, src: nat, m: Memory, at: Placement, virt: Word)
    requires Cloned(mem, src, m, at) && virt >= 0xC000_0000
    ensures var i := virt / 0x40_0000;
      m[at[Root]][i] == if Present(mem[src][i]) then mem[src][i] else 0
  {
    var i := virt / 0x40_0000;
    assert i >= KERNEL_FIRST && m[at[Root]][i] == RootWord(mem, src, at, i);
  }

  /** The clone, address by address. */
  lemma CloneByAddress(mem: Memory, src: nat, m: Memory, at: Placement, free: set<nat>)
    requires Cloned(mem, src, m, at) && SourceSafe(mem, src, free) && at.Values <= free && |mem| <= 0x4_0000
    ensures src < |mem| == |m| && Root in at && at[Root] < |m|
    ensures forall virt: Word :: CopiedAt(mem, src, m, at[Root], free, virt)
  {
    forall virt: Word ensures CopiedAt(mem, src, m, at[Root], free, virt) {
      if virt < 0xC000_0000 { DeepCopy(mem, src, m, at, free, virt); } else { KernelShared(mem, src, m, at, virt); }
    }
  }

  /** The source is untouched: its directory, its tables, its pages, its whole map. */
  lemma SourceKept(mem: Memory, src: nat, m: Memory, at: Placement, free: set<nat>)
    requires Cloned(mem, src, m, at) && SourceSafe(mem, src, free) && at.Values <= free
    ensures SameMap(mem, m, src)
    ensures forall d :: Has(mem, src, d) ==> m[Where(mem, src, d)] == mem[Where(mem, src, d)]
  {
    forall p | 0 <= p < VPAGES ensures Walk(m, src, p) == Walk(mem, src, p) {
      assert m[src] == mem[src];
      var pde := mem[src][p / ENTRIES];
      if Present(pde) { assert Target(pde) !in at.Values; }
    }
  }

  /** While copying, the source's frames still hold what they held. */
  lemma SourceFrame(mem: Memory, src: nat, m: Memory, at: Placement, i: nat, k: int, free: set<nat>, d: Part)
    requires Progress(mem, src, m, at, i, k) && SourceSafe(mem, src, free) && at.Values <= free && Has(mem, src, d)
    ensures Where(mem, src, d) < |m| && m[Where(mem, src, d)] == mem[Where(mem, src, d)]
    ensures m[src] == mem[src]
  {}

  /** A complete copy takes a frame for every part: with fewer there is none. */
  lemma CloneNeedsFrames(mem: Memory, src: nat, m: Memory, at: Placement, avail: set<nat>)
    requires Cloned(mem, src, m, at) && at.Values <= avail
    ensures |PartsOf(mem, src)| <= |avail|
  {
    forall d ensures d in PartsOf(mem, src) <==> d in at { assert Has(mem, src, d) ==> Reached(d, ENTRIES, -1); }
    assert PartsOf(mem, src) == at.Keys;
    InjectiveSize(at);
    SubsetSize(at.Values, avail);
  }

  lemma {:induction false} InjectiveSize(at: Placement)
    requires Injective(at)
    ensures |at.Values| == |at.Keys|
    decreases |at.Keys|
  {
    if d :| d in at {
      var rest := at - {d};
      assert rest.Keys == at.Keys - {d};
      forall f ensures f in rest.Values <==> f in at.Values - {at[d]} {
        if f in at.Values && f != at[d] {
          var e :| e in at && at[e] == f;
          assert e in rest && rest[e] == f;
        }
      }
      assert rest.Values == at.Values - {at[d]} && at[d] in at.Values;
      InjectiveSize(rest);
    } else {
      assert at.Keys == {} && at.Values == {};
    }
  }

  // ---- using the copy ----

  /** A frame of the source: the directory, a table of it (shared kernel tables too), or a user page. */
  ghost predicate OfSource(mem: Memory, src: nat, f: nat)
    requires src < |mem|
  {
    f == src || IsTable(mem, src, f) || exists d :: Has(mem, src, d) && Where(mem, src, d) == f
  }

  /** Two directories of which the second has a user half of its own. */
  ghost predicate OwnUserHalf(mem: Memory, src: nat, dst: nat, free: set<nat>) {
    && SourceSafe(mem, src, free) && WellFormed(mem, dst) && Held(mem, dst, free)
    && !OfSource(mem, src, dst)
    && forall i :: 0 <= i < KERNEL_FIRST && Present(mem[dst][i]) ==> !OfSource(mem, src, Target(mem[dst][i]))
  }

  /** The source's map, tables and user pages are as they were. */
  ghost predicate SourceAsItWas(mem: Memory, m: Memory, src: nat)
    requires src < |mem| == |m|
  {
    SameMap(mem, m, src) && forall f :: 0 <= f < |mem| && OfSource(mem, src, f) ==> m[f] == mem[f]
  }

  /** A clone is a directory: tables in memory, distinct, none of its frames free. */
  lemma CloneIsDirectory(mem: Memory, src: nat, m: Memory, at: Placement, free: set<nat>)
    requires Cloned(mem, src, m, at) && SourceSafe(mem, src, free) && at.Values <= free && |mem| <= 0x4_0000
    ensures Root in at && WellFormed(m, at[Root]) && Held(m, at[Root], free - at.Values)
  {
    hide Walk;
    ClonePart(mem, src, m, at, Root);
    forall i | 0 <= i < ENTRIES && Present(m[at[Root]][i]) ensures CloneSlot(mem, src, m, at, i) {
      SlotOfClone(mem, src, m, at, i);
    }
  }

  /** What a present slot of a clone holds. */
  ghost predicate CloneSlot(mem: Memory, src: nat, m: Memory, at: Placement, i: nat)
    requires src < |mem| && i < ENTRIES && Root in at && at[Root] < |m|
  {
    var e := m[at[Root]][i];
    && Present(mem[src][i]) && !Huge(e) && Target(e) < |m|
    && (i < KERNEL_FIRST ==> Table(i) in at && Target(e) == at[Table(i)])
    && (i >= KERNEL_FIRST ==> e == mem[src][i])
  }

  lemma SlotOfClone(mem: Memory, src: nat, m: Memory, at: Placement, i: nat)
    requires Cloned(mem, src, m, at) && WellFormed(mem, src) && |mem| <= 0x4_0000
    requires i < ENTRIES && Root in at && at[Root] < |m| && Present(m[at[Root]][i])
    ensures CloneSlot(mem, src, m, at, i)
  {
    ZeroAbsent();
    assert m[at[Root]][i] == RootWord(mem, src, at, i);
    if i < KERNEL_FIRST {
      assert Has(mem, src, Table(i)) && Reached(Table(i), ENTRIES, -1);
      LinkFacts(at[Table(i)], mem[src][i]);
    }
  }

  /** A clone and its source are separate, whichever of the two is written to. */
  lemma CloneSeparate(mem: Memory, src: nat, m: Memory, at: Placement, free: set<nat>)
    requires Cloned(mem, src, m, at) && SourceSafe(mem, src, free) && at.Values <= free && |mem| <= 0x4_0000
    ensures Root in at && OwnUserHalf(m, src, at[Root], free - at.Values)
    ensures OwnUserHalf(m, at[Root], src, free - at.Values)
  {
    hide Has, Where, Progress;
    CloneIsDirectory(mem, src, m, at, free);
    SourceUnwritten(mem, src, m, at, free);
    SourceStays(mem, src, m, free, at.Values);
    forall i | 0 <= i < KERNEL_FIRST && Present(m[at[Root]][i]) ensures Target(m[at[Root]][i]) in at.Values {
      SlotOfClone(mem, src, m, at, i);
    }
    CloneParts(mem, src, m, at);
    NotOfClone(mem, src, m, at, free, src);
    forall i | 0 <= i < KERNEL_FIRST && Present(m[src][i]) ensures !OfSource(m, at[Root], Target(m[src][i])) {
      assert IsTable(m, src, Target(m[src][i]));
      NotOfClone(mem, src, m, at, free, Target(m[src][i]));
    }
  }

  lemma SourceUnwritten(mem: Memory, src: nat, m: Memory, at: Placement, free: set<nat>)
    requires Cloned(mem, src, m, at) && SourceSafe(mem, src, free) && at.Values <= free
    ensures |m| == |mem| && forall f :: 0 <= f < |mem| && OfSource(mem, src, f) ==> m[f] == mem[f] && f !in at.Values
  {
    hide Has, Where;
  }

  lemma CloneParts(mem: Memory, src: nat, m: Memory, at: Placement)
    requires Cloned(mem, src, m, at) && WellFormed(mem, src) && |mem| <= 0x4_0000
    ensures Root in at && at[Root] < |m|
    ensures forall d :: Has(m, at[Root], d) ==> Where(m, at[Root], d) in at.Values && Where(m, at[Root], d) < |m|
  {
    hide Has, Where;
    ClonePart(mem, src, m, at, Root);
    forall d | Has(m, at[Root], d) ensures Where(m, at[Root], d) in at.Values { ClonePart(mem, src, m, at, d); }
  }

  /** The source's directory and user tables are no frames of the clone. */
  lemma NotOfClone(mem: Memory, src: nat, m: Memory, at: Placement, free: set<nat>, f: nat)
    requires Cloned(mem, src, m, at) && SourceSafe(mem, src, free) && at.Values <= free && |mem| <= 0x4_0000
    requires f == src || exists i :: 0 <= i < KERNEL_FIRST && Present(mem[src][i]) && Target(mem[src][i]) == f
    ensures Root in at && at[Root] < |m| && !OfSource(m, at[Root], f)
  {
    hide Has, Where, Progress;
    CloneParts(mem, src, m, at);
    assert at[Root] in at.Values;
    if IsTable(m, at[Root], f) {
      var k :| 0 <= k < ENTRIES && Present(m[at[Root]][k]) && Target(m[at[Root]][k]) == f;
      SlotOfClone(mem, src, m, at, k);
    }
  }

  /** With the source's frames unchanged it has the same parts in the same places. */
  lemma SamePart(mem: Memory, src: nat, m: Memory, d: Part)
    requires WellFormed(mem, src) && |m| == |mem|
    requires forall f :: 0 <= f < |mem| && OfSource(mem, src, f) ==> m[f] == mem[f]
    ensures m[src] == mem[src] && (Has(m, src, d) <==> Has(mem, src, d))
    ensures Has(mem, src, d) ==> Where(m, src, d) == Where(mem, src, d)
  {
    assert OfSource(mem, src, src);
    match d
    case Root =>
    case Table(i) =>
    case Page(i, j) =>
      if i < KERNEL_FIRST && Present(mem[src][i]) {
        assert IsTable(mem, src, Target(mem[src][i]));
        assert OfSource(mem, src, Target(mem[src][i]));
      }
  }

  lemma SameTables(mem: Memory, src: nat, m: Memory)
    requires WellFormed(mem, src) && |m| == |mem|
    requires forall f :: 0 <= f < |mem| && OfSource(mem, src, f) ==> m[f] == mem[f]
    ensures m[src] == mem[src] && SameMap(mem, m, src)
    ensures forall f :: IsTable(m, src, f) <==> IsTable(mem, src, f)
  {
    hide Has;
    assert OfSource(mem, src, src);
    forall p | 0 <= p < VPAGES ensures Walk(m, src, p) == Walk(mem, src, p) {
      var pde := mem[src][p / ENTRIES];
      if Present(pde) {
        assert IsTable(mem, src, Target(pde));
        assert OfSource(mem, src, Target(pde));
      }
    }
  }

  /** Writes to frames that are none of the source's leave the source as it was. */
  lemma SourceStays(mem: Memory, src: nat, m: Memory, free: set<nat>, taken: set<nat>)
    requires SourceSafe(mem, src, free) && |m| == |mem|
    requires forall f :: 0 <= f < |mem| && OfSource(mem, src, f) ==> m[f] == mem[f]
    ensures SourceSafe(m, src, free - taken) && SourceAsItWas(mem, m, src)
    ensures forall f :: OfSource(m, src, f) <==> OfSource(mem, src, f)
    ensures forall f :: OfSource(mem, src, f) ==> f !in free
  {
    hide Has, Where, SameMap;
    SameTables(mem, src, m);
    forall d ensures Has(m, src, d) <==> Has(mem, src, d)
      ensures Has(mem, src, d) ==> Where(m, src, d) == Where(mem, src, d)
    {
      SamePart(mem, src, m, d);
    }
  }

  /** A page mapped or unmapped in the user half of the separate directory does not show in the
      source, and keeps them separate. */
  lemma Isolated(mem: Memory, m: Memory, src: nat, dst: nat, i: nat, free: set<nat>, free': set<nat>)
    requires OwnUserHalf(mem, src, dst, free) && |m| == |mem| && i < KERNEL_FIRST && free' <= free
    requires OthersKept(mem, m, dst, i, free) && WellFormed(m, dst) && Held(m, dst, free')
    ensures src < |mem| && SourceAsItWas(mem, m, src) && OwnUserHalf(m, src, dst, free')
  {
    SourceStays(mem, src, m, free, free - free');
  }

  /** Memory and the free frames at one moment. */
  datatype Snapshot = Snapshot(mem: Memory, free: set<nat>)

  /** A page was mapped or unmapped in the user half of `dst`. */
  ghost predicate EditStep(s: Snapshot, s': Snapshot, dst: nat) {
    && dst < |s.mem| == |s'.mem| && s'.free <= s.free
    && WellFormed(s'.mem, dst) && Held(s'.mem, dst, s'.free)
    && exists i :: 0 <= i < KERNEL_FIRST && OthersKept(s.mem, s'.mem, dst, i, s.free)
  }

  ghost predicate EditRun(run: seq<Snapshot>, dst: nat) {
    forall j, k :: 0 <= j < k < |run| && k == j + 1 ==> EditStep(run[j], run[k], dst)
  }

  /** However often pages are mapped and unmapped in the user half of one of two separate
      directories, the other's map, tables and pages stay as they were. */
  lemma {:induction false} RunIsolated(run: seq<Snapshot>, src: nat, dst: nat)
    requires run != [] && EditRun(run, dst) && OwnUserHalf(run[0].mem, src, dst, run[0].free)
    ensures var s, s' := run[0], run[|run| - 1];
      src < |s.mem| == |s'.mem| && SourceAsItWas(s.mem, s'.mem, src) && OwnUserHalf(s'.mem, src, dst, s'.free)
    decreases |run|
  {
    hide Held, Has, Where, OthersKept;
    if |run| > 1 {
      var n := |run| - 1;
      RunIsolated(run[..n], src, dst);
      var s, s' := run[n - 1], run[n];
      assert run[..n][n - 1] == s && run[..n][0] == run[0];
      assert EditStep(s, s', dst);
      var i :| 0 <= i < KERNEL_FIRST && OthersKept(s.mem, s'.mem, dst, i, s.free);
      SourceStays(run[0].mem, src, s.mem, run[0].free, {});
      Isolated(s.mem, s'.mem, src, dst, i, s.free, s'.free);
    }
  }

  // ---- giving a directory back ----

  /** The parts already released when the walk is at entry `k` of slot `i`: pages before their table, the root last. */
  predicate Gone(d: Part, i: nat, k: nat) {
    match d
    case Root => false
    case Table(c) => c < i
    case Page(c, e) => c < i || (c == i && e < k)
  }

  ghost function GoneParts(mem: Memory, dir: nat, i: nat, k: nat): (parts: set<Part>)
    requires dir < |mem|
    ensures forall d :: d in parts <==> Has(mem, dir, d) && Gone(d, i, k)
  {
    set d | d in PartsOf(mem, dir) && Gone(d, i, k)
  }

  ghost function FramesFor(mem: Memory, dir: nat, parts: set<Part>): (frames: set<nat>)
    requires dir < |mem| && forall d :: d in parts ==> Has(mem, dir, d)
    ensures forall f :: f in frames <==> exists d :: d in parts && Where(mem, dir, d) == f
  {
    set d | d in parts :: Where(mem, dir, d)
  }

  /** The user half of a directory is in memory and no two parts share a frame. */
  ghost predicate Unshared(mem: Memory, dir: nat) {
    && dir < |mem|
    && (forall i :: 0 <= i < KERNEL_FIRST && Present(mem[dir][i]) ==> Target(mem[dir][i]) < |mem|)
    && (forall d, e :: Has(mem, dir, d) && Has(mem, dir, e) && d != e ==> Where(mem, dir, d) != Where(mem, dir, e))
  }

  /** The frame is the table, or the page, of this address. */
  ghost predicate ServesAddress(mem: Memory, dir: nat, virt: Word, f: nat)
    requires dir < |mem|
  {
    var e := mem[dir][virt / 0x40_0000];
    Present(e) &&
    (e / 4096 == f || (Walk(mem, dir, virt / 4096).Some? && Walk(mem, dir, virt / 4096).value / 4096 == f))
  }

  /** The directory, and the tables and pages of its addresses below 3 GB. */
  ghost predicate OwnFrame(mem: Memory, dir: nat, f: nat)
    requires dir < |mem|
  {
    f == dir || exists virt: Word :: virt < 0xC000_0000 && ServesAddress(mem, dir, virt, f)
  }

  lemma FramesByAddress(mem: Memory, dir: nat, f: nat)
    requires Unshared(mem, dir)
    ensures f in FramesFor(mem, dir, PartsOf(mem, dir)) <==> OwnFrame(mem, dir, f)
  {
    hide Present, Target;
    if f in FramesFor(mem, dir, PartsOf(mem, dir)) {
      var d :| d in PartsOf(mem, dir) && Where(mem, dir, d) == f;
      PartServes(mem, dir, d);
    }
    if OwnFrame(mem, dir, f) && f != dir {
      var virt: Word :| virt < 0xC000_0000 && ServesAddress(mem, dir, virt, f);
      var d := ServingPart(mem, dir, virt, f);
      assert d in PartsOf(mem, dir);
    } else if f == dir {
      assert Root in PartsOf(mem, dir) && Where(mem, dir, Root) == dir;
    }
  }

  lemma PartServes(mem: Memory, dir: nat, d: Part)
    requires Unshared(mem, dir) && Has(mem, dir, d)
    ensures OwnFrame(mem, dir, Where(mem, dir, d))
  {
    hide Flags, Target, Present;
    match d
    case Root =>
    case Table(i) =>
      ByDivision(mem[dir][i]);
      var virt: Word := i * 0x40_0000;
      assert virt / 0x40_0000 == i && ServesAddress(mem, dir, virt, Where(mem, dir, d));
    case Page(i, j) =>
      var e := mem[Target(mem[dir][i])][j];
      ByDivision(e);
      var virt: Word := i * 0x40_0000 + j * 4096;
      assert virt / 0x40_0000 == i && virt / 4096 == i * 1024 + j;
      assert Walk(mem, dir, virt / 4096) == Some(e);
      assert ServesAddress(mem, dir, virt, Where(mem, dir, d));
  }

  lemma ServingPart(mem: Memory, dir: nat, virt: Word, f: nat) returns (d: Part)
    requires Unshared(mem, dir) && virt < 0xC000_0000 && ServesAddress(mem, dir, virt, f)
    ensures Has(mem, dir, d) && Where(mem, dir, d) == f
  {
    hide Flags, Target, Present;
    var i, j := virt / 0x40_0000, virt / 4096 % 1024;
    assert virt / 4096 / ENTRIES == i && i < KERNEL_FIRST;
    var e := mem[dir][i];
    ByDivision(e);
    d := Table(i);
    if e / 4096 != f {
      ByDivision(mem[Target(e)][j]);
      d := Page(i, j);
    }
  }

  lemma FramesForAdd(mem: Memory, dir: nat, parts: set<Part>, d: Part)
    requires Unshared(mem, dir) && Has(mem, dir, d) && d !in parts
    requires forall e :: e in parts ==> Has(mem, dir, e)
    ensures FramesFor(mem, dir, parts + {d}) == FramesFor(mem, dir, parts) + {Where(mem, dir, d)}
    ensures Where(mem, dir, d) !in FramesFor(mem, dir, parts)
  {
    var all, some := FramesFor(mem, dir, parts + {d}), FramesFor(mem, dir, parts);
    forall f | f in some ensures f in all {
      var e :| e in parts && Where(mem, dir, e) == f;
      assert e in parts + {d};
    }
    assert d in parts + {d};
  }

  lemma GonePage(mem: Memory, dir: nat, i: nat, k: nat)
    requires dir < |mem| && i < KERNEL_FIRST && k < ENTRIES
    ensures GoneParts(mem, dir, i, k + 1) ==
      if Has(mem, dir, Page(i, k)) then GoneParts(mem, dir, i, k) + {Page(i, k)} else GoneParts(mem, dir, i, k)
    ensures Page(i, k) !in GoneParts(mem, dir, i, k)
  {}

  lemma GoneTable(mem: Memory, dir: nat, i: nat)
    requires dir < |mem| && i < KERNEL_FIRST
    ensures Has(mem, dir, Table(i)) ==> GoneParts(mem, dir, i + 1, 0) == GoneParts(mem, dir, i, ENTRIES) + {Table(i)}
    ensures !Has(mem, dir, Table(i)) ==> GoneParts(mem, dir, i + 1, 0) == GoneParts(mem, dir, i, 0)
    ensures Table(i) !in GoneParts(mem, dir, i, ENTRIES)
  {}

  lemma GoneAll(mem: Memory, dir: nat)
    requires dir < |mem|
    ensures GoneParts(mem, dir, 0, 0) == {} && Root !in GoneParts(mem, dir, KERNEL_FIRST, 0)
    ensures GoneParts(mem, dir, KERNEL_FIRST, 0) + {Root} == PartsOf(mem, dir)
  {}

  /** A clone's parts are separate frames: exactly the ones it was placed in. */
  lemma CloneUnshared(mem: Memory, src: nat, m: Memory, at: Placement)
    requires Cloned(mem, src, m, at) && WellFormed(mem, src) && |mem| <= 0x4_0000
    ensures Root in at && Unshared(m, at[Root])
    ensures PartsOf(m, at[Root]) == PartsOf(mem, src)
    ensures FramesFor(m, at[Root], PartsOf(m, at[Root])) == at.Values
  {
    ClonePart(mem, src, m, at, Root);
    forall d ensures Has(m, at[Root], d) <==> Has(mem, src, d)
      ensures Has(mem, src, d) ==> d in at && Where(m, at[Root], d) == at[d]
    {
      ClonePart(mem, src, m, at, d);
    }
    forall i | 0 <= i < KERNEL_FIRST && Present(m[at[Root]][i]) ensures Target(m[at[Root]][i]) < |m| {
      assert m[at[Root]][i] == RootWord(mem, src, at, i);
      ZeroAbsent();
      CloneTable(mem, src, m, at, i);
    }
    var frames := FramesFor(m, at[Root], PartsOf(m, at[Root]));
    forall f | f in at.Values ensures f in frames {
      var d :| d in at && at[d] == f;
      assert d in PartsOf(m, at[Root]);
    }
  }
}
