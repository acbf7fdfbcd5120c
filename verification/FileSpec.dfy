/** Growable file buffers behind independent file positions, and the byte
    sequences they stand for. */
module FileSpec {
  import opened Basics
  import opened RamfsSpec

  const MIN_CAPACITY: nat := 4096

  /** The bytes of one call are counted in a 32-bit word. */
  type Chunk = s: seq<byte> | |s| < WORD32

  /** The file: the first `size` bytes of the buffer. */
  function Content(node: Inode): seq<byte>
    requires node.size <= |node.data|
  {
    node.data[..node.size]
  }

  /** The buffer is as long as recorded and bytes from the size up to the capacity are zero. */
  predicate FileOk(node: Inode) {
    && node.size <= |node.data| == node.capacity < WORD32
    && forall k :: node.size <= k < |node.data| ==> node.data[k] == 0
  }

  function Zeros(n: nat): seq<byte> { seq(n, _ => 0) }

  // ---- the abstract file ----

  function Slice(content: seq<byte>, pos: nat, count: nat): seq<byte> {
    if pos >= |content| then []
    else if count < |content| - pos then content[pos..pos + count] else content[pos..]
  }

  /** `content` extended with zeros to at least `n` bytes. */
  function Padded(content: seq<byte>, n: nat): seq<byte> {
    if |content| < n then content + Zeros(n - |content|) else content
  }

  function Overwrite(content: seq<byte>, pos: nat, bytes: seq<byte>): seq<byte> {
    var p := Padded(content, pos + |bytes|);
    p[..pos] + bytes + p[pos + |bytes|..]
  }

  function Resize(content: seq<byte>, size: nat): seq<byte> {
    if size <= |content| then content[..size] else Padded(content, size)
  }

  // ---- what the code does to the buffer ----

  /** A write or a truncation: the inode after it, no memory, or a copy that leaves the buffer. */
  datatype Change = Changed(node: Inode) | NoMemory | OutOfBounds

  function Doubled(end: nat): nat { if end < MIN_CAPACITY then MIN_CAPACITY else end * 2 }

  /** The end of a write, and the capacity it would grow to, as 64-bit words. */
  function EndOf(pos: Pos, n: nat): Pos { (pos + n) % WORD64 }
  function CapacityFor(end: Pos): Pos { Doubled(end) % WORD64 }

  /** Copy into the buffer at the position cut to an address, and record the larger size. */
  function Copied(node: Inode, pos: Pos, bytes: Chunk): Change {
    var at, end := pos % WORD32, EndOf(pos, |bytes|);
    var size := if end > node.size then end else node.size;
    if bytes == [] then Changed(node.(size := size))
    else if at + |bytes| > |node.data| then OutOfBounds
    else Changed(node.(data := node.data[..at] + bytes + node.data[at + |bytes|..], size := size))
  }

  /** The buffer moved to `room` bytes, recorded as `capacity`. */
  function Grown(node: Inode, room: nat, capacity: Pos): Inode
    requires |node.data| <= room
  {
    node.(data := node.data + Zeros(room - |node.data|), capacity := capacity)
  }

  /** Write at a position.  The buffer grows when the 64-bit end passes the capacity; the new
      capacity is recorded in 64 bits and asked for in 32. */
  function Written(node: Inode, pos: Pos, bytes: Chunk, memory: bool): Change
    requires FileOk(node)
  {
    var end := EndOf(pos, |bytes|);
    if end <= node.capacity then Copied(node, pos, bytes)
    else
      var capacity := CapacityFor(end);
      var room := capacity % WORD32;
      if !memory || room == 0 then NoMemory
      else if |node.data| > room then OutOfBounds
      else Copied(Grown(node, room, capacity), pos, bytes)
  }

  /** Cut or extend.  The size is recorded in 64 bits and asked for in 32. */
  function Truncated(node: Inode, size: Pos, memory: bool): Change
    requires node.data == [] || FileOk(node)
  {
    var room := size % WORD32;
    if size == 0 then Changed(node.(data := [], capacity := 0, size := 0))
    else if !memory || room == 0 then NoMemory
    else
      var kept := if node.data == [] then 0 else if node.size < size then node.size else size;
      if kept > room then OutOfBounds
      else Changed(node.(data := node.data[..kept] + Zeros(room - kept), capacity := size, size := size))
  }

  // ---- when that is what the abstract file does ----

  /** The caller can check this before a write: the end does not wrap, and lies within the
      capacity or doubles to less than 4 GB. */
  predicate Roomy(node: Inode, pos: Pos, n: nat) {
    pos + n < WORD64 && (pos + n <= node.capacity || Doubled(pos + n) < WORD32)
  }

  ghost predicate IsFile(change: Change, content: seq<byte>) {
    change.Changed? && FileOk(change.node) && Content(change.node) == content
  }

  /** A write with memory at hand overwrites the abstract bytes, extended by zeros when it starts
      past the end, exactly when it is roomy. */
  lemma WriteMeetsIff(node: Inode, pos: Pos, bytes: Chunk)
    requires FileOk(node)
    ensures IsFile(Written(node, pos, bytes, true), Overwrite(Content(node), pos, bytes)) <==> Roomy(node, pos, |bytes|)
  {
    hide Zeros;
    if Roomy(node, pos, |bytes|) {
      WriteRefines(node, pos, bytes);
    } else {
      CrampedWrite(node, pos, bytes, true);
    }
  }

  lemma WriteRefines(node: Inode, pos: Pos, bytes: Chunk)
    requires FileOk(node) && Roomy(node, pos, |bytes|)
    ensures IsFile(Written(node, pos, bytes, true), Overwrite(Content(node), pos, bytes))
  {
    hide FileOk, Content, Overwrite, Copied, Doubled, Grown;
    var end := pos + |bytes|;
    FileBounds(node);
    if end <= node.capacity {
      PlaceRefines(node, pos, bytes);
    } else {
      GrowthFits(end);
      GrownRefines(node, Doubled(end));
      PlaceRefines(Grown(node, Doubled(end), Doubled(end)), pos, bytes);
    }
  }

  lemma FileBounds(node: Inode)
    requires FileOk(node)
    ensures |node.data| == node.capacity < WORD32
  {
  }

  lemma GrowthFits(end: nat)
    requires Doubled(end) < WORD32
    ensures end <= Doubled(end) && 0 < Doubled(end) && end < WORD64
    ensures CapacityFor(end) == Doubled(end) == CapacityFor(end) % WORD32
  {
  }

  /** A larger buffer holds the same file. */
  lemma GrownRefines(node: Inode, room: nat)
    requires FileOk(node) && |node.data| <= room < WORD32
    ensures var node' := Grown(node, room, room);
      FileOk(node') && |node'.data| == room && Content(node') == Content(node)
  {
  }

  /** Inside the buffer a copy is an overwrite. */
  lemma PlaceRefines(node: Inode, pos: Pos, bytes: Chunk)
    requires FileOk(node) && pos + |bytes| <= |node.data|
    ensures IsFile(Copied(node, pos, bytes), Overwrite(Content(node), pos, bytes))
  {
    hide Overwrite, Copied;
    CopiedAt(node, pos, bytes);
    var node' := Copied(node, pos, bytes).node;
    OverwriteLength(Content(node), pos, bytes);
    forall k | 0 <= k < node'.size ensures node'.data[k] == Overwrite(Content(node), pos, bytes)[k] {
      OverwriteAt(Content(node), pos, bytes, k);
    }
  }

  /** The buffer byte by byte after a copy that stays inside. */
  lemma CopiedAt(node: Inode, pos: Pos, bytes: Chunk)
    requires pos + |bytes| <= |node.data| < WORD32
    ensures Copied(node, pos, bytes).Changed?
    ensures var node' := Copied(node, pos, bytes).node;
      && node'.size == (if pos + |bytes| > node.size then pos + |bytes| else node.size)
      && node'.capacity == node.capacity && |node'.data| == |node.data|
      && forall k :: 0 <= k < |node.data| ==>
           node'.data[k] == if pos <= k < pos + |bytes| then bytes[k - pos] else node.data[k]
  {
  }

  lemma OverwriteLength(content: seq<byte>, pos: nat, bytes: seq<byte>)
    ensures |Overwrite(content, pos, bytes)| == if pos + |bytes| > |content| then pos + |bytes| else |content|
  {
  }

  /** An overwritten file byte by byte. */
  lemma OverwriteAt(content: seq<byte>, pos: nat, bytes: seq<byte>, k: nat)
    requires k < |Overwrite(content, pos, bytes)|
    ensures Overwrite(content, pos, bytes)[k] ==
      if pos <= k < pos + |bytes| then bytes[k - pos] else if k < |content| then content[k] else 0
  {
  }

  /** Without room a write with memory fails for good, leaves the buffer, or records a size
      beyond it. */
  lemma CrampedWrite(node: Inode, pos: Pos, bytes: Chunk, memory: bool)
    requires FileOk(node) && !Roomy(node, pos, |bytes|)
    ensures match Written(node, pos, bytes, memory)
      case NoMemory => memory ==> pos + |bytes| >= 0x8000_0000
      case OutOfBounds => true
      case Changed(node') => !FileOk(node')
    ensures var end := EndOf(pos, |bytes|);
      Written(node, pos, bytes, memory) == NoMemory <==>
        end > node.capacity && (!memory || CapacityFor(end) % WORD32 == 0)
  {
    if pos + |bytes| >= WORD64 { WrappedWrite(node, pos, bytes, memory); } else { HugeWrite(node, pos, bytes, memory); }
  }

  lemma WrappedWrite(node: Inode, pos: Pos, bytes: Chunk, memory: bool)
    requires FileOk(node) && pos + |bytes| >= WORD64
    ensures !Written(node, pos, bytes, memory).Changed?
  {
    assert pos % WORD32 == pos - (WORD64 - WORD32);
  }

  lemma HugeWrite(node: Inode, pos: Pos, bytes: Chunk, memory: bool)
    requires FileOk(node) && node.capacity < pos + |bytes| < WORD64 && Doubled(pos + |bytes|) >= WORD32
    ensures match Written(node, pos, bytes, memory)
      case Changed(node') => node'.size > |node'.data|
      case _ => true
  {
    var end := EndOf(pos, |bytes|);
    var room := CapacityFor(end) % WORD32;
    assert room < end by { if end < WORD32 { assert room == 2 * end - WORD32; } }
  }

  /** A truncation with memory at hand cuts, or extends with zeros, exactly when the size fits 32 bits. */
  lemma TruncateMeetsIff(node: Inode, size: Pos)
    requires FileOk(node)
    ensures IsFile(Truncated(node, size, true), Resize(Content(node), size)) <==> size < WORD32
  {
  }

  /** Reading back what was written, wherever it was written. */
  lemma ReadBack(content: seq<byte>, pos: nat, bytes: seq<byte>)
    ensures Slice(Overwrite(content, pos, bytes), pos, |bytes|) == bytes
    ensures forall k :: |content| <= k < pos ==> Overwrite(content, pos, bytes)[k] == 0
    ensures forall k :: 0 <= k < |content| && !(pos <= k < pos + |bytes|) ==>
      k < |Overwrite(content, pos, bytes)| && Overwrite(content, pos, bytes)[k] == content[k]
  {}

  /** A buffer that grows has 4096 bytes for an end below 4096, and twice the end from there on. */
  lemma GrownCapacity(node: Inode, pos: Pos, bytes: Chunk)
    requires FileOk(node) && node.capacity < pos + |bytes| && Roomy(node, pos, |bytes|)
    ensures var change := Written(node, pos, bytes, true);
      change.Changed? && change.node.capacity == if pos + |bytes| < 4096 then 4096 else 2 * (pos + |bytes|)
  {
    WriteRefines(node, pos, bytes);
  }

  /** The three operations on plain bytes, byte by byte. */
  lemma PlainBytes(content: seq<byte>, pos: nat, bytes: seq<byte>, count: nat, k: nat)
    ensures var w := Overwrite(content, pos, bytes);
      && |w| == (if |content| < pos + |bytes| then pos + |bytes| else |content|)
      && (pos <= k < pos + |bytes| ==> w[k] == bytes[k - pos])
      && (k < |w| && !(pos <= k < pos + |bytes|) ==> w[k] == if k < |content| then content[k] else 0)
    ensures var r := Slice(content, pos, count);
      && |r| == (if |content| <= pos then 0 else if count < |content| - pos then count else |content| - pos)
      && (k < |r| ==> r[k] == content[pos + k])
    ensures var z := Resize(content, count);
      |z| == count && (k < count ==> z[k] == if k < |content| then content[k] else 0)
  {}

  // ---- whole runs through several descriptors ----

  datatype Op =
    | Read(fd: nat, count: nat)
    | Write(fd: nat, bytes: Chunk, memory: bool)
    | SeekTo(fd: nat, offset: int)
    | SeekBy(fd: nat, offset: int)
    | Truncate(size: Pos, memory: bool)

  /** `Wild`: the operation copied outside the buffer; what it did then is not described. */
  datatype Outcome = Bytes(bytes: seq<byte>) | Done(count: nat) | Failed | Wild

  type Offsets = map<nat, Pos>

  /** One inode and the positions of the descriptors open on it. */
  datatype Buffered = Buffered(node: Inode, pos: Offsets)
  datatype Plain = Plain(content: seq<byte>, pos: Offsets)

  function At(pos: Offsets, fd: nat): Pos { if fd in pos then pos[fd] else 0 }

  function ReadStep(s: Buffered, fd: nat, count: nat): (Buffered, Outcome)
    requires FileOk(s.node)
  {
    var p := At(s.pos, fd);
    if s.node.data == [] || p >= s.node.size then (s, Bytes([]))
    else
      var avail := s.node.size - p;
      var n := if count < avail then count else avail;
      (s.(pos := s.pos[fd := p + n]), Bytes(s.node.data[p..p + n]))
  }

  function BufferStep(s: Buffered, op: Op): (Buffered, Outcome)
    requires FileOk(s.node)
  {
    match op
    case Read(fd, count) => ReadStep(s, fd, count)
    case Write(fd, bytes, memory) =>
      var p := At(s.pos, fd);
      (match Written(s.node, p, bytes, memory)
       case NoMemory => (s, Failed)
       case OutOfBounds => (s, Wild)
       case Changed(node) => (Buffered(node, s.pos[fd := EndOf(p, |bytes|)]), Done(|bytes|)))
    case SeekTo(fd, offset) => (s.(pos := s.pos[fd := offset % WORD64]), Done(offset % WORD64))
    case SeekBy(fd, offset) =>
      var p := (At(s.pos, fd) + offset) % WORD64;
      (s.(pos := s.pos[fd := p]), Done(p))
    case Truncate(size, memory) =>
      match Truncated(s.node, size, memory)
      case NoMemory => (s, Failed)
      case OutOfBounds => (s, Wild)
      case Changed(node) => (s.(node := node), Done(0))
  }

  /** The same operations on a plain byte sequence; an operation that fails changes nothing.
      With memory at hand only writes that end at 2 GB or beyond and sizes from 4 GB may fail. */
  ghost predicate PlainStep(s: Plain, op: Op, s': Plain, r: Outcome) {
    match op
    case Read(fd, count) =>
      var got := Slice(s.content, At(s.pos, fd), count);
      r == Bytes(got) && s'.content == s.content && At(s'.pos, fd) == At(s.pos, fd) + |got| &&
      OthersStay(s.pos, s'.pos, fd)
    case Write(fd, bytes, memory) =>
      if r == Failed then s' == s && (!memory || At(s.pos, fd) + |bytes| >= 0x8000_0000)
      else r == Done(|bytes|) && s'.content == Overwrite(s.content, At(s.pos, fd), bytes) &&
           At(s'.pos, fd) == At(s.pos, fd) + |bytes| && OthersStay(s.pos, s'.pos, fd)
    case SeekTo(fd, offset) =>
      s'.content == s.content && At(s'.pos, fd) == offset % WORD64 && r == Done(At(s'.pos, fd)) &&
      OthersStay(s.pos, s'.pos, fd)
    case SeekBy(fd, offset) =>
      s'.content == s.content && At(s'.pos, fd) == (At(s.pos, fd) + offset) % WORD64 && r == Done(At(s'.pos, fd)) &&
      OthersStay(s.pos, s'.pos, fd)
    case Truncate(size, memory) =>
      s'.pos == s.pos &&
      if r == Failed then s' == s && (!memory || size >= WORD32)
      else r == Done(0) && s'.content == Resize(s.content, size)
  }

  ghost predicate OthersStay(pos: Offsets, pos': Offsets, fd: nat) {
    forall g: nat :: g != fd ==> At(pos', g) == At(pos, g)
  }

  function Abstract(s: Buffered): Plain
    requires s.node.size <= |s.node.data|
  {
    Plain(Content(s.node), s.pos)
  }

  /** The step does to the abstract file what it should, and leaves a buffer in order. */
  ghost predicate Refines(s: Buffered, op: Op)
    requires FileOk(s.node)
  {
    var (s', r) := BufferStep(s, op);
    FileOk(s'.node) && PlainStep(Abstract(s), op, Abstract(s'), r)
  }

  /** The caller can check this before the call.  Writes are roomy and sizes below 4 GB, or the
      operation is refused for want of memory, which changes nothing: also when the amount asked
      for is 0 once cut to 32 bits. */
  predicate Safe(s: Buffered, op: Op) {
    match op
    case Write(fd, bytes, memory) =>
      var end := EndOf(At(s.pos, fd), |bytes|);
      Roomy(s.node, At(s.pos, fd), |bytes|) || (end > s.node.capacity && (!memory || CapacityFor(end) % WORD32 == 0))
    case Truncate(size, memory) => size < WORD32 || !memory || size % WORD32 == 0
    case _ => true
  }

  lemma SliceIs(data: seq<byte>, size: nat, p: nat, count: nat)
    requires p < size <= |data|
    ensures var n := if count < size - p then count else size - p;
      data[p..p + n] == Slice(data[..size], p, count)
  {
    var c := data[..size];
    assert c[p..size] == c[p..];
    assert data[p..size] == c[p..size];
    if count < size - p { assert data[p..p + count] == c[p..p + count]; }
  }

  /** A read returns exactly the available slice and moves the position past it. */
  lemma ReadRefines(s: Buffered, fd: nat, count: nat)
    requires FileOk(s.node)
    ensures BufferStep(s, Read(fd, count)).0.node == s.node && Refines(s, Read(fd, count))
  {
    var p := At(s.pos, fd);
    if |s.node.data| > 0 && p < s.node.size {
      SliceIs(s.node.data, s.node.size, p, count);
    }
  }

  lemma WriteStepRefines(s: Buffered, fd: nat, bytes: Chunk, memory: bool)
    requires FileOk(s.node)
    ensures Refines(s, Write(fd, bytes, memory)) <==> Safe(s, Write(fd, bytes, memory))
  {
    hide FileOk, Overwrite, Copied, Doubled;
    var p := At(s.pos, fd);
    if Roomy(s.node, p, |bytes|) {
      WriteRefines(s.node, p, bytes);
      MemoryOnly(s.node, p, bytes, memory);
    } else {
      CrampedWrite(s.node, p, bytes, memory);
    }
  }

  lemma MemoryOnly(node: Inode, pos: Pos, bytes: Chunk, memory: bool)
    requires FileOk(node)
    ensures Written(node, pos, bytes, memory) == Written(node, pos, bytes, true) ||
      (!memory && Written(node, pos, bytes, memory) == NoMemory)
  {
  }

  lemma TruncateStepRefines(s: Buffered, size: Pos, memory: bool)
    requires FileOk(s.node)
    ensures Refines(s, Truncate(size, memory)) <==> Safe(s, Truncate(size, memory))
  {
    if memory { TruncateMeetsIff(s.node, size); }
  }

  /** Every operation does to the buffer what it does to one plain byte sequence exactly when it
      is safe. */
  lemma StepRefines(s: Buffered, op: Op)
    requires FileOk(s.node)
    ensures Refines(s, op) <==> Safe(s, op)
    ensures Safe(s, op) ==> FileOk(BufferStep(s, op).0.node)
  {
    match op
    case Read(fd, count) => ReadRefines(s, fd, count);
    case Write(fd, bytes, memory) => WriteStepRefines(s, fd, bytes, memory);
    case SeekTo(fd, offset) =>
    case SeekBy(fd, offset) =>
    case Truncate(size, memory) => TruncateStepRefines(s, size, memory);
  }

  /** Every operation of the run is safe when its turn comes. */
  ghost predicate RunSafe(s: Buffered, ops: seq<Op>)
    requires FileOk(s.node)
    decreases |ops|
  {
    ops == [] || (Safe(s, ops[0]) && (StepRefines(s, ops[0]); RunSafe(BufferStep(s, ops[0]).0, ops[1..])))
  }

  ghost function BufferRun(s: Buffered, ops: seq<Op>): (r: (Buffered, seq<Outcome>))
    requires FileOk(s.node) && RunSafe(s, ops)
    ensures FileOk(r.0.node) && |r.1| == |ops|
    decreases |ops|
  {
    if ops == [] then (s, [])
    else
      StepRefines(s, ops[0]);
      var (s1, o) := BufferStep(s, ops[0]);
      var (s2, os) := BufferRun(s1, ops[1..]);
      (s2, [o] + os)
  }

  /** A run of the plain file with these results. */
  ghost predicate PlainRun(s: Plain, ops: seq<Op>, results: seq<Outcome>, s': Plain)
    requires |results| == |ops|
    decreases |ops|
  {
    if ops == [] then s' == s
    else exists s1 :: PlainStep(s, ops[0], s1, results[0]) && PlainRun(s1, ops[1..], results[1..], s')
  }

  /** File refinement over whole runs: however safe reads, writes, seeks and truncations through
      any descriptors are interleaved, the results are those of one plain byte sequence, and the
      slack of the buffer is zero throughout. */
  lemma {:induction false} RunRefines(s: Buffered, ops: seq<Op>)
    requires FileOk(s.node) && RunSafe(s, ops)
    ensures var (s', results) := BufferRun(s, ops);
      FileOk(s'.node) && PlainRun(Abstract(s), ops, results, Abstract(s'))
    decreases |ops|
  {
    if ops != [] {
      StepRefines(s, ops[0]);
      var (s1, o) := BufferStep(s, ops[0]);
      RunRefines(s1, ops[1..]);
      var (s2, os) := BufferRun(s1, ops[1..]);
      assert ([o] + os)[0] == o && ([o] + os)[1..] == os;
      assert PlainStep(Abstract(s), ops[0], Abstract(s1), o);
    }
  }

  /** Every step of the run, one after the other, does what the plain file does. */
  ghost predicate RunRefinesPlain(s: Buffered, ops: seq<Op>)
    requires FileOk(s.node)
    decreases |ops|
  {
    ops == [] || (Refines(s, ops[0]) && RunRefinesPlain(BufferStep(s, ops[0]).0, ops[1..]))
  }

  /** And no other runs do: the first operation that is not safe departs from the plain file. */
  lemma {:induction false} RunRefinesIff(s: Buffered, ops: seq<Op>)
    requires FileOk(s.node)
    ensures RunRefinesPlain(s, ops) <==> RunSafe(s, ops)
    decreases |ops|
  {
    if ops != [] {
      StepRefines(s, ops[0]);
      if Safe(s, ops[0]) { RunRefinesIff(BufferStep(s, ops[0]).0, ops[1..]); }
    }
  }

  // ---- three operations that are not safe ----

  /** Two bytes written at position -1: the 64-bit end wraps to 1, nothing grows, and the copy
      starts before the buffer. */
  lemma WriteAtMinusOne(s: Buffered, fd: nat, bytes: Chunk, memory: bool)
    requires FileOk(s.node) && s.node.capacity >= 1 && |bytes| == 2
    ensures var s1 := BufferStep(s, SeekTo(fd, -1)).0;
      s1.node == s.node && !Safe(s1, Write(fd, bytes, memory)) && BufferStep(s1, Write(fd, bytes, memory)).1 == Wild
  {
  }

  /** One byte written just past 2 GB: the doubled end is 34 once cut to 32 bits. */
  lemma WritePast2G(s: Buffered, fd: nat, bytes: Chunk)
    requires FileOk(s.node) && s.node.data == [] && |bytes| == 1
    ensures var s1 := BufferStep(s, SeekTo(fd, 0x8000_0010)).0;
      s1.node == s.node && CapacityFor(EndOf(0x8000_0010, 1)) % WORD32 == 34 &&
      !Safe(s1, Write(fd, bytes, true)) && BufferStep(s1, Write(fd, bytes, true)).1 == Wild
  {
  }

  /** Truncation to 4 GB and a byte: one byte is allocated, and the larger size recorded. */
  lemma TruncatePast4G(s: Buffered)
    requires FileOk(s.node) && s.node.data == []
    ensures var (s', r) := BufferStep(s, Truncate(0x1_0000_0001, true));
      r == Done(0) && |s'.node.data| == 1 && s'.node.size == s'.node.capacity == 0x1_0000_0001
    ensures !Safe(s, Truncate(0x1_0000_0001, true))
  {
  }
}
