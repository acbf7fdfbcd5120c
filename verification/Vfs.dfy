/** The descriptor table over the RAM filesystem. */
module Vfs {
  import opened Basics
  import opened RamfsSpec
  import opened Ramfs
  import opened FileSpec
  import opened Paths
  import Mounts

  const FD_MAX: nat := 1024
  const SEEK_SET: int := 0
  const SEEK_CUR: int := 1
  const SEEK_END: int := 2

  datatype OpenFile = OpenFile(inode: nat, pos: Pos, flags: nat)

  /** A word returned as a signed integer of its width. */
  function Signed64(pos: Pos): int { if pos >= WORD64 / 2 then pos - WORD64 else pos }
  function Signed32(n: nat): int { if n >= WORD32 / 2 then n - WORD32 else n }

  /** `r` is the value of a signed 32-bit word that agrees with `n` modulo 2^32. */
  predicate AsInt(r: int, n: nat) { -0x8000_0000 <= r < 0x8000_0000 && (n - r) % 0x1_0000_0000 == 0 }

  predicate AsLong(r: int, n: nat) {
    -0x8000_0000_0000_0000 <= r < 0x8000_0000_0000_0000 && (n - r) % 0x1_0000_0000_0000_0000 == 0
  }

  /** The signed words are the only such values: the number itself below half the range. */
  lemma SignedWords(n: nat, pos: Pos)
    requires n < 0x1_0000_0000
    ensures forall r :: AsInt(r, n) <==> r == Signed32(n)
    ensures forall r :: AsLong(r, pos) <==> r == Signed64(pos)
    ensures n < 0x8000_0000 ==> Signed32(n) == n
    ensures pos < 0x8000_0000_0000_0000 ==> Signed64(pos) == pos
  {
    forall r | AsInt(r, n) ensures r == Signed32(n) { SameInt(r, Signed32(n), n); }
    forall r | AsLong(r, pos) ensures r == Signed64(pos) { SameLong(r, Signed64(pos), pos); }
  }

  lemma SameInt(r: int, s: int, n: nat)
    requires AsInt(r, n) && AsInt(s, n)
    ensures r == s
  {
    assert n - r == 0x1_0000_0000 * ((n - r) / 0x1_0000_0000) && n - s == 0x1_0000_0000 * ((n - s) / 0x1_0000_0000);
  }

  lemma SameLong(r: int, s: int, n: nat)
    requires AsLong(r, n) && AsLong(s, n)
    ensures r == s
  {
    assert n - r == 0x1_0000_0000_0000_0000 * ((n - r) / 0x1_0000_0000_0000_0000);
    assert n - s == 0x1_0000_0000_0000_0000 * ((n - s) / 0x1_0000_0000_0000_0000);
  }

  type Table = seq<Option<OpenFile>>

  /** The positions of the descriptors open on an inode. */
  ghost function Positions(table: Table, ino: nat): Offsets {
    map fd | 0 <= fd < |table| && table[fd].Some? && table[fd].value.inode == ino :: table[fd].value.pos
  }

  /** One step of the buffered file `ino`; no other file and no other file's descriptor is affected. */
  ghost predicate Stepped(was: Nodes, table: Table, nodes: Nodes, table': Table, ino: nat, op: Op, outcome: Outcome) {
    && ino in was && ino in nodes && FileOk(was[ino])
    && (Buffered(nodes[ino], Positions(table', ino)), outcome) ==
       BufferStep(Buffered(was[ino], Positions(table, ino)), op)
    && nodes == was[ino := nodes[ino]]
    && forall other :: other != ino ==> Positions(table', other) == Positions(table, other)
  }

  /** One descriptor of `ino` moved; those of other files did not. */
  ghost predicate OnlyMoved(table: Table, table': Table, ino: nat, fd: nat, pos: Pos) {
    && Positions(table', ino) == Positions(table, ino)[fd := pos]
    && forall other :: other != ino ==> Positions(table', other) == Positions(table, other)
  }

  lemma Moved(table: Table, fd: nat, pos: Pos)
    requires fd < |table| && table[fd].Some?
    ensures var table' := table[fd := Some(table[fd].value.(pos := pos))];
      var ino := table[fd].value.inode;
      && Positions(table', ino) == Positions(table, ino)[fd := pos]
      && At(Positions(table, ino), fd) == table[fd].value.pos
      && forall other :: other != ino ==> Positions(table', other) == Positions(table, other)
  {}

  lemma WriteStepped(was: Nodes, table: Table, fd: nat, bytes: Chunk, memory: bool)
    requires fd < |table| && table[fd].Some? && table[fd].value.inode in was && FileOk(was[table[fd].value.inode])
    ensures var file := table[fd].value;
      match Written(was[file.inode], file.pos, bytes, memory)
      case NoMemory => Stepped(was, table, was, table, file.inode, Write(fd, bytes, memory), Failed)
      case OutOfBounds => Stepped(was, table, was, table, file.inode, Write(fd, bytes, memory), Wild)
      case Changed(node) =>
        var table' := table[fd := Some(file.(pos := EndOf(file.pos, |bytes|)))];
        Stepped(was, table, was[file.inode := node], table', file.inode, Write(fd, bytes, memory), Done(|bytes|))
  {
    hide Written;
    Moved(table, fd, table[fd].value.pos);
    Moved(table, fd, EndOf(table[fd].value.pos, |bytes|));
  }

  lemma SafeWritten(was: Nodes, table: Table, fd: nat, bytes: Chunk, memory: bool)
    requires fd < |table| && table[fd].Some? && table[fd].value.inode in was && FileOk(was[table[fd].value.inode])
    ensures var file := table[fd].value;
      Safe(Buffered(was[file.inode], map[fd := file.pos]), Write(fd, bytes, memory)) ==>
        match Written(was[file.inode], file.pos, bytes, memory)
        case NoMemory => true
        case OutOfBounds => false
        case Changed(node) => FileOk(node)
  {
    hide Safe, Written, FileOk;
    var file := table[fd].value;
    StepRefines(Buffered(was[file.inode], map[fd := file.pos]), Write(fd, bytes, memory));
  }

  lemma NotWritten(node: Inode, pos: Pos, bytes: Chunk, memory: bool)
    requires FileOk(node) && EndOf(pos, |bytes|) > node.capacity
    requires !memory || CapacityFor(EndOf(pos, |bytes|)) % WORD32 == 0
    ensures Written(node, pos, bytes, memory) == NoMemory
  {
  }

  lemma MovedOut(node: Inode, pos: Pos, bytes: Chunk, memory: bool)
    requires FileOk(node) && EndOf(pos, |bytes|) > node.capacity && memory
    requires 0 < CapacityFor(EndOf(pos, |bytes|)) % WORD32 < |node.data|
    ensures Written(node, pos, bytes, memory) == OutOfBounds
  {
  }

  /** With room made, the rest of a write is the copy. */
  lemma Roomed(node: Inode, pos: Pos, bytes: Chunk, memory: bool, data: seq<byte>, capacity: Pos)
    requires FileOk(node)
    requires var end := EndOf(pos, |bytes|);
      if end <= node.capacity then data == node.data && capacity == node.capacity
      else memory && capacity == CapacityFor(end) && |node.data| <= capacity % WORD32 && capacity % WORD32 != 0 &&
           data == node.data + Zeros(capacity % WORD32 - |node.data|)
    ensures Written(node, pos, bytes, memory) == Copied(node.(data := data, capacity := capacity), pos, bytes)
  {
  }

  /** The path below a mount's target. */
  function Remainder(target: string, path: string): string {
    if |target| <= |path| then SkipSlashes(path[|target|..]) else path
  }

  /** Under the root mount the remainder asks for the same look-ups as the path. */
  lemma RootRemainder(path: string)
    requires path != "" && path[0] == '/'
    ensures Steps(Remainder("/", path)) == Steps(path)
  {
    Mounts.MountSplit("/", path);
    SlashOnly();
    assert [] + Names(Remainder("/", path)) == Names(Remainder("/", path));
  }

  class Vfs {
    const fs: Ramfs       // the one RAM filesystem mounted
    const target: string  // where
    const fdTable: array<Option<OpenFile>>

    constructor (fs: Ramfs, target: string)
      requires fs.Valid()
      ensures Valid() && this.fs == fs && this.target == target && fresh(fdTable)
      ensures fdTable.Length == 1024 && forall fd :: 0 <= fd < FD_MAX ==> fdTable[fd] == None
    {
      this.fs, this.target := fs, target;
      fdTable := new Option<OpenFile>[FD_MAX](_ => None);
    }

    ghost predicate Valid()
      reads this, fs, fdTable
    {
      fs.Valid() && fdTable.Length == FD_MAX
    }

    predicate IsOpen(fd: int)
      requires fdTable.Length == FD_MAX
      reads this, fdTable
    {
      0 <= fd < FD_MAX && fdTable[fd].Some?
    }

    method MoveTo(fd: nat, pos: Pos)
      requires fdTable.Length == FD_MAX && IsOpen(fd)
      modifies fdTable
      ensures fdTable[..] == old(fdTable[..])[fd := Some(old(fdTable[fd]).value.(pos := pos))]
    {
      fdTable[fd] := Some(fdTable[fd].value.(pos := pos));
      assert fdTable[..] == old(fdTable[..])[fd := Some(old(fdTable[fd]).value.(pos := pos))];
    }

    /** Open into the first free slot, below the mount that serves the path; a failure changes
        neither the table nor the inodes. */
    method Open(path: string, flags: nat, mode: nat, fileMemory: bool, inodeMemory: bool, entryMemory: bool)
      returns (fd: int)
      requires Valid()
      modifies fs, fdTable
      ensures Valid() && -1 <= fd < FD_MAX
      ensures fd == -1 ==> fdTable[..] == old(fdTable[..]) && fs.nodes == old(fs.nodes)
      ensures fd >= 0 <==> fileMemory && old(CanOpen(path, flags, inodeMemory && entryMemory))
      ensures fd >= 0 ==> old(fdTable[fd]) == None && forall k :: 0 <= k < fd ==> old(fdTable[k]).Some?
      ensures fd >= 0 ==> fdTable[fd].Some? && fdTable[..] == old(fdTable[..])[fd := fdTable[fd]]
      ensures fd >= 0 ==>
        var file := fdTable[fd].value;
        && target <= path && file.flags == flags && file.inode in fs.nodes
        && (Asks(flags, 0x200) ==> fs.nodes[file.inode].size == 0 && fs.nodes[file.inode].data == [])
        && file.pos == (if Asks(flags, 0x400) then fs.nodes[file.inode].size else 0)
        && Opened(old(fs.nodes), fs.nodes, fs.root, Remainder(target, path), flags, mode,
                  inodeMemory && entryMemory, old(fs.nextIno), file.inode)
    {
      hide Tree, Opened, Creates, Resolve, Asks, SkipSlashes;
      var best, remainder := Mounts.FindMount([target], path);
      if best == None { return -1; }
      if !fileMemory { return -1; }
      var slot := 0;
      while slot < FD_MAX && fdTable[slot].Some?
        invariant slot <= FD_MAX && forall k :: 0 <= k < slot ==> fdTable[k].Some?
      {
        slot := slot + 1;
      }
      if slot == FD_MAX { return -1; }
      var r, ino, pos := fs.FsOpen(remainder, flags, mode, inodeMemory, entryMemory);
      if r < 0 { return -1; }
      fdTable[slot] := Some(OpenFile(ino, pos, flags));
      fd := slot;
    }

    /** A mount serves the path, a slot is free, and the rest of the path resolves or a file can
        be made for it. */
    ghost predicate CanOpen(path: string, flags: nat, memory: bool)
      requires fdTable.Length == FD_MAX
      reads this, fs, fdTable
    {
      && Mounts.Serves([target], 0, path)
      && (exists k :: 0 <= k < FD_MAX && fdTable[k] == None)
      && var rest := Remainder(target, path);
         Resolve(fs.nodes, fs.root, rest).Some? || Creates(fs.nodes, fs.root, rest, flags, memory)
    }

    method Close(fd: int) returns (r: int)
      requires Valid()
      modifies fdTable
      ensures Valid()
      ensures if old(IsOpen(fd)) then r == 0 && fdTable[..] == old(fdTable[..])[fd := None]
              else r == -1 && fdTable[..] == old(fdTable[..])
    {
      if !IsOpen(fd) { return -1; }
      fdTable[fd] := None;
      r := 0;
    }

    /** Read: one step of the buffered file, for this descriptor; nothing from an inode without a buffer. */
    method Read(fd: int, count: nat) returns (r: int, bytes: seq<byte>)
      requires Valid() && count < WORD32
      requires IsOpen(fd) ==> fdTable[fd].value.inode in fs.nodes && Readable(fs.nodes[fdTable[fd].value.inode])
      modifies fdTable
      ensures Valid()
      ensures !old(IsOpen(fd)) ==> r == -1 && fdTable[..] == old(fdTable[..])
      ensures old(IsOpen(fd)) ==> AsInt(r, |bytes|) && (|bytes| < 0x8000_0000 ==> r == |bytes|)
      ensures old(IsOpen(fd)) && fs.nodes[old(fdTable[fd]).value.inode].data == [] ==>
        bytes == [] && fdTable[..] == old(fdTable[..])
      ensures old(IsOpen(fd)) && FileOk(fs.nodes[old(fdTable[fd]).value.inode]) ==>
        Stepped(fs.nodes, old(fdTable[..]), fs.nodes, fdTable[..], old(fdTable[fd]).value.inode,
                FileSpec.Read(fd, count), Bytes(bytes))
    {
      hide Tree;
      bytes := [];
      if !IsOpen(fd) { return -1, bytes; }
      var file := fdTable[fd].value;
      var node := fs.nodes[file.inode];
      Moved(fdTable[..], fd, file.pos);
      if node.data == [] || file.pos >= node.size { return 0, bytes; }
      var avail := node.size - file.pos;
      var n := if count < avail then count else avail;
      bytes := node.data[file.pos..file.pos + n];
      Moved(fdTable[..], fd, file.pos + n);
      MoveTo(fd, file.pos + n);
      r := Signed32(n);
    }

    predicate Readable(node: Inode) { node.data == [] || FileOk(node) }

    /** Write: grows the buffer when needed, or fails and changes nothing.  The outcome is that of
        one step of the buffered file, whatever the position; when the copy would leave the buffer
        it is `Wild`, and nothing is said of what the code does then. */
    method Write(fd: int, bytes: Chunk, memory: bool) returns (r: int, ghost outcome: Outcome)
      requires Valid()
      requires IsOpen(fd) ==> fdTable[fd].value.inode in fs.nodes && FileOk(fs.nodes[fdTable[fd].value.inode])
      modifies fs`nodes, fdTable
      ensures fs.Shape()
      ensures !old(IsOpen(fd)) ==> r == -1 && Valid() && fdTable[..] == old(fdTable[..]) && fs.nodes == old(fs.nodes)
      ensures old(IsOpen(fd)) ==>
        Stepped(old(fs.nodes), old(fdTable[..]), fs.nodes, fdTable[..], old(fdTable[fd]).value.inode,
                FileSpec.Write(fd, bytes, memory), outcome)
      ensures old(IsOpen(fd)) && outcome == Failed ==> r == -1
      ensures old(IsOpen(fd)) && outcome == Done(|bytes|) ==>
        AsInt(r, |bytes|) && (|bytes| < 0x8000_0000 ==> r == |bytes|)
      ensures old(IsOpen(fd) && SafeWrite(fd, bytes, memory)) ==> Valid() && outcome in {Failed, Done(|bytes|)}
    {
      hide Stepped, BufferStep, Tree, Written, Safe, FileOk, Positions;
      outcome := Failed;
      if !IsOpen(fd) { return -1, outcome; }
      WriteStepped(fs.nodes, fdTable[..], fd, bytes, memory);
      SafeWritten(fs.nodes, fdTable[..], fd, bytes, memory);
      var file := fdTable[fd].value;
      var node := fs.nodes[file.inode];
      ghost var change := Written(node, file.pos, bytes, memory);
      var end: Pos := (file.pos + |bytes|) % WORD64;
      var data, capacity := node.data, node.capacity;
      if end > capacity {
        capacity := (if end < MIN_CAPACITY then MIN_CAPACITY else end * 2) % WORD64;
        var room := capacity % WORD32;
        if !memory || room == 0 {
          assert change == NoMemory by { NotWritten(node, file.pos, bytes, memory); }
          return -1, outcome;
        }
        if |data| > room {
          assert change == OutOfBounds by { MovedOut(node, file.pos, bytes, memory); }
          return 0, Wild;
        }
        data := data + FileSpec.Zeros(room - |data|);
      }
      var at := file.pos % WORD32;
      assert change == Copied(node.(data := data, capacity := capacity), file.pos, bytes) by {
        Roomed(node, file.pos, bytes, memory, data, capacity);
      }
      if bytes != [] {
        if at + |bytes| > |data| { return 0, Wild; }
        data := data[..at] + bytes + data[at + |bytes|..];
      }
      fs.SetFile(file.inode, if end > node.size then end else node.size, data, capacity);
      MoveTo(fd, end);
      r, outcome := Signed32(|bytes|), Done(|bytes|);
    }

    /** The guard of a safe write, on this table. */
    ghost predicate SafeWrite(fd: nat, bytes: Chunk, memory: bool)
      requires fdTable.Length == FD_MAX && IsOpen(fd) && fdTable[fd].value.inode in fs.nodes
      requires FileOk(fs.nodes[fdTable[fd].value.inode])
      reads this, fs, fdTable
    {
      var file := fdTable[fd].value;
      Safe(Buffered(fs.nodes[file.inode], map[fd := file.pos]), FileSpec.Write(fd, bytes, memory))
    }

    /** Seek: an offset from the start or from here; SEEK_END leaves the position alone. */
    method Seek(fd: int, offset: int, whence: int) returns (r: int)
      requires Valid()
      modifies fdTable
      ensures Valid()
      ensures !old(IsOpen(fd)) || whence !in {0, 1, 2} ==> r == -1 && fdTable[..] == old(fdTable[..])
      ensures old(IsOpen(fd)) && whence == 2 ==>
        fdTable[..] == old(fdTable[..]) && AsLong(r, fdTable[fd].value.pos)
      ensures old(IsOpen(fd)) && (whence == 0 || whence == 1) ==>
        var file := old(fdTable[fd]).value;
        var pos := (if whence == 0 then offset else file.pos + offset) % 0x1_0000_0000_0000_0000;
        && AsLong(r, pos) && (pos < 0x8000_0000_0000_0000 ==> r == pos)
        && fdTable[..] == old(fdTable[..])[fd := Some(file.(pos := pos))]
        && OnlyMoved(old(fdTable[..]), fdTable[..], file.inode, fd, pos)
    {
      if !IsOpen(fd) { return -1; }
      var pos := fdTable[fd].value.pos;
      if whence == SEEK_SET {
        pos := offset % WORD64;
      } else if whence == SEEK_CUR {
        pos := (pos + offset) % WORD64;
      } else if whence != SEEK_END {
        return -1;
      }
      Moved(fdTable[..], fd, pos);
      if whence != SEEK_END { MoveTo(fd, pos); }
      r := Signed64(pos);
    }
  }
}
