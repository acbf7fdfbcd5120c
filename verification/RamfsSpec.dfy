/** The inode tree of the RAM filesystem as a value, what paths resolve to in it,
    and what creating and removing entries does to every path. */
module RamfsSpec {
  import opened Basics
  import opened Paths

  datatype Kind = Regular | Directory | Symlink

  /** Entries are newest first; names may occur more than once. */
  datatype Dirent = Dirent(name: string, inode: nat)

  /** File sizes and positions are 64-bit words. */
  type Pos = n: nat | n < WORD64

  /** `data` is the whole allocated buffer, empty for a null pointer, and `capacity` its recorded
      length; its first `size` bytes are the file. */
  datatype Inode = Inode(kind: Kind, perm: nat, nlinks: int, entries: seq<Dirent>,
                         size: Pos, data: seq<byte>, capacity: Pos, target: Option<string>)

  type Nodes = map<nat, Inode>

  /** What a name buffer keeps of a string. */
  function Clip(name: string): (s: string)
    ensures |s| <= NAME_MAX
  {
    if |name| > NAME_MAX then name[..NAME_MAX] else name
  }

  /** Index of the first entry whose name agrees with `name` in the first NAME_MAX characters, or -1. */
  function Find(entries: seq<Dirent>, name: string): (i: int)
    ensures -1 <= i < |entries|
    ensures i >= 0 ==> Clip(entries[i].name) == Clip(name)
    ensures forall k :: 0 <= k < |entries| && (i < 0 || k < i) ==> Clip(entries[k].name) != Clip(name)
  {
    if entries == [] then -1
    else if Clip(entries[0].name) == Clip(name) then 0
    else
      var i := Find(entries[1..], name);
      if i < 0 then -1 else i + 1
  }

  /** What the first entry of that name leads to. */
  function First(entries: seq<Dirent>, name: string): Option<nat> {
    var i := Find(entries, name);
    if i < 0 then None else Some(entries[i].inode)
  }

  function Lookup(nodes: Nodes, dir: nat, name: string): Option<nat>
    requires dir in nodes
  {
    First(nodes[dir].entries, name)
  }

  /** Follow look-ups from an inode; only directories can be looked into. */
  function Walk(nodes: Nodes, at: nat, steps: seq<string>): Option<nat>
    decreases |steps|
  {
    if steps == [] then Some(at)
    else if at !in nodes || nodes[at].kind != Directory then None
    else match Lookup(nodes, at, steps[0])
      case None => None
      case Some(n) => Walk(nodes, n, steps[1..])
  }

  function Resolve(nodes: Nodes, root: nat, path: string): Option<nat> {
    Walk(nodes, root, Steps(path))
  }

  // ---- the tree invariant ----

  ghost predicate Entry(nodes: Nodes, dir: nat, i: int, child: nat) {
    dir in nodes && 0 <= i < |nodes[dir].entries| && nodes[dir].entries[i].inode == child
  }

  ghost predicate Attached(nodes: Nodes, child: nat) {
    exists dir, i :: Entry(nodes, dir, i, child)
  }

  /** An inode is well formed: only directories have entries, and every entry names an
      inode that exists and was made after its directory. */
  ghost predicate NodeOk(nodes: Nodes, n: nat, next: nat)
    requires n in nodes
  {
    && n < next
    && (nodes[n].entries != [] ==> nodes[n].kind == Directory)
    && forall i :: 0 <= i < |nodes[n].entries| ==>
         |nodes[n].entries[i].name| <= NAME_MAX && nodes[n].entries[i].inode in nodes && n < nodes[n].entries[i].inode
  }

  /** No inode has two entries. */
  ghost predicate OneEntryEach(nodes: Nodes) {
    forall d, i, d', i', c :: Entry(nodes, d, i, c) && Entry(nodes, d', i', c) ==> d == d' && i == i'
  }

  /** The link count is the number of entries, plus one while the inode has an entry itself. */
  ghost predicate LinksExact(nodes: Nodes, root: nat) {
    forall n :: n in nodes ==>
      nodes[n].nlinks == |nodes[n].entries| + (if n == root || Attached(nodes, n) then 1 else 0)
  }

  ghost predicate Tree(nodes: Nodes, root: nat, next: nat) {
    && root in nodes && nodes[root].kind == Directory
    && (forall n :: n in nodes ==> NodeOk(nodes, n, next) && root <= n)
    && OneEntryEach(nodes) && LinksExact(nodes, root)
  }

  // ---- operations ----

  function Fresh(kind: Kind, perm: nat): Inode {
    Inode(kind, perm, 1, [], 0, [], 0, None)
  }

  /** `ino` becomes the newest entry of `dir`. */
  function Created(nodes: Nodes, dir: nat, name: string, ino: nat, kind: Kind, perm: nat): Nodes
    requires dir in nodes
  {
    var d := nodes[dir];
    nodes[ino := Fresh(kind, perm)][dir := d.(entries := [Dirent(Clip(name), ino)] + d.entries, nlinks := d.nlinks + 1)]
  }

  /** The inode that unlinking a name detaches. */
  function Victim(nodes: Nodes, dir: nat, name: string): nat
    requires dir in nodes && Find(nodes[dir].entries, name) >= 0
  {
    nodes[dir].entries[Find(nodes[dir].entries, name)].inode
  }

  /** The first entry of that name is removed; its inode goes too if nothing else holds it. */
  function Unlinked(nodes: Nodes, dir: nat, name: string, refs: map<nat, nat>): Nodes
    requires dir in nodes && Find(nodes[dir].entries, name) >= 0
    requires Victim(nodes, dir, name) in nodes && Victim(nodes, dir, name) in refs
  {
    var i := Find(nodes[dir].entries, name);
    var v := nodes[dir].entries[i].inode;
    var victim := nodes[v].(nlinks := nodes[v].nlinks - 1);
    var d := nodes[dir].(entries := RemoveAt(nodes[dir].entries, i), nlinks := nodes[dir].nlinks - 1);
    if victim.nlinks == 0 && refs[v] <= 1 then (nodes - {v})[dir := d] else nodes[v := victim][dir := d]
  }

  function Renamed(nodes: Nodes, dir: nat, oldName: string, newName: string): Nodes
    requires dir in nodes && Find(nodes[dir].entries, oldName) >= 0
  {
    var i := Find(nodes[dir].entries, oldName);
    var e := nodes[dir].entries[i];
    nodes[dir := nodes[dir].(entries := nodes[dir].entries[i := Dirent(Clip(newName), e.inode)])]
  }

  /** The inode made: of the kind and permissions asked for, linked once and empty.  Its entry comes
      first, under the name's first 255 characters, before the entries there were. */
  lemma CreatedNode(nodes: Nodes, dir: nat, name: string, ino: nat, kind: Kind, perm: nat)
    requires dir in nodes && dir != ino
    ensures var nodes' := Created(nodes, dir, name, ino, kind, perm);
      && nodes'.Keys == nodes.Keys + {ino} && nodes'[ino].kind == kind && nodes'[ino].perm == perm
      && nodes'[ino].nlinks == 1 && nodes'[ino].entries == [] && nodes'[ino].size == 0 && nodes'[ino].data == []
      && |nodes'[dir].entries| == 1 + |nodes[dir].entries| && nodes'[dir].entries[1..] == nodes[dir].entries
      && nodes'[dir].entries[0] == Dirent(if |name| <= 255 then name else name[..255], ino)
      && nodes'[dir].nlinks == nodes[dir].nlinks + 1
      && forall n :: n in nodes && n != dir && n != ino ==> nodes'[n] == nodes[n]
  {}

  /** What a directory's names lead to after a rename: the new one to the inode renamed, unless a
      newer entry has that name already; the old one to the next entry of that name, if any; all
      others where they led. */
  lemma RenamedLookup(nodes: Nodes, dir: nat, oldName: string, newName: string, name: string)
    requires dir in nodes && Find(nodes[dir].entries, oldName) >= 0
    ensures var i, entries := Find(nodes[dir].entries, oldName), nodes[dir].entries;
      Lookup(Renamed(nodes, dir, oldName, newName), dir, name) ==
        if Clip(name) == Clip(newName) && (forall k :: 0 <= k < i ==> Clip(entries[k].name) != Clip(name))
          then Some(entries[i].inode)
        else if Clip(name) == Clip(oldName) && Clip(name) != Clip(newName) then First(entries[i + 1..], name)
        else Lookup(nodes, dir, name)
  {
    hide Clip, Find, First;
    ClipTwice(newName);
    var i, entries := Find(nodes[dir].entries, oldName), nodes[dir].entries;
    FirstReplaced(entries, i, Dirent(Clip(newName), entries[i].inode), name);
    FirstReplaced(entries, i, entries[i], name);
    assert entries[i := entries[i]] == entries;
  }

  /** The first entry of a name when entry `i` is replaced. */
  lemma FirstReplaced(entries: seq<Dirent>, i: nat, e: Dirent, name: string)
    requires i < |entries|
    ensures First(entries[i := e], name) ==
      if exists k :: 0 <= k < i && Clip(entries[k].name) == Clip(name) then First(entries[..i], name)
      else if Clip(e.name) == Clip(name) then Some(e.inode)
      else First(entries[i + 1..], name)
  {
    hide Clip, Find, First;
    var entries' := entries[i := e];
    assert entries' == entries[..i] + ([e] + entries[i + 1..]);
    FirstOf(entries[..i], [e] + entries[i + 1..], name);
    FirstOf([e], entries[i + 1..], name);
    FirstAlone(e, name);
  }

  lemma FirstAlone(e: Dirent, name: string)
    ensures First([e], name) == if Clip(e.name) == Clip(name) then Some(e.inode) else None
  {}

  /** The first entry of a name in two lists one after the other. */
  lemma {:induction false} FirstOf(a: seq<Dirent>, b: seq<Dirent>, name: string)
    ensures First(a + b, name) == if First(a, name).Some? then First(a, name) else First(b, name)
    ensures First(a, name).Some? <==> exists k :: 0 <= k < |a| && Clip(a[k].name) == Clip(name)
  {
    hide Clip, Find, First;
    FirstStep(a, name);
    FirstStep(a + b, name);
    if a == [] {
      assert a + b == b;
    } else {
      FirstOf(a[1..], b, name);
      assert (a + b)[1..] == a[1..] + b;
      assert forall k :: 0 < k < |a| ==> a[k] == a[1..][k - 1];
    }
  }

  lemma FirstStep(a: seq<Dirent>, name: string)
    ensures a == [] ==> First(a, name) == None
    ensures a != [] ==>
      First(a, name) == if Clip(a[0].name) == Clip(name) then Some(a[0].inode) else First(a[1..], name)
  {
    hide Clip;
  }

  lemma ClipTwice(name: string)
    ensures Clip(Clip(name)) == Clip(name)
  {}

  /** What a directory's names lead to after an unlink: the name unlinked to the next entry of
      that name, if any; all others where they led. */
  lemma UnlinkedLookup(nodes: Nodes, dir: nat, name: string, refs: map<nat, nat>, other: string)
    requires dir in nodes && Find(nodes[dir].entries, name) >= 0
    requires Victim(nodes, dir, name) in nodes && Victim(nodes, dir, name) in refs && Victim(nodes, dir, name) != dir
    ensures var nodes' := Unlinked(nodes, dir, name, refs);
      dir in nodes' && Lookup(nodes', dir, other) ==
        if Clip(other) == Clip(name) then First(nodes[dir].entries[Find(nodes[dir].entries, name) + 1..], name)
        else Lookup(nodes, dir, other)
  {
    hide Clip, Find, First, Unlinked, Victim;
    var i, entries := Find(nodes[dir].entries, name), nodes[dir].entries;
    UnlinkedEntries(nodes, dir, name, refs);
    FirstRemoved(entries, i, other);
    FirstClipped(entries[i + 1..], other, name);
    if Clip(other) == Clip(name) { FirstNone(entries[..i], other); }
  }

  lemma UnlinkedEntries(nodes: Nodes, dir: nat, name: string, refs: map<nat, nat>)
    requires dir in nodes && Find(nodes[dir].entries, name) >= 0
    requires Victim(nodes, dir, name) in nodes && Victim(nodes, dir, name) in refs && Victim(nodes, dir, name) != dir
    ensures var i, nodes' := Find(nodes[dir].entries, name), Unlinked(nodes, dir, name, refs);
      dir in nodes' && nodes'[dir].entries == nodes[dir].entries[..i] + nodes[dir].entries[i + 1..]
  {
    hide Find;
  }

  /** The first entry of a name when entry `i` is removed. */
  lemma FirstRemoved(entries: seq<Dirent>, i: nat, name: string)
    requires i < |entries|
    ensures First(entries[..i] + entries[i + 1..], name) ==
      if First(entries[..i], name).Some? then First(entries[..i], name) else First(entries[i + 1..], name)
    ensures First(entries, name) ==
      if First(entries[..i], name).Some? then First(entries[..i], name)
      else if Clip(entries[i].name) == Clip(name) then Some(entries[i].inode) else First(entries[i + 1..], name)
  {
    hide Clip, First;
    FirstOf(entries[..i], entries[i + 1..], name);
    FirstReplaced(entries, i, entries[i], name);
    FirstOf(entries[..i], [], name);
    assert entries[i := entries[i]] == entries;
    assert forall k :: 0 <= k < i ==> entries[..i][k] == entries[k];
  }

  lemma FirstNone(entries: seq<Dirent>, name: string)
    requires forall k :: 0 <= k < |entries| ==> Clip(entries[k].name) != Clip(name)
    ensures First(entries, name) == None
  {}

  lemma FirstClipped(entries: seq<Dirent>, a: string, b: string)
    ensures Clip(a) == Clip(b) ==> First(entries, a) == First(entries, b)
  {
    hide Clip, Find;
    assert Clip(a) == Clip(b) ==> Find(entries, a) == Find(entries, b);
  }

  // ---- every operation keeps the tree ----

  /** The entries after a create are the new one and the old ones, shifted in `dir`. */
  lemma CreateEntry(nodes: Nodes, root: nat, next: nat, dir: nat, name: string, kind: Kind, perm: nat, d: nat, i: int,
                    c: nat)
    requires Tree(nodes, root, next) && dir in nodes
    ensures Entry(Created(nodes, dir, name, next, kind, perm), d, i, c) <==>
      if d == dir && i == 0 then c == next else Entry(nodes, d, if d == dir then i - 1 else i, c)
  {
    NextUnused(nodes, root, next);
    var nodes' := Created(nodes, dir, name, next, kind, perm);
    assert nodes'[dir].entries == [Dirent(Clip(name), next)] + nodes[dir].entries;
    assert nodes'[next].entries == [];
  }

  lemma CreateKeepsTree(nodes: Nodes, root: nat, next: nat, dir: nat, name: string, kind: Kind, perm: nat)
    requires Tree(nodes, root, next) && dir in nodes && nodes[dir].kind == Directory
    ensures Tree(Created(nodes, dir, name, next, kind, perm), root, next + 1)
  {
    CreateNodes(nodes, root, next, dir, name, kind, perm);
    CreateLinks(nodes, root, next, dir, name, kind, perm);
    NextUnused(nodes, root, next);
    CreateUnique(nodes, root, next, dir, name, kind, perm);
  }

  lemma CreateUnique(nodes: Nodes, root: nat, next: nat, dir: nat, name: string, kind: Kind, perm: nat)
    requires Tree(nodes, root, next) && dir in nodes
    ensures OneEntryEach(Created(nodes, dir, name, next, kind, perm))
  {
    hide Created, Entry;
    NextUnused(nodes, root, next);
    var nodes' := Created(nodes, dir, name, next, kind, perm);
    forall d, i, d', i', c | Entry(nodes', d, i, c) && Entry(nodes', d', i', c) ensures d == d' && i == i' {
      CreateEntry(nodes, root, next, dir, name, kind, perm, d, i, c);
      CreateEntry(nodes, root, next, dir, name, kind, perm, d', i', c);
    }
  }

  lemma NextUnused(nodes: Nodes, root: nat, next: nat)
    requires Tree(nodes, root, next)
    ensures next !in nodes && forall d, i :: !Entry(nodes, d, i, next)
  {
    assert next in nodes ==> NodeOk(nodes, next, next);
    forall d, i ensures !Entry(nodes, d, i, next) {
      if d in nodes { assert NodeOk(nodes, d, next); }
    }
  }

  lemma CreateNodes(nodes: Nodes, root: nat, next: nat, dir: nat, name: string, kind: Kind, perm: nat)
    requires Tree(nodes, root, next) && dir in nodes && nodes[dir].kind == Directory
    ensures var nodes' := Created(nodes, dir, name, next, kind, perm);
      forall n :: n in nodes' ==> NodeOk(nodes', n, next + 1) && root <= n
  {
    NextUnused(nodes, root, next);
    var nodes' := Created(nodes, dir, name, next, kind, perm);
    forall n | n in nodes' ensures NodeOk(nodes', n, next + 1) && root <= n {
      assert n != next ==> NodeOk(nodes, n, next);
      assert NodeOk(nodes, dir, next) && NodeOk(nodes, root, next);
    }
  }

  lemma CreateLinks(nodes: Nodes, root: nat, next: nat, dir: nat, name: string, kind: Kind, perm: nat)
    requires Tree(nodes, root, next) && dir in nodes && nodes[dir].kind == Directory
    ensures LinksExact(Created(nodes, dir, name, next, kind, perm), root)
  {
    NextUnused(nodes, root, next);
    var nodes' := Created(nodes, dir, name, next, kind, perm);
    CreateEntry(nodes, root, next, dir, name, kind, perm, dir, 0, next);
    forall n | n in nodes && n != next ensures Attached(nodes', n) <==> Attached(nodes, n) {
      CreateAttached(nodes, root, next, dir, name, kind, perm, n);
    }
  }

  lemma CreateAttached(nodes: Nodes, root: nat, next: nat, dir: nat, name: string, kind: Kind, perm: nat, n: nat)
    requires Tree(nodes, root, next) && dir in nodes && n != next
    ensures Attached(Created(nodes, dir, name, next, kind, perm), n) <==> Attached(nodes, n)
  {
    var nodes' := Created(nodes, dir, name, next, kind, perm);
    if d, i :| Entry(nodes, d, i, n) {
      CreateEntry(nodes, root, next, dir, name, kind, perm, d, if d == dir then i + 1 else i, n);
    }
    if d, i :| Entry(nodes', d, i, n) {
      CreateEntry(nodes, root, next, dir, name, kind, perm, d, i, n);
    }
  }

  /** Renaming changes no link: the same inodes hang in the same places. */
  lemma RenameKeepsTree(nodes: Nodes, root: nat, next: nat, dir: nat, oldName: string, newName: string)
    requires Tree(nodes, root, next) && dir in nodes && Find(nodes[dir].entries, oldName) >= 0
    ensures Tree(Renamed(nodes, dir, oldName, newName), root, next)
  {
    var nodes' := Renamed(nodes, dir, oldName, newName);
    assert forall d, i, c :: Entry(nodes', d, i, c) <==> Entry(nodes, d, i, c);
    assert NodeOk(nodes, dir, next);
    forall n | n in nodes'
      ensures NodeOk(nodes', n, next) && root <= n && (Attached(nodes', n) <==> Attached(nodes, n))
    {
      assert NodeOk(nodes, n, next);
    }
  }

  /** The entries after an unlink are the old ones without the victim's. */
  lemma UnlinkEntry(nodes: Nodes, root: nat, next: nat, dir: nat, name: string, refs: map<nat, nat>, d: nat, i: int,
                    c: nat)
    requires Tree(nodes, root, next) && Unlinkable(nodes, dir, name, refs)
    ensures var v := Find(nodes[dir].entries, name);
      Entry(Unlinked(nodes, dir, name, refs), d, i, c) <==>
        Entry(nodes, d, if d == dir && i >= v then i + 1 else i, c) && (d == dir ==> i >= 0)
  {
    var v := Find(nodes[dir].entries, name);
    var nodes' := Unlinked(nodes, dir, name, refs);
    assert NodeOk(nodes, dir, next);
    assert nodes'[dir].entries == nodes[dir].entries[..v] + nodes[dir].entries[v + 1..];
    VictimLinks(nodes, root, next, dir, name, refs);
  }

  predicate Unlinkable(nodes: Nodes, dir: nat, name: string, refs: map<nat, nat>) {
    dir in nodes && Find(nodes[dir].entries, name) >= 0 && refs.Keys == nodes.Keys
  }

  /** A victim is another inode than its directory, exists, and has no entries left when its count drops to 0. */
  lemma VictimLinks(nodes: Nodes, root: nat, next: nat, dir: nat, name: string, refs: map<nat, nat>)
    requires Tree(nodes, root, next) && Unlinkable(nodes, dir, name, refs)
    ensures var v := nodes[dir].entries[Find(nodes[dir].entries, name)].inode;
      v in nodes && v in refs && v > dir && v != root && nodes[v].nlinks - 1 == |nodes[v].entries|
  {
    assert NodeOk(nodes, dir, next);
    var i := Find(nodes[dir].entries, name);
    assert Entry(nodes, dir, i, nodes[dir].entries[i].inode);
  }

  lemma UnlinkAttached(nodes: Nodes, root: nat, next: nat, dir: nat, name: string, refs: map<nat, nat>, n: nat)
    requires Tree(nodes, root, next) && Unlinkable(nodes, dir, name, refs)
    ensures Victim(nodes, dir, name) in nodes
    ensures Attached(Unlinked(nodes, dir, name, refs), n) <==> Attached(nodes, n) && n != Victim(nodes, dir, name)
  {
    VictimLinks(nodes, root, next, dir, name, refs);
    var at := Find(nodes[dir].entries, name);
    var v := nodes[dir].entries[at].inode;
    var nodes' := Unlinked(nodes, dir, name, refs);
    assert Entry(nodes, dir, at, v);
    if n != v {
      if d, i :| Entry(nodes, d, i, n) {
        UnlinkEntry(nodes, root, next, dir, name, refs, d, if d == dir && i > at then i - 1 else i, n);
      }
    }
    if d, i :| Entry(nodes', d, i, n) {
      UnlinkEntry(nodes, root, next, dir, name, refs, d, i, n);
    }
  }

  lemma UnlinkNode(nodes: Nodes, root: nat, next: nat, dir: nat, name: string, refs: map<nat, nat>, n: nat)
    requires Tree(nodes, root, next) && Unlinkable(nodes, dir, name, refs)
    requires n in Unlinked(nodes, dir, name, refs)
    ensures NodeOk(Unlinked(nodes, dir, name, refs), n, next) && n in nodes
  {
    VictimLinks(nodes, root, next, dir, name, refs);
    var nodes' := Unlinked(nodes, dir, name, refs);
    assert NodeOk(nodes, n, next);
    forall i | 0 <= i < |nodes'[n].entries|
      ensures |nodes'[n].entries[i].name| <= NAME_MAX
      ensures nodes'[n].entries[i].inode in nodes' && n < nodes'[n].entries[i].inode
    {
      var at := Find(nodes[dir].entries, name);
      var c := nodes'[n].entries[i].inode;
      UnlinkEntry(nodes, root, next, dir, name, refs, n, i, c);
      assert Entry(nodes', n, i, c) && Entry(nodes, dir, at, nodes[dir].entries[at].inode);
    }
  }

  lemma UnlinkKeepsTree(nodes: Nodes, root: nat, next: nat, dir: nat, name: string, refs: map<nat, nat>)
    requires Tree(nodes, root, next) && Unlinkable(nodes, dir, name, refs)
    ensures Tree(Unlinked(nodes, dir, name, refs), root, next)
  {
    VictimLinks(nodes, root, next, dir, name, refs);
    UnlinkUnique(nodes, root, next, dir, name, refs);
    var nodes' := Unlinked(nodes, dir, name, refs);
    forall n | n in nodes'
      ensures NodeOk(nodes', n, next) && root <= n
      ensures nodes'[n].nlinks == |nodes'[n].entries| + (if n == root || Attached(nodes', n) then 1 else 0)
    {
      UnlinkNode(nodes, root, next, dir, name, refs, n);
      UnlinkAttached(nodes, root, next, dir, name, refs, n);
    }
  }

  lemma UnlinkUnique(nodes: Nodes, root: nat, next: nat, dir: nat, name: string, refs: map<nat, nat>)
    requires Tree(nodes, root, next) && Unlinkable(nodes, dir, name, refs)
    ensures Victim(nodes, dir, name) in nodes && Victim(nodes, dir, name) in refs
    ensures OneEntryEach(Unlinked(nodes, dir, name, refs))
  {
    hide Unlinked, Entry;
    VictimLinks(nodes, root, next, dir, name, refs);
    var nodes' := Unlinked(nodes, dir, name, refs);
    forall d, i, d', i', c | Entry(nodes', d, i, c) && Entry(nodes', d', i', c) ensures d == d' && i == i' {
      UnlinkEntry(nodes, root, next, dir, name, refs, d, i, c);
      UnlinkEntry(nodes, root, next, dir, name, refs, d', i', c);
    }
  }

  /** An inode is reclaimed only when it has no entries of its own. */
  lemma ReclaimedIsEmpty(nodes: Nodes, root: nat, next: nat, dir: nat, name: string, refs: map<nat, nat>, n: nat)
    requires Tree(nodes, root, next) && Unlinkable(nodes, dir, name, refs)
    requires n in nodes
    ensures Victim(nodes, dir, name) in nodes && Victim(nodes, dir, name) in refs
    ensures n !in Unlinked(nodes, dir, name, refs) <==>
      n == Victim(nodes, dir, name) && nodes[n].entries == [] && refs[n] <= 1
  {
    VictimLinks(nodes, root, next, dir, name, refs);
  }

  // ---- paths in a tree ----

  lemma {:induction false} WalkAppend(nodes: Nodes, at: nat, xs: seq<string>, ys: seq<string>)
    ensures Walk(nodes, at, xs + ys) ==
      match Walk(nodes, at, xs) case None => None case Some(n) => Walk(nodes, n, ys)
    decreases |xs|
  {
    if xs == [] {
      assert xs + ys == ys;
    } else {
      assert (xs + ys)[0] == xs[0] && (xs + ys)[1..] == xs[1..] + ys;
      if at in nodes && nodes[at].kind == Directory {
        match Lookup(nodes, at, xs[0])
        case None =>
        case Some(n) => WalkAppend(nodes, n, xs[1..], ys);
      }
    }
  }

  /** Names as walks read them: within the buffer. */
  predicate Short(steps: seq<string>) { forall i :: 0 <= i < |steps| ==> |steps[i]| <= NAME_MAX }

  /** Going down the tree the inode numbers grow. */
  lemma {:induction false} WalkDown(nodes: Nodes, root: nat, next: nat, at: nat, xs: seq<string>)
    requires Tree(nodes, root, next) && at in nodes
    ensures match Walk(nodes, at, xs) case None => true case Some(n) => n in nodes && at <= n && (xs != [] ==> at < n)
    decreases |xs|
  {
    if xs != [] && nodes[at].kind == Directory {
      assert NodeOk(nodes, at, next);
      match Lookup(nodes, at, xs[0])
      case None =>
      case Some(n) => WalkDown(nodes, root, next, n, xs[1..]);
    }
  }

  /** The last step of a walk is an entry of the directory it leads through. */
  lemma LastStep(nodes: Nodes, root: nat, next: nat, at: nat, xs: seq<string>)
    requires Tree(nodes, root, next) && at in nodes && xs != [] && Walk(nodes, at, xs).Some?
    ensures var front := Walk(nodes, at, xs[..|xs| - 1]);
      front.Some? && front.value in nodes &&
      var i := Find(nodes[front.value].entries, xs[|xs| - 1]);
      Entry(nodes, front.value, i, Walk(nodes, at, xs).value)
  {
    var n := |xs| - 1;
    assert xs[..n] + xs[n..] == xs;
    WalkAppend(nodes, at, xs[..n], xs[n..]);
    WalkDown(nodes, root, next, at, xs[..n]);
    assert xs[n..][0] == xs[n] && xs[n..][1..] == [];
  }

  lemma WalkNone(nodes: Nodes, at: nat)
    ensures Walk(nodes, at, []) == Some(at)
  {}

  lemma SameName(nodes: Nodes, d: nat, x: string, y: string, c: nat)
    requires OneEntryEach(nodes) && d in nodes && |x| <= NAME_MAX && |y| <= NAME_MAX
    requires Entry(nodes, d, Find(nodes[d].entries, x), c) && Entry(nodes, d, Find(nodes[d].entries, y), c)
    ensures x == y
  {}

  /** In a tree only one list of names leads to an inode. */
  lemma {:induction false} UniquePath(nodes: Nodes, root: nat, next: nat, xs: seq<string>, ys: seq<string>)
    requires Tree(nodes, root, next) && Short(xs) && Short(ys)
    requires Walk(nodes, root, xs).Some? && Walk(nodes, root, xs) == Walk(nodes, root, ys)
    ensures xs == ys
    decreases |xs|
  {
    hide Walk, Find, NodeOk, LinksExact;
    WalkNone(nodes, root);
    WalkDown(nodes, root, next, root, xs);
    WalkDown(nodes, root, next, root, ys);
    if xs != [] && ys != [] {
      var m, n := |xs| - 1, |ys| - 1;
      LastStep(nodes, root, next, root, xs);
      LastStep(nodes, root, next, root, ys);
      UniquePath(nodes, root, next, xs[..m], ys[..n]);
      SameName(nodes, Walk(nodes, root, xs[..m]).value, xs[m], ys[n], Walk(nodes, root, xs).value);
      assert xs == xs[..m] + [xs[m]] && ys == ys[..n] + [ys[n]];
    }
  }

  /** A look-up after a create: the new name finds the new inode, other names what they found before. */
  lemma LookupCreated(nodes: Nodes, root: nat, next: nat, dir: nat, name: string, kind: Kind, perm: nat, at: nat,
                      x: string)
    requires Tree(nodes, root, next) && dir in nodes && at in nodes
    ensures Lookup(Created(nodes, dir, name, next, kind, perm), at, x) ==
      if at == dir && Clip(x) == Clip(name) then Some(next) else Lookup(nodes, at, x)
  {
    NextUnused(nodes, root, next);
    var nodes' := Created(nodes, dir, name, next, kind, perm);
    if at == dir {
      assert nodes'[at].entries[0] == Dirent(Clip(name), next) && nodes'[at].entries[1..] == nodes[at].entries;
    }
  }

  /** The walk from `at` comes to `dir` and then asks for `name`. */
  ghost predicate Passes(nodes: Nodes, at: nat, xs: seq<string>, dir: nat, name: string) {
    exists k :: 0 <= k < |xs| && Walk(nodes, at, xs[..k]) == Some(dir) && Clip(xs[k]) == Clip(name)
  }

  lemma PassesTail(nodes: Nodes, at: nat, xs: seq<string>, dir: nat, name: string, n: nat)
    requires xs != [] && at in nodes && nodes[at].kind == Directory && Lookup(nodes, at, xs[0]) == Some(n)
    requires !Passes(nodes, at, xs, dir, name)
    ensures !Passes(nodes, n, xs[1..], dir, name) && (at == dir ==> Clip(xs[0]) != Clip(name))
  {
    forall k | 0 <= k < |xs[1..]| && Walk(nodes, n, xs[1..][..k]) == Some(dir) ensures Clip(xs[1..][k]) != Clip(name) {
      assert xs[..k + 1][0] == xs[0] && xs[..k + 1][1..] == xs[1..][..k];
      assert Walk(nodes, at, xs[..k + 1]) == Some(dir);
    }
    assert Walk(nodes, at, xs[..0]) == Some(at);
  }

  /** A walk that does not pass the new entry goes where it went before. */
  lemma {:induction false} WalkAround(nodes: Nodes, root: nat, next: nat, dir: nat, name: string, kind: Kind, perm: nat,
                                      at: nat, xs: seq<string>)
    requires Tree(nodes, root, next) && dir in nodes && nodes[dir].kind == Directory && at in nodes
    requires !Passes(nodes, at, xs, dir, name)
    ensures Walk(Created(nodes, dir, name, next, kind, perm), at, xs) == Walk(nodes, at, xs)
    decreases |xs|
  {
    if xs != [] && nodes[at].kind == Directory {
      LookupCreated(nodes, root, next, dir, name, kind, perm, at, xs[0]);
      assert Walk(nodes, at, xs[..0]) == Some(at);
      assert NodeOk(nodes, at, next);
      match Lookup(nodes, at, xs[0])
      case None =>
      case Some(n) =>
        PassesTail(nodes, at, xs, dir, name, n);
        WalkAround(nodes, root, next, dir, name, kind, perm, n, xs[1..]);
    }
  }

  /** Only walks that begin with the path of `dir` and then `name` pass the entry. */
  lemma PassesIffPrefix(nodes: Nodes, root: nat, next: nat, ds: seq<string>, dir: nat, name: string, xs: seq<string>)
    requires Tree(nodes, root, next) && Short(ds) && Short(xs) && |name| <= NAME_MAX
    requires Walk(nodes, root, ds) == Some(dir)
    ensures Passes(nodes, root, xs, dir, name) <==> ds + [name] <= xs
  {
    if k :| 0 <= k < |xs| && Walk(nodes, root, xs[..k]) == Some(dir) && Clip(xs[k]) == Clip(name) {
      UniquePath(nodes, root, next, xs[..k], ds);
      assert xs[..k + 1] == ds + [name];
    }
    if ds + [name] <= xs {
      assert xs[..|ds|] == ds && xs[|ds|] == (ds + [name])[|ds|];
    }
  }

  lemma RootThere(nodes: Nodes, root: nat, next: nat)
    requires Tree(nodes, root, next)
    ensures root in nodes
  {}

  /** From the directory, the new name leads to the new inode and no further. */
  lemma WalkNew(nodes: Nodes, root: nat, next: nat, dir: nat, name: string, kind: Kind, perm: nat, rest: seq<string>)
    requires Tree(nodes, root, next) && dir in nodes && nodes[dir].kind == Directory
    requires rest != [] && rest[0] == name
    ensures Walk(Created(nodes, dir, name, next, kind, perm), dir, rest) == if rest == [name] then Some(next) else None
  {
    var nodes' := Created(nodes, dir, name, next, kind, perm);
    LookupCreated(nodes, root, next, dir, name, kind, perm, dir, name);
    NextUnused(nodes, root, next);
    assert nodes'[next] == Fresh(kind, perm) && nodes'[dir].kind == Directory;
    assert rest == [name] + rest[1..];
    assert rest == [name] <==> rest[1..] == [];
  }

  /** Namespace frame: after an entry is created, its path leads to the new inode, nothing lies
      beyond it yet, and every path that does not go through it leads where it led before. */
  lemma NamespaceFrame(nodes: Nodes, root: nat, next: nat, ds: seq<string>, dir: nat, name: string, kind: Kind,
                       perm: nat, xs: seq<string>)
    requires Tree(nodes, root, next) && Short(ds) && Short(xs) && |name| <= NAME_MAX
    requires Walk(nodes, root, ds) == Some(dir) && dir in nodes && nodes[dir].kind == Directory
    ensures Walk(Created(nodes, dir, name, next, kind, perm), root, xs) ==
      if xs == ds + [name] then Some(next) else if ds + [name] <= xs then None else Walk(nodes, root, xs)
  {
    hide Walk, Created, Passes, Tree;
    PassesIffPrefix(nodes, root, next, ds, dir, name, xs);
    RootThere(nodes, root, next);
    if ds + [name] <= xs {
      var nodes' := Created(nodes, dir, name, next, kind, perm);
      PassesIffPrefix(nodes, root, next, ds, dir, name, ds);
      WalkAround(nodes, root, next, dir, name, kind, perm, root, ds);
      var rest := xs[|ds|..];
      assert xs == ds + rest && rest[0] == xs[|ds|] == name;
      WalkAppend(nodes', root, ds, rest);
      WalkNew(nodes, root, next, dir, name, kind, perm, rest);
      assert xs == ds + [name] <==> rest == [name];
    } else {
      WalkAround(nodes, root, next, dir, name, kind, perm, root, xs);
    }
  }

  /** Unlinking what was just made restores every inode, shadowed entries included. */
  lemma CreateThenUnlink(nodes: Nodes, root: nat, next: nat, dir: nat, name: string, kind: Kind, perm: nat,
                         refs: map<nat, nat>)
    requires Tree(nodes, root, next) && dir in nodes && next in refs && refs[next] <= 1
    ensures var nodes' := Created(nodes, dir, name, next, kind, perm);
      Find(nodes'[dir].entries, name) == 0 && Victim(nodes', dir, name) == next &&
      Unlinked(nodes', dir, name, refs) == nodes
  {
    NextUnused(nodes, root, next);
    var nodes' := Created(nodes, dir, name, next, kind, perm);
    assert nodes'[dir].entries == [Dirent(Clip(name), next)] + nodes[dir].entries;
    assert RemoveAt(nodes'[dir].entries, 0) == nodes[dir].entries;
  }
}
