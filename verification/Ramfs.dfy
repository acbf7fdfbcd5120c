/** The RAM filesystem: inodes, entries and reference counts updated in place. */
module Ramfs {
  import opened Basics
  import opened Bits
  import opened Paths
  import opened RamfsSpec
  import opened FileSpec

  const O_CREAT: nat := 0x40
  const O_TRUNC: nat := 0x200
  const O_APPEND: nat := 0x400

  predicate Flag(flags: nat, bit: nat) { And(flags, bit) != 0 }

  /** The bit of this weight is set. */
  predicate Asks(flags: nat, weight: nat)
    requires weight > 0
  {
    flags / weight % 2 == 1
  }

  /** The three flags that an open looks at, by their weights. */
  lemma FlagBits(flags: nat)
    ensures Flag(flags, O_CREAT) <==> Asks(flags, 0x40)
    ensures Flag(flags, O_TRUNC) <==> Asks(flags, 0x200)
    ensures Flag(flags, O_APPEND) <==> Asks(flags, 0x400)
  {
    hide And;
    Pow12();
    assert Pow2(6) == 0x40 && Pow2(9) == 0x200;
    BitTest(flags, 6);
    BitTest(flags, 9);
    BitTest(flags, 10);
  }

  /** Write, create and truncate is 0x241; create and append is 0x440. */
  lemma FlagExamples()
    ensures Asks(0x241, 0x40) && Asks(0x241, 0x200) && !Asks(0x241, 0x400)
    ensures Asks(0x440, 0x40) && !Asks(0x440, 0x200) && Asks(0x440, 0x400)
  {}

  /** The lowest nine bits. */
  function Perm(mode: nat): (perm: nat)
    ensures perm == mode % 0x200
  {
    Pow12();
    LowMask(mode, 9);
    And(mode, 0x1FF)
  }

  /** Reference counts after a walk: each inode looked up gains one. */
  function WalkRefs(nodes: Nodes, refs: map<nat, nat>, at: nat, steps: seq<string>): map<nat, nat>
    requires refs.Keys == nodes.Keys
    decreases |steps|
  {
    if steps == [] || at !in nodes || nodes[at].kind != Directory then refs
    else match Lookup(nodes, at, steps[0])
      case None => refs
      case Some(n) => if n in refs then WalkRefs(nodes, refs[n := refs[n] + 1], n, steps[1..]) else refs
  }

  /** A walk leaves the counts of inodes beyond its end alone. */
  lemma {:induction false} WalkRefsBelow(nodes: Nodes, root: nat, next: nat, refs: map<nat, nat>, at: nat,
                                         steps: seq<string>, n: nat)
    requires Tree(nodes, root, next) && at in nodes && refs.Keys == nodes.Keys
    requires Walk(nodes, at, steps).Some? && Walk(nodes, at, steps).value < n && n in refs
    ensures n in WalkRefs(nodes, refs, at, steps) && WalkRefs(nodes, refs, at, steps)[n] == refs[n]
    decreases |steps|
  {
    hide Tree, Lookup;
    if steps != [] {
      LookedUp(nodes, root, next, at, steps[0]);
      var c := Lookup(nodes, at, steps[0]).value;
      WalkDown(nodes, root, next, c, steps[1..]);
      WalkRefsBelow(nodes, root, next, refs[c := refs[c] + 1], c, steps[1..], n);
    }
  }

  /** What a look-up finds is an inode made later. */
  lemma LookedUp(nodes: Nodes, root: nat, next: nat, at: nat, name: string)
    requires Tree(nodes, root, next) && at in nodes
    ensures Lookup(nodes, at, name).Some? ==>
      Lookup(nodes, at, name).value in nodes && at < Lookup(nodes, at, name).value
  {
    assert NodeOk(nodes, at, next);
  }

  /** Reading one component off the front of a path. */
  lemma StepsCons(p: string)
    requires p != "" && p[0] != '/'
    ensures var n := NameLength(p, NAME_MAX);
      0 < n <= |p| && Steps(p) == (if Ignored(p[..n]) then [] else [p[..n]]) + Steps(p[n..])
  {
    var n := NameLength(p, NAME_MAX);
    KeepAppend([p[..n]], Names(p[n..]));
    KeepOne(p[..n]);
  }

  /** One step of a walk. */
  lemma WalkCons(nodes: Nodes, refs: map<nat, nat>, at: nat, name: string, rest: seq<string>)
    requires at in nodes && refs.Keys == nodes.Keys
    ensures Walk(nodes, at, [name] + rest) == if nodes[at].kind != Directory then None
      else match Lookup(nodes, at, name) case None => None case Some(n) => Walk(nodes, n, rest)
    ensures WalkRefs(nodes, refs, at, [name] + rest) == if nodes[at].kind != Directory then refs
      else match Lookup(nodes, at, name) case None => refs
        case Some(n) => if n in refs then WalkRefs(nodes, refs[n := refs[n] + 1], n, rest) else refs
  {
    hide Lookup;
    assert ([name] + rest)[0] == name && ([name] + rest)[1..] == rest;
  }

  lemma WalkNil(nodes: Nodes, refs: map<nat, nat>, at: nat)
    requires refs.Keys == nodes.Keys
    ensures Walk(nodes, at, []) == Some(at) && WalkRefs(nodes, refs, at, []) == refs
  {}

  function WithTarget(nodes: Nodes, ino: nat, target: string): Nodes
    requires ino in nodes && |target| < WORD32
  {
    nodes[ino := nodes[ino].(target := Some(target), size := |target|)]
  }

  /** The directory a path's last name belongs to. */
  function ParentOf(nodes: Nodes, root: nat, path: string): (r: Option<nat>)
    ensures r.Some? ==> r.value in nodes && nodes[r.value].kind == Directory
  {
    match Resolve(nodes, root, Dirname(path, PATH_MAX))
    case None => None
    case Some(d) => if d in nodes && nodes[d].kind == Directory then Some(d) else None
  }

  /** Whether an open makes a new file. */
  predicate Creates(nodes: Nodes, root: nat, path: string, flags: nat, memory: bool) {
    Resolve(nodes, root, path) == None && Asks(flags, 0x40) && ParentOf(nodes, root, path).Some? && memory
  }

  /** What an open did to the inodes: perhaps made one, perhaps emptied the one it opened. */
  ghost predicate Opened(was: Nodes, nodes: Nodes, root: nat, path: string, flags: nat, mode: nat, memory: bool,
                         next: nat, ino: nat) {
    var creates := Creates(was, root, path, flags, memory);
    var made := if creates
      then Created(was, ParentOf(was, root, path).value, Basename(path, PATH_MAX), next, Regular, Perm(mode)) else was;
    && Some(ino) == (if creates then Some(next) else Resolve(was, root, path))
    && ino in made
    && nodes == if Asks(flags, 0x200) then made[ino := made[ino].(size := 0, data := [], capacity := 0)] else made
  }

  /** With flags 0x241 the file is empty afterwards; with 0x440 a file that was there is as it was,
      and one made is empty. */
  lemma OpenedFor(was: Nodes, nodes: Nodes, root: nat, path: string, mode: nat, memory: bool, next: nat, ino: nat)
    requires next !in was
    ensures Opened(was, nodes, root, path, 0x241, mode, memory, next, ino) ==>
      nodes[ino].size == 0 && nodes[ino].data == []
    ensures Opened(was, nodes, root, path, 0x440, mode, memory, next, ino) ==>
      if Resolve(was, root, path) == Some(ino) then nodes == was else nodes[ino].size == 0 && nodes[ino].data == []
  {
    hide ParentOf, Resolve, Asks, Created;
    FlagExamples();
    if Opened(was, nodes, root, path, 0x440, mode, memory, next, ino) {
      var dir := ParentOf(was, root, path);
      if dir.Some? { CreatedNode(was, dir.value, Basename(path, PATH_MAX), next, Regular, Perm(mode)); }
    }
  }

  /** An open touches no inode but the one it opens and the directory it may make it in. */
  lemma OpenedFrame(was: Nodes, nodes: Nodes, root: nat, path: string, flags: nat, mode: nat, memory: bool,
                    next: nat, ino: nat)
    requires Opened(was, nodes, root, path, flags, mode, memory, next, ino)
    ensures forall n :: n in was && n != ino && Some(n) != ParentOf(was, root, path) ==>
      n in nodes && nodes[n] == was[n]
  {
    hide ParentOf, Resolve, Asks;
  }

  /** An unlink leaves the files that stay as they were. */
  lemma UnlinkedFiles(nodes: Nodes, dir: nat, name: string, refs: map<nat, nat>)
    requires dir in nodes && Find(nodes[dir].entries, name) >= 0
    requires Victim(nodes, dir, name) in nodes && Victim(nodes, dir, name) in refs
    ensures forall n :: n in Unlinked(nodes, dir, name, refs) ==>
      var node := Unlinked(nodes, dir, name, refs)[n];
      n in nodes && node.kind == nodes[n].kind && FileOk(node) == FileOk(nodes[n])
  {
    hide Find, FileOk;
    forall n | n in Unlinked(nodes, dir, name, refs)
      ensures n in nodes && FileOk(Unlinked(nodes, dir, name, refs)[n]) == FileOk(nodes[n])
    {
      SameFile(Unlinked(nodes, dir, name, refs)[n], nodes[n]);
    }
  }

  lemma SameFile(a: Inode, b: Inode)
    requires a.size == b.size && a.data == b.data && a.capacity == b.capacity
    ensures FileOk(a) == FileOk(b)
  {}

  lemma EmptyFileOk(node: Inode)
    ensures FileOk(node.(size := 0, data := [], capacity := 0))
  {
  }

  class Ramfs {
    const root: nat
    var nodes: Nodes
    var refs: map<nat, nat>
    var nextIno: nat

    ghost predicate Valid()
      reads this
    {
      Shape() && forall n :: n in nodes && nodes[n].kind != RamfsSpec.Symlink ==> FileOk(nodes[n])
    }

    /** What holds whatever the buffers are like. */
    ghost predicate Shape()
      reads this
    {
      Tree(nodes, root, nextIno) && refs.Keys == nodes.Keys
    }

    constructor ()
      ensures Valid() && Resolve(nodes, root, "/") == Some(root) && |nodes| == 1
    {
      root := 1;
      nodes := map[1 := Fresh(Directory, 0x1ED)];
      refs := map[1 := 1];
      nextIno := 2;
      new;
      SlashOnly();
    }

    /** strncmp(a, b, NAME_MAX) == 0 for strings without NUL. */
    static method SameName(a: string, b: string) returns (same: bool)
      ensures same <==> Clip(a) == Clip(b)
    {
      var i := 0;
      while i < NAME_MAX && i < |a| && i < |b| && a[i] == b[i]
        invariant i <= NAME_MAX && i <= |a| && i <= |b| && a[..i] == b[..i]
      {
        i := i + 1;
      }
      same := i == NAME_MAX || (i == |a| && i == |b|);
      if !same && i < |a| && i < |b| {
        assert Clip(a)[i] == a[i] && Clip(b)[i] == b[i];
      }
    }

    /** Scan a directory for the newest entry of that name. */
    method IndexOf(dir: nat, name: string) returns (i: int)
      requires dir in nodes
      ensures i == Find(nodes[dir].entries, name)
    {
      var entries := nodes[dir].entries;
      i := 0;
      while i < |entries|
        invariant 0 <= i <= |entries|
        invariant Find(entries, name) == if Find(entries[i..], name) < 0 then -1 else i + Find(entries[i..], name)
      {
        var same := SameName(entries[i].name, name);
        assert entries[i..][0] == entries[i] && entries[i..][1..] == entries[i + 1..];
        if same { return; }
        i := i + 1;
      }
      i := -1;
    }

    /** The newest entry of that name, or None; the inode found gains a reference. */
    method FindChild(dir: nat, name: string) returns (r: Option<nat>)
      requires Valid() && dir in nodes
      modifies `refs
      ensures Valid() && r == Lookup(nodes, dir, name) && (r.Some? ==> r.value in nodes)
      ensures r.Some? && r.value in old(refs) ==> refs == old(refs)[r.value := old(refs)[r.value] + 1]
      ensures r == None || r.value !in old(refs) ==> refs == old(refs)
    {
      hide Tree, Find;
      var i := IndexOf(dir, name);
      if i < 0 { return None; }
      ChildThere(dir, i);
      var n := nodes[dir].entries[i].inode;
      refs := refs[n := refs[n] + 1];
      r := Some(n);
    }

    lemma ChildThere(dir: nat, i: nat)
      requires Valid() && dir in nodes && i < |nodes[dir].entries|
      ensures nodes[dir].entries[i].inode in nodes && nodes[dir].entries[i].inode in refs
    {
      assert NodeOk(nodes, dir, nextIno);
    }

    /** Walk a path from the root, character by character. */
    method PathWalk(path: string) returns (r: Option<nat>)
      requires Valid()
      modifies `refs
      ensures Valid() && r == Resolve(nodes, root, path)
      ensures refs == WalkRefs(nodes, old(refs), root, Steps(path))
    {
      hide Walk, WalkRefs, Names, Keep, Lookup;
      var curr := root;
      var i := 0;
      assert path[0..] == path;
      while i < |path|
        invariant i <= |path| && Valid() && curr in nodes
        invariant Resolve(nodes, root, path) == Walk(nodes, curr, Steps(path[i..]))
        invariant WalkRefs(nodes, old(refs), root, Steps(path)) == WalkRefs(nodes, refs, curr, Steps(path[i..]))
      {
        var name;
        i, name := NextName(path, i);
        if name != "" && !Ignored(name) {
          WalkCons(nodes, refs, curr, name, Steps(path[i..]));
          if nodes[curr].kind != Directory { return None; }
          var next := FindChild(curr, name);
          if next == None { return None; }
          curr := next.value;
        } else {
          assert [] + Steps(path[i..]) == Steps(path[i..]);
        }
      }
      NoNames(path[i..]);
      WalkNil(nodes, refs, curr);
      r := Some(curr);
    }

    lemma NoNames(p: string)
      requires p == ""
      ensures Steps(p) == []
    {}

    /** Skip slashes and copy the next component out of the path; "" at the end. */
    method NextName(path: string, start: nat) returns (i: nat, name: string)
      requires start < |path|
      ensures start < i <= |path|
      ensures Steps(path[start..]) == (if name == "" || Ignored(name) then [] else [name]) + Steps(path[i..])
    {
      hide Names, Keep, SkipSlashes, NameLength;
      i := SkipOver(path, start);
      NamesSkip(path[start..]);
      if i == |path| {
        assert [] + Steps(path[i..]) == Steps(path[i..]);
        return i, "";
      }
      ghost var p := path[i..];
      StepsCons(p);
      ghost var from := i;
      i, name := CopyName(path, i);
      assert p[..i - from] == name && p[i - from..] == path[i..];
    }

    method SkipOver(path: string, start: nat) returns (i: nat)
      requires start < |path|
      ensures start <= i <= |path| && SkipSlashes(path[start..]) == path[i..] && (i < |path| ==> path[i] != '/')
      ensures i == |path| ==> start < i
    {
      i := start;
      while i < |path| && path[i] == '/'
        invariant start <= i <= |path| && SkipSlashes(path[start..]) == SkipSlashes(path[i..])
      {
        assert path[i..][1..] == path[i + 1..];
        i := i + 1;
      }
    }

    method CopyName(path: string, from: nat) returns (i: nat, name: string)
      requires from < |path| && path[from] != '/'
      ensures from <= i <= |path| && name == path[from..i] && i - from == NameLength(path[from..], NAME_MAX)
    {
      i := from;
      name := "";
      while i < |path| && path[i] != '/' && |name| < NAME_MAX
        invariant from <= i <= |path| && name == path[from..i] && i - from <= NAME_MAX
        invariant NameLength(path[from..], NAME_MAX) == i - from + NameLength(path[i..], NAME_MAX - (i - from))
      {
        assert path[i..][1..] == path[i + 1..];
        name := name + [path[i]];
        i := i + 1;
      }
    }

    /** A new inode as newest entry of a directory.  No check for a name already there. */
    method Create(dir: nat, name: string, kind: Kind, perm: nat, inodeMemory: bool, entryMemory: bool)
      returns (r: int, ino: nat)
      requires Valid() && dir in nodes && nodes[dir].kind == Directory
      modifies this
      ensures Valid() && ino == old(nextIno) && nextIno == old(nextIno) + (if inodeMemory then 1 else 0)
      ensures if inodeMemory && entryMemory
        then r == 0 && nodes == Created(old(nodes), dir, name, ino, kind, perm) && refs == old(refs)[ino := 1]
        else r == -1 && nodes == old(nodes) && refs == old(refs)
    {
      hide Tree, Created;
      ino := nextIno;
      if !inodeMemory { return -1, ino; }
      NextFree();
      CreateValid(dir, name, kind, perm);
      nextIno := nextIno + 1;
      if !entryMemory { return -1, ino; }
      var d := nodes[dir];
      nodes := nodes[ino := Fresh(kind, perm)];
      nodes := nodes[dir := d.(entries := [Dirent(Clip(name), ino)] + d.entries, nlinks := d.nlinks + 1)];
      refs := refs[ino := 1];
      assert nodes == Created(old(nodes), dir, name, ino, kind, perm) by {
        CreatedIs(old(nodes), dir, name, ino, kind, perm);
      }
      r := 0;
    }

    lemma NextFree()
      requires Valid()
      ensures nextIno !in nodes && Tree(nodes, root, nextIno + 1)
    {
      NextUnused(nodes, root, nextIno);
      forall n | n in nodes ensures NodeOk(nodes, n, nextIno + 1) { assert NodeOk(nodes, n, nextIno); }
    }

    lemma CreateValid(dir: nat, name: string, kind: Kind, perm: nat)
      requires Valid() && dir in nodes && nodes[dir].kind == Directory
      ensures var nodes' := Created(nodes, dir, name, nextIno, kind, perm);
        Tree(nodes', root, nextIno + 1) && nodes'.Keys == nodes.Keys + {nextIno} &&
        forall n :: n in nodes' && nodes'[n].kind != RamfsSpec.Symlink ==> FileOk(nodes'[n])
    {
      CreateKeepsTree(nodes, root, nextIno, dir, name, kind, perm);
    }

    lemma CreatedIs(n: Nodes, dir: nat, name: string, ino: nat, kind: Kind, perm: nat)
      requires dir in n
      ensures var d := n[dir].(entries := [Dirent(Clip(name), ino)] + n[dir].entries, nlinks := n[dir].nlinks + 1);
        Created(n, dir, name, ino, kind, perm) == n[ino := Fresh(kind, perm)][dir := d]
    {}

    /** Remove the newest entry of that name; reclaim its inode if nothing else holds it. */
    method Unlink(dir: nat, name: string) returns (r: int)
      requires Valid() && dir in nodes
      modifies this
      ensures Valid() && nextIno == old(nextIno)
      ensures if Find(old(nodes)[dir].entries, name) < 0 then r == -1 && nodes == old(nodes) && refs == old(refs)
        else r == 0 && old(Unlinkable(nodes, dir, name, refs) && Victim(nodes, dir, name) in nodes) &&
             nodes == Unlinked(old(nodes), dir, name, old(refs)) &&
             refs == map n | n in old(refs) && n in nodes :: old(refs)[n]
    {
      hide Tree, Find, FileOk, Unlinked;
      var i := IndexOf(dir, name);
      if i < 0 { return -1; }
      UnlinkValid(dir, name);
      UnlinkedIs(dir, name);
      var v := nodes[dir].entries[i].inode;
      var victim := nodes[v].(nlinks := nodes[v].nlinks - 1);
      var parent := nodes[dir].(entries := RemoveAt(nodes[dir].entries, i));
      if victim.nlinks == 0 && refs[v] <= 1 {
        nodes := nodes - {v};
        refs := refs - {v};
      } else {
        nodes := nodes[v := victim];
      }
      nodes := nodes[dir := parent.(nlinks := parent.nlinks - 1)];
      r := 0;
    }

    lemma UnlinkedIs(dir: nat, name: string)
      requires dir in nodes && Find(nodes[dir].entries, name) >= 0
      requires Victim(nodes, dir, name) in nodes && Victim(nodes, dir, name) in refs && Victim(nodes, dir, name) != dir
      ensures var v := Victim(nodes, dir, name);
        var entries := RemoveAt(nodes[dir].entries, Find(nodes[dir].entries, name));
        var d := nodes[dir].(entries := entries, nlinks := nodes[dir].nlinks - 1);
        Unlinked(nodes, dir, name, refs) ==
          if nodes[v].nlinks == 1 && refs[v] <= 1 then (nodes - {v})[dir := d]
          else nodes[v := nodes[v].(nlinks := nodes[v].nlinks - 1)][dir := d]
    {}

    lemma UnlinkValid(dir: nat, name: string)
      requires Valid() && dir in nodes && Find(nodes[dir].entries, name) >= 0
      ensures Unlinkable(nodes, dir, name, refs) && Victim(nodes, dir, name) in nodes
      ensures Victim(nodes, dir, name) in refs && Victim(nodes, dir, name) != dir
      ensures var nodes' := Unlinked(nodes, dir, name, refs);
        Tree(nodes', root, nextIno) && nodes'.Keys <= nodes.Keys &&
        forall n :: n in nodes' && nodes'[n].kind != RamfsSpec.Symlink ==> FileOk(nodes'[n])
    {
      hide Tree, Unlinked, FileOk, Find;
      VictimThere(dir, name);
      UnlinkKeepsTree(nodes, root, nextIno, dir, name, refs);
      UnlinkedFiles(nodes, dir, name, refs);
    }

    lemma VictimThere(dir: nat, name: string)
      requires Valid() && dir in nodes && Find(nodes[dir].entries, name) >= 0
      ensures Unlinkable(nodes, dir, name, refs) && Victim(nodes, dir, name) in nodes
      ensures Victim(nodes, dir, name) in refs && Victim(nodes, dir, name) != dir
    {
      VictimLinks(nodes, root, nextIno, dir, name, refs);
    }

    /** Rename within the old directory; the new directory is not looked at. */
    method Rename(oldDir: nat, oldName: string, newDir: nat, newName: string) returns (r: int)
      requires Valid() && oldDir in nodes
      modifies `nodes
      ensures Valid()
      ensures if Find(old(nodes)[oldDir].entries, oldName) < 0 then r == -1 && nodes == old(nodes)
        else r == 0 && nodes == Renamed(old(nodes), oldDir, oldName, newName)
    {
      hide Tree, Find, FileOk;
      var i := IndexOf(oldDir, oldName);
      if i < 0 { return -1; }
      RenameValid(oldDir, oldName, newName);
      var entries := nodes[oldDir].entries;
      nodes := nodes[oldDir := nodes[oldDir].(entries := entries[i := Dirent(Clip(newName), entries[i].inode)])];
      r := 0;
    }

    lemma RenameValid(dir: nat, oldName: string, newName: string)
      requires Valid() && dir in nodes && Find(nodes[dir].entries, oldName) >= 0
      ensures var nodes' := Renamed(nodes, dir, oldName, newName);
        Tree(nodes', root, nextIno) && nodes'.Keys == nodes.Keys &&
        forall n :: n in nodes' && nodes'[n].kind != RamfsSpec.Symlink ==> FileOk(nodes'[n])
    {
      RenameKeepsTree(nodes, root, nextIno, dir, oldName, newName);
    }

    /** A symbolic link: an entry first, then memory for its target; when that fails the entry stays. */
    method Symlink(dir: nat, name: string, target: string, inodeMemory: bool, entryMemory: bool, targetMemory: bool)
      returns (r: int)
      requires Valid() && dir in nodes && nodes[dir].kind == Directory && |target| < WORD32
      modifies this
      ensures Valid()
      ensures r == 0 <==> inodeMemory && entryMemory && targetMemory
      ensures nodes == if !(inodeMemory && entryMemory) then old(nodes)
        else
          var made := Created(old(nodes), dir, name, old(nextIno), RamfsSpec.Symlink, Perm(0x1FF));
          if targetMemory then WithTarget(made, old(nextIno), target) else made
    {
      var ino;
      r, ino := Create(dir, name, RamfsSpec.Symlink, Perm(0x1FF), inodeMemory, entryMemory);
      if r != 0 || !targetMemory { return -1; }
      TargetValid(ino, target);
      nodes := nodes[ino := nodes[ino].(target := Some(target), size := |target|)];
    }

    lemma TargetValid(ino: nat, target: string)
      requires Valid() && ino in nodes && nodes[ino].kind == RamfsSpec.Symlink && |target| < WORD32
      ensures var nodes' := WithTarget(nodes, ino, target);
        && Tree(nodes', root, nextIno)
        && forall n :: n in nodes' && nodes'[n].kind != RamfsSpec.Symlink ==> FileOk(nodes'[n])
    {
      var nodes' := WithTarget(nodes, ino, target);
      assert forall d, i, c :: Entry(nodes', d, i, c) <==> Entry(nodes, d, i, c);
      forall n | n in nodes' ensures NodeOk(nodes', n, nextIno) && (Attached(nodes', n) <==> Attached(nodes, n)) {
        assert NodeOk(nodes, n, nextIno);
      }
    }

    /** Replace the buffer of an inode, with its recorded capacity and size. */
    method SetFile(ino: nat, size: Pos, data: seq<byte>, capacity: Pos)
      requires Valid() && ino in nodes
      modifies `nodes
      ensures Shape() && nodes == old(nodes)[ino := old(nodes)[ino].(size := size, data := data, capacity := capacity)]
      ensures FileOk(nodes[ino]) ==> Valid()
    {
      hide Tree, FileOk;
      FileValid(ino, size, data, capacity);
      nodes := nodes[ino := nodes[ino].(size := size, data := data, capacity := capacity)];
    }

    lemma FileValid(ino: nat, size: Pos, data: seq<byte>, capacity: Pos)
      requires Valid() && ino in nodes
      ensures Tree(nodes[ino := nodes[ino].(size := size, data := data, capacity := capacity)], root, nextIno)
    {
      var nodes' := nodes[ino := nodes[ino].(size := size, data := data, capacity := capacity)];
      assert forall d, i, c :: Entry(nodes', d, i, c) <==> Entry(nodes, d, i, c);
      forall n | n in nodes' ensures NodeOk(nodes', n, nextIno) && (Attached(nodes', n) <==> Attached(nodes, n)) {
        assert NodeOk(nodes, n, nextIno);
      }
    }

    /** Cut or extend a file; nothing changes when memory runs out.  When the copy would leave
        the new buffer (`wild`), nothing is said of what the code does then. */
    method Truncate(ino: nat, size: Pos, memory: bool) returns (r: int, ghost wild: bool)
      requires Valid() && ino in nodes && (nodes[ino].data == [] || FileOk(nodes[ino]))
      modifies `nodes
      ensures Shape() && (FileOk(nodes[ino]) ==> Valid())
      ensures match Truncated(old(nodes)[ino], size, memory)
        case NoMemory => r == -1 && !wild && Valid() && nodes == old(nodes)
        case OutOfBounds => wild
        case Changed(node) => r == 0 && !wild && nodes == old(nodes)[ino := node]
      ensures size == 0 ==> Valid()
    {
      hide Tree;
      var node := nodes[ino];
      wild := false;
      if size == 0 {
        SetFile(ino, 0, [], 0);
        return 0, wild;
      }
      var room := size % WORD32;
      if !memory || room == 0 { return -1, wild; }
      var data := FileSpec.Zeros(room);
      if node.data != [] {
        var copy := if node.size < size then node.size else size;
        if copy > room { return 0, true; }
        data := node.data[..copy] + data[copy..];
        assert data == node.data[..copy] + FileSpec.Zeros(room - copy);
      } else {
        assert data == node.data[..0] + FileSpec.Zeros(room - 0);
      }
      SetFile(ino, size, data, size);
      r := 0;
    }

    method FindParent(path: string) returns (r: Option<nat>)
      requires Valid()
      modifies `refs
      ensures Valid() && r == ParentOf(nodes, root, path)
      ensures r.Some? ==> r.value in nodes && nodes[r.value].kind == Directory
      ensures refs == WalkRefs(nodes, old(refs), root, Steps(Dirname(path, PATH_MAX)))
    {
      var _, dname := PathDirname(path, PATH_MAX);
      r := PathWalk(dname);
      if r.Some? {
        InTree(dname);
        if nodes[r.value].kind != Directory { return None; }
      }
    }

    lemma InTree(path: string)
      requires Valid()
      ensures root in nodes
      ensures match Resolve(nodes, root, path) case None => true case Some(n) => n in nodes
    {
      WalkDown(nodes, root, nextIno, root, Steps(path));
    }

    method FsMkdir(path: string, mode: nat, inodeMemory: bool, entryMemory: bool) returns (r: int)
      requires Valid()
      modifies this
      ensures Valid()
      ensures match ParentOf(old(nodes), root, path)
        case None => r == -1 && nodes == old(nodes)
        case Some(d) =>
          d in old(nodes) &&
          if inodeMemory && entryMemory
          then r == 0 && nextIno == old(nextIno) + 1 &&
               nodes == Created(old(nodes), d, Basename(path, PATH_MAX), old(nextIno), Directory, Perm(mode)) &&
               refs == WalkRefs(old(nodes), old(refs), root, Steps(Dirname(path, PATH_MAX)))[old(nextIno) := 1]
          else r == -1 && nodes == old(nodes)
    {
      hide Tree, WalkRefs, Walk, Created, Unlinked, Find;
      InTree("");
      var dir := FindParent(path);
      var _, bname := PathBasename(path, PATH_MAX);
      if dir == None { return -1; }
      var ino;
      r, ino := Create(dir.value, bname, Directory, Perm(mode), inodeMemory, entryMemory);
    }

    method FsUnlink(path: string) returns (r: int)
      requires Valid()
      modifies this
      ensures Valid() && nextIno == old(nextIno)
      ensures match ParentOf(old(nodes), root, path)
        case None => r == -1 && nodes == old(nodes)
        case Some(d) =>
          d in old(nodes) &&
          var b := Basename(path, PATH_MAX);
          var counts := WalkRefs(old(nodes), old(refs), root, Steps(Dirname(path, PATH_MAX)));
          if Find(old(nodes)[d].entries, b) < 0 then r == -1 && nodes == old(nodes)
          else r == 0 && Unlinkable(old(nodes), d, b, counts) && Victim(old(nodes), d, b) in old(nodes) &&
               nodes == Unlinked(old(nodes), d, b, counts)
    {
      hide Tree, WalkRefs, Walk, Created, Unlinked, Find;
      InTree("");
      var dir := FindParent(path);
      var _, bname := PathBasename(path, PATH_MAX);
      if dir == None { return -1; }
      r := Unlink(dir.value, bname);
    }

    /** The inode to open: found, or made in the directory of the path's dirname. */
    method OpenNode(path: string, flags: nat, mode: nat, inodeMemory: bool, entryMemory: bool)
      returns (node: Option<nat>)
      requires Valid()
      modifies this
      ensures Valid() && (node.Some? ==> node.value in nodes)
      ensures if Creates(old(nodes), root, path, flags, inodeMemory && entryMemory)
        then node == Some(old(nextIno)) &&
             var d, b := ParentOf(old(nodes), root, path).value, Basename(path, PATH_MAX);
             nodes == Created(old(nodes), d, b, old(nextIno), Regular, Perm(mode))
        else node == Resolve(old(nodes), root, path) && nodes == old(nodes)
    {
      hide Tree, WalkRefs, Resolve, Find, FileOk, Created, Flag, Valid;
      hide Shape, ParentOf, Basename, Dirname, Perm, Steps, Walk;
      FlagBits(flags);
      InTree(path);
      node := PathWalk(path);
      if node == None && Flag(flags, O_CREAT) {
        node := OpenNew(path, mode, inodeMemory, entryMemory);
      }
    }

    method OpenNew(path: string, mode: nat, inodeMemory: bool, entryMemory: bool) returns (node: Option<nat>)
      requires Valid()
      modifies this
      ensures Valid() && (node.Some? ==> node.value in nodes)
      ensures if ParentOf(old(nodes), root, path).Some? && inodeMemory && entryMemory
        then node == Some(old(nextIno)) &&
             var d, b := ParentOf(old(nodes), root, path).value, Basename(path, PATH_MAX);
             nodes == Created(old(nodes), d, b, old(nextIno), Regular, Perm(mode))
        else node == None && nodes == old(nodes)
    {
      hide Tree, WalkRefs, Resolve, Find, FileOk;
      var dir := FindParent(path);
      var _, bname := PathBasename(path, PATH_MAX);
      if dir == None { return None; }
      var r, ino := Create(dir.value, bname, Regular, Perm(mode), inodeMemory, entryMemory);
      node := if r == 0 then Some(ino) else None;
    }

    /** Open by path: -1, or the inode and the starting position. */
    method FsOpen(path: string, flags: nat, mode: nat, inodeMemory: bool, entryMemory: bool)
      returns (r: int, ino: nat, pos: Pos)
      requires Valid()
      modifies this
      ensures Valid()
      ensures r == 0 || r == -1
      ensures r == 0 <==>
        Resolve(old(nodes), root, path).Some? || Creates(old(nodes), root, path, flags, inodeMemory && entryMemory)
      ensures r == -1 ==> nodes == old(nodes)
      ensures r == 0 ==> ino in nodes && pos == (if Asks(flags, 0x400) then nodes[ino].size else 0)
      ensures r == 0 ==>
        Opened(old(nodes), nodes, root, path, flags, mode, inodeMemory && entryMemory, old(nextIno), ino)
      ensures r == 0 && Asks(flags, 0x200) ==> nodes[ino].size == 0 && nodes[ino].data == []
      ensures r == 0 && Resolve(old(nodes), root, path).Some? ==> Resolve(old(nodes), root, path) == Some(ino)
      ensures r == 0 && Resolve(old(nodes), root, path).Some? && !Asks(flags, 0x200) ==> nodes == old(nodes)
      ensures forall n :: n in old(nodes) && (r != 0 || n != ino) && Some(n) != ParentOf(old(nodes), root, path) ==>
        n in nodes && nodes[n] == old(nodes)[n]
    {
      FlagBits(flags);
      hide Asks, Tree, WalkRefs, Resolve, Find, Created, Flag, FileOk, ParentOf, Basename, Perm, Content;
      ino, pos := 0, 0;
      var node := OpenNode(path, flags, mode, inodeMemory, entryMemory);
      if node == None { return -1, ino, pos; }
      ino := node.value;
      EmptyFileOk(nodes[ino]);
      if Flag(flags, O_TRUNC) { SetFile(ino, 0, [], 0); }
      if Flag(flags, O_APPEND) { pos := nodes[ino].size; }
      OpenedFrame(old(nodes), nodes, root, path, flags, mode, inodeMemory && entryMemory, old(nextIno), ino);
      r := 0;
    }
  }
}
