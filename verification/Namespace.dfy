/** What the RAM filesystem promises about paths. */
module Namespace {
  import opened Basics
  import opened Paths
  import opened RamfsSpec
  import opened Ramfs

  lemma StepsAreShort(p: string)
    ensures Short(Steps(p))
  {
    NamesShort(p);
    KeepShort(Names(p));
  }

  /** Path-split coherence: walking a whole path is looking its basename up in the
      directory its dirname leads to. */
  lemma PathSplit(nodes: Nodes, root: nat, path: string)
    requires |path| < PATH_MAX
    requires var b := Basename(path, PATH_MAX); b != "" && !Ignored(b) && |b| <= NAME_MAX
    ensures Resolve(nodes, root, path) ==
      match ParentOf(nodes, root, path)
      case None => None
      case Some(d) => Lookup(nodes, d, Basename(path, PATH_MAX))
  {
    var ds, b := Steps(Dirname(path, PATH_MAX)), Basename(path, PATH_MAX);
    FinalStep(path);
    WalkAppend(nodes, root, ds, [b]);
    assert [b][1..] == [];
  }

  /** The look-ups of the entry that a create for this path makes. */
  function EntrySteps(path: string): seq<string> {
    Steps(Dirname(path, PATH_MAX)) + [Clip(Basename(path, PATH_MAX))]
  }

  /** Namespace frame for paths: after a mkdir or a creating open, the entry's path leads to the
      new inode, nothing lies beyond it, and every other path leads where it led before. */
  lemma PathFrame(nodes: Nodes, root: nat, next: nat, path: string, kind: Kind, perm: nat, other: string)
    requires Tree(nodes, root, next) && ParentOf(nodes, root, path).Some?
    ensures var dir, b := ParentOf(nodes, root, path).value, Basename(path, PATH_MAX);
      Resolve(Created(nodes, dir, b, next, kind, perm), root, other) ==
      if Steps(other) == EntrySteps(path) then Some(next)
      else if EntrySteps(path) <= Steps(other) then None
      else Resolve(nodes, root, other)
  {
    var b := Basename(path, PATH_MAX);
    var dir := ParentOf(nodes, root, path).value;
    StepsAreShort(other);
    StepsAreShort(Dirname(path, PATH_MAX));
    NamespaceFrame(nodes, root, next, Steps(Dirname(path, PATH_MAX)), dir, Clip(b), kind, perm, Steps(other));
    assert Clip(Clip(b)) == Clip(b);
    assert Created(nodes, dir, b, next, kind, perm) == Created(nodes, dir, Clip(b), next, kind, perm);
  }

  lemma BaseNoSlash(path: string)
    requires |path| < PATH_MAX
    ensures NoSlash(Basename(path, PATH_MAX))
    ensures Basename(path, PATH_MAX) == path[LastSlash(path) + 1..]
  {
    hide LastSlash, NoSlash;
    assert LastSlash(path) < 0 ==> path[0..] == path;
  }

  /** Within the path buffers, the entry's path is the path that was given exactly when the last
      name is a proper one that a walk reads whole. */
  lemma EntryIsPath(path: string)
    requires |path| < PATH_MAX
    ensures EntrySteps(path) == Steps(path) <==>
      var b := Basename(path, PATH_MAX); b != "" && !Ignored(b) && ReadWhole(b)
  {
    hide Steps, Dirname, Basename, ReadWhole;
    var ds, b := Steps(Dirname(path, PATH_MAX)), Basename(path, PATH_MAX);
    SplitSteps(path);
    BaseNoSlash(path);
    StepsOfName(b);
    SamePrefix(ds, Steps(b), [Clip(b)]);
  }

  lemma SamePrefix(p: seq<string>, s: seq<string>, t: seq<string>)
    ensures p + t == p + s <==> s == t
  {
    if p + t == p + s { assert s == (p + s)[|p|..] == (p + t)[|p|..] == t; }
  }

  /** An entry made for a path whose last name is empty, "." or "..", as by mkdir of "a/" or
      "a/..", is one that no path leads to. */
  lemma EntryUnreachable(nodes: Nodes, root: nat, next: nat, path: string, kind: Kind, perm: nat, other: string)
    requires Tree(nodes, root, next) && ParentOf(nodes, root, path).Some?
    requires var b := Basename(path, PATH_MAX); b == "" || Ignored(b)
    ensures var dir, b := ParentOf(nodes, root, path).value, Basename(path, PATH_MAX);
      Resolve(Created(nodes, dir, b, next, kind, perm), root, other) == Resolve(nodes, root, other)
  {
    hide Steps, Tree, Created, Resolve, Dirname, Basename;
    PathFrame(nodes, root, next, path, kind, perm, other);
    StepsAreNames(other);
    NotBelow(Steps(Dirname(path, PATH_MAX)), Basename(path, PATH_MAX), Steps(other));
    assert Clip(Basename(path, PATH_MAX)) == Basename(path, PATH_MAX);
  }

  lemma NotBelow(ds: seq<string>, name: string, steps: seq<string>)
    requires forall i :: 0 <= i < |steps| ==> steps[i] != name
    ensures !(ds + [name] <= steps)
  {
    assert (ds + [name])[|ds|] == name;
  }

  /** A walk never asks for an empty name, "." or "..". */
  lemma StepsAreNames(p: string)
    ensures forall i :: 0 <= i < |Steps(p)| ==> Steps(p)[i] != "" && !Ignored(Steps(p)[i])
  {
    NamesNotEmpty(p);
    KeepNames(Names(p));
  }

  lemma {:induction false} NamesNotEmpty(p: string)
    ensures "" !in Names(p)
    decreases |p|
  {
    NamesUnfold(p);
    var q := SkipSlashes(p);
    if q != "" { NamesNotEmpty(q[NameLength(q, NAME_MAX)..]); }
  }

  lemma {:induction false} KeepNames(names: seq<string>)
    requires "" !in names
    ensures forall i :: 0 <= i < |Keep(names)| ==> Keep(names)[i] != "" && !Ignored(Keep(names)[i])
  {
    if names != [] { KeepNames(names[1..]); }
  }

  // ---- creating opens ----

  /** O_CREAT does not duplicate a name when the entry's path is the path given: the directory
      has no such entry. */
  lemma NoDuplicate(nodes: Nodes, root: nat, path: string)
    requires ParentOf(nodes, root, path).Some? && Resolve(nodes, root, path) == None
    requires Steps(path) == EntrySteps(path)
    ensures Lookup(nodes, ParentOf(nodes, root, path).value, Basename(path, PATH_MAX)) == None
  {
    hide Steps, Dirname, Basename, Find;
    var ds, b := Steps(Dirname(path, PATH_MAX)), Basename(path, PATH_MAX);
    var d := ParentOf(nodes, root, path).value;
    WalkAppend(nodes, root, ds, [Clip(b)]);
    assert [Clip(b)][1..] == [];
    ClipFinds(nodes[d].entries, b);
  }

  lemma {:induction false} ClipFinds(entries: seq<Dirent>, name: string)
    ensures Find(entries, Clip(name)) == Find(entries, name)
  {
    assert Clip(Clip(name)) == Clip(name);
    if entries != [] { ClipFinds(entries[1..], name); }
  }

  /** After a creating open the same path leads to the new file exactly when the entry's path is
      the path given.  Otherwise the walk fails again, in the same directory. */
  lemma CreatedIsFound(nodes: Nodes, root: nat, next: nat, path: string, perm: nat)
    requires Tree(nodes, root, next) && ParentOf(nodes, root, path).Some? && Resolve(nodes, root, path) == None
    ensures var dir, b := ParentOf(nodes, root, path).value, Basename(path, PATH_MAX);
      var after := Created(nodes, dir, b, next, Regular, perm);
      && Resolve(after, root, path) == (if Steps(path) == EntrySteps(path) then Some(next) else None)
      && ParentOf(after, root, path) == ParentOf(nodes, root, path)
  {
    hide Steps, Dirname, Basename, Find;
    var dn := Dirname(path, PATH_MAX);
    PathFrame(nodes, root, next, path, Regular, perm, path);
    PathFrame(nodes, root, next, path, Regular, perm, dn);
    assert |Steps(dn)| < |EntrySteps(path)|;
  }

  /** The names of a directory's entries, newest first. */
  function EntryNames(nodes: Nodes, dir: nat): seq<string>
    requires dir in nodes
  {
    seq(|nodes[dir].entries|, i requires 0 <= i < |nodes[dir].entries| => nodes[dir].entries[i].name)
  }

  /** Then a second creating open makes a second entry of the same name, and the path still does
      not resolve. */
  lemma OpenedTwice(nodes: Nodes, root: nat, next: nat, path: string, flags: nat, perm: nat)
    requires Tree(nodes, root, next) && Creates(nodes, root, path, flags, true) && Steps(path) != EntrySteps(path)
    ensures var d, b := ParentOf(nodes, root, path).value, Basename(path, PATH_MAX);
      var once := Created(nodes, d, b, next, Regular, perm);
      && Tree(once, root, next + 1) && Creates(once, root, path, flags, true) && d in once
      && var twice := Created(once, d, b, next + 1, Regular, perm);
         d in twice && EntryNames(twice, d) == [Clip(b), Clip(b)] + EntryNames(nodes, d) &&
         Resolve(twice, root, path) == None
  {
    hide Steps, Dirname, Basename, Find, Tree;
    var d, b := ParentOf(nodes, root, path).value, Basename(path, PATH_MAX);
    CreateKeepsTree(nodes, root, next, d, b, Regular, perm);
    CreatedIsFound(nodes, root, next, path, perm);
    var once := Created(nodes, d, b, next, Regular, perm);
    CreatedIsFound(once, root, next + 1, path, perm);
    NextIsFresh(nodes, root, next, d);
    NextIsFresh(once, root, next + 1, d);
  }

  lemma NextIsFresh(nodes: Nodes, root: nat, next: nat, d: nat)
    requires Tree(nodes, root, next) && d in nodes
    ensures d != next
  {
    NextUnused(nodes, root, next);
  }

  /** A filesystem of one empty directory. */
  function Bare(): Nodes { map[1 := Fresh(Directory, 0x1ED)] }

  lemma BareTree()
    ensures Tree(Bare(), 1, 2)
  {
  }

  /** A name of 256 letters, created twice in an empty filesystem, exists twice. */
  lemma LongNameExample(flags: nat)
    requires Asks(flags, 0x40)
    ensures var path := seq(256, _ => 'a');
      && Creates(Bare(), 1, path, flags, true) && ParentOf(Bare(), 1, path) == Some(1)
      && var once := Created(Bare(), 1, path, 2, Regular, 0);
         Creates(once, 1, path, flags, true) && 1 in once &&
         EntryNames(Created(once, 1, path, 3, Regular, 0), 1) == [path[..255], path[..255]]
  {
    hide Asks, Steps, EntrySteps, Dirname, Basename, Tree, Created, Bare, EntryNames;
    var path := LongName();
    BareTree();
    BareRoot(path);
    OpenedTwice(Bare(), 1, 2, path, flags, 0);
    assert EntryNames(Bare(), 1) == [] by { BareEmpty(); }
    assert Clip(path) == path[..255];
  }

  lemma LongName() returns (path: string)
    ensures path == seq(256, _ => 'a') && |path| == 256 && Steps(path) != [] && Steps(path) != EntrySteps(path)
    ensures Dirname(path, PATH_MAX) == "." && Basename(path, PATH_MAX) == path && Steps(".") == []
  {
    hide Steps, EntrySteps, Dirname, Basename;
    path := seq(256, _ => 'a');
    PlainPath(path);
    EntryIsPath(path);
    assert path[NAME_MAX..] == "a" && !ReadWhole(path);
    StepsOfName(path);
  }

  /** In the empty filesystem the root is the parent of a name, and the name is not there. */
  lemma BareRoot(path: string)
    requires Steps(path) != [] && Dirname(path, PATH_MAX) == "." && Steps(".") == []
    ensures ParentOf(Bare(), 1, path) == Some(1) && Resolve(Bare(), 1, path) == None
  {
    hide Steps, Dirname;
    NoEntries(Steps(path));
  }

  lemma BareEmpty()
    ensures 1 in Bare() && EntryNames(Bare(), 1) == []
  {}

  /** A path without a slash: its basename is the path, its directory the root. */
  lemma PlainPath(path: string)
    requires NoSlash(path) && |path| < PATH_MAX
    ensures Dirname(path, PATH_MAX) == "." && Basename(path, PATH_MAX) == path && Steps(".") == []
  {
    assert path[0..] == path;
    StepsOfName(".");
  }

  lemma NoEntries(steps: seq<string>)
    requires steps != []
    ensures Walk(Bare(), 1, steps) == None
  {
  }

  /** "./" n times. */
  function Dots(n: nat): (s: string)
    ensures |s| == 2 * n
  {
    if n == 0 then "" else "./" + Dots(n - 1)
  }

  lemma {:induction false} DotsSteps(n: nat, rest: string)
    ensures Steps(Dots(n) + rest) == Steps(rest)
  {
    hide Names, Keep;
    if n == 0 {
      assert Dots(0) + rest == rest;
    } else {
      DotsSteps(n - 1, rest);
      assert Dots(n) + rest == "." + "/" + (Dots(n - 1) + rest);
      NamesJoin(".", Dots(n - 1) + rest);
      KeepAppend(Names("."), Names(Dots(n - 1) + rest));
      StepsOfName(".");
    }
  }

  lemma {:induction false} DotsAdd(m: nat, n: nat)
    ensures Dots(m + n) == Dots(m) + Dots(n)
  {
    if m > 0 { DotsAdd(m - 1, n); }
  }

  /** "./" six hundred times and then "d/x": the path buffer cuts the directory off before "d". */
  function DottedPath(): string { Dots(600) + "d/x" }

  lemma DottedPathParts()
    ensures Steps(DottedPath()) == ["d", "x"] && EntrySteps(DottedPath()) == ["x"]
    ensures Basename(DottedPath(), PATH_MAX) == "x" && Steps(Dirname(DottedPath(), PATH_MAX)) == []
  {
    hide Steps, Dots, Dirname, Basename;
    DotsSteps(600, "d/x");
    TwoSteps();
    SplitAt(Dots(600) + "d", "x");
    assert Dots(600) + "d" + "/" + "x" == DottedPath();
    CutDots();
    assert [] + ["x"] == ["x"];
  }

  lemma TwoSteps()
    ensures Steps("d/x") == ["d", "x"]
  {
    hide Names;
    NamesJoin("d", "x");
    assert "d" + "/" + "x" == "d/x";
    NamesOfName("d");
    NamesOfName("x");
    KeepAppend(["d"], ["x"]);
    KeepOne("d");
    KeepOne("x");
  }

  /** dirname and basename of a path longer than the buffers. */
  lemma SplitAt(d: string, b: string)
    requires 1024 <= |d| && NoSlash(b) && |b| < PATH_MAX
    ensures Dirname(d + "/" + b, PATH_MAX) == d[..1023] && Basename(d + "/" + b, PATH_MAX) == b
  {
    var path := d + "/" + b;
    LastSlashAt(d, b);
    assert path[..|d|] == d && path[|d| + 1..] == b && d[..|d|][..1023] == d[..1023];
  }

  lemma CutDots()
    ensures Steps((Dots(600) + "d")[..1023]) == []
  {
    hide Steps;
    DotsAdd(511, 89);
    assert Dots(89) == "./" + Dots(88);
    assert (Dots(600) + "d")[..1023] == Dots(511) + ".";
    DotsSteps(511, ".");
    StepsOfName(".");
  }

  /** With a directory "d" that has no "x", that path opened twice with O_CREAT makes "x" twice, in
      the root, though its last name is a short one. */
  lemma LongPathExample(flags: nat)
    requires Asks(flags, 0x40)
    ensures var nodes := Created(Bare(), 1, "d", 2, Directory, 0);
      && Creates(nodes, 1, DottedPath(), flags, true) && ParentOf(nodes, 1, DottedPath()) == Some(1)
      && var once := Created(nodes, 1, "x", 3, Regular, 0);
         Creates(once, 1, DottedPath(), flags, true) && 1 in once &&
         EntryNames(Created(once, 1, "x", 4, Regular, 0), 1) == ["x", "x", "d"]
  {
    hide Flag, DottedPath, Steps, Basename, Dirname, Walk, Tree, Created, Bare;
    DottedPathParts();
    OneDirectory();
    var nodes := Created(Bare(), 1, "d", 2, Directory, 0);
    OpenedTwice(nodes, 1, 3, DottedPath(), flags, 0);
  }

  lemma OneDirectory()
    ensures 1 in Bare()
    ensures var nodes := Created(Bare(), 1, "d", 2, Directory, 0);
      && Tree(nodes, 1, 3) && 1 in nodes && nodes[1].kind == Directory && EntryNames(nodes, 1) == ["d"]
      && Walk(nodes, 1, []) == Some(1) && Walk(nodes, 1, ["d", "x"]) == None
  {
    hide Tree;
    var nodes := Created(Bare(), 1, "d", 2, Directory, 0);
    BareTree();
    CreateKeepsTree(Bare(), 1, 2, 1, "d", Directory, 0);
    assert ["d", "x"][1..] == ["x"];
    assert Lookup(nodes, 1, "d") == Some(2);
    assert Walk(nodes, 2, ["x"]) == None;
  }

  /** mkdir and then unlink of the same path restore every inode, so every resolution. */
  method MkdirThenUnlink(fs: Ramfs, path: string, mode: nat) returns (made: int, removed: int)
    requires fs.Valid()
    modifies fs
    ensures fs.Valid() && fs.nodes == old(fs.nodes)
    ensures ParentOf(old(fs.nodes), fs.root, path).Some? ==> made == 0 && removed == 0
  {
    hide Tree, WalkRefs, Created, Unlinked, Find;
    ghost var nodes, refs, next := fs.nodes, fs.refs, fs.nextIno;
    made := fs.FsMkdir(path, mode, true, true);
    if made != 0 { return made, -1; }
    ghost var d := ParentOf(nodes, fs.root, path).value;
    ParentKept(nodes, fs.root, next, path, Perm(mode), refs);
    removed := fs.FsUnlink(path);
  }

  /** The unlink's walk finds the directory again and does not touch the new inode's count. */
  lemma ParentKept(nodes: Nodes, root: nat, next: nat, path: string, perm: nat, refs: map<nat, nat>)
    requires Tree(nodes, root, next) && refs.Keys == nodes.Keys && ParentOf(nodes, root, path).Some?
    ensures var d, b := ParentOf(nodes, root, path).value, Basename(path, PATH_MAX);
      var after := Created(nodes, d, b, next, Directory, perm);
      var dn := Steps(Dirname(path, PATH_MAX));
      var counts := WalkRefs(nodes, refs, root, dn)[next := 1];
      && ParentOf(after, root, path) == Some(d) && Find(after[d].entries, b) >= 0
      && counts.Keys == after.Keys
      && var counts' := WalkRefs(after, counts, root, dn);
         Victim(after, d, b) in after && Victim(after, d, b) in counts' && Unlinked(after, d, b, counts') == nodes
  {
    var d, b := ParentOf(nodes, root, path).value, Basename(path, PATH_MAX);
    var after := Created(nodes, d, b, next, Directory, perm);
    var dn := Steps(Dirname(path, PATH_MAX));
    CreateKeepsTree(nodes, root, next, d, b, Directory, perm);
    PathFrame(nodes, root, next, path, Directory, perm, Dirname(path, PATH_MAX));
    assert |dn| < |EntrySteps(path)|;
    WalkRefsKeys(nodes, refs, root, dn);
    var counts := WalkRefs(nodes, refs, root, dn)[next := 1];
    NextUnused(nodes, root, next);
    WalkRefsBelow(after, root, next + 1, counts, root, dn, next);
    var counts' := WalkRefs(after, counts, root, dn);
    CreateThenUnlink(nodes, root, next, d, b, Directory, perm, counts');
  }

  lemma {:induction false} WalkRefsKeys(nodes: Nodes, refs: map<nat, nat>, at: nat, steps: seq<string>)
    requires refs.Keys == nodes.Keys
    ensures WalkRefs(nodes, refs, at, steps).Keys == nodes.Keys
    decreases |steps|
  {
    if steps != [] && at in nodes && nodes[at].kind == Directory && Lookup(nodes, at, steps[0]).Some? {
      var n := Lookup(nodes, at, steps[0]).value;
      if n in refs { WalkRefsKeys(nodes, refs[n := refs[n] + 1], n, steps[1..]); }
    }
  }
}
