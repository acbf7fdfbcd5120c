/** Which mount point serves a path, and when cutting its target off the path cuts
    between components. */
module Mounts {
  import opened Basics
  import opened Paths

  /** Mount `i` of the list can serve the path. */
  predicate Serves(mounts: seq<string>, i: int, path: string) {
    0 <= i < |mounts| && mounts[i] != "" && mounts[i] <= path
  }

  /** The comparison of the first |target| characters. */
  method StartsWith(path: string, target: string) returns (yes: bool)
    ensures yes <==> target <= path
  {
    var i := 0;
    while i < |target| && i < |path| && path[i] == target[i]
      invariant i <= |target| && i <= |path| && path[..i] == target[..i]
    {
      i := i + 1;
    }
    yes := i == |target|;
    assert i == |target| ==> target[..i] == target;
  }

  /** The longest target that is a prefix of the path, the earliest in the list among equals,
      and what is left of the path without its leading slashes. */
  method FindMount(mounts: seq<string>, path: string) returns (best: Option<nat>, remainder: string)
    ensures best == None <==> forall i :: !Serves(mounts, i, path)
    ensures best == None ==> remainder == path
    ensures best.Some? ==>
      && Serves(mounts, best.value, path)
      && (forall i :: Serves(mounts, i, path) ==> |mounts[i]| <= |mounts[best.value]|)
      && (forall i :: Serves(mounts, i, path) && i < best.value ==> |mounts[i]| < |mounts[best.value]|)
      && remainder == SkipSlashes(path[|mounts[best.value]|..])
  {
    best := None;
    var bestLen: nat, m: nat := 0, 0;
    while m < |mounts|
      invariant m <= |mounts| && (best.Some? <==> bestLen > 0)
      invariant best.Some? ==> best.value < m && Serves(mounts, best.value, path) && bestLen == |mounts[best.value]|
      invariant forall i :: i < m && Serves(mounts, i, path) ==> |mounts[i]| <= bestLen
      invariant best.Some? ==> forall i :: i < best.value && Serves(mounts, i, path) ==> |mounts[i]| < bestLen
    {
      var matches := StartsWith(path, mounts[m]);
      if matches {
        if |mounts[m]| > bestLen { best, bestLen := Some(m), |mounts[m]|; }
      }
      m := m + 1;
    }
    remainder := path;
    if best.Some? { remainder := DropSlashes(path, bestLen); }
  }

  method DropSlashes(path: string, from: nat) returns (rest: string)
    requires from <= |path|
    ensures rest == SkipSlashes(path[from..])
  {
    var p := from;
    while p < |path| && path[p] == '/'
      invariant p <= |path| && SkipSlashes(path[p..]) == SkipSlashes(path[from..])
    {
      assert path[p..][1..] == path[p + 1..];
      p := p + 1;
    }
    rest := path[p..];
  }

  /** The cut after the target falls between two pieces that a walk reads. */
  predicate CleanCut(target: string, path: string)
    requires target != "" && target <= path
  {
    || |path| == |target|
    || path[|target|] == '/'
    || target[|target| - 1] == '/'
    || LastPiece(target) == NAME_MAX
  }

  /** The length of the last piece a walk reads. */
  function LastPiece(target: string): nat {
    var names := Names(target);
    if names == [] then 0 else |names[|names| - 1]|
  }

  /** The components of the path are those of the mount's target and then those of the remainder
      exactly when the cut is clean: a target also serves paths that merely start with its text. */
  lemma MountSplit(target: string, path: string)
    requires target != "" && target <= path
    ensures Names(path) == Names(target) + Names(SkipSlashes(path[|target|..])) <==> CleanCut(target, path)
  {
    hide Names, SkipSlashes, LastPiece;
    var rest := path[|target|..];
    assert path == target + rest;
    NamesSkip(rest);
    if rest == "" {
      SlashOnly();
      assert path == target;
    } else if rest[0] == '/' || target[|target| - 1] == '/' {
      SlashBetween(target, rest);
    } else {
      Glued(target, rest);
    }
  }

  /** With a slash on either side of the cut the components are those of the two sides. */
  lemma SlashBetween(target: string, rest: string)
    requires target != "" && rest != "" && (rest[0] == '/' || target[|target| - 1] == '/')
    ensures Names(target + rest) == Names(target) + Names(rest)
  {
    hide Names;
    if rest[0] == '/' {
      assert rest == "/" + rest[1..];
      SlashAfter(target, rest[1..]);
    } else {
      var d := target[..|target| - 1];
      assert target == d + "/";
      SlashBefore(d, rest);
    }
  }

  lemma SlashAfter(target: string, b: string)
    ensures Names(target + ("/" + b)) == Names(target) + Names("/" + b)
  {
    hide Names;
    assert target + ("/" + b) == target + "/" + b;
    NamesJoin(target, b);
    SkipOne(b);
  }

  lemma SlashBefore(d: string, rest: string)
    ensures Names(d + "/" + rest) == Names(d + "/") + Names(rest)
  {
    hide Names;
    assert d + "/" + "" == d + "/";
    NamesJoin(d, rest);
    NamesJoin(d, "");
    SlashOnly();
    assert Names(d) + [] == Names(d);
  }

  lemma SkipOne(b: string)
    ensures Names("/" + b) == Names(b)
  {
    NamesUnfold("/" + b);
    NamesUnfold(b);
    assert ("/" + b)[1..] == b;
  }

  /** Text glued to a target lengthens its last piece, unless that is full already. */
  lemma {:induction false} Glued(target: string, rest: string)
    requires target != "" && target[|target| - 1] != '/' && rest != "" && rest[0] != '/'
    ensures Names(target) != []
    ensures LastPiece(target) == NAME_MAX ==> Names(target + rest) == Names(target) + Names(rest)
    ensures LastPiece(target) != NAME_MAX ==> !(Names(target) <= Names(target + rest))
    decreases |target|
  {
    hide Names, NameLength, SkipSlashes, LastPiece;
    var q := SkipSlashes(target);
    SkipKeepsEnd(target);
    SkipSlashesAppend(target, rest);
    var n := NameLength(q, NAME_MAX);
    GluedLength(q, rest, NAME_MAX);
    if n < |q| {
      Glued(q[n..], rest);
      GluedMore(target, rest, q, n);
    } else {
      GluedLast(target, rest, q);
      OnePiece(target, q);
    }
  }

  lemma OnePiece(target: string, q: string)
    requires Names(target) == [q]
    ensures LastPiece(target) == |q|
  {
  }

  /** A full first piece does not matter. */
  lemma GluedMore(target: string, rest: string, q: string, n: nat)
    requires q == SkipSlashes(target) != "" && SkipSlashes(target + rest) == q + rest
    requires n == NameLength(q, NAME_MAX) == NameLength(q + rest, NAME_MAX) < |q| && Names(q[n..]) != []
    ensures Names(target) != [] && LastPiece(target) == LastPiece(q[n..])
    ensures Names(q[n..] + rest) == Names(q[n..]) + Names(rest) ==> Names(target + rest) == Names(target) + Names(rest)
    ensures !(Names(q[n..]) <= Names(q[n..] + rest)) ==> !(Names(target) <= Names(target + rest))
  {
    hide Names, NameLength, SkipSlashes;
    NamesUnfold(target);
    NamesUnfold(target + rest);
    assert (q + rest)[..n] == q[..n] && (q + rest)[n..] == q[n..] + rest;
    PrefixTail(q[..n], Names(q[n..]), Names(q[n..] + rest));
    assert [q[..n]] + (Names(q[n..]) + Names(rest)) == [q[..n]] + Names(q[n..]) + Names(rest);
  }

  /** Glued to a target of one piece. */
  lemma GluedLast(target: string, rest: string, q: string)
    requires q == SkipSlashes(target) != "" && SkipSlashes(target + rest) == q + rest && rest != "" && rest[0] != '/'
    requires NameLength(q, NAME_MAX) == |q| && (|q| < NAME_MAX ==> NameLength(q + rest, NAME_MAX) > |q|)
    requires |q| == NAME_MAX ==> NameLength(q + rest, NAME_MAX) == NAME_MAX
    ensures Names(target) == [q]
    ensures |q| == NAME_MAX ==> Names(target + rest) == [q] + Names(rest)
    ensures |q| != NAME_MAX ==> !([q] <= Names(target + rest))
  {
    hide Names, NameLength, SkipSlashes;
    SlashOnly();
    NamesUnfold(target);
    NamesUnfold(target + rest);
    assert q[..|q|] == q && q[|q|..] == "" && [q] + [] == [q];
    assert (q + rest)[..|q|] == q && (q + rest)[|q|..] == rest;
  }

  lemma PrefixTail(x: string, a: seq<string>, b: seq<string>)
    ensures [x] + a <= [x] + b <==> a <= b
  {
    if [x] + a <= [x] + b { assert a == ([x] + a)[1..] <= ([x] + b)[1..] == b; }
  }

  lemma {:induction false} SkipKeepsEnd(p: string)
    requires p != "" && p[|p| - 1] != '/'
    ensures SkipSlashes(p) != "" && SkipSlashes(p)[|SkipSlashes(p)| - 1] != '/'
  {
    if p[0] == '/' { SkipKeepsEnd(p[1..]); }
  }

  lemma {:induction false} GluedLength(q: string, rest: string, room: nat)
    requires rest != "" && rest[0] != '/' && (q != "" ==> q[|q| - 1] != '/')
    ensures NameLength(q, room) < |q| ==> NameLength(q + rest, room) == NameLength(q, room)
    ensures NameLength(q, room) < |q| && NameLength(q, room) < room ==> q[NameLength(q, room)] == '/'
    ensures NameLength(q, room) == |q| < room ==> NameLength(q + rest, room) > |q|
    ensures NameLength(q, room) == room ==> NameLength(q + rest, room) == room
    decreases |q|
  {
    if q == "" {
      assert q + rest == rest;
    } else if room > 0 && q[0] != '/' {
      assert (q + rest)[1..] == q[1..] + rest;
      GluedLength(q[1..], rest, room - 1);
    }
  }

  /** A path that only begins like the target is served by it, cut inside a component. */
  lemma GluedExample()
    ensures !CleanCut("/mnt", "/mntfoo") && Names("/mntfoo") != Names("/mnt") + Names("foo")
  {
    NamesUnfold("/mnt");
    MountSplit("/mnt", "/mntfoo");
  }
}
