/** Path names: how a walk cuts a path into components, and dirname/basename. */
module Paths {
  const NAME_MAX: nat := 255
  const PATH_MAX: nat := 1024

  // ---- what a path means ----

  function SkipSlashes(p: string): (q: string)
    ensures |q| <= |p| && (q != "" ==> q[0] != '/')
  {
    if p != "" && p[0] == '/' then SkipSlashes(p[1..]) else p
  }

  /** Length of the leading component, cut off at `room` characters. */
  function NameLength(p: string, room: nat): (n: nat)
    ensures n <= |p| && n <= room && (room > 0 && p != "" && p[0] != '/' ==> n > 0)
  {
    if p == "" || p[0] == '/' || room == 0 then 0 else 1 + NameLength(p[1..], room - 1)
  }

  /** The components a walk reads.  One longer than NAME_MAX is read in pieces. */
  function Names(p: string): seq<string>
    decreases |p|
  {
    var q := SkipSlashes(p);
    if q == "" then [] else [q[..NameLength(q, NAME_MAX)]] + Names(q[NameLength(q, NAME_MAX)..])
  }

  /** "." and ".." are read and ignored. */
  predicate Ignored(name: string) { name == "." || name == ".." }

  function Keep(names: seq<string>): seq<string> {
    if names == [] then [] else (if Ignored(names[0]) then [] else [names[0]]) + Keep(names[1..])
  }

  /** The directory look-ups a path asks for. */
  function Steps(p: string): seq<string> { Keep(Names(p)) }

  lemma {:induction false} KeepAppend(a: seq<string>, b: seq<string>)
    ensures Keep(a + b) == Keep(a) + Keep(b)
  {
    if a == [] {
      assert a + b == b;
    } else {
      KeepAppend(a[1..], b);
      assert (a + b)[1..] == a[1..] + b;
      var first := if Ignored(a[0]) then [] else [a[0]];
      assert Keep(a + b) == first + (Keep(a[1..]) + Keep(b)) == first + Keep(a[1..]) + Keep(b);
    }
  }

  predicate NoSlash(p: string) { forall i :: 0 <= i < |p| ==> p[i] != '/' }

  lemma {:induction false} NameLengthNoSlash(p: string, room: nat)
    requires NoSlash(p)
    ensures NameLength(p, room) == if |p| <= room then |p| else room
  {
    if p != "" && room > 0 { NameLengthNoSlash(p[1..], room - 1); }
  }

  /** A component stops at a slash, whatever follows it. */
  lemma {:induction false} NameLengthAppend(p: string, rest: string, room: nat)
    requires rest != "" && rest[0] == '/'
    ensures NameLength(p + rest, room) == NameLength(p, room)
  {
    if p == "" {
      assert p + rest == rest;
    } else {
      assert (p + rest)[0] == p[0] && (p + rest)[1..] == p[1..] + rest;
      if p[0] != '/' && room > 0 { NameLengthAppend(p[1..], rest, room - 1); }
    }
  }

  lemma {:induction false} SkipSlashesAppend(p: string, rest: string)
    ensures SkipSlashes(p + rest) == if SkipSlashes(p) == "" then SkipSlashes(rest) else SkipSlashes(p) + rest
  {
    if p == "" {
      assert p + rest == rest;
    } else {
      assert (p + rest)[0] == p[0] && (p + rest)[1..] == p[1..] + rest;
      if p[0] == '/' { SkipSlashesAppend(p[1..], rest); }
    }
  }

  /** Walking `d/b` reads the components of `d`, then those of `b`. */
  lemma {:induction false} NamesJoin(d: string, b: string)
    ensures Names(d + "/" + b) == Names(d) + Names(b)
    decreases |d|
  {
    hide Names, NameLength;
    var rest := "/" + b;
    assert d + "/" + b == d + rest;
    SkipSlashesAppend(d, rest);
    assert rest[1..] == b;
    var q := SkipSlashes(d);
    if q == "" {
      assert SkipSlashes(rest) == SkipSlashes(b);
      NamesUnfold(d);
      NamesUnfold(d + rest);
      NamesUnfold(b);
    } else {
      JoinStep(q, b);
      assert q + "/" + b == q + rest;
      var n := NameLength(q, NAME_MAX);
      NamesJoin(q[n..], b);
      NamesUnfold(d);
      NamesUnfold(d + rest);
      assert [q[..n]] + (Names(q[n..]) + Names(b)) == [q[..n]] + Names(q[n..]) + Names(b);
    }
  }

  lemma NamesUnfold(p: string)
    ensures Names(p) == var q := SkipSlashes(p);
      if q == "" then [] else [q[..NameLength(q, NAME_MAX)]] + Names(q[NameLength(q, NAME_MAX)..])
  {}

  lemma JoinStep(q: string, b: string)
    ensures var n := NameLength(q, NAME_MAX);
      && NameLength(q + "/" + b, NAME_MAX) == n
      && (q + "/" + b)[..n] == q[..n] && (q + "/" + b)[n..] == q[n..] + "/" + b
  {
    assert q + "/" + b == q + ("/" + b);
    NameLengthAppend(q, "/" + b, NAME_MAX);
  }

  lemma NamesSkip(p: string)
    ensures Names(p) == Names(SkipSlashes(p)) && Steps(p) == Steps(SkipSlashes(p))
  {
    SkipTwice(p);
  }

  lemma {:induction false} SkipTwice(p: string)
    ensures SkipSlashes(SkipSlashes(p)) == SkipSlashes(p)
  {
    if p != "" && p[0] == '/' { SkipTwice(p[1..]); }
  }

  /** A plain name is one component; a name over NAME_MAX is read as pieces. */
  lemma NamesOfName(b: string)
    requires NoSlash(b) && b != ""
    ensures |b| <= NAME_MAX ==> Names(b) == [b]
    ensures |b| > NAME_MAX ==> Names(b) == [b[..NAME_MAX]] + Names(b[NAME_MAX..])
  {
    NameLengthNoSlash(b, NAME_MAX);
    if |b| <= NAME_MAX {
      assert b[..|b|] == b && b[|b|..] == "";
    }
  }

  // ---- dirname and basename ----

  function LastSlash(p: string): (i: int)
    ensures -1 <= i < |p|
    ensures i >= 0 ==> p[i] == '/' && NoSlash(p[i + 1..])
    ensures i < 0 ==> NoSlash(p)
  {
    if p == "" then -1
    else if p[|p| - 1] == '/' then |p| - 1
    else LastSlash(p[..|p| - 1])
  }

  function Cut(s: string, len: nat): string
    requires len > 0
  {
    if |s| >= len then s[..len - 1] else s
  }

  function Dirname(p: string, len: nat): string
    requires len >= 2
  {
    var i := LastSlash(p);
    if i < 0 then "." else if i == 0 then "/" else Cut(p[..i], len)
  }

  function Basename(p: string, len: nat): string
    requires len >= 1
  {
    Cut(p[LastSlash(p) + 1..], len)
  }

  /** strrchr for '/': the last match while scanning forward, or -1. */
  method FindLastSlash(p: string) returns (last: int)
    ensures last == LastSlash(p)
  {
    last := -1;
    var i := 0;
    while i < |p|
      invariant i <= |p| && last == LastSlash(p[..i])
    {
      assert p[..i + 1][..i] == p[..i];
      if p[i] == '/' { last := i; }
      i := i + 1;
    }
    assert p[..|p|] == p;
  }

  method PathDirname(p: string, len: nat) returns (r: int, out: string)
    ensures if len < 2 then r == -1 else r == 0 && out == Dirname(p, len) && |out| < len
  {
    hide LastSlash;
    if len < 2 { return -1, ""; }
    var last := FindLastSlash(p);
    if last < 0 { return 0, "."; }
    if last == 0 { return 0, "/"; }
    var dlen := last;
    if dlen >= len { dlen := len - 1; }
    return 0, p[..dlen];
  }

  method PathBasename(p: string, len: nat) returns (r: int, out: string)
    ensures if len < 1 then r == -1 else r == 0 && out == Basename(p, len) && |out| < len
  {
    hide LastSlash, NoSlash;
    if len < 1 { return -1, ""; }
    var last := FindLastSlash(p);
    out := p[last + 1..];
    if |out| >= len { out := out[..len - 1]; }
    r := 0;
  }

  /** Path-split coherence on names: a path that fits the buffers asks for the look-ups of its
      dirname, then those of its basename. */
  lemma SplitSteps(p: string)
    requires |p| < PATH_MAX
    ensures Steps(p) == Steps(Dirname(p, PATH_MAX)) + Steps(Basename(p, PATH_MAX))
  {
    hide Names, LastSlash;
    var i := LastSlash(p);
    var base := Basename(p, PATH_MAX);
    if i < 0 {
      assert base == p;
      NamesOfName(".");
    } else {
      var dir := if i == 0 then "" else p[..i];
      assert p == dir + "/" + base;
      NamesJoin(dir, base);
      KeepAppend(Names(dir), Names(base));
      if i == 0 { SlashOnly(); }
    }
  }

  lemma SlashOnly()
    ensures Names("/") == [] == Names("")
  {
    assert "/"[1..] == "";
    assert SkipSlashes("/") == "";
  }

  /** ... and a proper final name of at most NAME_MAX characters is one look-up. */
  lemma FinalStep(p: string)
    requires |p| < PATH_MAX
    requires var b := Basename(p, PATH_MAX); b != "" && !Ignored(b) && |b| <= NAME_MAX
    ensures Steps(p) == Steps(Dirname(p, PATH_MAX)) + [Basename(p, PATH_MAX)]
  {
    var b := Basename(p, PATH_MAX);
    SplitSteps(p);
    NamesOfName(b);
    assert [b][1..] == [];
    assert Keep([b]) == [b];
  }

  lemma {:induction false} NamesShort(p: string)
    ensures forall i :: 0 <= i < |Names(p)| ==> |Names(p)[i]| <= NAME_MAX
    decreases |p|
  {
    var q := SkipSlashes(p);
    if q != "" { NamesShort(q[NameLength(q, NAME_MAX)..]); }
  }

  lemma {:induction false} KeepShort(names: seq<string>)
    requires forall i :: 0 <= i < |names| ==> |names[i]| <= NAME_MAX
    ensures forall i :: 0 <= i < |Keep(names)| ==> |Keep(names)[i]| <= NAME_MAX
  {
    if names != [] { KeepShort(names[1..]); }
  }

  /** dirname and basename of every kind of path that fits the buffers. */
  lemma PathParts(d: string, b: string)
    requires NoSlash(b) && |d| < PATH_MAX && |b| < PATH_MAX
    ensures Dirname(b, PATH_MAX) == "." && Basename(b, PATH_MAX) == b
    ensures Dirname("/" + b, PATH_MAX) == "/" && Basename("/" + b, PATH_MAX) == b
    ensures d != "" ==> Dirname(d + "/" + b, PATH_MAX) == d && Basename(d + "/" + b, PATH_MAX) == b
  {
    hide LastSlash, NoSlash;
    SlashAt("", b);
    SlashAt(d, b);
    NoSlashAt(b);
    assert "" + "/" + b == "/" + b && b[0..] == b;
  }

  lemma NoSlashAt(b: string)
    requires NoSlash(b)
    ensures LastSlash(b) == -1
  {
    hide LastSlash;
  }

  lemma SlashAt(d: string, b: string)
    requires NoSlash(b)
    ensures LastSlash(d + "/" + b) == |d| && (d + "/" + b)[..|d|] == d && (d + "/" + b)[|d| + 1..] == b
  {
    hide LastSlash;
    var p := d + "/" + b;
    assert p[|d|] == '/' && p[|d| + 1..] == b && p[..|d|] == d;
    LastSlashAt(d, b);
  }

  lemma {:induction false} LastSlashAt(d: string, b: string)
    requires NoSlash(b)
    ensures LastSlash(d + "/" + b) == |d|
    decreases |b|
  {
    var path := d + "/" + b;
    if b != "" {
      var n := |b| - 1;
      assert path[..|path| - 1] == d + "/" + b[..n] && path[|path| - 1] == b[n];
      LastSlashAt(d, b[..n]);
    }
  }

  /** "..", like ".", leads nowhere: what comes after it is looked up where the walk is. */
  lemma DotDotIgnored(p: string, q: string)
    ensures Steps(p + "/../" + q) == Steps(p) + Steps(q)
    ensures Steps(p + "/./" + q) == Steps(p) + Steps(q)
    ensures Steps(p + "/" + q) == Steps(p) + Steps(q)
  {
    hide Names, Keep;
    NamesJoin(p, q);
    KeepAppend(Names(p), Names(q));
    DotsBetween(p, "..", q);
    DotsBetween(p, ".", q);
    assert "/" + ".." + "/" == "/../" && "/" + "." + "/" == "/./";
    Glue(p, "/", "..", "/", q);
    Glue(p, "/", ".", "/", q);
  }

  lemma Glue(p: string, a: string, b: string, c: string, q: string)
    ensures p + (a + b + c) + q == p + a + b + c + q
  {
    assert p + (a + b + c) == p + a + b + c;
  }

  lemma DotsBetween(p: string, dots: string, q: string)
    requires Ignored(dots)
    ensures Steps(p + "/" + dots + "/" + q) == Steps(p) + Steps(q)
  {
    hide Names, Keep;
    NamesJoin(p + "/" + dots, q);
    NamesJoin(p, dots);
    NamesOfName(dots);
    KeepAppend(Names(p) + [dots], Names(q));
    KeepAppend(Names(p), [dots]);
    KeepOne(dots);
    assert Keep(Names(p)) + [] == Keep(Names(p));
  }

  /** When the last name of a path is read as one component: it fits the buffer, or
      what is left over is "." or "..". */
  predicate ReadWhole(b: string) { |b| <= NAME_MAX || Ignored(b[NAME_MAX..]) }

  /** The look-ups of a name: none, itself, or first its clipped form. */
  lemma StepsOfName(b: string)
    requires NoSlash(b)
    ensures b == "" || Ignored(b) ==> Steps(b) == []
    ensures b != "" && !Ignored(b) && |b| <= NAME_MAX ==> Steps(b) == [b]
    ensures |b| > NAME_MAX && ReadWhole(b) ==> Steps(b) == [b[..NAME_MAX]]
    ensures !ReadWhole(b) ==> |Steps(b)| > 1 && Steps(b)[0] == b[..NAME_MAX]
  {
    if b != "" {
      NamesOfName(b);
      if |b| <= NAME_MAX {
        KeepOne(b);
      } else {
        var rest := b[NAME_MAX..];
        KeepAppend([b[..NAME_MAX]], Names(rest));
        KeepOne(b[..NAME_MAX]);
        NamesOfName(rest);
        if |rest| <= NAME_MAX {
          KeepOne(rest);
        } else {
          KeepAppend([rest[..NAME_MAX]], Names(rest[NAME_MAX..]));
          KeepOne(rest[..NAME_MAX]);
        }
      }
    }
  }

  lemma KeepOne(name: string)
    ensures Keep([name]) == if Ignored(name) then [] else [name]
  {
    assert [name][1..] == [];
  }
}
