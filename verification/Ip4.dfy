/** Dotted-quad addresses: printing through the buffer printf, parsing, and what comes back. */
module Ip4 {
  import opened Basics
  import opened Numerals
  import opened PrintfSpec
  import Printf

  type Octet = n: nat | n < 256

  function Address(o: seq<Octet>): (ip: Word32)
    requires |o| == 4
  {
    var a: int, b: int, c: int, d: int := o[0], o[1], o[2], o[3];
    a * 0x100_0000 + b * 0x1_0000 + c * 0x100 + d
  }

  function Octets(ip: Word32): (o: seq<Octet>)
    ensures |o| == 4
  {
    [ip / 0x100_0000 % 256, ip / 0x1_0000 % 256, ip / 0x100 % 256, ip % 256]
  }

  /** Octets count from the left: the larger first differing octet makes the larger address. */
  lemma AddressOrder(o: seq<Octet>, o': seq<Octet>, k: nat)
    requires |o| == |o'| == 4 && k < 4 && o[k] < o'[k] && forall j :: 0 <= j < k ==> o[j] == o'[j]
    ensures Address(o) < Address(o')
  {
    var a: int, b: int, c: int, d: int := o[0], o[1], o[2], o[3];
    var a': int, b': int, c': int, d': int := o'[0], o'[1], o'[2], o'[3];
    assert k == 0 || k == 1 || k == 2 || k == 3;
  }

  lemma AddressExample()
    ensures Address([192, 168, 0, 1]) == 0xC0A8_0001 && Octets(0xC0A8_0001) == [192, 168, 0, 1]
  {}

  lemma OctetsAddress(ip: Word32)
    ensures Address(Octets(ip)) == ip
  {
    assert ip / 0x100_0000 % 256 == ip / 0x100_0000;
    assert ip == ip / 0x100 * 0x100 + ip % 256;
    assert ip / 0x100 == ip / 0x1_0000 * 0x100 + ip / 0x100 % 256;
    assert ip / 0x1_0000 == ip / 0x100_0000 * 0x100 + ip / 0x1_0000 % 256;
  }

  // ---- printing ----

  /** Four decimal numerals with dots between. */
  function Joined(parts: seq<string>): string {
    if parts == [] then "" else if |parts| == 1 then parts[0] else parts[0] + "." + Joined(parts[1..])
  }

  function Numerals4(o: seq<Octet>): (p: seq<string>)
    requires |o| == 4
    ensures |p| == 4
  {
    [Numeral(o[0], 10), Numeral(o[1], 10), Numeral(o[2], 10), Numeral(o[3], 10)]
  }

  function Dotted(ip: Word32): string { Joined(Numerals4(Octets(ip))) }

  const FMT: CString := "%u.%u.%u.%u"

  lemma NumberTurn(i: nat, args: seq<Arg>, k: nat)
    requires i in {0, 3, 6, 9} && k < |args| && args[k].Word?
    ensures Output(FMT, i, args, k, false) == Numeral(args[k].w, 10) + Output(FMT, i + 2, args, k + 1, false)
    ensures WellFormed(FMT, i + 2, args, k + 1, false) ==> WellFormed(FMT, i, args, k, false)
  {
    hide Output, WellFormed, SpecAt, Numeral;
    PlainSpec(i);
    UnsignedTurn(FMT, i, args, k);
  }

  lemma UnsignedTurn(fmt: CString, i: nat, args: seq<Arg>, k: nat)
    requires i + 1 < |fmt| && fmt[i] == '%' && fmt[i + 1] == 'u' && SpecAt(fmt, i + 1) == Spec(i + 1, false)
    requires k < |args| && args[k].Word?
    ensures Output(fmt, i, args, k, false) == Numeral(args[k].w, 10) + Output(fmt, i + 2, args, k + 1, false)
    ensures WellFormed(fmt, i + 2, args, k + 1, false) ==> WellFormed(fmt, i, args, k, false)
  {
    hide SpecAt, Numeral;
  }

  lemma PlainSpec(i: nat)
    requires i in {0, 3, 6, 9}
    ensures |FMT| == 11 && FMT[i] == '%' && FMT[i + 1] == 'u' && SpecAt(FMT, i + 1) == Spec(i + 1, false)
  {}

  lemma DotTurn(i: nat, args: seq<Arg>, k: nat)
    requires i in {2, 5, 8}
    ensures Output(FMT, i, args, k, false) == "." + Output(FMT, i + 1, args, k, false)
    ensures WellFormed(FMT, i + 1, args, k, false) ==> WellFormed(FMT, i, args, k, false)
  {
    assert |FMT| == 11 && FMT[i] == '.';
  }

  function ArgsOf(o: seq<Octet>): (a: seq<Arg>)
    requires |o| == 4
    ensures |a| == 4 && forall k :: 0 <= k < 4 ==> a[k] == Word(o[k])
  {
    [Word(o[0]), Word(o[1]), Word(o[2]), Word(o[3])]
  }

  lemma DottedOutput(o: seq<Octet>)
    requires |o| == 4
    ensures WellFormed(FMT, 0, ArgsOf(o), 0, false) && Output(FMT, 0, ArgsOf(o), 0, false) == Joined(Numerals4(o))
  {
    hide Output, WellFormed, Numeral;
    var a, p := ArgsOf(o), Numerals4(o);
    Printf.AtEnd(FMT, 11, a, 4, false);
    EndWellFormed(a);
    NumberTurn(9, a, 3);
    DotTurn(8, a, 3);
    NumberTurn(6, a, 2);
    DotTurn(5, a, 2);
    NumberTurn(3, a, 1);
    DotTurn(2, a, 1);
    NumberTurn(0, a, 0);
    JoinedFour(p);
    var t2, t1 := p[2] + ("." + (p[3] + "")), p[1] + ("." + (p[2] + ("." + (p[3] + ""))));
    assert t2 == p[2] + "." + p[3];
    assert t1 == p[1] + "." + t2;
    assert p[0] + ("." + t1) == p[0] + "." + t1;
  }

  lemma EndWellFormed(a: seq<Arg>)
    ensures WellFormed(FMT, 11, a, 4, false)
  {
    assert |FMT| == 11;
  }

  lemma JoinedFour(p: seq<string>)
    requires |p| == 4
    ensures Joined(p) == p[0] + "." + (p[1] + "." + (p[2] + "." + p[3]))
  {
    assert p[1..][1..] == p[2..] && p[2..][1..] == p[3..];
    assert Joined(p[3..]) == p[3];
    assert Joined(p[2..]) == p[2] + "." + p[3];
    assert Joined(p[1..]) == p[1] + "." + Joined(p[2..]);
  }

  lemma OctetLength(v: Octet)
    ensures |Numeral(v, 10)| <= 3
  {
    assert Power(8, 3) == 512 by { PowerAdd(8, 1, 2); PowerAdd(8, 1, 1); }
    DigitsLength(v, 10, 8, 3);
  }

  /** Print an address: never truncated by the 16-character buffer. */
  method ToStr(ip: Word32, buf: array<char>) returns (r: nat)
    requires buf.Length == 16
    modifies buf
    ensures r == |Dotted(ip)| < 16 && buf[..r] == Dotted(ip) && buf[r] == '\0'
  {
    hide Output, WellFormed, Numeral;
    var o := Octets(ip);
    DottedOutput(o);
    OctetLength(o[0]);
    OctetLength(o[1]);
    OctetLength(o[2]);
    OctetLength(o[3]);
    JoinedFour(Numerals4(o));
    r := Printf.Kvsnprintf(buf, 16, FMT, ArgsOf(o));
  }

  // ---- parsing ----

  function Span(s: string): (n: nat)
    ensures n <= |s| && (forall i :: 0 <= i < n ==> IsDigit(s[i])) && (n < |s| ==> !IsDigit(s[n]))
  {
    if s != "" && IsDigit(s[0]) then 1 + Span(s[1..]) else 0
  }

  function Wrapped(s: string): Octet { Value(s, 10) % 256 }

  /** What the parser's loop does with the rest of the text and the octets read so far. */
  function ParseFrom(s: string, o: seq<Octet>): (r: Option<seq<Octet>>)
    requires |o| <= 4
    ensures r.Some? ==> |r.value| == 4
    decreases |s|
  {
    if s == "" || |o| == 4 then if |o| == 4 then Some(o) else None
    else if !IsDigit(s[0]) then None
    else
      var n := Span(s);
      var o' := o + [Wrapped(s[..n])];
      if n < |s| && s[n] == '.' then ParseFrom(s[n + 1..], o')
      else if n == |s| && |o'| == 4 then Some(o')
      else None
  }

  /** `s` starts with these digit strings, dots between; anything may follow one more dot. */
  ghost predicate Splits(s: string, parts: seq<string>) {
    parts != [] && parts[0] != "" && IsDigits(parts[0], 10) && parts[0] <= s &&
    var n := |parts[0]|;
    if |parts| == 1 then n < |s| ==> s[n] == '.'
    else n < |s| && s[n] == '.' && Splits(s[n + 1..], parts[1..])
  }

  function Wraps(parts: seq<string>): (o: seq<Octet>)
    ensures |o| == |parts|
  {
    if parts == [] then [] else [Wrapped(parts[0])] + Wraps(parts[1..])
  }

  lemma FirstPart(s: string, parts: seq<string>)
    requires Splits(s, parts)
    ensures s != "" && IsDigit(s[0]) && Span(s) == |parts[0]| && s[..Span(s)] == parts[0]
  {
    var n := |parts[0]|;
    assert forall i :: 0 <= i < n ==> s[i] == parts[0][i] && IsDigit(s[i]);
    assert n < |s| ==> !IsDigit(s[n]);
  }

  lemma WrapsNext(o: seq<Octet>, parts: seq<string>)
    requires parts != []
    ensures o + Wraps(parts) == o + [Wrapped(parts[0])] + Wraps(parts[1..])
    ensures |parts| == 1 ==> o + Wraps(parts) == o + [Wrapped(parts[0])]
  {
    hide Wrapped;
    Regroup(o, [Wrapped(parts[0])], Wraps(parts[1..]));
    assert |parts| == 1 ==> Wraps(parts[1..]) == [];
  }

  lemma Regroup(a: seq<Octet>, b: seq<Octet>, c: seq<Octet>)
    ensures a + (b + c) == a + b + c
  {
  }

  /** A text that is accepted splits into the parts still missing. */
  lemma {:induction false} ParseSound(s: string, o: seq<Octet>) returns (parts: seq<string>)
    requires |o| < 4 && ParseFrom(s, o).Some?
    ensures |parts| == 4 - |o| && Splits(s, parts) && ParseFrom(s, o).value == o + Wraps(parts)
    decreases |s|
  {
    hide Wrapped, Wraps, IsDigits, Span;
    var n := Span(s);
    var d := s[..n];
    SpanPositive(s);
    SpanDigits(s);
    if n < |s| && s[n] == '.' && |o| < 3 {
      var rest := ParseSound(s[n + 1..], o + [Wrapped(d)]);
      parts := [d] + rest;
      assert parts[1..] == rest;
    } else {
      parts := [d];
    }
    WrapsNext(o, parts);
  }

  lemma SpanDigits(s: string)
    ensures IsDigits(s[..Span(s)], 10)
  {
  }

  /** A text that splits into the parts still missing is accepted. */
  lemma {:induction false} ParseComplete(s: string, o: seq<Octet>, parts: seq<string>)
    requires |o| + |parts| == 4 && Splits(s, parts)
    ensures ParseFrom(s, o) == Some(o + Wraps(parts))
    decreases |parts|
  {
    hide Wrapped, Wraps, IsDigits, Span;
    FirstPart(s, parts);
    WrapsNext(o, parts);
    var n := Span(s);
    if |parts| > 1 {
      ParseComplete(s[n + 1..], o + [Wrapped(parts[0])], parts[1..]);
    }
  }

  lemma {:induction false} SplitsUnique(s: string, p: seq<string>, q: seq<string>)
    requires Splits(s, p) && Splits(s, q) && |p| == |q|
    ensures p == q
    decreases |p|
  {
    FirstPart(s, p);
    FirstPart(s, q);
    if |p| > 1 { SplitsUnique(s[|p[0]| + 1..], p[1..], q[1..]); }
  }

  function Parsed(s: string): Option<Word32> {
    var r := ParseFrom(s, []);
    if r.Some? then Some(Address(r.value)) else None
  }

  /** What is accepted, and as what: four digit strings with dots between, each modulo 256;
      text after a fourth dot is ignored. */
  lemma ParsedIff(s: string, ip: Word32)
    ensures Parsed(s) == Some(ip) <==> exists parts :: |parts| == 4 && Splits(s, parts) && Address(Wraps(parts)) == ip
  {
    if ParseFrom(s, []).Some? {
      var parts := ParseSound(s, []);
      assert [] + Wraps(parts) == Wraps(parts);
    }
    forall parts | |parts| == 4 && Splits(s, parts) ensures Parsed(s) == Some(Address(Wraps(parts))) {
      ParseComplete(s, [], parts);
      assert [] + Wraps(parts) == Wraps(parts);
    }
  }

  lemma AddDigit(v: nat, d: nat)
    ensures (v % 256 * 10 + d) % 256 == (v * 10 + d) % 256
  {
    var q := v / 256;
    assert v * 10 + d == (v % 256 * 10 + d) + 256 * (10 * q);
    ModDrop(v % 256 * 10 + d, 10 * q);
  }

  lemma ModDrop(a: nat, q: nat)
    ensures (a + 256 * q) % 256 == a % 256
  {
    assert a + 256 * q == 256 * (a / 256 + q) + a % 256;
  }

  lemma SpanFrom(s: string, start: nat, pos: nat)
    requires start <= pos <= |s| && (forall i :: start <= i < pos ==> IsDigit(s[i])) && (pos < |s| ==> !IsDigit(s[pos]))
    ensures Span(s[start..]) == pos - start
  {
  }

  /** One octet: an 8-bit accumulator over a run of digits. */
  method ReadOctet(s: string, start: nat) returns (octet: Octet, pos: nat)
    requires start <= |s|
    ensures pos == start + Span(s[start..]) <= |s| && octet == Wrapped(s[start..pos])
  {
    hide Span, Value;
    octet, pos := 0, start;
    ValueSnoc("", '0', 10);
    assert s[start..start] == "";
    while pos < |s| && IsDigit(s[pos])
      invariant start <= pos <= |s| && (forall i :: start <= i < pos ==> IsDigit(s[i]))
      invariant octet == Value(s[start..pos], 10) % 256
    {
      ValueSnoc(s[start..pos], s[pos], 10);
      assert s[start..pos] + [s[pos]] == s[start..pos + 1];
      AddDigit(Value(s[start..pos], 10), (s[pos] - '0') as nat);
      var was: int := octet;
      octet := (was * 10 + (s[pos] - '0') as int) % 256;
      pos := pos + 1;
    }
    SpanFrom(s, start, pos);
  }

  /** Parse an address. */
  method Parse(s: string) returns (ip: Option<Word32>)
    ensures ip == Parsed(s)
  {
    hide Span, Value, Wrapped, Address;
    var octets: seq<Octet>, pos: nat := [], 0;
    assert s[0..] == s;
    while pos < |s| && |octets| < 4
      invariant pos <= |s| && |octets| <= 4 && ParseFrom(s[pos..], octets) == ParseFrom(s, [])
      decreases |s| - pos
    {
      if !IsDigit(s[pos]) { return None; }
      var start := pos;
      var octet;
      octet, pos := ReadOctet(s, start);
      SpanPositive(s[start..]);
      assert s[start..][..pos - start] == s[start..pos];
      assert pos < |s| ==> s[start..][pos - start + 1..] == s[pos + 1..];
      octets := octets + [octet];
      if pos < |s| && s[pos] == '.' { pos := pos + 1; }
      else if pos == |s| && |octets| == 4 { break; }
      else { return None; }
    }
    if |octets| != 4 { return None; }
    return Some(Address(octets));
  }

  lemma SpanPositive(s: string)
    requires s != "" && IsDigit(s[0])
    ensures Span(s) > 0
  {
  }

  // ---- round trips ----

  lemma OwnNumeral(v: Octet)
    ensures IsDigits(Numeral(v, 10), 10) && Wrapped(Numeral(v, 10)) == v
  {
    hide Numeral, Value, IsDigits;
    NumeralUnique(v, 10, "");
  }

  lemma JoinedSplits(o: seq<Octet>)
    requires |o| == 4
    ensures Splits(Joined(Numerals4(o)), Numerals4(o)) && Wraps(Numerals4(o)) == o
  {
    hide Numeral, Value, IsDigits, Wrapped, Wraps, Joined, Splits;
    var p := Numerals4(o);
    forall k | 0 <= k < 4 ensures p[k] != "" && IsDigits(p[k], 10) && Wrapped(p[k]) == o[k] {
      OwnNumeral(o[k]);
    }
    JoinedSplit(p[3..]);
    assert p[2..][1..] == p[3..] && p[1..][1..] == p[2..];
    JoinedSplit(p[2..]);
    JoinedSplit(p[1..]);
    JoinedSplit(p);
    WrapFour(p[0], p[1], p[2], p[3]);
    assert p == [p[0], p[1], p[2], p[3]];
  }

  lemma JoinedSplit(p: seq<string>)
    requires p != [] && p[0] != "" && IsDigits(p[0], 10) && (|p| > 1 ==> Splits(Joined(p[1..]), p[1..]))
    ensures Splits(Joined(p), p)
  {
    hide IsDigits;
    if |p| > 1 {
      assert Joined(p)[|p[0]| + 1..] == Joined(p[1..]);
    }
  }

  /** Parsing what was printed gives the address back, for every address. */
  lemma PrintThenParse(ip: Word32)
    ensures Parsed(Dotted(ip)) == Some(ip)
  {
    JoinedSplits(Octets(ip));
    OctetsAddress(ip);
    ParsedIff(Dotted(ip), ip);
  }

  /** A part that is its own numeral: below 256, no leading zero. */
  predicate Canonical(part: string) {
    Value(part, 10) < 256 && (|part| > 1 ==> part[0] != '0')
  }

  /** Printing what was parsed gives the text back exactly when nothing follows the fourth part
      and every part is canonical. */
  lemma ParseThenPrint(s: string, parts: seq<string>)
    requires |parts| == 4 && Splits(s, parts)
    ensures Parsed(s) == Some(Address(Wraps(parts)))
    ensures Dotted(Address(Wraps(parts))) == s <==> s == Joined(parts) && forall k :: 0 <= k < 4 ==> Canonical(parts[k])
  {
    hide Value, IsDigits, Numeral, Joined;
    var o := Wraps(parts);
    ParsedIff(s, Address(o));
    AddressOctets(o);
    JoinedSplits(o);
    WrapsAt(s, parts);
    forall k | 0 <= k < 4 ensures parts[k] == Numerals4(o)[k] <==> Canonical(parts[k]) { PartIsNumeral(parts[k]); }
    if Joined(Numerals4(o)) == s { SplitsUnique(s, parts, Numerals4(o)); }
    if forall k :: 0 <= k < 4 ==> Canonical(parts[k]) { assert parts == Numerals4(o); }
  }

  lemma PartIsNumeral(part: string)
    requires part != "" && IsDigits(part, 10)
    ensures part == Numeral(Wrapped(part), 10) <==> Canonical(part)
  {
    hide Value, IsDigits, Numeral;
    NumeralUnique(Wrapped(part), 10, part);
  }

  lemma {:induction false} WrapsAt(s: string, parts: seq<string>)
    requires Splits(s, parts)
    ensures forall k :: 0 <= k < |parts| ==>
      parts[k] != "" && IsDigits(parts[k], 10) && Wraps(parts)[k] == Wrapped(parts[k])
    decreases |parts|
  {
    hide Wrapped, IsDigits;
    if |parts| > 1 { WrapsAt(s[|parts[0]| + 1..], parts[1..]); }
  }

  lemma AddressOctets(o: seq<Octet>)
    requires |o| == 4
    ensures Octets(Address(o)) == o
  {
    var a: int, b: int, c: int, d: int := o[0], o[1], o[2], o[3];
    var ip: int := Address(o);
    assert ip == (a * 0x1_0000 + b * 0x100 + c) * 0x100 + d;
    assert ip / 0x100 == a * 0x1_0000 + b * 0x100 + c;
    assert ip / 0x1_0000 == a * 0x100 + b;
    assert ip / 0x100_0000 == a;
  }

  /** What follows an accepted text after a dot is ignored, whatever it is. */
  lemma TrailingIgnored(s: string, junk: string, ip: Word32)
    requires Parsed(s) == Some(ip)
    ensures Parsed(s + "." + junk) == Some(ip)
  {
    hide Parsed, Splits, Address, Wraps;
    ParsedIff(s, ip);
    var parts :| |parts| == 4 && Splits(s, parts) && Address(Wraps(parts)) == ip;
    SplitsExtends(s, junk, parts);
    ParsedIff(s + "." + junk, ip);
  }

  lemma {:induction false} SplitsExtends(s: string, junk: string, parts: seq<string>)
    requires Splits(s, parts)
    ensures Splits(s + "." + junk, parts)
    decreases |parts|
  {
    hide IsDigits;
    if |parts| > 1 {
      var n := |parts[0]|;
      SplitsExtends(s[n + 1..], junk, parts[1..]);
      assert (s + "." + junk)[n + 1..] == s[n + 1..] + "." + junk;
    }
  }

  lemma LastPart(d: string)
    requires d != "" && IsDigits(d, 10)
    ensures Splits(d, [d])
  {
  }

  lemma PartBefore(d: string, s: string, parts: seq<string>)
    requires d != "" && IsDigits(d, 10) && Splits(s, parts)
    ensures Splits(d + "." + s, [d] + parts)
  {
    hide IsDigits;
    assert (d + "." + s)[|d| + 1..] == s && ([d] + parts)[1..] == parts;
  }

  lemma Parts256()
    ensures Splits("256.0.0.1", ["256", "0", "0", "1"])
  {
    hide Splits;
    LastPart("1");
    PartBefore("0", "1", ["1"]);
    PartBefore("0", "0" + "." + "1", ["0"] + ["1"]);
    PartBefore("256", "0" + "." + ("0" + "." + "1"), ["0"] + (["0"] + ["1"]));
    assert "256" + "." + ("0" + "." + ("0" + "." + "1")) == "256.0.0.1";
    assert ["256"] + (["0"] + (["0"] + ["1"])) == ["256", "0", "0", "1"];
  }

  lemma Value256()
    ensures Value("256", 10) == 256 && Value("0", 10) == 0 && Value("1", 10) == 1
  {
    hide Value, IsDigits;
    ValueSnoc("", '2', 10);
    ValueSnoc("" + ['2'], '5', 10);
    ValueSnoc("" + ['2'] + ['5'], '6', 10);
    ValueSnoc("", '0', 10);
    ValueSnoc("", '1', 10);
    assert "" + ['2'] + ['5'] + ['6'] == "256" && "" + ['0'] == "0" && "" + ['1'] == "1";
  }

  lemma Values256()
    ensures Wraps(["256", "0", "0", "1"]) == [0, 0, 0, 1] && !Canonical("256")
  {
    hide Value, Wraps;
    Value256();
    WrapFour("256", "0", "0", "1");
  }

  lemma WrapFour(a: string, b: string, c: string, d: string)
    ensures Wraps([a, b, c, d]) == [Wrapped(a), Wrapped(b), Wrapped(c), Wrapped(d)]
  {
    hide Wrapped;
    assert [a, b, c, d][1..] == [b, c, d] && [b, c, d][1..] == [c, d] && [c, d][1..] == [d];
    assert Wraps([d]) == [Wrapped(d)];
    assert Wraps([c, d]) == [Wrapped(c)] + Wraps([d]);
    assert Wraps([b, c, d]) == [Wrapped(b)] + Wraps([c, d]);
  }

  /** A text that is no address's text is accepted: an octet is reduced modulo 256. */
  lemma OctetWraps()
    ensures Parsed("256.0.0.1") == Some(1) && Dotted(1) != "256.0.0.1"
  {
    hide Splits, Parsed, Dotted, Canonical, Wraps, Joined;
    Parts256();
    Values256();
    var parts := ["256", "0", "0", "1"];
    ParseThenPrint("256.0.0.1", parts);
    assert parts[0] == "256";
  }
}
