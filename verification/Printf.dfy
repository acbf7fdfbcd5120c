/** The console printf and the buffer printf, character by character. */
module Printf {
  import opened Numerals
  import opened PrintfSpec

  // ---- what both share ----

  method SkipNumber(fmt: CString, i: nat) returns (j: nat)
    requires i <= |fmt|
    ensures j == SkipDigits(fmt, i)
  {
    j := i;
    while j < |fmt| && IsDigit(fmt[j])
      invariant i <= j <= |fmt| && SkipDigits(fmt, j) == SkipDigits(fmt, i)
    {
      j := j + 1;
    }
  }

  /** Skip sign, width and precision, and note the length modifier. */
  method SkipSpec(fmt: CString, i: nat) returns (at: nat, long: bool)
    requires i <= |fmt|
    ensures Spec(at, long) == SpecAt(fmt, i)
  {
    at := i;
    if At(fmt, at) == '-' { at := at + 1; }
    at := SkipNumber(fmt, at);
    if At(fmt, at) == '.' { at := SkipNumber(fmt, at + 1); }
    long := false;
    if At(fmt, at) == 'l' { at, long := at + 1, true; }
  }

  const NUMBUF: nat := 64

  /** An unsigned argument, 64 bits wide when the letter had an `l`. */
  method UnsignedText(a: Arg, long: bool, base: Base, numbuf: array<char>)
    requires (if long then a.Wide? else a.Word?) && (base == 10 || base == 16) && numbuf.Length == NUMBUF
    modifies numbuf
    ensures UpToNul(numbuf[..]) == Numeral(Bits(a), base)
  {
    NumeralLength(Bits(a), base, if long then 64 else 32);
    if long { ToStr(a.v, numbuf, 0, base, 64); } else { ToStr(a.w, numbuf, 0, base, 32); }
    NumeralNoNul(Bits(a), base);
    UpToNulIs(numbuf[..], Numeral(Bits(a), base));
  }

  method WordText(w: Word32, numbuf: array<char>, base: Base)
    requires numbuf.Length == NUMBUF && (base == 10 || base == 16)
    modifies numbuf
    ensures UpToNul(numbuf[..]) == Numeral(w, base)
  {
    NumeralLength(w, base, 32);
    ToStr(w, numbuf, 0, base, 32);
    NumeralNoNul(w, base);
    UpToNulIs(numbuf[..], Numeral(w, base));
  }

  method IntToStr(w: Word32, numbuf: array<char>)
    requires numbuf.Length == NUMBUF
    modifies numbuf
    ensures UpToNul(numbuf[..]) == Signed(w)
  {
    if w >= 0x8000_0000 {
      var magnitude := 0x1_0000_0000 - w;
      NumeralLength(magnitude, 10, 32);
      NumeralNoNul(magnitude, 10);
      numbuf[0] := '-';
      ToStr(magnitude, numbuf, 1, 10, 32);
      SignedText(numbuf[..], Numeral(magnitude, 10));
    } else {
      WordText(w, numbuf, 10);
    }
  }

  lemma SignedText(s: seq<char>, t: string)
    requires |t| + 1 < |s| && s[..1] == "-" && s[1..1 + |t|] == t && '\0' !in t && s[1 + |t|] == '\0'
    ensures UpToNul(s) == "-" + t
  {
    assert s[..1][0] == '-';
    assert s[1..][..|t|] == t;
    UpToNulIs(s[1..], t);
  }

  lemma NextChar(s: seq<char>, p: nat)
    requires p < |s|
    ensures UpToNul(s[p..]) == if s[p] == '\0' then "" else [s[p]] + UpToNul(s[p + 1..])
  {
    assert s[p..][1..] == s[p + 1..];
  }

  lemma RestEmpty(s: seq<char>, p: nat)
    requires p == |s| || (p < |s| && s[p] == '\0')
    ensures UpToNul(s[p..]) == ""
  {
  }

  lemma StringIsCString(s: CString, p: nat)
    requires p < |s|
    ensures s[p] != '\0' && s[p..] == [s[p]] + s[p + 1..]
  {
    assert s[p] in s;
  }

  /** One turn: the text so far and the text to come stay the same together. */
  lemma Unfold(fmt: CString, i: nat, args: seq<Arg>, k: nat, pointers: bool, sofar: string)
    requires i < |fmt| && WellFormed(fmt, i, args, k, pointers)
    ensures Stops(fmt, i) ==> Output(fmt, i, args, k, pointers) == ""
    ensures fmt[i] != '%' ==>
      && WellFormed(fmt, i + 1, args, k, pointers)
      && sofar + Output(fmt, i, args, k, pointers) == (sofar + [fmt[i]]) + Output(fmt, i + 1, args, k, pointers)
    ensures !Stops(fmt, i) && fmt[i] == '%' ==>
      var s := SpecAt(fmt, i + 1);
      s.at < |fmt| && ConversionOk(fmt, i, s, args, k, pointers, sofar)
  {
    hide SpecAt, Shown, Suits;
    if !Stops(fmt, i) {
      var t := TurnAt(fmt, i, args, k, pointers);
      var rest := Output(fmt, t.next, args, k + t.used, pointers);
      assert sofar + (t.text + rest) == (sofar + t.text) + rest;
    }
  }

  ghost predicate ConversionOk(fmt: CString, i: nat, s: Spec, args: seq<Arg>, k: nat, pointers: bool, sofar: string)
    requires s.at < |fmt|
  {
    var t := TurnOf(fmt[s.at], 0, args, k, pointers);
    && (Takes(fmt[s.at], pointers) ==> k < |args| && Suits(fmt[s.at], s.long, args[k]))
    && WellFormed(fmt, s.at + 1, args, k + t.used, pointers)
    && sofar + Output(fmt, i, args, k, pointers) == (sofar + t.text) + Output(fmt, s.at + 1, args, k + t.used, pointers)
  }

  lemma AtEnd(fmt: CString, i: nat, args: seq<Arg>, k: nat, pointers: bool)
    requires i >= |fmt|
    ensures Output(fmt, i, args, k, pointers) == ""
  {
  }

  // ---- the console ----

  class Console {
    var out: string

    constructor ()
      ensures out == ""
    {
      out := "";
    }

    method PutChar(c: char)
      modifies this
      ensures out == old(out) + [c]
    {
      out := out + [c];
    }

    /** The loop over a terminated number buffer. */
    method PutNumber(numbuf: array<char>)
      modifies this
      ensures out == old(out) + UpToNul(numbuf[..])
    {
      var p := 0;
      assert numbuf[0..] == numbuf[..];
      while p < numbuf.Length && numbuf[p] != '\0'
        invariant p <= numbuf.Length && out + UpToNul(numbuf[p..]) == old(out) + UpToNul(numbuf[..])
      {
        NextChar(numbuf[..], p);
        PutChar(numbuf[p]);
        assert numbuf[p..] == numbuf[..][p..] && numbuf[p + 1..] == numbuf[..][p + 1..];
        p := p + 1;
      }
    }

    method PutString(s: CString)
      modifies this
      ensures out == old(out) + s
    {
      var p := 0;
      while p < |s|
        invariant p <= |s| && out + s[p..] == old(out) + s
      {
        StringIsCString(s, p);
        PutChar(s[p]);
        p := p + 1;
      }
    }

    /** The switch on the conversion letter. */
    method Convert(c: char, long: bool, args: seq<Arg>, k: nat) returns (used: nat)
      requires Takes(c, true) ==> k < |args| && Suits(c, long, args[k])
      modifies this
      ensures var t := TurnOf(c, 0, args, k, true); out == old(out) + t.text && used == t.used
    {
      hide Numeral, UpToNul, Signed;
      var numbuf := new char[NUMBUF];
      used := 1;
      match c {
        case 'd' | 'i' =>
          IntToStr(args[k].w, numbuf);
          PutNumber(numbuf);
        case 'u' =>
          UnsignedText(args[k], long, 10, numbuf);
          PutNumber(numbuf);
        case 'x' | 'X' =>
          UnsignedText(args[k], long, 16, numbuf);
          PutNumber(numbuf);
        case 'p' =>
          PutChar('0');
          PutChar('x');
          WordText(args[k].w, numbuf, 16);
          PutNumber(numbuf);
        case 'c' =>
          PutChar((args[k].w % 256) as char);
        case 's' =>
          PutString(if args[k].Text? then args[k].s else "(null)");
        case '%' =>
          PutChar('%');
          used := 0;
        case _ =>
          PutChar('?');
          used := 0;
      }
    }

    /** Print a format: everything it means goes to the console. */
    method Kvprintf(fmt: CString, args: seq<Arg>)
      requires WellFormed(fmt, 0, args, 0, true)
      modifies this
      ensures out == old(out) + Output(fmt, 0, args, 0, true)
      ensures forall pieces :: fmt == AllWritten(pieces) && (forall p :: p in pieces ==> Proper(p)) ==>
        out == old(out) + Meaning(pieces, args, 0, true)
    {
      hide Meaning, AllWritten, Proper, SpecAt, TurnOf, Takes, Suits, Output, WellFormed;
      var i: nat, k: nat := 0, 0;
      while i < |fmt|
        invariant WellFormed(fmt, i, args, k, true)
        invariant out + Output(fmt, i, args, k, true) == old(out) + Output(fmt, 0, args, 0, true)
      {
        Unfold(fmt, i, args, k, true, out);
        if fmt[i] != '%' {
          PutChar(fmt[i]);
          i := i + 1;
          continue;
        }
        if i + 1 == |fmt| { break; }
        var at, long := SkipSpec(fmt, i + 1);
        var used := Convert(fmt[at], long, args, k);
        i, k := at + 1, k + used;
      }
      if i >= |fmt| { AtEnd(fmt, i, args, k, true); }
      assert fmt[0..] == fmt;
      forall pieces | fmt == AllWritten(pieces) && forall p :: p in pieces ==> Proper(p)
        ensures Output(fmt, 0, args, 0, true) == Meaning(pieces, args, 0, true)
      {
        FormatMeans(fmt, 0, pieces, args, 0, true);
      }
    }
  }

  // ---- the buffer ----

  class SBuf {
    const buf: array<char>
    const size: nat
    var p: nat
    ghost var sent: string   // every character put, kept or not

    /** The first `size - 1` characters put are the ones kept. */
    ghost predicate Valid()
      reads this, buf
    {
      0 < size <= buf.Length && p < size && p <= |sent| && (p < |sent| ==> p == size - 1) && buf[..p] == sent[..p]
    }

    /** What lies past the end of the buffer proper. */
    ghost function Above(): seq<char>
      reads buf
    {
      if size <= buf.Length then buf[size..] else []
    }

    constructor (buf: array<char>, size: nat)
      requires 0 < size <= buf.Length
      ensures Valid() && this.buf == buf && this.size == size && sent == ""
    {
      this.buf, this.size := buf, size;
      p, sent := 0, "";
    }

    method PutChar(c: char)
      requires Valid()
      modifies this, buf
      ensures Valid() && sent == old(sent) + [c] && Above() == old(Above())
    {
      if p < size - 1 {
        buf[p] := c;
        p := p + 1;
      }
      sent := sent + [c];
    }

    method PutNumber(numbuf: array<char>)
      requires Valid() && numbuf != buf
      modifies this, buf
      ensures Valid() && sent == old(sent) + UpToNul(numbuf[..]) && Above() == old(Above())
    {
      hide UpToNul;
      ghost var text := numbuf[..];
      var q := 0;
      assert text[0..] == text;
      while q < numbuf.Length && numbuf[q] != '\0'
        invariant Valid() && Above() == old(Above()) && numbuf[..] == text
        invariant q <= |text| && sent + UpToNul(text[q..]) == old(sent) + UpToNul(text)
      {
        NextChar(text, q);
        PutChar(numbuf[q]);
        q := q + 1;
      }
      RestEmpty(text, q);
    }

    method PutString(s: CString)
      requires Valid()
      modifies this, buf
      ensures Valid() && sent == old(sent) + s && Above() == old(Above())
    {
      var q := 0;
      while q < |s|
        invariant Valid() && Above() == old(Above()) && q <= |s| && sent + s[q..] == old(sent) + s
      {
        StringIsCString(s, q);
        PutChar(s[q]);
        q := q + 1;
      }
    }

    /** The sign is put before the digits are printed. */
    method PutSigned(w: Word32, numbuf: array<char>)
      requires Valid() && numbuf.Length == NUMBUF && numbuf != buf
      modifies this, buf, numbuf
      ensures Valid() && sent == old(sent) + Signed(w) && Above() == old(Above())
    {
      hide Numeral, UpToNul, Valid, Above;
      if w >= 0x8000_0000 {
        PutChar('-');
        WordText(0x1_0000_0000 - w, numbuf, 10);
      } else {
        WordText(w, numbuf, 10);
      }
      PutNumber(numbuf);
    }

    /** The switch on the conversion letter: there is no `%p` here. */
    method Convert(c: char, long: bool, args: seq<Arg>, k: nat) returns (used: nat)
      requires Valid() && (Takes(c, false) ==> k < |args| && Suits(c, long, args[k]))
      modifies this, buf
      ensures Valid() && Above() == old(Above())
      ensures var t := TurnOf(c, 0, args, k, false); sent == old(sent) + t.text && used == t.used
    {
      hide Numeral, UpToNul, Valid, Above, Signed;
      var numbuf := new char[NUMBUF];
      used := 1;
      match c {
        case 'd' | 'i' =>
          PutSigned(args[k].w, numbuf);
        case 'u' =>
          UnsignedText(args[k], long, 10, numbuf);
          PutNumber(numbuf);
        case 'x' | 'X' =>
          UnsignedText(args[k], long, 16, numbuf);
          PutNumber(numbuf);
        case 'c' =>
          PutChar((args[k].w % 256) as char);
        case 's' =>
          PutString(if args[k].Text? then args[k].s else "(null)");
        case '%' =>
          PutChar('%');
          used := 0;
        case _ =>
          PutChar('?');
          used := 0;
      }
    }

    method Format(fmt: CString, args: seq<Arg>)
      requires Valid() && WellFormed(fmt, 0, args, 0, false)
      modifies this, buf
      ensures Valid() && Above() == old(Above()) && sent == old(sent) + Output(fmt, 0, args, 0, false)
    {
      hide SpecAt, TurnOf, Takes, Suits, Output, WellFormed, Valid, Above;
      var i: nat, k: nat := 0, 0;
      while i < |fmt|
        invariant Valid() && Above() == old(Above()) && WellFormed(fmt, i, args, k, false)
        invariant sent + Output(fmt, i, args, k, false) == old(sent) + Output(fmt, 0, args, 0, false)
      {
        Unfold(fmt, i, args, k, false, sent);
        if fmt[i] != '%' {
          PutChar(fmt[i]);
          i := i + 1;
          continue;
        }
        if i + 1 == |fmt| { break; }
        var at, long := SkipSpec(fmt, i + 1);
        var used := Convert(fmt[at], long, args, k);
        i, k := at + 1, k + used;
      }
      if i >= |fmt| { AtEnd(fmt, i, args, k, false); }
    }
  }

  /** Format into a buffer of `n` characters: nothing for a null or empty buffer; otherwise the
      first `n - 1` characters of the text, then NUL, and the stored length is returned.
      Without `%p` the text is what the console would show. */
  method Kvsnprintf(buf: array?<char>, n: nat, fmt: CString, args: seq<Arg>) returns (r: nat)
    requires buf != null ==> n <= buf.Length
    requires WellFormed(fmt, 0, args, 0, false)
    modifies if buf == null then {} else {buf}
    ensures buf == null || n == 0 ==> r == 0 && (buf != null ==> buf[..] == old(buf[..]))
    ensures buf != null && n > 0 ==>
      var t := Output(fmt, 0, args, 0, false);
      r == (if |t| < n then |t| else n - 1) && buf[..r] == t[..r] && buf[r] == '\0' && buf[n..] == old(buf[n..])
    ensures buf != null && n > 0 && !HasPointer(fmt, 0) && WellFormed(fmt, 0, args, 0, true) ==>
      r <= |Output(fmt, 0, args, 0, true)| && buf[..r] == Output(fmt, 0, args, 0, true)[..r]
  {
    hide Output, WellFormed;
    if buf == null || n == 0 { return 0; }
    var b := new SBuf(buf, n);
    b.Format(fmt, args);
    buf[b.p] := '\0';
    r := b.p;
    if WellFormed(fmt, 0, args, 0, true) { Agree(fmt, 0, args, 0); }
  }
}
