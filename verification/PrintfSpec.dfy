/** What a format string means, for the two interpreters the kernel has. */
module PrintfSpec {
  import opened Numerals

  type Word32 = n: nat | n < 0x1_0000_0000
  type Word64 = n: nat | n < 0x1_0000_0000_0000_0000
  type CString = s: string | '\0' !in s

  /** A variadic argument as it was pushed. */
  datatype Arg = Word(w: Word32) | Wide(v: Word64) | Text(s: CString) | NullText

  function Bits(a: Arg): (v: Word64)
    ensures a.Word? ==> v < 0x1_0000_0000
  {
    match a
    case Word(w) => w
    case Wide(v) => v
    case _ => 0
  }

  function At(fmt: CString, i: nat): char { if i < |fmt| then fmt[i] else '\0' }

  predicate IsDigit(c: char) { '0' <= c <= '9' }

  function SkipDigits(fmt: CString, i: nat): (j: nat)
    ensures i <= j && (i <= |fmt| ==> j <= |fmt|)
    decreases if i < |fmt| then |fmt| - i else 0
  {
    if i < |fmt| && IsDigit(fmt[i]) then SkipDigits(fmt, i + 1) else i
  }

  /** Where a conversion's letter stands, and whether an `l` came before it. */
  datatype Spec = Spec(at: nat, long: bool)

  function SkipWidth(fmt: CString, i: nat): (j: nat)
    requires i <= |fmt|
    ensures i <= j <= |fmt|
  {
    var a := if At(fmt, i) == '-' then i + 1 else i;
    var b := SkipDigits(fmt, a);
    if At(fmt, b) == '.' then SkipDigits(fmt, b + 1) else b
  }

  function SpecAt(fmt: CString, i: nat): (s: Spec)
    requires i <= |fmt|
    ensures i <= s.at <= |fmt|
  {
    var j := SkipWidth(fmt, i);
    if At(fmt, j) == 'l' then Spec(j + 1, true) else Spec(j, false)
  }

  /** The letters that take an argument; `%p` is one only for the console. */
  predicate Takes(c: char, pointers: bool) {
    c in "diuxXcs" || (pointers && c == 'p')
  }

  /** The argument has the type the conversion reads. */
  predicate Suits(c: char, long: bool, a: Arg) {
    if c == 's' then a.Text? || a.NullText?
    else if c in "uxX" && long then a.Wide?
    else a.Word?
  }

  function Signed(w: Word32): string {
    if w < 0x8000_0000 then Numeral(w, 10) else "-" + Numeral(0x1_0000_0000 - w, 10)
  }

  /** The text of one conversion. */
  function Shown(c: char, a: Arg): string {
    if c == 'd' || c == 'i' then Signed(if a.Word? then a.w else 0)
    else if c == 'u' then Numeral(Bits(a), 10)
    else if c == 'x' || c == 'X' then Numeral(Bits(a), 16)
    else if c == 'c' then [(Bits(a) % 256) as char]
    else if c == 'p' then "0x" + Numeral(Bits(a), 16)
    else if a.Text? then a.s
    else "(null)"
  }

  /** One turn of an interpreter: the text it sends, where it goes on, how many arguments it took. */
  datatype Turn = Turn(text: string, next: nat, used: nat)

  predicate Stops(fmt: CString, i: nat) {
    i >= |fmt| || (fmt[i] == '%' && i + 1 == |fmt|)
  }

  function TurnOf(c: char, next: nat, args: seq<Arg>, k: nat, pointers: bool): Turn {
    if c == '%' then Turn("%", next, 0)
    else if Takes(c, pointers) then Turn(if k < |args| then Shown(c, args[k]) else "", next, 1)
    else Turn("?", next, 0)
  }

  function TurnAt(fmt: CString, i: nat, args: seq<Arg>, k: nat, pointers: bool): (t: Turn)
    requires !Stops(fmt, i)
    ensures i < t.next
  {
    if fmt[i] != '%' then Turn([fmt[i]], i + 1, 0)
    else
      var s := SpecAt(fmt, i + 1);
      TurnOf(At(fmt, s.at), s.at + 1, args, k, pointers)
  }

  /** All the text from position `i` on. */
  function Output(fmt: CString, i: nat, args: seq<Arg>, k: nat, pointers: bool): string
    decreases if i < |fmt| then |fmt| - i else 0
  {
    if Stops(fmt, i) then "" else
      var t := TurnAt(fmt, i, args, k, pointers);
      t.text + Output(fmt, t.next, args, k + t.used, pointers)
  }

  /** No conversion is cut short by the end of the format, and each finds an argument of its type. */
  ghost predicate TurnOk(fmt: CString, i: nat, args: seq<Arg>, k: nat, pointers: bool)
    requires !Stops(fmt, i)
  {
    fmt[i] == '%' ==>
      var s := SpecAt(fmt, i + 1);
      s.at < |fmt| && (Takes(fmt[s.at], pointers) ==> k < |args| && Suits(fmt[s.at], s.long, args[k]))
  }

  ghost predicate WellFormed(fmt: CString, i: nat, args: seq<Arg>, k: nat, pointers: bool)
    decreases if i < |fmt| then |fmt| - i else 0
  {
    Stops(fmt, i) || (
      TurnOk(fmt, i, args, k, pointers) &&
      var t := TurnAt(fmt, i, args, k, pointers);
      WellFormed(fmt, t.next, args, k + t.used, pointers))
  }

  /** The turn at `i` is a `%p` conversion. */
  ghost predicate PointerAt(fmt: CString, i: nat)
    requires !Stops(fmt, i)
  {
    fmt[i] == '%' && At(fmt, SpecAt(fmt, i + 1).at) == 'p'
  }

  ghost function After(fmt: CString, i: nat): (j: nat)
    requires !Stops(fmt, i)
    ensures i < j
  {
    if fmt[i] == '%' then SpecAt(fmt, i + 1).at + 1 else i + 1
  }

  /** Some conversion of the format from `i` on is a `%p`. */
  ghost predicate HasPointer(fmt: CString, i: nat)
    decreases if i < |fmt| then |fmt| - i else 0
  {
    !Stops(fmt, i) && (PointerAt(fmt, i) || HasPointer(fmt, After(fmt, i)))
  }

  /** The two interpreters send the same text exactly when the format has no `%p`: at the first
      one the console shows a number and the buffer a question mark. */
  lemma {:induction false} Agree(fmt: CString, i: nat, args: seq<Arg>, k: nat)
    requires WellFormed(fmt, i, args, k, true)
    ensures Output(fmt, i, args, k, true) == Output(fmt, i, args, k, false) <==> !HasPointer(fmt, i)
    ensures !HasPointer(fmt, i) ==> WellFormed(fmt, i, args, k, false)
    decreases if i < |fmt| then |fmt| - i else 0
  {
    hide SpecAt, TurnAt, TurnOk;
    if !Stops(fmt, i) {
      if PointerAt(fmt, i) {
        PointerTurn(fmt, i, args, k);
        assert Output(fmt, i, args, k, true)[0] == '0';
        assert Output(fmt, i, args, k, false)[0] == '?';
      } else {
        SameTurn(fmt, i, args, k);
        var t := TurnAt(fmt, i, args, k, true);
        Agree(fmt, t.next, args, k + t.used);
        SamePrefix(t.text, Output(fmt, t.next, args, k + t.used, true), Output(fmt, t.next, args, k + t.used, false));
      }
    }
  }

  lemma PointerTurn(fmt: CString, i: nat, args: seq<Arg>, k: nat)
    requires !Stops(fmt, i) && PointerAt(fmt, i) && TurnOk(fmt, i, args, k, true)
    ensures var t := TurnAt(fmt, i, args, k, true); t.text != "" && t.text[0] == '0'
    ensures TurnAt(fmt, i, args, k, false).text == "?"
  {
    PointerShown(args[k]);
  }

  lemma SameTurn(fmt: CString, i: nat, args: seq<Arg>, k: nat)
    requires !Stops(fmt, i) && !PointerAt(fmt, i)
    ensures TurnAt(fmt, i, args, k, true) == TurnAt(fmt, i, args, k, false)
    ensures TurnAt(fmt, i, args, k, true).next == After(fmt, i)
    ensures TurnOk(fmt, i, args, k, true) == TurnOk(fmt, i, args, k, false)
  {
  }

  lemma PointerShown(a: Arg)
    ensures Shown('p', a) != "" && Shown('p', a)[0] == '0'
  {
  }

  lemma SamePrefix(p: string, s: string, t: string)
    ensures p + s == p + t <==> s == t
  {
    if p + s == p + t {
      assert s == (p + s)[|p|..] == (p + t)[|p|..] == t;
    }
  }

  // ---- formats piece by piece ----

  /** A character that stands for itself, or a conversion with a sign, a width, a precision and an
      `l` before its letter. */
  datatype Piece =
    | Plain(c: char)
    | Conversion(minus: bool, width: string, dot: bool, precision: string, long: bool, letter: char)

  predicate AllDigits(s: string) { forall i :: 0 <= i < |s| ==> '0' <= s[i] <= '9' }

  predicate Proper(p: Piece) {
    match p
    case Plain(c) => c != '%' && c != '\0'
    case Conversion(minus, width, dot, precision, long, letter) =>
      && AllDigits(width) && AllDigits(precision)
      && !('0' <= letter <= '9') && letter != '-' && letter != '.' && letter != 'l' && letter != '\0'
  }

  function Sign(p: Piece): string { if p.Conversion? && p.minus then "-" else "" }
  function Width(p: Piece): string { if p.Conversion? then p.width else "" }
  function Precision(p: Piece): string { if p.Conversion? && p.dot then "." + p.precision else "" }
  function Length(p: Piece): string { if p.Conversion? && p.long then "l" else "" }

  /** The piece as it is written in a format. */
  function Written(p: Piece): string {
    match p
    case Plain(c) => [c]
    case Conversion(_, _, _, _, _, letter) => "%" + (Sign(p) + (Width(p) + (Precision(p) + (Length(p) + [letter]))))
  }

  function AllWritten(pieces: seq<Piece>): string {
    if pieces == [] then "" else Written(pieces[0]) + AllWritten(pieces[1..])
  }

  /** What the pieces mean: sign, width and precision do not matter, and nothing else is skipped. */
  function Meaning(pieces: seq<Piece>, args: seq<Arg>, k: nat, pointers: bool): string {
    if pieces == [] then "" else
      match pieces[0]
      case Plain(c) => [c] + Meaning(pieces[1..], args, k, pointers)
      case Conversion(_, _, _, _, _, letter) =>
        if letter == '%' then "%" + Meaning(pieces[1..], args, k, pointers)
        else if !Takes(letter, pointers) then "?" + Meaning(pieces[1..], args, k, pointers)
        else (if k < |args| then Shown(letter, args[k]) else "") + Meaning(pieces[1..], args, k + 1, pointers)
  }

  lemma {:induction false} SkipsDigits(fmt: CString, i: nat, j: nat)
    requires i <= j <= |fmt| && AllDigits(fmt[i..j]) && !IsDigit(At(fmt, j))
    ensures SkipDigits(fmt, i) == j
    decreases j - i
  {
    if i < j {
      assert fmt[i..j][0] == fmt[i] && fmt[i..j][1..] == fmt[i + 1..j];
      SkipsDigits(fmt, i + 1, j);
    }
  }

  /** Where the letter stands. */
  lemma SpecOver(fmt: CString, i: nat, a: nat, b: nat, j: nat, e: nat, p: Piece)
    requires Proper(p) && p.Conversion? && i <= a <= b <= j <= e < |fmt|
    requires fmt[i..a] == Sign(p) && fmt[a..b] == Width(p) && fmt[b..j] == Precision(p) && fmt[j..e] == Length(p)
    requires fmt[e] == p.letter
    ensures SpecAt(fmt, i) == Spec(e, p.long)
  {
    hide SkipDigits;
    if p.long { assert fmt[j..e][0] == fmt[j]; }
    if p.dot {
      assert fmt[b..j][0] == fmt[b];
      assert fmt[b + 1..j] == fmt[b..j][1..] == p.precision;
      SkipsDigits(fmt, b + 1, j);
    }
    SkipsDigits(fmt, a, b);
    if p.minus { assert fmt[i..a][0] == fmt[i]; }
    else if a < b { assert fmt[a..b][0] == fmt[a]; }
  }

  lemma Peel(fmt: CString, i: nat, a: string, b: string, c: string)
    requires i <= |fmt| && fmt[i..] == a + b + c
    ensures var j := i + |a|; j <= |fmt| && fmt[i..j] == a && fmt[j..] == b + c
  {
    assert a + b + c == a + (b + c);
    var j := i + |a|;
    assert fmt[i..j] == fmt[i..][..|a|] && fmt[j..] == fmt[i..][|a|..];
  }

  /** Five strings one after the other, by position. */
  lemma Cuts(fmt: CString, i: nat, s: string, w: string, q: string, l: string, c: string, rest: string)
    requires i < |fmt| && fmt[i..] == "%" + (s + (w + (q + (l + c)))) + rest
    ensures var a := i + 1;
      var b := a + |s|;
      var j := b + |w|;
      var d := j + |q|;
      var e := d + |l|;
      && e + |c| <= |fmt| && fmt[i] == '%' && fmt[a..b] == s && fmt[b..j] == w && fmt[j..d] == q && fmt[d..e] == l
      && fmt[e..e + |c|] == c && fmt[e + |c|..] == rest
  {
    Peel(fmt, i, "%", s + (w + (q + (l + c))), rest);
    var a := i + 1;
    assert fmt[i..a][0] == '%';
    Peel(fmt, a, s, w + (q + (l + c)), rest);
    var b := a + |s|;
    Peel(fmt, b, w, q + (l + c), rest);
    var j := b + |w|;
    Peel(fmt, j, q, l + c, rest);
    var d := j + |q|;
    Peel(fmt, d, l, c, rest);
    var e := d + |l|;
    assert c + rest == c + rest + "" && rest + "" == rest;
    Peel(fmt, e, c, rest, "");
  }

  /** A piece at position `i`: the turn taken there. */
  lemma ConversionAt(fmt: CString, i: nat, p: Piece, rest: string)
    requires Proper(p) && p.Conversion? && i < |fmt| && fmt[i..] == Written(p) + rest
    ensures var e := i + |Written(p)| - 1;
      e < |fmt| && fmt[i] == '%' && fmt[e + 1..] == rest && SpecAt(fmt, i + 1) == Spec(e, p.long) && fmt[e] == p.letter
  {
    hide SpecAt, Proper, Sign, Width, Precision, Length, Written;
    WrittenParts(p);
    var a, b := i + 1, i + 1 + |Sign(p)|;
    var j := b + |Width(p)|;
    var d := j + |Precision(p)|;
    var e := d + |Length(p)|;
    Cuts(fmt, i, Sign(p), Width(p), Precision(p), Length(p), [p.letter], rest);
    OneLetter(fmt, e, p.letter);
    SpecOver(fmt, a, b, j, d, e, p);
  }

  lemma TurnFor(fmt: CString, i: nat, p: Piece, rest: string, args: seq<Arg>, k: nat, pointers: bool)
    requires Proper(p) && i <= |fmt| && fmt[i..] == Written(p) + rest
    ensures var n := i + |Written(p)|; n <= |fmt| && fmt[n..] == rest && !Stops(fmt, i)
    ensures !Stops(fmt, i) ==> TurnAt(fmt, i, args, k, pointers) == PieceTurn(p, i + |Written(p)|, args, k, pointers)
  {
    hide SpecAt, TurnOf, Written;
    if p.Plain? {
      WrittenPlain(p);
      assert [p.c] + rest == [p.c] + rest + "" && rest + "" == rest;
      Peel(fmt, i, [p.c], rest, "");
      OneLetter(fmt, i, p.c);
    } else {
      WrittenParts(p);
      ConversionAt(fmt, i, p, rest);
    }
  }

  lemma WrittenParts(p: Piece)
    requires p.Conversion?
    ensures Written(p) == "%" + (Sign(p) + (Width(p) + (Precision(p) + (Length(p) + [p.letter]))))
    ensures |Written(p)| == 2 + |Sign(p)| + |Width(p)| + |Precision(p)| + |Length(p)|
  {
    hide Sign, Width, Precision, Length;
  }

  lemma OneLetter(fmt: CString, e: nat, c: char)
    requires e < |fmt| && fmt[e..e + 1] == [c]
    ensures fmt[e] == c
  {
    assert fmt[e] == fmt[e..e + 1][0];
  }

  lemma WrittenPlain(p: Piece)
    requires p.Plain?
    ensures Written(p) == [p.c]
  {}

  function PieceTurn(p: Piece, next: nat, args: seq<Arg>, k: nat, pointers: bool): (t: Turn)
    ensures t.next == next
  {
    if p.Plain? then Turn([p.c], next, 0) else TurnOf(p.letter, next, args, k, pointers)
  }

  lemma MeaningStep(pieces: seq<Piece>, args: seq<Arg>, k: nat, pointers: bool, next: nat)
    requires pieces != []
    ensures var t := PieceTurn(pieces[0], next, args, k, pointers);
      Meaning(pieces, args, k, pointers) == t.text + Meaning(pieces[1..], args, k + t.used, pointers)
  {
    hide Shown, Takes;
  }

  lemma OutputStep(fmt: CString, i: nat, args: seq<Arg>, k: nat, pointers: bool)
    ensures Stops(fmt, i) ==> Output(fmt, i, args, k, pointers) == ""
    ensures !Stops(fmt, i) ==>
      var t := TurnAt(fmt, i, args, k, pointers);
      Output(fmt, i, args, k, pointers) == t.text + Output(fmt, t.next, args, k + t.used, pointers)
  {
    hide TurnAt;
  }

  lemma NothingWritten(fmt: CString, i: nat, args: seq<Arg>, k: nat, pointers: bool)
    ensures AllWritten([]) == "" == Meaning([], args, k, pointers)
    ensures i <= |fmt| && fmt[i..] == "" ==> Stops(fmt, i)
  {}

  lemma FirstWritten(pieces: seq<Piece>)
    requires pieces != []
    ensures AllWritten(pieces) == Written(pieces[0]) + AllWritten(pieces[1..])
  {
    hide Written;
  }

  /** A format means what its pieces mean. */
  lemma {:induction false} FormatMeans(fmt: CString, i: nat, pieces: seq<Piece>, args: seq<Arg>, k: nat, pointers: bool)
    requires i <= |fmt| && fmt[i..] == AllWritten(pieces) && forall p :: p in pieces ==> Proper(p)
    ensures Output(fmt, i, args, k, pointers) == Meaning(pieces, args, k, pointers)
    decreases |pieces|
  {
    hide Proper, Written, TurnAt, PieceTurn, Output, Meaning, AllWritten, Stops;
    NothingWritten(fmt, i, args, k, pointers);
    OutputStep(fmt, i, args, k, pointers);
    if pieces != [] {
      var p := pieces[0];
      FirstWritten(pieces);
      TurnFor(fmt, i, p, AllWritten(pieces[1..]), args, k, pointers);
      var t := TurnAt(fmt, i, args, k, pointers);
      MeaningStep(pieces, args, k, pointers, t.next);
      FormatMeans(fmt, t.next, pieces[1..], args, k + t.used, pointers);
    }
  }

  /** `s` is the numeral of `v`: digits of that base, no leading zero, and the value. */
  predicate IsNumeral(s: string, v: nat, b: Base) {
    s != "" && IsDigits(s, b) && Value(s, b) == v && (|s| > 1 ==> s[0] != '0')
  }

  lemma DigitTable(d: nat)
    requires d < 16
    ensures DigitValue("0123456789abcdef"[d]) == d
  {}

  /** The letters that take an argument, and what each shows of it. */
  lemma LetterMeans(c: char, a: Arg)
    ensures Takes(c, true) <==> c in {'d', 'i', 'u', 'x', 'X', 'c', 's', 'p'}
    ensures Takes(c, false) <==> c in {'d', 'i', 'u', 'x', 'X', 'c', 's'}
    ensures c == 'x' || c == 'X' ==>
      (a.Word? ==> IsNumeral(Shown(c, a), a.w, 16)) && (a.Wide? ==> IsNumeral(Shown(c, a), a.v, 16))
    ensures c == 'u' ==>
      (a.Word? ==> IsNumeral(Shown(c, a), a.w, 10)) && (a.Wide? ==> IsNumeral(Shown(c, a), a.v, 10))
    ensures (c == 'd' || c == 'i') && a.Word? && a.w < 0x8000_0000 ==> IsNumeral(Shown(c, a), a.w, 10)
    ensures (c == 'd' || c == 'i') && a.Word? && a.w >= 0x8000_0000 ==>
      Shown(c, a)[..1] == "-" && IsNumeral(Shown(c, a)[1..], 0x1_0000_0000 - a.w, 10)
    ensures c == 'p' && a.Word? ==>
      |Shown(c, a)| > 2 && Shown(c, a)[..2] == "0x" && IsNumeral(Shown(c, a)[2..], a.w, 16)
    ensures c == 'c' && a.Word? ==> Shown(c, a) == [(a.w % 256) as char]
    ensures c == 's' ==> (a.Text? ==> Shown(c, a) == a.s) && (a.NullText? ==> Shown(c, a) == "(null)")
  {
    hide Numeral, Value, IsDigits;
    var v := Bits(a);
    NumeralUnique(v, 16, "");
    NumeralUnique(v, 10, "");
    if a.Word? && a.w >= 0x8000_0000 { NumeralUnique(0x1_0000_0000 - a.w, 10, ""); }
  }

  /** One conversion alone, whatever its sign, width and precision, shows its argument. */
  lemma WidthIgnored(fmt: CString, p: Piece, a: Arg, pointers: bool)
    requires p.Conversion? && Proper(p) && fmt == Written(p) && Takes(p.letter, pointers)
    ensures Output(fmt, 0, [a], 0, pointers) == Shown(p.letter, a)
  {
    hide Output, Written, Shown, Takes;
    var pieces := [p];
    assert AllWritten(pieces) == Written(p) + AllWritten(pieces[1..]) == Written(p) && fmt[0..] == fmt;
    FormatMeans(fmt, 0, pieces, [a], 0, pointers);
    assert Meaning(pieces[1..], [a], 1, pointers) == "";
    Percent();
  }

  lemma Percent()
    ensures !Takes('%', true) && !Takes('%', false)
  {}

  /** Two of the kernel's own formats. */
  lemma PaddedExamples(t: CString, w: Word32)
    ensures Output("%-30s", 0, [Text(t)], 0, true) == t
    ensures IsNumeral(Output("%08X", 0, [Word(w)], 0, true), w, 16)
  {
    hide Output;
    var s, x := Conversion(true, "30", false, "", false, 's'), Conversion(false, "08", false, "", false, 'X');
    assert Written(s) == "%-30s" && Written(x) == "%08X";
    WidthIgnored("%-30s", s, Text(t), true);
    WidthIgnored("%08X", x, Word(w), true);
    LetterMeans('X', Word(w));
  }

  // ---- C strings in arrays ----

  function UpToNul(s: seq<char>): string {
    if s == [] || s[0] == '\0' then "" else [s[0]] + UpToNul(s[1..])
  }

  lemma {:induction false} UpToNulIs(s: seq<char>, t: string)
    requires |t| < |s| && s[..|t|] == t && '\0' !in t && s[|t|] == '\0'
    ensures UpToNul(s) == t
  {
    if t != "" {
      assert s[1..][..|t| - 1] == t[1..];
      assert s[0] == t[0] && t[0] in t;
      UpToNulIs(s[1..], t[1..]);
    }
  }

  lemma {:induction false} NumeralNoNul(v: nat, b: Base)
    ensures '\0' !in Numeral(v, b) && '\0' !in Digits(v, b)
  {
    hide Quotient, Remainder;
    if v > 0 { NumeralNoNul(Quotient(v, b), b); }
  }
}
