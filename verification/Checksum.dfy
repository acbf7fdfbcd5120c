/** The Internet checksum of section 1 of RFC 1071, as computed on little-endian words. */
module Checksum {
  import opened Basics

  type Half = n: nat | n < 0x1_0000

  const MAX_SAFE: nat := 131074   // the longest message whose sum cannot wrap

  function Word(low: byte, high: byte): Half {
    var l: int, h: int := low, high;
    l + 256 * h
  }

  /** The sum of the 16-bit words, low byte first; an odd last byte counts as a word of its own. */
  function WordSum(data: seq<byte>): nat {
    if |data| == 0 then 0
    else if |data| == 1 then data[0]
    else Word(data[0], data[1]) + WordSum(data[2..])
  }

  /** What the sum counts: each pair of bytes once, low byte first, and a last byte alone. */
  lemma {:induction false} SumByPairs(data: seq<byte>, low: byte, high: byte)
    requires |data| % 2 == 0
    ensures WordSum(data + [low]) == WordSum(data) + low as int
    ensures WordSum(data + [low, high]) == WordSum(data) + low as int + 256 * high as int
    ensures WordSum([]) == 0
    decreases |data|
  {
    if data == [] {
      assert data + [low] == [low] && data + [low, high] == [low, high];
    } else {
      SumByPairs(data[2..], low, high);
      assert (data + [low])[2..] == data[2..] + [low] && (data + [low, high])[2..] == data[2..] + [low, high];
    }
  }

  lemma {:induction false} WordSumBound(data: seq<byte>)
    ensures WordSum(data) <= 65535 * ((|data| + 1) / 2)
  {
    if |data| > 1 { WordSumBound(data[2..]); }
  }

  /** Ones' complement value of a sum: 0 for 0, otherwise its residue from 1 to 65535. */
  function OnesSum(sum: nat): Half {
    if sum == 0 then 0 else (sum - 1) % 65535 + 1
  }

  lemma OnesParts(sum: nat) returns (q: int)
    ensures sum == 65535 * q + OnesSum(sum) && (OnesSum(sum) == 0 <==> sum == 0)
  {
    q := if sum == 0 then 0 else (sum - 1) / 65535;
  }

  /** The residue from 1 to 65535 is unique. */
  lemma OnesUnique(sum: nat, x: Half, q: int)
    requires sum == 65535 * q + x && (x == 0 <==> sum == 0)
    ensures OnesSum(sum) == x
  {
    hide OnesSum;
    var q' := OnesParts(sum);
    assert 65535 * (q - q') == OnesSum(sum) as int - x;
  }

  /** Adding the carries back changes nothing in ones' complement. */
  lemma CarryBack(sum: nat)
    ensures OnesSum(sum % 0x1_0000 + sum / 0x1_0000) == OnesSum(sum)
  {
    hide OnesSum;
    var q := OnesParts(sum);
    OnesUnique(sum % 0x1_0000 + sum / 0x1_0000, OnesSum(sum), q - sum / 0x1_0000);
  }

  function ChecksumOf(data: seq<byte>): Half { 65535 - OnesSum(WordSum(data) % WORD32) }

  /** The example of section 3 of RFC 1071: its sum 0xDDF2, complemented, in this byte order. */
  lemma ExampleSum()
    ensures ChecksumOf([0x00, 0x01, 0xF2, 0x03, 0xF4, 0xF5, 0xF6, 0xF7]) == 0x0D22
  {
    hide WordSum;
    FourWords(0x00, 0x01, 0xF2, 0x03, [0xF4, 0xF5, 0xF6, 0xF7]);
    FourWords(0xF4, 0xF5, 0xF6, 0xF7, []);
    assert [0xF4, 0xF5, 0xF6, 0xF7] + [] == [0xF4, 0xF5, 0xF6, 0xF7];
    assert [0x00, 0x01, 0xF2, 0x03] + [0xF4, 0xF5, 0xF6, 0xF7] == [0x00, 0x01, 0xF2, 0x03, 0xF4, 0xF5, 0xF6, 0xF7];
  }

  lemma FourWords(a: byte, b: byte, c: byte, d: byte, rest: seq<byte>)
    ensures WordSum([a, b, c, d] + rest) == Word(a, b) + Word(c, d) + WordSum(rest) && WordSum([]) == 0
  {
    hide Word;
    var m := [a, b, c, d] + rest;
    assert m[2..] == [c, d] + rest && m[2..][2..] == rest;
  }

  /** The checksum as computed: a 32-bit accumulator, then carries folded in until none is left. */
  method Compute(data: seq<byte>) returns (c: Half)
    ensures c == ChecksumOf(data)
  {
    hide OnesSum, WordSum, Word;
    var sum: nat, p: nat, len: nat := 0, 0, |data|;
    assert data[0..] == data;
    while len > 1
      invariant p + len == |data| && Accumulated(data, sum, p)
    {
      NextWord(data, p);
      AddWrapped(sum, Word(data[p], data[p + 1]), WordSum(data[p + 2..]));
      sum := (sum + Word(data[p], data[p + 1])) % WORD32;
      p, len := p + 2, len - 2;
    }
    LastByte(data, sum, p);
    if len > 0 { sum := (sum + data[p]) % WORD32; }
    while sum / 0x1_0000 != 0
      invariant OnesSum(sum) == OnesSum(WordSum(data) % WORD32)
      decreases sum
    {
      CarryBack(sum);
      sum := sum % 0x1_0000 + sum / 0x1_0000;
    }
    OnesUnique(sum, sum, 0);
    c := 65535 - sum;
  }

  /** `sum` is the 32-bit sum of the words before `p`. */
  ghost predicate Accumulated(data: seq<byte>, sum: nat, p: nat) {
    p <= |data| && sum < WORD32 && (sum + WordSum(data[p..])) % WORD32 == WordSum(data) % WORD32
  }

  lemma NextWord(data: seq<byte>, p: nat)
    requires p + 1 < |data|
    ensures WordSum(data[p..]) == Word(data[p], data[p + 1]) + WordSum(data[p + 2..])
  {
    assert data[p..][2..] == data[p + 2..];
  }

  lemma LastByte(data: seq<byte>, sum: nat, p: nat)
    requires Accumulated(data, sum, p) && |data| <= p + 1
    ensures (sum + if p < |data| then data[p] else 0) % WORD32 == WordSum(data) % WORD32
  {
  }

  lemma AddWrapped(sum: nat, w: nat, rest: nat)
    ensures ((sum + w) % WORD32 + rest) % WORD32 == (sum + (w + rest)) % WORD32
  {
  }

  /** A message verifies exactly when its sum is a positive multiple of 65535. */
  lemma VerifiesIff(data: seq<byte>)
    requires |data| <= MAX_SAFE
    ensures WordSum(data) < WORD32
    ensures ChecksumOf(data) == 0 <==> WordSum(data) > 0 && exists q: int :: WordSum(data) == 65535 * q
  {
    hide OnesSum, WordSum;
    WordSumBound(data);
    var s := WordSum(data);
    var q := OnesParts(s);
    if OnesSum(s) == 65535 { assert s == 65535 * (q + 1); }
    if s > 0 && exists q': int :: s == 65535 * q' {
      var q': int :| s == 65535 * q';
      OnesUnique(s, 65535, q' - 1);
    }
  }

  /** A message with the word at `k` replaced. */
  function Stored(data: seq<byte>, k: nat, w: Half): (r: seq<byte>)
    requires k + 1 < |data|
    ensures |r| == |data|
  {
    data[k := w % 256][k + 1 := w / 256]
  }

  function WordAt(data: seq<byte>, k: nat): Half
    requires k + 1 < |data|
  {
    Word(data[k], data[k + 1])
  }

  lemma {:induction false} StoreShifts(data: seq<byte>, k: nat, w: Half)
    requires k + 1 < |data| && k % 2 == 0
    ensures WordSum(Stored(data, k, w)) == WordSum(data) - WordAt(data, k) + w
  {
    var r := Stored(data, k, w);
    if k == 0 {
      assert r[2..] == data[2..];
    } else {
      StoreShifts(data[2..], k - 2, w);
      assert r[2..] == Stored(data[2..], k - 2, w);
    }
  }

  /** Storing the checksum computed with a zeroed aligned field makes the message verify. */
  lemma StoredVerifies(data: seq<byte>, k: nat)
    requires k + 1 < |data| <= MAX_SAFE && k % 2 == 0 && WordAt(data, k) == 0
    ensures ChecksumOf(Stored(data, k, ChecksumOf(data))) == 0
  {
    hide OnesSum, WordSum, Stored, WordAt;
    var s, c := WordSum(data), ChecksumOf(data);
    VerifiesIff(data);
    StoreShifts(data, k, c);
    VerifiesIff(Stored(data, k, c));
    var q := OnesParts(s);
    assert s + c == 65535 * (q + 1);
  }

  /** Changing one word of a verified message is noticed, except a change between the two
      ones' complement zeros that leaves some word non-zero. */
  lemma ChangeNoticed(data: seq<byte>, k: nat, w: Half)
    requires k + 1 < |data| <= MAX_SAFE && k % 2 == 0 && ChecksumOf(data) == 0
    ensures var was := WordAt(data, k);
      ChecksumOf(Stored(data, k, w)) == 0 <==>
        w == was || (w == 65535 && was == 0) || (w == 0 && was == 65535 && WordSum(data) > 65535)
  {
    hide OnesSum, WordSum, Stored, WordAt, ChecksumOf;
    VerifiesIff(data);
    StoreShifts(data, k, w);
    VerifiesIff(Stored(data, k, w));
    var s, s', was := WordSum(data), WordSum(Stored(data, k, w)), WordAt(data, k);
    var q: int :| s == 65535 * q;
    if w == was { assert s' == 65535 * q; }
    if w == 65535 && was == 0 { assert s' == 65535 * (q + 1); }
    if w == 0 && was == 65535 { assert s' == 65535 * (q - 1); }
    if exists q': int :: s' == 65535 * q' {
      var q': int :| s' == 65535 * q';
      assert w as int - was == 65535 * (q' - q);
    }
  }

  // ---- byte order ----

  function BigSum(data: seq<byte>): nat {
    if |data| == 0 then 0
    else if |data| == 1 then Word(0, data[0])
    else Word(data[1], data[0]) + BigSum(data[2..])
  }

  function Swapped(w: Half): Half { w % 256 * 256 + w / 256 }

  lemma {:induction false} BigSumShifts(data: seq<byte>) returns (q: nat)
    ensures 256 * WordSum(data) == BigSum(data) + 65535 * q
    ensures BigSum(data) == 0 <==> WordSum(data) == 0
  {
    q := 0;
    if |data| > 1 {
      var q0 := BigSumShifts(data[2..]);
      q := q0 + data[1];
    }
  }

  /** byte order does not matter (section 2 of RFC 1071): a big-endian host computes the same
      two bytes. */
  lemma ByteOrderFree(data: seq<byte>)
    requires |data| <= MAX_SAFE
    ensures 65535 - OnesSum(BigSum(data)) == Swapped(ChecksumOf(data))
  {
    hide OnesSum, WordSum, BigSum, Swapped;
    VerifiesIff(data);
    SwapOnes(data);
    SwapComplement(OnesSum(WordSum(data)));
  }

  lemma SwapOnes(data: seq<byte>)
    ensures OnesSum(BigSum(data)) == Swapped(OnesSum(WordSum(data)))
  {
    hide OnesSum, WordSum, BigSum, Swapped;
    var q := BigSumShifts(data);
    var i := OnesParts(WordSum(data));
    var h := SwapTimes256(OnesSum(WordSum(data)));
    OnesUnique(BigSum(data), Swapped(OnesSum(WordSum(data))), 256 * i + h - q);
  }

  lemma SwapTimes256(x: Half) returns (h: nat)
    ensures 256 * (x as int) == Swapped(x) + 65535 * h && (Swapped(x) == 0 <==> x == 0)
  {
    h := x / 256;
    assert x == x / 256 * 256 + x % 256;
  }

  lemma SwapComplement(x: Half)
    ensures Swapped(65535 - x) == 65535 - Swapped(x)
  {
    assert (65535 - x) / 256 == 255 - x / 256;
  }
}
