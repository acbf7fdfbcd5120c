/** ICMP echo: the ping that is sent and the reply built for one that arrives. */
module Icmp {
  import opened Basics
  import opened Checksum

  const ECHO_REPLY: byte := 0
  const ECHO_REQUEST: byte := 8
  const HEADER: nat := 8
  const FIELD: nat := 2         // offset of the checksum
  const PING_PAYLOAD: nat := 32
  const REPLY_MAX: nat := 1024

  /** Type, code 0, checksum 0, identifier, sequence number. */
  function EchoHeader(kind: byte, id: Half, number: Half): seq<byte> {
    [kind, 0, 0, 0, id % 256, id / 256, number % 256, number / 256]
  }

  function Letter(i: nat): byte { 65 + i % 26 }

  function PingBody(id: Half, number: Half): (r: seq<byte>)
    ensures |r| == HEADER + PING_PAYLOAD
  {
    EchoHeader(ECHO_REQUEST, id, number) + seq(PING_PAYLOAD, i requires i >= 0 => Letter(i))
  }

  function Clipped(data: seq<byte>): (r: seq<byte>)
    ensures |r| <= REPLY_MAX
  {
    if |data| > REPLY_MAX then data[..REPLY_MAX] else data
  }

  /** A reply before its checksum: the request with type, code and checksum zeroed, cut to the buffer. */
  function ReplyBody(data: seq<byte>): (r: seq<byte>)
    requires |data| >= HEADER
    ensures HEADER <= |r| == |Clipped(data)|
  {
    [ECHO_REPLY, 0, 0, 0] + Clipped(data)[4..]
  }

  lemma ReplyHeader(data: seq<byte>)
    requires |data| >= HEADER
    ensures ReplyBody(data)[..HEADER] == EchoHeader(ECHO_REPLY, Word(data[4], data[5]), Word(data[6], data[7]))
  {
    assert Clipped(data)[4..8] == data[4..8];
  }

  /** A message with the checksum of section 1 of RFC 1071 in place. */
  function Sealed(body: seq<byte>): seq<byte>
    requires |body| >= HEADER
  {
    Stored(body, FIELD, ChecksumOf(body))
  }

  /** The bytes of a ping: type 8, code 0, identifier and number low byte first, and 32 letters in
      order from 'A', with 'A' again after 'Z'. */
  ghost predicate PingBytes(m: seq<byte>, id: Half, number: Half) {
    && |m| == 40 && m[0] == 8 && m[1] == 0
    && m[4] as int + 256 * m[5] as int == id && m[6] as int + 256 * m[7] as int == number
    && m[8] as int == 'A' as int
    && forall i :: 8 <= i < 39 ==> m[i + 1] as int == if m[i] as int == 'Z' as int then 'A' as int else m[i] as int + 1
  }

  lemma PingIs(id: Half, number: Half)
    ensures PingBytes(Sealed(PingBody(id, number)), id, number)
  {
    var b, m := PingBody(id, number), Sealed(PingBody(id, number));
    assert forall i :: 0 <= i < 40 && i != 2 && i != 3 ==> m[i] == b[i];
    assert forall i :: 8 <= i < 40 ==> b[i] == Letter(i - 8);
    forall i | 8 <= i < 39
      ensures m[i + 1] as int == if m[i] as int == 'Z' as int then 'A' as int else m[i] as int + 1
    {
      LetterAfter(i - 8);
    }
  }

  lemma LetterAfter(i: nat)
    ensures Letter(i + 1) == if Letter(i) == 90 then 65 else Letter(i) + 1
  {
    assert (i + 1) % 26 == if i % 26 == 25 then 0 else i % 26 + 1;
  }

  /** The bytes of a reply: type 0, code 0, and from the fifth byte on those of the request. */
  ghost predicate ReplyBytes(m: seq<byte>, data: seq<byte>) {
    && |m| == (if |data| > 1024 then 1024 else |data|) && |m| >= 8
    && m[0] == 0 && m[1] == 0 && forall i :: 4 <= i < |m| ==> m[i] == data[i]
  }

  lemma ReplyIs(data: seq<byte>)
    requires |data| >= HEADER
    ensures ReplyBytes(Sealed(ReplyBody(data)), data)
  {
    var b, m := ReplyBody(data), Sealed(ReplyBody(data));
    assert |m| == |b|;
    assert forall i :: 0 <= i < |b| && i != 2 && i != 3 ==> m[i] == b[i];
    assert forall i :: 4 <= i < |b| ==> b[i] == Clipped(data)[4..][i - 4] == data[i];
  }

  class Endpoint {
    const pingBuf: array<byte>
    const replyBuf: array<byte>

    ghost predicate Valid()
    {
      pingBuf.Length == 64 && replyBuf.Length == REPLY_MAX && pingBuf != replyBuf
    }

    constructor ()
      ensures Valid() && fresh(pingBuf) && fresh(replyBuf)
    {
      pingBuf := new byte[64](_ => 0);
      replyBuf := new byte[REPLY_MAX](_ => 0);
    }

    method PutHeader(buf: array<byte>, kind: byte, id: Half, number: Half)
      requires buf.Length >= HEADER
      modifies buf
      ensures buf[..] == EchoHeader(kind, id, number) + old(buf[HEADER..])
    {
      buf[0], buf[1], buf[2], buf[3] := kind, 0, 0, 0;
      buf[4], buf[5] := id % 256, id / 256;
      buf[6], buf[7] := number % 256, number / 256;
      assert buf[..HEADER] == EchoHeader(kind, id, number);
      assert buf[HEADER..] == old(buf[HEADER..]);
      assert buf[..] == buf[..HEADER] + buf[HEADER..];
    }

    method Seal(buf: array<byte>, len: nat)
      requires HEADER <= len <= buf.Length && len <= MAX_SAFE && WordAt(buf[..len], FIELD) == 0
      modifies buf
      ensures buf[..len] == Sealed(old(buf[..len])) && ChecksumOf(buf[..len]) == 0
    {
      ghost var body := buf[..len];
      var c := Compute(buf[..len]);
      StoredVerifies(body, FIELD);
      buf[FIELD], buf[FIELD + 1] := c % 256, c / 256;
      assert buf[..len] == Stored(body, FIELD, c);
    }

    /** Send a ping: every ping built verifies, and carries the header and letters asked for. */
    method Ping(id: Half, number: Half) returns (len: nat)
      requires Valid()
      modifies pingBuf
      ensures len == HEADER + PING_PAYLOAD <= pingBuf.Length
      ensures pingBuf[..len] == Sealed(PingBody(id, number)) && ChecksumOf(pingBuf[..len]) == 0
      ensures PingBytes(pingBuf[..len], id, number)
    {
      hide PingBytes;
      PingIs(id, number);
      PutHeader(pingBuf, ECHO_REQUEST, id, number);
      for i := 0 to PING_PAYLOAD
        invariant pingBuf[..HEADER] == EchoHeader(ECHO_REQUEST, id, number)
        invariant forall j :: 0 <= j < i ==> pingBuf[HEADER + j] == Letter(j)
      {
        pingBuf[HEADER + i] := 65 + i % 26;
      }
      len := HEADER + PING_PAYLOAD;
      assert pingBuf[..len] == PingBody(id, number);
      Seal(pingBuf, len);
    }

    /** Answer a request: too short a message or another type is ignored; otherwise the reply
        verifies and echoes identifier, sequence number and payload, cut to the reply buffer. */
    method Receive(data: seq<byte>) returns (len: nat)
      requires Valid()
      modifies replyBuf
      ensures len == 0 <==> |data| < 8 || data[0] != 8
      ensures len == 0 ==> replyBuf[..] == old(replyBuf[..])
      ensures len > 0 ==> len == |Clipped(data)| <= replyBuf.Length
      ensures len > 0 ==> replyBuf[..len] == Sealed(ReplyBody(data)) && ChecksumOf(replyBuf[..len]) == 0
      ensures len > 0 ==> ReplyBytes(replyBuf[..len], data)
    {
      hide ReplyBytes;
      len := |data|;
      if len < HEADER { return 0; }
      ReplyIs(data);
      if data[0] != ECHO_REQUEST { return 0; }
      if len > REPLY_MAX { len := REPLY_MAX; }
      PutHeader(replyBuf, ECHO_REPLY, Word(data[4], data[5]), Word(data[6], data[7]));
      ReplyHeader(data);
      assert replyBuf[..HEADER] == ReplyBody(data)[..HEADER];
      if len > HEADER {
        for i := HEADER to len
          invariant replyBuf[..i] == ReplyBody(data)[..i]
        {
          replyBuf[i] := data[i];
          assert replyBuf[..i + 1] == replyBuf[..i] + [data[i]];
        }
      }
      assert replyBuf[..len] == ReplyBody(data);
      Seal(replyBuf, len);
    }
  }

  /** The reply to a verified request that fits the buffer carries that request's checksum
      plus 8, in ones' complement: only the type changed, from 8 to 0. */
  lemma ReplyChecksum(data: seq<byte>)
    requires HEADER <= |data| <= REPLY_MAX && data[0] == ECHO_REQUEST && data[1] == 0 && ChecksumOf(data) == 0
    ensures exists q: int :: WordAt(Sealed(ReplyBody(data)), FIELD) as int == WordAt(data, FIELD) + 8 + 65535 * q
  {
    hide OnesSum, WordSum, ChecksumOf;
    var c: int, c': int := WordAt(data, FIELD), ChecksumOf(ReplyBody(data));
    assert ReplyBody(data) == Stored(Stored(data, 0, 0), FIELD, 0);
    StoreShifts(data, 0, 0);
    StoreShifts(Stored(data, 0, 0), FIELD, 0);
    StoredVerifies(ReplyBody(data), FIELD);
    StoreShifts(ReplyBody(data), FIELD, c');
    VerifiesIff(data);
    VerifiesIff(Sealed(ReplyBody(data)));
    var q: int :| WordSum(data) == 65535 * q;
    var q': int :| WordSum(Sealed(ReplyBody(data))) == 65535 * q';
    assert WordAt(Sealed(ReplyBody(data)), FIELD) == c';
    assert c' == c + 8 + 65535 * (q' - q);
  }
}
