/**
 Netlink messages as bytes in a buffer: the 16-byte header of section 2.3.2 of
 RFC 3549, of which only the leading 32-bit length is interpreted, and the
 alignment arithmetic every position is computed with.
 */
module NetlinkMsg {
  import opened HostOrder

  type u16 = x: int | 0 <= x < 0x1_0000

  const NLMSGHDR_SIZE: int := 16
  const NLATTR_SIZE: int := 4

  /** SANCUS_NL_ALIGN: round up to four bytes, then keep sixteen bits. */
  function NlAlign(len: nat): nat {
    (len + 3) % 0x1_0000 / 4 * 4
  }

  /** The mask makes alignment a rounding up exactly for lengths up to 65532. */
  lemma NlAlignRoundsUp(len: nat)
    ensures NlAlign(len) % 4 == 0 && NlAlign(len) <= 65532
    ensures len <= NlAlign(len) <==> len <= 65532
    ensures len <= 65532 ==> NlAlign(len) < len + 4
    ensures len % 4 == 0 && len <= 65532 ==> NlAlign(len) == len
  {
  }

  /** For every length: it is the one multiple of four below 2^16 that is by less than
      four ahead of the length, as sixteen bits count. */
  lemma NlAlignIsTheOne(len: nat, m: nat)
    ensures m == NlAlign(len) <==> m % 4 == 0 && m < 0x1_0000 && (m - len) % 0x1_0000 < 4
  {
    var q, r := (len + 3) / 0x1_0000, (len + 3) % 0x1_0000;
    var a := r / 4 * 4;
    assert a - len == 0x1_0000 * -q + (a - r + 3);
    OneAhead(a, len, -q, a - r + 3);
    if m % 4 == 0 && m < 0x1_0000 && (m - len) % 0x1_0000 < 4 {
      OnlyOneAhead(m, a, len);
    }
  }

  lemma OneAhead(a: nat, len: nat, q: int, d: nat)
    requires d < 4 && a - len == 0x1_0000 * q + d
    ensures (a - len) % 0x1_0000 < 4
  {
  }

  lemma OnlyOneAhead(m: nat, a: nat, len: nat)
    requires m % 4 == 0 && m < 0x1_0000 && (m - len) % 0x1_0000 < 4
    requires a % 4 == 0 && a < 0x1_0000 && (a - len) % 0x1_0000 < 4
    ensures m == a
  {
    var k, d := (m - len) / 0x1_0000, (m - len) % 0x1_0000;
    var k', d' := (a - len) / 0x1_0000, (a - len) % 0x1_0000;
    OnlyOne(m / 4, a / 4, k - k', d - d');
  }

  lemma OnlyOne(x: nat, y: nat, k: int, d: int)
    requires x < 0x4000 && y < 0x4000 && -4 < d < 4
    requires 4 * x - 4 * y == 0x1_0000 * k + d
    ensures x == y
  {
    assert d == 4 * (x - y - 0x4000 * k);
  }

  /** Adding an aligned length to a length commutes with aligning the sum. */
  lemma NlAlignAdd(len: nat)
    requires len <= 65528
    ensures NlAlign(NLATTR_SIZE + len) == NLATTR_SIZE + NlAlign(len)
  {
  }

  /** The `nlmsg_len` field. */
  function MsgLen(e: Endian, s: seq<byte>): (n: nat)
    requires 4 <= |s|
    ensures n < U32
  {
    Widths();
    Load(e, s[..4])
  }

  /** The message with its `nlmsg_len` field set to `n`, a 32-bit store. */
  function WithMsgLen(e: Endian, s: seq<byte>, n: nat): (r: seq<byte>)
    requires 4 <= |s|
    ensures |r| == |s|
    ensures MsgLen(e, r) == n % U32
    ensures r[4..] == s[4..]
  {
    Widths();
    LoadStore(e, 4, n % U32);
    var r := Patch(s, 0, Store(e, 4, n % U32));
    assert r[..4] == r[0..4];
    r
  }

  /** sancus_nl_msg_get_payload_offset, relative to the message. */
  function PayloadOffset(offset: nat): nat {
    NlAlign(NLMSGHDR_SIZE) + NlAlign(offset)
  }

  /** sancus_nl_msg_get_payload_tail, relative to the message. */
  function PayloadTail(e: Endian, s: seq<byte>): nat
    requires 4 <= |s|
  {
    NlAlign(MsgLen(e, s))
  }

  /** The length field, byte by byte. */
  lemma MsgLenBytes(e: Endian, s: seq<byte>)
    requires 4 <= |s|
    ensures MsgLen(e, s)
         == if e.Little? then Word(s[0], Word(s[1], Word(s[2], s[3])))
            else Word(s[3], Word(s[2], Word(s[1], s[0])))
  {
    hide Load;
    LoadOfFour(e, s[..4]);
  }

  /** The tail lies at the end of the message, rounded up to a multiple of four -- as far
      as sixteen bits go.  So does the place behind the header and an extra header. */
  lemma TailIsRoundedUp(e: Endian, s: seq<byte>)
    requires 4 <= |s|
    ensures var n, t := MsgLen(e, s), PayloadTail(e, s);
      && t % 4 == 0 && t < 0x1_0000 && (t - n) % 0x1_0000 < 4
      && (n <= 65532 ==> n <= t < n + 4)
  {
    hide NlAlign, MsgLen;
    NlAlignIsTheOne(MsgLen(e, s), PayloadTail(e, s));
    NlAlignRoundsUp(MsgLen(e, s));
  }

  lemma OffsetIsRoundedUp(offset: nat)
    ensures var at := PayloadOffset(offset) - NLMSGHDR_SIZE;
      && at % 4 == 0 && 0 <= at < 0x1_0000 && (at - offset) % 0x1_0000 < 4
  {
    hide NlAlign;
    NlAlignRoundsUp(NLMSGHDR_SIZE);
    NlAlignIsTheOne(offset, NlAlign(offset));
  }

  function Zeros(n: nat): (s: seq<byte>)
    ensures |s| == n && forall i :: 0 <= i < n ==> s[i] == 0
  {
    seq(n, _ => 0)
  }

  /** A message under construction: its length is aligned and inside the buffer. */
  ghost predicate Built(e: Endian, s: seq<byte>) {
    && 4 <= |s|
    && NLMSGHDR_SIZE <= MsgLen(e, s) <= 65532
    && MsgLen(e, s) % 4 == 0
    && MsgLen(e, s) <= |s|
  }

  /** What sancus_nl_msg_put_header leaves in a buffer. */
  function HeaderPut(e: Endian, s: seq<byte>): (r: seq<byte>)
    requires NLMSGHDR_SIZE <= |s|
    ensures |r| == |s|
  {
    WithMsgLen(e, Patch(s, 0, Zeros(NLMSGHDR_SIZE)), NLMSGHDR_SIZE)
  }

  /** What sancus_nl_msg_put_extra_header leaves in a buffer. */
  function ExtraHeaderPut(e: Endian, s: seq<byte>, size: nat): (r: seq<byte>)
    requires 4 <= |s| && MsgLen(e, s) + NlAlign(size) <= |s|
    ensures |r| == |s|
  {
    var z := Patch(s, MsgLen(e, s), Zeros(NlAlign(size)));
    WithMsgLen(e, z, MsgLen(e, z) + NlAlign(size))
  }

  /** memcpy, or a store through a pointer, at `buf + at`. */
  method WriteBytes(buf: array<byte>, at: nat, part: seq<byte>)
    requires at + |part| <= buf.Length
    modifies buf
    ensures buf[..] == Patch(old(buf[..]), at, part)
  {
    forall i | 0 <= i < |part| {
      buf[at + i] := part[i];
    }
    ghost var r := Patch(old(buf[..]), at, part);
    forall i | 0 <= i < buf.Length
      ensures buf[i] == r[i]
    {
      if at <= i < at + |part| {
        assert r[i] == r[at..at + |part|][i - at];
      }
    }
  }

  /** `nlh->nlmsg_len = n` */
  method SetMsgLen(e: Endian, buf: array<byte>, n: nat)
    requires 4 <= buf.Length
    modifies buf
    ensures buf[..] == WithMsgLen(e, old(buf[..]), n)
  {
    Widths();
    WriteBytes(buf, 0, Store(e, 4, n % U32));
  }

  method GetMsgLen(e: Endian, buf: array<byte>) returns (n: nat)
    requires 4 <= buf.Length
    ensures n == MsgLen(e, buf[..])
  {
    assert buf[..][..4] == buf[..4];
    n := Load(e, buf[..4]);
  }

  /** sancus_nl_msg_put_header */
  method PutHeader(e: Endian, buf: array<byte>)
    requires NLMSGHDR_SIZE <= buf.Length
    modifies buf
    ensures buf[..] == HeaderPut(e, old(buf[..]))
  {
    hide WithMsgLen, Patch;
    var len := NlAlign(NLMSGHDR_SIZE);
    WriteBytes(buf, 0, Zeros(len));
    SetMsgLen(e, buf, len);
  }

  /** sancus_nl_msg_put_extra_header; returns where the extra header starts. */
  method PutExtraHeader(e: Endian, buf: array<byte>, size: nat) returns (ptr: nat)
    requires 4 <= buf.Length && MsgLen(e, buf[..]) + NlAlign(size) <= buf.Length
    modifies buf
    ensures ptr == MsgLen(e, old(buf[..]))
    ensures buf[..] == ExtraHeaderPut(e, old(buf[..]), size)
  {
    hide WithMsgLen, MsgLen;
    ptr := GetMsgLen(e, buf);
    var len := NlAlign(size);
    WriteBytes(buf, ptr, Zeros(len));
    var n := GetMsgLen(e, buf);
    SetMsgLen(e, buf, n + len);
  }

  lemma HeaderPutBytes(e: Endian, s: seq<byte>)
    requires NLMSGHDR_SIZE <= |s|
    ensures var h := HeaderPut(e, s);
      && MsgLen(e, h) == NLMSGHDR_SIZE
      && forall i :: 4 <= i < |s| ==> h[i] == if i < NLMSGHDR_SIZE then 0 else s[i]
  {
    hide WithMsgLen, MsgLen;
    var z, h := Patch(s, 0, Zeros(NLMSGHDR_SIZE)), HeaderPut(e, s);
    AgreeBehindLength(h, z);
    forall i | 4 <= i < |s|
      ensures z[i] == if i < NLMSGHDR_SIZE then 0 else s[i]
    {
      assert i < NLMSGHDR_SIZE ==> z[i] == z[0..NLMSGHDR_SIZE][i];
    }
  }

  /** A write behind the length field leaves it alone. */
  lemma MsgLenKept(e: Endian, s: seq<byte>, at: nat, part: seq<byte>)
    requires 4 <= at && at + |part| <= |s|
    ensures MsgLen(e, Patch(s, at, part)) == MsgLen(e, s)
  {
    assert Patch(s, at, part)[..4] == s[..4];
  }

  lemma ExtraHeaderPutBytes(e: Endian, s: seq<byte>, size: nat)
    requires 4 <= |s|
    requires 4 <= MsgLen(e, s) && MsgLen(e, s) + NlAlign(size) <= |s|
    ensures var n := MsgLen(e, s);
      var r := ExtraHeaderPut(e, s, size);
      && MsgLen(e, r) == (n + NlAlign(size)) % U32
      && forall i :: 4 <= i < |s| ==> r[i] == if n <= i < n + NlAlign(size) then 0 else s[i]
  {
    hide WithMsgLen, MsgLen, NlAlign;
    var n, m := MsgLen(e, s), NlAlign(size);
    var z, r := Patch(s, n, Zeros(m)), ExtraHeaderPut(e, s, size);
    MsgLenKept(e, s, n, Zeros(m));
    AgreeBehindLength(r, z);
    forall i | 4 <= i < |s|
      ensures z[i] == if n <= i < n + m then 0 else s[i]
    {
      assert n <= i < n + m ==> z[i] == z[n..n + m][i - n];
    }
  }

  lemma AgreeBehindLength(r: seq<byte>, m: seq<byte>)
    requires 4 <= |r| == |m| && r[4..] == m[4..]
    ensures forall i :: 4 <= i < |r| ==> r[i] == m[i]
    ensures forall i, j :: 4 <= i <= j <= |r| ==> r[i..j] == m[i..j]
  {
    forall i | 4 <= i < |r|
      ensures r[i] == m[i]
    {
      assert r[i] == r[4..][i - 4];
    }
  }

  /** Header plus extra header is a message under construction: all of it but the
      length is zero, nothing behind it changed, and it ends where
      sancus_nl_attr_parse starts when told to skip an extra header of that size. */
  lemma StartedMessage(e: Endian, s: seq<byte>, extra: nat)
    requires PayloadOffset(extra) <= |s| && PayloadOffset(extra) <= 65532
    ensures MsgLen(e, HeaderPut(e, s)) == NLMSGHDR_SIZE
    ensures var r := ExtraHeaderPut(e, HeaderPut(e, s), extra);
      && Built(e, r)
      && MsgLen(e, r) == PayloadOffset(extra) == PayloadTail(e, r)
      && forall i :: 4 <= i < |s| ==> r[i] == if i < PayloadOffset(extra) then 0 else s[i]
  {
    hide WithMsgLen, MsgLen, HeaderPut, ExtraHeaderPut, NlAlign;
    NlAlignRoundsUp(NLMSGHDR_SIZE);
    HeaderPutBytes(e, s);
    ExtraHeaderPutBytes(e, HeaderPut(e, s), extra);
    NlAlignRoundsUp(extra);
    NlAlignRoundsUp(PayloadOffset(extra));
  }
}
