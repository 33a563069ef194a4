/**
 Netlink attributes: building them at the tail of a message and walking them
 back (src/netlink/netlink_attr.c).  Attributes are addressed by their offset
 from the start of the message.
 */
module NetlinkAttr {
  import opened HostOrder
  import opened NetlinkMsg

  const CB_OK: int := 1
  const CB_STOP: int := 0
  const TYPE_SPACE: nat := 0x4000  // NLA_TYPE_MASK + 1

  datatype Attr = Attr(typ: u16, payload: seq<byte>)

  // ------------------------------------------------------------- fields

  /** `nla_len` */
  function AttrLen(e: Endian, s: seq<byte>, at: nat): (n: nat)
    requires at + NLATTR_SIZE <= |s|
    ensures n < 0x1_0000
  {
    Widths();
    Load(e, s[at..at + 2])
  }

  /** sancus_nl_attr_get_type: `nla_type` without its two flag bits. */
  function GetType(e: Endian, s: seq<byte>, at: nat): (t: nat)
    requires at + NLATTR_SIZE <= |s|
    ensures t < TYPE_SPACE
  {
    Widths();
    Load(e, s[at + 2..at + 4]) % TYPE_SPACE
  }

  /** sancus_nl_attr_get_payload_len, a 16-bit subtraction. */
  function PayloadLen(e: Endian, s: seq<byte>, at: nat): nat
    requires at + NLATTR_SIZE <= |s|
  {
    (AttrLen(e, s, at) + 0x1_0000 - NlAlign(NLATTR_SIZE)) % 0x1_0000
  }

  /** sancus_nl_attr_ok, `len` bytes being left from `at` on. */
  predicate AttrOk(e: Endian, s: seq<byte>, at: nat, len: int)
    requires NLATTR_SIZE <= len ==> at + NLATTR_SIZE <= |s|
  {
    NLATTR_SIZE <= len && NLATTR_SIZE <= AttrLen(e, s, at) <= len
  }

  /** The fields, byte by byte. */
  lemma FieldBytes(e: Endian, s: seq<byte>, at: nat)
    requires at + NLATTR_SIZE <= |s|
    ensures AttrLen(e, s, at)
         == if e.Little? then Word(s[at], s[at + 1]) else Word(s[at + 1], s[at])
    ensures GetType(e, s, at)
         == (if e.Little? then Word(s[at + 2], s[at + 3]) else Word(s[at + 3], s[at + 2])) % 0x4000
    ensures var n := AttrLen(e, s, at);
      PayloadLen(e, s, at) == if 4 <= n then n - 4 else n + 65532
  {
    hide Load, NlAlign, Word;
    LoadOfTwo(e, s[at..at + 2]);
    LoadOfTwo(e, s[at + 2..at + 4]);
    NlAlignRoundsUp(NLATTR_SIZE);
    LoadBound(e, s[at..at + 2]);
  }

  lemma LoadBound(e: Endian, s: seq<byte>)
    requires |s| == 2
    ensures Load(e, s) < 0x1_0000
  {
    Widths();
  }

  /** Before a tail, an attribute is accepted exactly if its header lies before the tail
      and its length covers the header and reaches no further than the tail. */
  lemma AttrOkIff(e: Endian, s: seq<byte>, at: nat, tail: nat)
    requires tail <= |s|
    ensures AttrOk(e, s, at, tail - at)
            <==> at + 4 <= tail && 4 <= AttrLen(e, s, at) && at + AttrLen(e, s, at) <= tail
  {
    hide AttrLen;
  }

  /** No attribute that lies within the length of its message is cut off by the tail. */
  lemma AttrInMessageIsOk(e: Endian, s: seq<byte>, at: nat)
    requires 4 <= |s| && MsgLen(e, s) <= 65532 && PayloadTail(e, s) <= |s|
    requires at + 4 <= MsgLen(e, s)
    requires 4 <= AttrLen(e, s, at) && at + AttrLen(e, s, at) <= MsgLen(e, s)
    ensures AttrOk(e, s, at, PayloadTail(e, s) - at)
  {
    hide AttrLen, PayloadTail, MsgLen;
    TailIsRoundedUp(e, s);
  }

  /** The attribute an accepted offset stands for. */
  function AttrAt(e: Endian, s: seq<byte>, at: nat): Attr
    requires at + NLATTR_SIZE <= |s|
    requires NLATTR_SIZE <= AttrLen(e, s, at) && at + AttrLen(e, s, at) <= |s|
  {
    Attr(GetType(e, s, at), s[at + NLATTR_SIZE..at + AttrLen(e, s, at)])
  }

  // ------------------------------------------------------------ walking

  /** The cursor of a walk in bounds: what the loop may rely on. */
  predicate InWalk(s: seq<byte>, at: nat, tail: nat) {
    tail <= |s| && tail <= 65532 && at % 4 == 0 && tail % 4 == 0
  }

  /** sancus_nl_attr_next */
  function Next(e: Endian, s: seq<byte>, at: nat): nat
    requires at + NLATTR_SIZE <= |s|
  {
    at + NlAlign(AttrLen(e, s, at))
  }

  /** One step of the loop: strictly forward by whole words, never past the tail. */
  lemma NextInWalk(e: Endian, s: seq<byte>, at: nat, tail: nat)
    requires InWalk(s, at, tail) && AttrOk(e, s, at, tail - at)
    ensures InWalk(s, Next(e, s, at), tail)
    ensures at + 4 <= at + AttrLen(e, s, at) <= Next(e, s, at) <= tail
    ensures Next(e, s, at) < at + AttrLen(e, s, at) + 4
  {
    hide AttrLen, NlAlign;
    NlAlignRoundsUp(AttrLen(e, s, at));
    NextMultiple(at, tail, AttrLen(e, s, at), NlAlign(AttrLen(e, s, at)));
  }

  lemma NextMultiple(at: nat, tail: nat, len: nat, step: nat)
    requires at % 4 == 0 && tail % 4 == 0 && step % 4 == 0
    requires at + len <= tail && step < len + 4
    ensures (at + step) % 4 == 0 && at + step <= tail
  {
    var x, y, z := at / 4, tail / 4, step / 4;
    assert at == 4 * x && tail == 4 * y && step == 4 * z;
    assert at + step == 4 * (x + z);
  }

  /** The offsets the attribute loop visits from `at` on. */
  function Offsets(e: Endian, s: seq<byte>, at: nat, tail: nat): seq<nat>
    requires InWalk(s, at, tail)
    decreases if at < tail then tail - at else 0
  {
    if AttrOk(e, s, at, tail - at) then
      NextInWalk(e, s, at, tail);
      [at] + Offsets(e, s, Next(e, s, at), tail)
    else
      []
  }

  /** What a complete walk is, said without the loop: it starts at the start, every
      visited attribute is aligned and lies wholly before the tail, each one begins
      where the previous one ends (padded), and the cursor left behind the last one
      has not passed the tail and stands on no further acceptable attribute. */
  ghost predicate IsWalk(e: Endian, s: seq<byte>, start: nat, tail: nat, o: seq<nat>)
    requires InWalk(s, start, tail)
  {
    && (forall i :: 0 <= i < |o| ==> o[i] % 4 == 0 && o[i] <= tail && AttrOk(e, s, o[i], tail - o[i]))
    && (o != [] ==> o[0] == start)
    && (forall i :: 0 <= i < |o| - 1 ==> o[i + 1] == Next(e, s, o[i]))
    && var end := if o == [] then start else Next(e, s, o[|o| - 1]);
    && (start <= tail ==> end <= tail)
    && !AttrOk(e, s, end, tail - end)
  }

  /** Over arbitrary bytes, the loop makes the one walk there is. */
  lemma {:induction false} LoopMakesTheOnlyWalk(e: Endian, s: seq<byte>, start: nat, tail: nat, o: seq<nat>)
    requires InWalk(s, start, tail)
    ensures IsWalk(e, s, start, tail, o) <==> o == Offsets(e, s, start, tail)
    decreases if start < tail then tail - start else 0
  {
    if AttrOk(e, s, start, tail - start) {
      NextInWalk(e, s, start, tail);
      var next := Next(e, s, start);
      if o != [] && o[0] == start {
        LoopMakesTheOnlyWalk(e, s, next, tail, o[1..]);
        if IsWalk(e, s, start, tail, o) {
          WalkUncons(e, s, start, tail, o);
        } else if IsWalk(e, s, next, tail, o[1..]) {
          WalkCons(e, s, start, tail, o[1..]);
        }
        assert o == [start] + o[1..];
      }
    }
  }

  lemma WalkCons(e: Endian, s: seq<byte>, start: nat, tail: nat, o: seq<nat>)
    requires InWalk(s, start, tail) && AttrOk(e, s, start, tail - start)
    requires InWalk(s, Next(e, s, start), tail)
    requires IsWalk(e, s, Next(e, s, start), tail, o)
    ensures IsWalk(e, s, start, tail, [start] + o)
  {
    hide AttrLen, Next;
    NextInWalk(e, s, start, tail);
    var r := [start] + o;
    forall i | 0 <= i < |r|
      ensures r[i] % 4 == 0 && r[i] <= tail && AttrOk(e, s, r[i], tail - r[i])
    {
      if 0 < i {
        assert r[i] == o[i - 1];
      }
    }
    forall i | 0 <= i < |r| - 1
      ensures r[i + 1] == Next(e, s, r[i])
    {
      if 0 < i {
        assert r[i] == o[i - 1] && r[i + 1] == o[i - 1 + 1];
      }
    }
  }

  lemma WalkUncons(e: Endian, s: seq<byte>, start: nat, tail: nat, o: seq<nat>)
    requires InWalk(s, start, tail) && AttrOk(e, s, start, tail - start)
    requires InWalk(s, Next(e, s, start), tail)
    requires o != [] && IsWalk(e, s, start, tail, o)
    ensures IsWalk(e, s, Next(e, s, start), tail, o[1..])
  {
    hide AttrLen, Next;
    var r := o[1..];
    forall i | 0 <= i < |r|
      ensures r[i] % 4 == 0 && r[i] <= tail && AttrOk(e, s, r[i], tail - r[i])
    {
      assert r[i] == o[i + 1];
    }
    forall i | 0 <= i < |r| - 1
      ensures r[i + 1] == Next(e, s, r[i])
    {
      assert r[i] == o[i + 1] && r[i + 1] == o[i + 1 + 1];
    }
    assert r != [] ==> r[0] == o[0 + 1] == Next(e, s, o[0]);
  }

  /** sancus_nl_attr_parse.  `cb(k, at)` is the callback's answer when its k-th call
      shows it the attribute at `at`; `visited` are the attributes it was shown. */
  method Parse(e: Endian, buf: array<byte>, offset: nat, cb: (nat, nat) -> int)
    returns (ret: int, visited: seq<nat>)
    requires NLMSGHDR_SIZE <= buf.Length
    requires PayloadTail(e, buf[..]) <= buf.Length
    ensures InWalk(buf[..], PayloadOffset(offset), PayloadTail(e, buf[..]))
    ensures exists unseen :: Offsets(e, buf[..], PayloadOffset(offset), PayloadTail(e, buf[..])) == visited + unseen
    ensures forall k :: 0 <= k < |visited| - 1 ==> cb(k, visited[k]) > 0
    ensures ret == if visited == [] then 1 else cb(|visited| - 1, visited[|visited| - 1])
    ensures ret > 0 ==> visited == Offsets(e, buf[..], PayloadOffset(offset), PayloadTail(e, buf[..]))
  {
    hide AttrLen, AttrOk, Next, NlAlign, MsgLen, Offsets;
    ghost var s := buf[..];
    NlAlignRoundsUp(MsgLen(e, s));
    NlAlignRoundsUp(NLMSGHDR_SIZE);
    NlAlignRoundsUp(offset);
    ret, visited := CB_OK, [];
    var n := GetMsgLen(e, buf);
    var at, tail := PayloadOffset(offset), NlAlign(n);
    ghost var all := Offsets(e, s, at, tail);
    while AttrOk(e, buf[..], at, tail as int - at)
      invariant buf[..] == s && tail == PayloadTail(e, s)
      invariant InWalk(s, at, tail)
      invariant all == visited + Offsets(e, s, at, tail)
      invariant forall k :: 0 <= k < |visited| ==> cb(k, visited[k]) > CB_STOP
      invariant ret == if visited == [] then CB_OK else cb(|visited| - 1, visited[|visited| - 1])
      invariant ret > CB_STOP
      decreases if at < tail then tail - at else 0
    {
      NextInWalk(e, s, at, tail);
      OffsetsStep(e, s, at, tail);
      visited := visited + [at];
      ret := cb(|visited| - 1, at);
      at := Next(e, buf[..], at);
      assert all == visited + Offsets(e, s, at, tail);
      if ret <= CB_STOP {
        return;
      }
    }
    OffsetsStep(e, s, at, tail);
    assert all == visited + [];
  }

  lemma OffsetsStep(e: Endian, s: seq<byte>, at: nat, tail: nat)
    requires InWalk(s, at, tail)
    ensures if AttrOk(e, s, at, tail - at) then
              && InWalk(s, Next(e, s, at), tail)
              && Offsets(e, s, at, tail) == [at] + Offsets(e, s, Next(e, s, at), tail)
            else
              Offsets(e, s, at, tail) == []
  {
    hide AttrLen, AttrOk, Next;
    if AttrOk(e, s, at, tail - at) {
      NextInWalk(e, s, at, tail);
    }
  }

  // ----------------------------------------------------------- building

  /** An attribute without its padding. */
  function AttrBytes(e: Endian, typ: u16, payload: seq<byte>): (b: seq<byte>)
    ensures |b| == NLATTR_SIZE + |payload|
  {
    Widths();
    Store(e, 2, (NLATTR_SIZE + |payload|) % 0x1_0000) + Store(e, 2, typ) + payload
  }

  /** Its length, as far as sixteen bits go, its whole type, flag bits included, and its
      payload. */
  lemma AttrBytesRead(e: Endian, typ: u16, payload: seq<byte>)
    requires |payload| < 0x1_0000
    ensures var b := AttrBytes(e, typ, payload);
      && AttrLen(e, b, 0) == (if |payload| <= 65531 then 4 + |payload| else |payload| - 65532)
      && Load(e, b[2..4]) == typ
      && b[4..] == payload
  {
    hide Load, Store, Pow256;
    Widths();
    var n := (NLATTR_SIZE + |payload|) % 0x1_0000;
    var x, y := Store(e, 2, n), Store(e, 2, typ);
    LoadStore(e, 2, n);
    LoadStore(e, 2, typ);
    assert (x + y + payload)[0..2] == x && (x + y + payload)[2..4] == y;
  }

  /** The message after __sancus_nl_attr_put_nocheck. */
  function AttrPut(e: Endian, s: seq<byte>, typ: u16, payload: seq<byte>): (r: seq<byte>)
    requires 4 <= |s| && PayloadTail(e, s) + NLATTR_SIZE + |payload| <= |s|
    ensures |r| == |s|
  {
    var m := Patch(s, PayloadTail(e, s), AttrBytes(e, typ, payload));
    WithMsgLen(e, m, MsgLen(e, m) + NlAlign(NLATTR_SIZE + |payload|))
  }

  /** __sancus_nl_attr_put_nocheck */
  method PutNocheck(e: Endian, buf: array<byte>, typ: u16, data: seq<byte>)
    requires |data| < 0x1_0000
    requires 4 <= buf.Length && PayloadTail(e, buf[..]) + NLATTR_SIZE + |data| <= buf.Length
    modifies buf
    ensures buf[..] == AttrPut(e, old(buf[..]), typ, data)
  {
    hide WithMsgLen, Patch, MsgLen, AttrBytes;
    var n := GetMsgLen(e, buf);
    var attr := NlAlign(n);
    var payloadLen := NlAlign(NLATTR_SIZE) + |data|;
    WriteAttr(e, buf, attr, typ, payloadLen % 0x1_0000, data);
    n := GetMsgLen(e, buf);
    SetMsgLen(e, buf, n + NlAlign(payloadLen));
  }

  /** The three stores of an attribute, in the order the program makes them. */
  method WriteAttr(e: Endian, buf: array<byte>, attr: nat, typ: u16, len: u16, data: seq<byte>)
    requires attr + NLATTR_SIZE + |data| <= buf.Length
    requires len == (NLATTR_SIZE + |data|) % 0x1_0000
    modifies buf
    ensures buf[..] == Patch(old(buf[..]), attr, AttrBytes(e, typ, data))
  {
    hide Store, Pow256, Patch;
    Widths();
    WriteBytes(buf, attr + 2, Store(e, 2, typ));
    WriteBytes(buf, attr, Store(e, 2, len));
    WriteBytes(buf, attr + NlAlign(NLATTR_SIZE), data);
    PatchedInPieces(old(buf[..]), attr, Store(e, 2, len), Store(e, 2, typ), data);
  }

  lemma PatchedInPieces(s: seq<byte>, at: nat, a: seq<byte>, b: seq<byte>, c: seq<byte>)
    requires at + |a| + |b| + |c| <= |s|
    ensures Patch(Patch(Patch(s, at + |a|, b), at, a), at + |a| + |b|, c) == Patch(s, at, a + b + c)
  {
  }

  /** The capacity check of __sancus_nl_attr_put_check. */
  predicate Fits(n: nat, buflen: nat, len: nat) {
    (n + NlAlign(NLATTR_SIZE) + NlAlign(len)) % U32 <= buflen
  }

  /** What a put asks of its caller: a message under construction in a buffer of at
      least `buflen` bytes, and lengths within the sixteen bits the format has. */
  ghost predicate CanPut(e: Endian, s: seq<byte>, buflen: nat, len: nat) {
    Built(e, s) && buflen <= |s| && buflen <= 65535 && len <= 65532
  }

  /** The check charges a put exactly what the put then adds to the message,
      except for payloads of 65529 to 65532 bytes. */
  lemma CheckChargesWhatPutAdds(len: nat)
    requires len < 0x1_0000
    ensures NlAlign(NLATTR_SIZE) + NlAlign(len) == NlAlign(NLATTR_SIZE + len)
            <==> !(65529 <= len <= 65532)
  {
    if len <= 65528 {
      NlAlignAdd(len);
    }
  }

  /** Where the message is aligned, a put passes the check without room for its bytes
      exactly if its payload is beyond 65532 bytes, whose padded length wraps to nothing,
      and there is room for a header but not for the rest. */
  lemma CheckCoversTheWrite(n: nat, buflen: nat, len: nat)
    requires n <= 65532 && n % 4 == 0 && len < 0x1_0000
    ensures Fits(n, buflen, len) && buflen < n + NLATTR_SIZE + len
            <==> 65533 <= len && n + NLATTR_SIZE <= buflen < n + NLATTR_SIZE + len
  {
    hide Fits, NlAlign;
    FitsWithoutWrap(n, buflen, len);
    NlAlignRoundsUp(len);
    if 65533 <= len {
      AlignWraps(len);
    }
  }

  /** Lengths of sixteen bits do not wrap the 32 bits of the sum. */
  lemma FitsWithoutWrap(n: nat, buflen: nat, len: nat)
    requires n <= 65532
    ensures Fits(n, buflen, len) <==> n + 4 + NlAlign(len) <= buflen
  {
    hide NlAlign, Fits;
    FitsWithWrap(n, buflen, len);
    NlAlignRoundsUp(len);
  }

  /** Any other 32-bit length may. */
  lemma FitsWithWrap(n: nat, buflen: nat, len: nat)
    requires n < U32
    ensures var end := n + 4 + NlAlign(len);
      Fits(n, buflen, len) <==> if end < U32 then end <= buflen else end - U32 <= buflen
  {
    hide NlAlign;
    NlAlignRoundsUp(NLATTR_SIZE);
    NlAlignRoundsUp(len);
  }

  /** The check lets 65533 bytes pass where there is room for four. */
  lemma CheckPassesTooMuch()
    ensures Fits(NLMSGHDR_SIZE, 20, 65533)
  {
  }

  /** Aligned or not, the check covers the write under every limit exactly if the payload
      is not beyond sixteen bits and is padded by at least as much as the message lacks. */
  lemma CheckCoversUnderEveryLimit(n: nat, len: nat)
    requires n <= 65532 && len < 0x1_0000
    ensures (forall buflen: nat :: Fits(n, buflen, len) ==> NlAlign(n) + NLATTR_SIZE + len <= buflen)
            <==> len <= 65532 && NlAlign(n) - n <= NlAlign(len) - len
  {
    hide Fits, NlAlign;
    NlAlignRoundsUp(n);
    NlAlignRoundsUp(len);
    if 65533 <= len {
      AlignWraps(len);
    }
    var least := n + NLATTR_SIZE + NlAlign(len);
    FitsWithoutWrap(n, least, len);
    forall buflen: nat
      ensures Fits(n, buflen, len) <==> least <= buflen
    {
      FitsWithoutWrap(n, buflen, len);
    }
  }

  /** What the check decides. */
  lemma FitsIff(n: nat, buflen: nat, len: nat)
    requires NLMSGHDR_SIZE <= n <= 65532 && n % 4 == 0 && buflen <= 65535 && len <= 65532
    ensures Fits(n, buflen, len) <==> len <= 65528 && n + NlAlign(NLATTR_SIZE + len) <= buflen
  {
    NlAlignRoundsUp(len);
    if len <= 65528 {
      NlAlignAdd(len);
    }
  }

  lemma FitsInside(n: nat, buflen: nat, len: nat)
    requires NLMSGHDR_SIZE <= n <= 65532 && n % 4 == 0 && buflen <= 65535 && len <= 65532
    requires Fits(n, buflen, len)
    ensures len <= 65528
    ensures NlAlign(NLATTR_SIZE + len) == NLATTR_SIZE + NlAlign(len)
    ensures n + NLATTR_SIZE + len <= n + NlAlign(NLATTR_SIZE + len) <= buflen
    ensures n + NlAlign(NLATTR_SIZE + len) <= 65532
    ensures (n + NlAlign(NLATTR_SIZE + len)) % 4 == 0
  {
    hide NlAlign;
    NlAlignRoundsUp(NLATTR_SIZE);
    NlAlignRoundsUp(len);
    if len <= 65528 {
      NlAlignAdd(len);
    }
    assert buflen / 4 * 4 <= 65532;
  }

  /** An attribute of `len` payload bytes behind the message lies in the buffer. */
  predicate LiesInside(e: Endian, s: seq<byte>, len: nat) {
    4 <= |s| && PayloadTail(e, s) + NLATTR_SIZE + len <= |s|
  }

  /** Checked put, as a function: whether it is accepted and the message after it.  (A put
      that passes the check and would write outside the buffer means nothing.) */
  function Put(e: Endian, s: seq<byte>, buflen: nat, typ: u16, data: seq<byte>): (r: (bool, seq<byte>))
    requires 4 <= |s|
  {
    if Fits(MsgLen(e, s), buflen, |data|) && LiesInside(e, s, |data|) then
      (true, AttrPut(e, s, typ, data))
    else
      (false, s)
  }

  /** __sancus_nl_attr_put_check, of at most as many bytes as a uint16_t says; its caller only answers for the write to stay in the
      buffer if the check lets it pass. */
  method PutCheck(e: Endian, buf: array<byte>, buflen: nat, typ: u16, data: seq<byte>) returns (ok: bool)
    requires 4 <= buf.Length && |data| < 0x1_0000
    requires Fits(MsgLen(e, buf[..]), buflen, |data|) ==> LiesInside(e, buf[..], |data|)
    modifies buf
    ensures (ok, buf[..]) == Put(e, old(buf[..]), buflen, typ, data)
    ensures ok <==> Fits(MsgLen(e, old(buf[..])), buflen, |data|)
  {
    hide AttrPut, MsgLen;
    var n := GetMsgLen(e, buf);
    if (n + NlAlign(NLATTR_SIZE) + NlAlign(|data|)) % U32 > buflen {
      return false;
    }
    PutNocheck(e, buf, typ, data);
    ok := true;
  }

  /** On a message under construction the caller's part is done. */
  lemma CanPutLiesInside(e: Endian, s: seq<byte>, buflen: nat, len: nat)
    requires CanPut(e, s, buflen, len)
    ensures Fits(MsgLen(e, s), buflen, len) ==> LiesInside(e, s, len)
  {
    hide MsgLen;
    NlAlignRoundsUp(MsgLen(e, s));
    if Fits(MsgLen(e, s), buflen, len) {
      FitsInside(MsgLen(e, s), buflen, len);
    }
  }

  lemma AttrPutBytes(e: Endian, s: seq<byte>, typ: u16, data: seq<byte>)
    requires LiesInside(e, s, |data|) && 4 <= PayloadTail(e, s)
    ensures var at := PayloadTail(e, s);
      var end := at + NLATTR_SIZE + |data|;
      var r := AttrPut(e, s, typ, data);
      && MsgLen(e, r) == (MsgLen(e, s) + NlAlign(NLATTR_SIZE + |data|)) % U32
      && r[at..end] == AttrBytes(e, typ, data)
      && forall i :: 4 <= i < at || end <= i < |s| ==> r[i] == s[i]
  {
    hide AttrBytes, MsgLen, WithMsgLen, NlAlign;
    var b := AttrBytes(e, typ, data);
    MsgLenKept(e, s, PayloadTail(e, s), b);
    AgreeBehindLength(AttrPut(e, s, typ, data), Patch(s, PayloadTail(e, s), b));
  }

  /** What a put does to any message at all, in a buffer it does not leave: if the check
      passes, the attribute is written at the tail, and the length grows by its aligned
      size; everything else stays, as does everything if the check does not pass.  (A tail
      at zero is that of an empty message, or of a length that wraps; the attribute then
      starts where the length is.) */
  lemma PutIs(e: Endian, s: seq<byte>, buflen: nat, typ: u16, data: seq<byte>)
    requires 4 <= |s| && |data| < 0x1_0000
    requires Fits(MsgLen(e, s), buflen, |data|) ==> LiesInside(e, s, |data|)
    ensures var (ok, r) := Put(e, s, buflen, typ, data);
      && ok == Fits(MsgLen(e, s), buflen, |data|)
      && (!ok ==> r == s)
      && (ok ==> AttrWritten(e, s, typ, data, r))
  {
    hide AttrPut, AttrBytes, MsgLen, PayloadTail, AttrWritten;
    if Fits(MsgLen(e, s), buflen, |data|) {
      AttrPutIs(e, s, typ, data);
    }
  }

  ghost predicate AttrWritten(e: Endian, s: seq<byte>, typ: u16, data: seq<byte>, r: seq<byte>)
    requires LiesInside(e, s, |data|)
  {
    var t, b := PayloadTail(e, s), AttrBytes(e, typ, data);
    && |r| == |s|
    && (forall i :: 4 <= i < |s| ==> r[i] == if t <= i < t + |b| then b[i - t] else s[i])
    && MsgLen(e, r) == ((if t == 0 then MsgLen(e, b) else MsgLen(e, s)) + NlAlign(4 + |data|)) % U32
  }

  lemma AttrPutIs(e: Endian, s: seq<byte>, typ: u16, data: seq<byte>)
    requires LiesInside(e, s, |data|)
    ensures AttrWritten(e, s, typ, data, AttrPut(e, s, typ, data))
  {
    hide AttrBytes, MsgLen, WithMsgLen, NlAlign, PayloadTail, Patch;
    TailIsRoundedUp(e, s);
    var t, b := PayloadTail(e, s), AttrBytes(e, typ, data);
    var m := Patch(s, t, b);
    if t == 0 {
      assert m[..4] == m[0..|b|][..4] == b[..4];
      SameLen(e, m, b);
    } else {
      MsgLenKept(e, s, t, b);
    }
    AgreeBehindLength(AttrPut(e, s, typ, data), m);
    PatchedAt(s, t, b);
  }

  lemma PatchedAt(s: seq<byte>, t: nat, b: seq<byte>)
    requires t + |b| <= |s|
    ensures forall i :: 0 <= i < |s| ==> Patch(s, t, b)[i] == if t <= i < t + |b| then b[i - t] else s[i]
  {
  }

  /** In particular, no put touches the bytes of the message it finds, however long. */
  lemma PutKeepsTheMessage(e: Endian, s: seq<byte>, typ: u16, data: seq<byte>)
    requires LiesInside(e, s, |data|) && MsgLen(e, s) <= 65532
    ensures MsgLen(e, s) <= |s|
    ensures forall i :: 4 <= i < MsgLen(e, s) ==> AttrPut(e, s, typ, data)[i] == s[i]
  {
    hide AttrBytes, MsgLen, AttrPut, PayloadTail;
    TailIsRoundedUp(e, s);
    AttrPutIs(e, s, typ, data);
  }

  lemma SameLen(e: Endian, s: seq<byte>, r: seq<byte>)
    requires 4 <= |s| && 4 <= |r| && s[..4] == r[..4]
    ensures MsgLen(e, s) == MsgLen(e, r)
  {
  }

  /** What an accepted put changes: the attribute appears at the old end, the length
      grows by its aligned size, and every other byte stays -- whatever sits in the
      padding stays there too.  A rejected put changes nothing. */
  lemma PutEffect(e: Endian, s: seq<byte>, buflen: nat, typ: u16, data: seq<byte>)
    requires CanPut(e, s, buflen, |data|)
    ensures var n := MsgLen(e, s);
      var (ok, r) := Put(e, s, buflen, typ, data);
      && |r| == |s|
      && Built(e, r)
      && ok == (n + NlAlign(NLATTR_SIZE + |data|) <= buflen && |data| <= 65528)
      && (!ok ==> r == s)
      && (ok ==>
            && MsgLen(e, r) == n + NlAlign(NLATTR_SIZE + |data|) <= buflen
            && n + NLATTR_SIZE + |data| <= MsgLen(e, r)
            && r[n..n + NLATTR_SIZE + |data|] == AttrBytes(e, typ, data)
            && forall i :: 4 <= i < n || n + NLATTR_SIZE + |data| <= i < |s| ==> r[i] == s[i])
  {
    hide AttrPut, AttrBytes, MsgLen, Fits, NlAlign;
    var n := MsgLen(e, s);
    NlAlignRoundsUp(n);
    FitsIff(n, buflen, |data|);
    CanPutLiesInside(e, s, buflen, |data|);
    if Fits(n, buflen, |data|) {
      FitsInside(n, buflen, |data|);
      AttrPutBytes(e, s, typ, data);
    }
  }

  /** With a limit beyond sixteen bits an accepted put can take the message beyond what
      the format can address, exactly when its padded length passes 65532; the next
      attribute would then be put over the message's own start. */
  lemma WhenPutOutgrowsTheFormat(e: Endian, s: seq<byte>, buflen: nat, typ: u16, data: seq<byte>)
    requires Built(e, s) && buflen <= |s| && |data| <= 65528
    requires Fits(MsgLen(e, s), buflen, |data|)
    ensures var r := Put(e, s, buflen, typ, data).1;
      var n := MsgLen(e, s) + NlAlign(NLATTR_SIZE + |data|);
      && LiesInside(e, s, |data|)
      && MsgLen(e, r) == n
      && (Built(e, r) <==> n <= 65532)
      && (!Built(e, r) ==> PayloadTail(e, r) == n - 0x1_0000)
  {
    hide AttrPut, MsgLen, AttrBytes, NlAlign, Fits;
    NlAlignRoundsUp(MsgLen(e, s));
    LengthAfterPut(MsgLen(e, s), buflen, |data|);
    AttrPutBytes(e, s, typ, data);
  }

  lemma LengthAfterPut(n: nat, buflen: nat, len: nat)
    requires NLMSGHDR_SIZE <= n <= 65532 && n % 4 == 0 && len <= 65528 && Fits(n, buflen, len)
    ensures var end := n + NlAlign(NLATTR_SIZE + len);
      && n + NLATTR_SIZE + len <= end <= buflen
      && end % 4 == 0 && end < U32
      && (65532 < end ==> NlAlign(end) == end - 0x1_0000)
  {
    hide NlAlign;
    NlAlignRoundsUp(NLATTR_SIZE);
    NlAlignRoundsUp(len);
    NlAlignAdd(len);
    if 65532 < n + NlAlign(NLATTR_SIZE + len) {
      AlignWraps(n + NlAlign(NLATTR_SIZE + len));
    }
  }

  lemma AlignWraps(n: nat)
    requires 65532 < n < 131068
    ensures n % 4 == 0 ==> NlAlign(n) == n - 0x1_0000
    ensures n < 0x1_0000 ==> NlAlign(n) == 0
  {
  }
}
