/**
 Building a message and parsing it back: what a run of puts stores is what the
 attribute loop delivers and what the typed getters return.
 */
module NetlinkRoundTrip {
  import opened HostOrder
  import opened NetlinkMsg
  import opened NetlinkAttr

  // ------------------------------------------------------ runs of puts

  datatype PutOp = PutOp(buflen: nat, typ: u16, payload: seq<byte>)

  /** Every put of the run is one a caller may make on a message of `size` bytes. */
  ghost predicate Puttable(size: nat, ops: seq<PutOp>)
    decreases ops
  {
    ops != [] ==>
      && ops[0].buflen <= size && ops[0].buflen <= 65535 && |ops[0].payload| <= 65532
      && Puttable(size, ops[1..])
  }

  /** The message after one put. */
  function PutOn(e: Endian, s: seq<byte>, op: PutOp): (r: seq<byte>)
    requires CanPut(e, s, op.buflen, |op.payload|)
    ensures |r| == |s| && Built(e, r)
  {
    PutEffect(e, s, op.buflen, op.typ, op.payload);
    Put(e, s, op.buflen, op.typ, op.payload).1
  }

  /** The message after a run of puts, each accepted or rejected on its own. */
  function RunPuts(e: Endian, s: seq<byte>, ops: seq<PutOp>): (r: seq<byte>)
    requires Built(e, s) && Puttable(|s|, ops)
    ensures |r| == |s| && Built(e, r)
    decreases ops
  {
    if ops == [] then s else RunPuts(e, PutOn(e, s, ops[0]), ops[1..])
  }

  /** The puts that are accepted, worked out from lengths alone. */
  function Accepted(n: nat, ops: seq<PutOp>): seq<PutOp>
    decreases ops
  {
    if ops == [] then
      []
    else
      var end := n + NlAlign(NLATTR_SIZE + |ops[0].payload|);
      if |ops[0].payload| <= 65528 && end <= ops[0].buflen then
        [ops[0]] + Accepted(end, ops[1..])
      else
        Accepted(n, ops[1..])
  }

  /** `p` is stored at `at`. */
  ghost predicate StoredAt(e: Endian, s: seq<byte>, at: nat, p: PutOp) {
    && |p.payload| <= 65528
    && at + NLATTR_SIZE + |p.payload| <= |s|
    && s[at..at + NLATTR_SIZE + |p.payload|] == AttrBytes(e, p.typ, p.payload)
  }

  function After(at: nat, p: PutOp): nat {
    at + NlAlign(NLATTR_SIZE + |p.payload|)
  }

  /** The attributes `puts` stand one behind the other from `at` up to `end`. */
  ghost predicate Layout(e: Endian, s: seq<byte>, at: nat, puts: seq<PutOp>, end: nat)
    decreases puts
  {
    if puts == [] then
      at == end
    else
      StoredAt(e, s, at, puts[0]) && Layout(e, s, After(at, puts[0]), puts[1..], end)
  }

  lemma {:induction false} LayoutEnds(e: Endian, s: seq<byte>, at: nat, puts: seq<PutOp>, end: nat)
    requires Layout(e, s, at, puts, end)
    ensures at <= end
    ensures puts != [] ==> After(at, puts[0]) <= end
    decreases puts
  {
    if puts != [] {
      LayoutEnds(e, s, After(at, puts[0]), puts[1..], end);
    }
  }

  lemma StoredFields(e: Endian, s: seq<byte>, at: nat, p: PutOp)
    requires StoredAt(e, s, at, p)
    ensures var n := NLATTR_SIZE + |p.payload|;
      && n < Pow256(2) && p.typ < Pow256(2)
      && s[at..at + 2] == Store(e, 2, n)
      && s[at + 2..at + 4] == Store(e, 2, p.typ)
      && s[at + NLATTR_SIZE..at + n] == p.payload
  {
    hide Store, Pow256;
    Widths();
    var n := NLATTR_SIZE + |p.payload|;
    var a, b := Store(e, 2, n), Store(e, 2, p.typ);
    assert s[at..at + n] == a + b + p.payload;
    assert s[at..at + n][0..2] == a && s[at..at + n][2..4] == b && s[at..at + n][4..n] == p.payload;
    SliceOfSlice(s, at, n, 0, 2);
    SliceOfSlice(s, at, n, 2, 4);
    SliceOfSlice(s, at, n, NLATTR_SIZE, n);
  }

  /** What the field accessors read where an attribute is stored. */
  lemma ReadStored(e: Endian, s: seq<byte>, at: nat, p: PutOp)
    requires StoredAt(e, s, at, p)
    ensures |p.payload| <= 65528 && at + NLATTR_SIZE + |p.payload| <= |s|
    ensures AttrLen(e, s, at) == NLATTR_SIZE + |p.payload|
    ensures PayloadLen(e, s, at) == |p.payload|
    ensures AttrAt(e, s, at) == Attr(p.typ % TYPE_SPACE, p.payload)
    ensures Load(e, s[at + 2..at + 4]) == p.typ
  {
    hide AttrBytes, Load, Store;
    StoredFields(e, s, at, p);
    LoadStore(e, 2, NLATTR_SIZE + |p.payload|);
    LoadStore(e, 2, p.typ);
  }

  /** The walk over a layout visits its attributes, each one once and in order. */
  lemma {:induction false} WalkLayout(e: Endian, s: seq<byte>, at: nat, puts: seq<PutOp>, end: nat)
    requires Layout(e, s, at, puts, end) && InWalk(s, at, end)
    ensures var o := Offsets(e, s, at, end);
      && |o| == |puts|
      && forall i :: 0 <= i < |o| ==> StoredAt(e, s, o[i], puts[i])
    decreases puts
  {
    hide StoredAt, AttrLen;
    if puts != [] {
      var p := puts[0];
      ReadStored(e, s, at, p);
      NlAlignRoundsUp(NLATTR_SIZE + |p.payload|);
      LayoutEnds(e, s, at, puts, end);
      assert AttrOk(e, s, at, end - at);
      NextInWalk(e, s, at, end);
      WalkLayout(e, s, After(at, p), puts[1..], end);
      var o, r := Offsets(e, s, at, end), Offsets(e, s, After(at, p), end);
      assert o == [at] + r;
      forall i | 0 <= i < |o|
        ensures StoredAt(e, s, o[i], puts[i])
      {
        if 0 < i {
          assert o[i] == r[i - 1] && puts[i] == puts[1..][i - 1];
        }
      }
    }
  }

  /** Capacity: the length a run ends with is the start plus the aligned sizes of the
      accepted puts, and no put takes the message past the limit it was given. */
  lemma {:induction false} RunStaysInside(e: Endian, s: seq<byte>, ops: seq<PutOp>, limit: nat)
    requires Built(e, s) && Puttable(|s|, ops)
    requires MsgLen(e, s) <= limit && Puttable(limit, ops)
    ensures var r := RunPuts(e, s, ops);
      && MsgLen(e, s) <= MsgLen(e, r) <= limit
      && MsgLen(e, r) % 4 == 0
      && (forall i :: 4 <= i < MsgLen(e, s) ==> r[i] == s[i])
      && (forall i :: limit <= i < |s| ==> r[i] == s[i])
    decreases ops
  {
    hide Put, MsgLen;
    if ops != [] {
      var op := ops[0];
      PutEffect(e, s, op.buflen, op.typ, op.payload);
      RunStaysInside(e, PutOn(e, s, op), ops[1..], limit);
    }
  }

  /** A run of puts lays out exactly the accepted ones behind the message it finds. */
  lemma {:induction false} RunLayout(e: Endian, s: seq<byte>, ops: seq<PutOp>)
    requires Built(e, s) && Puttable(|s|, ops)
    ensures var r := RunPuts(e, s, ops);
      Layout(e, r, MsgLen(e, s), Accepted(MsgLen(e, s), ops), MsgLen(e, r))
    decreases ops
  {
    hide MsgLen, PutOn, NlAlign, StoredAt;
    if ops != [] {
      var n, op := MsgLen(e, s), ops[0];
      var m, r := PutOn(e, s, op), RunPuts(e, s, ops);
      PutOnEffect(e, s, op);
      RunLayout(e, m, ops[1..]);
      if |op.payload| <= 65528 && After(n, op) <= op.buflen {
        RunStaysInside(e, m, ops[1..], |m|);
        StoredFrame(e, m, r, n, op);
        LayoutCons(e, r, n, op, Accepted(After(n, op), ops[1..]), MsgLen(e, r));
      }
    }
  }

  lemma LayoutCons(e: Endian, s: seq<byte>, at: nat, p: PutOp, puts: seq<PutOp>, end: nat)
    requires StoredAt(e, s, at, p) && Layout(e, s, After(at, p), puts, end)
    ensures Layout(e, s, at, [p] + puts, end)
  {
    assert ([p] + puts)[1..] == puts;
  }

  lemma StoredFrame(e: Endian, s: seq<byte>, r: seq<byte>, at: nat, p: PutOp)
    requires StoredAt(e, s, at, p) && |r| == |s|
    requires forall i :: at <= i < at + NLATTR_SIZE + |p.payload| ==> r[i] == s[i]
    ensures StoredAt(e, r, at, p)
  {
    var n := NLATTR_SIZE + |p.payload|;
    assert r[at..at + n] == s[at..at + n];
  }

  lemma PutOnEffect(e: Endian, s: seq<byte>, op: PutOp)
    requires CanPut(e, s, op.buflen, |op.payload|)
    ensures var m := PutOn(e, s, op);
      var n := MsgLen(e, s);
      if |op.payload| <= 65528 && After(n, op) <= op.buflen then
        && MsgLen(e, m) == After(n, op)
        && 4 <= n && n + NLATTR_SIZE + |op.payload| <= MsgLen(e, m) <= |m|
        && StoredAt(e, m, n, op)
      else
        m == s
  {
    hide Put, MsgLen, AttrBytes;
    PutEffect(e, s, op.buflen, op.typ, op.payload);
  }

  /** A fresh message: header, then an extra header of `extra` bytes. */
  function Started(e: Endian, s: seq<byte>, extra: nat): (r: seq<byte>)
    requires PayloadOffset(extra) <= |s| && PayloadOffset(extra) <= 65532
    ensures |r| == |s| && Built(e, r) && MsgLen(e, r) == PayloadOffset(extra)
  {
    StartedMessage(e, s, extra);
    ExtraHeaderPut(e, HeaderPut(e, s), extra)
  }

  /** Build, then walk: whatever the buffer held before, after a header, an extra
      header and any run of puts, the attribute loop told to skip that extra header
      visits exactly the accepted puts, in order, and each visited attribute has the
      payload of its put and its type up to the two flag bits. */
  lemma BuildThenWalk(e: Endian, s: seq<byte>, extra: nat, ops: seq<PutOp>)
    requires PayloadOffset(extra) <= |s| && PayloadOffset(extra) <= 65532
    requires Puttable(|s|, ops)
    ensures var r := RunPuts(e, Started(e, s, extra), ops);
      var acc := Accepted(PayloadOffset(extra), ops);
      && InWalk(r, PayloadOffset(extra), PayloadTail(e, r))
      && var o := Offsets(e, r, PayloadOffset(extra), PayloadTail(e, r));
      && |o| == |acc|
      && (forall i :: 0 <= i < |o| ==> StoredAt(e, r, o[i], acc[i]))
      && (forall i :: 0 <= i < |o| ==>
            && o[i] + NLATTR_SIZE <= |r|
            && NLATTR_SIZE <= AttrLen(e, r, o[i]) && o[i] + AttrLen(e, r, o[i]) <= |r|
            && AttrAt(e, r, o[i]) == Attr(acc[i].typ % TYPE_SPACE, acc[i].payload))
  {
    hide AttrLen, AttrAt, AttrBytes, MsgLen;
    var start := PayloadOffset(extra);
    var s0 := Started(e, s, extra);
    RunLayout(e, s0, ops);
    var r := RunPuts(e, s0, ops);
    var acc := Accepted(start, ops);
    NlAlignRoundsUp(extra);
    NlAlignRoundsUp(MsgLen(e, r));
    WalkLayout(e, r, start, acc, MsgLen(e, r));
    var o := Offsets(e, r, start, MsgLen(e, r));
    forall i | 0 <= i < |o|
      ensures && o[i] + NLATTR_SIZE <= |r|
              && NLATTR_SIZE <= AttrLen(e, r, o[i]) && o[i] + AttrLen(e, r, o[i]) <= |r|
              && AttrAt(e, r, o[i]) == Attr(acc[i].typ % TYPE_SPACE, acc[i].payload)
    {
      assert StoredAt(e, r, o[i], acc[i]);
      ReadStored(e, r, o[i], acc[i]);
    }
  }

  /** The same with the program's own methods on one array: start a message, put the
      attributes, parse it.  A callback that always goes on is shown exactly the
      accepted puts. */
  method BuildAndParse(e: Endian, buf: array<byte>, extra: nat, ops: seq<PutOp>, cb: (nat, nat) -> int)
    returns (ret: int, visited: seq<nat>)
    requires PayloadOffset(extra) <= buf.Length && PayloadOffset(extra) <= 65532
    requires Puttable(buf.Length, ops)
    modifies buf
    ensures buf[..] == RunPuts(e, Started(e, old(buf[..]), extra), ops)
    ensures var acc := Accepted(PayloadOffset(extra), ops);
      && |visited| <= |acc|
      && (ret > 0 ==> |visited| == |acc|)
      && (forall i :: 0 <= i < |visited| ==> StoredAt(e, buf[..], visited[i], acc[i]))
    ensures forall k :: 0 <= k < |visited| - 1 ==> cb(k, visited[k]) > 0
    ensures ret == if visited == [] then 1 else cb(|visited| - 1, visited[|visited| - 1])
  {
    hide StoredAt, PutOn, MsgLen, HeaderPut, ExtraHeaderPut, NlAlign;
    ghost var s := buf[..];
    BuildThenWalk(e, s, extra, ops);
    StartedMessage(e, s, extra);
    PutHeader(e, buf);
    NlAlignRoundsUp(NLMSGHDR_SIZE);
    var _ := PutExtraHeader(e, buf, extra);
    PutAll(e, buf, ops);
    NlAlignRoundsUp(MsgLen(e, buf[..]));
    ret, visited := Parse(e, buf, extra, cb);
  }

  /** A run of checked puts on one array. */
  method PutAll(e: Endian, buf: array<byte>, ops: seq<PutOp>)
    requires Built(e, buf[..]) && Puttable(buf.Length, ops)
    modifies buf
    ensures buf[..] == RunPuts(e, old(buf[..]), ops)
    decreases ops
  {
    hide Put, MsgLen;
    if ops != [] {
      var op := ops[0];
      CanPutLiesInside(e, buf[..], op.buflen, |op.payload|);
      var _ := PutCheck(e, buf, op.buflen, op.typ, op.payload);
      assert buf[..] == PutOn(e, old(buf[..]), op);
      PutAll(e, buf, ops[1..]);
    }
  }
}
