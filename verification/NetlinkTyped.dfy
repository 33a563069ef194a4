/**
 The typed puts, getters and validators, and the round trip through all of them.
 */
module NetlinkTyped {
  import opened HostOrder
  import opened NetlinkMsg
  import opened NetlinkAttr
  import opened NetlinkRoundTrip

  type u8 = byte
  type u32 = x: int | 0 <= x < 0x1_0000_0000
  type u64 = x: int | 0 <= x < 0x1_0000_0000_0000_0000

  /** The bytes of a C string before its terminator. */
  type CString = t: seq<byte> | 0 !in t

  /** The argument of one of the typed puts. */
  datatype Value =
    | U8(v8: u8)
    | U16(v16: u16)
    | U32(v32: u32)
    | U64(v64: u64)
    | Str(text: CString)
    | NulStr(text: CString)

  /** The bytes a typed put hands to the checked put. */
  function Payload(e: Endian, v: Value): seq<byte> {
    Widths();
    match v
    case U8(x) => Store(e, 1, x)
    case U16(x) => Store(e, 2, x)
    case U32(x) => Store(e, 4, x)
    case U64(x) => Store(e, 8, x)
    case Str(t) => t
    case NulStr(t) => t + [0]
  }

  /** Integers take their width and load back, strings are as they are, and one NUL ends
      those that have one. */
  lemma PayloadIs(e: Endian, v: Value)
    ensures var p := Payload(e, v);
      match v
      case U8(x) => p == [x]
      case U16(x) => |p| == 2 && Load(e, p) == x
      case U32(x) => |p| == 4 && Load(e, p) == x
      case U64(x) => |p| == 8 && Load(e, p) == x
      case Str(t) => p == t
      case NulStr(t) => |p| == |t| + 1 && p[..|t|] == t && p[|t|] == 0
  {
    Widths();
    match v
    case U8(x) => LoadStore(e, 1, x);
    case U16(x) => LoadStore(e, 2, x);
    case U32(x) => LoadStore(e, 4, x);
    case U64(x) => LoadStore(e, 8, x);
    case _ =>
  }

  // --------------------------------------------------------------- puts

  method PutU8(e: Endian, buf: array<byte>, buflen: nat, typ: u16, data: u8) returns (ok: bool)
    requires 4 <= buf.Length
    requires Fits(MsgLen(e, buf[..]), buflen, 1) ==> LiesInside(e, buf[..], 1)
    modifies buf
    ensures (ok, buf[..]) == Put(e, old(buf[..]), buflen, typ, Payload(e, U8(data)))
  {
    Widths();
    ok := PutCheck(e, buf, buflen, typ, Store(e, 1, data));
  }

  method PutU16(e: Endian, buf: array<byte>, buflen: nat, typ: u16, data: u16) returns (ok: bool)
    requires 4 <= buf.Length
    requires Fits(MsgLen(e, buf[..]), buflen, 2) ==> LiesInside(e, buf[..], 2)
    modifies buf
    ensures (ok, buf[..]) == Put(e, old(buf[..]), buflen, typ, Payload(e, U16(data)))
  {
    Widths();
    ok := PutCheck(e, buf, buflen, typ, Store(e, 2, data));
  }

  method PutU32(e: Endian, buf: array<byte>, buflen: nat, typ: u16, data: u32) returns (ok: bool)
    requires 4 <= buf.Length
    requires Fits(MsgLen(e, buf[..]), buflen, 4) ==> LiesInside(e, buf[..], 4)
    modifies buf
    ensures (ok, buf[..]) == Put(e, old(buf[..]), buflen, typ, Payload(e, U32(data)))
  {
    Widths();
    ok := PutCheck(e, buf, buflen, typ, Store(e, 4, data));
  }

  method PutU64(e: Endian, buf: array<byte>, buflen: nat, typ: u16, data: u64) returns (ok: bool)
    requires 4 <= buf.Length
    requires Fits(MsgLen(e, buf[..]), buflen, 8) ==> LiesInside(e, buf[..], 8)
    modifies buf
    ensures (ok, buf[..]) == Put(e, old(buf[..]), buflen, typ, Payload(e, U64(data)))
  {
    Widths();
    ok := PutCheck(e, buf, buflen, typ, Store(e, 8, data));
  }

  /** sancus_u16zu refuses, by assertion, a length that a uint16_t does not hold. */
  method PutString(e: Endian, buf: array<byte>, buflen: nat, typ: u16, data: CString) returns (ok: bool)
    requires 4 <= buf.Length && |data| < 0x1_0000
    requires Fits(MsgLen(e, buf[..]), buflen, |data|) ==> LiesInside(e, buf[..], |data|)
    modifies buf
    ensures (ok, buf[..]) == Put(e, old(buf[..]), buflen, typ, Payload(e, Str(data)))
  {
    ok := PutCheck(e, buf, buflen, typ, data);
  }

  method PutNulString(e: Endian, buf: array<byte>, buflen: nat, typ: u16, data: CString) returns (ok: bool)
    requires 4 <= buf.Length && |data| + 1 < 0x1_0000
    requires Fits(MsgLen(e, buf[..]), buflen, |data| + 1) ==> LiesInside(e, buf[..], |data| + 1)
    modifies buf
    ensures (ok, buf[..]) == Put(e, old(buf[..]), buflen, typ, Payload(e, NulStr(data)))
  {
    ok := PutCheck(e, buf, buflen, typ, data + [0]);
  }

  // ------------------------------------------------------------ getters

  function GetU8(e: Endian, s: seq<byte>, at: nat): u8
    requires at + NLATTR_SIZE + 1 <= |s|
  {
    Widths();
    Load(e, s[at + 4..at + 5])
  }

  function GetU16(e: Endian, s: seq<byte>, at: nat): u16
    requires at + NLATTR_SIZE + 2 <= |s|
  {
    Widths();
    Load(e, s[at + 4..at + 6])
  }

  function GetU32(e: Endian, s: seq<byte>, at: nat): u32
    requires at + NLATTR_SIZE + 4 <= |s|
  {
    Widths();
    Load(e, s[at + 4..at + 8])
  }

  function GetU64(e: Endian, s: seq<byte>, at: nat): u64
    requires at + NLATTR_SIZE + 8 <= |s|
  {
    Widths();
    Load(e, s[at + 4..at + 12])
  }

  /** What a reader of `sancus_nl_attr_get_string` sees: the bytes up to the first NUL. */
  function UpToNul(s: seq<byte>): (t: seq<byte>)
    ensures 0 !in t
    ensures 0 !in s ==> t == s
  {
    if s == [] || s[0] == 0 then [] else [s[0]] + UpToNul(s[1..])
  }

  // --------------------------------------------------------- validation

  datatype Errno = EINVAL | ERANGE | EOPNOTSUPP
  datatype Check = Good | Bad(errno: Errno)

  /** enum sancus_nl_attr_data_type, of which other numbers may turn up too. */
  const TYPE_UNSPEC: nat := 0
  const TYPE_U8: nat := 1
  const TYPE_U16: nat := 2
  const TYPE_U32: nat := 3
  const TYPE_U64: nat := 4
  const TYPE_STRING: nat := 5
  const TYPE_FLAG: nat := 6
  const TYPE_MSECS: nat := 7
  const TYPE_NESTED: nat := 8
  const TYPE_NESTED_COMPAT: nat := 9
  const TYPE_NUL_STRING: nat := 10
  const TYPE_BINARY: nat := 11
  const TYPE_MAX: nat := 12

  /** sancus_nl_attr_data_type_minlen */
  function MinLen(dataType: nat): nat {
    if dataType == TYPE_U8 then 1
    else if dataType == TYPE_U16 then 2
    else if dataType == TYPE_U32 then 4
    else if dataType == TYPE_U64 then 8
    else if dataType == TYPE_STRING || dataType == TYPE_NUL_STRING then 1
    else 0
  }

  /** validate_attr */
  function ValidateAttr(e: Endian, s: seq<byte>, at: nat, dataType: nat, expectedLen: nat): Check
    requires at + NLATTR_SIZE <= |s| && at + NLATTR_SIZE + PayloadLen(e, s, at) <= |s|
  {
    var len := PayloadLen(e, s, at);
    if len < expectedLen then
      Bad(ERANGE)
    else if dataType == TYPE_FLAG then
      if len > 0 then Bad(ERANGE) else Good
    else if dataType == TYPE_STRING then
      if len == 0 then Bad(ERANGE) else Good
    else if dataType == TYPE_NUL_STRING then
      if len == 0 then Bad(ERANGE)
      else if s[at + NLATTR_SIZE + len - 1] != 0 then Bad(EINVAL)
      else Good
    else if dataType == TYPE_NESTED then
      if len == 0 then Good
      else if len < NlAlign(NLATTR_SIZE) then Bad(ERANGE)
      else Good
    else
      Good
  }

  /** sancus_nl_attr_validate_minlen */
  function ValidateMinLen(e: Endian, s: seq<byte>, at: nat, dataType: nat): Check
    requires at + NLATTR_SIZE <= |s| && at + NLATTR_SIZE + PayloadLen(e, s, at) <= |s|
  {
    if dataType >= TYPE_MAX then Bad(EINVAL) else ValidateAttr(e, s, at, dataType, MinLen(dataType))
  }

  /** sancus_nl_attr_validate_explen */
  function ValidateExpLen(e: Endian, s: seq<byte>, at: nat, dataType: nat, expectedLen: nat): Check
    requires at + NLATTR_SIZE <= |s| && at + NLATTR_SIZE + PayloadLen(e, s, at) <= |s|
  {
    if dataType >= TYPE_MAX then Bad(EINVAL) else ValidateAttr(e, s, at, dataType, expectedLen)
  }

  /** sancus_nl_attr_type_valid */
  function TypeValid(e: Endian, s: seq<byte>, at: nat, max: u16): Check
    requires at + NLATTR_SIZE <= |s|
  {
    if GetType(e, s, at) > max then Bad(EOPNOTSUPP) else Good
  }

  /** What a validated attribute is good for: integers of that width can be read,
      strings are not empty, NUL strings end in their NUL, flags carry nothing and
      nested attributes have at least one header -- and nothing more is asked. */
  lemma ValidatedIsUsable(e: Endian, s: seq<byte>, at: nat, dataType: nat)
    requires at + NLATTR_SIZE <= |s| && at + NLATTR_SIZE + PayloadLen(e, s, at) <= |s|
    ensures var p := s[at + NLATTR_SIZE..at + NLATTR_SIZE + PayloadLen(e, s, at)];
      ValidateMinLen(e, s, at, dataType) == Good
      <==> && dataType < TYPE_MAX
           && (dataType == TYPE_U8 ==> 1 <= |p|)
           && (dataType == TYPE_U16 ==> 2 <= |p|)
           && (dataType == TYPE_U32 ==> 4 <= |p|)
           && (dataType == TYPE_U64 ==> 8 <= |p|)
           && (dataType == TYPE_STRING ==> p != [])
           && (dataType == TYPE_NUL_STRING ==> p != [] && p[|p| - 1] == 0)
           && (dataType == TYPE_FLAG ==> p == [])
           && (dataType == TYPE_NESTED ==> p == [] || NLATTR_SIZE <= |p|)
  {
    hide PayloadLen;
  }

  /** The same for a length the caller expects. */
  lemma ExpectedIsUsable(e: Endian, s: seq<byte>, at: nat, dataType: nat, expectedLen: nat)
    requires at + NLATTR_SIZE <= |s| && at + NLATTR_SIZE + PayloadLen(e, s, at) <= |s|
    ensures var p := s[at + NLATTR_SIZE..at + NLATTR_SIZE + PayloadLen(e, s, at)];
      ValidateExpLen(e, s, at, dataType, expectedLen) == Good
      <==> && dataType < TYPE_MAX
           && expectedLen <= |p|
           && (dataType == TYPE_STRING ==> p != [])
           && (dataType == TYPE_NUL_STRING ==> p != [] && p[|p| - 1] == 0)
           && (dataType == TYPE_FLAG ==> p == [])
           && (dataType == TYPE_NESTED ==> p == [] || NLATTR_SIZE <= |p|)
  {
    hide PayloadLen;
  }

  /** A refusal says EINVAL for a data type there is none of and for a NUL string long
      enough that does not end in its NUL, and ERANGE for everything else. */
  lemma RefusalsSay(e: Endian, s: seq<byte>, at: nat, dataType: nat, expectedLen: nat)
    requires at + NLATTR_SIZE <= |s| && at + NLATTR_SIZE + PayloadLen(e, s, at) <= |s|
    ensures var p := s[at + NLATTR_SIZE..at + NLATTR_SIZE + PayloadLen(e, s, at)];
      var unended := dataType == TYPE_NUL_STRING && p != [] && p[|p| - 1] != 0;
      var min, exp := ValidateMinLen(e, s, at, dataType), ValidateExpLen(e, s, at, dataType, expectedLen);
      && min != Bad(EOPNOTSUPP) && exp != Bad(EOPNOTSUPP)
      && (min == Bad(EINVAL) <==> TYPE_MAX <= dataType || unended)
      && (exp == Bad(EINVAL) <==> TYPE_MAX <= dataType || (unended && expectedLen <= |p|))
  {
    hide PayloadLen;
  }

  // --------------------------------------------------------- round trip

  /** The data type a value is validated as. */
  function DataType(v: Value): nat {
    match v
    case U8(_) => TYPE_U8
    case U16(_) => TYPE_U16
    case U32(_) => TYPE_U32
    case U64(_) => TYPE_U64
    case Str(_) => TYPE_STRING
    case NulStr(_) => TYPE_NUL_STRING
  }

  datatype TypedOp = TypedOp(buflen: nat, typ: u16, value: Value)

  /** The attribute at `at` reads back as `op` put it: its type, with and without flag bits,
      its length, and the value its getter returns.  The validators accept it under its
      own data type -- except a string put without its terminator when it is empty. */
  ghost predicate ReadsAs(e: Endian, s: seq<byte>, at: nat, op: TypedOp) {
    var len := |Payload(e, op.value)|;
    && at + NLATTR_SIZE + len <= |s|
    && Load(e, s[at + 2..at + 4]) == op.typ
    && GetType(e, s, at) == op.typ % TYPE_SPACE
    && PayloadLen(e, s, at) == len
    && Gets(e, s, at, op.value)
    && ValidateMinLen(e, s, at, DataType(op.value)) == Verdict(op.value)
    && ValidateExpLen(e, s, at, DataType(op.value), len) == Verdict(op.value)
  }

  function Verdict(v: Value): Check {
    if v == Str([]) then Bad(ERANGE) else Good
  }

  /** The getter for `v`'s type, applied at `at`, returns what was put. */
  ghost predicate Gets(e: Endian, s: seq<byte>, at: nat, v: Value)
    requires at + NLATTR_SIZE + |Payload(e, v)| <= |s|
  {
    match v
    case U8(x) => GetU8(e, s, at) == x
    case U16(x) => GetU16(e, s, at) == x
    case U32(x) => GetU32(e, s, at) == x
    case U64(x) => GetU64(e, s, at) == x
    case Str(t) => s[at + NLATTR_SIZE..at + NLATTR_SIZE + |t|] == t
    case NulStr(t) => UpToNul(s[at + NLATTR_SIZE..]) == t
  }

  lemma {:induction false} UpToNulStops(t: CString, rest: seq<byte>)
    ensures UpToNul(t + [0] + rest) == t
    decreases t
  {
    if t != [] {
      UpToNulStops(t[1..], rest);
      assert (t + [0] + rest)[1..] == t[1..] + [0] + rest;
      assert t == [t[0]] + t[1..];
    }
  }

  lemma PayloadReadBack(e: Endian, s: seq<byte>, at: nat, v: Value)
    requires at + NLATTR_SIZE + |Payload(e, v)| <= |s|
    requires s[at + NLATTR_SIZE..at + NLATTR_SIZE + |Payload(e, v)|] == Payload(e, v)
    ensures Gets(e, s, at, v)
  {
    hide UpToNul, Store, Load, Pow256;
    Widths();
    match v
    case U8(x) => LoadStore(e, 1, x);
    case U16(x) => LoadStore(e, 2, x);
    case U32(x) => LoadStore(e, 4, x);
    case U64(x) => LoadStore(e, 8, x);
    case Str(_) =>
    case NulStr(t) => NulStrReadBack(s, at + NLATTR_SIZE, t);
  }

  lemma NulStrReadBack(s: seq<byte>, at: nat, t: CString)
    requires at + |t| + 1 <= |s| && s[at..at + |t| + 1] == t + [0]
    ensures UpToNul(s[at..]) == t
  {
    hide UpToNul;
    var rest := s[at + |t| + 1..];
    assert s[at..] == s[at..at + |t| + 1] + rest;
    UpToNulStops(t, rest);
  }

  lemma PayloadValidates(e: Endian, s: seq<byte>, at: nat, v: Value)
    requires at + NLATTR_SIZE + |Payload(e, v)| <= |s|
    requires s[at + NLATTR_SIZE..at + NLATTR_SIZE + |Payload(e, v)|] == Payload(e, v)
    requires PayloadLen(e, s, at) == |Payload(e, v)|
    ensures ValidateMinLen(e, s, at, DataType(v)) == Verdict(v)
    ensures ValidateExpLen(e, s, at, DataType(v), |Payload(e, v)|) == Verdict(v)
  {
    hide PayloadLen, Store;
    var p := s[at + NLATTR_SIZE..at + NLATTR_SIZE + |Payload(e, v)|];
    assert p != [] ==> p[|p| - 1] == s[at + NLATTR_SIZE + |p| - 1];
  }

  /** A stored typed value reads back. */
  lemma ReadBack(e: Endian, s: seq<byte>, at: nat, op: TypedOp)
    requires StoredAt(e, s, at, PutOp(op.buflen, op.typ, Payload(e, op.value)))
    ensures ReadsAs(e, s, at, op)
  {
    hide AttrLen, AttrBytes, PayloadLen, GetType, Payload, Gets, ValidateMinLen, ValidateExpLen;
    var p := PutOp(op.buflen, op.typ, Payload(e, op.value));
    ReadStored(e, s, at, p);
    StoredFields(e, s, at, p);
    PayloadReadBack(e, s, at, op.value);
    PayloadValidates(e, s, at, op.value);
  }

  /** Its type is taken for valid exactly up to the maximum, flag bits aside. */
  lemma TypeReadBack(e: Endian, s: seq<byte>, at: nat, op: TypedOp, max: u16)
    requires StoredAt(e, s, at, PutOp(op.buflen, op.typ, Payload(e, op.value)))
    ensures TypeValid(e, s, at, max) == if op.typ % TYPE_SPACE <= max then Good else Bad(EOPNOTSUPP)
  {
    hide Payload, GetType, StoredAt;
    ReadBack(e, s, at, op);
  }

  function Raw(e: Endian, ops: seq<TypedOp>): (r: seq<PutOp>)
    ensures |r| == |ops|
    ensures forall i :: 0 <= i < |r| ==> r[i] == PutOp(ops[i].buflen, ops[i].typ, Payload(e, ops[i].value))
  {
    if ops == [] then [] else [PutOp(ops[0].buflen, ops[0].typ, Payload(e, ops[0].value))] + Raw(e, ops[1..])
  }

  /** The typed puts that are accepted. */
  function AcceptedTyped(e: Endian, n: nat, ops: seq<TypedOp>): seq<TypedOp>
    decreases ops
  {
    if ops == [] then
      []
    else
      var len := |Payload(e, ops[0].value)|;
      var end := n + NlAlign(NLATTR_SIZE + len);
      if len <= 65528 && end <= ops[0].buflen then
        [ops[0]] + AcceptedTyped(e, end, ops[1..])
      else
        AcceptedTyped(e, n, ops[1..])
  }

  lemma {:induction false} AcceptedAgree(e: Endian, n: nat, ops: seq<TypedOp>)
    ensures Accepted(n, Raw(e, ops)) == Raw(e, AcceptedTyped(e, n, ops))
    decreases ops
  {
    hide NlAlign, Payload;
    if ops != [] {
      var len := |Payload(e, ops[0].value)|;
      var end := n + NlAlign(NLATTR_SIZE + len);
      assert Raw(e, ops)[1..] == Raw(e, ops[1..]);
      AcceptedAgree(e, n, ops[1..]);
      AcceptedAgree(e, end, ops[1..]);
      var rest := AcceptedTyped(e, end, ops[1..]);
      assert ([ops[0]] + rest)[1..] == rest;
    }
  }

  /** The whole round trip: after any run of typed puts on a fresh message, the
      attribute loop visits exactly the accepted ones, in order, and every visited
      attribute reads back as it was put. */
  lemma TypedRoundTrip(e: Endian, s: seq<byte>, extra: nat, ops: seq<TypedOp>)
    requires PayloadOffset(extra) <= |s| && PayloadOffset(extra) <= 65532
    requires Puttable(|s|, Raw(e, ops))
    ensures var r := RunPuts(e, Started(e, s, extra), Raw(e, ops));
      var acc := AcceptedTyped(e, PayloadOffset(extra), ops);
      && InWalk(r, PayloadOffset(extra), PayloadTail(e, r))
      && var o := Offsets(e, r, PayloadOffset(extra), PayloadTail(e, r));
      && |o| == |acc|
      && forall i :: 0 <= i < |o| ==> ReadsAs(e, r, o[i], acc[i])
  {
    hide AttrLen, AttrAt, AttrBytes, MsgLen, Payload, StoredAt, ReadsAs;
    var start := PayloadOffset(extra);
    BuildThenWalk(e, s, extra, Raw(e, ops));
    AcceptedAgree(e, start, ops);
    var r := RunPuts(e, Started(e, s, extra), Raw(e, ops));
    var o := Offsets(e, r, start, PayloadTail(e, r));
    var acc := AcceptedTyped(e, start, ops);
    forall i | 0 <= i < |o|
      ensures ReadsAs(e, r, o[i], acc[i])
    {
      ReadBack(e, r, o[i], acc[i]);
    }
  }
}
