/**
 The quoted data dump of the logger (src/sancus/logger.c): encode in blocks that fit
 in the worst case, then back out whole bytes until an ellipsis fits.
 */
module Dump {
  import opened HostOrder
  import opened Escape
  import opened Logger
  import opened Options
  import opened TextBuffer

  const MIN_SUFFIX: int := 10  // strlen("\" (%zu)") for up to five digits, and the terminator
  const MAX_SUFFIX: int := 13  // MIN_SUFFIX and an ellipsis
  const ELLIPSIS: string := "..."

  function Suffix(n: nat): string {
    "\" (" + Digits(n) + ")"
  }

  // ------------------------------------------------------------- dump_enc

  /** dump_enc: appends the encoding of `sp` to `buf`, or only counts its characters
      when there is no buffer.  Stops at the first byte the buffer has no room for. */
  method DumpEnc(buf: Buffer?, sp: seq<byte>) returns (rc: int)
    requires buf != null ==> buf.Valid()
    modifies if buf == null then {} else {buf, buf.buf}
    ensures buf == null ==> rc == |Enc(Ranges, sp)|
    ensures buf != null ==> buf.Valid() && buf.base == old(buf.base)
    ensures buf != null ==>
      var room := old(buf.TailSize());
      if |Enc(Ranges, sp)| <= room then
        rc == |Enc(Ranges, sp)| && buf.Contents() == old(buf.Contents()) + Enc(Ranges, sp)
      else
        && rc == -ENOBUFS
        && buf.Contents() == old(buf.Contents()) + Enc(Ranges, sp[..LongestFit(Ranges, sp, room)])
  {
    hide Enc, LongestFit, DumpByte;
    var count, p := 0, 0;
    EncNothing(sp);
    assert sp[..|sp|] == sp;
    while p < |sp|
      invariant p <= |sp| && count == |Enc(Ranges, sp[..p])|
      invariant buf != null ==> buf.Valid() && buf.base == old(buf.base)
      invariant buf != null ==> count <= old(buf.TailSize())
      invariant buf != null ==> buf.Contents() == old(buf.Contents()) + Enc(Ranges, sp[..p])
    {
      var out := DumpByte(sp[p]);
      EncSnoc(Ranges, sp, p);
      rc := 0;
      if buf != null {
        rc := buf.Append(false, Some(out), |out|);
      }
      if rc < 0 {
        FitStep(sp, p, old(buf.TailSize()));
        return;
      }
      count, p := count + |out|, p + 1;
    }
    rc := count;
  }

  lemma FitStep(sp: seq<byte>, p: nat, room: nat)
    requires p < |sp| && |Enc(Ranges, sp[..p])| <= room
    requires |Enc(Ranges, sp[..p])| + |DumpByte(sp[p])| > room
    ensures LongestFit(Ranges, sp, room) == p && |Enc(Ranges, sp)| > room
  {
    hide Enc, LongestFit, DumpByte;
    EncSnoc(Ranges, sp, p);
    LongestFitIsLongest(Ranges, sp, room, p);
    LongestFitIsLongest(Ranges, sp, room, p + 1);
    LongestFitIsLongest(Ranges, sp, room, |sp|);
    assert sp[..|sp|] == sp;
  }

  lemma EncNothing(data: seq<byte>)
    ensures Enc(Ranges, data[..0]) == []
  {
  }

  // ------------------------------------------------------------- rendering

  /** Where the block loop stops, from position `p` on, in a buffer of `size`. */
  function BlockEnd(data: seq<byte>, p: nat, size: nat): (end: nat)
    requires p <= |data| && 1 + |Enc(Ranges, data[..p])| + MIN_SUFFIX <= size
    ensures p <= end <= |data|
    decreases |data| - p
  {
    hide Enc;
    var fit := (size - 1 - |Enc(Ranges, data[..p])| - MIN_SUFFIX) / 4;
    var bytes := if |data| - p > fit then fit else |data| - p;
    if bytes == 0 then
      p
    else
      BlockFits(data, p, bytes);
      BlockEnd(data, p + bytes, size)
  }

  lemma BlockFits(data: seq<byte>, p: nat, n: nat)
    requires p + n <= |data|
    ensures Enc(Ranges, data[..p + n]) == Enc(Ranges, data[..p]) + Enc(Ranges, data[p..p + n])
    ensures |Enc(Ranges, data[..p + n])| <= |Enc(Ranges, data[..p])| + 4 * n
  {
    assert data[..p + n] == data[..p] + data[p..p + n];
    EncAppend(Ranges, data[..p], data[p..p + n]);
    EncLength(Ranges, data[p..p + n]);
  }

  /** How much of the data a dump shows: all of it if the block loop gets through,
      otherwise the longest prefix that leaves room for ellipsis and suffix. */
  function Kept(data: seq<byte>, size: nat): (k: nat)
    requires 1 + MAX_SUFFIX <= size
    ensures k <= |data|
  {
    EncNothing(data);
    if BlockEnd(data, 0, size) == |data| then |data| else LongestFit(Ranges, data, size - 1 - MAX_SUFFIX)
  }

  /** The dump without its suffix. */
  function Body(data: seq<byte>, size: nat): string
    requires 1 + MAX_SUFFIX <= size
  {
    var k := Kept(data, size);
    "\"" + Enc(Ranges, data[..k]) + (if k < |data| then ELLIPSIS else "")
  }

  /** The text a dump renders to. */
  function Rendered(data: seq<byte>, size: nat): string
    requires 1 + MAX_SUFFIX <= size
  {
    Body(data, size) + Suffix(|data|)
  }

  /** Where the loop stops short, there is less room than one more worst case. */
  lemma {:induction false} BlockEndIsTight(data: seq<byte>, p: nat, size: nat)
    requires p <= |data| && 1 + |Enc(Ranges, data[..p])| + MIN_SUFFIX <= size
    ensures var end := BlockEnd(data, p, size);
      && 1 + |Enc(Ranges, data[..end])| + MIN_SUFFIX <= size
      && (end < |data| ==> size <= 1 + |Enc(Ranges, data[..end])| + MAX_SUFFIX)
    decreases |data| - p
  {
    hide Enc;
    var fit := (size - 1 - |Enc(Ranges, data[..p])| - MIN_SUFFIX) / 4;
    var bytes := if |data| - p > fit then fit else |data| - p;
    if bytes != 0 {
      BlockFits(data, p, bytes);
      BlockEndIsTight(data, p + bytes, size);
    }
  }

  /** What has room for a worst-case byte in place of the last one is dumped whole. */
  predicate Whole(data: seq<byte>, size: nat)
    requires 1 + MAX_SUFFIX <= size
  {
    data == [] || |Enc(Ranges, data[..|data| - 1])| < size - 1 - MAX_SUFFIX
  }

  lemma EncGrows(data: seq<byte>, i: nat, j: nat)
    requires i <= j <= |data|
    ensures |Enc(Ranges, data[..i])| <= |Enc(Ranges, data[..j])|
  {
    hide Enc;
    BlockFits(data, i, j - i);
  }

  /** Where the block loop ends: at the end of the data if all but the last byte leave
      room for a worst case. */
  lemma {:induction false} BlockEndSettles(data: seq<byte>, p: nat, size: nat)
    requires p < |data| && 1 + |Enc(Ranges, data[..p])| + MIN_SUFFIX <= size
    ensures BlockEnd(data, p, size) == |data| <==> |Enc(Ranges, data[..|data| - 1])| < size - 1 - MAX_SUFFIX
    decreases |data| - p
  {
    hide Enc;
    var room := size - 1 - |Enc(Ranges, data[..p])| - MIN_SUFFIX;
    var bytes := if |data| - p > room / 4 then room / 4 else |data| - p;
    EncGrows(data, p, |data| - 1);
    if bytes != 0 {
      BlockFits(data, p, bytes - 1);
      BlockFits(data, p, bytes);
      if p + bytes < |data| {
        BlockEndSettles(data, p + bytes, size);
      }
    }
  }

  /** Exactly which data is not cut. */
  lemma WholeIff(data: seq<byte>, size: nat)
    requires 1 + MAX_SUFFIX <= size
    ensures Kept(data, size) == |data| <==> Whole(data, size)
  {
    hide Enc, EncByte, LongestFit, BlockEnd;
    EncNothing(data);
    var room := size - 1 - MAX_SUFFIX;
    if data != [] {
      BlockEndSettles(data, 0, size);
      LongestFitIsLongest(Ranges, data, room, |data|);
      BlockEndIsTight(data, 0, size);
      var end := BlockEnd(data, 0, size);
      if end < |data| {
        EncSnoc(Ranges, data, end);
        EncGrows(data, end + 1, |data|);
      }
    }
  }

  /** Exactly how much is kept of what is cut. */
  lemma KeptIff(data: seq<byte>, size: nat, k: nat)
    requires 1 + MAX_SUFFIX <= size && k < |data|
    ensures Kept(data, size) == k
            <==> && !Whole(data, size)
                 && |Enc(Ranges, data[..k])| <= size - 1 - MAX_SUFFIX < |Enc(Ranges, data[..k + 1])|
  {
    hide Enc, LongestFit, BlockEnd, Whole;
    var room := size - 1 - MAX_SUFFIX;
    EncNothing(data);
    WholeIff(data, size);
    LongestFitIsLongest(Ranges, data, room, k);
    LongestFitIsLongest(Ranges, data, room, k + 1);
  }

  /** Truncation is tight: what is certain to fit is not cut, and of what takes up to
      three characters more exactly that whose last byte begins before the room is used
      up.  A cut keeps the longest prefix that leaves room for the ellipsis, and leaves
      fewer than four characters unused. */
  lemma TruncationIsTight(data: seq<byte>, size: nat)
    requires 1 + MAX_SUFFIX <= size
    ensures var k := Kept(data, size);
      var room := size - 1 - MAX_SUFFIX;
      && (k == |data| <==> Whole(data, size))
      && (|Enc(Ranges, data)| <= room ==> Whole(data, size))
      && (Whole(data, size) ==> |Enc(Ranges, data)| <= room + 3)
      && (k < |data| ==>
            && room - 3 <= |Enc(Ranges, data[..k])| <= room
            && |Enc(Ranges, data[..k + 1])| > room)
  {
    hide Enc, EncByte, Kept;
    EncNothing(data);
    WholeIff(data, size);
    assert data[..|data|] == data;
    if data != [] {
      EncSnoc(Ranges, data, |data| - 1);
    }
    var k := Kept(data, size);
    if k < |data| {
      KeptIff(data, size, k);
      EncSnoc(Ranges, data, k);
    }
  }

  /** Data can be cut although all of it would fit: the block loop reckons with the
      worst case, and this dump is even longer for being cut. */
  lemma CutWithRoomToSpare()
    ensures Kept(DOTS, 16) == 2
    ensures |"\"" + Enc(Ranges, DOTS) + Suffix(3)| == 9
    ensures Rendered(DOTS, 16) == "\".....\" (3)"
  {
    hide Enc, EncByte, Kept;
    EncDots(2);
    EncDots(3);
    assert DOTS[..3] == DOTS;
    KeptIff(DOTS, 16, 2);
  }

  /** The suffix fits exactly when its characters leave one for the terminator; up to
      99999 bytes it always does. */
  lemma SuffixFits(data: seq<byte>, size: nat)
    requires 1 + MAX_SUFFIX <= size && |data| <= 99999
    ensures |Rendered(data, size)| < size
  {
    hide Enc, Kept;
    TruncationIsTight(data, size);
    DigitsUpTo5(|data|);
    assert data[..|data|] == data;
  }

  /** Lines 451 to 475 of sancus_logger__vdumpf, into an empty buffer. */
  method RenderDump(b: Buffer, data: seq<byte>) returns (rc: int)
    requires b.Valid() && b.base == 0 && b.len == 0 && 1 + MAX_SUFFIX <= b.buf.Length
    modifies b, b.buf
    ensures b.Valid() && b.base == 0
    ensures if |Rendered(data, b.buf.Length)| < b.buf.Length then
        rc == |Suffix(|data|)| && b.Contents() == Rendered(data, b.buf.Length)
      else
        rc == -ENOBUFS
  {
    hide Body, Suffix;
    rc := RenderBody(b, data);
    if rc < 0 {
      return;
    }
    rc := b.AppendFormatted(false, Says(Suffix(|data|)));
  }

  /** Everything before the suffix; none of these appends ever fails. */
  method RenderBody(b: Buffer, data: seq<byte>) returns (rc: int)
    requires b.Valid() && b.base == 0 && b.len == 0 && 1 + MAX_SUFFIX <= b.buf.Length
    modifies b, b.buf
    ensures b.Valid() && b.base == 0 && MIN_SUFFIX <= b.TailSize()
    ensures rc >= 0 && b.Contents() == Body(data, b.buf.Length)
  {
    hide Enc, LongestFit, BlockEnd;
    rc := b.Append(false, Some("\""), 1);
    if rc < 0 {
      return;
    }
    var p := EncodeBlocks(b, data);
    if p < |data| {
      BackOut(b, data, p);
      rc := b.Append(false, Some(ELLIPSIS), 3);
    } else {
      assert data[..|data|] == data;
    }
  }

  /** The block loop; it gives up at a position short of the end when the room left
      might not do for one more byte. */
  method EncodeBlocks(b: Buffer, data: seq<byte>) returns (p: nat)
    requires b.Valid() && b.base == 0 && 1 + MAX_SUFFIX <= b.buf.Length
    requires b.Contents() == "\""
    modifies b, b.buf
    ensures b.Valid() && b.base == 0 && MIN_SUFFIX <= b.TailSize()
    ensures p <= |data| && b.Contents() == "\"" + Enc(Ranges, data[..p])
    ensures Enc(Ranges, data[..0]) == [] && p == BlockEnd(data, 0, b.buf.Length)
    ensures p < |data| ==> b.TailSize() <= MAX_SUFFIX
  {
    hide Enc, BlockEnd;
    EncNothing(data);
    p := 0;
    var len := |data|;
    while p < |data|
      invariant b.Valid() && b.base == 0 && 0 <= p <= |data| && len == |data| - p
      invariant b.Contents() == "\"" + Enc(Ranges, data[..p])
      invariant MIN_SUFFIX <= b.TailSize()
      invariant BlockEnd(data, p, b.buf.Length) == BlockEnd(data, 0, b.buf.Length)
      decreases len
    {
      var bytes := (b.TailSize() - MIN_SUFFIX) / 4;
      bytes := if len > bytes then bytes else len;
      BlockEndStep(data, p, bytes, b.buf.Length);
      if bytes == 0 {
        return;
      }
      var _ := DumpEnc(b, data[p..p + bytes]);
      p := p + bytes;
      len := len - bytes;
    }
    BlockEndDone(data, b.buf.Length);
  }

  /** One round of the block loop. */
  lemma BlockEndStep(data: seq<byte>, p: nat, bytes: nat, size: nat)
    requires p < |data| && 1 + |Enc(Ranges, data[..p])| + MIN_SUFFIX <= size
    requires var fit := (size - 1 - |Enc(Ranges, data[..p])| - MIN_SUFFIX) / 4;
      bytes == if |data| - p > fit then fit else |data| - p
    ensures p + bytes <= |data|
    ensures 1 + |Enc(Ranges, data[..p])| + |Enc(Ranges, data[p..p + bytes])| + MIN_SUFFIX <= size
    ensures Enc(Ranges, data[..p + bytes]) == Enc(Ranges, data[..p]) + Enc(Ranges, data[p..p + bytes])
    ensures BlockEnd(data, p, size) == if bytes == 0 then p else BlockEnd(data, p + bytes, size)
  {
    hide Enc;
    BlockFits(data, p, bytes);
  }

  lemma BlockEndDone(data: seq<byte>, size: nat)
    requires 1 + |Enc(Ranges, data[..|data|])| + MIN_SUFFIX <= size
    ensures BlockEnd(data, |data|, size) == |data|
  {
    hide Enc;
  }

  /** The loop at `truncate:`, from the position where the block loop gave up. */
  method BackOut(b: Buffer, data: seq<byte>, start: nat)
    requires b.Valid() && b.base == 0 && 1 + MAX_SUFFIX <= b.buf.Length
    requires start < |data| && b.TailSize() <= MAX_SUFFIX
    requires b.Contents() == "\"" + Enc(Ranges, data[..start])
    modifies b, b.buf
    ensures b.Valid() && b.base == 0
    ensures b.Contents() == "\"" + Enc(Ranges, data[..LongestFit(Ranges, data, b.buf.Length - 1 - MAX_SUFFIX)])
    ensures LongestFit(Ranges, data, b.buf.Length - 1 - MAX_SUFFIX) < |data|
    ensures MAX_SUFFIX <= b.TailSize()
  {
    hide Enc, EncByte, LongestFit;
    ghost var room := b.buf.Length - 1 - MAX_SUFFIX;
    var p := start;
    EncNothing(data);
    EncSnoc(Ranges, data, p);
    LongestFitIsLongest(Ranges, data, room, p + 1);
    while p > 0 && b.TailSize() < MAX_SUFFIX
      invariant 0 <= p <= start && b.Valid() && b.base == 0
      invariant b.Contents() == "\"" + Enc(Ranges, data[..p])
      invariant LongestFit(Ranges, data, room) <= p
    {
      LongestFitIsLongest(Ranges, data, room, p);
      p := p - 1;
      BackOne(b, data, p);
    }
    LongestFitIsLongest(Ranges, data, room, p);
  }

  /** Take back the byte at `p`. */
  method BackOne(b: Buffer, data: seq<byte>, p: nat)
    requires b.Valid() && b.base == 0 && p < |data|
    requires b.Contents() == "\"" + Enc(Ranges, data[..p + 1])
    modifies b, b.buf
    ensures b.Valid() && b.base == 0 && b.Contents() == "\"" + Enc(Ranges, data[..p])
  {
    hide Enc, EncByte;
    EncSnoc(Ranges, data, p);
    EncOne(data[p]);
    ghost var front, last := "\"" + Enc(Ranges, data[..p]), EncByte(Ranges, data[p]);
    assert b.Contents() == front + last;
    var rc := DumpEnc(null, [data[p]]);
    assert (front + last)[..|front|] == front;
    var _ := b.StripN(rc);
  }

  lemma EncOne(c: byte)
    ensures Enc(Ranges, [c]) == EncByte(Ranges, c)
  {
  }

  /** sancus_logger__vdumpf.  `data` is null or `len` bytes; prefix and message are those
      of any record. */
  method VDumpf(psize: nat, msize: nat, size: nat, data: Option<seq<byte>>, len: nat,
                prefix: FormatResult, func: string, line: nat, out: Option<FormatResult>,
                backend: Record -> int)
    returns (rc: int, written: Option<Record>)
    requires 0 < psize && 0 < msize && 1 + MAX_SUFFIX <= size
    requires data.Some? ==> |data.value| == len
    requires prefix.Fails? ==> prefix.rc < 0
    requires out.Some? && out.value.Fails? ==> out.value.rc < 0
    ensures var crc := ComposeRc(msize, prefix, func, line, out);
      var text := Rendered(data.GetOr([]), size);
      if data == None && len > 0 then
        rc == -EINVAL && written == None
      else if crc < 0 then
        rc == crc && written == None
      else if |text| >= size then
        rc == -ENOBUFS && written == None
      else
        var r := Record(TrimTail(PrefixText(psize, prefix)), MessageText(msize, func, line, out), text);
        rc == backend(r) && written == Some(r)
  {
    hide Rendered, MessageText, PrefixText, MessageRc, TrimTail;
    if data == None && len > 0 {
      return -EINVAL, None;
    }
    var bytes := data.GetOr([]);
    var p, m;
    rc, p, m := Compose(psize, msize, prefix, func, line, out);
    if rc < 0 {
      return rc, None;
    }
    MessageIsTrimmed(msize, func, line, out);
    rc, written := WriteDump(p, m, size, bytes, backend);
  }

  /** Render the data and write the record. */
  method WriteDump(p: Buffer, m: Buffer, size: nat, data: seq<byte>, backend: Record -> int)
    returns (rc: int, written: Option<Record>)
    requires p.Valid() && m.Valid() && 1 + MAX_SUFFIX <= size
    ensures var text := Rendered(data, size);
      var r := Record(TrimTail(p.Contents()), TrimTail(m.Contents()), text);
      if |text| >= size then
        rc == -ENOBUFS && written == None
      else
        rc == backend(r) && written == Some(r)
  {
    hide Rendered, Suffix, TrimTail;
    var b := new Buffer(size);
    rc := RenderDump(b, data);
    if rc < 0 {
      return rc, None;
    }
    RenderedIsTrimmed(data, size);
    rc, written := LogWrite(p, m, b, backend);
  }

  lemma RenderedIsTrimmed(data: seq<byte>, size: nat)
    requires 1 + MAX_SUFFIX <= size
    ensures TrimTail(Rendered(data, size)) == Rendered(data, size) != ""
  {
    hide Body, Digits;
    var s := Rendered(data, size);
    assert s[|s| - 1] == ')';
    NothingToStrip(s, " \t\n");
  }

  // ------------------------------------------------------------ reading back

  /** The encoded bytes a text starts with, and what follows them. */
  function DecodeUpTo(s: string): (r: (seq<byte>, string))
    decreases |s|
  {
    match DecodeByte(s)
    case None => ([], s)
    case Some((c, n)) =>
      var (rest, end) := DecodeUpTo(s[n..]);
      ([c] + rest, end)
  }

  /** A reader of rendered dumps: the bytes between the quotes and the number behind. */
  datatype Reading = Reading(shown: seq<byte>, total: nat)

  function ReadDump(text: string): Option<Reading> {
    if text == [] || text[0] != '"' then
      None
    else
      var (shown, rest) := DecodeUpTo(text[1..]);
      if 4 <= |rest| && rest[..3] == "\" (" && rest[|rest| - 1] == ')' then
        match ReadDigits(rest[3..|rest| - 1])
        case Some(n) => Some(Reading(shown, n))
        case None => None
      else
        None
  }

  /** The closing quote is found: no quote of the data is taken for it. */
  lemma {:induction false} ClosingQuoteIsFound(data: seq<byte>, rest: string)
    ensures DecodeUpTo(Enc(Ranges, data) + ("\"" + rest)) == (data, "\"" + rest)
    decreases data
  {
    hide Enc, EncByte, DecodeByte;
    var q := "\"" + rest;
    EncCons(Ranges, data);
    if data == [] {
      assert Enc(Ranges, data) + q == q;
      QuoteDecodesToNothing(rest);
    } else {
      var x, y := EncByte(Ranges, data[0]), Enc(Ranges, data[1..]);
      var s := x + (y + q);
      assert Enc(Ranges, data) + q == s;
      DecodeByteInverts(Ranges, data[0], y + q);
      assert s[|x|..] == y + q;
      ClosingQuoteIsFound(data[1..], rest);
      assert [data[0]] + data[1..] == data;
    }
  }

  lemma QuoteDecodesToNothing(rest: string)
    ensures DecodeByte("\"" + rest) == None
  {
  }

  const DOTS: seq<byte> := [46, 46, 46]

  lemma DotsEncode()
    ensures Enc(Ranges, DOTS) == ELLIPSIS
  {
    hide Enc;
    EncDots(3);
    assert DOTS[..3] == DOTS;
  }

  /** The bytes a dump shows, the three dots of a cut included. */
  function ShownBytes(data: seq<byte>, size: nat): seq<byte>
    requires 1 + MAX_SUFFIX <= size
  {
    var k := Kept(data, size);
    data[..k] + if k < |data| then DOTS else []
  }

  lemma BodyIsShown(data: seq<byte>, size: nat)
    requires 1 + MAX_SUFFIX <= size
    ensures Body(data, size) == "\"" + Enc(Ranges, ShownBytes(data, size))
  {
    hide Enc, Kept;
    var k := Kept(data, size);
    DotsEncode();
    EncAppend(Ranges, data[..k], DOTS);
    assert data[..k] + [] == data[..k];
  }

  /** What a rendered dump says: the shown prefix, followed by three dots exactly when
      the data was cut, and the full number of bytes. */
  lemma RenderedReads(data: seq<byte>, size: nat)
    requires 1 + MAX_SUFFIX <= size
    ensures ReadDump(Rendered(data, size)) == Some(Reading(ShownBytes(data, size), |data|))
  {
    hide Enc, Kept, Digits, ReadDigits, DecodeUpTo, Body, ShownBytes;
    BodyIsShown(data, size);
    var n, shown := Digits(|data|), ShownBytes(data, size);
    var rest := " (" + n + ")";
    assert Rendered(data, size)[1..] == Enc(Ranges, shown) + ("\"" + rest);
    ClosingQuoteIsFound(shown, rest);
    var tail := "\"" + rest;
    assert tail[..3] == "\" (" && tail[3..|tail| - 1] == n;
    ReadDigitsInverts(|data|);
  }

  /** Two dumps read the same exactly when they are of equally many bytes and show the
      same ones, dots included. */
  lemma SameTextIff(data: seq<byte>, data': seq<byte>, size: nat)
    requires 1 + MAX_SUFFIX <= size
    ensures Rendered(data, size) == Rendered(data', size)
            <==> |data| == |data'| && ShownBytes(data, size) == ShownBytes(data', size)
  {
    hide Body, ShownBytes, Suffix, ReadDump;
    RenderedReads(data, size);
    RenderedReads(data', size);
    BodyIsShown(data, size);
    BodyIsShown(data', size);
  }

  /** A cut that drops three bytes. */
  predicate LosesThree(data: seq<byte>, size: nat)
    requires 1 + MAX_SUFFIX <= size
  {
    && 3 <= |data|
    && |Enc(Ranges, data[..|data| - 3])| <= size - 1 - MAX_SUFFIX < |Enc(Ranges, data[..|data| - 2])|
  }

  lemma LosesThreeIff(data: seq<byte>, size: nat)
    requires 1 + MAX_SUFFIX <= size
    ensures Kept(data, size) + 3 == |data| <==> LosesThree(data, size)
  {
    hide Enc, Kept;
    if 3 <= |data| {
      KeptIff(data, size, |data| - 3);
      EncGrows(data, |data| - 2, |data| - 1);
    }
  }

  /** A cut shows in the text, as a number of bytes other than the number shown, exactly
      unless it drops three bytes.  Where it shows, the bytes shown but for the last three
      are a prefix of the data; where nothing was cut they are the data. */
  lemma CutShowsIff(data: seq<byte>, size: nat)
    requires 1 + MAX_SUFFIX <= size
    ensures var r := ReadDump(Rendered(data, size));
      && r.Some? && r.value.total == |data|
      && var shown := r.value.shown;
      && (|shown| == |data| <==> Whole(data, size) || LosesThree(data, size))
      && (Whole(data, size) ==> shown == data)
      && (!Whole(data, size) ==>
            3 <= |shown| < |data| + 3 && shown[..|shown| - 3] == data[..|shown| - 3])
  {
    hide Kept, Rendered, ReadDump, Whole, LosesThree;
    RenderedReads(data, size);
    WholeIff(data, size);
    LosesThreeIff(data, size);
    var k := Kept(data, size);
    assert data[..|data|] == data && data + [] == data;
    assert (data[..k] + DOTS)[..k] == data[..k];
  }

  /** An input that is not cut renders like one that is exactly if the latter loses three
      bytes and the former has three dots in their place. */
  lemma AmbiguousIff(data: seq<byte>, cut: seq<byte>, size: nat)
    requires 1 + MAX_SUFFIX <= size
    requires Whole(data, size) && !Whole(cut, size)
    ensures Rendered(data, size) == Rendered(cut, size)
            <==> LosesThree(cut, size) && data == cut[..|cut| - 3] + DOTS
  {
    hide Kept, Rendered, Whole, LosesThree;
    SameTextIff(data, cut, size);
    WholeIff(data, size);
    WholeIff(cut, size);
    LosesThreeIff(cut, size);
    assert data[..|data|] + [] == data;
  }

  /** A cut dump can be taken for a whole one exactly if the first of the last three
      bytes takes four characters, and these end one past the room. */
  lemma HasTwinIff(cut: seq<byte>, size: nat)
    requires 1 + MAX_SUFFIX <= size && !Whole(cut, size)
    ensures (exists data :: Whole(data, size) && Rendered(data, size) == Rendered(cut, size))
            <==> && 3 <= |cut|
                 && |Enc(Ranges, cut[..|cut| - 3])| == size - 1 - MAX_SUFFIX - 3
                 && |Enc(Ranges, cut[..|cut| - 2])| == size - 1 - MAX_SUFFIX + 1
  {
    hide Enc, EncByte, Rendered, Whole, LosesThree;
    if 3 <= |cut| {
      var twin := cut[..|cut| - 3] + DOTS;
      TwinIsWholeIff(cut, size);
      if Whole(twin, size) {
        AmbiguousIff(twin, cut, size);
      }
    }
    forall data | Whole(data, size) && Rendered(data, size) == Rendered(cut, size)
      ensures 3 <= |cut| && LosesThree(cut, size) && data == cut[..|cut| - 3] + DOTS
    {
      LosesAtLeastThree(cut, size);
      AmbiguousIff(data, cut, size);
    }
  }

  lemma LosesAtLeastThree(cut: seq<byte>, size: nat)
    requires 1 + MAX_SUFFIX <= size
    ensures LosesThree(cut, size) ==> 3 <= |cut|
  {
  }

  lemma TwinIsWholeIff(cut: seq<byte>, size: nat)
    requires 1 + MAX_SUFFIX <= size && 3 <= |cut|
    ensures var room := size - 1 - MAX_SUFFIX;
      LosesThree(cut, size) && Whole(cut[..|cut| - 3] + DOTS, size)
      <==> && |Enc(Ranges, cut[..|cut| - 3])| == room - 3
           && |Enc(Ranges, cut[..|cut| - 2])| == room + 1
  {
    hide Enc, EncByte;
    var front := cut[..|cut| - 3];
    EncSnoc(Ranges, cut, |cut| - 3);
    EncDots(2);
    EncAppend(Ranges, front, DOTS[..2]);
    assert (front + DOTS)[..|front| + 2] == front + DOTS[..2];
  }

  lemma EncDots(n: nat)
    requires n <= 3
    ensures Enc(Ranges, DOTS[..n]) == ELLIPSIS[..n]
  {
    hide Enc, EncByte;
    EncNothing(DOTS);
    if n != 0 {
      EncDots(n - 1);
      EncSnoc(Ranges, DOTS, n - 1);
      DotAndZero();
    }
  }

  /** That happens: three zeros cut render like three dots kept. */
  lemma EllipsisIsAmbiguous()
    ensures var cut: seq<byte> := [0, 0, 0];
      && Kept(DOTS, 17) == 3
      && Kept(cut, 17) == 0
      && Rendered(DOTS, 17) == Rendered(cut, 17)
  {
    hide Enc, EncByte, Rendered, Kept;
    var cut: seq<byte> := [0, 0, 0];
    EncDots(2);
    WholeIff(DOTS, 17);
    EncNothing(cut);
    EncSnoc(Ranges, cut, 0);
    DotAndZero();
    EncGrows(cut, 1, 2);
    KeptIff(cut, 17, 0);
    AmbiguousIff(DOTS, cut, 17);
    assert cut[..0] + DOTS == DOTS;
  }

  lemma DotAndZero()
    ensures EncByte(Ranges, 46) == "." && |EncByte(Ranges, 0)| == 4
  {
  }
}
