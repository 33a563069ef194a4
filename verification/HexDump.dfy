/** The hexdump of the logger (sancus_logger__vhexdumpf in src/sancus/logger.c). */
module HexDump {
  import opened HostOrder
  import opened Escape
  import opened Options
  import opened TextBuffer
  import opened Logger

  // ------------------------------------------------------- parts of a line

  /** One append of the dump: through the formatter, which keeps a terminator, or not.
      The program ignores the result: what does not fit is left out. */
  datatype Piece = Formatted(text: string) | Plain(text: string)

  function Appended(s: string, piece: Piece, size: nat): (r: string)
    ensures |s| <= size ==> |r| <= size
  {
    var need := |s| + |piece.text| + if piece.Formatted? then 1 else 0;
    if need <= size then s + piece.text else s
  }

  /** A line as it comes out of a buffer of `size`. */
  function Lossy(pieces: seq<Piece>, size: nat): (r: string)
    ensures |r| <= size
  {
    if pieces == [] then "" else Appended(Lossy(pieces[..|pieces| - 1], size), pieces[|pieces| - 1], size)
  }

  /** A line as it is meant. */
  function Text(pieces: seq<Piece>): string {
    if pieces == [] then "" else Text(pieces[..|pieces| - 1]) + pieces[|pieces| - 1].text
  }

  /** %0nx */
  function HexN(n: nat, v: nat): (s: string)
    ensures |s| == n
  {
    if n == 0 then [] else HexN(n - 1, v / 16) + [HEXA[v % 16]]
  }

  function Label(off: nat, width: nat): seq<Piece> {
    if width == 0 then [] else [Formatted(HexN(8, off % U32) + " ")]
  }

  function Columns(chunk: seq<byte>): (r: seq<Piece>)
    ensures |r| == |chunk|
  {
    if chunk == [] then
      []
    else
      Columns(chunk[..|chunk| - 1]) + [Formatted(" " + Hex2(chunk[|chunk| - 1]))]
  }

  function Padding(n: nat): (r: seq<Piece>)
    ensures |r| == n
  {
    if n == 0 then [] else Padding(n - 1) + [Plain("   ")]
  }

  function Shown(c: byte): char {
    if c < 0x20 || c > 0x7e then '.' else c as char
  }

  function Ascii(chunk: seq<byte>): (r: seq<Piece>)
    ensures |r| == |chunk|
  {
    if chunk == [] then [] else Ascii(chunk[..|chunk| - 1]) + [Plain([Shown(chunk[|chunk| - 1])])]
  }

  function Left(off: nat, chunk: seq<byte>, width: nat): seq<Piece> {
    Label(off, width) + Columns(chunk) + Padding(if |chunk| < width then width - |chunk| else 0)
  }

  function Line(off: nat, chunk: seq<byte>, width: nat): seq<Piece> {
    Left(off, chunk, width) + [Plain(" |")] + Ascii(chunk) + [Plain("|")]
  }

  function ChunkLen(n: nat, width: nat): nat {
    if width == 0 || n < width then n else width
  }

  /** The lines of a dump from position `p` on, as log_write trims them. */
  function Lines(data: seq<byte>, p: nat, width: nat, size: nat): seq<string>
    requires p <= |data|
    decreases |data| - p
  {
    if p == |data| then
      []
    else
      var n := ChunkLen(|data| - p, width);
      [TrimTail(Lossy(Line(p, data[p..p + n], width), size))] + Lines(data, p + n, width, size)
  }

  // ---------------------------------------------------------------- method

  /** A piece is kept whole exactly if it fits behind what was kept before it, with a
      terminator if it is a formatted one; otherwise nothing of it is. */
  lemma LossySnoc(pieces: seq<Piece>, piece: Piece, size: nat)
    ensures var s, end := Lossy(pieces, size), if piece.Formatted? then 1 else 0;
      Lossy(pieces + [piece], size) == if |s| + |piece.text| + end <= size then s + piece.text else s
  {
    assert (pieces + [piece])[..|pieces|] == pieces;
  }

  lemma LossyNil(size: nat)
    ensures Lossy([], size) == ""
  {
  }

  /** One append, its result ignored. */
  method Add(b: Buffer, piece: Piece, ghost before: seq<Piece>)
    requires b.Valid() && b.base == 0 && b.Contents() == Lossy(before, b.buf.Length)
    modifies b, b.buf
    ensures b.Valid() && b.base == 0 && b.Contents() == Lossy(before + [piece], b.buf.Length)
  {
    hide Lossy;
    LossySnoc(before, piece, b.buf.Length);
    match piece
    case Formatted(text) => var _ := b.AppendFormatted(false, Says(text));
    case Plain(text) =>
      assert text[..|text|] == text;
      var _ := b.Append(false, Some(text), |text|);
  }

  /** The hexadecimal columns; returns the offset behind them. */
  method AddColumns(b: Buffer, chunk: seq<byte>, off: nat, ghost before: seq<Piece>) returns (off': nat)
    requires b.Valid() && b.base == 0 && b.Contents() == Lossy(before, b.buf.Length) && off < U32
    modifies b, b.buf
    ensures b.Valid() && b.base == 0 && b.Contents() == Lossy(before + Columns(chunk), b.buf.Length)
    ensures off' == (off + |chunk|) % U32
  {
    hide Lossy, Hex2, Columns;
    off' := off;
    ColumnsUpTo(chunk, 0, before);
    assert chunk[..|chunk|] == chunk;
    for i := 0 to |chunk|
      invariant b.Valid() && b.base == 0
      invariant b.Contents() == Lossy(before + Columns(chunk[..i]), b.buf.Length)
      invariant off' == (off + i) % U32
    {
      ColumnsUpTo(chunk, i + 1, before);
      Add(b, Formatted(" " + Hex2(chunk[i])), before + Columns(chunk[..i]));
      OffsetStep(off, i);
      off' := (off' + 1) % U32;
    }
  }

  /** `off++` on an unsigned int */
  lemma OffsetStep(off: nat, i: nat)
    ensures ((off + i) % U32 + 1) % U32 == (off + (i + 1)) % U32
  {
  }

  lemma ColumnsUpTo(chunk: seq<byte>, i: nat, before: seq<Piece>)
    requires i <= |chunk|
    ensures before + Columns(chunk[..i])
         == if i == 0 then before
            else before + Columns(chunk[..i - 1]) + [Formatted(" " + Hex2(chunk[i - 1]))]
  {
    hide Hex2;
    if i != 0 {
      assert chunk[..i][..i - 1] == chunk[..i - 1];
    }
  }

  method AddPadding(b: Buffer, n: nat, ghost before: seq<Piece>)
    requires b.Valid() && b.base == 0 && b.Contents() == Lossy(before, b.buf.Length)
    modifies b, b.buf
    ensures b.Valid() && b.base == 0 && b.Contents() == Lossy(before + Padding(n), b.buf.Length)
  {
    hide Lossy;
    ghost var done := before;
    assert before + [] == before;
    for i := 0 to n
      invariant b.Valid() && b.base == 0
      invariant done == before + Padding(i)
      invariant b.Contents() == Lossy(done, b.buf.Length)
    {
      Add(b, Plain("   "), done);
      assert done + [Plain("   ")] == before + Padding(i + 1);
      done := done + [Plain("   ")];
    }
  }

  /** The ASCII column. */
  method AddRight(b: Buffer, chunk: seq<byte>, ghost left: seq<Piece>)
    requires b.Valid() && b.base == 0 && b.Contents() == Lossy(left, b.buf.Length)
    modifies b, b.buf
    ensures b.Valid() && b.base == 0
    ensures b.Contents() == Lossy(left + [Plain(" |")] + Ascii(chunk) + [Plain("|")], b.buf.Length)
  {
    hide Lossy;
    Add(b, Plain(" |"), left);
    ghost var bar := left + [Plain(" |")];
    ghost var done := bar;
    assert bar + [] == bar && chunk[..|chunk|] == chunk;
    for q := 0 to |chunk|
      invariant b.Valid() && b.base == 0
      invariant done == bar + Ascii(chunk[..q])
      invariant b.Contents() == Lossy(done, b.buf.Length)
    {
      var c := chunk[q];
      if c < 0x20 || c > 0x7e {
        c := '.' as int;
      }
      assert c as char == Shown(chunk[q]) && chunk[..q + 1][..q] == chunk[..q];
      Add(b, Plain([c as char]), done);
      assert done + [Plain([c as char])] == bar + Ascii(chunk[..q + 1]);
      done := done + [Plain([c as char])];
    }
    Add(b, Plain("|"), done);
  }

  /** One line, into an empty buffer. */
  method MakeLine(b: Buffer, chunk: seq<byte>, width: nat, off: nat) returns (off': nat)
    requires b.Valid() && b.base == 0 && b.len == 0 && off < U32
    modifies b, b.buf
    ensures b.Valid() && b.base == 0
    ensures b.Contents() == Lossy(Line(off, chunk, width), b.buf.Length)
    ensures off' == (off + |chunk|) % U32
  {
    hide Lossy, Columns, Padding, Ascii, HexN;
    LossyNil(b.buf.Length);
    ghost var head := Label(off, width);
    assert [] + head == head;
    if width != 0 {
      Add(b, Formatted(HexN(8, off) + " "), []);
    }
    off' := AddColumns(b, chunk, off, head);
    AddPadding(b, if |chunk| < width then width - |chunk| else 0, head + Columns(chunk));
    AddRight(b, chunk, Left(off, chunk, width));
  }

  lemma {:induction false} LossyKeeps(pieces: seq<Piece>, k: nat, size: nat)
    requires k <= |pieces|
    ensures Lossy(pieces[..k], size) <= Lossy(pieces, size)
    decreases |pieces|
  {
    if k == |pieces| {
      assert pieces[..k] == pieces;
    } else {
      var front := pieces[..|pieces| - 1];
      LossyKeeps(front, k, size);
      assert front[..k] == pieces[..k];
    }
  }

  lemma TrimKeeps(s: string, i: nat)
    requires i < |s| && s[i] !in " \t\n"
    ensures i < |TrimTail(s)|
  {
    SuffixLenIsLongest(s, " \t\n", |s| - i);
  }

  /** Trimming never leaves nothing of a line, so the backend is always asked: the
      label, or else the first column, is there. */
  lemma LineIsNotBlank(off: nat, chunk: seq<byte>, width: nat, size: nat)
    requires 10 <= size && chunk != []
    ensures TrimTail(Lossy(Line(off, chunk, width), size)) != ""
  {
    var line := Line(off, chunk, width);
    LossyKeeps(line, 1, size);
    FirstPiece(off, chunk, width);
    var first := line[0];
    assert line[..1] == [first] && [first][..0] == [];
    LossyNil(size);
    assert Lossy([first], size) == Appended(Lossy([], size), first, size) == first.text;
    TrimKeeps(Lossy(line, size), 1);
  }

  lemma {:induction false} LinesAreNotBlank(data: seq<byte>, p: nat, width: nat, size: nat)
    requires p <= |data| && 10 <= size
    ensures "" !in Lines(data, p, width, size)
    decreases |data| - p
  {
    hide Line, Lossy, TrimTail;
    if p < |data| {
      var n := ChunkLen(|data| - p, width);
      LineIsNotBlank(p, data[p..p + n], width, size);
      LinesAreNotBlank(data, p + n, width, size);
    }
  }

  lemma FirstPiece(off: nat, chunk: seq<byte>, width: nat)
    requires chunk != []
    ensures var line := Line(off, chunk, width);
      && line != [] && line[0].Formatted?
      && (|line[0].text| == 9 || |line[0].text| == 3)
      && line[0].text[1] !in " \t\n"
  {
    HexNPrintable(8, off % U32, 1);
    ColumnsFirst(chunk);
  }

  lemma {:induction false} ColumnsFirst(chunk: seq<byte>)
    requires chunk != []
    ensures Columns(chunk)[0] == Formatted(" " + Hex2(chunk[0]))
    ensures Hex2(chunk[0])[0] !in " \t\n"
    decreases chunk
  {
    HexNotBlank(chunk[0] / 16);
    if |chunk| > 1 {
      ColumnsFirst(chunk[..|chunk| - 1]);
    }
  }

  lemma {:induction false} HexNPrintable(n: nat, v: nat, i: nat)
    requires i < n
    ensures HexN(n, v)[i] !in " \t\n"
  {
    if i == n - 1 {
      HexNotBlank(v % 16);
    } else {
      HexNPrintable(n - 1, v / 16, i);
    }
  }

  lemma HexNotBlank(d: nat)
    requires d < 16
    ensures HEXA[d] !in " \t\n"
  {
  }

  /** What log_write answers to the k-th line. */
  function Answer(prefix: string, message: string, k: nat, line: string, backend: (nat, Record) -> int): int {
    var r := Record(prefix, message, line);
    if r == Record("", "", "") then 0 else backend(k, r)
  }

  /** sancus_logger__vhexdumpf.  `data` is null or `len` bytes; `backend(k, r)` is the
      backend's answer if it is asked to write the k-th line. */
  method VHexdumpf(psize: nat, msize: nat, size: nat, width: nat, data: Option<seq<byte>>, len: nat,
                   prefix: FormatResult, func: string, line: nat, out: Option<FormatResult>,
                   backend: (nat, Record) -> int)
    returns (rc: int, lines: seq<string>)
    requires 0 < psize && 0 < msize && 0 < size
    requires data.Some? ==> |data.value| == len
    requires prefix.Fails? ==> prefix.rc < 0
    requires out.Some? && out.value.Fails? ==> out.value.rc < 0
    ensures var crc := ComposeRc(msize, prefix, func, line, out);
      var p, m := TrimTail(PrefixText(psize, prefix)), MessageText(msize, func, line, out);
      if data == None && len > 0 then
        rc == -EINVAL && lines == []
      else if crc < 0 then
        rc == crc && lines == []
      else if len == 0 then
        rc == (if p == m == "" then 0 else backend(0, Record(p, m, ""))) && lines == []
      else
        && (exists unwritten :: Lines(data.value, 0, width, size) == lines + unwritten)
        && (forall k :: 0 <= k < |lines| - 1 ==>
              p == m == lines[k] == "" || backend(k, Record(p, m, lines[k])) >= 0)
        && lines != []
        && rc == (if p == m == lines[|lines| - 1] == "" then 0
                  else backend(|lines| - 1, Record(p, m, lines[|lines| - 1])))
        && (rc >= 0 ==> lines == Lines(data.value, 0, width, size))
        && (10 <= size ==> "" !in lines)
  {
    hide Lossy, Line, TrimTail, Lines, MessageText, PrefixText, MessageRc, Answer;
    lines := [];
    if data == None && len > 0 {
      return -EINVAL, lines;
    }
    var p, m;
    rc, p, m := Compose(psize, msize, prefix, func, line, out);
    if rc < 0 {
      return;
    }
    MessageIsTrimmed(msize, func, line, out);
    if len == 0 {
      var answer, _ := LogWrite(p, m, null, r => backend(0, r));
      rc := answer;
    } else {
      rc, lines := WriteData(p, m, size, width, data.value, backend);
    }
  }

  /** The lines, with the backend's answers spelled out. */
  method WriteData(pbuf: Buffer, mbuf: Buffer, size: nat, width: nat, data: seq<byte>, backend: (nat, Record) -> int)
    returns (rc: int, lines: seq<string>)
    requires pbuf.Valid() && mbuf.Valid() && 0 < size && data != []
    ensures exists unwritten :: Lines(data, 0, width, size) == lines + unwritten
    ensures var p, m := TrimTail(pbuf.Contents()), TrimTail(mbuf.Contents());
      && (forall k :: 0 <= k < |lines| - 1 ==>
            p == m == lines[k] == "" || backend(k, Record(p, m, lines[k])) >= 0)
      && lines != []
      && rc == (if p == m == lines[|lines| - 1] == "" then 0
                else backend(|lines| - 1, Record(p, m, lines[|lines| - 1])))
    ensures rc >= 0 ==> lines == Lines(data, 0, width, size)
    ensures 10 <= size ==> "" !in lines
  {
    hide Lossy, Line, TrimTail, Lines, Answer, AllTaken, Answered;
    rc, lines := WriteLines(pbuf, mbuf, size, width, data, backend);
    AnswersSpelled(TrimTail(pbuf.Contents()), TrimTail(mbuf.Contents()), lines, rc, backend);
    if 10 <= size {
      LinesAreNotBlank(data, 0, width, size);
    }
  }

  lemma AnswersSpelled(p: string, m: string, lines: seq<string>, rc: int, backend: (nat, Record) -> int)
    requires Answered(p, m, lines, rc, backend)
    ensures forall k :: 0 <= k < |lines| - 1 ==>
      p == m == lines[k] == "" || backend(k, Record(p, m, lines[k])) >= 0
    ensures lines != []
    ensures rc == if p == m == lines[|lines| - 1] == "" then 0
                  else backend(|lines| - 1, Record(p, m, lines[|lines| - 1]))
  {
    forall k | 0 <= k < |lines| - 1
      ensures p == m == lines[k] == "" || backend(k, Record(p, m, lines[k])) >= 0
    {
      assert lines[..|lines| - 1][k] == lines[k];
    }
  }

  /** The backend takes all these lines. */
  ghost predicate AllTaken(prefix: string, message: string, lines: seq<string>, backend: (nat, Record) -> int) {
    forall k :: 0 <= k < |lines| ==> Answer(prefix, message, k, lines[k], backend) >= 0
  }

  /** The backend takes all these lines but the last, and answers `rc` to that. */
  ghost predicate Answered(prefix: string, message: string, lines: seq<string>, rc: int, backend: (nat, Record) -> int) {
    && lines != []
    && AllTaken(prefix, message, lines[..|lines| - 1], backend)
    && rc == Answer(prefix, message, |lines| - 1, lines[|lines| - 1], backend)
  }

  /** The lines up to the first that the backend does not take. */
  method WriteLines(p: Buffer, m: Buffer, size: nat, width: nat, data: seq<byte>, backend: (nat, Record) -> int)
    returns (rc: int, lines: seq<string>)
    requires p.Valid() && m.Valid() && 0 < size && data != []
    ensures exists unwritten :: Lines(data, 0, width, size) == lines + unwritten
    ensures Answered(TrimTail(p.Contents()), TrimTail(m.Contents()), lines, rc, backend)
    ensures rc >= 0 ==> lines == Lines(data, 0, width, size)
  {
    hide Lossy, Line, TrimTail, Lines, Answer, AllTaken, Answered, Wrapped;
    lines, rc := [], 0;
    LinesStep(data, |data|, width, size);
    ghost var prefix, message := TrimTail(p.Contents()), TrimTail(m.Contents());
    NoneTaken(prefix, message, backend);
    var b := new Buffer(size);
    var at, off := 0, 0;
    while at < |data|
      invariant at <= |data| && off == Wrapped(at) && (at == 0 <==> lines == [])
      invariant b.Valid() && fresh(b) && fresh(b.buf) && b.base == 0 && b.len == 0 && b.buf.Length == size
      invariant Lines(data, 0, width, size) == lines + Lines(data, at, width, size)
      invariant AllTaken(prefix, message, lines, backend)
      invariant lines != [] ==> Answered(prefix, message, lines, rc, backend)
      decreases |data| - at
    {
      var next;
      at, off := NextLine(b, data, at, width, off);
      rc, next := WriteLine(p, m, b, |lines|, backend);
      TakenSnoc(prefix, message, lines, next, rc, backend);
      Regrouped(lines, next, Lines(data, at, width, size));
      lines := lines + [next];
      if rc < 0 {
        return;
      }
      var _ := b.Truncate(0);
    }
    assert Lines(data, 0, width, size) == lines + [];
  }

  lemma Regrouped(lines: seq<string>, next: string, rest: seq<string>)
    ensures lines + ([next] + rest) == (lines + [next]) + rest
  {
  }

  lemma NoneTaken(prefix: string, message: string, backend: (nat, Record) -> int)
    ensures AllTaken(prefix, message, [], backend) && Wrapped(0) == 0
  {
  }

  lemma TakenSnoc(prefix: string, message: string, lines: seq<string>, next: string, rc: int, backend: (nat, Record) -> int)
    requires AllTaken(prefix, message, lines, backend)
    requires rc == Answer(prefix, message, |lines|, next, backend)
    ensures Answered(prefix, message, lines + [next], rc, backend)
    ensures rc >= 0 ==> AllTaken(prefix, message, lines + [next], backend)
  {
    hide Answer;
    assert (lines + [next])[..|lines|] == lines;
  }

  method WriteLine(p: Buffer, m: Buffer, b: Buffer, k: nat, backend: (nat, Record) -> int)
    returns (rc: int, line: string)
    requires p.Valid() && m.Valid() && b.Valid()
    ensures line == TrimTail(b.Contents())
    ensures rc == Answer(TrimTail(p.Contents()), TrimTail(m.Contents()), k, line, backend)
  {
    hide TrimTail;
    var written;
    rc, written := LogWrite(p, m, b, r => backend(k, r));
    line := if written == None then "" else written.value.data;
  }

  /** The offset counted in an unsigned int */
  function Wrapped(at: nat): nat {
    at % U32
  }

  /** One round of the loop, up to log_write. */
  method NextLine(b: Buffer, data: seq<byte>, p: nat, width: nat, off: nat) returns (p': nat, off': nat)
    requires b.Valid() && b.base == 0 && b.len == 0 && p < |data| && off == Wrapped(p)
    modifies b, b.buf
    ensures b.Valid() && b.base == 0
    ensures p < p' <= |data| && off' == Wrapped(p')
    ensures Lines(data, p, width, b.buf.Length)
         == [TrimTail(b.Contents())] + Lines(data, p', width, b.buf.Length)
  {
    hide Lossy, Line, TrimTail, Lines;
    LinesStep(data, p, width, b.buf.Length);
    p' := p + ChunkLen(|data| - p, width);
    off' := MakeLine(b, data[p..p'], width, off);
  }

  lemma LabelWraps(p: nat, chunk: seq<byte>, width: nat)
    ensures Line(p % U32, chunk, width) == Line(p, chunk, width)
  {
    hide Columns, Padding, Ascii, HexN;
  }

  lemma LinesStep(data: seq<byte>, p: nat, width: nat, size: nat)
    requires p <= |data|
    ensures if p == |data| then
        Lines(data, p, width, size) == []
      else
        var n := ChunkLen(|data| - p, width);
        Lines(data, p, width, size)
        == [TrimTail(Lossy(Line(p % U32, data[p..p + n], width), size))] + Lines(data, p + n, width, size)
  {
    hide Lossy, Line, TrimTail;
    if p < |data| {
      LabelWraps(p, data[p..p + ChunkLen(|data| - p, width)], width);
    }
  }

  // ------------------------------------------------------------ losslessness

  /** The lines as they are meant. */
  function Intended(data: seq<byte>, p: nat, width: nat): seq<string>
    requires p <= |data|
    decreases |data| - p
  {
    if p == |data| then
      []
    else
      var n := ChunkLen(|data| - p, width);
      [Text(Line(p, data[p..p + n], width))] + Intended(data, p + n, width)
  }

  /** The characters a line of `n` bytes takes. */
  function LineLen(n: nat, width: nat): nat {
    if width == 0 then 3 + 4 * n else 12 + 3 * width + n
  }

  lemma TextLast(pieces: seq<Piece>)
    ensures if pieces == [] then Text(pieces) == ""
            else Text(pieces) == Text(pieces[..|pieces| - 1]) + pieces[|pieces| - 1].text
  {
  }

  lemma {:induction false} TextAppend(a: seq<Piece>, b: seq<Piece>)
    ensures Text(a + b) == Text(a) + Text(b)
    decreases b
  {
    hide Text;
    TextLast(b);
    if b == [] {
      assert a + b == a;
    } else {
      var front, last := b[..|b| - 1], b[|b| - 1].text;
      TextAppend(a, front);
      TextLast(a + b);
      assert (a + b)[..|a + b| - 1] == a + front;
      assert (Text(a) + Text(front)) + last == Text(a) + (Text(front) + last);
    }
  }

  lemma {:induction false} ColumnsLength(chunk: seq<byte>)
    ensures |Text(Columns(chunk))| == 3 * |chunk|
    decreases chunk
  {
    hide Hex2;
    if chunk != [] {
      ColumnsLength(chunk[..|chunk| - 1]);
    }
  }

  lemma {:induction false} PaddingText(n: nat)
    ensures |Text(Padding(n))| == 3 * n
    ensures forall i :: 0 <= i < 3 * n ==> Text(Padding(n))[i] == ' '
  {
    hide Text;
    TextLast(Padding(n));
    if n != 0 {
      PaddingText(n - 1);
      assert Padding(n)[..n - 1] == Padding(n - 1);
    }
  }

  lemma {:induction false} AsciiText(chunk: seq<byte>)
    ensures |Text(Ascii(chunk))| == |chunk|
    ensures forall i :: 0 <= i < |chunk| ==> Text(Ascii(chunk))[i] == Shown(chunk[i])
    decreases chunk
  {
    if chunk != [] {
      var front := chunk[..|chunk| - 1];
      AsciiText(front);
      TextLast(Ascii(chunk));
      assert Ascii(chunk)[..|Ascii(chunk)| - 1] == Ascii(front);
    }
  }

  /** What stands behind the columns of a line. */
  function Behind(chunk: seq<byte>, width: nat): string {
    Text(Padding(if |chunk| < width then width - |chunk| else 0)) + (" |" + (Text(Ascii(chunk)) + "|"))
  }

  function Before(off: nat, width: nat): string {
    if width == 0 then "" else HexN(8, off % U32) + " "
  }

  lemma LineText(off: nat, chunk: seq<byte>, width: nat)
    requires width == 0 || |chunk| <= width
    ensures Text(Line(off, chunk, width)) == Before(off, width) + (Text(Columns(chunk)) + Behind(chunk, width))
    ensures |Text(Line(off, chunk, width))| == LineLen(|chunk|, width)
  {
    hide Columns, Padding, Ascii, HexN;
    var pad := if |chunk| < width then width - |chunk| else 0;
    var a, b, c, d := Label(off, width), Columns(chunk), Padding(pad), Ascii(chunk);
    ColumnsLength(chunk);
    PaddingText(pad);
    AsciiText(chunk);
    One(Plain(" |"));
    One(Plain("|"));
    if width != 0 {
      One(a[0]);
    }
    TextAppend(a, b);
    TextAppend(a + b, c);
    TextAppend(a + b + c, [Plain(" |")]);
    TextAppend(a + b + c + [Plain(" |")], d);
    TextAppend(a + b + c + [Plain(" |")] + d, [Plain("|")]);
    assert a != [] ==> a == [a[0]];
    assert Text(a) == Before(off, width);
    Reassociate(Text(a), Text(b), Text(c), " |", Text(d), "|");
  }

  lemma One(piece: Piece)
    ensures Text([piece]) == piece.text
  {
    assert [piece][..0] == [];
  }

  lemma TextSnoc(pieces: seq<Piece>, piece: Piece)
    ensures Text(pieces + [piece]) == Text(pieces) + piece.text
  {
    TextAppend(pieces, [piece]);
    One(piece);
  }

  lemma Reassociate(a: string, b: string, c: string, d: string, e: string, f: string)
    ensures a + b + c + d + e + f == a + (b + (c + (d + (e + f))))
  {
  }

  /** Nothing is dropped from a line that fits. */
  lemma {:induction false} LossyIsTextBelow(pieces: seq<Piece>, size: nat)
    requires |Text(pieces)| < size
    ensures Lossy(pieces, size) == Text(pieces)
    decreases pieces
  {
    if pieces != [] {
      LossyIsTextBelow(pieces[..|pieces| - 1], size);
    }
  }

  lemma LineSurvives(off: nat, chunk: seq<byte>, width: nat, size: nat)
    requires width == 0 || |chunk| <= width
    ensures TrimTail(Lossy(Line(off, chunk, width), size)) == Text(Line(off, chunk, width))
            <==> LineLen(|chunk|, width) <= size
  {
    hide Left, Ascii, Text, Lossy;
    LineText(off, chunk, width);
    if LineLen(|chunk|, width) <= size {
      var front := Left(off, chunk, width) + [Plain(" |")] + Ascii(chunk);
      TextSnoc(front, Plain("|"));
      LossyIsTextBelow(front, size);
      LossySnoc(front, Plain("|"), size);
      EndsInBar(Text(front));
    }
  }

  lemma EndsInBar(s: string)
    ensures TrimTail(s + "|") == s + "|"
  {
    var t := s + "|";
    assert t[|t| - 1] == '|';
  }

  /** The dump comes out as meant exactly when its longest line fits the buffer. */
  lemma {:induction false} DumpSurvives(data: seq<byte>, p: nat, width: nat, size: nat)
    requires p < |data|
    ensures Lines(data, p, width, size) == Intended(data, p, width)
            <==> LineLen(ChunkLen(|data| - p, width), width) <= size
    decreases |data| - p
  {
    hide Line, Lossy, TrimTail, Text;
    var n := ChunkLen(|data| - p, width);
    LineSurvives(p, data[p..p + n], width, size);
    var l, i := Lines(data, p, width, size), Intended(data, p, width);
    if p + n < |data| {
      DumpSurvives(data, p + n, width, size);
      assert l[1..] == Lines(data, p + n, width, size) && i[1..] == Intended(data, p + n, width);
    }
    assert l == i ==> l[0] == i[0];
  }

  // ------------------------------------------------------------- reading back

  function ReadColumns(s: string): seq<byte> {
    if |s| < 3 || s[0] != ' ' || HexVal(s[1]) == None || HexVal(s[2]) == None then
      []
    else
      [16 * HexVal(s[1]).value + HexVal(s[2]).value] + ReadColumns(s[3..])
  }

  /** The number a text of hexadecimal digits stands for. */
  function ReadHex(s: string): Option<nat> {
    if s == [] then
      Some(0)
    else
      match (ReadHex(s[..|s| - 1]), HexVal(s[|s| - 1]))
      case (Some(n), Some(d)) => Some(16 * n + d)
      case _ => None
  }

  /** The bytes a line shows. */
  function LineBytes(line: string, width: nat): seq<byte> {
    ReadColumns(if width == 0 then line else if 9 <= |line| then line[9..] else [])
  }

  function DumpBytes(lines: seq<string>, width: nat): seq<byte> {
    if lines == [] then [] else LineBytes(lines[0], width) + DumpBytes(lines[1..], width)
  }

  function Pow16(n: nat): nat {
    if n == 0 then 1 else 16 * Pow16(n - 1)
  }

  lemma {:induction false} ReadHexInverts(n: nat, v: nat)
    requires v < Pow16(n)
    ensures ReadHex(HexN(n, v)) == Some(v)
  {
    hide HexVal;
    if n != 0 {
      ReadHexInverts(n - 1, v / 16);
      HexDigit(v % 16);
      ReadHexSnoc(HexN(n - 1, v / 16), HEXA[v % 16]);
    }
  }

  lemma ReadHexSnoc(s: string, h: char)
    ensures ReadHex(s + [h]) == if ReadHex(s).Some? && HexVal(h).Some? then Some(16 * ReadHex(s).value + HexVal(h).value)
                                else None
  {
    hide HexVal;
    assert (s + [h])[..|s|] == s;
  }

  lemma ColumnsSnoc(chunk: seq<byte>, c: byte)
    ensures Text(Columns(chunk + [c])) == Text(Columns(chunk)) + (" " + Hex2(c))
  {
    hide Hex2;
    assert (chunk + [c])[..|chunk|] == chunk;
    TextSnoc(Columns(chunk), Formatted(" " + Hex2(c)));
  }

  lemma {:induction false} ColumnsCons(c: byte, chunk: seq<byte>)
    ensures Text(Columns([c] + chunk)) == " " + Hex2(c) + Text(Columns(chunk))
    decreases chunk
  {
    hide Hex2, Text, Columns;
    ColumnsLength([]);
    if chunk == [] {
      assert [c] + chunk == [c] && [] + [c] == [c];
      ColumnsSnoc([], c);
    } else {
      var front, last := chunk[..|chunk| - 1], chunk[|chunk| - 1];
      assert front + [last] == chunk && [c] + front + [last] == [c] + chunk;
      ColumnsCons(c, front);
      ColumnsSnoc([c] + front, last);
      ColumnsSnoc(front, last);
      var x, y, z := " " + Hex2(c), Text(Columns(front)), " " + Hex2(last);
      assert (x + y) + z == x + (y + z);
    }
  }

  /** The columns are read back whatever follows them, unless it looks like one more. */
  lemma {:induction false} ColumnsRead(chunk: seq<byte>, rest: string)
    requires 2 <= |rest| && HexVal(rest[1]) == None
    ensures ReadColumns(Text(Columns(chunk)) + rest) == chunk
    decreases chunk
  {
    hide Hex2, Columns;
    if chunk == [] {
      ColumnsLength(chunk);
      assert Text(Columns(chunk)) + rest == rest;
    } else {
      var c, tail := chunk[0], chunk[1..];
      assert chunk == [c] + tail;
      ColumnsCons(c, tail);
      Hex2Inverts(c);
      var s := Text(Columns(chunk)) + rest;
      assert s == " " + Hex2(c) + (Text(Columns(tail)) + rest);
      assert s[1] == Hex2(c)[0] && s[2] == Hex2(c)[1];
      assert s[3..] == Text(Columns(tail)) + rest;
      ColumnsRead(tail, rest);
    }
  }

  /** A line as it is meant shows its bytes, and its label their position. */
  lemma LineReads(off: nat, chunk: seq<byte>, width: nat)
    requires width == 0 || |chunk| <= width
    ensures var t := Text(Line(off, chunk, width));
      && LineBytes(t, width) == chunk
      && |t| == LineLen(|chunk|, width)
      && (width != 0 ==> ReadHex(t[..8]) == Some(off % U32))
  {
    hide Columns, Ascii, HexN, ReadHex, ReadColumns, Line, Text, Behind;
    var t, behind := Text(Line(off, chunk, width)), Behind(chunk, width);
    LineText(off, chunk, width);
    BehindIsNoColumn(chunk, width);
    ColumnsRead(chunk, behind);
    if width == 0 {
      assert t == Text(Columns(chunk)) + behind;
    } else {
      assert t[9..] == Text(Columns(chunk)) + behind;
      assert t[..8] == HexN(8, off % U32);
      Pow16Of8();
      ReadHexInverts(8, off % U32);
    }
  }

  lemma Pow16Of8()
    ensures Pow16(8) == U32
  {
    assert Pow16(4) == 0x1_0000;
  }

  lemma BehindIsNoColumn(chunk: seq<byte>, width: nat)
    ensures 2 <= |Behind(chunk, width)| && HexVal(Behind(chunk, width)[1]) == None
  {
    hide Text, Padding, Ascii;
    PaddingText(if |chunk| < width then width - |chunk| else 0);
  }

  /** The bytes that are printable stand once more between the bars, dots for others. */
  lemma LineShowsAscii(off: nat, chunk: seq<byte>, width: nat)
    requires width == 0 || |chunk| <= width
    ensures var t := Text(Line(off, chunk, width));
      var bar := |t| - 2 - |chunk|;
      && 0 <= bar && t[bar] == '|' == t[|t| - 1]
      && forall i :: 0 <= i < |chunk| ==>
           t[bar + 1 + i] == if 0x20 <= chunk[i] < 0x7f then chunk[i] as char else '.'
  {
    hide Columns, Ascii, HexN, Line, Text, Padding, Before, LineLen, Shown;
    LineText(off, chunk, width);
    AsciiText(chunk);
    var pad := if |chunk| < width then width - |chunk| else 0;
    var x, y, z, a := Before(off, width), Text(Columns(chunk)), Text(Padding(pad)), Text(Ascii(chunk));
    Reassociate(x, y, z, " |", a, "|");
    BetweenBars(x + y + z, a);
    ShownIs(chunk);
  }

  lemma ShownIs(chunk: seq<byte>)
    ensures forall i :: 0 <= i < |chunk| ==>
      Shown(chunk[i]) == if 0x20 <= chunk[i] < 0x7f then chunk[i] as char else '.'
  {
  }

  /** Everything else on a line is blank: behind the label, and from the columns up to the
      first bar. */
  lemma LineIsBlankElsewhere(off: nat, chunk: seq<byte>, width: nat)
    requires width == 0 || |chunk| <= width
    ensures var t := Text(Line(off, chunk, width));
      var end, bar := (if width == 0 then 0 else 9) + 3 * |chunk|, |t| - 2 - |chunk|;
      && (width != 0 ==> 8 < |t| && t[8] == ' ')
      && end < bar < |t|
      && forall i :: end <= i < bar ==> t[i] == ' '
  {
    hide Columns, Ascii, HexN, Line, Text, Padding, LineLen, Shown, Before;
    LineText(off, chunk, width);
    AsciiText(chunk);
    ColumnsLength(chunk);
    BeforeEndsBlank(off, width);
    var pad := if |chunk| < width then width - |chunk| else 0;
    PaddingText(pad);
    var x, y, z, a := Before(off, width), Text(Columns(chunk)), Text(Padding(pad)), Text(Ascii(chunk));
    var rest := z + (" |" + (a + "|"));
    BlankBetween(x + y, z, a);
    assert (x + y) + rest == x + (y + rest);
  }

  lemma BeforeEndsBlank(off: nat, width: nat)
    ensures |Before(off, width)| == if width == 0 then 0 else 9
    ensures width != 0 ==> Before(off, width)[8] == ' '
  {
  }

  lemma BlankBetween(front: string, z: string, a: string)
    requires forall i :: 0 <= i < |z| ==> z[i] == ' '
    ensures var t := front + (z + (" |" + (a + "|")));
      && |t| == |front| + |z| + |a| + 3
      && t[..|front|] == front
      && forall i :: |front| <= i < |front| + |z| + 1 ==> t[i] == ' '
  {
  }

  /** The pieces a line is appended in, and which of them go through the formatter. */
  lemma LinePieces(off: nat, chunk: seq<byte>, width: nat)
    ensures var line := Line(off, chunk, width);
      var w, n := if width == 0 then 0 else 1, |chunk|;
      var pad := if n < width then width - n else 0;
      && |line| == w + n + pad + 1 + n + 1
      && (width != 0 ==> line[0].Formatted? && |line[0].text| == 9)
      && (forall i :: w <= i < w + n ==> line[i] == Formatted(" " + Hex2(chunk[i - w])))
      && (forall i :: w + n <= i < w + n + pad ==> line[i] == Plain("   "))
      && line[w + n + pad] == Plain(" |")
      && (forall i :: w + n + pad < i < |line| - 1 ==> line[i] == Plain([Shown(chunk[i - (w + n + pad + 1)])]))
      && line[|line| - 1] == Plain("|")
  {
    hide Hex2, HexN, Shown, Columns, Padding, Ascii;
    var pad := if |chunk| < width then width - |chunk| else 0;
    ColumnsAt(chunk);
    PaddingAt(pad);
    AsciiAt(chunk);
    Segments(Label(off, width), Columns(chunk), Padding(pad), [Plain(" |")], Ascii(chunk), [Plain("|")]);
  }

  lemma Segments(a: seq<Piece>, b: seq<Piece>, c: seq<Piece>, d: seq<Piece>, e: seq<Piece>, f: seq<Piece>)
    ensures var s := a + b + c + d + e + f;
      && |s| == |a| + |b| + |c| + |d| + |e| + |f|
      && (forall i :: 0 <= i < |s| ==>
            s[i] == if i < |a| then a[i]
                    else if i < |a| + |b| then b[i - |a|]
                    else if i < |a| + |b| + |c| then c[i - |a| - |b|]
                    else if i < |a| + |b| + |c| + |d| then d[i - |a| - |b| - |c|]
                    else if i < |a| + |b| + |c| + |d| + |e| then e[i - |a| - |b| - |c| - |d|]
                    else f[i - |a| - |b| - |c| - |d| - |e|])
  {
  }

  lemma {:induction false} ColumnsAt(chunk: seq<byte>)
    ensures forall j :: 0 <= j < |chunk| ==> Columns(chunk)[j] == Formatted(" " + Hex2(chunk[j]))
    decreases chunk
  {
    hide Hex2;
    if chunk != [] {
      ColumnsAt(chunk[..|chunk| - 1]);
    }
  }

  lemma {:induction false} PaddingAt(n: nat)
    ensures forall j :: 0 <= j < n ==> Padding(n)[j] == Plain("   ")
  {
    if n != 0 {
      PaddingAt(n - 1);
    }
  }

  lemma {:induction false} AsciiAt(chunk: seq<byte>)
    ensures forall j :: 0 <= j < |chunk| ==> Ascii(chunk)[j] == Plain([Shown(chunk[j])])
    decreases chunk
  {
    hide Shown;
    if chunk != [] {
      AsciiAt(chunk[..|chunk| - 1]);
    }
  }

  lemma BetweenBars(front: string, a: string)
    ensures var t := front + " |" + a + "|";
      && t[|front| + 1] == '|' == t[|t| - 1]
      && forall i :: 0 <= i < |a| ==> t[|t| - 2 - |a| + 1 + i] == a[i]
  {
  }

  /** Lines that come out as meant give the data back. */
  lemma {:induction false} DumpReads(data: seq<byte>, p: nat, width: nat)
    requires p <= |data|
    ensures DumpBytes(Intended(data, p, width), width) == data[p..]
    decreases |data| - p
  {
    hide Line, Text, LineBytes;
    if p < |data| {
      var n := ChunkLen(|data| - p, width);
      LineReads(p, data[p..p + n], width);
      DumpReads(data, p + n, width);
      var l := Intended(data, p, width);
      assert l[1..] == Intended(data, p + n, width);
      assert data[p..p + n] + data[p + n..] == data[p..];
    }
  }

  /** There are just enough lines for the data, and one for all of it without a width. */
  lemma {:induction false} DumpLineCount(data: seq<byte>, p: nat, width: nat)
    requires p <= |data|
    ensures var l := Intended(data, p, width);
      if width == 0 then |l| == if p < |data| then 1 else 0
      else |data| - p <= |l| * width < |data| - p + width
    decreases |data| - p
  {
    hide Line, Text;
    if width == 0 {
      assert p < |data| ==> Intended(data, |data|, width) == [];
    } else if p < |data| {
      var n := ChunkLen(|data| - p, width);
      DumpLineCount(data, p + n, width);
      var rest := |Intended(data, p + n, width)|;
      assert (rest + 1) * width == rest * width + width;
      if n < width {
        assert rest == 0;
      }
    }
  }

  /** In a buffer that is too small, too, line k is that of position k * width: what is left
      of its pieces, trimmed. */
  lemma {:induction false} LossyLineAt(data: seq<byte>, p: nat, width: nat, size: nat, k: nat, at: nat)
    requires (if width == 0 then k == 0 && at == p else at == p + k * width) && at < |data|
    ensures |Lines(data, p, width, size)| == |Intended(data, p, width)|
    ensures k < |Lines(data, p, width, size)|
    ensures var n := if width == 0 || |data| - at < width then |data| - at else width;
      Lines(data, p, width, size)[k] == TrimTail(Lossy(Line(at, data[at..at + n], width), size))
    decreases k
  {
    hide Line, Lossy, TrimTail;
    SameCount(data, p, width, size);
    if k != 0 {
      assert k * width == (k - 1) * width + width;
      assert 0 <= (k - 1) * width;
      LossyLineAt(data, p + width, width, size, k - 1, at);
    }
  }

  lemma {:induction false} SameCount(data: seq<byte>, p: nat, width: nat, size: nat)
    requires p <= |data|
    ensures |Lines(data, p, width, size)| == |Intended(data, p, width)|
    decreases |data| - p
  {
    hide Line, Lossy, TrimTail, Text;
    if p < |data| {
      SameCount(data, p + ChunkLen(|data| - p, width), width, size);
    }
  }

  /** `line` shows the bytes from `at` on, has the length of its kind, and is labelled
      with its position modulo 2^32. */
  ghost predicate ShowsFrom(line: string, data: seq<byte>, at: nat, width: nat) {
    && at < |data|
    && var n := ChunkLen(|data| - at, width);
    && LineBytes(line, width) == data[at..at + n]
    && |line| == LineLen(n, width)
    && (width != 0 ==> ReadHex(line[..8]) == Some(at % U32))
  }

  /** Line k stands for position k * width. */
  lemma {:induction false} DumpLineAt(data: seq<byte>, p: nat, width: nat, k: nat, at: nat)
    requires width != 0 && at == p + k * width < |data|
    ensures k < |Intended(data, p, width)|
    ensures ShowsFrom(Intended(data, p, width)[k], data, at, width)
    decreases k
  {
    hide Line, Text, ShowsFrom;
    if k == 0 {
      FirstShowsFrom(data, p, width);
    } else {
      assert k * width == (k - 1) * width + width;
      assert 0 <= (k - 1) * width;
      DumpLineAt(data, p + width, width, k - 1, at);
    }
  }

  lemma FirstShowsFrom(data: seq<byte>, p: nat, width: nat)
    requires p < |data| && width != 0
    ensures Intended(data, p, width) != []
    ensures ShowsFrom(Intended(data, p, width)[0], data, p, width)
  {
    hide Line, Text, LineBytes, ReadHex;
    LineReads(p, data[p..p + ChunkLen(|data| - p, width)], width);
  }
}
