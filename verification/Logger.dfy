/**
 What every record of the logger is made of (src/sancus/logger.c): a prefix, a message
 and perhaps data, each trimmed, and handed to a backend unless all are blank.
 */
module Logger {
  import opened Options
  import opened TextBuffer

  // ------------------------------------------------------- decimal numbers

  /** %u and %zu */
  function Digits(n: nat): (s: string)
    ensures s != []
  {
    if n < 10 then ['0' + n as char] else Digits(n / 10) + ['0' + (n % 10) as char]
  }

  /** The number a text of digits stands for. */
  function ReadDigits(s: string): Option<nat> {
    if s == [] then
      Some(0)
    else
      match ReadDigits(s[..|s| - 1])
      case None => None
      case Some(n) =>
        var c := s[|s| - 1];
        if '0' <= c <= '9' then Some(10 * n + (c as nat - '0' as nat)) else None
  }

  /** A printed number reads back, and consists of digits, no more than it needs. */
  lemma {:induction false} ReadDigitsInverts(n: nat)
    ensures ReadDigits(Digits(n)) == Some(n)
    ensures forall i :: 0 <= i < |Digits(n)| ==> '0' <= Digits(n)[i] <= '9'
    ensures n != 0 ==> Digits(n)[0] != '0'
  {
    var s := Digits(n);
    if 10 <= n {
      ReadDigitsInverts(n / 10);
      assert s[..|s| - 1] == Digits(n / 10);
    } else {
      assert s[..0] == [];
      assert ReadDigits(s[..0]) == Some(0);
    }
  }

  /** Five digits reach up to 99999. */
  lemma DigitsUpTo5(n: nat)
    ensures |Digits(n)| <= 5 <==> n <= 99999
  {
    assert |Digits(n / 10000)| <= 1 <==> n / 10000 < 10;
    DigitsShift(n);
    DigitsShift(n / 10);
    DigitsShift(n / 100);
    DigitsShift(n / 1000);
  }

  lemma DigitsShift(n: nat)
    ensures |Digits(n)| == if n < 10 then 1 else 1 + |Digits(n / 10)|
  {
  }

  // ------------------------------------------------------ prefix and message

  /** The prefix text of a logger: what its prefixer wrote and claimed, if it fitted. */
  function PrefixText(size: nat, prefix: FormatResult): (s: string)
    ensures |s| <= size
  {
    if prefix.Says? && |prefix.text| <= size then prefix.text else ""
  }

  /** log_ctx_prefix2 into an empty buffer.  The prefixer writes at the tail pointer and
      returns the length of what it has to say, or a negative number. */
  method LogPrefix(b: Buffer, prefix: FormatResult) returns (rc: int)
    requires b.Valid() && b.base == 0 && b.len == 0
    requires prefix.Fails? ==> prefix.rc < 0
    modifies b, b.buf
    ensures b.Valid() && b.base == 0 && b.Contents() == PrefixText(b.buf.Length, prefix)
    ensures rc == if prefix.Says? then |prefix.text| else prefix.rc
  {
    if prefix.Says? && |prefix.text| <= b.TailSize() {
      b.WriteTail(prefix.text);
    }
    rc := if prefix.Says? then |prefix.text| else prefix.rc;
    if rc > 0 {
      var _ := b.Sparse(rc);
    }
  }

  /** An append that is left out if it does not fit. */
  function Added(s: string, size: nat, t: string): (r: string)
    requires |s| <= size
    ensures |r| <= size
  {
    if |s| + |t| <= size then s + t else s
  }

  /** Function name and line, as far as they fit. */
  function Heading(size: nat, func: string, line: nat): (s: string)
    ensures |s| <= size
  {
    if func == "" then
      ""
    else
      var f := Added("", size, func);
      var l := if line == 0 then f else f + FormatText(size - |f|, false, Says(":" + Digits(line)));
      Added(l, size, ": ")
  }

  const MESSAGE_END: string := "\n\t :"

  /** What log_fmt returns; `out` is what the formatter makes of the message, if there is
      a format. */
  function MessageRc(size: nat, func: string, line: nat, out: Option<FormatResult>): int {
    if out == None then 0 else FormatRc(size - |Heading(size, func, line)|, true, out.value)
  }

  /** The message it leaves if all went well. */
  function MessageText(size: nat, func: string, line: nat, out: Option<FormatResult>): (s: string)
    ensures |s| <= size
  {
    var h := Heading(size, func, line);
    var s := h + if out == None then "" else FormatText(size - |h|, true, out.value);
    s[..|s| - SuffixLen(s, MESSAGE_END)]
  }

  /** log_fmt into an empty buffer. */
  method LogFmt(b: Buffer, func: string, line: nat, out: Option<FormatResult>) returns (rc: int)
    requires b.Valid() && b.base == 0 && b.len == 0
    requires out.Some? && out.value.Fails? ==> out.value.rc < 0
    modifies b, b.buf
    ensures b.Valid() && b.base == 0
    ensures rc == MessageRc(b.buf.Length, func, line, out)
    ensures rc >= 0 ==> b.Contents() == MessageText(b.buf.Length, func, line, out)
  {
    hide Heading, FormatText, FormatRc, SuffixLen;
    rc := 0;
    LogHeading(b, func, line);
    ghost var h := b.Contents();
    assert h + "" == h;
    if out.Some? {
      rc := b.AppendFormatted(true, out.value);
      if rc < 0 {
        return;
      }
    }
    StripMessageEnd(b);
  }

  method StripMessageEnd(b: Buffer)
    requires b.Valid()
    modifies b`len
    ensures b.Valid()
    ensures b.Contents() == old(b.Contents())[..old(b.len) - SuffixLen(old(b.Contents()), MESSAGE_END)]
  {
    assert MESSAGE_END[..|MESSAGE_END|] == MESSAGE_END;
    var _ := b.StripChar(true, Some(MESSAGE_END), |MESSAGE_END|);
  }

  method AddIfFits(b: Buffer, t: string)
    requires b.Valid() && b.base == 0
    modifies b`len, b.buf
    ensures b.Valid() && b.Contents() == Added(old(b.Contents()), b.buf.Length, t)
  {
    assert t[..|t|] == t;
    var _ := b.Append(false, Some(t), |t|);
  }

  method LogHeading(b: Buffer, func: string, line: nat)
    requires b.Valid() && b.base == 0 && b.len == 0
    modifies b`len, b.buf
    ensures b.Valid() && b.Contents() == Heading(b.buf.Length, func, line)
  {
    hide Digits, FormatText, Added;
    if func != "" {
      AddIfFits(b, func);
      if line != 0 {
        var _ := b.AppendFormatted(false, Says(":" + Digits(line)));
      }
      AddIfFits(b, ": ");
    }
  }

  /** A message never ends in what is stripped, so trimming it again changes nothing. */
  lemma MessageIsTrimmed(size: nat, func: string, line: nat, out: Option<FormatResult>)
    ensures var s := MessageText(size, func, line, out);
      && (s != "" ==> s[|s| - 1] !in MESSAGE_END)
      && TrimTail(s) == s
  {
    hide Heading, FormatText, SuffixLen, TrimTail;
    var h := Heading(size, func, line);
    var s := h + if out == None then "" else FormatText(size - |h|, true, out.value);
    StripsTo(s, MESSAGE_END);
    var m := MessageText(size, func, line, out);
    TrimTailIs(m);
    assert m[..|m|] == m;
    StrippedIsUnique(m, " \t\n", TrimTail(m), m);
  }

  /** What stands before the message: nothing without a function, else function, line and
      separator, each if it fits behind those before it; the line needs one character
      more for its terminator. */
  lemma HeadingIs(size: nat, func: string, line: nat)
    ensures func == "" ==> Heading(size, func, line) == ""
    ensures func != "" ==>
      var f := if |func| <= size then func else "";
      var l := if line != 0 && |f| + 1 + |Digits(line)| < size then ":" + Digits(line) else "";
      var c := if |f| + |l| + 2 <= size then ": " else "";
      Heading(size, func, line) == f + l + c
  {
    hide Digits;
    assert "" + func == func;
  }

  /** What log_fmt makes of any call: the head, then as much of the text as leaves a
      terminator its place, without the separators at its end.  It answers how much of the
      text that is; if the head has used up the room or the formatter fails, it says so. */
  lemma MessageIs(size: nat, func: string, line: nat, out: Option<FormatResult>)
    requires out.Some? && out.value.Fails? ==> out.value.rc < 0
    ensures var h := Heading(size, func, line);
      var rc, m := MessageRc(size, func, line, out), MessageText(size, func, line, out);
      && |h| <= size
      && match out
         case None => rc == 0 && IsStripped(h, "\n\t :", m)
         case Some(Fails(e)) => rc == if |h| == size then -ENOBUFS else e
         case Some(Says(text)) =>
           if |h| == size then
             rc == -ENOBUFS
           else
             var n := if |text| < size - |h| then |text| else size - |h| - 1;
             rc == n && IsStripped(h + text[..n], "\n\t :", m)
  {
    hide Heading, FormatText, FormatRc, SuffixLen, IsStripped;
    var h := Heading(size, func, line);
    var added := if out == None then "" else FormatText(size - |h|, true, out.value);
    StripsTo(h + added, MESSAGE_END);
    assert h + "" == h;
    if out.Some? {
      FormatIs(size - |h|, true, out.value);
      if out.value.Says? && |h| < size {
        var text := out.value.text;
        assert text[..|text|] == text;
        assert added == text[..|added|];
      }
    }
  }

  /** In full, where the head fits: the message is head and text, cut to what leaves a
      terminator its place, without the separators at its end. */
  lemma MessageIsCut(size: nat, func: string, line: nat, text: string)
    requires 0 < size
    requires func != "" ==> |func| + (if line == 0 then 0 else 1 + |Digits(line)|) + 2 < size
    ensures var h := if func == "" then "" else func + (if line == 0 then "" else ":" + Digits(line)) + ": ";
      var whole := h + text;
      var n := if |whole| < size then |whole| else size - 1;
      && |h| <= n
      && IsStripped(whole[..n], "\n\t :", MessageText(size, func, line, Some(Says(text))))
      && MessageRc(size, func, line, Some(Says(text))) == n - |h|
  {
    hide Heading, Digits, MessageText, MessageRc, IsStripped;
    HeadingIs(size, func, line);
    MessageIs(size, func, line, Some(Says(text)));
    var h := Heading(size, func, line);
    var n := if |text| < size - |h| then |text| else size - |h| - 1;
    assert (h + text)[..|h| + n] == h + text[..n];
  }

  /** The prefix is what the prefixer says, if the buffer holds it, and else nothing. */
  lemma PrefixIs(size: nat, prefix: FormatResult)
    ensures match prefix
      case Says(text) => PrefixText(size, prefix) == if size < |text| then "" else text
      case Fails(_) => PrefixText(size, prefix) == ""
  {
  }

  /** Nothing is lost of a message that has room and does not end in separators. */
  lemma MessageIsWhole(size: nat, func: string, line: nat, text: string)
    requires func != "" && line != 0 && text != "" && text[|text| - 1] !in MESSAGE_END
    requires |func| + 3 + |Digits(line)| + |text| < size
    ensures MessageText(size, func, line, Some(Says(text))) == func + (":" + Digits(line)) + ": " + text
    ensures MessageRc(size, func, line, Some(Says(text))) == |text|
  {
    hide Heading, SuffixLen;
    HeadingIs(size, func, line);
    var h := func + (":" + Digits(line)) + ": ";
    NothingToStrip(h + text, MESSAGE_END);
  }

  lemma NothingToStrip(s: string, chars: string)
    requires s != "" && s[|s| - 1] !in chars
    ensures SuffixLen(s, chars) == 0
  {
  }

  // ------------------------------------------------------------------- writing

  datatype Record = Record(prefix: string, message: string, data: string)

  /** log_write; `written` is what reached the backend. */
  method LogWrite(p: Buffer, m: Buffer, d: Buffer?, backend: Record -> int)
    returns (rc: int, written: Option<Record>)
    requires p.Valid() && m.Valid() && (d != null ==> d.Valid())
    ensures var r := Record(TrimTail(p.Contents()), TrimTail(m.Contents()),
                            if d == null then "" else TrimTail(d.Contents()));
      if r == Record("", "", "") then rc == 0 && written == None
      else rc == backend(r) && written == Some(r)
  {
    var prefix := TrimmedText(p);
    var message := TrimmedText(m);
    var data := "";
    if d != null {
      data := TrimmedText(d);
    }
    rc, written := 0, None;
    if |prefix| + |message| + |data| != 0 {
      var r := Record(prefix, message, data);
      rc, written := backend(r), Some(r);
    }
  }

  method TrimmedText(b: Buffer) returns (s: string)
    requires b.Valid()
    ensures s == TrimTail(b.Contents())
  {
    var l := b.Trimmed();
    Shortened(b.buf[..], b.base, b.len, l);
    s := b.buf[b.base..b.base + l];
  }

  /** Prefix and message of a record, composed before any data: the two buffers, or the
      first failure. */
  method Compose(psize: nat, msize: nat, prefix: FormatResult, func: string, line: nat, out: Option<FormatResult>)
    returns (rc: int, p: Buffer, m: Buffer)
    requires 0 < psize && 0 < msize
    requires prefix.Fails? ==> prefix.rc < 0
    requires out.Some? && out.value.Fails? ==> out.value.rc < 0
    ensures fresh(p) && fresh(p.buf) && fresh(m) && fresh(m.buf) && p.Valid() && m.Valid()
    ensures rc == ComposeRc(msize, prefix, func, line, out)
    ensures rc >= 0 ==>
      && p.Contents() == PrefixText(psize, prefix)
      && m.Contents() == MessageText(msize, func, line, out)
  {
    p := new Buffer(psize);
    m := new Buffer(msize);
    rc := LogPrefix(p, prefix);
    if rc < 0 {
      return;
    }
    rc := LogFmt(m, func, line, out);
  }

  /** The first failure, that of the prefix before that of the message. */
  function ComposeRc(msize: nat, prefix: FormatResult, func: string, line: nat, out: Option<FormatResult>): int {
    if prefix.Fails? then prefix.rc else MessageRc(msize, func, line, out)
  }

  /** A failing prefix is answered for before the message is looked at; with a prefix, the
      answer is that of the message, which is never negative unless its formatter fails
      or there is no room behind the head. */
  lemma ComposeIs(msize: nat, prefix: FormatResult, func: string, line: nat, out: Option<FormatResult>)
    requires out.Some? && out.value.Fails? ==> out.value.rc < 0
    ensures var rc, h := ComposeRc(msize, prefix, func, line, out), Heading(msize, func, line);
      && |h| <= msize
      && match (prefix, out)
         case (Fails(e), _) => rc == e
         case (Says(_), None) => rc == 0
         case (Says(_), Some(o)) =>
           if |h| == msize then rc == -ENOBUFS
           else if o.Fails? then rc == o.rc
           else rc == if |o.text| < msize - |h| then |o.text| else msize - |h| - 1
  {
    hide MessageRc, Heading;
    MessageIs(msize, func, line, out);
  }

  /** sancus_logger__vprintf */
  method VPrintf(psize: nat, msize: nat, prefix: FormatResult, func: string, line: nat, out: Option<FormatResult>,
                 backend: Record -> int)
    returns (rc: int, written: Option<Record>)
    requires 0 < psize && 0 < msize
    requires prefix.Fails? ==> prefix.rc < 0
    requires out.Some? && out.value.Fails? ==> out.value.rc < 0
    ensures var crc := ComposeRc(msize, prefix, func, line, out);
      var r := Record(TrimTail(PrefixText(psize, prefix)), MessageText(msize, func, line, out), "");
      if crc < 0 then rc == crc && written == None
      else if r == Record("", "", "") then rc == 0 && written == None
      else rc == backend(r) && written == Some(r)
  {
    hide MessageText, PrefixText;
    var p, m;
    rc, p, m := Compose(psize, msize, prefix, func, line, out);
    if rc < 0 {
      return rc, None;
    }
    MessageIsTrimmed(msize, func, line, out);
    rc, written := LogWrite(p, m, null, backend);
  }
}
