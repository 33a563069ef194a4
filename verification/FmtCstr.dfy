/** sancus_fmt_ascii_cstr: the table-driven encoder writing into a bounded string
    (src/sancus/fmt_cstr.c). */
module FmtCstr {
  import opened HostOrder
  import opened Escape
  import opened Options

  /** Writes the encoding of the longest prefix that leaves room for the terminator,
      terminates it, touches nothing behind the terminator, and returns its length. */
  method FormatAsciiCstr(buf: array<char>, bufLen: nat, data: seq<byte>) returns (len: nat)
    requires 0 < bufLen <= buf.Length && data != []
    modifies buf
    ensures len < bufLen
    ensures buf[..len] == Enc(Table, data[..LongestFit(Table, data, bufLen - 1)])
    ensures buf[len] == '\0'
    ensures buf[len + 1..] == old(buf[len + 1..])
  {
    hide Enc, EncByte, LongestFit, TableEntry, TableLen, TableByte;
    var p, left := 0, bufLen;
    len := 0;
    EmptyPrefix(data);
    while p < |data|
      invariant p <= |data| && len + left == bufLen && 0 < left
      invariant buf[..len] == Enc(Table, data[..p])
      invariant p <= LongestFit(Table, data, bufLen - 1)
      invariant buf[len..] == old(buf[len..])
    {
      var c := data[p];
      var l := TableLen(c);
      NextByte(data, p, bufLen - 1);
      if left <= l {
        break;
      }
      assert buf[len + l..] == buf[len..][l..] && old(buf[len + l..]) == old(buf[len..])[l..];
      WriteEncoded(buf, len, c, l);
      left, len, p := left - l, len + l, p + 1;
    }
    buf[len] := '\0';
  }

  lemma EmptyPrefix(data: seq<byte>)
    ensures Enc(Table, data[..0]) == []
  {
  }

  lemma NextByte(data: seq<byte>, p: nat, room: nat)
    requires p < |data| && p <= LongestFit(Table, data, room)
    ensures Enc(Table, data[..p + 1]) == Enc(Table, data[..p]) + TableByte(data[p])
    ensures |Enc(Table, data[..p])| + TableLen(data[p]) <= room <==> p + 1 <= LongestFit(Table, data, room)
  {
    EncSnoc(Table, data, p);
    LongestFitIsLongest(Table, data, room, p + 1);
  }

  /** The switch over the length, with its fall-through. */
  method WriteEncoded(buf: array<char>, at: nat, c: byte, l: nat)
    requires l == TableLen(c) && at + l <= buf.Length
    modifies buf
    ensures buf[..at] == old(buf[..at])
    ensures buf[at..at + l] == TableByte(c)
    ensures buf[at + l..] == old(buf[at + l..])
    ensures buf[..at + l] == old(buf[..at]) + TableByte(c)
  {
    hide TableEntry;
    var pos := at;
    if l == 4 {
      buf[pos] := '\\';
      buf[pos + 1] := 'x';
      buf[pos + 2] := HEXA[c / 16];
      buf[pos + 3] := HEXA[c % 16];
    } else {
      if l == 2 {
        buf[pos] := '\\';
        pos := pos + 1;
      }
      buf[pos] := TableEntry(c);
    }
    assert buf[at..at + l] == TableByte(c);
  }

  /** What the text written by FormatAsciiCstr is worth: as a C string it is `text`
      itself, the first NUL being the terminator, and it decodes to the prefix. */
  lemma FormattedTextDecodes(data: seq<byte>, room: nat)
    ensures var k := LongestFit(Table, data, room);
      var text := Enc(Table, data[..k]);
      && |text| <= room
      && '\0' !in text
      && Decode(text) == Some(data[..k])
      && (k < |data| ==> |Enc(Table, data[..k + 1])| > room)
  {
    hide Enc, Decode, LongestFit;
    var k := LongestFit(Table, data, room);
    LongestFitIsLongest(Table, data, room, k);
    if k < |data| {
      LongestFitIsLongest(Table, data, room, k + 1);
    }
    EncPrintable(Table, data[..k]);
    DecodeEnc(Table, data[..k]);
  }
}
