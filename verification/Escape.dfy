/**
 The two escape codes for binary data: the range-driven one of the logger's
 dump_enc (src/sancus/logger.c) and the table-driven one of
 sancus_fmt_ascii_cstr (src/sancus/fmt_cstr.c), with the decoder that undoes both.
 */
module Escape {
  import opened HostOrder
  import opened Options

  /** Which of the two encoders: by character ranges, or by the table. */
  datatype Code = Ranges | Table

  const HEXA: string := "0123456789abcdef"
  const CEC: string := "abtnvfr"

  function Hex2(c: byte): (s: string)
    ensures |s| == 2
    ensures forall i :: 0 <= i < |s| ==> ' ' <= s[i] <= '~'
  {
    [HEXA[c / 16], HEXA[c % 16]]
  }

  /** One byte under dump_enc. */
  function DumpByte(c: byte): (s: string) {
    if 0x1f < c < 0x7f then
      if c as char == '"' || c as char == '\\' then ['\\', c as char] else [c as char]
    else if 7 <= c <= 13 then
      ['\\', CEC[c - 7]]
    else
      ['\\', 'x'] + Hex2(c)
  }

  /** The 128-entry table `ascii`, sixteen entries a row. */
  function AsciiRow(r: nat): (s: string)
    requires r < 8
    ensures |s| == 16
  {
    match r
    case 0 => "0\0\0\0\0\0\0abtnvfr\0\0"
    case 1 => "\0\0\0\0\0\0\0\0\0\0\0\0\0\0\0\0"
    case 2 => " !\"#$%&'()*+,-./"
    case 3 => "0123456789:;<=>?"
    case 4 => "@ABCDEFGHIJKLMNO"
    case 5 => "PQRSTUVWXYZ[\\]^_"
    case 6 => "`abcdefghijklmno"
    case 7 => "pqrstuvwxyz{|}~\0"
  }

  /** `(c & 0x80) ? 0 : ascii[c]` */
  function TableEntry(c: byte): char {
    if c >= 0x80 then '\0' else AsciiRow(c / 16)[c % 16]
  }

  /** The `l` of the encoding loop. */
  function TableLen(c: byte): (l: nat)
    ensures l == 1 || l == 2 || l == 4
  {
    var e := TableEntry(c);
    if e == '\0' then 4 else if c < 32 || e == '"' || e == '\\' then 2 else 1
  }

  /** One byte under sancus_fmt_ascii_cstr. */
  function TableByte(c: byte): (s: string)
    ensures |s| == TableLen(c)
  {
    var e := TableEntry(c);
    var l := TableLen(c);
    if l == 4 then ['\\', 'x'] + Hex2(c) else if l == 2 then ['\\', e] else [e]
  }

  function EncByte(code: Code, c: byte): (s: string)
    ensures |s| == 1 || |s| == 2 || |s| == 4
  {
    if code == Ranges then DumpByte(c) else TableByte(c)
  }

  function Enc(code: Code, data: seq<byte>): string {
    if data == [] then [] else EncByte(code, data[0]) + Enc(code, data[1..])
  }

  // ------------------------------------------------------------- decoding

  function HexVal(h: char): Option<nat> {
    if '0' <= h <= '9' then Some(h as nat - '0' as nat)
    else if 'a' <= h <= 'f' then Some(h as nat - 'a' as nat + 10)
    else None
  }

  /** The byte a text starts with, and how many characters it takes. */
  function DecodeByte(s: string): (r: Option<(byte, nat)>)
    ensures r.Some? ==> 0 < r.value.1 <= |s|
  {
    if s == [] then
      None
    else if s[0] != '\\' then
      if ' ' <= s[0] <= '~' && s[0] != '"' then Some((s[0] as int, 1)) else None
    else if |s| < 2 then
      None
    else
      match s[1]
      case '"' => Some(('"' as int, 2))
      case '\\' => Some(('\\' as int, 2))
      case '0' => Some((0, 2))
      case 'a' => Some((7, 2))
      case 'b' => Some((8, 2))
      case 't' => Some((9, 2))
      case 'n' => Some((10, 2))
      case 'v' => Some((11, 2))
      case 'f' => Some((12, 2))
      case 'r' => Some((13, 2))
      case 'x' =>
        if |s| < 4 || HexVal(s[2]) == None || HexVal(s[3]) == None then None
        else Some((16 * HexVal(s[2]).value + HexVal(s[3]).value, 4))
      case _ => None
  }

  /** All of a text, if every part of it is an encoded byte. */
  function Decode(s: string): Option<seq<byte>>
    decreases |s|
  {
    if s == [] then
      Some([])
    else
      match DecodeByte(s)
      case None => None
      case Some((c, n)) =>
        match Decode(s[n..])
        case None => None
        case Some(rest) => Some([c] + rest)
  }

  // -------------------------------------------------------------- lemmas

  /** The table agrees with the ranges everywhere but at zero. */
  lemma TableIsRanges(c: byte)
    ensures TableByte(c) == if c == 0 then "\\0" else DumpByte(c)
  {
    hide TableEntry, Hex2;
    if c < 32 {
      ControlRows(c);
    } else if c < 80 {
      PunctuationAndUpperRows(c);
    } else {
      UpperAndLowerRows(c);
    }
  }

  lemma ControlRows(c: byte)
    requires c < 32
    ensures TableEntry(c) == if c == 0 then '0' else if 7 <= c <= 13 then CEC[c - 7] else '\0'
  {
  }

  lemma PunctuationAndUpperRows(c: byte)
    requires 32 <= c < 80
    ensures TableEntry(c) == c as char
  {
  }

  lemma UpperAndLowerRows(c: byte)
    requires 80 <= c
    ensures TableEntry(c) == if 127 <= c then '\0' else c as char
  {
  }

  /** A hexadecimal digit. */
  function HexChar(d: nat): char
    requires d < 16
  {
    if d < 10 then '0' + d as char else 'a' + (d - 10) as char
  }

  lemma HexaIs(d: nat)
    requires d < 16
    ensures HEXA[d] == HexChar(d)
  {
  }

  /** Nothing else is read as one. */
  lemma HexValIs(h: char, d: nat)
    ensures HexVal(h) == Some(d) <==> d < 16 && h == HexChar(d)
  {
  }

  /** What dump_enc writes, byte by byte: printable characters as they are, the quote and
      the backslash behind a backslash, the controls C has letters for by these, and
      everything else in hexadecimal.  With TableIsRanges it is what the table writes. */
  lemma DumpByteIs(c: byte)
    ensures 0x20 <= c <= 0x7e && c != 0x22 && c != 0x5c ==> DumpByte(c) == [c as char]
    ensures DumpByte(0x22) == "\\\"" && DumpByte(0x5c) == "\\\\"
    ensures DumpByte(7) == "\\a" && DumpByte(8) == "\\b" && DumpByte(9) == "\\t" && DumpByte(10) == "\\n"
    ensures DumpByte(11) == "\\v" && DumpByte(12) == "\\f" && DumpByte(13) == "\\r"
    ensures c < 7 || 13 < c < 0x20 || 0x7f <= c ==>
      DumpByte(c) == "\\x" + [HexChar(c / 16), HexChar(c % 16)]
  {
    HexaIs(c / 16);
    HexaIs(c % 16);
  }

  /** No encoded byte is mistaken for another, whatever text follows it. */
  lemma DecodeByteInverts(code: Code, c: byte, rest: string)
    ensures DecodeByte(EncByte(code, c) + rest) == Some((c, |EncByte(code, c)|))
  {
    hide TableByte, DecodeByte, DumpByte;
    TableIsRanges(c);
    DumpByteInverts(c, rest);
    ZeroInverts(rest);
  }

  lemma DumpByteInverts(c: byte, rest: string)
    ensures DecodeByte(DumpByte(c) + rest) == Some((c, |DumpByte(c)|))
  {
    hide Hex2, HexVal;
    Hex2Inverts(c);
  }

  lemma ZeroInverts(rest: string)
    ensures DecodeByte("\\0" + rest) == Some((0, 2))
  {
  }

  lemma Hex2Inverts(c: byte)
    ensures HexVal(Hex2(c)[0]) == Some(c / 16) && HexVal(Hex2(c)[1]) == Some(c % 16)
  {
    HexDigit(c / 16);
    HexDigit(c % 16);
  }

  lemma HexDigit(d: nat)
    requires d < 16
    ensures HexVal(HEXA[d]) == Some(d)
  {
  }

  /** Decoding undoes either encoder on every byte string. */
  lemma {:induction false} DecodeEnc(code: Code, data: seq<byte>)
    ensures Decode(Enc(code, data)) == Some(data)
    decreases data
  {
    hide EncByte, DecodeByte;
    if data != [] {
      var b, rest := EncByte(code, data[0]), Enc(code, data[1..]);
      DecodeByteInverts(code, data[0], rest);
      DecodeEnc(code, data[1..]);
      assert (b + rest)[|b|..] == rest;
      assert data == [data[0]] + data[1..];
    }
  }

  /** Both encodings are injective, even against each other. */
  lemma EncInjective(code: Code, code': Code, data: seq<byte>, data': seq<byte>)
    requires Enc(code, data) == Enc(code', data')
    ensures data == data'
  {
    DecodeEnc(code, data);
    DecodeEnc(code', data');
  }

  lemma {:induction false} EncAppend(code: Code, a: seq<byte>, b: seq<byte>)
    ensures Enc(code, a + b) == Enc(code, a) + Enc(code, b)
    decreases a
  {
    hide Enc, EncByte;
    EncCons(code, a);
    if a == [] {
      assert a + b == b;
    } else {
      EncAppend(code, a[1..], b);
      EncCons(code, a + b);
      assert (a + b)[1..] == a[1..] + b;
    }
  }

  lemma EncCons(code: Code, data: seq<byte>)
    ensures Enc(code, data) == if data == [] then [] else EncByte(code, data[0]) + Enc(code, data[1..])
  {
  }

  lemma EncSnoc(code: Code, data: seq<byte>, k: nat)
    requires k < |data|
    ensures Enc(code, data[..k + 1]) == Enc(code, data[..k]) + EncByte(code, data[k])
  {
    assert data[..k + 1] == data[..k] + [data[k]];
    EncAppend(code, data[..k], [data[k]]);
  }

  /** A byte takes one to four characters. */
  lemma {:induction false} EncLength(code: Code, data: seq<byte>)
    ensures |data| <= |Enc(code, data)| <= 4 * |data|
    decreases data
  {
    if data != [] {
      EncLength(code, data[1..]);
    }
  }

  predicate Printable(s: string) {
    forall i :: 0 <= i < |s| ==> ' ' <= s[i] <= '~'
  }

  lemma BytePrintable(code: Code, c: byte)
    ensures Printable(EncByte(code, c))
  {
    hide TableByte, Hex2;
    TableIsRanges(c);
  }

  /** An encoding is printable ASCII; in particular it holds no NUL. */
  lemma {:induction false} EncPrintable(code: Code, data: seq<byte>)
    ensures Printable(Enc(code, data))
    decreases data
  {
    hide EncByte;
    if data != [] {
      BytePrintable(code, data[0]);
      EncPrintable(code, data[1..]);
    }
  }

  /** The two encoders write the same text exactly for data without a zero byte. */
  lemma {:induction false} EncodersAgree(data: seq<byte>)
    ensures |Enc(Table, data)| <= |Enc(Ranges, data)|
    ensures Enc(Ranges, data) == Enc(Table, data) <==> 0 !in data
    ensures |Enc(Ranges, data)| == |Enc(Table, data)| <==> 0 !in data
    decreases data
  {
    if data != [] {
      TableIsRanges(data[0]);
      EncodersAgree(data[1..]);
    }
  }

  /** The longest prefix of `data` whose encoding takes at most `room` characters. */
  function LongestFit(code: Code, data: seq<byte>, room: nat): (k: nat)
    ensures k <= |data|
    decreases data
  {
    if data == [] || |EncByte(code, data[0])| > room then
      0
    else
      1 + LongestFit(code, data[1..], room - |EncByte(code, data[0])|)
  }

  /** It fits, and nothing longer does. */
  lemma {:induction false} LongestFitIsLongest(code: Code, data: seq<byte>, room: nat, k: nat)
    requires k <= |data|
    ensures |Enc(code, data[..k])| <= room <==> k <= LongestFit(code, data, room)
    decreases data
  {
    hide EncByte;
    if data != [] && k > 0 {
      var n := |EncByte(code, data[0])|;
      assert data[..k][1..] == data[1..][..k - 1];
      if n <= room {
        LongestFitIsLongest(code, data[1..], room - n, k - 1);
      }
    }
  }
}
