/** The bounded text buffer of src/sancus/buffer.c: a window `base`, `len` over an
    array, appended to and stripped at its tail. */
module TextBuffer {
  import opened HostOrder
  import opened Options

  const EINVAL: int := 22
  const ENOBUFS: int := 105

  /** strlen */
  function StrLen(s: string): (n: nat)
    requires '\0' in s
    ensures n < |s| && s[n] == '\0' && '\0' !in s[..n]
  {
    if s[0] == '\0' then 0 else 1 + StrLen(s[1..])
  }

  /** What the pair "pointer, signed length" of the C functions denotes: a negative
      length stands for a NUL-terminated string. */
  predicate TextArg(s: Option<string>, l: int) {
    s.Some? ==> if l < 0 then '\0' in s.value else l <= |s.value|
  }

  function ArgText(s: Option<string>, l: int): string
    requires TextArg(s, l)
  {
    if s == None then [] else if l < 0 then s.value[..StrLen(s.value)] else s.value[..l]
  }

  /** With a length, the first that many characters; without, those before the first NUL. */
  lemma ArgTextIs(s: Option<string>, l: int)
    requires TextArg(s, l)
    ensures var t := ArgText(s, l);
      && (s == None ==> t == "")
      && (s.Some? ==>
            && |t| <= |s.value|
            && (forall i :: 0 <= i < |t| ==> t[i] == s.value[i])
            && (if l < 0 then '\0' !in t && |t| < |s.value| && s.value[|t|] == '\0' else |t| == l))
  {
  }

  /** The length of the longest suffix of `s` made of the given characters. */
  function SuffixLen(s: string, chars: string): (n: nat)
    ensures n <= |s|
  {
    if s == [] || s[|s| - 1] !in chars then 0 else 1 + SuffixLen(s[..|s| - 1], chars)
  }

  lemma {:induction false} SuffixLenIsLongest(s: string, chars: string, n: nat)
    requires n <= |s|
    ensures n <= SuffixLen(s, chars) <==> forall i :: |s| - n <= i < |s| ==> s[i] in chars
  {
    if n > 0 {
      var t := s[..|s| - 1];
      if s[|s| - 1] in chars {
        SuffixLenIsLongest(t, chars, n - 1);
        assert forall i :: |t| - (n - 1) <= i < |t| ==> t[i] == s[i];
      }
    }
  }

  lemma Shortened(s: string, at: nat, n: nat, k: nat)
    requires at + n <= |s| && k <= n
    ensures s[at..at + k] == s[at..at + n][..k]
  {
    SliceOfSlice(s, at, n, 0, k);
    assert s[at..at + n][0..k] == s[at..at + n][..k];
  }

  lemma Joined(s: string, i: nat, j: nat, k: nat)
    requires i <= j <= k <= |s|
    ensures s[i..k] == s[i..j] + s[j..k]
  {
  }

  /** The string without its longest suffix of blanks. */
  function TrimTail(s: string): string {
    s[..|s| - SuffixLen(s, " \t\n")]
  }

  /** `r` is what is left of `s` when all such characters are taken off its end. */
  ghost predicate IsStripped(s: string, chars: string, r: string) {
    && |r| <= |s|
    && r == s[..|r|]
    && (r != "" ==> r[|r| - 1] !in chars)
    && forall i :: |r| <= i < |s| ==> s[i] in chars
  }

  lemma StripsTo(s: string, chars: string)
    ensures IsStripped(s, chars, s[..|s| - SuffixLen(s, chars)])
  {
    hide SuffixLen;
    var n := SuffixLen(s, chars);
    SuffixLenIsLongest(s, chars, n);
    if n < |s| {
      SuffixLenIsLongest(s, chars, n + 1);
    }
  }

  /** Trimming takes all blanks off the end, and nothing else. */
  lemma TrimTailIs(s: string)
    ensures IsStripped(s, " \t\n", TrimTail(s))
  {
    hide SuffixLen, IsStripped;
    StripsTo(s, " \t\n");
  }

  lemma StrippedIsUnique(s: string, chars: string, r: string, r': string)
    requires IsStripped(s, chars, r) && IsStripped(s, chars, r')
    ensures r == r'
  {
  }

  /** What vsnprintf makes of its arguments: a text, or an error. */
  datatype FormatResult = Says(text: string) | Fails(rc: int)

  /** What a formatted append returns, with `room` characters free. */
  function FormatRc(room: nat, truncate: bool, out: FormatResult): int {
    if room == 0 then -ENOBUFS
    else if out.Fails? then out.rc
    else if |out.text| < room then |out.text|
    else if truncate then room - 1
    else -ENOBUFS
  }

  /** What it appends. */
  function FormatText(room: nat, truncate: bool, out: FormatResult): (s: string)
    ensures |s| <= room
  {
    if room == 0 || out.Fails? then ""
    else if |out.text| < room then out.text
    else if truncate then out.text[..room - 1]
    else ""
  }

  /** A text is appended up to what leaves a terminator its place if it may be cut, else
      whole or not at all; what is returned is what was appended, or an error if that is
      nothing because of the room or of the formatter. */
  lemma FormatIs(room: nat, truncate: bool, out: FormatResult)
    ensures var rc, s := FormatRc(room, truncate, out), FormatText(room, truncate, out);
      && (room == 0 ==> rc == -ENOBUFS && s == "")
      && (room != 0 && out.Fails? ==> rc == out.rc && s == "")
      && (room != 0 && out.Says? ==>
            if |out.text| <= room - 1 then
              rc == |out.text| && s == out.text
            else if truncate then
              rc == |s| == room - 1 && forall i :: 0 <= i < |s| ==> s[i] == out.text[i]
            else
              rc == -ENOBUFS && s == "")
  {
  }

  /** What is returned is what is appended, if positive; nothing is appended to `was`
      otherwise. */
  lemma FormatCases(room: nat, truncate: bool, out: FormatResult, was: string)
    requires out.Fails? ==> out.rc < 0
    ensures var rc, s := FormatRc(room, truncate, out), FormatText(room, truncate, out);
      if rc > 0 then |s| == rc && s == FormatText(room, true, out) else was + s == was
  {
  }

  lemma FormatTruncated(room: nat, out: FormatResult)
    requires 0 < room
    ensures FormatText(room, true, out)
         == if out.Fails? then "" else if |out.text| < room then out.text else out.text[..room - 1]
  {
  }

  method OneOf(c: char, chars: string) returns (found: bool)
    ensures found <==> c in chars
  {
    var q := 0;
    while q < |chars|
      invariant q <= |chars| && c !in chars[..q]
    {
      if c == chars[q] {
        return true;
      }
      q := q + 1;
    }
    found := false;
  }

  class Buffer {
    const buf: array<char>
    var base: nat
    var len: nat

    ghost predicate Valid()
      reads this
    {
      0 < buf.Length && base + len <= buf.Length
    }

    ghost function Contents(): (s: string)
      requires Valid()
      reads this, buf
      ensures |s| == len
    {
      buf[base..base + len]
    }

    /** sancus_buffer_tail_size */
    function TailSize(): nat
      requires Valid()
      reads this
    {
      buf.Length - base - len
    }

    constructor (size: nat)
      requires 0 < size
      ensures Valid() && fresh(buf) && buf.Length == size && base == 0 && Contents() == []
    {
      buf := new char[size];
      base, len := 0, 0;
    }

    /** memcpy into the tail, and `len` grown accordingly */
    method Push(s: string)
      requires Valid() && |s| <= TailSize()
      modifies this`len, buf
      ensures Valid() && Contents() == old(Contents()) + s
      ensures buf[..base] == old(buf[..base])
    {
      forall i | 0 <= i < |s| {
        buf[base + len + i] := s[i];
      }
      len := len + |s|;
    }

    /** sancus_buffer__append */
    method Append(truncate: bool, s: Option<string>, l: int) returns (rc: int)
      requires Valid() && TextArg(s, l)
      modifies this`len, buf
      ensures Valid() && buf[..base] == old(buf[..base])
      ensures var t, room := ArgText(s, l), old(TailSize());
        if s == None then
          rc == (if l > 0 then -EINVAL else l) && Contents() == old(Contents())
        else if |t| <= room then
          rc == |t| && Contents() == old(Contents()) + t
        else if truncate then
          rc == room && Contents() == old(Contents()) + t[..room]
        else
          rc == -ENOBUFS && Contents() == old(Contents())
    {
      rc := l;
      if s != None {
        if rc < 0 {
          rc := StrLen(s.value);
        }
      } else if rc > 0 {
        return -EINVAL;
      }
      var room := TailSize();
      if rc <= room {
      } else if truncate {
        rc := room;
      } else {
        rc := -ENOBUFS;
      }
      if rc > 0 {
        Push(s.value[..rc]);
      }
    }

    /** sancus_buffer__appendv, `out` being what the formatter has to say.  It needs one
        more character than it keeps, for its terminator. */
    method AppendFormatted(truncate: bool, out: FormatResult) returns (rc: int)
      requires Valid() && (out.Fails? ==> out.rc < 0)
      modifies this`len, buf
      ensures Valid() && buf[..base] == old(buf[..base])
      ensures rc == FormatRc(old(TailSize()), truncate, out)
      ensures Contents() == old(Contents()) + FormatText(old(TailSize()), truncate, out)
    {
      hide FormatText;
      var l := TailSize();
      FormatCases(l, truncate, out, Contents());
      if l > 0 {
        rc := Format(out);
        if rc <= 0 || l > rc {
        } else if truncate {
          rc := l - 1;
          Terminate(rc);
        } else {
          rc := -ENOBUFS;
        }
        if rc > 0 {
          Grow(rc, FormatText(l, true, out));
        }
      } else {
        rc := -ENOBUFS;
      }
    }

    /** `len += n`: the tail's first characters become contents. */
    method Grow(n: nat, ghost s: string)
      requires Valid() && n <= TailSize() && s == buf[base + len..base + len + n]
      modifies this`len
      ensures Valid() && len == old(len) + n && Contents() == old(Contents()) + s
    {
      Joined(buf[..], base, base + len, base + len + n);
      len := len + n;
    }

    /** A terminator in the tail. */
    method Terminate(at: nat)
      requires Valid() && at < TailSize()
      modifies buf
      ensures Contents() == old(Contents()) && buf[..base] == old(buf[..base])
      ensures buf[base + len..base + len + at] == old(buf[base + len..base + len + at])
    {
      buf[base + len + at] := '\0';
    }

    /** vsnprintf into the tail: as much of the text as fits before a terminator. */
    method Format(out: FormatResult) returns (n: int)
      requires Valid() && 0 < TailSize()
      modifies buf
      ensures n == if out.Says? then |out.text| else out.rc
      ensures buf[..base] == old(buf[..base]) && Contents() == old(Contents())
      ensures var t := FormatText(TailSize(), true, out);
        |t| < TailSize() && buf[base + len..base + len + |t|] == t
    {
      hide FormatText;
      FormatTruncated(TailSize(), out);
      match out
      case Says(text) =>
        var kept := if |text| < TailSize() then text else text[..TailSize() - 1];
        assert kept == FormatText(TailSize(), true, out);
        WriteTerminated(kept);
        n := |text|;
      case Fails(rc) =>
        n := rc;
    }

    method WriteTerminated(s: string)
      requires Valid() && |s| < TailSize()
      modifies buf
      ensures buf[..base] == old(buf[..base]) && Contents() == old(Contents())
      ensures buf[base + len..base + len + |s|] == s
    {
      WriteTail(s);
      Terminate(|s|);
    }

    /** Somebody else writes at the tail pointer, without the buffer taking notice. */
    method WriteTail(s: string)
      requires Valid() && |s| <= TailSize()
      modifies buf
      ensures buf[..base] == old(buf[..base]) && Contents() == old(Contents())
      ensures buf[base + len..base + len + |s|] == s
    {
      forall i | 0 <= i < |s| {
        buf[base + len + i] := s[i];
      }
    }

    /** sancus_buffer_sparse: claim `n` characters of the tail as they are. */
    method Sparse(n: nat) returns (rc: int)
      requires Valid()
      modifies this`len
      ensures Valid()
      ensures if n <= old(TailSize()) then
          rc == n && len == old(len) + n && Contents() == old(Contents()) + buf[base + old(len)..base + len]
        else
          rc == -EINVAL && len == old(len)
    {
      if TailSize() < n {
        return -EINVAL;
      }
      Grow(n, buf[base + len..base + len + n]);
      rc := n;
    }

    /** `len -= n` */
    method Shorten(n: nat)
      requires Valid() && n <= len
      modifies this`len
      ensures Valid() && len == old(len) - n && Contents() == old(Contents())[..len]
    {
      Shortened(buf[..], base, len, len - n);
      len := len - n;
    }

    /** sancus_buffer__stripchar */
    method StripChar(many: bool, chars: Option<string>, l: int) returns (rc: int)
      requires Valid() && TextArg(chars, l)
      modifies this`len
      ensures Valid()
      ensures var n := SuffixLen(old(Contents()), ArgText(chars, l));
        if chars == None && l > 0 then
          rc == -EINVAL && len == old(len)
        else
          && rc == (if many || n == 0 then n else 1)
          && Contents() == old(Contents())[..old(len) - rc]
    {
      if chars == None && l > 0 {
        return -EINVAL;
      }
      var n := if l >= 0 then l else if chars == None then 0 else StrLen(chars.value);
      var count := 0;
      if n > 0 {
        count := TailRun(many, chars.value[..n]);
      }
      Shorten(count);
      rc := count;
    }

    /** The backward loop of sancus_buffer__stripchar. */
    method TailRun(many: bool, chars: string) returns (count: nat)
      requires Valid()
      ensures var n := SuffixLen(Contents(), chars);
        count == (if many || n == 0 then n else 1)
    {
      ghost var was := Contents();
      assert was[..len] == was;
      count := 0;
      while count < len
        invariant count <= len
        invariant SuffixLen(was, chars) == count + SuffixLen(was[..len - count], chars)
        invariant !many ==> count == 0
      {
        var p := len - count - 1;
        assert was[..p + 1][..p] == was[..p] && was[..p + 1][p] == buf[base + p];
        var found := OneOf(buf[base + p], chars);
        if !found {
          return;
        }
        count := count + 1;
        if !many {
          return;
        }
      }
    }

    /** sancus_buffer_strip: remove exactly this suffix, or nothing. */
    method Strip(s: Option<string>, l: int) returns (rc: int)
      requires Valid() && TextArg(s, l)
      modifies this`len, buf
      ensures Valid() && buf[..base] == old(buf[..base])
      ensures var t, was := ArgText(s, l), old(Contents());
        if s == None && l > 0 then
          rc == -EINVAL && Contents() == was
        else if t != [] && |t| <= |was| && was[|was| - |t|..] == t then
          rc == |t| && was == Contents() + t
        else
          rc == 0 && Contents() == was
    {
      var n := l;
      if s != None {
        if n < 0 {
          n := StrLen(s.value);
        }
      } else if n > 0 {
        return -EINVAL;
      }
      if n > 0 && len >= n {
        var off := len - n;
        if buf[base + off..base + len] == s.value[..n] {
          ghost var was := Contents();
          assert was[off..] == s.value[..n] && was == was[..off] + was[off..];
          Shorten(n);
          buf[base + off] := '\0';
          return n;
        }
      }
      rc := 0;
    }

    /** sancus_buffer_truncate: keep the first `n` characters.  The terminator it writes
        behind them must have a place. */
    method Truncate(n: nat) returns (rc: int)
      requires Valid()
      requires base + len == buf.Length && 0 < len ==> n < len
      modifies this, buf
      ensures Valid()
      ensures Contents() == (if n < old(len) then old(Contents())[..n] else old(Contents()))
      ensures base == if len == 0 then 0 else old(base)
      ensures rc == len && base + len < buf.Length && buf[base + len] == '\0'
    {
      if n < len {
        Shorten(len - n);
      }
      if len == 0 {
        base := 0;
      }
      buf[base + len] := '\0';
      rc := len;
    }

    /** sancus_buffer_stripn: drop the last `n` characters. */
    method StripN(n: nat) returns (rc: int)
      requires Valid()
      requires base + len == buf.Length && 0 < len ==> 0 < n
      modifies this, buf
      ensures Valid()
      ensures Contents() == old(Contents())[..if n < old(len) then old(len) - n else 0]
      ensures base == if n < old(len) then old(base) else 0
      ensures rc == len && base + len < buf.Length && buf[base + len] == '\0'
    {
      if n < len {
        Shorten(n);
      } else {
        base, len := 0, 0;
      }
      buf[base + len] := '\0';
      rc := len;
    }

    /** log_buffer_trim (src/sancus/logger.c): how much is left without trailing blanks. */
    method Trimmed() returns (l: nat)
      requires Valid()
      ensures l <= len && Contents()[..l] == TrimTail(Contents())
    {
      ghost var was := Contents();
      assert was[..len] == was;
      l := len;
      while l > 0
        invariant l <= len
        invariant SuffixLen(was, " \t\n") == len - l + SuffixLen(was[..l], " \t\n")
      {
        assert was[..l][..l - 1] == was[..l - 1] && was[..l][l - 1] == buf[base + l - 1];
        match buf[base + l - 1]
        case ' ' | '\t' | '\n' => l := l - 1;
        case _ => return;
      }
    }
  }

  // -------------------------------------------------------------- whole runs

  /** A buffer as a value: where its text starts, and the text. */
  datatype View = View(base: nat, text: string)

  datatype Edit =
    | AddText(truncate: bool, s: string)
    | PrintText(truncate: bool, out: FormatResult)
    | ClaimText(s: string)  // written at the tail pointer, then claimed
    | StripOf(many: bool, chars: string)
    | StripEnd(s: string)
    | Keep(n: nat)
    | Drop(n: nat)

  predicate Inside(v: View, size: nat) {
    v.base + |v.text| <= size
  }

  /** What an edit does to a string that may not grow beyond the array. */
  function Edited(v: View, size: nat, e: Edit): (r: View)
    requires Inside(v, size)
    ensures Inside(r, size)
  {
    var room := size - v.base - |v.text|;
    match e
    case AddText(truncate, s) =>
      if |s| <= room then v.(text := v.text + s)
      else if truncate then v.(text := v.text + s[..room])
      else v
    case PrintText(truncate, out) => v.(text := v.text + FormatText(room, truncate, out))
    case ClaimText(s) => if |s| <= room then v.(text := v.text + s) else v
    case StripOf(many, chars) =>
      var n := SuffixLen(v.text, chars);
      v.(text := v.text[..|v.text| - if many || n == 0 then n else 1])
    case StripEnd(s) =>
      if |s| <= |v.text| && v.text[|v.text| - |s|..] == s then v.(text := v.text[..|v.text| - |s|]) else v
    case Keep(n) =>
      var kept := if n < |v.text| then v.text[..n] else v.text;
      View(if kept == [] then 0 else v.base, kept)
    case Drop(n) =>
      if n < |v.text| then v.(text := v.text[..|v.text| - n]) else View(0, [])
  }

  /** What each edit leaves, `n` being what there is room for: the text with a prefix of the
      new one behind it, or without its end; the base moves only when nothing is left. */
  lemma EditedIs(v: View, size: nat, e: Edit)
    requires Inside(v, size)
    ensures var r, room := Edited(v, size, e), size - v.base - |v.text|;
      && (e.Keep? || e.Drop? || r.base == v.base)
      && match e
         case AddText(truncate, s) =>
           r.text == v.text + s[..if |s| <= room then |s| else if truncate then room else 0]
         case PrintText(truncate, Says(s)) =>
           r.text == v.text + s[..if |s| < room then |s| else if truncate && 0 < room then room - 1 else 0]
         case PrintText(_, Fails(_)) => r.text == v.text
         case ClaimText(s) => r.text == v.text + s[..if |s| <= room then |s| else 0]
         case StripOf(many, chars) =>
           if many then
             IsStripped(v.text, chars, r.text)
           else
             r.text == if v.text != "" && v.text[|v.text| - 1] in chars then v.text[..|v.text| - 1] else v.text
         case StripEnd(s) =>
           v.text == r.text + s || (r.text == v.text && !exists t :: v.text == t + s)
         case Keep(n) => r == View(if n == 0 || v.text == "" then 0 else v.base,
                                   if n < |v.text| then v.text[..n] else v.text)
         case Drop(n) => r == if n < |v.text| then View(v.base, v.text[..|v.text| - n]) else View(0, "")
  {
    hide IsStripped;
    assert v.text + "" == v.text && v.text[..|v.text|] == v.text;
    match e
    case AddText(_, s) => assert s[..|s|] == s;
    case PrintText(_, Says(s)) => assert s[..|s|] == s;
    case PrintText(_, Fails(_)) =>
    case ClaimText(s) => assert s[..|s|] == s;
    case StripOf(_, chars) => StripsTo(v.text, chars);
    case StripEnd(s) => EndsIn(v.text, s);
    case Keep(_) =>
    case Drop(_) =>
  }

  lemma EndsIn(s: string, t: string)
    ensures |t| <= |s| && s[|s| - |t|..] == t ==> s == s[..|s| - |t|] + t
    ensures forall r :: s == r + t ==> |t| <= |s| && s[|s| - |t|..] == t
  {
  }

  /** The two edits that write a terminator have a place for it; a failing formatter says
      so with a negative number. */
  predicate Possible(v: View, size: nat, e: Edit) {
    && (v.base + |v.text| == size && v.text != [] ==> (e.Keep? ==> e.n < |v.text|) && (e.Drop? ==> 0 < e.n))
    && (e.PrintText? && e.out.Fails? ==> e.out.rc < 0)
  }

  predicate PossibleRun(v: View, size: nat, edits: seq<Edit>)
    requires Inside(v, size)
    decreases edits
  {
    edits == [] || (Possible(v, size, edits[0]) && PossibleRun(Edited(v, size, edits[0]), size, edits[1..]))
  }

  function EditedAll(v: View, size: nat, edits: seq<Edit>): (r: View)
    requires Inside(v, size)
    ensures Inside(r, size)
    decreases edits
  {
    if edits == [] then v else EditedAll(Edited(v, size, edits[0]), size, edits[1..])
  }

  /** A run goes on where it stopped. */
  lemma {:induction false} EditedAllSnoc(v: View, size: nat, edits: seq<Edit>, e: Edit)
    requires Inside(v, size)
    ensures EditedAll(v, size, []) == v
    ensures EditedAll(v, size, edits + [e]) == Edited(EditedAll(v, size, edits), size, e)
    decreases edits
  {
    hide Edited;
    if edits == [] {
      assert ([] + [e])[1..] == [];
    } else {
      assert (edits + [e])[1..] == edits[1..] + [e];
      EditedAllSnoc(Edited(v, size, edits[0]), size, edits[1..], e);
    }
  }

  ghost function ViewOf(b: Buffer): (v: View)
    requires b.Valid()
    reads b, b.buf
    ensures Inside(v, b.buf.Length)
  {
    View(b.base, b.Contents())
  }

  method EditOnce(b: Buffer, e: Edit)
    requires b.Valid() && Possible(ViewOf(b), b.buf.Length, e)
    modifies b, b.buf
    ensures b.Valid() && ViewOf(b) == Edited(old(ViewOf(b)), b.buf.Length, e)
  {
    hide Edited;
    match e
    case AddText(truncate, s) => Add(b, truncate, s);
    case PrintText(truncate, out) => Print(b, truncate, out);
    case ClaimText(s) => Claim(b, s);
    case StripOf(many, chars) => Strip(b, many, chars);
    case StripEnd(s) => StripExactly(b, s);
    case Keep(n) => KeepFirst(b, n);
    case Drop(n) => DropLast(b, n);
  }

  method Add(b: Buffer, truncate: bool, s: string)
    requires b.Valid()
    modifies b, b.buf
    ensures b.Valid() && ViewOf(b) == Edited(old(ViewOf(b)), b.buf.Length, AddText(truncate, s))
  {
    assert s[..|s|] == s;
    var _ := b.Append(truncate, Some(s), |s|);
  }

  method Print(b: Buffer, truncate: bool, out: FormatResult)
    requires b.Valid() && (out.Fails? ==> out.rc < 0)
    modifies b, b.buf
    ensures b.Valid() && ViewOf(b) == Edited(old(ViewOf(b)), b.buf.Length, PrintText(truncate, out))
  {
    hide FormatText;
    var _ := b.AppendFormatted(truncate, out);
  }

  method KeepFirst(b: Buffer, n: nat)
    requires b.Valid() && Possible(ViewOf(b), b.buf.Length, Keep(n))
    modifies b, b.buf
    ensures b.Valid() && ViewOf(b) == Edited(old(ViewOf(b)), b.buf.Length, Keep(n))
  {
    var _ := b.Truncate(n);
  }

  method DropLast(b: Buffer, n: nat)
    requires b.Valid() && Possible(ViewOf(b), b.buf.Length, Drop(n))
    modifies b, b.buf
    ensures b.Valid() && ViewOf(b) == Edited(old(ViewOf(b)), b.buf.Length, Drop(n))
  {
    var _ := b.StripN(n);
  }

  method Claim(b: Buffer, s: string)
    requires b.Valid()
    modifies b, b.buf
    ensures b.Valid() && ViewOf(b) == Edited(old(ViewOf(b)), b.buf.Length, ClaimText(s))
  {
    if |s| <= b.TailSize() {
      b.WriteTail(s);
    }
    var _ := b.Sparse(|s|);
  }

  method Strip(b: Buffer, many: bool, chars: string)
    requires b.Valid()
    modifies b
    ensures b.Valid() && ViewOf(b) == Edited(old(ViewOf(b)), b.buf.Length, StripOf(many, chars))
  {
    assert chars[..|chars|] == chars;
    var _ := b.StripChar(many, Some(chars), |chars|);
  }

  method StripExactly(b: Buffer, s: string)
    requires b.Valid()
    modifies b, b.buf
    ensures b.Valid() && ViewOf(b) == Edited(old(ViewOf(b)), b.buf.Length, StripEnd(s))
  {
    ghost var t := b.Contents();
    assert s[..|s|] == s && t[..|t|] == t;
    var _ := b.Strip(Some(s), |s|);
  }

  /** Any run of edits on a buffer refines the same run on a bounded string: the text
      never outgrows the array. */
  method EditAll(b: Buffer, edits: seq<Edit>)
    requires b.Valid() && PossibleRun(ViewOf(b), b.buf.Length, edits)
    modifies b, b.buf
    ensures b.Valid() && ViewOf(b) == EditedAll(old(ViewOf(b)), b.buf.Length, edits)
    decreases edits
  {
    hide Edited;
    if edits != [] {
      EditOnce(b, edits[0]);
      EditAll(b, edits[1..]);
    }
  }
}
