/**
 The read side of a stream: the legacy buffer of src/sancus/buffer_legacy.c, a
 base/len window over an array that is compacted only now and then, and the parts
 of src/sancus/stream.c that consume it.
 */
module Fifo {
  import opened HostOrder

  // ------------------------------------------------- the window, as a value

  /** A buffer of `size` bytes whose window starts at `base` and shows `contents`; the
      bytes outside the window are nobody's business. */
  datatype Window = Window(size: nat, base: nat, contents: seq<byte>) {
    predicate Valid() {
      base + |contents| <= size
    }

    /** sancus_buffer_available */
    function Available(): int {
      size - base - |contents|
    }
  }

  function Rebased(w: Window): Window {
    w.(base := 0)
  }

  /** sancus_buffer_skip: dropping everything resets the window; otherwise it is moved
      to the front of the array only when less than a tenth is free behind it. */
  function Skipped(w: Window, step: nat): (r: Window)
    ensures w.Valid() ==> r.Valid()
  {
    if step >= |w.contents| then
      w.(base := 0, contents := [])
    else
      var d := w.(base := w.base + step, contents := w.contents[step..]);
      if d.Available() < w.size / 10 then Rebased(d) else d
  }

  /** The bytes a skip drops. */
  function Taken(w: Window, step: nat): seq<byte> {
    w.contents[..Min(step, |w.contents|)]
  }

  function Min(a: nat, b: nat): nat {
    if a < b then a else b
  }

  /** Whether or not it compacts, a skip drops from the front; and it leaves no room to
      read into exactly when nothing was dropped from a full array that has nothing in
      front of the window either -- or when the array is smaller than ten bytes, where
      a tenth of it is nothing and it is never compacted. */
  lemma SkipDropsFromTheFront(w: Window, step: nat)
    requires w.Valid()
    ensures var r := Skipped(w, step);
      && r.Valid() && r.size == w.size
      && r.contents == w.contents[Min(step, |w.contents|)..]
      && Taken(w, step) + r.contents == w.contents
      && (r.Available() == 0 <==>
            || w.size == 0
            || (step < |w.contents| && w.base + |w.contents| == w.size
                && (w.size < 10 || (step == 0 && w.base == 0))))
  {
  }

  /** Where the window is afterwards: at the front if nothing is left, or if less than a
      tenth is free behind it, else where the skip left it. */
  lemma SkipBase(w: Window, step: nat)
    requires w.Valid()
    ensures Skipped(w, step).base
         == if step >= |w.contents| || w.size - w.base - |w.contents| < w.size / 10 then 0 else w.base + step
  {
  }

  lemma RebaseIs(w: Window)
    ensures Rebased(w) == Window(w.size, 0, w.contents)
  {
  }

  /** What a caller relies on to go on reading. */
  lemma SkipMakesRoom(w: Window, step: nat)
    requires w.Valid() && 10 <= w.size && 1 <= step
    ensures Skipped(w, step).Available() > 0
  {
    SkipDropsFromTheFront(w, step);
  }

  // -------------------------------------------------------- the buffer itself

  /** What read(2) has to say: some bytes (none at the end of the file), or an errno. */
  datatype Incoming = Bytes(data: seq<byte>) | Failed(errno: nat)

  function ReadResult(incoming: Incoming): int {
    match incoming
    case Bytes(data) => |data|
    case Failed(errno) => -(errno as int)
  }

  class ReadBuffer {
    const buf: array<byte>
    var base: nat
    var len: nat

    ghost predicate Valid()
      reads this
    {
      base + len <= buf.Length
    }

    ghost function View(): (w: Window)
      requires Valid()
      reads this, buf
      ensures w.Valid() && |w.contents| == len
    {
      Window(buf.Length, base, buf[base..base + len])
    }

    function Available(): nat
      requires Valid()
      reads this
    {
      buf.Length - base - len
    }

    /** sancus_buffer_bind, to an array of its own */
    constructor (size: nat)
      ensures Valid() && fresh(buf) && View() == Window(size, 0, [])
    {
      buf := new byte[size];
      base, len := 0, 0;
    }

    /** sancus_buffer_read, which has read(2) write behind the window. */
    method Read(incoming: Incoming) returns (l: int)
      requires Valid()
      requires incoming.Bytes? ==> |incoming.data| <= Available()
      modifies this`len, buf
      ensures Valid()
      ensures l == if incoming.Bytes? then |incoming.data| else -(incoming.errno as int)
      ensures View() == if incoming.Failed? then old(View())
                        else old(View()).(contents := old(View()).contents + incoming.data)
    {
      l := ReadResult(incoming);
      if l > 0 {
        ghost var was := buf[base..base + len];
        forall i | 0 <= i < l {
          buf[base + len + i] := incoming.data[i];
        }
        assert buf[base..base + len] == was && buf[base + len..base + len + l] == incoming.data;
        assert buf[base..base + len + l] == buf[base..base + len] + buf[base + len..base + len + l];
        len := len + l;
      }
    }

    /** sancus_buffer_rebase; the memmove may overlap. */
    method Rebase()
      requires Valid()
      modifies this`base, buf
      ensures Valid() && View() == Rebased(old(View()))
    {
      if base > 0 {
        if len > 0 {
          forall i | 0 <= i < len {
            buf[i] := buf[base + i];
          }
        }
        base := 0;
      }
    }

    method Advance(step: nat)
      requires Valid() && step < len
      modifies this`base, this`len
      ensures Valid()
      ensures View() == Window(buf.Length, old(base) + step, old(View().contents)[step..])
    {
      assert View().contents[step..] == buf[base + step..base + len];
      base := base + step;
      len := len - step;
    }

    /** sancus_buffer_skip */
    method Skip(step: nat) returns (r: nat)
      requires Valid()
      modifies this, buf
      ensures Valid() && View() == Skipped(old(View()), step)
      ensures r == Available()
    {
      if step >= len {
        base, len := 0, 0;
        return buf.Length;
      } else if step > 0 {
        Advance(step);
      }
      if Available() < buf.Length / 10 {
        Rebase();
      }
      r := Available();
    }
  }

  // ------------------------------------------------------------- consuming

  /** How a round of callbacks ended. */
  datatype Outcome =
    | Emptied   // nothing left to show
    | Waiting   // the callback wants more data
    | Stopped   // the callback stopped the watcher
    | Closing   // the callback failed

  /** The drain loop of read_cb from its k-th callback on.  `cb(k, data)` is what the
      callback answers, and whether the watcher is still active after it; the result
      holds the bytes consumed. */
  function Drained(w: Window, cb: (nat, seq<byte>) -> (int, bool), k: nat): (r: (Window, Outcome, seq<byte>))
    decreases |w.contents|
  {
    if w.contents == [] then
      (w, Emptied, [])
    else
      var (l, active) := cb(k, w.contents);
      if l > 0 then
        var taken := Taken(w, l);
        var next := Skipped(w, l);
        if !active then
          (next, Stopped, taken)
        else
          var (end, outcome, more) := Drained(next, cb, k + 1);
          (end, outcome, taken + more)
      else
        (w, if l == 0 then Waiting else Closing, [])
  }

  /** sancus_stream_process on a window: what is left and what was consumed. */
  function Processed(w: Window, cb: seq<byte> -> int): (Window, seq<byte>) {
    if w.contents != [] && cb(w.contents) > 0 then
      (Skipped(w, cb(w.contents)), Taken(w, cb(w.contents)))
    else
      (w, [])
  }

  /** Processing shows the callback all there is, and takes out at the front what it asks
      for, as far as that is there. */
  lemma ProcessedIs(w: Window, cb: seq<byte> -> int)
    requires w.Valid()
    ensures var c, l := w.contents, cb(w.contents);
      var n := if c == [] || l <= 0 then 0 else if l < |c| then l else |c|;
      var (left, taken) := Processed(w, cb);
      && taken == c[..n]
      && left.size == w.size && left.contents == c[n..]
      && left.base == if n == 0 then w.base
                      else if n == |c| || w.size - w.base - |c| < w.size / 10 then 0
                      else w.base + n
  {
    hide Skipped;
    if w.contents != [] && cb(w.contents) > 0 {
      SkipDropsFromTheFront(w, cb(w.contents));
      SkipBase(w, cb(w.contents));
    }
  }

  /** What draining is, said without the loop: the windows `ws` it passes through, each
      shown to the callback in turn, each the one before without what the callback took;
      and how it ends. */
  ghost predicate IsDrain(w: Window, cb: (nat, seq<byte>) -> (int, bool), k: nat, ws: seq<Window>, how: Outcome) {
    && ws != [] && ws[0] == w
    && (forall i :: 0 <= i < |ws| - 1 ==> IsRound(ws[i], cb, k + i, ws[i + 1]))
    && (forall i :: 0 <= i < |ws| - 2 ==> cb(k + i, ws[i].contents).1)
    && EndsAs(if |ws| == 1 then true else cb(k + |ws| - 2, ws[|ws| - 2].contents).1,
              ws[|ws| - 1], cb, k + |ws| - 1, how)
  }

  /** The k-th callback takes something of `w`, which leaves `next`. */
  ghost predicate IsRound(w: Window, cb: (nat, seq<byte>) -> (int, bool), k: nat, next: Window) {
    && w.contents != []
    && cb(k, w.contents).0 > 0
    && next == Skipped(w, cb(k, w.contents).0)
  }

  /** How draining ends with `last`, after a callback that left the watcher active or not. */
  ghost predicate EndsAs(active: bool, last: Window, cb: (nat, seq<byte>) -> (int, bool), k: nat, how: Outcome) {
    match how
    case Stopped => !active
    case Emptied => active && last.contents == []
    case Waiting => active && last.contents != [] && cb(k, last.contents).0 == 0
    case Closing => active && last.contents != [] && cb(k, last.contents).0 < 0
  }

  /** The drain loop makes such a run. */
  lemma {:induction false} DrainIsOne(w: Window, cb: (nat, seq<byte>) -> (int, bool), k: nat) returns (ws: seq<Window>)
    ensures IsDrain(w, cb, k, ws, Drained(w, cb, k).1)
    ensures ws[|ws| - 1] == Drained(w, cb, k).0
    decreases |w.contents|
  {
    hide Skipped, Taken, Drained;
    DrainedStep(w, cb, k, []);
    var (l, active) := cb(k, w.contents);
    if w.contents == [] || l <= 0 {
      ws := [w];
    } else if !active {
      ws := [w, Skipped(w, l)];
    } else {
      var rest := DrainIsOne(Skipped(w, l), cb, k + 1);
      ws := [w] + rest;
      DrainCons(w, cb, k, rest, Drained(w, cb, k).1);
    }
  }

  lemma DrainCons(w: Window, cb: (nat, seq<byte>) -> (int, bool), k: nat, rest: seq<Window>, how: Outcome)
    requires w.contents != [] && cb(k, w.contents).0 > 0 && cb(k, w.contents).1
    requires IsDrain(Skipped(w, cb(k, w.contents).0), cb, k + 1, rest, how)
    ensures IsDrain(w, cb, k, [w] + rest, how)
  {
    hide Skipped, EndsAs;
    var ws := [w] + rest;
    forall i | 0 <= i < |ws| - 1
      ensures IsRound(ws[i], cb, k + i, ws[i + 1])
    {
      if i > 0 {
        assert ws[i] == rest[i - 1] && ws[i + 1] == rest[i - 1 + 1] && k + i == k + 1 + (i - 1);
      }
    }
    forall i | 0 <= i < |ws| - 2
      ensures cb(k + i, ws[i].contents).1
    {
      if i > 0 {
        assert ws[i] == rest[i - 1] && k + i == k + 1 + (i - 1);
      }
    }
  }

  lemma DrainUncons(w: Window, cb: (nat, seq<byte>) -> (int, bool), k: nat, ws: seq<Window>, how: Outcome)
    requires IsDrain(w, cb, k, ws, how)
    requires w.contents != [] && cb(k, w.contents).0 > 0 && cb(k, w.contents).1
    ensures |ws| > 1 && IsDrain(Skipped(w, cb(k, w.contents).0), cb, k + 1, ws[1..], how)
  {
    hide Skipped;
    assert |ws| > 1;
    hide EndsAs, IsRound;
    var rest := ws[1..];
    assert IsRound(ws[0], cb, k + 0, ws[0 + 1]);
    FirstRound(w, cb, k, ws[1]);
    forall i | 0 <= i < |rest| - 1
      ensures IsRound(rest[i], cb, k + 1 + i, rest[i + 1])
    {
      assert rest[i] == ws[i + 1] && rest[i + 1] == ws[i + 1 + 1] && k + 1 + i == k + (i + 1);
    }
    forall i | 0 <= i < |rest| - 2
      ensures cb(k + 1 + i, rest[i].contents).1
    {
      assert rest[i] == ws[i + 1] && k + 1 + i == k + (i + 1);
    }
  }

  lemma FirstRound(w: Window, cb: (nat, seq<byte>) -> (int, bool), k: nat, next: Window)
    requires IsRound(w, cb, k, next)
    ensures cb(k, w.contents).0 > 0 && next == Skipped(w, cb(k, w.contents).0)
  {
  }

  /** And there is no other. */
  lemma {:induction false} DrainIsTheOnlyOne(w: Window, cb: (nat, seq<byte>) -> (int, bool), k: nat, ws: seq<Window>, how: Outcome)
    requires IsDrain(w, cb, k, ws, how)
    ensures ws[|ws| - 1] == Drained(w, cb, k).0 && how == Drained(w, cb, k).1
    decreases |w.contents|
  {
    hide Skipped, Taken, Drained;
    DrainedStep(w, cb, k, []);
    var (l, active) := cb(k, w.contents);
    assert |ws| > 1 ==> IsRound(ws[0], cb, k + 0, ws[0 + 1]);
    assert |ws| > 2 ==> cb(k + 0, ws[0].contents).1;
    if w.contents != [] && l > 0 {
      if active {
        DrainUncons(w, cb, k, ws, how);
        DrainIsTheOnlyOne(Skipped(w, l), cb, k + 1, ws[1..], how);
      } else {
        assert |ws| <= 2;
      }
    }
  }

  /** A stream's read buffer together with its history. */
  class Stream {
    const read_buffer: ReadBuffer
    ghost var received: seq<byte>
    ghost var consumed: seq<byte>

    /** Every byte received has been consumed or is in the buffer, in order. */
    ghost predicate Valid()
      reads this, read_buffer, read_buffer.buf
    {
      read_buffer.Valid() && received == consumed + read_buffer.View().contents
    }

    constructor (size: nat)
      ensures Valid() && fresh(read_buffer) && fresh(read_buffer.buf)
      ensures received == [] && consumed == [] && read_buffer.View() == Window(size, 0, [])
    {
      read_buffer := new ReadBuffer(size);
      received, consumed := [], [];
    }

    method Receive(incoming: Incoming) returns (l: int)
      requires Valid()
      requires incoming.Bytes? ==> |incoming.data| <= read_buffer.Available()
      modifies this, read_buffer, read_buffer.buf
      ensures Valid() && consumed == old(consumed)
      ensures received == old(received) + if incoming.Bytes? then incoming.data else []
      ensures l == if incoming.Bytes? then |incoming.data| else -(incoming.errno as int)
      ensures read_buffer.View() == if incoming.Failed? then old(read_buffer.View())
              else old(read_buffer.View()).(contents := old(read_buffer.View()).contents + incoming.data)
    {
      l := read_buffer.Read(incoming);
      received := received + if incoming.Bytes? then incoming.data else [];
    }

    /** sancus_buffer_skip, as of what a callback took */
    method Consume(l: nat)
      requires Valid()
      modifies this, read_buffer, read_buffer.buf
      ensures Valid() && received == old(received)
      ensures read_buffer.View() == Skipped(old(read_buffer.View()), l)
      ensures consumed == old(consumed) + Taken(old(read_buffer.View()), l)
    {
      hide Skipped, Taken;
      ghost var w := read_buffer.View();
      SkipDropsFromTheFront(w, l);
      var _ := read_buffer.Skip(l);
      assert (consumed + Taken(w, l)) + Skipped(w, l).contents == consumed + (Taken(w, l) + Skipped(w, l).contents);
      consumed := consumed + Taken(w, l);
    }

    /** sancus_stream_process */
    method Process(cb: seq<byte> -> int) returns (l: int)
      requires Valid()
      modifies this, read_buffer, read_buffer.buf
      ensures Valid() && received == old(received)
      ensures read_buffer.View() == Processed(old(read_buffer.View()), cb).0
      ensures consumed == old(consumed) + Processed(old(read_buffer.View()), cb).1
      ensures l == var c := old(read_buffer.View().contents); if c == [] then 0 else cb(c)
    {
      hide Skipped;
      l := read_buffer.len;
      if l > 0 {
        l := cb(read_buffer.buf[read_buffer.base..read_buffer.base + read_buffer.len]);
        if l > 0 {
          Consume(l);
        }
      }
    }

    /** One callback, and the skip of what it took. */
    method Offer(cb: (nat, seq<byte>) -> (int, bool), k: nat) returns (l: int, active: bool)
      requires Valid()
      modifies this, read_buffer, read_buffer.buf
      ensures Valid() && received == old(received)
      ensures var w := old(read_buffer.View());
        && (l, active) == cb(k, w.contents)
        && read_buffer.View() == (if l > 0 then Skipped(w, l) else w)
        && consumed == old(consumed) + if l > 0 then Taken(w, l) else []
    {
      hide Skipped, Taken;
      var (answer, still) := cb(k, read_buffer.buf[read_buffer.base..read_buffer.base + read_buffer.len]);
      l, active := answer, still;
      if l > 0 {
        Consume(l);
      }
    }

    /** The drain loop of read_cb. */
    method Drain(cb: (nat, seq<byte>) -> (int, bool)) returns (outcome: Outcome)
      requires Valid()
      modifies this, read_buffer, read_buffer.buf
      ensures Valid() && received == old(received)
      ensures read_buffer.View() == Drained(old(read_buffer.View()), cb, 0).0
      ensures outcome == Drained(old(read_buffer.View()), cb, 0).1
      ensures consumed == old(consumed) + Drained(old(read_buffer.View()), cb, 0).2
    {
      hide Drained, Skipped, Taken;
      ghost var all := Drained(read_buffer.View(), cb, 0);
      var k: nat := 0;
      while read_buffer.len != 0
        invariant Valid() && received == old(received)
        invariant all.0 == Drained(read_buffer.View(), cb, k).0
        invariant all.1 == Drained(read_buffer.View(), cb, k).1
        invariant old(consumed) + all.2 == consumed + Drained(read_buffer.View(), cb, k).2
        decreases read_buffer.len
      {
        DrainedStep(read_buffer.View(), cb, k, consumed);
        var l, active := Offer(cb, k);
        if l > 0 {
          if !active {
            return Stopped;
          }
        } else if l == 0 {
          return Waiting;
        } else {
          return Closing;
        }
        k := k + 1;
      }
      DrainedStep(read_buffer.View(), cb, k, consumed);
      outcome := Emptied;
    }

    method Once(e: Event)
      requires Valid() && Possible(read_buffer.View(), e)
      modifies this, read_buffer, read_buffer.buf
      ensures Valid() && read_buffer.View() == Happen(old(read_buffer.View()), e).0
      ensures received == old(received) + Arrived(e)
      ensures consumed == old(consumed) + Happen(old(read_buffer.View()), e).1
    {
      hide Drained, Skipped, Taken, Processed;
      match e
      case Arrive(data) => var _ := Receive(Bytes(data));
      case Compact => read_buffer.Rebase();
      case Drop(step) => Consume(step);
      case ProcessWith(cb) => var _ := Process(cb);
      case DrainWith(cb) => var _ := Drain(cb);
    }

    /** Any interleaving of events on a stream refines the same run on a window, and its
        history is what the run says arrived and was taken out. */
    method Replay(events: seq<Event>)
      requires Valid() && PossibleRun(read_buffer.View(), events)
      modifies this, read_buffer, read_buffer.buf
      ensures Valid() && read_buffer.View() == Run(old(read_buffer.View()), events).0
      ensures received == old(received) + Run(old(read_buffer.View()), events).1
      ensures consumed == old(consumed) + Run(old(read_buffer.View()), events).2
      decreases events
    {
      hide Happen, Run;
      RunStep(read_buffer.View(), events);
      if events != [] {
        Once(events[0]);
        Replay(events[1..]);
      }
    }
  }

  /** One round of the drain loop, `taken` being the bytes taken before it. */
  lemma DrainedStep(w: Window, cb: (nat, seq<byte>) -> (int, bool), k: nat, taken: seq<byte>)
    ensures var l, now := cb(k, w.contents).0, Drained(w, cb, k);
      if w.contents == [] then
        now == (w, Emptied, [])
      else if l <= 0 then
        now == (w, if l == 0 then Waiting else Closing, [])
      else if !cb(k, w.contents).1 then
        now == (Skipped(w, l), Stopped, Taken(w, l))
      else
        var next := Drained(Skipped(w, l), cb, k + 1);
        && now.0 == next.0 && now.1 == next.1
        && taken + now.2 == (taken + Taken(w, l)) + next.2
    ensures var l := cb(k, w.contents).0;
      w.contents != [] && l > 0 ==> |Skipped(w, l).contents| < |w.contents|
  {
    hide Skipped, Taken;
    var l := cb(k, w.contents).0;
    if w.contents != [] && l > 0 {
      SkipShortens(w, l);
      var more := Drained(Skipped(w, l), cb, k + 1).2;
      assert taken + (Taken(w, l) + more) == (taken + Taken(w, l)) + more;
    }
  }

  lemma SkipShortens(w: Window, l: nat)
    requires w.contents != [] && l > 0
    ensures |Skipped(w, l).contents| < |w.contents|
  {
  }

  // -------------------------------------------------------------- whole runs

  /** What can happen to a read buffer, in any order. */
  datatype Event =
    | Arrive(data: seq<byte>)
    | Compact
    | Drop(step: nat)
    | ProcessWith(once: seq<byte> -> int)
    | DrainWith(each: (nat, seq<byte>) -> (int, bool))

  function Arrived(e: Event): seq<byte> {
    if e.Arrive? then e.data else []
  }

  /** One event: the window after it, and the bytes it took out at the front. */
  function Happen(w: Window, e: Event): (Window, seq<byte>) {
    match e
    case Arrive(data) => (w.(contents := w.contents + data), [])
    case Compact => (Rebased(w), [])
    case Drop(step) => (Skipped(w, step), Taken(w, step))
    case ProcessWith(cb) => Processed(w, cb)
    case DrainWith(cb) => var (end, _, taken) := Drained(w, cb, 0); (end, taken)
  }

  /** read(2) is never asked for more than there is room for. */
  predicate Possible(w: Window, e: Event) {
    e.Arrive? ==> |e.data| <= w.Available()
  }

  predicate PossibleRun(w: Window, events: seq<Event>)
    decreases events
  {
    events == [] || (Possible(w, events[0]) && PossibleRun(Happen(w, events[0]).0, events[1..]))
  }

  /** A run: the window at its end, the bytes that arrived and the bytes taken out. */
  function Run(w: Window, events: seq<Event>): (Window, seq<byte>, seq<byte>)
    decreases events
  {
    if events == [] then
      (w, [], [])
    else
      var (next, taken) := Happen(w, events[0]);
      var (end, arrived, more) := Run(next, events[1..]);
      (end, Arrived(events[0]) + arrived, taken + more)
  }

  lemma RunStep(w: Window, events: seq<Event>)
    ensures if events == [] then
        Run(w, events) == (w, [], [])
      else
        var (next, taken) := Happen(w, events[0]);
        && Run(w, events).0 == Run(next, events[1..]).0
        && Run(w, events).1 == Arrived(events[0]) + Run(next, events[1..]).1
        && Run(w, events).2 == taken + Run(next, events[1..]).2
  {
  }

  lemma {:induction false} DrainConserves(w: Window, cb: (nat, seq<byte>) -> (int, bool), k: nat)
    requires w.Valid()
    ensures var (end, outcome, taken) := Drained(w, cb, k);
      && end.Valid() && end.size == w.size
      && w.contents == taken + end.contents
      && (outcome == Emptied ==> end.contents == [])
    decreases |w.contents|
  {
    if w.contents != [] && cb(k, w.contents).0 > 0 {
      var l := cb(k, w.contents).0;
      SkipDropsFromTheFront(w, l);
      DrainConserves(Skipped(w, l), cb, k + 1);
    }
  }

  /** Each event says what it does to the window and what it takes out. */
  lemma HappenIs(w: Window, e: Event)
    requires w.Valid()
    ensures e.Arrive? ==> Happen(w, e) == (Window(w.size, w.base, w.contents + e.data), [])
    ensures e.Compact? ==> Happen(w, e) == (Window(w.size, 0, w.contents), [])
    ensures e.Drop? ==>
      Happen(w, e) == (Skipped(w, e.step), if e.step < |w.contents| then w.contents[..e.step] else w.contents)
    ensures e.ProcessWith? ==> Happen(w, e) == Processed(w, e.once)
    ensures e.DrainWith? ==>
      Happen(w, e).0 == Drained(w, e.each, 0).0 && w.contents == Happen(w, e).1 + Happen(w, e).0.contents
  {
    hide Drained, Skipped;
    if e.DrainWith? {
      DrainConserves(w, e.each, 0);
    }
    assert w.contents[..|w.contents|] == w.contents;
  }

  /** A run goes on where it stopped: one event more changes the window it left. */
  lemma {:induction false} RunSnoc(w: Window, events: seq<Event>, e: Event)
    ensures Run(w, []) == (w, [], [])
    ensures var (now, arrived, taken) := Run(w, events);
      var (next, more) := Happen(now, e);
      Run(w, events + [e]) == (next, arrived + Arrived(e), taken + more)
    decreases events
  {
    hide Happen, Run;
    RunStep(w, []);
    RunStep(w, events + [e]);
    RunStep(w, events);
    if events == [] {
      var (next, taken) := Happen(w, e);
      RunStep(next, []);
      assert ([] + [e])[1..] == [];
      assert Arrived(e) + [] == [] + Arrived(e) && taken + [] == [] + taken;
    } else {
      assert (events + [e])[1..] == events[1..] + [e];
      var (next, taken) := Happen(w, events[0]);
      RunSnoc(next, events[1..], e);
      var (now, arrived, more) := Run(next, events[1..]);
      assert Arrived(events[0]) + (arrived + Arrived(e)) == (Arrived(events[0]) + arrived) + Arrived(e);
      assert taken + (more + Happen(now, e).1) == (taken + more) + Happen(now, e).1;
    }
  }

  lemma EventConserves(w: Window, e: Event)
    requires w.Valid() && Possible(w, e)
    ensures var (next, taken) := Happen(w, e);
      && next.Valid() && next.size == w.size
      && w.contents + Arrived(e) == taken + next.contents
  {
    match e
    case Arrive(_) =>
    case Compact =>
    case Drop(step) => SkipDropsFromTheFront(w, step);
    case ProcessWith(cb) => if w.contents != [] && cb(w.contents) > 0 { SkipDropsFromTheFront(w, cb(w.contents)); }
    case DrainWith(cb) => DrainConserves(w, cb, 0);
  }

  /** First in, first out, over every interleaving: what was there plus what arrived is
      what was taken out plus what is left, in order, and the window never leaves the
      array. */
  lemma {:induction false} RunConserves(w: Window, events: seq<Event>)
    requires w.Valid() && PossibleRun(w, events)
    ensures var (end, arrived, taken) := Run(w, events);
      && end.Valid() && end.size == w.size
      && w.contents + arrived == taken + end.contents
    decreases events
  {
    hide Happen, Run;
    RunStep(w, events);
    if events != [] {
      var e, rest := events[0], events[1..];
      var (next, taken) := Happen(w, e);
      EventConserves(w, e);
      RunConserves(next, rest);
      Regroup(w.contents, Arrived(e), Run(next, rest).1, taken, next.contents, Run(next, rest).2, Run(next, rest).0.contents);
    }
  }

  lemma Regroup(was: seq<byte>, arrived: seq<byte>, later: seq<byte>, taken: seq<byte>, next: seq<byte>, more: seq<byte>, end: seq<byte>)
    requires was + arrived == taken + next && next + later == more + end
    ensures was + (arrived + later) == (taken + more) + end
  {
    assert was + (arrived + later) == (was + arrived) + later;
    assert (taken + next) + later == taken + (next + later);
    assert taken + (more + end) == (taken + more) + end;
  }
}
