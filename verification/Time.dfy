/**
 Sign-magnitude time values (src/sancus/time.c, include/sancus/time.h).  Below zero
 the nanoseconds count away from zero, except in the second around zero, where they
 carry the sign themselves.
 */
module Time {

  const B: int := 1_000_000_000  // nanoseconds in a second
  const M: int := 1_000_000      // nanoseconds in a millisecond

  datatype Timespec = Timespec(sec: int, nsec: int)

  /** What a canonical value means, in nanoseconds. */
  function Ns(t: Timespec): int {
    if t.sec < 0 then t.sec * B - t.nsec else t.sec * B + t.nsec
  }

  predicate Canonical(t: Timespec) {
    if t.sec == 0 then -B < t.nsec < B else 0 <= t.nsec < B
  }

  /** The canonical value of a number of nanoseconds. */
  function FromNs(v: int): (t: Timespec)
    ensures Canonical(t) && Ns(t) == v
  {
    if v <= -B then Timespec(-((-v) / B), (-v) % B)
    else if v < B then Timespec(0, v)
    else Timespec(v / B, v % B)
  }

  /** Canonical values and numbers of nanoseconds are the same thing. */
  lemma CanonicalIsUnique(t: Timespec)
    ensures Canonical(t) <==> t == FromNs(Ns(t))
  {
  }

  function Sign(v: int): int {
    if v < 0 then -1 else if v == 0 then 0 else 1
  }

  /** C's division, which truncates. */
  function CDiv(a: int, b: int): int
    requires 0 < b
  {
    if a < 0 then -((-a) / b) else a / b
  }

  // --------------------------------------------------------------- fix, add

  /** What sancus_time_fix makes of a value. */
  function Fixed(t: Timespec): Timespec {
    var d := CDiv(t.nsec, B);
    if d > 0 then
      Timespec(t.sec + d, t.nsec - B * d)
    else if t.nsec < 0 && (1 - d != 1 || t.sec != 0) then
      Timespec(t.sec - (1 - d), t.nsec + B * (1 - d))
    else
      t
  }

  /** What it returns. */
  function FixSign(t: Timespec): int {
    if t.sec < 0 || t.nsec < 0 then -1 else if t.sec == 0 && t.nsec == 0 then 0 else 1
  }

  /** The result of a canonical value is its sign; of any other, whether a part is negative. */
  lemma FixSignIsSign(t: Timespec)
    ensures Canonical(t) ==> FixSign(t) == Sign(Ns(t))
    ensures FixSign(t) == 0 <==> t == Timespec(0, 0)
    ensures FixSign(t) == -1 <==> t.sec < 0 || t.nsec < 0
    ensures -1 <= FixSign(t) <= 1
  {
  }

  /** What fixing always does, canonical or not, right or not: it keeps seconds and
      nanoseconds together and moves whole seconds between them until the nanoseconds are
      within one second -- or leaves alone what lies in the second below zero. */
  lemma FixedIs(t: Timespec)
    ensures var r := Fixed(t);
      && r.sec * B + r.nsec == t.sec * B + t.nsec
      && (if 0 <= t.nsec then 0 <= r.nsec < B
          else if t.sec == 0 && -B < t.nsec then r == t
          else 0 < r.nsec <= B)
  {
    var m := if t.nsec < 0 then -t.nsec else t.nsec;
    assert m == m / B * B + m % B;
  }

  /** Fixing makes a value canonical and keeps what it means: below zero seconds only if
      nothing is to be done, else unless negative nanoseconds use up the seconds or are
      a whole number of seconds. */
  lemma FixedIsExact(t: Timespec)
    ensures Fixed(t) == FromNs(Ns(t))
            <==> if t.sec < 0 then 0 <= t.nsec < B
                 else || 0 <= t.nsec
                      || (t.sec == 0 && -B < t.nsec)
                      || (t.nsec % B != 0 && 0 < t.sec * B + t.nsec)
  {
    hide FromNs;
    CanonicalIsUnique(Fixed(t));
    var m := if t.nsec < 0 then -t.nsec else t.nsec;
    assert m == m / B * B + m % B;
    assert t.nsec % B == 0 <==> m % B == 0;
  }

  /** One second below zero and one more in nanoseconds is fixed to nothing. */
  lemma FixLosesTheSign()
    ensures var t := Timespec(-1, B);
      Fixed(t) == Timespec(0, 0) && Ns(t) == -2 * B
  {
  }

  /** Adding the magnitudes of values of unlike sign (the mixed branch of time_add). */
  function AddedMixed(a: Timespec, b: Timespec): Timespec {
    var sec, nsec := a.sec + b.sec, a.nsec - b.nsec;
    if nsec < 0 then
      var d := 1 - CDiv(nsec, B);
      if sec == -d then Timespec(0, -(nsec + B * d))
      else if sec >= d then Timespec(sec - d, nsec + B * d)
      else Timespec(sec + d, nsec + B * d)
    else
      Timespec(sec, nsec)
  }

  /** What time_add leaves to sancus_time_fix. */
  function RawSum(a: Timespec, b: Timespec): Timespec {
    if (a.sec < 0) != (b.sec < 0) then AddedMixed(a, b) else Timespec(a.sec + b.sec, a.nsec + b.nsec)
  }

  /** time_add */
  function Added(a: Timespec, b: Timespec): Timespec {
    Fixed(RawSum(a, b))
  }

  /** What adding always does, right or not: values of like sign part by part; of unlike
      sign, the nanoseconds of the second are taken from those of the first, and if that
      is negative as many whole seconds are borrowed as it takes, and taken off or put on
      the seconds, or traded for the sign if they are just as many. */
  lemma RawSumIs(a: Timespec, b: Timespec, d: int)
    ensures (a.sec < 0) == (b.sec < 0) ==> RawSum(a, b) == Timespec(a.sec + b.sec, a.nsec + b.nsec)
    ensures (a.sec < 0) != (b.sec < 0) ==>
      var sec, nsec := a.sec + b.sec, a.nsec - b.nsec;
      if 0 <= nsec then
        RawSum(a, b) == Timespec(sec, nsec)
      else
        0 < nsec + d * B <= B ==>
          RawSum(a, b) == if sec == -d then Timespec(0, -(nsec + d * B))
                          else Timespec(if d <= sec then sec - d else sec + d, nsec + d * B)
    ensures Added(a, b) == Fixed(RawSum(a, b))
  {
    hide Fixed;
    if a.nsec < b.nsec {
      Borrowed(b.nsec - a.nsec, d);
    }
  }

  lemma Borrowed(m: nat, d: int)
    requires 0 < m
    ensures 0 < d * B - m <= B ==> d == 1 + m / B
  {
    assert m == m / B * B + m % B;
  }

  /** Below zero, a carry is off by just two seconds. */
  lemma CarryError(a: Timespec, b: Timespec)
    requires Canonical(a) && Canonical(b) && a.sec < 0 && b.sec < 0
    ensures Ns(Added(a, b)) == Ns(a) + Ns(b) + if B <= a.nsec + b.nsec then 2 * B else 0
  {
    CDivNearZero(a.nsec + b.nsec);
  }

  /** Where time_add adds. */
  predicate AddIsExact(a: Timespec, b: Timespec) {
    var sec, nsec := a.sec + b.sec, a.nsec - b.nsec;
    if a.sec < 0 && b.sec < 0 then
      a.nsec + b.nsec < B
    else if a.sec < 0 then
      if sec < 0 then nsec < B else nsec == 0
    else if b.sec < 0 then
      sec > 0 || (if sec == 0 then nsec >= 0 else nsec == 0)
    else
      a.sec != 0 || b.sec != 0 || -B < a.nsec + b.nsec
  }

  /** Addition of canonical values is exact, and its result canonical, there and
      nowhere else. */
  lemma AddedIsExact(a: Timespec, b: Timespec)
    requires Canonical(a) && Canonical(b)
    ensures Added(a, b) == FromNs(Ns(a) + Ns(b)) <==> AddIsExact(a, b)
  {
    if (a.sec < 0) == (b.sec < 0) {
      AddedLikeIsExact(a, b);
    } else if a.sec < 0 {
      AddedNegPosIsExact(a, b);
    } else {
      AddedPosNegIsExact(a, b);
    }
  }

  /** The carry of two values below zero goes the wrong way: -1.6 and -1.6 make -1.2. */
  lemma CarryBelowZeroIsLost()
    ensures var a := Timespec(-1, 600_000_000);
      Canonical(a) && Added(a, a) == Timespec(-1, 200_000_000) && 2 * Ns(a) == -3_200_000_000
  {
  }

  lemma CDivNearZero(x: int)
    requires -2 * B < x < 2 * B
    ensures CDiv(x, B) == if x >= B then 1 else if x <= -B then -1 else 0
  {
  }

  lemma AddedLikeIsExact(a: Timespec, b: Timespec)
    requires Canonical(a) && Canonical(b) && (a.sec < 0) == (b.sec < 0)
    ensures Added(a, b) == FromNs(Ns(a) + Ns(b)) <==> AddIsExact(a, b)
  {
    hide FromNs;
    CanonicalIsUnique(Added(a, b));
    CDivNearZero(a.nsec + b.nsec);
  }

  lemma AddedNegPosIsExact(a: Timespec, b: Timespec)
    requires Canonical(a) && Canonical(b) && a.sec < 0 <= b.sec
    ensures Added(a, b) == FromNs(Ns(a) + Ns(b)) <==> AddIsExact(a, b)
  {
    hide FromNs, CDiv;
    CanonicalIsUnique(Added(a, b));
    CDivNearZero(a.nsec - b.nsec);
    CDivNearZero(AddedMixed(a, b).nsec);
  }

  lemma AddedPosNegIsExact(a: Timespec, b: Timespec)
    requires Canonical(a) && Canonical(b) && b.sec < 0 <= a.sec
    ensures Added(a, b) == FromNs(Ns(a) + Ns(b)) <==> AddIsExact(a, b)
  {
    hide FromNs, CDiv;
    CanonicalIsUnique(Added(a, b));
    CDivNearZero(a.nsec - b.nsec);
    CDivNearZero(AddedMixed(a, b).nsec);
  }

  /** sancus_time_neg */
  function Neg(a: Timespec): Timespec {
    if a.sec == 0 then a.(nsec := -a.nsec) else a.(sec := -a.sec)
  }

  lemma NegIsExact(a: Timespec)
    ensures Canonical(a) ==> Canonical(Neg(a)) && Ns(Neg(a)) == -Ns(a)
    ensures Neg(Neg(a)) == a
    ensures Neg(a).sec == -a.sec && (a.sec != 0 ==> Neg(a).nsec == a.nsec)
  {
  }

  /** sancus_time_sub2 */
  function Subtracted(a: Timespec, b: Timespec): Timespec {
    Added(a, Neg(b))
  }

  /** Where time_sub subtracts: the condition of adding, on the arguments. */
  predicate SubIsExact(a: Timespec, b: Timespec) {
    if a.sec < 0 && 0 < b.sec then
      a.nsec + b.nsec < B
    else if a.sec < 0 then
      var nsec := if b.sec == 0 then a.nsec + b.nsec else a.nsec - b.nsec;
      if a.sec < b.sec then nsec < B else nsec == 0
    else if 0 < b.sec then
      a.sec > b.sec || (if a.sec == b.sec then a.nsec >= b.nsec else a.nsec == b.nsec)
    else
      a.sec != 0 || b.sec != 0 || -B < a.nsec - b.nsec
  }

  /** Subtraction of canonical values is exact, and its result canonical, there and
      nowhere else. */
  lemma SubtractedIsExact(a: Timespec, b: Timespec)
    requires Canonical(a) && Canonical(b)
    ensures Subtracted(a, b) == FromNs(Ns(a) - Ns(b)) <==> SubIsExact(a, b)
  {
    hide FromNs, Ns, Added, AddIsExact, SubIsExact;
    NegIsExact(b);
    AddedIsExact(a, Neg(b));
    SubIsExactIff(a, b);
  }

  lemma SubIsExactIff(a: Timespec, b: Timespec)
    requires Canonical(a) && Canonical(b)
    ensures SubIsExact(a, b) <==> AddIsExact(a, Neg(b))
  {
  }

  // ------------------------------------------------- comparing, differences

  /** A cast from long to int. */
  function ToInt(x: int): int {
    (x + 0x8000_0000) % 0x1_0000_0000 - 0x8000_0000
  }

  /** sancus_time_cmp */
  function Cmp(a: Timespec, b: Timespec): int {
    ToInt(if a.sec != b.sec then a.sec - b.sec
          else if a.sec < 0 then b.nsec - a.nsec
          else a.nsec - b.nsec)
  }

  /** A difference in seconds keeps its sign through the cast. */
  predicate KeepsSign(d: int) {
    if d < 0 then 0x8000_0000 <= d % 0x1_0000_0000
    else if d == 0 then true
    else 0 < d % 0x1_0000_0000 < 0x8000_0000
  }

  /** Comparison is the comparison of nanoseconds exactly as far as the cast goes. */
  lemma CmpIsSign(a: Timespec, b: Timespec)
    requires Canonical(a) && Canonical(b)
    ensures Sign(Cmp(a, b)) == Sign(Ns(a) - Ns(b)) <==> KeepsSign(a.sec - b.sec)
    ensures -0x8000_0000 <= a.sec - b.sec < 0x8000_0000 ==> KeepsSign(a.sec - b.sec)
  {
    hide Ns, Canonical, KeepsSign, ToInt;
    CmpOrder(a, b);
    CastSign(a.sec - b.sec);
  }

  lemma CastSign(d: int)
    ensures Sign(ToInt(d)) == Sign(d) <==> KeepsSign(d)
    ensures -0x8000_0000 <= d < 0x8000_0000 ==> KeepsSign(d)
  {
    var q, r := d / 0x1_0000_0000, d % 0x1_0000_0000;
    assert d == 0x1_0000_0000 * q + r;
    assert ToInt(d) == if r < 0x8000_0000 then r else r - 0x1_0000_0000;
  }

  lemma CmpOrder(a: Timespec, b: Timespec)
    requires Canonical(a) && Canonical(b)
    ensures a.sec < b.sec ==> Ns(a) < Ns(b)
    ensures a.sec > b.sec ==> Ns(a) > Ns(b)
    ensures a.sec == b.sec ==> Cmp(a, b) == Ns(a) - Ns(b)
  {
  }

  function Max(a: int, b: int): int {
    if a < b then b else a
  }

  /** sancus_time_elapsed */
  function Elapsed(now: Timespec, since: Timespec): Timespec {
    if Cmp(now, since) > 0 then Subtracted(now, since) else Timespec(0, 0)
  }

  /** sancus_time_left */
  function TimeLeft(now: Timespec, until: Timespec): Timespec {
    if Cmp(until, now) > 0 then Subtracted(until, now) else Timespec(0, 0)
  }

  /** A difference in seconds is positive after the cast. */
  predicate CastsPositive(d: int) {
    0 < d % 0x1_0000_0000 < 0x8000_0000
  }

  /** Where sancus_time_elapsed is right: going back in time, unless the cast makes the
      difference positive; going forward, if the cast leaves it positive and the later
      instant is not below zero seconds or does not differ in nanoseconds. */
  predicate ElapsedIsRight(now: Timespec, since: Timespec) {
    var d := now.sec - since.sec;
    if Ns(now) <= Ns(since) then !CastsPositive(d)
    else (d == 0 || CastsPositive(d)) && (0 <= now.sec || now.nsec == since.nsec)
  }

  /** The elapsed time of any two canonical instants is the clamped difference there and
      nowhere else. */
  lemma ElapsedIsExact(now: Timespec, since: Timespec)
    requires Canonical(now) && Canonical(since)
    ensures Elapsed(now, since) == FromNs(Max(0, Ns(now) - Ns(since))) <==> ElapsedIsRight(now, since)
    ensures var d := now.sec - since.sec;
      Elapsed(now, since) == if CastsPositive(d) || (d == 0 && Ns(since) < Ns(now)) then Added(now, Neg(since))
                             else Timespec(0, 0)
  {
    hide FromNs, Ns, Added, AddIsExact, Cmp, CastsPositive;
    CmpIsPositive(now, since);
    NegIsExact(since);
    AddedIsExact(now, Neg(since));
    CanonicalIsUnique(Timespec(0, 0));
    ZeroIsZero();
    if Ns(now) > Ns(since) {
      LaterIsExact(now, since);
      CanonicalIsUnique(FromNs(Ns(now) - Ns(since)));
    } else if Cmp(now, since) > 0 {
      EarlierIsNotZero(now, since);
    }
  }

  lemma ZeroIsZero()
    ensures Ns(Timespec(0, 0)) == 0
  {
  }

  lemma CmpIsPositive(a: Timespec, b: Timespec)
    requires Canonical(a) && Canonical(b)
    ensures var d := a.sec - b.sec;
      Cmp(a, b) > 0 <==> CastsPositive(d) || (d == 0 && Ns(a) > Ns(b))
  {
    hide Ns;
    CmpOrder(a, b);
    CastPositive(a.sec - b.sec);
  }

  /** The comparison itself: the difference of seconds as an int, or within a second that
      of V. */
  lemma CmpIs(a: Timespec, b: Timespec)
    requires Canonical(a) && Canonical(b)
    ensures -0x8000_0000 <= Cmp(a, b) < 0x8000_0000
    ensures a.sec == b.sec ==> Cmp(a, b) == Ns(a) - Ns(b)
    ensures a.sec != b.sec ==> (Cmp(a, b) - (a.sec - b.sec)) % 0x1_0000_0000 == 0
  {
    hide Ns;
    CmpOrder(a, b);
    var x := a.sec - b.sec + 0x8000_0000;
    var q, r := x / 0x1_0000_0000, x % 0x1_0000_0000;
    assert x == 0x1_0000_0000 * q + r;
    assert r - x == 0x1_0000_0000 * -q + 0;
  }

  lemma CastPositive(d: int)
    ensures ToInt(d) > 0 <==> CastsPositive(d)
  {
    var q, r := d / 0x1_0000_0000, d % 0x1_0000_0000;
    assert d == 0x1_0000_0000 * q + r;
    assert ToInt(d) == if r < 0x8000_0000 then r else r - 0x1_0000_0000;
  }

  lemma LaterIsExact(now: Timespec, since: Timespec)
    requires Canonical(now) && Canonical(since) && Ns(now) > Ns(since)
    ensures AddIsExact(now, Neg(since)) <==> 0 <= now.sec || now.nsec == since.nsec
  {
  }

  /** An earlier instant taken for a later one is that by far, and its distance does
      not come out as nothing. */
  lemma EarlierIsNotZero(now: Timespec, since: Timespec)
    requires Canonical(now) && Canonical(since) && Ns(now) <= Ns(since) && Cmp(now, since) > 0
    ensures Subtracted(now, since) != Timespec(0, 0)
  {
    CmpOrder(now, since);
    CastPositive(now.sec - since.sec);
    assert now.sec - since.sec < -1000;
    CDivNearZero(now.nsec - Neg(since).nsec);
    CDivNearZero(now.nsec + Neg(since).nsec);
  }

  /** 2^31 seconds are taken for a step back, and a step back by as many and one for
      one forward. */
  lemma ElapsedFails()
    ensures Elapsed(Timespec(0x8000_0000, 0), Timespec(0, 0)) == Timespec(0, 0)
    ensures Elapsed(Timespec(0, 0), Timespec(0x8000_0001, 0)) == Timespec(-0x8000_0001, 0)
  {
    hide Cmp, CastsPositive, CDiv, Ns;
    var zero, far, farther := Timespec(0, 0), Timespec(0x8000_0000, 0), Timespec(0x8000_0001, 0);
    CmpIsPositive(far, zero);
    CmpIsPositive(zero, farther);
    CastsOfFar();
    CDivNearZero(0);
  }

  lemma CastsOfFar()
    ensures !CastsPositive(0x8000_0000) && CastsPositive(-0x8000_0001)
  {
    assert -0x8000_0001 == -1 * 0x1_0000_0000 + 0x7fff_ffff;
  }

  lemma TimeLeftIsExact(now: Timespec, until: Timespec)
    requires Canonical(now) && Canonical(until)
    ensures TimeLeft(now, until) == FromNs(Max(0, Ns(until) - Ns(now))) <==> ElapsedIsRight(until, now)
    ensures TimeLeft(now, until) == Elapsed(until, now)
  {
    ElapsedIsExact(until, now);
  }

  /** Between instants not below zero, adding what has elapsed gives back the present
      exactly if the cast leaves the difference positive. */
  lemma ElapsedGivesBack(now: Timespec, since: Timespec)
    requires Canonical(now) && Canonical(since)
    requires 0 <= Ns(since) <= Ns(now)
    ensures Added(since, Elapsed(now, since)) == now
            <==> now.sec == since.sec || CastsPositive(now.sec - since.sec)
  {
    hide Added, Ns, FromNs, CastsPositive, Cmp, AddIsExact;
    NotBelowZero(now);
    ElapsedIsExact(now, since);
    CmpIsPositive(now, since);
    CmpOrder(now, since);
    var d := if Cmp(now, since) > 0 then FromNs(Ns(now) - Ns(since)) else Timespec(0, 0);
    assert Elapsed(now, since) == d;
    ZeroIsZero();
    ForwardIsExact(since, d);
    AddedIsExact(since, d);
    CanonicalIsUnique(now);
    CanonicalIsUnique(since);
  }

  lemma NotBelowZero(t: Timespec)
    requires Canonical(t) && 0 <= Ns(t)
    ensures 0 <= t.sec
  {
  }

  lemma ForwardIsExact(a: Timespec, b: Timespec)
    requires Canonical(a) && Canonical(b) && 0 <= Ns(a) && 0 <= Ns(b)
    ensures AddIsExact(a, b)
  {
  }

  // ------------------------------------------------------------ milliseconds

  const LONG_MIN: int := -0x8000_0000_0000_0000
  const LONG_MAX: int := 0x7fff_ffff_ffff_ffff

  /** A signed 64-bit integer; Dafny checks that no result leaves the range. */
  newtype long = x: int | LONG_MIN <= x <= LONG_MAX

  /** C's division on long. */
  function LDiv(a: long, b: long): (q: long)
    requires 0 < b && -LONG_MAX <= a as int
    ensures q as int == CDiv(a as int, b as int)
  {
    if a < 0 then -((-a) / b) else a / b
  }

  /** A value sancus_time_ts_to_ms can take: any canonical one, and what
      sancus_time_fix may leave behind. */
  predicate Convertible(t: Timespec) {
    LONG_MIN <= t.sec <= LONG_MAX && -B <= t.nsec <= B
  }

  /** sancus_time_ts_to_ms.  No step of it overflows. */
  function ToMs(sec: long, nsec: long): (ms: long)
    requires Convertible(Timespec(sec as int, nsec as int))
  {
    var rounded := LDiv(nsec + 500000, 1000000);
    if sec <= LDiv(-0x7fff_ffff_ffff_ffff, 1000) then -0x7fff_ffff_ffff_ffff - 1
    else if sec >= LDiv(0x7fff_ffff_ffff_ffff, 1000) then 0x7fff_ffff_ffff_ffff
    else if sec < 0 then 1000 * sec - rounded
    else 1000 * sec + rounded
  }

  function Ms(t: Timespec): int
    requires Convertible(t)
  {
    ToMs(t.sec as long, t.nsec as long) as int
  }

  /** The seconds for which the result is not one of the two ends. */
  predicate InMsRange(t: Timespec) {
    LONG_MIN / 1000 + 1 < t.sec < LONG_MAX / 1000
  }

  lemma MsValue(t: Timespec)
    requires Convertible(t)
    ensures Ms(t) == if t.sec <= -9223372036854775 then LONG_MIN
                     else if t.sec >= 9223372036854775 then LONG_MAX
                     else if t.sec < 0 then 1000 * t.sec - CDiv(t.nsec + 500000, M)
                     else 1000 * t.sec + CDiv(t.nsec + 500000, M)
  {
  }

  /** Later is never fewer milliseconds, ends included. */
  lemma MsIsMonotone(a: Timespec, b: Timespec)
    requires Canonical(a) && LONG_MIN <= a.sec <= LONG_MAX
    requires Canonical(b) && LONG_MIN <= b.sec <= LONG_MAX
    requires Ns(a) <= Ns(b)
    ensures Ms(a) <= Ms(b)
  {
    hide Ms;
    MsValue(a);
    MsValue(b);
    assert a.sec <= b.sec;
  }

  /** Between the ends the result is the nearest millisecond -- except in the second
      below zero, where it is only for the last half millisecond and for odd multiples
      of half a millisecond. */
  lemma MsIsNearest(t: Timespec)
    requires Canonical(t) && InMsRange(t)
    ensures -500000 <= Ms(t) * M - Ns(t) <= 500000
            <==> t.sec != 0 || -500000 <= t.nsec || (-t.nsec - 500000) % M == 0
  {
    hide Ms;
    MsValue(t);
  }

  /** sancus_time_new_ms */
  function NewMs(ms: int): Timespec {
    Fixed(Timespec(0, ms * M))
  }

  /** Milliseconds survive the way there and back exactly when they are not negative. */
  lemma MsRoundTrip(ms: int)
    requires FixFits(Timespec(0, ms * M))
    ensures 0 <= ms ==> NewMs(ms) == FromNs(ms * M)
    ensures Convertible(NewMs(ms))
    ensures Ms(NewMs(ms)) == ms <==> 0 <= ms
    ensures var t := NewMs(ms);
      && t.sec * B + t.nsec == ms * M
      && (if -1000 < ms < 0 then t.sec == 0 else 0 <= t.nsec <= B)
      && (ms <= -1000 ==> 0 < t.nsec)
  {
    FixedIs(Timespec(0, ms * M));
    hide Ms;
    var t := NewMs(ms);
    if 0 <= ms {
      FixedIsExact(Timespec(0, ms * M));
    }
    MsValue(t);
  }

  // ---------------------------------------------------------------- in place

  predicate InLong(x: int) {
    LONG_MIN <= x <= LONG_MAX
  }

  /** As many seconds as a long holds in nanoseconds. */
  const MAX_SEC: int := 9_223_372_036

  /** SEC_TO_NS, multiplied out as the macros do. */
  function SecToNs(s: long): (n: long)
    requires -MAX_SEC <= s as int <= MAX_SEC
    ensures n as int == B * s as int
  {
    1000 * (1000 * (1000 * s))
  }

  /** No step of sancus_time_fix overflows. */
  predicate FixFits(t: Timespec) {
    InLong(t.sec) && -MAX_SEC * B < t.nsec <= LONG_MAX && InLong(Fixed(t).sec)
  }

  /** No step of time_add overflows. */
  predicate AddFits(a: Timespec, b: Timespec) {
    && ((a.sec < 0) != (b.sec < 0) ==> -MAX_SEC * B < a.nsec - b.nsec <= LONG_MAX)
    && FixFits(RawSum(a, b))
  }

  /** For canonical values that is to say that the sum of the seconds fits, with and
      without the carry. */
  lemma CanonicalAddFits(a: Timespec, b: Timespec)
    requires Canonical(a) && Canonical(b) && InLong(a.sec) && InLong(b.sec)
    ensures AddFits(a, b) <==> InLong(a.sec + b.sec) && InLong(Added(a, b).sec)
  {
    hide Fixed, CDiv;
    CDivNearZero(a.nsec - b.nsec);
  }

  /** A struct timespec that is updated through a pointer. */
  class TimeVar {
    var tv_sec: long
    var tv_nsec: long

    function Value(): Timespec
      reads this
    {
      Timespec(tv_sec as int, tv_nsec as int)
    }

    constructor (sec: long, nsec: long)
      ensures Value() == Timespec(sec as int, nsec as int)
    {
      tv_sec, tv_nsec := sec, nsec;
    }

    /** sancus_time_fix */
    method Fix() returns (rc: int)
      requires FixFits(Value())
      modifies this
      ensures Value() == Fixed(old(Value())) && rc == FixSign(Value())
    {
      var d := LDiv(tv_nsec, 1_000_000_000);
      if d > 0 {
        tv_sec := tv_sec + d;
        tv_nsec := tv_nsec - SecToNs(d);
      } else if tv_nsec < 0 {
        d := -d + 1;
        if d != 1 || tv_sec != 0 {
          tv_sec := tv_sec - d;
          tv_nsec := tv_nsec + SecToNs(d);
        }
      }
      if tv_sec < 0 || tv_nsec < 0 {
        rc := -1;
      } else if tv_sec == 0 && tv_nsec == 0 {
        rc := 0;
      } else {
        rc := 1;
      }
    }

    /** The branch of time_add for values of unlike sign. */
    method AddMixed(b: TimeVar)
      requires (tv_sec < 0) != (b.tv_sec < 0)
      requires -MAX_SEC * B < tv_nsec as int - b.tv_nsec as int <= LONG_MAX
      modifies this
      ensures Value() == AddedMixed(old(Value()), old(b.Value()))
    {
      tv_sec := tv_sec + b.tv_sec;
      tv_nsec := tv_nsec - b.tv_nsec;
      if tv_nsec < 0 {
        var d := 1 - LDiv(tv_nsec, 1_000_000_000);
        tv_nsec := tv_nsec + SecToNs(d);
        if tv_sec == -d {
          tv_sec := 0;
          tv_nsec := tv_nsec * -1;
        } else if tv_sec >= d {
          tv_sec := tv_sec - d;
        } else {
          tv_sec := tv_sec + d;
        }
      }
    }

    /** time_add; `b` may be the value itself. */
    method Add(b: TimeVar) returns (rc: int)
      requires AddFits(Value(), b.Value())
      modifies this
      ensures Value() == Added(old(Value()), old(b.Value())) && rc == FixSign(Value())
    {
      hide AddedMixed, Fixed, FixSign;
      if (tv_sec < 0) != (b.tv_sec < 0) {
        AddMixed(b);
      } else {
        tv_sec := tv_sec + b.tv_sec;
        tv_nsec := tv_nsec + b.tv_nsec;
      }
      rc := Fix();
    }

    /** sancus_time_sub */
    method Sub(b: TimeVar) returns (rc: int)
      requires InLong(Neg(b.Value()).sec) && InLong(Neg(b.Value()).nsec)
      requires AddFits(Value(), Neg(b.Value()))
      modifies this
      ensures Value() == Added(old(Value()), Neg(old(b.Value()))) && rc == FixSign(Value())
    {
      hide Added, AddFits, FixSign;
      var nb := new TimeVar(if b.tv_sec == 0 then 0 else -b.tv_sec, if b.tv_sec == 0 then -b.tv_nsec else b.tv_nsec);
      rc := Add(nb);
    }

    /** sancus_time_add_ms */
    method AddMs(ms: long) returns (rc: int)
      requires InLong(ms as int * M) && FixFits(Timespec(0, ms as int * M))
      requires AddFits(Value(), NewMs(ms as int))
      modifies this
      ensures Value() == Added(old(Value()), NewMs(ms as int)) && rc == FixSign(Value())
    {
      hide Added, AddFits, Fixed, FixSign;
      var b := new TimeVar(0, 1000 * (1000 * ms));
      var _ := b.Fix();
      rc := Add(b);
    }
  }
}
