/** The traffic shaper (lfd_shaper.c). */
module Shaper {

  datatype Time = Time(sec: int, usec: int) {
    predicate Valid() { 0 <= usec < 1000000 }

    function Micros(): int { sec * 1000000 + usec }
  }

  /** The value of n as an unsigned long, of 64 bits if `wide` and of 32 otherwise. */
  function Ulong(wide: bool, n: int): (r: nat)
    ensures r <= Max(wide)
    ensures 0 <= n <= Max(wide) ==> r == n
    ensures n >= 0 ==> r <= n
  {
    if wide then n % 0x1_0000_0000_0000_0000 else n % 0x1_0000_0000
  }

  function Max(wide: bool): nat {
    if wide then 0xFFFF_FFFF_FFFF_FFFF else 0xFFFF_FFFF
  }

  /** It differs from n by a multiple of the range. */
  lemma UlongWraps(wide: bool, n: int)
    ensures (n - Ulong(wide, n)) % (Max(wide) + 1) == 0
  {
  }

  /** The static variables. */
  datatype State = State(wide: bool, bytes: nat, maxSpeed: nat, last: Time) {
    predicate Valid() { bytes <= Max(wide) && maxSpeed <= Max(wide) && last.Valid() }
  }

  /** C's division of an int by 8. */
  function Eighth(n: int): (r: int)
    ensures n >= 0 ==> 8 * r <= n < 8 * r + 8
    ensures n < 0 ==> 8 * r - 8 < n <= 8 * r
  {
    if n >= 0 then n / 8 else -(-n / 8)
  }

  function MaxSpeed(wide: bool, spdOut: int): nat {
    Ulong(wide, Ulong(wide, Eighth(spdOut) * 1024) + 400)
  }

  function TimerSub(a: Time, b: Time): (r: Time)
    requires a.Valid() && b.Valid()
    ensures r.Valid() && r.Micros() == a.Micros() - b.Micros()
  {
    if a.usec < b.usec then Time(a.sec - b.sec - 1, a.usec - b.usec + 1000000)
    else Time(a.sec - b.sec, a.usec - b.usec)
  }

  /** tv2ms: whole milliseconds as an unsigned long, never 0. */
  function Tv2Ms(wide: bool, tv: Time): (ms: nat)
    requires tv.Valid()
    ensures ms >= 1
    ensures tv.sec >= 0 ==> ms <= tv.Micros() / 1000 + 1 && (tv.Micros() >= 1000 ==> ms <= tv.Micros() / 1000)
    ensures 1000 <= tv.Micros() < 1000 * Max(wide) ==> ms == tv.Micros() / 1000
  {
    var exact := tv.sec * 1000 + tv.usec / 1000;
    assert tv.Micros() / 1000 == exact;
    var ms := Ulong(wide, exact);
    if ms == 0 then 1 else ms
  }

  /** The division of two unsigned longs. */
  function Quotient(a: nat, b: nat): (q: nat)
    requires b > 0
    ensures a == 0 ==> q == 0
  {
    a / b
  }

  function Speed(s: State, now: Time): nat
    requires s.Valid() && now.Valid()
  {
    Quotient(Ulong(s.wide, s.bytes * 1000), Tv2Ms(s.wide, TimerSub(now, s.last)))
  }

  /** shaper_counter */
  function Count(s: State, len: nat): (r: State)
    requires s.Valid()
    ensures r.Valid()
  {
    s.(bytes := Ulong(s.wide, s.bytes + len))
  }

  /** shaper_avail */
  function Avail(s: State, now: Time): (r: (State, bool))
    requires s.Valid() && now.Valid()
    ensures r.0.Valid()
  {
    if Speed(s, now) > s.maxSpeed then (s, false)
    else if now.sec > s.last.sec then (s.(last := now, bytes := 0), true)
    else (s, true)
  }

  class Shaper {
    const wide: bool
    var bytes: nat
    var maxSpeed: nat
    var lastTime: Time
    var currTime: Time

    function Current(): State
      reads this
    {
      State(wide, bytes, maxSpeed, lastTime)
    }

    /** The static variables before shaper_init. */
    constructor (wide: bool)
      ensures Current() == State(wide, 0, 0, Time(0, 0))
    {
      this.wide := wide;
      bytes, maxSpeed, lastTime, currTime := 0, 0, Time(0, 0), Time(0, 0);
    }

    method Init(spdOut: int)
      requires Current().Valid()
      modifies this`bytes, this`maxSpeed
      ensures Current() == old(Current()).(bytes := 0, maxSpeed := MaxSpeed(wide, spdOut)) && Current().Valid()
    {
      maxSpeed := Ulong(wide, Eighth(spdOut) * 1024);
      maxSpeed := Ulong(wide, maxSpeed + 400);
      bytes := 0;
    }

    method Counter(len: nat)
      requires Current().Valid()
      modifies this`bytes
      ensures Current() == Count(old(Current()), len)
    {
      bytes := Ulong(wide, bytes + len);
    }

    /** `now` is what gettimeofday returns. */
    method Available(now: Time) returns (ok: bool)
      requires Current().Valid() && now.Valid()
      modifies this`bytes, this`lastTime, this`currTime
      ensures (Current(), ok) == Avail(old(Current()), now)
    {
      currTime := now;
      var tv := TimerSub(currTime, lastTime);
      var speed := Quotient(Ulong(wide, bytes * 1000), Tv2Ms(wide, tv));
      if speed > maxSpeed {
        return false;
      }
      if currTime.sec > lastTime.sec {
        lastTime := currTime;
        bytes := 0;
      }
      return true;
    }
  }

  /* ---------- the rate bound ---------- */

  /** On the data path a frame is counted only right after the shaper let it through. */
  datatype Event = Ask(now: Time) | Frame(len: nat)

  /** A run: the clock does not go back, frames are at most `f` bytes long and follow an accepted request. */
  ghost predicate Run(s: State, es: seq<Event>, f: nat, clock: Time, open: bool)
    requires s.Valid() && clock.Valid()
    decreases |es|
  {
    es == [] ||
    match es[0]
    case Ask(now) =>
      && now.Valid() && now.Micros() >= clock.Micros()
      && Run(Avail(s, now).0, es[1..], f, now, Avail(s, now).1)
    case Frame(len) => open && len <= f && Run(Count(s, len), es[1..], f, clock, false)
  }

  /** Bytes counted, windows begun by a reset, and the time of the last request. */
  datatype Tally = Tally(total: nat, windows: nat, clock: Time)

  ghost function Account(s: State, es: seq<Event>, t: Tally): (r: Tally)
    requires s.Valid() && forall e :: e in es && e.Ask? ==> e.now.Valid()
    decreases |es|
  {
    if es == [] then t
    else
      match es[0]
      case Ask(now) =>
        var (s', ok) := Avail(s, now);
        Account(s', es[1..], t.(clock := now, windows := t.windows + if ok && now.sec > s.last.sec then 1 else 0))
      case Frame(len) => Account(Count(s, len), es[1..], t.(total := t.total + len))
  }

  function Millis(from: Time, to: Time): (r: nat)
    requires from.Micros() <= to.Micros()
  {
    (to.Micros() - from.Micros()) / 1000
  }

  /** What k bytes per second make of n milliseconds, in thousandths of a byte. */
  function Allowance(k: nat, n: nat): nat {
    k * n
  }

  lemma Monotone(k: nat, a: nat, b: nat)
    requires a <= b
    ensures Allowance(k, a) <= Allowance(k, b) && Allowance(a, k) <= Allowance(b, k)
    ensures Allowance(k, 0) == 0
  {
  }

  lemma QuotientBound(a: nat, b: nat)
    requires b > 0
    ensures a < Allowance(Quotient(a, b) + 1, b)
  {
    assert a == a / b * b + a % b;
  }

  /** The most that may have been counted when a request is accepted in the second of the last reset. */
  function Reach(maxSpeed: nat): nat {
    (Allowance(maxSpeed + 1, 999) - 1) / 1000
  }

  lemma AddBounds(k: nat, x: nat, y: nat, z: nat)
    requires x + y <= z
    ensures Allowance(k, x) + Allowance(k, y) <= Allowance(k, z)
  {
    assert k * (x + y) == k * x + k * y;
    Monotone(k, x + y, z);
  }

  /** What an accepted request says about the bytes counted since the last reset. */
  lemma Accepted(s: State, now: Time)
    requires s.Valid() && now.Valid() && now.Micros() >= s.last.Micros()
    requires s.bytes * 1000 <= Max(s.wide) && Avail(s, now).1
    ensures 1000 * s.bytes <= Allowance(s.maxSpeed + 1, Millis(s.last, now) + 1)
    ensures now.sec <= s.last.sec ==> s.bytes <= Reach(s.maxSpeed)
  {
    hide Tv2Ms, TimerSub, Ulong, Quotient, Allowance;
    var tv := TimerSub(now, s.last);
    var ms := Tv2Ms(s.wide, tv);
    var speed := Quotient(s.bytes * 1000, ms);
    QuotientBound(s.bytes * 1000, ms);
    Monotone(ms, speed + 1, s.maxSpeed + 1);
    Monotone(s.maxSpeed + 1, ms, Millis(s.last, now) + 1);
    if now.sec <= s.last.sec {
      assert ms <= 999;
      Monotone(s.maxSpeed + 1, ms, 999);
    }
  }

  /** The invariant of a run: the windows already reset are bounded by the time they took, the current one
      by the requests accepted in it. */
  ghost predicate Within(s: State, f: nat, start: Time, t: Tally, open: bool) {
    && s.Valid() && start.Valid() && t.clock.Valid()
    && start.Micros() <= s.last.Micros() <= t.clock.Micros()
    && s.bytes <= t.total && t.windows >= 1
    && s.bytes <= Reach(s.maxSpeed) + (if open then 0 else f)
    && 1000 * (t.total - s.bytes) <= Allowance(s.maxSpeed + 1, Millis(start, s.last) + t.windows - 1)
    && 1000 * s.bytes <= Allowance(s.maxSpeed + 1, Millis(s.last, t.clock) + 1) + (if open then 0 else 1000 * f)
  }

  lemma AskKeepsWithin(s: State, f: nat, start: Time, t: Tally, open: bool, now: Time)
    requires Within(s, f, start, t, open) && now.Valid() && now.Micros() >= t.clock.Micros()
    requires 1000 * (Reach(s.maxSpeed) + f) <= Max(s.wide)
    ensures var (s', ok) := Avail(s, now);
      Within(s', f, start, t.(clock := now, windows := t.windows + if ok && now.sec > s.last.sec then 1 else 0), ok)
  {
    hide Speed, Millis, Allowance, Reach;
    if !Avail(s, now).1 {
      MillisAdd(s.last, t.clock, now);
      Monotone(s.maxSpeed + 1, Millis(s.last, t.clock) + 1, Millis(s.last, now) + 1);
    } else if now.sec > s.last.sec {
      ResetKeepsWithin(s, f, start, t, open, now);
    } else {
      Accepted(s, now);
    }
  }

  /** The accepted request that closes a window and begins the next. */
  lemma ResetKeepsWithin(s: State, f: nat, start: Time, t: Tally, open: bool, now: Time)
    requires Within(s, f, start, t, open) && now.Valid() && now.Micros() >= t.clock.Micros()
    requires 1000 * (Reach(s.maxSpeed) + f) <= Max(s.wide) && Avail(s, now) == (s.(last := now, bytes := 0), true)
    ensures Within(s.(last := now, bytes := 0), f, start, t.(clock := now, windows := t.windows + 1), true)
  {
    hide Avail, Millis, Allowance, Time.Micros, Max, Reach;
    Accepted(s, now);
    MillisAdd(start, s.last, now);
    AddBounds(s.maxSpeed + 1, Millis(start, s.last) + t.windows - 1, Millis(s.last, now) + 1,
              Millis(start, now) + t.windows);
    Monotone(s.maxSpeed + 1, 0, Millis(now, now) + 1);
  }

  lemma FrameKeepsWithin(s: State, f: nat, start: Time, t: Tally, len: nat)
    requires Within(s, f, start, t, true) && len <= f && 1000 * (Reach(s.maxSpeed) + f) <= Max(s.wide)
    ensures Within(Count(s, len), f, start, t.(total := t.total + len), false)
    ensures Count(s, len) == s.(bytes := s.bytes + len)
  {
    hide Millis, Allowance, Reach;
  }

  lemma MillisAdd(a: Time, b: Time, c: Time)
    requires a.Micros() <= b.Micros() <= c.Micros()
    ensures Millis(a, b) + Millis(b, c) <= Millis(a, c)
    ensures Millis(c, c) == 0
  {
  }

  /** What the invariant says at any time. */
  lemma WithinBounds(s: State, f: nat, start: Time, t: Tally, open: bool)
    requires Within(s, f, start, t, open)
    ensures t.clock.Micros() >= start.Micros()
    ensures 1000 * t.total <= Allowance(s.maxSpeed + 1, Millis(start, t.clock) + t.windows) + 1000 * f
  {
    hide Millis, Allowance, Reach;
    MillisAdd(start, s.last, t.clock);
    AddBounds(s.maxSpeed + 1, Millis(start, s.last) + t.windows - 1, Millis(s.last, t.clock) + 1,
              Millis(start, t.clock) + t.windows);
  }

  lemma {:induction false} RunStaysWithin(s: State, es: seq<Event>, f: nat, start: Time, t: Tally, open: bool)
    requires s.Valid() && Within(s, f, start, t, open) && t.clock.Valid() && Run(s, es, f, t.clock, open)
    requires 1000 * (Reach(s.maxSpeed) + f) <= Max(s.wide)
    requires forall e :: e in es && e.Ask? ==> e.now.Valid()
    ensures var t' := Account(s, es, t);
      && t'.clock.Micros() >= start.Micros()
      && 1000 * t'.total <= Allowance(s.maxSpeed + 1, Millis(start, t'.clock) + t'.windows) + 1000 * f
    decreases |es|
  {
    hide Avail, Millis, Count, Allowance, Reach, Within;
    if es == [] {
      WithinBounds(s, f, start, t, open);
    } else {
      match es[0]
      case Ask(now) =>
        AskKeepsWithin(s, f, start, t, open, now);
        AvailKeepsSpeed(s, now);
        var (s', ok) := Avail(s, now);
        RunStaysWithin(s', es[1..], f, start,
                       t.(clock := now, windows := t.windows + if ok && now.sec > s.last.sec then 1 else 0), ok);
      case Frame(len) =>
        FrameKeepsWithin(s, f, start, t, len);
        RunStaysWithin(Count(s, len), es[1..], f, start, t.(total := t.total + len), false);
    }
  }

  lemma AvailKeepsSpeed(s: State, now: Time)
    requires s.Valid() && now.Valid()
    ensures Avail(s, now).0.maxSpeed == s.maxSpeed && Avail(s, now).0.wide == s.wide
  {
  }

  /** The first request is always accepted, and begins the first window. */
  lemma FirstRequest(s0: State, first: Time, f: nat)
    requires s0.Valid() && s0.bytes == 0 && s0.last == Time(0, 0) && first.Valid() && first.sec > 0
    ensures Avail(s0, first) == (s0.(last := first), true)
    ensures Within(s0.(last := first), f, first, Tally(0, 1, first), true)
  {
    hide Speed;
    IdleSpeed(s0, first);
  }

  lemma IdleSpeed(s: State, now: Time)
    requires s.Valid() && now.Valid() && s.bytes == 0
    ensures Speed(s, now) == 0
  {
    hide Tv2Ms, TimerSub, Quotient;
  }

  /** A run from the first request on, with frames of at most f bytes, and the bound on the bytes let through:
      (max_speed + 1) bytes per second of elapsed time, one millisecond's worth per window, and one frame. */
  ghost predicate Starts(s0: State, first: Time, es: seq<Event>, f: nat) {
    && s0.Valid() && s0.bytes == 0 && s0.last == Time(0, 0) && first.Valid() && first.sec > 0
    && (forall e :: e in es && e.Ask? ==> e.now.Valid())
    && Avail(s0, first).1
    && Run(Avail(s0, first).0, es, f, first, true)
  }

  ghost predicate Bounded(s0: State, first: Time, es: seq<Event>, f: nat)
    requires Starts(s0, first, es, f)
  {
    hide Avail, Run;
    var t := Account(Avail(s0, first).0, es, Tally(0, 1, first));
    && t.clock.Micros() >= first.Micros()
    && 1000 * t.total <= Allowance(s0.maxSpeed + 1, Millis(first, t.clock) + t.windows) + 1000 * f
  }

  lemma RateBound(s0: State, first: Time, es: seq<Event>, f: nat)
    requires Starts(s0, first, es, f)
    requires 1000 * (Reach(s0.maxSpeed) + f) <= Max(s0.wide)
    ensures Bounded(s0, first, es, f)
  {
    hide Avail, Within, Millis, Reach;
    FirstRequest(s0, first, f);
    RunStaysWithin(s0.(last := first), es, f, first, Tally(0, 1, first), true);
  }

  /* ---------- without the condition ---------- */

  /** A request and a frame for each of the lengths, all at the same time. */
  function Burst(now: Time, lens: seq<nat>): (r: seq<Event>)
    ensures forall e :: e in r && e.Ask? ==> e.now == now
    decreases |lens|
  {
    if lens == [] then [] else [Ask(now), Frame(lens[0])] + Burst(now, lens[1..])
  }

  function Sum(lens: seq<nat>): nat
    decreases |lens|
  {
    if lens == [] then 0 else lens[0] + Sum(lens[1..])
  }

  /** Whether a request 999 milliseconds after the last reset is accepted when b bytes have been counted since. */
  predicate Room(s: State, b: nat) {
    Ulong(s.wide, Ulong(s.wide, b) * 1000) < Allowance(s.maxSpeed + 1, 999)
  }

  function Counted(s: State, b: nat): State {
    s.(bytes := Ulong(s.wide, b))
  }

  /** All of a burst at that time is let through when b bytes have been counted before it. */
  ghost predicate Passes(s: State, b: nat, lens: seq<nat>, f: nat)
    decreases |lens|
  {
    lens == [] || (Room(s, b) && lens[0] <= f && Passes(s, b + lens[0], lens[1..], f))
  }

  lemma RoomAccepts(s: State, b: nat, now: Time)
    requires s.Valid() && now.Valid() && s.last == Time(now.sec, 0) && now.usec == 999000 && Room(s, b)
    ensures Avail(Counted(s, b), now) == (Counted(s, b), true)
  {
    assert TimerSub(now, s.last) == Time(0, 999000) && Tv2Ms(s.wide, Time(0, 999000)) == 999;
    hide Ulong, Tv2Ms;
    var a, k := Ulong(s.wide, Ulong(s.wide, b) * 1000), s.maxSpeed + 1;
    assert a < k * 999;
    assert a / 999 < k;
  }

  lemma CountMore(s: State, b: nat, n: nat)
    requires s.Valid()
    ensures Counted(s, b).Valid() && Counted(s, b).last == s.last && Count(Counted(s, b), n) == Counted(s, b + n)
  {
  }

  lemma {:induction false} BurstRuns(s: State, b: nat, lens: seq<nat>, f: nat, t: Tally, now: Time, open: bool)
    requires s.Valid() && Passes(s, b, lens, f) && t.clock.Valid() && t.clock.Micros() <= now.Micros()
    requires now.Valid() && s.last == Time(now.sec, 0) && now.usec == 999000
    ensures Counted(s, b).Valid()
    ensures Run(Counted(s, b), Burst(now, lens), f, t.clock, open)
    ensures Account(Counted(s, b), Burst(now, lens), t)
      == t.(total := t.total + Sum(lens), clock := if lens == [] then t.clock else now)
    decreases |lens|
  {
    hide Avail, Ulong, Room, Count, Counted;
    CountMore(s, b, 0);
    if lens != [] {
      RoomAccepts(s, b, now);
      CountMore(s, b, lens[0]);
      var es, t' := Burst(now, lens[1..]), t.(clock := now, total := t.total + lens[0]);
      BurstRuns(s, b + lens[0], lens[1..], f, t', now, false);
      assert Burst(now, lens)[1..] == [Frame(lens[0])] + es;
      assert ([Frame(lens[0])] + es)[1..] == es;
      var s1 := Counted(s, b);
      assert Account(s1, Burst(now, lens), t) == Account(s1, [Frame(lens[0])] + es, t.(clock := now));
      assert Account(s1, [Frame(lens[0])] + es, t.(clock := now)) == Account(Counted(s, b + lens[0]), es, t');
    }
  }

  function Ones(k: nat): (r: seq<nat>)
    ensures |r| == k
  {
    if k == 0 then [] else [1] + Ones(k - 1)
  }

  /** Single bytes, as long as there is room for each of them. */
  lemma {:induction false} PassOnes(s: State, b: nat, k: nat, rest: seq<nat>, f: nat)
    requires f >= 1 && (forall i :: b <= i < b + k ==> Room(s, i)) && Passes(s, b + k, rest, f)
    ensures Passes(s, b, Ones(k) + rest, f) && Sum(Ones(k) + rest) == k + Sum(rest)
    decreases k
  {
    hide Room, Passes, Sum;
    if k == 0 {
      assert Ones(k) + rest == rest;
    } else {
      PassOnes(s, b + 1, k - 1, rest, f);
      PassFrame(s, b, 1, Ones(k - 1) + rest, f);
      assert Ones(k) + rest == [1] + (Ones(k - 1) + rest);
    }
  }

  /** The fewest bytes whose thousandfold does not fit an unsigned long. */
  function Overflow(wide: bool): nat {
    Max(wide) / 1000 + 1
  }

  lemma RoomBelow(s: State, i: nat)
    requires i <= Reach(s.maxSpeed) && 1000 * i <= Max(s.wide)
    ensures Room(s, i)
  {
  }

  /** Once the product has wrapped there is as much room again. */
  lemma RoomAbove(s: State, i: nat)
    requires Overflow(s.wide) <= i < Overflow(s.wide) + Overflow(s.wide) - 1
    requires 1000 * (i - Overflow(s.wide)) + 704 < Allowance(s.maxSpeed + 1, 999)
    ensures Room(s, i)
  {
    assert i <= Max(s.wide) && Max(s.wide) < 1000 * i <= 2 * Max(s.wide) + 1;
    assert 1000 * i - Max(s.wide) - 1 <= 1000 * (i - Overflow(s.wide)) + 704;
    hide Allowance;
    WrapsOnce(s.wide, 1000 * i);
    hide Ulong, Max, Overflow;
  }

  lemma WrapsOnce(wide: bool, n: nat)
    requires Max(wide) < n <= 2 * Max(wide) + 1
    ensures Ulong(wide, n) == n - Max(wide) - 1
  {
  }

  /** Where there is always room a burst may be as long as it likes. */
  lemma OpenBurst(s: State, n: nat, f: nat) returns (lens: seq<nat>)
    requires f >= 1 && forall i :: 0 <= i < n ==> Room(s, i)
    ensures Passes(s, 0, lens, f) && Sum(lens) == n
  {
    hide Passes, Room;
    NothingPasses(s, n, f);
    PassOnes(s, 0, n, [], f);
    lens := Ones(n) + [];
  }

  /** Single bytes up to r, a frame that jumps to o, k single bytes more, and a last frame. */
  lemma JumpingBurst(s: State, r: nat, o: nat, k: nat, f: nat) returns (lens: seq<nat>)
    requires f >= 1 && r < o <= r + f
    requires (forall i :: 0 <= i <= r ==> Room(s, i)) && forall i :: o <= i <= o + k ==> Room(s, i)
    ensures Passes(s, 0, lens, f) && Sum(lens) == o + k + f
  {
    hide Room, Passes, Sum;
    NothingPasses(s, o + k + f, f);
    PassFrame(s, o + k, f, [], f);
    var last := [f] + [];
    PassOnes(s, o, k, last, f);
    var upper := Ones(k) + last;
    PassFrame(s, r, o - r, upper, f);
    var jump := [o - r] + upper;
    PassOnes(s, 0, r, jump, f);
    lens := Ones(r) + jump;
  }

  /** A burst of more than max_speed + 1 + f bytes in less than a second. */
  lemma WrappingBurst(s: State, f: nat) returns (lens: seq<nat>)
    requires f >= 1 && 1000 * (Reach(s.maxSpeed) + f) > Max(s.wide)
    ensures Passes(s, 0, lens, f) && Sum(lens) > s.maxSpeed + 1 + f
  {
    var n, r, o := s.maxSpeed + 2 + f, Reach(s.maxSpeed), Overflow(s.wide);
    if Allowance(s.maxSpeed + 1, 999) > Max(s.wide) {
      forall i | 0 <= i < n ensures Room(s, i) {
      }
      hide *;
      lens := OpenBurst(s, n, f);
    } else {
      var k := if r == 0 then 0 else r - 1;
      EnoughRoom(s, k);
      forall i | 0 <= i <= r ensures Room(s, i) {
        RoomBelow(s, i);
      }
      forall i | o <= i <= o + k ensures Room(s, i) {
        RoomAbove(s, i);
      }
      assert o <= r + f;
      hide *;
      lens := JumpingBurst(s, r, o, k, f);
    }
  }

  lemma EnoughRoom(s: State, k: nat)
    requires Allowance(s.maxSpeed + 1, 999) <= Max(s.wide) && k + 1 >= Reach(s.maxSpeed)
    ensures Reach(s.maxSpeed) < Overflow(s.wide) && Overflow(s.wide) + k > s.maxSpeed + 1
  {
  }

  lemma NothingPasses(s: State, b: nat, f: nat)
    ensures Passes(s, b, [], f) && Sum([]) == 0
  {
  }

  lemma PassFrame(s: State, b: nat, len: nat, rest: seq<nat>, f: nat)
    requires Room(s, b) && len <= f && Passes(s, b + len, rest, f)
    ensures Passes(s, b, [len] + rest, f) && Sum([len] + rest) == len + Sum(rest)
  {
    assert ([len] + rest)[1..] == rest;
  }

  /** A run that breaks the bound. */
  lemma BoundBreaks(wide: bool, maxSpeed: nat, f: nat) returns (first: Time, es: seq<Event>)
    requires maxSpeed <= Max(wide) && f >= 1 && 1000 * (Reach(maxSpeed) + f) > Max(wide)
    ensures var s0 := State(wide, 0, maxSpeed, Time(0, 0)); Starts(s0, first, es, f) && !Bounded(s0, first, es, f)
  {
    hide Avail, Passes, Reach, Run, Account, Sum;
    var s0, now := State(wide, 0, maxSpeed, Time(0, 0)), Time(1, 999000);
    first := Time(1, 0);
    FirstRequest(s0, first, f);
    var s := s0.(last := first);
    var lens := WrappingBurst(s, f);
    es := Burst(now, lens);
    assert Counted(s, 0) == s;
    BurstRuns(s, 0, lens, f, Tally(0, 1, first), now, true);
    assert Millis(first, now) == 999;
  }

  /** Main result: the bound holds of every run with frames of at most f bytes exactly if the largest count
      that can be reached within a second, times 1000, fits an unsigned long. */
  lemma RateBoundExactly(wide: bool, maxSpeed: nat, f: nat)
    requires maxSpeed <= Max(wide) && f >= 1
    ensures var s0 := State(wide, 0, maxSpeed, Time(0, 0));
      (forall first, es {:trigger Starts(s0, first, es, f)} :: Starts(s0, first, es, f) ==> Bounded(s0, first, es, f))
      <==> 1000 * (Reach(maxSpeed) + f) <= Max(wide)
  {
    hide Starts, Bounded, Reach, Max;
    var s0 := State(wide, 0, maxSpeed, Time(0, 0));
    if 1000 * (Reach(maxSpeed) + f) <= Max(wide) {
      forall first, es | Starts(s0, first, es, f) ensures Bounded(s0, first, es, f) {
        RateBound(s0, first, es, f);
      }
    } else {
      var first, es := BoundBreaks(wide, maxSpeed, f);
    }
  }

  /** With 64-bit counters that is so for every speed a host can be configured with. */
  lemma ConfiguredSpeed(spdOut: int, f: nat)
    requires 0 <= spdOut < 0x8000_0000 && f < 0x1_0000_0000
    ensures 1000 * (Reach(MaxSpeed(true, spdOut)) + f) <= Max(true)
  {
    var m := MaxSpeed(true, spdOut);
    assert m == spdOut / 8 * 1024 + 400;
    assert Allowance(m + 1, 999) == 999 * m + 999;
  }

  /* ---------- the configured rate ---------- */

  /** A speed in kilobits makes that many times 128 bytes, to within a kilobyte, and 400 more. */
  lemma SpeedConfigured(wide: bool, spdOut: int)
    requires 0 <= spdOut && 128 * spdOut + 400 <= Max(wide)
    ensures 8 * MaxSpeed(wide, spdOut) <= 1024 * spdOut + 3200 < 8 * MaxSpeed(wide, spdOut) + 8192
  {
    hide Eighth;
    var k := Eighth(spdOut);
    assert Ulong(wide, k * 1024) == k * 1024;
  }

  /** Main result: the shaper as shaper_init leaves it, with the speed spd_out configured, lets no more through than
      that speed allows, plus 401 bytes a second. */
  lemma ConfiguredRate(spdOut: int, first: Time, es: seq<Event>, f: nat)
    requires 0 <= spdOut < 0x8000_0000 && f < 0x1_0000_0000
    requires Starts(State(true, 0, MaxSpeed(true, spdOut), Time(0, 0)), first, es, f)
    ensures var t := Account(Avail(State(true, 0, MaxSpeed(true, spdOut), Time(0, 0)), first).0, es, Tally(0, 1, first));
      && t.clock.Micros() >= first.Micros()
      && 8000 * t.total <= (1024 * spdOut + 3208) * (Millis(first, t.clock) + t.windows) + 8000 * f
  {
    hide Avail, Account, Run, Millis, MaxSpeed, Reach;
    var s0 := State(true, 0, MaxSpeed(true, spdOut), Time(0, 0));
    ConfiguredSpeed(spdOut, f);
    RateBound(s0, first, es, f);
    SpeedConfigured(true, spdOut);
    var t := Account(Avail(s0, first).0, es, Tally(0, 1, first));
    EightTimes(s0.maxSpeed + 1, 1024 * spdOut + 3208, Millis(first, t.clock) + t.windows);
  }

  lemma EightTimes(a: nat, b: nat, n: nat)
    requires 8 * a <= b
    ensures 8 * Allowance(a, n) <= b * n
  {
    assert 8 * (a * n) == (8 * a) * n;
  }

  /** An answer, without division: a request is accepted exactly if the bytes counted since the last reset do not
      exceed what the speed makes of the whole milliseconds since, one at least; and an accepted one resets exactly
      in a later second. */
  lemma AvailExactly(s: State, now: Time)
    requires s.Valid() && now.Valid() && now.Micros() >= s.last.Micros()
    requires s.bytes * 1000 <= Max(s.wide) && Millis(s.last, now) <= Max(s.wide)
    ensures var ms := if Millis(s.last, now) == 0 then 1 else Millis(s.last, now);
      Avail(s, now) ==
        if 1000 * s.bytes < (s.maxSpeed + 1) * ms then
          (if now.sec > s.last.sec then s.(last := now, bytes := 0) else s, true)
        else (s, false)
  {
    hide Tv2Ms, Millis, TimerSub, Quotient;
    var ms := Tv2Ms(s.wide, TimerSub(now, s.last));
    WholeMillis(s, now);
    var a, m := s.bytes * 1000, s.maxSpeed;
    Division(a, ms, m);
  }

  lemma WholeMillis(s: State, now: Time)
    requires s.Valid() && now.Valid() && now.Micros() >= s.last.Micros() && Millis(s.last, now) <= Max(s.wide)
    ensures Tv2Ms(s.wide, TimerSub(now, s.last)) == if Millis(s.last, now) == 0 then 1 else Millis(s.last, now)
  {
  }

  lemma Division(a: nat, b: nat, m: nat)
    requires b > 0
    ensures Quotient(a, b) <= m <==> a < (m + 1) * b
  {
    var q := a / b;
    assert a == q * b + a % b;
    if q <= m {
      assert (q + 1) * b <= (m + 1) * b;
    } else {
      assert (m + 1) * b <= q * b;
    }
  }
}
