/** Keep-alive monitoring (sig_alarm and the loop of lfd_linker in linkfd.c). */
module KeepAlive {

  const STAT_IVAL := 5 * 60

  /** The host's settings. */
  datatype Settings = Settings(keepAlive: bool, stat: bool, interval: int, maxfail: int)

  /** The static timers, the flag set by the signal handler, and the local `idle`. */
  datatype State = State(idle: int, needVerify: bool, kaTimer: int, statTimer: int, tm: int)

  /** sig_alarm at time `now`: the new state and the seconds it passes to alarm(). */
  function SigAlarm(h: Settings, s: State, now: int): (State, int) {
    var elapsed := now - s.tm;
    var s1 := s.(tm := now);
    var s2 :=
      if !h.keepAlive then s1
      else if s.kaTimer - elapsed <= 0 then s1.(needVerify := true, kaTimer := h.interval + 1)
      else s1.(kaTimer := s.kaTimer - elapsed);
    var s3 :=
      if !h.stat then s2
      else if s.statTimer - elapsed <= 0 then s2.(statTimer := STAT_IVAL)
      else s2.(statTimer := s.statTimer - elapsed);
    var n :=
      if s3.kaTimer * s3.statTimer != 0 then (if s3.kaTimer < s3.statTimer then s3.kaTimer else s3.statTimer)
      else if s3.kaTimer != 0 then s3.kaTimer
      else s3.statTimer;
    (s3, n)
  }

  /** What a pass of the loop does about a pending verify. */
  datatype Verdict = Nothing | Quiet | Echo | Timeout

  function Verify(h: Settings, s: State): (State, Verdict) {
    if !s.needVerify then (s, Nothing)
    else if s.idle > h.maxfail then (s, Timeout)
    else (s.(idle := s.idle + 1, needVerify := false), if s.idle > 0 then Echo else Quiet)
  }

  /** A frame from the network. */
  function Input(s: State): State {
    s.(idle := 0, needVerify := false)
  }

  class Monitor {
    const h: Settings
    var idle: int
    var needVerify: bool
    var kaTimer: int
    var statTimer: int
    var tm: int

    function Current(): State
      reads this
    {
      State(idle, needVerify, kaTimer, statTimer, tm)
    }

    /** The statics before the first session. */
    constructor (h: Settings)
      ensures this.h == h && Current() == State(0, false, 0, 0, 0)
    {
      this.h := h;
      idle, needVerify, kaTimer, statTimer, tm := 0, false, 0, 0, 0;
    }

    method OnAlarm(now: int) returns (n: int)
      modifies this
      ensures (Current(), n) == SigAlarm(h, old(Current()), now)
    {
      var tmOld := tm;
      tm := now;
      if h.keepAlive {
        kaTimer := kaTimer - (tm - tmOld);
        if kaTimer <= 0 {
          needVerify := true;
          kaTimer := h.interval + 1;
        }
      }
      if h.stat {
        statTimer := statTimer - (tm - tmOld);
        if statTimer <= 0 {
          statTimer := STAT_IVAL;
        }
      }
      if kaTimer * statTimer != 0 {
        n := if kaTimer < statTimer then kaTimer else statTimer;
      } else {
        n := if kaTimer != 0 then kaTimer else statTimer;
      }
    }

    /** The verify block of the loop; Timeout breaks out of it. */
    method OnPass() returns (v: Verdict)
      modifies this`idle, this`needVerify
      ensures (Current(), v) == Verify(h, old(Current()))
    {
      v := Nothing;
      if needVerify {
        if idle > h.maxfail {
          return Timeout;
        }
        v := if idle > 0 then Echo else Quiet;
        idle := idle + 1;
        needVerify := false;
      }
    }

    method OnInput()
      modifies this`idle, this`needVerify
      ensures Current() == Input(old(Current()))
    {
      idle := 0;
      needVerify := false;
    }
  }

  /* ---------- counting verifies ---------- */

  /** What happens while nothing comes from the network: alarms, and passes of the loop. */
  datatype Event = Alarm(now: int) | Pass(now: int)

  /** Verifies, echo requests, and whether the link was dropped. */
  datatype Count = Count(verifies: nat, echoes: nat, dropped: bool)

  function Step(h: Settings, s: State, c: Count, e: Event): (State, Count) {
    match e
    case Alarm(now) => (SigAlarm(h, s, now).0, c)
    case Pass(now) =>
      var (s', v) := Verify(h, s);
      (s', match v
           case Nothing => c
           case Quiet => c.(verifies := c.verifies + 1)
           case Echo => c.(verifies := c.verifies + 1, echoes := c.echoes + 1)
           case Timeout => c.(verifies := c.verifies + 1, dropped := true))
  }

  function Run(h: Settings, s: State, c: Count, es: seq<Event>): (State, Count)
    decreases |es|
  {
    if es == [] || c.dropped then (s, c)
    else
      var (s', c') := Step(h, s, c, es[0]);
      Run(h, s', c', es[1..])
  }

  ghost predicate Counted(h: Settings, s: State, c: Count) {
    if c.dropped then c.verifies == h.maxfail + 2 && c.echoes == h.maxfail
    else s.idle == c.verifies <= h.maxfail + 1 && c.echoes == if c.verifies == 0 then 0 else c.verifies - 1
  }

  /** Main result: whatever the alarms and passes after a frame from the network, the link is dropped at the
      (ka_maxfail + 2)-th verify and not before, after exactly ka_maxfail echo requests. */
  lemma {:induction false} DroppedExactly(h: Settings, s: State, c: Count, es: seq<Event>)
    requires h.maxfail >= 0 && Counted(h, s, c)
    ensures Counted(h, Run(h, s, c, es).0, Run(h, s, c, es).1)
    decreases |es|
  {
    if es != [] && !c.dropped {
      hide SigAlarm;
      AlarmKeepsIdle(h, s, es[0].now);
      var (s', c') := Step(h, s, c, es[0]);
      DroppedExactly(h, s', c', es[1..]);
    }
  }

  lemma AlarmKeepsIdle(h: Settings, s: State, now: int)
    ensures SigAlarm(h, s, now).0.idle == s.idle
  {
  }

  /* ---------- how long a dead peer goes unnoticed ---------- */

  /** The clock, the time the pending alarm goes off, and the time select() returns at the latest. */
  datatype Clock = Clock(now: int, alarm: int, deadline: int)

  /** Alarms go off exactly when they are due, no pass comes after the deadline of select(), and an alarm
      interrupts select(), which is then started again. */
  predicate Possible(k: Clock, e: Event) {
    && k.now <= e.now <= k.deadline && e.now <= k.alarm
    && (e.Alarm? ==> e.now == k.alarm)
  }

  function Tick(h: Settings, s: State, k: Clock, e: Event): Clock {
    match e
    case Alarm(now) => Clock(now, now + SigAlarm(h, s, now).1, now + h.interval)
    case Pass(now) => Clock(now, k.alarm, now + h.interval)
  }

  predicate PossibleRun(h: Settings, s: State, c: Count, k: Clock, es: seq<Event>)
    decreases |es|
  {
    es == [] || c.dropped ||
    (Possible(k, es[0]) &&
     var (s', c') := Step(h, s, c, es[0]);
     PossibleRun(h, s', c', Tick(h, s, k, es[0]), es[1..]))
  }

  /** The time of the last event before the link is dropped. */
  function TimeAfter(h: Settings, s: State, c: Count, k: Clock, es: seq<Event>): int
    decreases |es|
  {
    if es == [] || c.dropped then k.now
    else
      var (s', c') := Step(h, s, c, es[0]);
      TimeAfter(h, s', c', Tick(h, s, k, es[0]), es[1..])
  }

  function Later(a: int, b: int): int {
    if a < b then b else a
  }

  /** n times the period of the alarms. */
  function Periods(h: Settings, n: int): int {
    n * (h.interval + 1)
  }

  lemma NextPeriod(h: Settings, n: int)
    ensures Periods(h, n + 1) == Periods(h, n) + h.interval + 1
    ensures Periods(h, 1) == h.interval + 1
  {
  }

  /** The settings under which the bound is stated. */
  predicate Watching(h: Settings) {
    h.keepAlive && !h.stat && h.interval >= 1 && h.maxfail >= 0
  }

  /** The next verify will be requested within a period from now. */
  predicate Prompt(h: Settings, s: State, k: Clock) {
    && s.statTimer == 0 && s.tm <= k.now <= k.alarm && k.now <= k.deadline
    && Later(k.alarm, s.tm + s.kaTimer) <= k.now + h.interval + 1
  }

  /** A session starts that way, with alarm() set as linkfd sets it and the static timers zero. */
  lemma StartIsPrompt(h: Settings, now: int)
    requires Watching(h) && now >= 0
    ensures Prompt(h, State(0, false, 0, 0, 0),
                   Clock(now, now + if h.interval < STAT_IVAL then h.interval else STAT_IVAL, now + h.interval))
  {
  }

  /** It stays that way through every alarm and pass, and every frame from the network. */
  lemma StaysPrompt(h: Settings, s: State, k: Clock, c: Count, e: Event)
    requires Watching(h) && Prompt(h, s, k) && Possible(k, e)
    ensures Prompt(h, Step(h, s, c, e).0, Tick(h, s, k, e))
    ensures Prompt(h, Input(s), Clock(e.now, k.alarm, e.now + h.interval))
  {
  }

  /** The verify after `verifies` others is requested in time, and processed before the next is due. */
  ghost predicate OnTime(h: Settings, s: State, c: Count, k: Clock, since: int) {
    if c.dropped then k.now <= since + Periods(h, h.maxfail + 2) + h.interval
    else
      && s.statTimer == 0 && s.tm <= k.now <= k.alarm && k.now <= k.deadline
      && if s.needVerify then
           k.alarm == s.tm + s.kaTimer <= since + Periods(h, c.verifies + 2) && k.deadline < k.alarm
         else Later(k.alarm, s.tm + s.kaTimer) <= since + Periods(h, c.verifies + 1)
  }

  lemma AlarmKeepsOnTime(h: Settings, s: State, c: Count, k: Clock, since: int, now: int)
    requires Watching(h) && OnTime(h, s, c, k, since) && Possible(k, Alarm(now)) && !c.dropped
    ensures OnTime(h, SigAlarm(h, s, now).0, c, Tick(h, s, k, Alarm(now)), since)
  {
    hide Periods;
    NextPeriod(h, c.verifies + 1);
  }

  lemma PassKeepsOnTime(h: Settings, s: State, c: Count, k: Clock, since: int, now: int)
    requires Watching(h) && OnTime(h, s, c, k, since) && Possible(k, Pass(now)) && !c.dropped && Counted(h, s, c)
    ensures var (s', c') := Step(h, s, c, Pass(now)); OnTime(h, s', c', Tick(h, s, k, Pass(now)), since)
  {
    hide Periods;
    NextPeriod(h, h.maxfail + 2);
  }

  lemma {:induction false} RunIsOnTime(h: Settings, s: State, c: Count, k: Clock, since: int, es: seq<Event>)
    requires Watching(h) && OnTime(h, s, c, k, since) && Counted(h, s, c) && PossibleRun(h, s, c, k, es)
    ensures TimeAfter(h, s, c, k, es) <= since + Periods(h, h.maxfail + 2) + h.interval
    decreases |es|
  {
    hide Periods;
    if es == [] || c.dropped {
      if !c.dropped {
        AtMost(h, c.verifies + 1, h.maxfail + 2);
        NextPeriod(h, c.verifies + 1);
      }
    } else {
      hide SigAlarm;
      AlarmKeepsIdle(h, s, es[0].now);
      match es[0] {
        case Alarm(now) => AlarmKeepsOnTime(h, s, c, k, since, now);
        case Pass(now) => PassKeepsOnTime(h, s, c, k, since, now);
      }
      var (s', c') := Step(h, s, c, es[0]);
      RunIsOnTime(h, s', c', Tick(h, s, k, es[0]), since, es[1..]);
    }
  }

  lemma AtMost(h: Settings, m: int, n: int)
    requires m <= n && h.interval >= 1
    ensures Periods(h, m) <= Periods(h, n)
  {
    assert (n - m) * (h.interval + 1) >= 0;
  }

  /** Main result: with statistics off and exact alarms, a peer that falls silent is dropped: from the last
      frame on, no event happens later than (ka_maxfail + 2) * (ka_interval + 1) + ka_interval seconds after it
      unless the link was dropped before, and the drop itself is no later. */
  lemma DeadPeerDropped(h: Settings, s: State, k: Clock, es: seq<Event>)
    requires Watching(h) && Prompt(h, s, k)
    requires PossibleRun(h, Input(s), Count(0, 0, false), k, es)
    ensures TimeAfter(h, Input(s), Count(0, 0, false), k, es)
      <= k.now + (h.maxfail + 2) * (h.interval + 1) + h.interval
  {
    NextPeriod(h, 0);
    RunIsOnTime(h, Input(s), Count(0, 0, false), k, k.now, es);
  }

  /** The event that comes at the latest, if no other comes before. */
  function Next(k: Clock): Event {
    if k.alarm <= k.deadline then Alarm(k.alarm) else Pass(k.deadline)
  }

  /** What must be over before the time can be later. */
  function Due(k: Clock): nat {
    if k.now < k.alarm && k.now < k.deadline then 0 else 1
  }

  /** While the link is not dropped there is always a possible event, and after it the time is later or nothing
      is due any more. */
  lemma TimeAdvances(h: Settings, s: State, c: Count, k: Clock, since: int)
    requires Watching(h) && OnTime(h, s, c, k, since) && !c.dropped
    ensures var e := Next(k); var k' := Tick(h, s, k, e);
      Possible(k, e) && k.now <= k'.now && (k'.now == k.now ==> Due(k') < Due(k))
  {
  }

  /** The time the link is dropped at the latest. */
  function Limit(h: Settings, since: int): int {
    since + Periods(h, h.maxfail + 2) + h.interval
  }

  lemma NotYet(h: Settings, s: State, c: Count, k: Clock, since: int)
    requires Watching(h) && OnTime(h, s, c, k, since) && Counted(h, s, c)
    ensures k.now <= Limit(h, since)
  {
    RunIsOnTime(h, s, c, k, since, []);
  }

  /** From then on the link can be brought to be dropped, by events that are all possible. */
  lemma DropFollows(h: Settings, s: State, c: Count, k: Clock, since: int) returns (es: seq<Event>)
    requires Watching(h) && OnTime(h, s, c, k, since) && Counted(h, s, c)
    ensures PossibleRun(h, s, c, k, es) && Run(h, s, c, es).1.dropped
    decreases 2 * (Limit(h, since) - k.now) + Due(k)
  {
    NotYet(h, s, c, k, since);
    if c.dropped {
      es := [];
    } else {
      hide Periods, SigAlarm, Limit;
      TimeAdvances(h, s, c, k, since);
      var e := Next(k);
      var (s', c') := Step(h, s, c, e);
      var k' := Tick(h, s, k, e);
      StepKeepsOnTime(h, s, c, k, since, e);
      NotYet(h, s', c', k', since);
      var rest := DropFollows(h, s', c', k', since);
      es := [e] + rest;
      assert es[1..] == rest;
    }
  }

  lemma StepKeepsOnTime(h: Settings, s: State, c: Count, k: Clock, since: int, e: Event)
    requires Watching(h) && OnTime(h, s, c, k, since) && Counted(h, s, c) && Possible(k, e) && !c.dropped
    ensures var (s', c') := Step(h, s, c, e); OnTime(h, s', c', Tick(h, s, k, e), since) && Counted(h, s', c')
  {
    hide Periods;
    match e {
      case Alarm(now) => AlarmKeepsOnTime(h, s, c, k, since, now);
      case Pass(now) => PassKeepsOnTime(h, s, c, k, since, now);
    }
    AlarmKeepsIdle(h, s, e.now);
  }

  /** The states a run leads to are on time. */
  lemma {:induction false} RunKeepsOnTime(h: Settings, s: State, c: Count, k: Clock, since: int, es: seq<Event>)
    returns (s': State, c': Count, k': Clock)
    requires Watching(h) && OnTime(h, s, c, k, since) && Counted(h, s, c) && PossibleRun(h, s, c, k, es)
    ensures OnTime(h, s', c', k', since) && Counted(h, s', c') && Run(h, s, c, es) == (s', c')
    ensures forall more :: PossibleRun(h, s', c', k', more) ==>
      PossibleRun(h, s, c, k, es + more) && Run(h, s, c, es + more) == Run(h, s', c', more)
    decreases |es|
  {
    if es == [] || c.dropped {
      s', c', k' := s, c, k;
      forall more ensures es == [] ==> es + more == more {
      }
      hide OnTime, Counted;
    } else {
      hide Periods, OnTime, Counted, SigAlarm;
      StepKeepsOnTime(h, s, c, k, since, es[0]);
      var (s1, c1) := Step(h, s, c, es[0]);
      s', c', k' := RunKeepsOnTime(h, s1, c1, Tick(h, s, k, es[0]), since, es[1..]);
      forall more ensures (es + more)[1..] == es[1..] + more && (es + more)[0] == es[0] {
      }
    }
  }

  /** Main result: the drop does happen.  Whatever has happened since the last frame can go on, and it can only go
      on, until the link is dropped. */
  lemma DropHappens(h: Settings, s: State, k: Clock, es: seq<Event>) returns (more: seq<Event>)
    requires Watching(h) && Prompt(h, s, k)
    requires PossibleRun(h, Input(s), Count(0, 0, false), k, es)
    ensures PossibleRun(h, Input(s), Count(0, 0, false), k, es + more)
    ensures Run(h, Input(s), Count(0, 0, false), es + more).1.dropped
  {
    NextPeriod(h, 0);
    var s', c', k' := RunKeepsOnTime(h, Input(s), Count(0, 0, false), k, k.now, es);
    more := DropFollows(h, s', c', k', k.now);
  }

  /* ---------- the timers ---------- */

  /** One timer after `elapsed` seconds: run down, or started again at `period`. */
  predicate Ran(before: int, elapsed: int, period: int, after: int) {
    if before - elapsed > 0 then after == before - elapsed else after == period
  }

  /** An alarm runs both timers down, independently, requests a verify exactly when that of the keep-alive runs out,
      and asks for the next alarm when the first of the timers that are not zero runs out. */
  lemma AlarmRunsTimers(h: Settings, s: State, now: int)
    requires h.interval >= 0 && s.kaTimer >= 0 && s.statTimer >= 0
    ensures var (r, n) := SigAlarm(h, s, now);
      && r.tm == now && r.idle == s.idle
      && (if h.keepAlive then Ran(s.kaTimer, now - s.tm, h.interval + 1, r.kaTimer) else r.kaTimer == s.kaTimer)
      && (if h.stat then Ran(s.statTimer, now - s.tm, 300, r.statTimer) else r.statTimer == s.statTimer)
      && (r.needVerify <==> s.needVerify || (h.keepAlive && s.kaTimer <= now - s.tm))
      && (n == r.kaTimer || n == r.statTimer)
      && (r.kaTimer != 0 ==> n != 0 && n <= r.kaTimer) && (r.statTimer != 0 ==> n != 0 && n <= r.statTimer)
  {
    assert s.kaTimer - (now - s.tm) > 0 || h.interval + 1 > 0;
    Product(SigAlarm(h, s, now).0.kaTimer, SigAlarm(h, s, now).0.statTimer);
  }

  lemma Product(a: int, b: int)
    ensures a * b != 0 <==> a != 0 && b != 0
  {
  }

  /** The whole verify block: an echo is sent from the second verify on without input, and the idle count goes up
      with each; a frame makes it start again. */
  lemma VerifyBlock(h: Settings, s: State)
    ensures var (r, v) := Verify(h, s);
      && (v == Nothing <==> !s.needVerify) && (v == Timeout <==> s.needVerify && s.idle > h.maxfail)
      && (v == Nothing || v == Timeout ==> r == s)
      && (v == Quiet || v == Echo ==> r.idle == s.idle + 1 && !r.needVerify && (v == Echo <==> s.idle > 0))
      && r == s.(idle := r.idle, needVerify := r.needVerify)
      && Verify(h, Input(s)) == (Input(s), Nothing) && Input(s).idle == 0
  {
  }
}
