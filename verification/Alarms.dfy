/** TimeAlarms: six alarm slots, their next trigger times, and the pass that services them. */
module Alarms {
  import opened Machine
  import opened Calendar

  type time = t: int | 0 <= t < 0x1_0000_0000

  /** 32-bit arithmetic on times. */
  function Wrap(t: int): time {
    t % 0x1_0000_0000
  }

  // ---------- days and weeks (Time.h) ----------

  function PreviousMidnight(t: time): time {
    t / SECS_PER_DAY * SECS_PER_DAY
  }

  function NextMidnight(t: time): time {
    Wrap(PreviousMidnight(t) + SECS_PER_DAY)
  }

  function DayOfWeek(t: time): int {
    (t / SECS_PER_DAY + 4) % 7 + 1
  }

  function ElapsedSecsThisWeek(t: time): int {
    t % SECS_PER_DAY + (DayOfWeek(t) - 1) * SECS_PER_DAY
  }

  function PreviousSunday(t: time): time {
    Wrap(t - ElapsedSecsThisWeek(t))
  }

  function NextSunday(t: time): time {
    Wrap(PreviousSunday(t) + SECS_PER_WEEK)
  }

  /** The first Sunday of 1970. */
  const FIRST_SUNDAY := 3 * SECS_PER_DAY

  /** The start of the week is the last Sunday midnight not after `t`, from the first Sunday of 1970 on. */
  lemma PreviousSundayIsSunday(t: time)
    ensures PreviousSunday(t) <= t <==> t >= FIRST_SUNDAY
    ensures t >= FIRST_SUNDAY ==>
              var s := PreviousSunday(t);
              && t < s + SECS_PER_WEEK && s % SECS_PER_DAY == 0
              && (s - FIRST_SUNDAY) % SECS_PER_WEEK == 0 && DayOfWeek(s) == 1
  {
    var weeks := (t / SECS_PER_DAY + 4) / 7;
    PreviousSundayIs(t);
    hide PreviousSunday;
    if weeks >= 1 {
      SundayMidnight(weeks);
    }
  }

  lemma PreviousSundayIs(t: time)
    ensures var weeks := (t / SECS_PER_DAY + 4) / 7;
            && Sunday(weeks) <= t < Sunday(weeks + 1) && (weeks >= 1 <==> t >= FIRST_SUNDAY)
            && PreviousSunday(t) == if weeks >= 1 then Sunday(weeks) else Sunday(weeks) + 0x1_0000_0000
  {
    ElapsedSinceSunday(t);
    hide ElapsedSecsThisWeek;
  }

  /** Sunday number `weeks`, counting the first of 1970 as number 1. */
  function Sunday(weeks: int): int {
    SECS_PER_WEEK * weeks - 4 * SECS_PER_DAY
  }

  lemma ElapsedSinceSunday(t: time)
    ensures var weeks := (t / SECS_PER_DAY + 4) / 7;
            && ElapsedSecsThisWeek(t) == t - Sunday(weeks)
            && Sunday(weeks) <= t < Sunday(weeks + 1)
            && (weeks >= 1 <==> t >= FIRST_SUNDAY)
  {
    var day := t / SECS_PER_DAY;
    var weeks := (day + 4) / 7;
    assert day + 4 == 7 * weeks + (day + 4) % 7;
    assert t == day * SECS_PER_DAY + t % SECS_PER_DAY;
  }

  lemma SundayMidnight(weeks: nat)
    requires 1 <= weeks
    ensures Sunday(weeks) % SECS_PER_DAY == 0 && Sunday(weeks) / SECS_PER_DAY == 7 * weeks - 4
    ensures (Sunday(weeks) - FIRST_SUNDAY) % SECS_PER_WEEK == 0 && Sunday(weeks) >= 0
    ensures (7 * weeks - 4 + 4) % 7 == 0
  {
    assert Sunday(weeks) == (7 * weeks - 4) * SECS_PER_DAY;
    assert Sunday(weeks) - FIRST_SUNDAY == (weeks - 1) * SECS_PER_WEEK;
  }

  // ---------- slots ----------

  datatype Kind = NotAllocated | Timer | ExplicitAlarm | DailyAlarm | WeeklyAlarm

  /** One alarm; handler 0 is the null function. */
  datatype Slot = Slot(kind: Kind, enabled: bool, oneShot: bool, value: time, nextTrigger: time, handler: nat)

  const EMPTY := Slot(NotAllocated, false, false, 0, 0, 0)

  predicate IsAlarm(k: Kind) {
    k == ExplicitAlarm || k == DailyAlarm || k == WeeklyAlarm
  }

  /** What updateNextTrigger makes of a slot at time `now`. */
  function Updated(s: Slot, now: time): Slot {
    if s.value != 0 && s.enabled then
      if IsAlarm(s.kind) && s.nextTrigger <= now then s.(nextTrigger := NextAlarm(s.kind, s.value, now))
      else if s.kind == Timer then s.(nextTrigger := Wrap(now + s.value))
      else s
    else s.(enabled := false)
  }

  function NextAlarm(k: Kind, value: time, now: time): time
    requires IsAlarm(k)
  {
    match k
    case DailyAlarm =>
      if Wrap(value + PreviousMidnight(now)) <= now then Wrap(value + NextMidnight(now))
      else Wrap(value + PreviousMidnight(now))
    case WeeklyAlarm =>
      if Wrap(value + PreviousSunday(now)) <= now then Wrap(value + NextSunday(now))
      else Wrap(value + PreviousSunday(now))
    case _ => value
  }

  /** Setting the slot's next trigger does not run past the 32-bit clock, and the week has begun. */
  predicate NoWrap(s: Slot, now: time) {
    match s.kind
    case DailyAlarm => s.value + PreviousMidnight(now) + SECS_PER_DAY < 0x1_0000_0000
    case WeeklyAlarm => now >= FIRST_SUNDAY && s.value + PreviousSunday(now) + SECS_PER_WEEK < 0x1_0000_0000
    case Timer => now + s.value < 0x1_0000_0000
    case _ => true
  }

  // ---------- the next occurrence ----------

  /** Times congruent modulo a period are at least a period apart. */
  lemma Apart(u: int, v: int, period: int)
    requires period > 0 && u % period == v % period && v < u
    ensures v <= u - period
  {
    var n := u / period - v / period;
    assert u - v == n * period;
    Multiple(n, period);
  }

  lemma Multiple(n: int, period: int)
    requires period > 0
    ensures n <= 0 ==> n * period <= 0
    ensures n >= 1 ==> n * period >= period
  {
    if n >= 1 {
      assert (n - 1) * period >= 0;
    }
  }

  /** `u` lies `value` after `start`, give or take whole periods. */
  predicate Matches(u: int, value: int, start: int, period: int)
    requires period > 0
  {
    (u - value - start) % period == 0
  }

  /** `u` is the earliest matching time after `now`. */
  ghost predicate IsNext(u: int, now: int, value: int, start: int, period: int)
    requires period > 0
  {
    && u > now && Matches(u, value, start, period)
    && forall v :: now < v < u ==> !Matches(v, value, start, period)
  }

  lemma MidnightBefore(t: time)
    ensures t == PreviousMidnight(t) + t % SECS_PER_DAY && PreviousMidnight(t) % SECS_PER_DAY == 0
  {
  }

  /** A daily alarm is set for its next occurrence just when its value does not lead the clock by a whole day. */
  lemma DailyNextOccurrence(s: Slot, now: time)
    requires s.kind == DailyAlarm && s.enabled && s.value != 0 && s.nextTrigger <= now && NoWrap(s, now)
    ensures now < Updated(s, now).nextTrigger
    ensures IsNext(Updated(s, now).nextTrigger, now, s.value, 0, SECS_PER_DAY) <==>
            s.value - SECS_PER_DAY <= now % SECS_PER_DAY
  {
    MidnightBefore(now);
    hide PreviousMidnight, IsNext;
    NextInPeriod(now, s.value, PreviousMidnight(now), 0, SECS_PER_DAY);
  }

  /** And a weekly one, counting from Sunday midnight. */
  lemma WeeklyNextOccurrence(s: Slot, now: time)
    requires s.kind == WeeklyAlarm && s.enabled && s.value != 0 && s.nextTrigger <= now && NoWrap(s, now)
    ensures now < Updated(s, now).nextTrigger
    ensures IsNext(Updated(s, now).nextTrigger, now, s.value, FIRST_SUNDAY, SECS_PER_WEEK) <==>
            s.value - SECS_PER_WEEK <= now - PreviousSunday(now)
  {
    PreviousSundayIsSunday(now);
    hide PreviousSunday, DayOfWeek, IsNext;
    NextInPeriod(now, s.value, PreviousSunday(now), FIRST_SUNDAY, SECS_PER_WEEK);
  }

  lemma NextInPeriod(now: int, value: int, begin: int, start: int, period: int)
    requires period == SECS_PER_DAY || period == SECS_PER_WEEK
    requires begin <= now < begin + period && (begin - start) % period == 0 && value > 0
    ensures var u := if value + begin <= now then value + begin + period else value + begin;
            now < u && (IsNext(u, now, value, start, period) <==> value - period <= now - begin)
  {
    var u := if value + begin <= now then value + begin + period else value + begin;
    MatchesNear(begin, value, start, period);
    hide Matches;
    if value - period <= now - begin {
      forall v | now < v < u ensures !Matches(v, value, start, period) {
        MatchesApart(u, v, value, start, period);
      }
    }
  }

  lemma MatchesNear(begin: int, value: int, start: int, period: int)
    requires period == SECS_PER_DAY || period == SECS_PER_WEEK
    requires (begin - start) % period == 0
    ensures Matches(value + begin, value, start, period)
    ensures Matches(value + begin + period, value, start, period)
    ensures Matches(value + begin - period, value, start, period)
  {
    if period == SECS_PER_DAY {
      ShiftedByDay(begin - start);
    } else {
      ShiftedByWeek(begin - start);
    }
    assert value + begin - value - start == begin - start;
    assert value + begin + period - value - start == begin - start + period;
    assert value + begin - period - value - start == begin - start - period;
  }

  lemma ShiftedByDay(n: int)
    requires n % SECS_PER_DAY == 0
    ensures (n + SECS_PER_DAY) % SECS_PER_DAY == 0 && (n - SECS_PER_DAY) % SECS_PER_DAY == 0
  {
  }

  lemma ShiftedByWeek(n: int)
    requires n % SECS_PER_WEEK == 0
    ensures (n + SECS_PER_WEEK) % SECS_PER_WEEK == 0 && (n - SECS_PER_WEEK) % SECS_PER_WEEK == 0
  {
  }

  lemma MatchesApart(u: int, v: int, value: int, start: int, period: int)
    requires period > 0 && Matches(u, value, start, period) && u - period < v < u
    ensures !Matches(v, value, start, period)
  {
    if Matches(v, value, start, period) {
      Apart(u - value - start, v - value - start, period);
    }
  }

  // ---------- the slots ----------

  /** Enabled slots are allocated, with a value and a handler; free slots are blank. */
  predicate SlotOk(s: Slot) {
    && (s.enabled ==> s.kind != NotAllocated && s.value != 0 && s.handler != 0)
    && (s.kind == NotAllocated ==> !s.enabled && s.value == 0 && s.nextTrigger == 0 && s.handler == 0)
    && (s.kind == ExplicitAlarm ==> s.oneShot)
  }

  function Freed(s: Slot): Slot {
    if s.kind == NotAllocated then s else Slot(NotAllocated, false, s.oneShot, 0, 0, 0)
  }

  function Enabled(s: Slot, now: time): Slot {
    if s.kind == NotAllocated then s else Updated(s.(enabled := s.value != 0 && s.handler != 0), now)
  }

  function Disabled(s: Slot): Slot {
    if s.kind == NotAllocated then s else s.(enabled := false)
  }

  function Written(s: Slot, value: time, now: time): Slot {
    if s.kind == NotAllocated then s else Enabled(s.(value := value), now)
  }

  function Created(s: Slot, value: time, handler: nat, oneShot: bool, kind: Kind, enable: bool, now: time): Slot {
    var s' := s.(handler := handler, oneShot := oneShot, kind := kind, value := value);
    if enable then Enabled(s', now) else Disabled(s')
  }

  predicate Due(s: Slot, now: time) {
    s.enabled && s.nextTrigger <= now
  }

  function Serviced(s: Slot, now: time): Slot {
    if !Due(s, now) then s else if s.oneShot then Freed(s) else Updated(s, now)
  }

  /** The handlers a pass runs: one for each due slot, in order. */
  function Fired(slots: seq<Slot>, now: time): seq<nat> {
    if slots == [] then []
    else Fired(slots[..|slots| - 1], now) +
         (var s := slots[|slots| - 1]; if Due(s, now) && s.handler != 0 then [s.handler] else [])
  }

  /** Every operation keeps every slot consistent. */
  lemma SlotsStayOk(s: Slot, value: time, handler: nat, oneShot: bool, kind: Kind, enable: bool, now: time)
    requires SlotOk(s) && kind != NotAllocated && (kind == ExplicitAlarm ==> oneShot)
    ensures SlotOk(Freed(s)) && SlotOk(Enabled(s, now)) && SlotOk(Disabled(s)) && SlotOk(Written(s, value, now))
    ensures SlotOk(Serviced(s, now))
    ensures SlotOk(Created(s, value, handler, oneShot, kind, enable, now))
  {
    hide NextAlarm, Wrap;
  }

  /** A due slot ends the pass freed, if it is a one-shot, or with its trigger in the future. */
  lemma ServicedIsFuture(s: Slot, now: time)
    requires SlotOk(s) && (Due(s, now) && !s.oneShot ==> NoWrap(s, now))
    ensures !Due(Serviced(s, now), now)
    ensures Due(s, now) && s.oneShot ==> Serviced(s, now).kind == NotAllocated
    ensures Due(s, now) && !s.oneShot ==>
              var t := Serviced(s, now).nextTrigger;
              t > now && Serviced(s, now) == s.(nextTrigger := t)
  {
    if Due(s, now) && !s.oneShot {
      if s.kind == DailyAlarm {
        DailyNextOccurrence(s, now);
      } else if s.kind == WeeklyAlarm {
        WeeklyNextOccurrence(s, now);
      }
    }
  }

  // ---------- when slots fall due ----------

  /** A repeating timer that is due comes due again its value later, and not before. */
  lemma TimerComesRound(s: Slot, now: time, t: time)
    requires s.kind == Timer && !s.oneShot && s.value != 0 && Due(s, now) && now + s.value < 0x1_0000_0000
    ensures now <= t ==> (Due(Serviced(s, now), t) <==> t >= now + s.value)
  {
  }

  /** A timer runs its value from when it is created, enabled or given a new value; with value 0 it never does. */
  lemma TimerRunsItsValue(s: Slot, value: time, handler: nat, oneShot: bool, now: time, t: time)
    requires now + value < 0x1_0000_0000 && handler != 0
    ensures Due(Created(s, value, handler, oneShot, Timer, true, now), t) <==> value != 0 && t >= now + value
    ensures s.kind == Timer && s.handler != 0 ==> (Due(Written(s, value, now), t) <==> value != 0 && t >= now + value)
    ensures s.kind == Timer && s.handler != 0 && s.value == value ==>
              (Due(Enabled(s, now), t) <==> value != 0 && t >= now + value)
  {
  }

  /** An explicit alarm falls due at its value; one that is still pending keeps its time, whatever is written. */
  lemma ExplicitAlarmWaits(s: Slot, value: time, handler: nat, now: time, t: time)
    requires value != 0 && handler != 0
    ensures s.nextTrigger <= now ==>
              (Due(Created(s, value, handler, true, ExplicitAlarm, true, now), t) <==> t >= value)
    ensures s.kind == ExplicitAlarm && s.handler != 0 ==>
              (Due(Written(s, value, now), t) <==> t >= if s.nextTrigger <= now then value else s.nextTrigger)
    ensures s.kind == ExplicitAlarm && s.handler != 0 && s.value == value ==>
              (Due(Enabled(s, now), t) <==> t >= if s.nextTrigger <= now then value else s.nextTrigger)
  {
  }

  /** A daily alarm created for a time of day falls due at the next time the clock shows it. */
  lemma DailyAlarmWaits(s: Slot, value: time, handler: nat, oneShot: bool, now: time, t: time, u: int)
    requires s.nextTrigger <= now && 0 < value <= 86400 && handler != 0 && now + 172800 < 0x1_0000_0000
    requires IsNext(u, now, value, 0, 86400)
    ensures Due(Created(s, value, handler, oneShot, DailyAlarm, true, now), t) <==> t >= u
  {
    var s' := Slot(DailyAlarm, true, oneShot, value, s.nextTrigger, handler);
    assert PreviousMidnight(now) <= now;
    DailyNextOccurrence(s', now);
    assert Created(s, value, handler, oneShot, DailyAlarm, true, now) == Updated(s', now);
    UpdatedStaysEnabled(s', now);
    hide Updated, IsNext, Created, NoWrap;
    OneNext(u, Updated(s', now).nextTrigger, now, value, 0, 86400);
  }

  /** And a weekly one, its value counted from Sunday midnight. */
  lemma WeeklyAlarmWaits(s: Slot, value: time, handler: nat, oneShot: bool, now: time, t: time, u: int)
    requires s.nextTrigger <= now && 0 < value <= 604800 && handler != 0
    requires 259200 <= now && now + 1209600 < 0x1_0000_0000
    requires IsNext(u, now, value, 259200, 604800)
    ensures Due(Created(s, value, handler, oneShot, WeeklyAlarm, true, now), t) <==> t >= u
  {
    var s' := Slot(WeeklyAlarm, true, oneShot, value, s.nextTrigger, handler);
    PreviousSundayIsSunday(now);
    hide PreviousSunday, DayOfWeek;
    WeeklyNextOccurrence(s', now);
    assert Created(s, value, handler, oneShot, WeeklyAlarm, true, now) == Updated(s', now);
    UpdatedStaysEnabled(s', now);
    hide Updated, IsNext, Created, NoWrap;
    OneNext(u, Updated(s', now).nextTrigger, now, value, 259200, 604800);
  }

  /** A repeating alarm that has run falls due again at the next time that matches. */
  lemma AlarmComesRound(s: Slot, now: time, t: time, u: int)
    requires Due(s, now) && !s.oneShot && s.value != 0 && now + 1209600 < 0x1_0000_0000
    ensures s.kind == DailyAlarm && s.value <= 86400 && IsNext(u, now, s.value, 0, 86400) ==>
              (Due(Serviced(s, now), t) <==> t >= u)
    ensures s.kind == WeeklyAlarm && s.value <= 604800 && now >= 259200 && IsNext(u, now, s.value, 259200, 604800) ==>
              (Due(Serviced(s, now), t) <==> t >= u)
  {
    UpdatedStaysEnabled(s, now);
    if s.kind == DailyAlarm && s.value <= 86400 && IsNext(u, now, s.value, 0, 86400) {
      assert PreviousMidnight(now) <= now;
      DailyNextOccurrence(s, now);
      hide Updated, IsNext, NoWrap;
      OneNext(u, Updated(s, now).nextTrigger, now, s.value, 0, 86400);
    }
    if s.kind == WeeklyAlarm && s.value <= 604800 && now >= 259200 && IsNext(u, now, s.value, 259200, 604800) {
      PreviousSundayIsSunday(now);
      hide PreviousSunday, DayOfWeek;
      WeeklyNextOccurrence(s, now);
      hide Updated, IsNext, NoWrap;
      OneNext(u, Updated(s, now).nextTrigger, now, s.value, 259200, 604800);
    }
  }

  lemma UpdatedStaysEnabled(s: Slot, now: time)
    requires s.enabled && s.value != 0
    ensures Updated(s, now).enabled
  {
  }

  lemma OneNext(u: int, v: int, now: int, value: int, start: int, period: int)
    requires period > 0 && IsNext(u, now, value, start, period) && IsNext(v, now, value, start, period)
    ensures u == v
  {
    hide Matches;
  }

  /** Weeks begin on the calendar's Sundays, of which 4 January 1970 was the first. */
  lemma WeeksBeginOnSunday(t: time)
    ensures DayOfWeek(t) == Weekday(t / 86400) && Weekday(259200 / 86400) == 1
  {
  }

  /** A slot that is disabled or freed is never due, nor is one without value or handler. */
  lemma NeverDue(s: Slot, now: time, t: time)
    requires SlotOk(s)
    ensures !Due(Disabled(s), t) && !Due(Freed(s), t) && Freed(s).kind == NotAllocated
    ensures s.value == 0 || s.handler == 0 ==> !Due(Enabled(s, now), t)
    ensures !Due(Written(s, 0, now), t)
    ensures s.kind == NotAllocated ==> Enabled(s, now) == s == Disabled(s)
  {
  }

  /** Each operation changes what it is for and no more; the trigger is told by the lemmas before. */
  lemma OnlyWhatIsAsked(s: Slot, value: time, handler: nat, oneShot: bool, kind: Kind, enable: bool, now: time)
    requires SlotOk(s) && kind != NotAllocated
    ensures var c := Created(s, value, handler, oneShot, kind, enable, now);
            && c.kind == kind && c.value == value && c.handler == handler && c.oneShot == oneShot
            && (c.enabled <==> enable && value != 0 && handler != 0)
    ensures s.kind != NotAllocated ==>
              var w := Written(s, value, now);
              && w == s.(value := value, enabled := w.enabled, nextTrigger := w.nextTrigger)
              && (w.enabled <==> value != 0 && s.handler != 0)
    ensures s.kind != NotAllocated ==> Disabled(s) == s.(enabled := false)
    ensures s.kind == NotAllocated ==> Written(s, value, now) == s
    ensures !Due(s, now) ==> Serviced(s, now) == s
  {
    hide NextAlarm, Wrap;
  }

  // ---------- whole runs ----------

  const NBR_ALARMS := 6
  const INVALID_ALARM_ID: byte := 255

  datatype Op =
    | Create(value: time, handler: nat, oneShot: bool, kind: Kind, enable: bool, now: time)
    | Enable(id: byte, now: time)
    | Disable(id: byte)
    | Write(id: byte, value: time, now: time)
    | Free(id: byte)
    | Service(now: time)

  /** Alarm kinds as the public constructors pass them: explicit times are one-shots. */
  predicate OpOk(op: Op) {
    op.Create? ==> op.kind != NotAllocated && (op.kind == ExplicitAlarm ==> op.oneShot)
  }

  /** The first free slot, or the number of slots. */
  function FirstFree(slots: seq<Slot>): (id: nat)
    ensures id <= |slots|
    ensures forall i :: 0 <= i < id ==> slots[i].kind != NotAllocated
    ensures id < |slots| ==> slots[id].kind == NotAllocated
  {
    if slots == [] || slots[0].kind == NotAllocated then 0 else 1 + FirstFree(slots[1..])
  }

  /** Whether and where `create` allocates. */
  function CreatedAt(slots: seq<Slot>, kind: Kind, now: time): nat {
    if IsAlarm(kind) && now < SECS_PER_YEAR then |slots| else FirstFree(slots)
  }

  /** Alarms, but not timers, need a clock that is past 52 weeks; then the first free slot is taken, if there is one. */
  lemma CreateNeedsTheClock(slots: seq<Slot>, kind: Kind, now: time)
    requires kind != NotAllocated
    ensures var i := CreatedAt(slots, kind, now);
            if kind != Timer && now < 31449600 then i == |slots|
            else (forall j :: 0 <= j < i ==> slots[j].kind != NotAllocated) &&
                 if i < |slots| then slots[i].kind == NotAllocated else i == |slots|
  {
  }

  function ServicedAll(slots: seq<Slot>, now: time): (r: seq<Slot>)
    ensures |r| == |slots| && forall i :: 0 <= i < |slots| ==> r[i] == Serviced(slots[i], now)
  {
    seq(|slots|, i requires 0 <= i < |slots| => Serviced(slots[i], now))
  }

  function After(slots: seq<Slot>, op: Op): (r: seq<Slot>)
    ensures |r| == |slots|
  {
    match op
    case Create(value, handler, oneShot, kind, enable, now) =>
      var id := CreatedAt(slots, kind, now);
      if id < |slots| then slots[id := Created(slots[id], value, handler, oneShot, kind, enable, now)] else slots
    case Enable(id, now) => if id < |slots| then slots[id := Enabled(slots[id], now)] else slots
    case Disable(id) => if id < |slots| then slots[id := Disabled(slots[id])] else slots
    case Write(id, value, now) => if id < |slots| then slots[id := Written(slots[id], value, now)] else slots
    case Free(id) => if id < |slots| then slots[id := Freed(slots[id])] else slots
    case Service(now) => ServicedAll(slots, now)
  }

  function Run(slots: seq<Slot>, ops: seq<Op>): (r: seq<Slot>)
    ensures |r| == |slots|
    decreases |ops|
  {
    if ops == [] then slots else Run(After(slots, ops[0]), ops[1..])
  }

  /** A fresh table. */
  function Blank(): (slots: seq<Slot>)
    ensures |slots| == NBR_ALARMS && forall i :: 0 <= i < NBR_ALARMS ==> slots[i] == EMPTY
  {
    seq(NBR_ALARMS, _ => EMPTY)
  }

  /**
    A daily alarm created at any midnight for 48 o'clock is set two midnights ahead, past the matching time
    one midnight ahead.
   */
  lemma OccurrenceIsSkipped(now: time)
    requires now % SECS_PER_DAY == 0 && SECS_PER_YEAR <= now < 0x1_0000_0000 - 3 * SECS_PER_DAY
    ensures var s := After(Blank(), Create(2 * SECS_PER_DAY, 1, false, DailyAlarm, true, now))[0];
            && s.kind == DailyAlarm && s.enabled && s.nextTrigger == now + 2 * SECS_PER_DAY
            && Matches(now + SECS_PER_DAY, s.value, 0, SECS_PER_DAY) && now < now + SECS_PER_DAY < s.nextTrigger
  {
    assert FirstFree(Blank()) == 0;
    CreatedTwoDaysAhead(now);
    hide Created, Matches;
  }

  lemma CreatedTwoDaysAhead(now: time)
    requires now % SECS_PER_DAY == 0 && now < 0x1_0000_0000 - 3 * SECS_PER_DAY
    ensures var s := Created(EMPTY, 2 * SECS_PER_DAY, 1, false, DailyAlarm, true, now);
            && s == Slot(DailyAlarm, true, false, 2 * SECS_PER_DAY, now + 2 * SECS_PER_DAY, 1)
            && Matches(now + SECS_PER_DAY, s.value, 0, SECS_PER_DAY)
  {
    assert PreviousMidnight(now) == now;
    hide PreviousMidnight;
    assert (now - SECS_PER_DAY) % SECS_PER_DAY == 0 by {
      ShiftedByDay(now);
    }
  }

  ghost predicate AllOk(slots: seq<Slot>) {
    forall i :: 0 <= i < |slots| ==> SlotOk(slots[i])
  }

  lemma AfterStaysOk(slots: seq<Slot>, op: Op)
    requires AllOk(slots) && OpOk(op)
    ensures AllOk(After(slots, op))
  {
    hide SlotOk, Freed, Enabled, Disabled, Written, Created, Serviced;
    forall i | 0 <= i < |slots| ensures SlotOk(After(slots, op)[i]) {
      match op
      case Create(value, handler, oneShot, kind, enable, now) =>
        SlotsStayOk(slots[i], value, handler, oneShot, kind, enable, now);
      case Enable(id, now) => SlotsStayOk(slots[i], 0, 0, false, Timer, false, now);
      case Disable(id) => SlotsStayOk(slots[i], 0, 0, false, Timer, false, 0);
      case Write(id, value, now) => SlotsStayOk(slots[i], value, 0, false, Timer, false, now);
      case Free(id) => SlotsStayOk(slots[i], 0, 0, false, Timer, false, 0);
      case Service(now) => SlotsStayOk(slots[i], 0, 0, false, Timer, false, now);
    }
  }

  /** In every run, enabled slots are allocated with a value and a handler, and free slots are blank. */
  lemma {:induction false} EveryRunIsOk(slots: seq<Slot>, ops: seq<Op>)
    requires AllOk(slots) && forall i :: 0 <= i < |ops| ==> OpOk(ops[i])
    ensures AllOk(Run(slots, ops))
    decreases |ops|
  {
    if ops != [] {
      AfterStaysOk(slots, ops[0]);
      EveryRunIsOk(After(slots, ops[0]), ops[1..]);
    }
  }

  /** The numbers of the due slots, in order. */
  function DueSlots(slots: seq<Slot>, now: time): seq<nat> {
    if slots == [] then []
    else
      var n := |slots| - 1;
      if Due(slots[n], now) then DueSlots(slots[..n], now) + [n] else DueSlots(slots[..n], now)
  }

  lemma {:induction false} DueSlotsAreDue(slots: seq<Slot>, now: time)
    ensures forall j :: 0 <= j < |DueSlots(slots, now)| ==>
              DueSlots(slots, now)[j] < |slots| && Due(slots[DueSlots(slots, now)[j]], now)
    ensures forall j, k :: 0 <= j < k < |DueSlots(slots, now)| ==> DueSlots(slots, now)[j] < DueSlots(slots, now)[k]
  {
    hide Due;
    if slots != [] {
      DueSlotsAreDue(slots[..|slots| - 1], now);
    }
  }

  lemma {:induction false} DueSlotsAreAll(slots: seq<Slot>, now: time, i: nat)
    requires i < |slots| && Due(slots[i], now)
    ensures i in DueSlots(slots, now)
    decreases |slots|
  {
    hide Due;
    var n := |slots| - 1;
    if i < n {
      DueSlotsAreAll(slots[..n], now, i);
    } else {
      assert (DueSlots(slots[..n], now) + [n])[|DueSlots(slots[..n], now)|] == n;
    }
  }

  /** Slot `i` comes as number `j` among the due ones, and `fired` has its handler there. */
  predicate FiresAt(slots: seq<Slot>, due: seq<nat>, fired: seq<nat>, j: nat) {
    j < |due| && j < |fired| && due[j] < |slots| && fired[j] == slots[due[j]].handler
  }

  /** A pass runs the handler of each due slot, once and in order, and a second pass finds nothing left to run. */
  lemma PassSettles(slots: seq<Slot>, now: time)
    requires AllOk(slots)
    requires forall i :: 0 <= i < |slots| && Due(slots[i], now) && !slots[i].oneShot ==> NoWrap(slots[i], now)
    ensures forall i :: 0 <= i < |slots| ==> !Due(ServicedAll(slots, now)[i], now)
    ensures Fired(ServicedAll(slots, now), now) == []
    ensures var due, fired := DueSlots(slots, now), Fired(slots, now);
            && (forall i: nat :: i in due <==> i < |slots| && Due(slots[i], now))
            && (forall j, k :: 0 <= j < k < |due| ==> due[j] < due[k])
            && |fired| == |due| && (forall j: nat :: j < |due| ==> FiresAt(slots, due, fired, j))
  {
    hide SlotOk, Serviced, NoWrap, Due;
    var settled := ServicedAll(slots, now);
    forall i | 0 <= i < |slots| ensures !Due(settled[i], now) && (Due(slots[i], now) ==> slots[i].handler != 0) {
      ServicedIsFuture(slots[i], now);
      DueHasHandler(slots[i], now);
    }
    NothingFires(settled, now);
    FiredInOrder(slots, now);
    DueSlotsAreDue(slots, now);
    forall i: nat | i < |slots| && Due(slots[i], now) ensures i in DueSlots(slots, now) {
      DueSlotsAreAll(slots, now, i);
    }
  }

  lemma ServicedIsAfter(before: seq<Slot>, after: seq<Slot>, now: time)
    requires AllOk(before) && |after| == |before|
    requires forall i :: 0 <= i < |after| ==> after[i] == Serviced(before[i], now)
    ensures after == After(before, Op.Service(now)) && AllOk(after)
  {
    AfterStaysOk(before, Op.Service(now));
    hide Serviced, AllOk;
  }

  lemma FiredOneMore(slots: seq<Slot>, now: time, id: nat)
    requires id < |slots|
    ensures Fired(slots[..id + 1], now) ==
            Fired(slots[..id], now) + if Due(slots[id], now) && slots[id].handler != 0 then [slots[id].handler] else []
  {
    assert slots[..id + 1][..id] == slots[..id];
  }

  lemma DueHasHandler(s: Slot, now: time)
    requires SlotOk(s)
    ensures Due(s, now) ==> s.handler != 0
  {
  }

  lemma {:induction false} NothingFires(slots: seq<Slot>, now: time)
    requires forall i :: 0 <= i < |slots| ==> !Due(slots[i], now)
    ensures Fired(slots, now) == []
  {
    if slots != [] {
      NothingFires(slots[..|slots| - 1], now);
    }
  }

  lemma {:induction false} FiredInOrder(slots: seq<Slot>, now: time)
    requires forall i :: 0 <= i < |slots| && Due(slots[i], now) ==> slots[i].handler != 0
    ensures |Fired(slots, now)| == |DueSlots(slots, now)|
    ensures forall j: nat :: j < |DueSlots(slots, now)| ==> FiresAt(slots, DueSlots(slots, now), Fired(slots, now), j)
  {
    hide Due;
    if slots != [] {
      var n := |slots| - 1;
      FiredInOrder(slots[..n], now);
      var due, fired := DueSlots(slots[..n], now), Fired(slots[..n], now);
      forall j: nat | j < |DueSlots(slots, now)| ensures FiresAt(slots, DueSlots(slots, now), Fired(slots, now), j) {
        assert j < |due| ==> FiresAt(slots[..n], due, fired, j);
      }
    }
  }

  /** The alarm table; `fired` records the handlers run, which do not call back. */
  class TimeAlarms {
    const slots: array<Slot>
    var isServicing: bool
    var fired: seq<nat>

    ghost predicate Valid()
      reads this, slots
    {
      slots.Length == NBR_ALARMS && AllOk(slots[..]) && !isServicing
    }

    constructor ()
      ensures Valid() && fresh(slots) && fired == [] && slots.Length == 6
      ensures forall i :: 0 <= i < NBR_ALARMS ==> slots[i] == EMPTY
    {
      slots := new Slot[NBR_ALARMS](_ => EMPTY);
      isServicing, fired := false, [];
    }

    predicate IsAllocated(id: byte)
      requires slots.Length == NBR_ALARMS
      reads slots
    {
      id < NBR_ALARMS && slots[id].kind != NotAllocated
    }

    /** Recomputes one slot's trigger. */
    method UpdateNextTrigger(id: byte, now: time)
      requires slots.Length == NBR_ALARMS && id < NBR_ALARMS
      modifies slots
      ensures slots[..] == old(slots[..])[id := Updated(old(slots[id]), now)]
    {
      hide Wrap, PreviousMidnight, NextMidnight, PreviousSunday, NextSunday;
      var s := slots[id];
      if s.value != 0 && s.enabled {
        var t := now;
        if IsAlarm(s.kind) && s.nextTrigger <= t {
          if s.kind == ExplicitAlarm {
            slots[id] := s.(nextTrigger := s.value);
          } else if s.kind == DailyAlarm {
            if Wrap(s.value + PreviousMidnight(now)) <= t {
              slots[id] := s.(nextTrigger := Wrap(s.value + NextMidnight(t)));
            } else {
              slots[id] := s.(nextTrigger := Wrap(s.value + PreviousMidnight(t)));
            }
          } else {
            if Wrap(s.value + PreviousSunday(now)) <= t {
              slots[id] := s.(nextTrigger := Wrap(s.value + NextSunday(t)));
            } else {
              slots[id] := s.(nextTrigger := Wrap(s.value + PreviousSunday(t)));
            }
          }
        }
        if s.kind == Timer {
          slots[id] := s.(nextTrigger := Wrap(t + s.value));
        }
      } else {
        slots[id] := s.(enabled := false);
      }
    }

    method Enable(id: byte, now: time)
      requires Valid()
      modifies slots
      ensures Valid() && slots[..] == After(old(slots[..]), Op.Enable(id, now))
    {
      AfterStaysOk(slots[..], Op.Enable(id, now));
      EnableSlot(id, now);
    }

    /** As `Enable`, also on a slot still being filled in. */
    method EnableSlot(id: byte, now: time)
      requires slots.Length == NBR_ALARMS
      modifies slots
      ensures slots[..] ==
              if id < NBR_ALARMS then old(slots[..])[id := Enabled(old(slots[id]), now)] else old(slots[..])
    {
      hide Updated;
      if IsAllocated(id) {
        slots[id] := slots[id].(enabled := slots[id].value != 0 && slots[id].handler != 0);
        UpdateNextTrigger(id, now);
      }
    }

    method Disable(id: byte)
      requires Valid()
      modifies slots
      ensures Valid() && slots[..] == After(old(slots[..]), Op.Disable(id))
    {
      AfterStaysOk(slots[..], Op.Disable(id));
      if IsAllocated(id) {
        slots[id] := slots[id].(enabled := false);
      }
    }

    method Write(id: byte, value: time, now: time)
      requires Valid()
      modifies slots
      ensures Valid() && slots[..] == After(old(slots[..]), Op.Write(id, value, now))
    {
      AfterStaysOk(slots[..], Op.Write(id, value, now));
      hide Updated;
      if IsAllocated(id) {
        slots[id] := slots[id].(value := value);
        EnableSlot(id, now);
      }
    }

    method Free(id: byte)
      requires Valid()
      modifies slots
      ensures Valid() && slots[..] == After(old(slots[..]), Op.Free(id))
    {
      AfterStaysOk(slots[..], Op.Free(id));
      FreeSlot(id);
    }

    method FreeSlot(id: byte)
      requires slots.Length == NBR_ALARMS
      modifies slots
      ensures slots[..] == if id < NBR_ALARMS then old(slots[..])[id := Freed(old(slots[id]))] else old(slots[..])
    {
      if IsAllocated(id) {
        slots[id] := slots[id].(enabled := false, kind := NotAllocated, handler := 0, value := 0, nextTrigger := 0);
      }
    }

    /** Takes the first free slot, if the clock has been set and there is one. */
    method Create(value: time, handler: nat, oneShot: bool, kind: Kind, enable: bool, now: time) returns (id: byte)
      requires Valid() && OpOk(Op.Create(value, handler, oneShot, kind, enable, now))
      modifies slots
      ensures Valid() && slots[..] == After(old(slots[..]), Op.Create(value, handler, oneShot, kind, enable, now))
      ensures id == var i := CreatedAt(old(slots[..]), kind, now); if i < NBR_ALARMS then i else INVALID_ALARM_ID
      ensures id < 6 || id == 255
    {
      AfterStaysOk(slots[..], Op.Create(value, handler, oneShot, kind, enable, now));
      if !(IsAlarm(kind) && now < SECS_PER_YEAR) {
        var i := 0;
        while i < NBR_ALARMS
          invariant 0 <= i <= NBR_ALARMS && slots[..] == old(slots[..])
          invariant forall j :: 0 <= j < i ==> slots[j].kind != NotAllocated
        {
          if slots[i].kind == NotAllocated {
            FirstFreeIs(slots[..], i);
            CreateIn(i, value, handler, oneShot, kind, enable, now);
            return i;
          }
          i := i + 1;
        }
        FirstFreeIs(slots[..], NBR_ALARMS);
      }
      return INVALID_ALARM_ID;
    }

    method CreateIn(id: byte, value: time, handler: nat, oneShot: bool, kind: Kind, enable: bool, now: time)
      requires slots.Length == NBR_ALARMS && id < NBR_ALARMS && kind != NotAllocated
      modifies slots
      ensures slots[..] ==
              old(slots[..])[id := Created(old(slots[id]), value, handler, oneShot, kind, enable, now)]
    {
      hide Updated;
      slots[id] := slots[id].(handler := handler, oneShot := oneShot, kind := kind, value := value);
      if enable {
        EnableSlot(id, now);
      } else if IsAllocated(id) {
        slots[id] := slots[id].(enabled := false);
      }
    }

    /** Services one slot: frees or re-arms it, then runs the handler it had. */
    method ServiceSlot(id: byte, now: time)
      requires slots.Length == NBR_ALARMS && id < NBR_ALARMS
      modifies slots, `fired
      ensures slots[..] == old(slots[..])[id := Serviced(old(slots[id]), now)]
      ensures var s := old(slots[id]); fired == old(fired) + if Due(s, now) && s.handler != 0 then [s.handler] else []
    {
      hide Updated;
      if slots[id].enabled && now >= slots[id].nextTrigger {
        var handler := slots[id].handler;
        if slots[id].oneShot {
          FreeSlot(id);
        } else {
          UpdateNextTrigger(id, now);
        }
        if handler != 0 {
          fired := fired + [handler];
        }
      }
    }

    /** One pass: frees due one-shots, re-arms due repeating alarms, and runs their handlers. */
    method ServiceAlarms(now: time)
      requires Valid()
      modifies this, slots
      ensures Valid() && slots[..] == After(old(slots[..]), Op.Service(now))
      ensures fired == old(fired) + Fired(old(slots[..]), now)
    {
      assert slots[..][..0] == [] && Fired([], now) == [];
      hide Serviced, Due, Fired, AllOk, After;
      if !isServicing {
        isServicing := true;
        ghost var before := slots[..];
        var id := 0;
        while id < NBR_ALARMS
          invariant 0 <= id <= NBR_ALARMS
          invariant forall i :: 0 <= i < id ==> slots[i] == Serviced(before[i], now)
          invariant forall i :: id <= i < NBR_ALARMS ==> slots[i] == before[i]
          invariant fired == old(fired) + Fired(before[..id], now)
        {
          FiredOneMore(before, now, id);
          ServiceSlot(id, now);
          id := id + 1;
        }
        assert before[..id] == before;
        ServicedIsAfter(before, slots[..], now);
        isServicing := false;
      }
    }
  }

  lemma {:induction false} FirstFreeIs(slots: seq<Slot>, id: nat)
    requires id <= |slots| && (id < |slots| ==> slots[id].kind == NotAllocated)
    requires forall i :: 0 <= i < id ==> slots[i].kind != NotAllocated
    ensures FirstFree(slots) == id
  {
  }
}
