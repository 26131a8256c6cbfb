/**
 * The scheduler tick: matching a schedule against the clock, the guard that keeps it from firing
 * twice in a minute, and what a tick does to all schedules.
 */
module Scheduler {
  import opened Wrappers
  import opened Calendar

  datatype Action = Start | Stop | Playbook

  datatype Schedule = Schedule(
    name: string,
    enabled: bool,
    action: Action,
    time: string,
    days: seq<int>,
    groupName: Option<string>,
    vmNames: seq<string>,
    lastFired: Option<Instant>)

  function Digit(c: char): int {
    c as int - '0' as int
  }

  /** The format that a schedule is validated for; hours from 24 to 29 pass it too. */
  predicate ValidTime(time: string) {
    && |time| == 5
    && '0' <= time[0] <= '2' && '0' <= time[1] <= '9'
    && time[2] == ':'
    && '0' <= time[3] <= '5' && '0' <= time[4] <= '9'
  }

  predicate TimeMatches(s: Schedule, now: Instant)
    requires ValidTime(s.time)
  {
    var hour := Digit(s.time[0]) * 10 + Digit(s.time[1]);
    var min := Digit(s.time[3]) * 10 + Digit(s.time[4]);
    if HourOf(now) != hour || MinOf(now) != min then false
    else if s.days == [] then true
    else WeekdayOf(now) in s.days
  }

  /** The guard: it compares minute, hour and day of the month, and nothing else. */
  predicate SameMinuteMark(last: Instant, now: Instant) {
    MinOf(last) == MinOf(now) && HourOf(last) == HourOf(now) && DayOfMonth(last) == DayOfMonth(now)
  }

  predicate AlreadyFired(s: Schedule, now: Instant) {
    s.lastFired.Some? && SameMinuteMark(s.lastFired.value, now)
  }

  predicate Fires(s: Schedule, now: Instant)
    requires ValidTime(s.time)
  {
    s.enabled && TimeMatches(s, now) && !AlreadyFired(s, now)
  }

  function TickOne(s: Schedule, now: Instant): Schedule
    requires ValidTime(s.time)
  {
    if Fires(s, now) then s.(lastFired := Some(now)) else s
  }

  /** A time of day as it is written. */
  function TimeText(hour: nat, min: nat): string
    requires hour < 24 && min < 60
  {
    [Figure(hour / 10), Figure(hour % 10), ':', Figure(min / 10), Figure(min % 10)]
  }

  function Figure(d: nat): char
    requires d < 10
  {
    "0123456789"[d]
  }

  lemma FiguresRead(n: nat)
    requires n < 60
    ensures Digit(Figure(n / 10)) * 10 + Digit(Figure(n % 10)) == n
  {
  }

  lemma TimeTextIsValid(hour: nat, min: nat)
    requires hour < 24 && min < 60
    ensures ValidTime(TimeText(hour, min))
  {
  }

  lemma ClockReads(t: Instant, hour: nat, min: nat)
    requires hour < 24 && min < 60
    ensures HourOf(t) == hour && MinOf(t) == min <==> t / 60 % 1440 == 60 * hour + min
    ensures DayOf(t) == t / 86400
  {
  }

  /**
   * When a schedule that has not fired yet is due: at its minute of the UTC day, on its weekdays by
   * the Gregorian calendar, or on every day when it names none.
   */
  lemma DueIff(s: Schedule, hour: nat, min: nat, t: Instant)
    requires hour < 24 && min < 60 && s.time == TimeText(hour, min) && s.lastFired == None
    ensures ValidTime(s.time)
    ensures Fires(s, t) <==>
            && s.enabled
            && t / 60 % 1440 == 60 * hour + min
            && (s.days == [] || Zeller(DateOf(t / 86400)) in s.days)
  {
    TimeTextIsValid(hour, min);
    WeekdayIsGregorian(t);
    ClockReads(t, hour, min);
    FiguresRead(hour);
    FiguresRead(min);
  }

  // ----------------------------------------------------- the guard in the calendar

  /**
   * The guard always suppresses a repeat in the same minute; when it holds across two different
   * minutes, these are a whole number of days apart, and at least 28.
   */
  lemma GuardSound(last: Instant, now: Instant)
    ensures MinuteOf(last) == MinuteOf(now) ==> SameMinuteMark(last, now)
    ensures SameMinuteMark(last, now) && MinuteOf(last) < MinuteOf(now) ==>
              && DayOf(now) - DayOf(last) >= 28
              && MinuteOf(now) - MinuteOf(last) == (DayOf(now) - DayOf(last)) * MINUTES_PER_DAY
    ensures SameMinuteMark(last, now) && MinuteOf(now) < MinuteOf(last) ==>
              && DayOf(last) - DayOf(now) >= 28
              && MinuteOf(last) - MinuteOf(now) == (DayOf(last) - DayOf(now)) * MINUTES_PER_DAY
  {
    if SameMinuteMark(last, now) {
      SameClock(now, last);
      if DayOf(last) < DayOf(now) {
        SameDayOfMonth(DayOf(last), DayOf(now));
      } else if DayOf(now) < DayOf(last) {
        SameDayOfMonth(DayOf(now), DayOf(last));
      }
    }
  }

  /** A daily schedule that last fired up to the 28th of a month misses its match one calendar month later. */
  lemma MonthLaterIsSuppressed(s: Schedule, last: Instant)
    requires ValidTime(s.time) && s.days == [] && s.lastFired == Some(last) && TimeMatches(s, last)
    requires DayOfMonth(last) <= 28
    ensures var d := DateOf(DayOf(last));
            var now := last + DaysInMonth(d.year, d.month) * 86400;
            TimeMatches(s, now) && !Fires(s, now)
  {
    var d := DateOf(DayOf(last));
    var k := DaysInMonth(d.year, d.month);
    SameDayNextMonth(DayOf(last));
    DaysLater(last, k);
  }

  lemma DaysLater(t: Instant, k: nat)
    ensures var u := t + k * 86400;
            DayOf(u) == DayOf(t) + k && HourOf(u) == HourOf(t) && MinOf(u) == MinOf(t)
  {
    var u := t + k * 86400;
    assert MinuteOf(u) == MinuteOf(t) + k * MINUTES_PER_DAY;
    assert MinuteOf(u) / MINUTES_PER_DAY == MinuteOf(t) / MINUTES_PER_DAY + k;
    assert MinuteOf(u) % MINUTES_PER_DAY == MinuteOf(t) % MINUTES_PER_DAY;
  }

  /** For instance: every day at 09:00, fired on 1 January 1970 and due on 1 February. */
  lemma FirstOfFebruaryIsMissed()
    ensures var s := Schedule("daily", true, Start, "09:00", [], None, ["vm"], Some(32400));
            ValidTime(s.time) && TimeMatches(s, 32400 + 31 * 86400) && !Fires(s, 32400 + 31 * 86400)
  {
    var s := Schedule("daily", true, Start, "09:00", [], None, ["vm"], Some(32400));
    assert MinuteOf(32400) == 540;
    assert DateOf(DayOf(32400)) == Date(1970, 1, 1);
    MonthLaterIsSuppressed(s, 32400);
  }

  // ------------------------------------------------------------- one schedule's run

  /** A schedule after a list of ticks, one after another, and the instants it fired at. */
  datatype History = History(schedule: Schedule, fired: seq<Instant>)

  function Run(s: Schedule, ticks: seq<Instant>): (h: History)
    requires ValidTime(s.time)
    ensures h.schedule == s.(lastFired := h.schedule.lastFired)
  {
    if ticks == [] then History(s, [])
    else
      var h, now := Run(s, ticks[..|ticks| - 1]), ticks[|ticks| - 1];
      History(TickOne(h.schedule, now), if Fires(h.schedule, now) then h.fired + [now] else h.fired)
  }

  function CountIn(fired: seq<Instant>, minute: nat): nat {
    if fired == [] then 0
    else CountIn(fired[..|fired| - 1], minute) + if MinuteOf(fired[|fired| - 1]) == minute then 1 else 0
  }

  predicate MatchesMinute(s: Schedule, minute: nat)
    requires ValidTime(s.time)
  {
    TimeMatches(s, minute * 60)
  }

  lemma MatchIsByMinute(s: Schedule, t: Instant)
    requires ValidTime(s.time)
    ensures TimeMatches(s, t) <==> MatchesMinute(s, MinuteOf(t))
  {
    assert MinuteOf(MinuteOf(t) * 60) == MinuteOf(t);
  }

  lemma WeekEarlierMatches(s: Schedule, minute: nat)
    requires ValidTime(s.time) && minute >= 7 * MINUTES_PER_DAY && MatchesMinute(s, minute)
    ensures MatchesMinute(s, minute - 7 * MINUTES_PER_DAY)
  {
    var m := minute - 7 * MINUTES_PER_DAY;
    assert MinuteOf(minute * 60) == minute && MinuteOf(m * 60) == m;
    assert minute / MINUTES_PER_DAY == m / MINUTES_PER_DAY + 7;
    assert minute % MINUTES_PER_DAY == m % MINUTES_PER_DAY;
  }

  predicate Sorted(ticks: seq<Instant>) {
    forall i, j :: 0 <= i < j < |ticks| ==> ticks[i] <= ticks[j]
  }

  predicate TickIn(ticks: seq<Instant>, minute: nat) {
    exists j :: 0 <= j < |ticks| && MinuteOf(ticks[j]) == minute
  }

  /** Ticks run one after another, time does not go back, and every minute from `first` has one. */
  predicate Regular(ticks: seq<Instant>, first: nat) {
    && Sorted(ticks)
    && (forall j :: 0 <= j < |ticks| ==> first <= MinuteOf(ticks[j]))
    && (forall j, m :: 0 <= j < |ticks| && first <= m < MinuteOf(ticks[j]) ==> TickIn(ticks[..j], m))
  }

  /**
   * The one minute that the guard can take from a run: the first match, if the firing that the
   * schedule came with, whenever it was, bears the same minute, hour and day of the month.
   */
  predicate Withheld(s: Schedule, ticks: seq<Instant>, m: nat)
    requires ValidTime(s.time)
  {
    && s.lastFired.Some? && SameMinuteMark(s.lastFired.value, m * 60)
    && forall t :: t in ticks && TimeMatches(s, t) ==> m <= MinuteOf(t)
  }

  /** No firing yet: whatever matched was one minute, and the old firing withheld it. */
  predicate NoneFired(s: Schedule, ticks: seq<Instant>)
    requires ValidTime(s.time)
  {
    forall t :: t in ticks && TimeMatches(s, t) ==>
      Withheld(s, ticks, MinuteOf(t)) && forall u :: u in ticks && TimeMatches(s, u) ==> MinuteOf(u) <= MinuteOf(t)
  }

  /** The last firing is the latest tick that matched, or there was no firing. */
  predicate LatestMatch(s: Schedule, ticks: seq<Instant>, last: Option<Instant>)
    requires ValidTime(s.time)
  {
    || (last == s.lastFired && NoneFired(s, ticks))
    || (last.Some? && last.value in ticks && TimeMatches(s, last.value) &&
        forall t :: t in ticks && TimeMatches(s, t) ==> MinuteOf(t) <= MinuteOf(last.value))
  }

  /** A match a week before would have been ticked, so the latest match is not older than that. */
  lemma LatestMatchIsRecent(s: Schedule, ticks: seq<Instant>, now: Instant, first: nat, last: Instant)
    requires ValidTime(s.time)
    requires last in ticks && first <= MinuteOf(last)
    requires forall t :: t in ticks && TimeMatches(s, t) ==> MinuteOf(t) <= MinuteOf(last)
    requires forall m :: first <= m < MinuteOf(now) ==> TickIn(ticks, m)
    requires TimeMatches(s, now)
    ensures MinuteOf(now) <= MinuteOf(last) + 7 * MINUTES_PER_DAY
  {
    var m := MinuteOf(now) - 7 * MINUTES_PER_DAY;
    if m >= first && m >= 0 {
      MatchIsByMinute(s, now);
      WeekEarlierMatches(s, MinuteOf(now));
      assert TickIn(ticks, m);
      var j :| 0 <= j < |ticks| && MinuteOf(ticks[j]) == m;
      MatchIsByMinute(s, ticks[j]);
      assert ticks[j] in ticks;
    }
  }

  /** So a later match is never mistaken for the latest one. */
  lemma LatestMatchIsNotMarked(s: Schedule, ticks: seq<Instant>, now: Instant, first: nat, last: Instant)
    requires ValidTime(s.time)
    requires last in ticks && first <= MinuteOf(last) < MinuteOf(now)
    requires forall t :: t in ticks && TimeMatches(s, t) ==> MinuteOf(t) <= MinuteOf(last)
    requires forall m :: first <= m < MinuteOf(now) ==> TickIn(ticks, m)
    requires TimeMatches(s, now)
    ensures !SameMinuteMark(last, now)
  {
    LatestMatchIsRecent(s, ticks, now, first, last);
    GuardSound(last, now);
  }

  /** What a tick goes on: those before it are not later, and cover every minute since `first`. */
  predicate Before(rest: seq<Instant>, now: Instant, first: nat) {
    && first <= MinuteOf(now)
    && (forall t :: t in rest ==> first <= MinuteOf(t) <= MinuteOf(now))
    && (forall m :: first <= m < MinuteOf(now) ==> TickIn(rest, m))
  }

  /** A matching tick fires if its minute had no tick before, unless the minute is withheld. */
  lemma MatchFiresIff(s: Schedule, rest: seq<Instant>, now: Instant, first: nat, last: Option<Instant>)
    requires ValidTime(s.time) && s.enabled && Before(rest, now, first)
    requires LatestMatch(s, rest, last) && TimeMatches(s, now)
    ensures Fires(s.(lastFired := last), now) <==>
            !TickIn(rest, MinuteOf(now)) && !Withheld(s, rest, MinuteOf(now))
  {
    if TickIn(rest, MinuteOf(now)) {
      RepeatIsMarked(s, rest, now, last);
    } else if t :| t in rest && TimeMatches(s, t) {
      var latest := if last == s.lastFired && NoneFired(s, rest) then t else last.value;
      var j :| 0 <= j < |rest| && rest[j] == latest;
      assert MinuteOf(latest) < MinuteOf(now);
      LatestMatchIsNotMarked(s, rest, now, first, latest);
      MarkIsByMinute(latest);
    } else {
      MarkIsByMinute(now);
    }
  }

  lemma MarkIsByMinute(t: Instant)
    ensures forall last :: SameMinuteMark(last, MinuteOf(t) * 60) <==> SameMinuteMark(last, t)
  {
    assert MinuteOf(MinuteOf(t) * 60) == MinuteOf(t);
  }

  lemma RepeatIsMarked(s: Schedule, rest: seq<Instant>, now: Instant, last: Option<Instant>)
    requires ValidTime(s.time) && LatestMatch(s, rest, last) && TimeMatches(s, now)
    requires TickIn(rest, MinuteOf(now)) && forall t :: t in rest ==> MinuteOf(t) <= MinuteOf(now)
    ensures last.Some? && SameMinuteMark(last.value, now)
  {
    var j :| 0 <= j < |rest| && MinuteOf(rest[j]) == MinuteOf(now);
    MatchIsByMinute(s, now);
    MatchIsByMinute(s, rest[j]);
    assert rest[j] in rest;
    MarkIsByMinute(now);
    if last.value in rest && MinuteOf(last.value) >= MinuteOf(now) {
      assert MinuteOf(last.value) == MinuteOf(now);
    }
  }

  lemma LatestMatchStep(s: Schedule, rest: seq<Instant>, now: Instant, first: nat, last: Option<Instant>)
    requires ValidTime(s.time) && s.enabled && Before(rest, now, first)
    requires LatestMatch(s, rest, last)
    ensures LatestMatch(s, rest + [now], TickOne(s.(lastFired := last), now).lastFired)
  {
    assert forall t :: t in rest + [now] <==> t in rest || t == now;
    if TimeMatches(s, now) {
      MatchFiresIff(s, rest, now, first, last);
      if TickIn(rest, MinuteOf(now)) {
        var j :| 0 <= j < |rest| && MinuteOf(rest[j]) == MinuteOf(now);
        assert rest[j] in rest;
        MatchIsByMinute(s, now);
        MatchIsByMinute(s, rest[j]);
      }
    }
  }

  lemma TickInStep(rest: seq<Instant>, now: Instant, m: nat)
    ensures TickIn(rest + [now], m) <==> TickIn(rest, m) || MinuteOf(now) == m
  {
    var ticks := rest + [now];
    assert ticks[|rest|] == now;
    if TickIn(rest, m) {
      var j :| 0 <= j < |rest| && MinuteOf(rest[j]) == m;
      assert ticks[j] == rest[j];
    }
  }

  lemma RegularStep(ticks: seq<Instant>, first: nat)
    requires ticks != [] && Regular(ticks, first)
    ensures var rest, now := ticks[..|ticks| - 1], ticks[|ticks| - 1];
            Regular(rest, first) && Before(rest, now, first) && ticks == rest + [now]
  {
    var rest := ticks[..|ticks| - 1];
    assert forall j :: 0 <= j < |rest| ==> rest[..j] == ticks[..j];
  }

  lemma {:induction false} RunKeepsLatest(s: Schedule, ticks: seq<Instant>, first: nat)
    requires ValidTime(s.time) && s.enabled && Regular(ticks, first)
    ensures LatestMatch(s, ticks, Run(s, ticks).schedule.lastFired)
  {
    if ticks != [] {
      var rest, now := ticks[..|ticks| - 1], ticks[|ticks| - 1];
      RegularStep(ticks, first);
      RunKeepsLatest(s, rest, first);
      LatestMatchStep(s, rest, now, first, Run(s, rest).schedule.lastFired);
    }
  }

  /**
   * Exactly once: over any regular run of ticks an enabled schedule fires once in every ticked
   * minute whose time and weekday match, and never in any other; the only exception is a first
   * match that the firing before the run withholds.
   */
  lemma {:induction false} ExactlyOnce(s: Schedule, ticks: seq<Instant>, first: nat, m: nat)
    requires ValidTime(s.time) && s.enabled && Regular(ticks, first)
    ensures CountIn(Run(s, ticks).fired, m) ==
            if TickIn(ticks, m) && MatchesMinute(s, m) && !Withheld(s, ticks, m) then 1 else 0
  {
    if ticks != [] {
      var rest, now := ticks[..|ticks| - 1], ticks[|ticks| - 1];
      RegularStep(ticks, first);
      ExactlyOnce(s, rest, first, m);
      RunKeepsLatest(s, rest, first);
      var h := Run(s, rest);
      if TimeMatches(s, now) {
        MatchFiresIff(s, rest, now, first, h.schedule.lastFired);
      }
      CountStep(s, rest, h.fired, now, first, m, Fires(h.schedule, now));
    }
  }

  lemma CountStep(s: Schedule, rest: seq<Instant>, fired: seq<Instant>, now: Instant, first: nat, m: nat, fires: bool)
    requires ValidTime(s.time) && Before(rest, now, first)
    requires fires <==> TimeMatches(s, now) && !TickIn(rest, MinuteOf(now)) && !Withheld(s, rest, MinuteOf(now))
    requires CountIn(fired, m) == if TickIn(rest, m) && MatchesMinute(s, m) && !Withheld(s, rest, m) then 1 else 0
    ensures CountIn(if fires then fired + [now] else fired, m) ==
            if TickIn(rest + [now], m) && MatchesMinute(s, m) && !Withheld(s, rest + [now], m) then 1 else 0
  {
    assert (fired + [now])[..|fired|] == fired;
    MatchIsByMinute(s, now);
    TickInStep(rest, now, m);
    assert forall t :: t in rest + [now] <==> t in rest || t == now;
    if TickIn(rest, m) {
      var j :| 0 <= j < |rest| && MinuteOf(rest[j]) == m;
      assert rest[j] in rest;
    }
  }

  /** So it fires exactly once in each matching minute if and only if the first of them is not withheld. */
  lemma ExactlyOnceIff(s: Schedule, ticks: seq<Instant>, first: nat)
    requires ValidTime(s.time) && s.enabled && Regular(ticks, first)
    ensures (forall m: nat :: CountIn(Run(s, ticks).fired, m) == if TickIn(ticks, m) && MatchesMinute(s, m) then 1 else 0)
            <==> (forall m: nat :: TickIn(ticks, m) && MatchesMinute(s, m) ==> !Withheld(s, ticks, m))
  {
    forall m: nat
      ensures CountIn(Run(s, ticks).fired, m) ==
              if TickIn(ticks, m) && MatchesMinute(s, m) && !Withheld(s, ticks, m) then 1 else 0
    {
      ExactlyOnce(s, ticks, first, m);
    }
  }

  /** A first firing, or an old one less than 28 days before the first match, withholds nothing. */
  lemma RecentWithholdsNothing(s: Schedule, ticks: seq<Instant>, m: nat)
    requires ValidTime(s.time)
    requires s.lastFired.Some? ==> MinuteOf(s.lastFired.value) < m < MinuteOf(s.lastFired.value) + 28 * MINUTES_PER_DAY
    ensures !Withheld(s, ticks, m)
  {
    if s.lastFired.Some? {
      assert MinuteOf(m * 60) == m;
      GuardSound(s.lastFired.value, m * 60);
    }
  }
}
