/** The weekly schedule of an auto search (modules/AutoSearch.cpp, updateSearchTime).

    Times are local calendar times with days counted from some Sunday.  `Allowed` says when the
    schedule permits searching; the lemmas compare what the calendar stepping computes with it. */
module AutoSearchSchedule {

  import opened Options

  const DAY := 1440

  /** A minute: the day and the minute of that day. */
  datatype Minute = Minute(day: nat, ofDay: nat) {
    predicate Valid() { ofDay < DAY }

    predicate Before(m: Minute) { day < m.day || (day == m.day && ofDay < m.ofDay) }

    function Succ(): Minute { if ofDay + 1 < DAY then Minute(day, ofDay + 1) else Minute(day + 1, 0) }
  }

  /** A calendar time: a minute and the second of that minute. */
  datatype Time = Time(day: nat, minuteOfDay: nat, second: nat) {
    function Hours(): nat { minuteOfDay / 60 }
    function Minutes(): nat { minuteOfDay % 60 }
    function DayOfWeek(): nat { day % 7 }
    function At(): Minute { Minute(day, minuteOfDay) }

    predicate Valid() { minuteOfDay < DAY && second < 60 }
  }

  datatype SearchTime = SearchTime(hour: nat, minute: nat) {
    predicate Valid() { hour < 24 && minute < 60 }
    function OfDay(): nat { hour * 60 + minute }
  }

  /** Which calendar days are enabled, and the first and last minute of the daily window. */
  datatype Schedule = Schedule(enabled: nat -> bool, start: nat, end: nat) {
    predicate Valid() { start < DAY && end < DAY }

    /** Is the minute inside a search window? */
    predicate Allowed(m: Minute) {
      enabled(m.day) && start <= m.ofDay <= end
    }

    /** Each window starts where the one of the day before ends. */
    predicate WindowsTouch() {
      start == 0 && end == DAY - 1
    }
  }

  /** Seven flags, Sunday first, repeated every week. */
  type Week = days: seq<bool> | |days| == 7 witness seq(7, _ => true)

  function Weekly(days: Week): nat -> bool {
    day => days[day % 7]
  }

  // ---------------------------------------------------------------- stepping through the calendar

  /** The first day from `day` on and before `last` that is set as wanted, else `last`. */
  function FirstDay(enabled: nat -> bool, day: nat, last: nat, wanted: bool): (r: nat)
    requires day <= last
    ensures day <= r <= last
    decreases last - day
  {
    if day == last || enabled(day) == wanted then day else FirstDay(enabled, day + 1, last, wanted)
  }

  lemma {:induction false} FirstDayStep(enabled: nat -> bool, day: nat, last: nat, wanted: bool)
    requires day <= last
    ensures FirstDay(enabled, day, last, wanted) ==
      if day == last || enabled(day) == wanted then day else FirstDay(enabled, day + 1, last, wanted)
  {}

  /** The days from `day` on and before `stop` are not as wanted; `stop` is, unless it is `last`. */
  ghost predicate Stops(enabled: nat -> bool, day: nat, stop: nat, last: nat, wanted: bool) {
    && day <= stop <= last && (stop < last ==> enabled(stop) == wanted)
    && forall k :: day <= k < stop ==> enabled(k) != wanted
  }

  lemma {:induction false} FirstDayStops(enabled: nat -> bool, day: nat, last: nat, wanted: bool)
    requires day <= last
    ensures Stops(enabled, day, FirstDay(enabled, day, last, wanted), last, wanted)
    decreases last - day
  {
    if !(day == last || enabled(day) == wanted) { FirstDayStops(enabled, day + 1, last, wanted); }
  }

  /** Where the day search takes `t`: nowhere, or to a midnight.  Six days are looked at.  For the
      end of the enabled days it looks from tomorrow on and goes to the day before the one found. */
  function MoveDay(enabled: nat -> bool, t: Time, toEnabled: bool): Time {
    if enabled(t.day) == toEnabled then t
    else if toEnabled then Time(FirstDay(enabled, t.day, t.day + 6, true), 0, 0)
    else Time(FirstDay(enabled, t.day + 1, t.day + 7, false) - 1, 0, 0)
  }

  /** Forward on the same day to the given time, unless it has passed; seconds are kept. */
  function MoveTime(t: Time, to: nat): Time {
    if to > t.minuteOfDay then t.(minuteOfDay := to) else t
  }

  /** The day whose window is looked at first: tomorrow once today's end has passed. */
  function Begin(s: Schedule, now: Time): Time {
    if s.end < now.minuteOfDay then Time(now.day + 1, 0, 0) else now
  }

  function NextEnable(s: Schedule, now: Time): Time {
    MoveTime(MoveDay(s.enabled, Begin(s, now), true), s.start)
  }

  function NextDisable(s: Schedule, now: Time): Time {
    MoveTime(MoveDay(s.enabled, now, false), s.end)
  }

  lemma {:induction false} WeekStep(x: nat)
    ensures (x + 1) % 7 == (if x % 7 == 6 then 0 else x % 7 + 1)
  {}

  lemma {:induction false} WeekdayFlag(days: Week, day: nat, p: nat)
    requires p == day % 7
    ensures Weekly(days)(day) == days[p]
  {}

  lemma {:induction false} ClockParts(t: Time)
    ensures t.minuteOfDay == 60 * t.Hours() + t.Minutes() && t.Minutes() < 60
  {}

  lemma {:induction false} Midnight(t: SearchTime)
    ensures t.hour == 0 && t.minute == 0 <==> t.OfDay() == 0
  {}

  lemma {:induction false} LastMinute(t: SearchTime)
    requires t.Valid()
    ensures t.hour == 23 && t.minute == 59 <==> t.OfDay() == DAY - 1
  {
    assert t.hour < 23 ==> t.OfDay() < 23 * 60;
  }

  lemma {:induction false} Passed(end: SearchTime, now: Time)
    requires end.Valid() && now.Valid()
    ensures end.hour < now.Hours() || (end.hour == now.Hours() && end.minute < now.Minutes()) <==>
      end.OfDay() < now.minuteOfDay
  {
    ClockParts(now);
  }

  lemma {:induction false} DayStays(enabled: nat -> bool, t: Time, toEnabled: bool)
    ensures enabled(t.day) == toEnabled ==> MoveDay(enabled, t, toEnabled) == t
  {}

  lemma {:induction false} DayMoves(enabled: nat -> bool, t: Time, toEnabled: bool, d: nat)
    requires enabled(t.day) != toEnabled
    requires var from := if toEnabled then t.day else t.day + 1;
      from + d == FirstDay(enabled, from, from + 6, toEnabled)
    ensures MoveDay(enabled, t, toEnabled) == Time(t.day + d, 0, 0)
  {
    hide FirstDay;
  }

  predicate Unlimited(days: Week, start: SearchTime, end: SearchTime) {
    (forall i :: 0 <= i < 7 ==> days[i]) && start.OfDay() == 0 && end.OfDay() == DAY - 1
  }

  class AutoSearch {
    var searchDays: Week
    var startTime: SearchTime
    var endTime: SearchTime
    var nextSearchChange: Option<Time>  // None: the source's 0
    var nextIsDisable: bool

    function Plan(): Schedule
      reads this
    {
      Schedule(Weekly(searchDays), startTime.OfDay(), endTime.OfDay())
    }

    constructor ()
      ensures searchDays == seq(7, _ => true) && startTime == SearchTime(0, 0) && endTime == SearchTime(23, 59)
      ensures nextSearchChange == None && !nextIsDisable
    {
      searchDays, startTime, endTime := seq(7, _ => true), SearchTime(0, 0), SearchTime(23, 59);
      nextSearchChange, nextIsDisable := None, false;
    }

    /** The day search of the addTime closure: how many days from `day` on (or from the day after,
        when looking for a disabled day) the wanted day is; `p` walks round the week. */
    method FindDay(day: nat, toEnabled: bool) returns (d: nat)
      ensures var from := if toEnabled then day else day + 1;
        from + d == FirstDay(Weekly(searchDays), from, from + 6, toEnabled)
    {
      ghost var from := if toEnabled then day else day + 1;
      ghost var enabled := Weekly(searchDays);
      hide Weekly, FirstDay;
      var p := day % 7;
      WeekStep(day);
      if !toEnabled {
        p := p + 1;
      }
      d := 0;
      while d < 6
        invariant 0 <= d <= 6 && 0 <= p <= 7 && (from + d) % 7 == (if p == 7 then 0 else p)
        invariant FirstDay(enabled, from, from + 6, toEnabled) == FirstDay(enabled, from + d, from + 6, toEnabled)
      {
        WeekStep(from + d);
        if p == 7 {
          p := 0;
        }
        WeekdayFlag(searchDays, from + d, p);
        FirstDayStep(enabled, from + d, from + 6, toEnabled);
        p := p + 1;
        if searchDays[p - 1] == toEnabled {
          break;
        }
        d := d + 1;
      }
      FirstDayStep(enabled, from + d, from + 6, toEnabled);
    }

    /** The addTime closure. */
    method AddTime(t: Time, toEnabled: bool) returns (next: Time)
      requires startTime.Valid() && endTime.Valid() && t.Valid()
      ensures var to := if toEnabled then Plan().start else Plan().end;
        next == MoveTime(MoveDay(Weekly(searchDays), t, toEnabled), to)
      ensures next.Valid()
    {
      WeekdayFlag(searchDays, t.day, t.DayOfWeek());
      hide SearchTime.OfDay, Time.DayOfWeek, MoveTime, FirstDay, Weekly, MoveDay;
      next := t;
      DayStays(Weekly(searchDays), t, toEnabled);
      if searchDays[next.DayOfWeek()] != toEnabled {
        var d := FindDay(next.day, toEnabled);
        DayMoves(Weekly(searchDays), t, toEnabled, d);
        next := Time(next.day + d, 0, 0);
      }
      var time := if toEnabled then startTime else endTime;
      next := AddClock(next, time);
    }

    /** The end of the closure: forward to the given hour and minute, when they are still to come. */
    static method AddClock(t: Time, time: SearchTime) returns (next: Time)
      requires t.Valid() && time.Valid()
      ensures next == MoveTime(t, time.OfDay()) && next.Valid()
    {
      ClockParts(t);
      hide Time.Hours, Time.Minutes;
      next := t;
      if time.hour > next.Hours() {
        var ahead := (time.hour * 60 + time.minute) - (next.Hours() * 60 + next.Minutes());
        next := next.(minuteOfDay := next.minuteOfDay + ahead);
      } else if time.hour == next.Hours() && time.minute > next.Minutes() {
        next := next.(minuteOfDay := next.minuteOfDay + time.minute - next.Minutes());
      }
    }

    predicate AlwaysOn()
      reads this
    {
      Unlimited(searchDays, startTime, endTime)
    }

    /** Returns whether the schedule restricts the search at all. */
    method UpdateSearchTime(now: Time) returns (limited: bool)
      requires startTime.Valid() && endTime.Valid() && now.Valid()
      modifies this`nextSearchChange, this`nextIsDisable
      ensures limited == !AlwaysOn()
      ensures !limited ==> nextSearchChange == None && nextIsDisable == old(nextIsDisable)
      ensures limited ==> nextIsDisable == (NextEnable(Plan(), now) == now)
      ensures limited ==>
        nextSearchChange == Some(if nextIsDisable then NextDisable(Plan(), now) else NextEnable(Plan(), now))
    {
      hide SearchTime.OfDay, Time.Hours, Time.Minutes, Time.DayOfWeek, MoveDay, MoveTime, FirstDay, Weekly;
      Midnight(startTime);
      LastMinute(endTime);
      Passed(endTime, now);
      if (forall i | 0 <= i < 7 :: searchDays[i]) && startTime.hour == 0 && endTime.minute == 59 &&
         endTime.hour == 23 && startTime.minute == 0 {
        nextSearchChange := None;
        return false;
      }
      var nextSearch := now;
      if endTime.hour < nextSearch.Hours() ||
         (endTime.hour == nextSearch.Hours() && endTime.minute < nextSearch.Minutes()) {
        nextSearch := Time(nextSearch.day + 1, 0, 0);
      }
      nextSearch := AddTime(nextSearch, true);
      if nextSearch == now {
        nextSearch := AddTime(nextSearch, false);
        nextIsDisable := true;
      } else {
        nextIsDisable := false;
      }
      if nextSearchChange != Some(nextSearch) {
        nextSearchChange := Some(nextSearch);
      }
      limited := true;
    }
  }

  // ---------------------------------------------------------------- what it means

  /** Searching goes on without an end exactly if the source says so: every day from 0:00 to 23:59. */
  lemma {:induction false} AlwaysOnExactly(days: Week, start: SearchTime, end: SearchTime)
    requires start.Valid() && end.Valid()
    ensures Unlimited(days, start, end) <==>
      forall m: Minute :: m.Valid() ==> Schedule(Weekly(days), start.OfDay(), end.OfDay()).Allowed(m)
  {
    var s := Schedule(Weekly(days), start.OfDay(), end.OfDay());
    if forall m: Minute :: m.Valid() ==> s.Allowed(m) {
      forall i | 0 <= i < 7 ensures days[i] {
        assert s.Allowed(Minute(i, 0));
        WeekdayFlag(days, i, i);
      }
      assert s.Allowed(Minute(0, 0)) && s.Allowed(Minute(0, DAY - 1));
    }
    if Unlimited(days, start, end) {
      forall m: Minute | m.Valid() ensures s.Allowed(m) { WeekdayFlag(days, m.day, m.day % 7); }
    }
  }

  /** A time on the day of now keeps its seconds when it is to enable the search; otherwise they are zero. */
  lemma {:induction false} SecondsOf(s: Schedule, now: Time)
    ensures NextEnable(s, now).second == (if NextEnable(s, now).day == now.day then now.second else 0)
    ensures s.enabled(now.day) ==> NextDisable(s, now).second == 0
  {
    FirstDayStops(s.enabled, Begin(s, now).day, Begin(s, now).day + 6, true);
    hide FirstDay;
  }

  /** `nextIsDisable` is set exactly when now lies in a search window. */
  lemma {:induction false} DisableExactlyInWindow(s: Schedule, now: Time)
    requires s.Valid() && now.Valid()
    ensures NextEnable(s, now) == now <==> s.Allowed(now.At())
  {
    var begin := Begin(s, now);
    FirstDayStops(s.enabled, begin.day, begin.day + 6, true);
    hide FirstDay;
  }

  /** Outside the windows, with some day enabled and start not after end, the computed time lies in
      the first allowed minute after now, however many days that takes. */
  lemma {:induction false} NextEnableIsLeast(days: Week, start: nat, end: nat, now: Time)
    requires var s := Schedule(Weekly(days), start, end); s.Valid() && !s.Allowed(now.At())
    requires now.Valid() && start <= end && exists day :: 0 <= day < 7 && days[day]
    ensures var s := Schedule(Weekly(days), start, end); LeastAfter(s, now.At(), NextEnable(s, now).At())
  {
    var s := Schedule(Weekly(days), start, end);
    var begin := Begin(s, now);
    FirstDayStops(s.enabled, begin.day, begin.day + 6, true);
    WithinAWeek(days, begin.day, FirstDay(s.enabled, begin.day, begin.day + 6, true), true);
    LeastFrom(s, now, FirstDay(s.enabled, begin.day, begin.day + 6, true));
  }

  /** The first allowed minute after m. */
  ghost predicate LeastAfter(s: Schedule, m: Minute, next: Minute) {
    && next.Valid() && m.Before(next) && s.Allowed(next)
    && forall k: Minute :: !k.Before(m) && k.Before(next) && k.Valid() ==> !s.Allowed(k)
  }

  lemma {:induction false} LeastFrom(s: Schedule, now: Time, first: nat)
    requires s.Valid() && now.Valid() && s.start <= s.end && !s.Allowed(now.At())
    requires var from := Begin(s, now).day; first == FirstDay(s.enabled, from, from + 6, true)
    requires Stops(s.enabled, Begin(s, now).day, first, Begin(s, now).day + 6, true) && s.enabled(first)
    ensures LeastAfter(s, now.At(), NextEnable(s, now).At())
  {
    hide FirstDay;
    var begin, next := Begin(s, now), NextEnable(s, now);
    forall m: Minute | !m.Before(now.At()) && m.Before(next.At()) && m.Valid() ensures !s.Allowed(m) {
      if begin.day <= m.day < next.day { assert !s.enabled(m.day); }
    }
  }

  /** If none of six days is as wanted, the seventh is. */
  lemma {:induction false} WithinAWeek(days: Week, from: nat, stop: nat, wanted: bool)
    requires exists day :: 0 <= day < 7 && days[day] == wanted
    requires Stops(Weekly(days), from, stop, from + 6, wanted)
    ensures Weekly(days)(stop) == wanted
  {
    var day :| 0 <= day < 7 && days[day] == wanted;
    var k := from + (day + 7 - from % 7) % 7;
    assert k % 7 == day;
    assert Weekly(days)(k) == wanted;
    hide Weekly;
  }

  /** With start after end no minute is allowed, and a search is never allowed at the time of the
      call: overnight windows do not work. */
  lemma {:induction false} OvernightNeverAllowed(s: Schedule, now: Time)
    requires s.Valid() && now.Valid() && s.start > s.end
    ensures !s.Allowed(now.At()) && NextEnable(s, now) != now
  {
    DisableExactlyInWindow(s, now);
  }

  /** The last minute of the allowed stretch that now is in. */
  ghost predicate LastAllowed(s: Schedule, now: Minute, last: Minute) {
    && !last.Before(now) && last.Valid() && !s.Allowed(last.Succ())
    && forall m: Minute :: !m.Before(now) && !last.Before(m) && m.Valid() ==> s.Allowed(m)
  }

  /** Inside a window the computed time is in the closing minute of the last of the enabled days
      that follow without a gap (at most six).  So it is the end of the current stretch exactly
      when tomorrow is disabled or the windows of consecutive days touch; otherwise the end of
      today's window is passed over. */
  lemma {:induction false} DisableRightExactly(days: Week, start: nat, end: nat, now: Time)
    requires var s := Schedule(Weekly(days), start, end);
      s.Valid() && s.Allowed(now.At()) && !(s.WindowsTouch() && forall i :: 0 <= i < 7 ==> days[i])
    requires now.Valid()
    ensures var s := Schedule(Weekly(days), start, end);
      var last := NextDisable(s, now).At();
      && last == Minute(FirstDay(s.enabled, now.day + 1, now.day + 7, false) - 1, end)
      && (LastAllowed(s, now.At(), last) <==> !s.enabled(now.day + 1) || s.WindowsTouch())
  {
    var s := Schedule(Weekly(days), start, end);
    var stop := FirstDay(s.enabled, now.day + 1, now.day + 7, false);
    FirstDayStops(s.enabled, now.day + 1, now.day + 7, false);
    if s.WindowsTouch() {
      var i :| 0 <= i < 7 && !days[i];
      WithinAWeek(days, now.day + 1, stop, false);
    }
    NextDisableValue(s, now);
    hide FirstDay, NextDisable, Weekly, LastAllowed, Schedule.Allowed;
    if stop == now.day + 1 || s.WindowsTouch() {
      StretchEnds(s, now.At(), stop);
    } else {
      StretchBroken(s, now.At(), stop);
    }
  }

  lemma {:induction false} NextDisableValue(s: Schedule, now: Time)
    requires s.Valid() && now.Valid() && s.Allowed(now.At())
    ensures NextDisable(s, now).At() == Minute(FirstDay(s.enabled, now.day + 1, now.day + 7, false) - 1, s.end)
  {
    hide FirstDay;
  }

  /** When tomorrow is disabled or the windows touch, the stretch ends with the found day. */
  lemma {:induction false} StretchEnds(s: Schedule, now: Minute, stop: nat)
    requires s.Valid() && now.Valid() && s.Allowed(now)
    requires Stops(s.enabled, now.day + 1, stop, now.day + 7, false) && !s.enabled(stop)
    requires stop == now.day + 1 || s.WindowsTouch()
    ensures LastAllowed(s, now, Minute(stop - 1, s.end))
  {
    var last := Minute(stop - 1, s.end);
    forall m: Minute | !m.Before(now) && !last.Before(m) && m.Valid() ensures s.Allowed(m) {
      if m.day > now.day { assert s.enabled(m.day); }
    }
    assert last.Succ().day == last.day ==> last.Succ().ofDay > s.end;
    assert last.Succ().day != last.day ==> last.Succ().day == stop;
  }

  /** Otherwise the minute behind today's window is skipped. */
  lemma {:induction false} StretchBroken(s: Schedule, now: Minute, stop: nat)
    requires s.Valid() && now.Valid() && s.Allowed(now)
    requires stop > now.day + 1 && !s.WindowsTouch()
    ensures !LastAllowed(s, now, Minute(stop - 1, s.end))
  {
    var last := Minute(stop - 1, s.end);
    var missed := Minute(now.day, s.end).Succ();
    assert !s.Allowed(missed) && missed.Valid() && !missed.Before(now) && !last.Before(missed);
  }
}
