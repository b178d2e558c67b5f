/** The day planner page: timed events on a day, their layout on an hourly
    timeline that starts at 06:00, rescheduling by dropping an event on an
    hour, and the hour labels of the timeline. Times are `HH:MM` texts. */
module DayPlanner {
  import opened Base
  import opened Text
  import opened Seqs

  /** An event; `id` comes from the clock and `createdAt` is a timestamp
      text, both taken as parameters. `date` is the date key of its day. */
  datatype Event = Event(id: nat, title: string, startTime: string, endTime: string,
                         category: string, notes: string, date: string, createdAt: string)

  /** The fields of the add/edit form. */
  datatype EventForm = EventForm(title: string, startTime: string, endTime: string, category: string, notes: string)

  /** An event with the form's fields spread over it and its date restamped. */
  function ApplyForm(e: Event, form: EventForm, dateKey: string): Event
  {
    e.(title := form.title, startTime := form.startTime, endTime := form.endTime,
       category := form.category, notes := form.notes, date := dateKey)
  }

  /** Saving the form: nothing happens for a blank title. When an event is
      being edited, every event with its id takes the form's fields and the
      selected day, keeping its id and creation time; otherwise one new event
      on the selected day is appended. */
  function AddEvent(events: seq<Event>, form: EventForm, editing: Option<Event>, dateKey: string,
                    id: nat, createdAt: string): (r: seq<Event>)
    ensures IsBlank(form.title) ==> r == events
    ensures !IsBlank(form.title) && editing.Some? ==>
      |r| == |events|
      && forall i :: 0 <= i < |r| ==>
        r[i].id == events[i].id && r[i].createdAt == events[i].createdAt
        && (events[i].id == editing.value.id ==>
              r[i].title == form.title && r[i].startTime == form.startTime && r[i].endTime == form.endTime
              && r[i].category == form.category && r[i].notes == form.notes && r[i].date == dateKey)
        && (events[i].id != editing.value.id ==> r[i] == events[i])
    ensures !IsBlank(form.title) && editing.None? ==>
      r == events + [Event(id, form.title, form.startTime, form.endTime, form.category, form.notes, dateKey, createdAt)]
  {
    if IsBlank(form.title) then events
    else if editing.Some? then
      seq(|events|, i requires 0 <= i < |events| =>
        if events[i].id == editing.value.id then ApplyForm(events[i], form, dateKey) else events[i])
    else events + [Event(id, form.title, form.startTime, form.endTime, form.category, form.notes, dateKey, createdAt)]
  }

  /** Saving the same edit twice changes nothing the first save did not. */
  lemma EditIdempotent(events: seq<Event>, form: EventForm, editing: Event, dateKey: string, id: nat, createdAt: string)
    ensures var once := AddEvent(events, form, Some(editing), dateKey, id, createdAt);
      AddEvent(once, form, Some(editing), dateKey, id, createdAt) == once
  {
  }

  /** Deleting removes exactly the events with that id, keeping the order of the rest. */
  function DeleteEvent(events: seq<Event>, id: nat): (r: seq<Event>)
    ensures forall e :: e in r <==> e in events && e.id != id
    ensures IsSubsequence(r, events)
    ensures forall e :: multiset(r)[e] == if e.id != id then multiset(events)[e] else 0
  {
    var keep := (e: Event) => e.id != id;
    FilterSpec(events, keep);
    Filter(events, keep)
  }

  predicate SortedByStart(s: seq<Event>)
  {
    forall i :: 0 < i < |s| ==> LexLessEq(s[i - 1].startTime, s[i].startTime)
  }

  /** One step of the sort: `e` goes before the first event it does not follow. */
  function InsertByStart(e: Event, s: seq<Event>): (r: seq<Event>)
    ensures |r| == |s| + 1
    ensures multiset(r) == multiset(s) + multiset{e}
    ensures r[0] == e || (s != [] && r[0] == s[0])
    ensures SortedByStart(s) ==> SortedByStart(r)
  {
    if s == [] then [e]
    else if LexLessEq(e.startTime, s[0].startTime) then [e] + s
    else
      LexTotal(e.startTime, s[0].startTime);
      assert s == [s[0]] + s[1..];
      [s[0]] + InsertByStart(e, s[1..])
  }

  /** The events ordered by start time; the order of equal start times is kept. */
  function SortByStart(s: seq<Event>): (r: seq<Event>)
    ensures SortedByStart(r)
    ensures multiset(r) == multiset(s)
  {
    if s == [] then []
    else
      assert s == [s[0]] + s[1..];
      InsertByStart(s[0], SortByStart(s[1..]))
  }

  /** The events of the day with the given key, ordered by start time:
      exactly the events of that day, each as often as in the list. */
  function EventsForDate(events: seq<Event>, dateKey: string): (r: seq<Event>)
    ensures SortedByStart(r)
    ensures forall e :: e in r <==> e in events && e.date == dateKey
    ensures forall e :: multiset(r)[e] == if e.date == dateKey then multiset(events)[e] else 0
  {
    var onDay := (e: Event) => e.date == dateKey;
    var sameDay := Filter(events, onDay);
    FilterSpec(events, onDay);
    var r := SortByStart(sameDay);
    assert forall e :: e in r <==> e in sameDay by {
      forall e ensures e in r <==> e in sameDay {
        assert e in r <==> multiset(r)[e] > 0;
        assert e in sameDay <==> multiset(sameDay)[e] > 0;
      }
    }
    r
  }

  /** `HH:MM` with both fields zero-padded to two digits. */
  function ClockText(h: int, m: int): string
  {
    PadInt(h, 2) + ":" + PadInt(m, 2)
  }

  /** `const [h, m] = t.split(':').map(Number)`: a missing minute field is
      `undefined`, which is `NaN` in arithmetic. */
  function ClockFields(t: string): (Option<int>, Option<int>)
  {
    var parts := Split(t, ':');
    (ToNumber(parts[0]), if |parts| >= 2 then ToNumber(parts[1]) else None)
  }

  /** Minutes since midnight of a time text, or `None` where it is `NaN`. */
  function ClockMinutes(t: string): Option<int>
  {
    var fields := ClockFields(t);
    if fields.0.Some? && fields.1.Some? then Some(fields.0.value * 60 + fields.1.value) else None
  }

  /** Every padded time text reads back as its hour and minute. */
  lemma ClockTextFields(h: int, m: int)
    ensures ClockFields(ClockText(h, m)) == (Some(h), Some(m))
  {
    PadIntNoColon(h);
    PadIntNoColon(m);
    ToNumberPadInt(h);
    ToNumberPadInt(m);
    FieldsOf(PadInt(h, 2), PadInt(m, 2), h, m);
  }

  lemma PadIntNoColon(i: int)
    ensures ':' !in PadInt(i, 2)
  {
    PadIntChars(i, 2);
  }

  /** `a:b` with no `:` in either field splits into the two fields. */
  lemma FieldsOf(a: string, b: string, h: int, m: int)
    requires ':' !in a && ':' !in b && ToNumber(a) == Some(h) && ToNumber(b) == Some(m)
    ensures ClockFields(a + ":" + b) == (Some(h), Some(m))
  {
    assert a + ":" + b == a + [':'] + b;
    SplitAfterField(a, ':', b);
    assert Split(a + ":" + b, ':') == [a, b];
  }

  lemma ClockTextMinutes(h: int, m: int)
    ensures ClockFields(ClockText(h, m)) == (Some(h), Some(m))
    ensures ClockMinutes(ClockText(h, m)) == Some(h * 60 + m)
  {
    var t := ClockText(h, m);
    ClockTextFields(h, m);
    MinutesOfFields(t, h, m);
  }

  lemma MinutesOfFields(t: string, h: int, m: int)
    requires ClockFields(t) == (Some(h), Some(m))
    ensures ClockMinutes(t) == Some(h * 60 + m)
  {
  }

  lemma TwoDigitChars(n: nat)
    requires n < 100
    ensures PadInt(n, 2) == [DigitChar(n / 10), DigitChar(n % 10)]
  {
    if n < 10 {
      assert NatToString(n) == [DigitChar(n)];
      assert PadInt(n, 2) == Repeat('0', 1) + [DigitChar(n)];
    } else {
      assert NatToString(n) == NatToString(n / 10) + [DigitChar(n % 10)];
      assert NatToString(n / 10) == [DigitChar(n / 10)];
    }
  }

  /** Two-digit fields compare as their values do. */
  lemma TwoDigitOrder(a: nat, b: nat)
    requires a < 100 && b < 100
    ensures |PadInt(a, 2)| == 2 == |PadInt(b, 2)|
    ensures PadInt(a, 2) == PadInt(b, 2) <==> a == b
    ensures LexLessEq(PadInt(a, 2), PadInt(b, 2)) <==> a <= b
  {
    TwoDigitChars(a);
    TwoDigitChars(b);
    PairOrder(DigitChar(a / 10), DigitChar(a % 10), DigitChar(b / 10), DigitChar(b % 10));
  }

  /** Two-character texts compare by their first characters, then their second. */
  lemma PairOrder(x0: char, x1: char, y0: char, y1: char)
    ensures LexLessEq([x0, x1], [y0, y1]) <==> x0 < y0 || (x0 == y0 && x1 <= y1)
  {
    assert [x0, x1][1..] == [x1] && [y0, y1][1..] == [y1];
    assert [x1][1..] == [] && [y1][1..] == [];
    assert LexLessEq([x1], [y1]) <==> x1 <= y1 by {
      assert LexLessEq([], []);
    }
    assert LexLessEq([x0, x1], [y0, y1]) <==> x0 < y0 || (x0 == y0 && LexLessEq([x1], [y1]));
  }

  /** For zero-padded `HH:MM` texts the string order is the order of the
      times of day. */
  lemma ClockOrder(h1: nat, m1: nat, h2: nat, m2: nat)
    requires h1 < 100 && h2 < 100 && m1 < 60 && m2 < 60
    ensures LexLessEq(ClockText(h1, m1), ClockText(h2, m2)) <==> h1 * 60 + m1 <= h2 * 60 + m2
  {
    ClockTextLex(h1, m1, h2, m2);
    MinuteOrder(h1, m1, h2, m2);
  }

  /** Padded `HH:MM` texts compare by hour, then by minute. */
  lemma ClockTextLex(h1: nat, m1: nat, h2: nat, m2: nat)
    requires h1 < 100 && h2 < 100 && m1 < 100 && m2 < 100
    ensures LexLessEq(ClockText(h1, m1), ClockText(h2, m2)) <==> (h1 != h2 && h1 <= h2) || (h1 == h2 && m1 <= m2)
  {
    TwoDigitOrder(h1, h2);
    TwoDigitOrder(m1, m2);
    FieldsLex(PadInt(h1, 2), PadInt(m1, 2), PadInt(h2, 2), PadInt(m2, 2));
  }

  /** `a:b` texts with fields of equal widths compare by the first field,
      then by the second. */
  lemma FieldsLex(a1: string, b1: string, a2: string, b2: string)
    requires |a1| == |a2|
    ensures LexLessEq(a1 + ":" + b1, a2 + ":" + b2)
            <==> (a1 != a2 && LexLessEq(a1, a2)) || (a1 == a2 && LexLessEq(b1, b2))
  {
    assert a1 + ":" + b1 == a1 + (":" + b1);
    assert a2 + ":" + b2 == a2 + (":" + b2);
    LexAppend(a1, ":" + b1, a2, ":" + b2);
    LexAppend(":", b1, ":", b2);
  }

  /** With minutes below 60, minutes since midnight order by hour, then by minute. */
  lemma MinuteOrder(h1: int, m1: int, h2: int, m2: int)
    requires 0 <= m1 < 60 && 0 <= m2 < 60
    ensures (h1 != h2 && h1 <= h2) || (h1 == h2 && m1 <= m2) <==> h1 * 60 + m1 <= h2 * 60 + m2
  {
  }

  datatype Position = Position(top: real, height: real)

  /** Pixels per hour of the timeline. */
  const HourHeight: real := 80.0

  /** The place of an event on the timeline: its top is proportional to the
      minutes since 06:00 and its height to its duration, but never below 40
      pixels; `None` where the arithmetic meets `NaN`. */
  function EventPosition(startTime: string, endTime: string): (r: Option<Position>)
    ensures r.Some? <==> ClockMinutes(startTime).Some? && ClockMinutes(endTime).Some?
    ensures r.Some? ==>
      var start := ClockMinutes(startTime).value - 360;
      var duration := ClockMinutes(endTime).value - ClockMinutes(startTime).value;
      r.value.top * 60.0 == start as real * HourHeight
      && r.value.height >= 40.0
      && r.value.height * 60.0 >= duration as real * HourHeight
      && (r.value.height * 60.0 == duration as real * HourHeight <==> duration >= 30)
  {
    var (sh, sm) := ClockFields(startTime);
    var (eh, em) := ClockFields(endTime);
    if sh.Some? && sm.Some? && eh.Some? && em.Some? then
      var startMinutes := (sh.value - 6) * 60 + sm.value;
      var endMinutes := (eh.value - 6) * 60 + em.value;
      var duration := endMinutes - startMinutes;
      var top := (startMinutes as real / 60.0) * HourHeight;
      var scaled := (duration as real / 60.0) * HourHeight;
      Some(Position(top, if scaled >= 40.0 then scaled else 40.0))
    else None
  }

  /** `NaN` or a number, as `toString` writes it. */
  function NumberText(x: Option<int>): string
  {
    if x.Some? then IntToString(x.value) else "NaN"
  }

  function Plus(a: Option<int>, b: Option<int>): Option<int>
  {
    if a.Some? && b.Some? then Some(a.value + b.value) else None
  }

  function Minus(a: Option<int>): Option<int>
  {
    if a.Some? then Some(-a.value) else None
  }

  /** The minutes from the start to the end, `NaN` if either is. */
  function Duration(startTime: string, endTime: string): Option<int>
  {
    Plus(ClockMinutes(endTime), Minus(ClockMinutes(startTime)))
  }

  /** JavaScript's `%`: the remainder takes the sign of the dividend. */
  function JsRem(a: int, b: int): (r: int)
    requires b > 0
    ensures a >= 0 ==> r == a % b
    ensures -b < r < b
  {
    if a >= 0 then a % b else -((-a) % b)
  }

  /** `String(x).padStart(2, '0')`, with `NaN` for a missing number. */
  function FieldText(x: Option<int>): string
  {
    PadStart(NumberText(x), 2, '0')
  }

  /** The end text of a drop from its minutes since midnight:
      `Math.floor(total / 60)` and `total % 60`, each padded. */
  function EndText(total: Option<int>): string
  {
    if total.Some? then FieldText(Some(total.value / 60)) + ":" + FieldText(Some(JsRem(total.value, 60)))
    else FieldText(None) + ":" + FieldText(None)
  }

  /** A non-negative end is written as its hour and minute. */
  lemma EndTextClock(total: nat, h: nat, m: nat)
    requires m < 60 && total == h * 60 + m
    ensures EndText(Some(total)) == ClockText(h, m)
  {
    assert total / 60 == h && total % 60 == m;
    assert JsRem(total, 60) == m;
  }

  /** The new start and end texts of an event dropped on `hour`, or `None`
      where `startMin.toString()` throws because the start has no minute
      field. The start moves to the hour and keeps its minute; the end is
      the old duration later, with no wrap past midnight. */
  function DropTimes(startTime: string, endTime: string, hour: nat): Option<(string, string)>
  {
    if ':' !in startTime then None
    else
      var start := ClockFields(startTime);
      Some((PadInt(hour, 2) + ":" + FieldText(start.1),
            EndText(Plus(Plus(Some(hour * 60), start.1), Duration(startTime, endTime)))))
  }

  /** Dropping the dragged event on an hour: nothing happens when no event
      is dragged or when its start has no minute field (the handler throws);
      otherwise exactly the events with the dragged id take the new start
      and end, and nothing else changes. */
  function HandleDrop(events: seq<Event>, dragged: Option<Event>, hour: nat): (r: seq<Event>)
    ensures dragged.None? ==> r == events
    ensures dragged.Some? && DropTimes(dragged.value.startTime, dragged.value.endTime, hour).None? ==> r == events
    ensures dragged.Some? && DropTimes(dragged.value.startTime, dragged.value.endTime, hour).Some? ==>
      |r| == |events|
      && forall i :: 0 <= i < |r| ==>
        (events[i].id == dragged.value.id ==>
          r[i] == events[i].(startTime := DropTimes(dragged.value.startTime, dragged.value.endTime, hour).value.0,
                             endTime := DropTimes(dragged.value.startTime, dragged.value.endTime, hour).value.1))
        && (events[i].id != dragged.value.id ==> r[i] == events[i])
  {
    if dragged.None? then events
    else
      match DropTimes(dragged.value.startTime, dragged.value.endTime, hour)
      case None => events
      case Some((newStart, newEnd)) =>
        seq(|events|, i requires 0 <= i < |events| =>
          if events[i].id == dragged.value.id then events[i].(startTime := newStart, endTime := newEnd) else events[i])
  }

  /** A drop keeps the event's minute and its duration: the new start is the
      drop hour with the old minute, and the new end is the old duration
      after it (`endHour:endMin`, where `end` is in minutes since midnight),
      provided the new end is not before midnight. The end hour is not
      wrapped, so it can pass 23. */
  lemma DropKeepsDuration(startTime: string, endTime: string, hour: nat, sh: int, sm: int, eh: int, em: int,
                          endHour: nat, endMin: nat)
    requires ClockFields(startTime) == (Some(sh), Some(sm)) && ClockFields(endTime) == (Some(eh), Some(em))
    requires endMin < 60 && endHour * 60 + endMin == hour * 60 + sm + ((eh * 60 + em) - (sh * 60 + sm))
    ensures DropTimes(startTime, endTime, hour) == Some((ClockText(hour, sm), ClockText(endHour, endMin)))
    ensures ClockMinutes(ClockText(hour, sm)) == Some(hour * 60 + sm)
    ensures Duration(ClockText(hour, sm), ClockText(endHour, endMin)) == Duration(startTime, endTime)
            == Some((eh * 60 + em) - (sh * 60 + sm))
  {
    OldDuration(startTime, endTime, sh, sm, eh, em);
    DroppedTexts(startTime, endTime, hour, sm, (eh * 60 + em) - (sh * 60 + sm), endHour, endMin);
    ClockTextMinutes(hour, sm);
    ClockDuration(hour, sm, endHour, endMin);
    ShiftedSpan(hour, sh, sm, eh, em, endHour, endMin);
  }

  /** Moving the start keeps the span when the end moves by as much. */
  lemma ShiftedSpan(hour: int, sh: int, sm: int, eh: int, em: int, endHour: int, endMin: int)
    requires endHour * 60 + endMin == hour * 60 + sm + ((eh * 60 + em) - (sh * 60 + sm))
    ensures Some((endHour * 60 + endMin) - (hour * 60 + sm)) == Some((eh * 60 + em) - (sh * 60 + sm))
  {
  }

  /** The duration between two padded time texts. */
  lemma ClockDuration(h1: int, m1: int, h2: int, m2: int)
    ensures Duration(ClockText(h1, m1), ClockText(h2, m2)) == Some((h2 * 60 + m2) - (h1 * 60 + m1))
  {
    ClockTextFields(h1, m1);
    ClockTextFields(h2, m2);
    DurationOfFields(ClockText(h1, m1), ClockText(h2, m2), h1, m1, h2, m2);
  }

  lemma DurationOfFields(t1: string, t2: string, h1: int, m1: int, h2: int, m2: int)
    requires ClockFields(t1) == (Some(h1), Some(m1)) && ClockFields(t2) == (Some(h2), Some(m2))
    ensures Duration(t1, t2) == Some((h2 * 60 + m2) - (h1 * 60 + m1))
  {
    MinutesOfFields(t1, h1, m1);
    MinutesOfFields(t2, h2, m2);
  }

  /** The duration of an event whose fields are known, and its start has a `:`. */
  lemma OldDuration(startTime: string, endTime: string, sh: int, sm: int, eh: int, em: int)
    requires ClockFields(startTime) == (Some(sh), Some(sm)) && ClockFields(endTime) == (Some(eh), Some(em))
    ensures ':' in startTime
    ensures Duration(startTime, endTime) == Some((eh * 60 + em) - (sh * 60 + sm))
  {
    assert ':' in startTime by {
      SplitSpec(startTime, ':');
    }
    DurationOfFields(startTime, endTime, sh, sm, eh, em);
  }

  /** The texts a drop writes, from the start's minute and the duration. */
  lemma DroppedTexts(startTime: string, endTime: string, hour: nat, sm: int, d: int, endHour: nat, endMin: nat)
    requires ':' in startTime && ClockFields(startTime).1 == Some(sm) && Duration(startTime, endTime) == Some(d)
    requires endMin < 60 && endHour * 60 + endMin == hour * 60 + sm + d
    ensures DropTimes(startTime, endTime, hour) == Some((ClockText(hour, sm), ClockText(endHour, endMin)))
  {
    var end := endHour * 60 + endMin;
    assert Plus(Plus(Some(hour * 60), Some(sm)), Some(d)) == Some(end);
    EndTextClock(end, endHour, endMin);
    assert FieldText(Some(sm)) == PadInt(sm, 2);
  }

  /** The end is not wrapped at midnight: an hour-long event dropped on
      23:00 ends at hour 24. */
  lemma DropPastMidnight(m: nat)
    requires m < 60
    ensures DropTimes(ClockText(22, m), ClockText(23, m), 23) == Some((ClockText(23, m), ClockText(24, m)))
  {
    ClockTextFields(22, m);
    ClockTextFields(23, m);
    DropKeepsDuration(ClockText(22, m), ClockText(23, m), 23, 22, m, 23, m, 24, m);
  }

  /** How many of the day's events have the category: none of them exactly
      when no event has it, all of them exactly when every event has it. */
  function CategoryCount(dayEvents: seq<Event>, category: string): (c: nat)
    ensures c <= |dayEvents|
    ensures c == |dayEvents| <==> forall e :: e in dayEvents ==> e.category == category
    ensures c == 0 <==> forall e :: e in dayEvents ==> e.category != category
  {
    var inCategory := (e: Event) => e.category == category;
    var matching := Filter(dayEvents, inCategory);
    FilterSpec(dayEvents, inCategory);
    FilterLength(dayEvents, inCategory);
    assert matching != [] ==> matching[0] in matching;
    |matching|
  }

  /** The hours of the timeline, 6 to 23. */
  const Hours: seq<int> := seq(18, i => i + 6)

  /** The label of an hour on the timeline, on a 12-hour clock. */
  function FormatTime(hour: int): string
  {
    IntToString(DisplayHour(hour)) + ":00 " + AmPm(hour >= 12)
  }

  /** The hour shown on a 12-hour clock. */
  function DisplayHour(hour: int): int
  {
    if hour > 12 then hour - 12 else if hour == 0 then 12 else hour
  }

  function AmPm(pm: bool): string
  {
    if pm then "PM" else "AM"
  }

  /** Reads a 12-hour label back as an hour of the day. */
  function LabelHour(labelText: string): Option<int>
  {
    if ':' in labelText && |labelText| >= 2 then
      var digits := labelText[..IndexOf(labelText, ':')];
      if digits != [] && AllDigits(digits) then
        var shown := DigitsValue(digits);
        var pm := labelText[|labelText| - 2..] == "PM";
        Some(if pm then (if shown == 12 then 12 else shown + 12) else (if shown == 12 then 0 else shown))
      else None
    else None
  }

  /** Every hour of the day has its own labelText: 12 stands for noon with PM
      and for midnight with AM, the afternoon counts from 1 PM. */
  lemma FormatTimeRoundTrip(hour: int)
    requires 0 <= hour <= 23
    ensures LabelHour(FormatTime(hour)) == Some(hour)
    ensures FormatTime(hour)[|FormatTime(hour)| - 2..] == (if hour >= 12 then "PM" else "AM")
  {
    HourBack(hour);
    NatToStringValue(DisplayHour(hour));
    LabelRead(IntToString(DisplayHour(hour)), hour >= 12, DisplayHour(hour));
  }

  /** A label made of digits, `:00 ` and AM or PM reads back as the hour
      the digits and the suffix stand for. */
  lemma LabelRead(digits: string, pm: bool, shown: int)
    requires digits != [] && AllDigits(digits) && DigitsValue(digits) == shown
    ensures var t := digits + ":00 " + AmPm(pm);
      LabelHour(t) == Some(if pm then (if shown == 12 then 12 else shown + 12) else (if shown == 12 then 0 else shown))
      && t[|t| - 2..] == AmPm(pm)
  {
    LabelShape(digits, AmPm(pm));
  }

  /** Where the digits and the suffix sit in a label. */
  lemma LabelShape(digits: string, suffix: string)
    requires AllDigits(digits) && |suffix| == 2
    ensures var t := digits + ":00 " + suffix;
      ':' in t && IndexOf(t, ':') == |digits| && t[..|digits|] == digits && t[|t| - 2..] == suffix
  {
    var t := digits + ":00 " + suffix;
    assert t == digits + [':'] + ("00 " + suffix);
    FirstAfterDigits(digits, ':', "00 " + suffix);
    assert t[..|digits|] == digits;
    assert t[|t| - 2..] == suffix;
  }

  /** The 12-hour reading of the shown hour and the suffix is the hour of the day. */
  lemma HourBack(hour: int)
    requires 0 <= hour <= 23
    ensures 1 <= DisplayHour(hour) <= 12 && IntToString(DisplayHour(hour)) == NatToString(DisplayHour(hour))
    ensures Some(if hour >= 12 then (if DisplayHour(hour) == 12 then 12 else DisplayHour(hour) + 12)
                 else (if DisplayHour(hour) == 12 then 0 else DisplayHour(hour))) == Some(hour)
  {
  }

  lemma FormatTimeInjective(a: int, b: int)
    requires 0 <= a <= 23 && 0 <= b <= 23
    ensures FormatTime(a) == FormatTime(b) <==> a == b
  {
    FormatTimeRoundTrip(a);
    FormatTimeRoundTrip(b);
  }
}
