/** The habit tracker page: a list of habits, a ledger of completion flags
    keyed by `"{habitId}-{dateKey}"`, the days of the shown month grouped
    into weeks, the completion statistics and drag-and-drop reordering. */
module HabitTracker {
  import opened Base
  import opened Text
  import opened Seqs
  import opened Dates

  /** A habit; `id` comes from the clock and `createdAt` is a timestamp
      text, both taken as parameters. */
  datatype Habit = Habit(id: nat, name: string, order: int, createdAt: string)

  /** The completion ledger. A key that is absent reads as `undefined`. */
  type Ledger = map<string, bool>

  predicate Truthy(ledger: Ledger, key: string)
  {
    key in ledger && ledger[key]
  }

  /** `${habitId}-${dateKey}`. */
  function CompletionKey(habitId: nat, dateKey: string): string
  {
    NatToString(habitId) + "-" + dateKey
  }

  /** Adding a habit: nothing happens for a blank name; otherwise exactly
      one habit is appended, positioned after the existing ones. */
  function AddHabit(habits: seq<Habit>, name: string, id: nat, createdAt: string): (r: seq<Habit>)
    ensures IsBlank(name) ==> r == habits
    ensures !IsBlank(name) ==> |r| == |habits| + 1 && r[..|habits|] == habits
    ensures !IsBlank(name) ==> r[|habits|] == Habit(id, name, |habits|, createdAt)
  {
    if IsBlank(name) then habits
    else habits + [Habit(id, name, |habits|, createdAt)]
  }

  /** Flipping one completion flag: the key of that habit and day becomes the
      negation of what it read as, and no other key changes. */
  function ToggleCompletion(ledger: Ledger, habitId: nat, dateKey: string): (r: Ledger)
    ensures CompletionKey(habitId, dateKey) in r
    ensures r[CompletionKey(habitId, dateKey)] == !Truthy(ledger, CompletionKey(habitId, dateKey))
    ensures forall k :: k != CompletionKey(habitId, dateKey) ==>
      (k in r <==> k in ledger) && (k in r ==> r[k] == ledger[k])
  {
    var key := CompletionKey(habitId, dateKey);
    ledger[key := !Truthy(ledger, key)]
  }

  /** Toggling twice restores what the key reads as, but a key that was
      absent is left stored as `false` rather than removed. */
  lemma ToggleTwice(ledger: Ledger, habitId: nat, dateKey: string)
    ensures var key := CompletionKey(habitId, dateKey);
      var twice := ToggleCompletion(ToggleCompletion(ledger, habitId, dateKey), habitId, dateKey);
      twice == ledger[key := Truthy(ledger, key)]
      && (key !in ledger ==> key in twice && !twice[key])
  {
  }

  /** The habits other than those with the given id, in their order. */
  function RemoveHabit(habits: seq<Habit>, id: nat): (r: seq<Habit>)
    ensures forall h :: h in r <==> h in habits && h.id != id
    ensures IsSubsequence(r, habits)
    ensures forall h :: multiset(r)[h] == if h.id != id then multiset(habits)[h] else 0
  {
    var keep := (h: Habit) => h.id != id;
    FilterSpec(habits, keep);
    Filter(habits, keep)
  }

  /** Deleting a habit once the user confirms: the habit goes, and the loop
      over the ledger's keys removes every key that starts with `{id}-`. */
  method DeleteHabit(habits: seq<Habit>, ledger: Ledger, id: nat, confirmed: bool)
    returns (newHabits: seq<Habit>, newLedger: Ledger)
    ensures !confirmed ==> newHabits == habits && newLedger == ledger
    ensures confirmed ==> newHabits == RemoveHabit(habits, id)
    ensures confirmed ==> forall k :: k in newLedger <==> k in ledger && !StartsWith(k, NatToString(id) + "-")
    ensures forall k :: k in newLedger ==> k in ledger && newLedger[k] == ledger[k]
    ensures confirmed ==> forall dateKey :: CompletionKey(id, dateKey) !in newLedger
    ensures forall other: nat, dateKey :: other != id && CompletionKey(other, dateKey) in ledger ==>
      CompletionKey(other, dateKey) in newLedger
  {
    if !confirmed {
      return habits, ledger;
    }
    newHabits := RemoveHabit(habits, id);
    var prefix := NatToString(id) + "-";
    newLedger := ledger;
    var keys := ledger.Keys;
    while keys != {}
      invariant keys <= ledger.Keys
      invariant forall k :: k in newLedger ==> k in ledger && newLedger[k] == ledger[k]
      invariant forall k :: k in ledger ==> (k in newLedger <==> k in keys || !StartsWith(k, prefix))
      decreases |keys|
    {
      var k :| k in keys;
      if StartsWith(k, prefix) {
        newLedger := newLedger - {k};
      }
      keys := keys - {k};
    }
    forall dateKey | true
      ensures CompletionKey(id, dateKey) !in newLedger
    {
      assert CompletionKey(id, dateKey)[..|prefix|] == prefix;
    }
    forall other: nat, dateKey | other != id && CompletionKey(other, dateKey) in ledger
      ensures CompletionKey(other, dateKey) in newLedger
    {
      OtherIdPrefix(id, other, dateKey);
    }
  }

  /** The key of another numeric id never starts with `{id}-`: the digits
      of one id cannot run on into the other's. */
  lemma OtherIdPrefix(id: nat, other: nat, dateKey: string)
    ensures StartsWith(CompletionKey(other, dateKey), NatToString(id) + "-") ==> other == id
  {
    var a := NatToString(id);
    var b := NatToString(other);
    var key := CompletionKey(other, dateKey);
    FirstAfterDigits(b, '-', dateKey);
    if StartsWith(key, a + "-") {
      var rest := key[|a| + 1..];
      assert key == a + "-" + rest by {
        assert key[..|a| + 1] == a + "-";
      }
      FirstAfterDigits(a, '-', rest);
      assert a == key[..|a|] == b;
      NatToStringInjective(id, other);
    }
  }

  /** The days 1..N of the month of `current`, in order, one per loop turn. */
  method GetDaysInMonth(current: Date) returns (days: seq<Date>)
    ensures |days| == DaysInMonth(current.year, current.month)
    ensures forall i :: 0 <= i < |days| ==> days[i] == Ymd(current.year, current.month, i + 1)
  {
    var year, month := current.year, current.month - 1;
    MakeDateDayZero(year, month + 1);
    var daysInMonth := MakeDate(year, month + 1, 0).day;
    days := [];
    var day := 1;
    while day <= daysInMonth
      invariant 1 <= day <= daysInMonth + 1
      invariant |days| == day - 1
      invariant forall i :: 0 <= i < |days| ==> days[i] == Ymd(year, month + 1, i + 1)
    {
      DayOfMonth(year, month, day);
      days := days + [MakeDate(year, month, day)];
      day := day + 1;
    }
  }

  /** `new Date(year, monthIndex, day)` for a day of that month. */
  lemma DayOfMonth(year: int, monthIndex: int, day: int)
    requires 0 <= monthIndex < 12 && 1 <= day <= DaysInMonth(year, monthIndex + 1)
    ensures MakeDate(year, monthIndex, day) == Ymd(year, monthIndex + 1, day)
  {
    assert monthIndex / 12 == 0 && monthIndex % 12 == monthIndex;
    MakeDateInMonth(year, monthIndex, day);
  }

  function Last<T>(s: seq<T>): T
    requires s != []
  {
    s[|s| - 1]
  }

  /** Grouping the days into weeks: a week is closed after each Sunday and
      after the last day. The weeks lay end to end give the days back. */
  method GroupWeeks(days: seq<Date>) returns (weeks: seq<seq<Date>>)
    ensures Concat(weeks) == days
    ensures forall k :: 0 <= k < |weeks| ==> weeks[k] != []
    ensures forall k :: 0 <= k < |weeks| - 1 ==> Weekday(Last(weeks[k])) == 0
    ensures forall k, j :: 0 <= k < |weeks| && 0 <= j < |weeks[k]| - 1 ==> Weekday(weeks[k][j]) != 0
  {
    weeks := SplitAfter(days, IsSunday);
  }

  const IsSunday: Date -> bool := (d: Date) => Weekday(d) == 0

  /** The loop of `GroupWeeks`, for any test that closes a group: a group is
      closed after each item that passes the test and after the last item. */
  method SplitAfter<T>(items: seq<T>, closes: T -> bool) returns (groups: seq<seq<T>>)
    ensures Concat(groups) == items
    ensures forall k :: 0 <= k < |groups| ==> groups[k] != []
    ensures forall k :: 0 <= k < |groups| - 1 ==> closes(Last(groups[k]))
    ensures forall k, j :: 0 <= k < |groups| && 0 <= j < |groups[k]| - 1 ==> !closes(groups[k][j])
  {
    groups := [];
    var current: seq<T> := [];
    var index := 0;
    while index < |items|
      invariant 0 <= index <= |items|
      invariant Concat(groups) + current == items[..index]
      invariant forall k :: 0 <= k < |groups| ==> groups[k] != [] && OpenBefore(groups[k], closes)
      invariant forall k :: 0 <= k < |groups| ==> closes(Last(groups[k])) || (k == |groups| - 1 && index == |items|)
      invariant forall j :: 0 <= j < |current| ==> !closes(current[j])
      invariant index == |items| ==> current == []
    {
      var item := items[index];
      assert items[..index + 1] == items[..index] + [item];
      if closes(item) || index == |items| - 1 {
        var group := current + [item];
        assert Last(group) == item;
        assert OpenBefore(group, closes) by {
          assert forall j :: 0 <= j < |group| - 1 ==> group[j] == current[j];
        }
        ConcatSnoc(groups, group);
        groups := groups + [group];
        current := [];
      } else {
        current := current + [item];
      }
      index := index + 1;
    }
    assert items[..index] == items;
  }

  /** No item of the group before its last closes it. */
  predicate OpenBefore<T>(group: seq<T>, closes: T -> bool)
  {
    forall j :: 0 <= j < |group| - 1 ==> !closes(group[j])
  }

  /** `habits.findIndex((h) => h.id === id)`. */
  function IndexOfId(habits: seq<Habit>, id: nat): (i: int)
    ensures -1 <= i < |habits|
    ensures i >= 0 ==> habits[i].id == id
    ensures forall j :: 0 <= j < |habits| && (i < 0 || j < i) ==> habits[j].id != id
  {
    FindIndex(habits, (h: Habit) => h.id == id)
  }

  /** A habit with its position field cleared, to compare lists up to renumbering. */
  function WithoutOrder(habits: seq<Habit>): (r: seq<Habit>)
    ensures |r| == |habits|
    ensures forall i :: 0 <= i < |habits| ==> r[i] == habits[i].(order := 0)
  {
    seq(|habits|, i requires 0 <= i < |habits| => habits[i].(order := 0))
  }

  lemma WithoutOrderAppend(a: seq<Habit>, b: seq<Habit>)
    ensures WithoutOrder(a + b) == WithoutOrder(a) + WithoutOrder(b)
  {
  }

  lemma UnorderedUnion(a: seq<Habit>, b: seq<Habit>)
    ensures multiset(WithoutOrder(a + b)) == multiset(WithoutOrder(a)) + multiset(WithoutOrder(b))
  {
    WithoutOrderAppend(a, b);
  }

  /** `habits.map((h, i) => ({ ...h, order: i }))`: positions become dense
      indices and nothing else changes. */
  function Renumber(habits: seq<Habit>): (r: seq<Habit>)
    ensures |r| == |habits|
    ensures forall i :: 0 <= i < |r| ==> r[i].order == i
    ensures WithoutOrder(r) == WithoutOrder(habits)
  {
    seq(|habits|, i requires 0 <= i < |habits| => habits[i].(order := i))
  }

  /** A drop moves the dragged habit: nothing happens for a self-drop or
      when nothing is dragged; otherwise the dragged habit is cut out at its
      index and put back in at the target's original index, and the list is
      renumbered. When the first habit with the dragged id is the dragged
      habit itself, the result holds the same habits and the dragged one
      sits at the target's old index. */
  method HandleDrop(habits: seq<Habit>, dragged: Option<Habit>, target: Habit) returns (r: seq<Habit>)
    ensures dragged.None? || dragged.value.id == target.id ==> r == habits
    ensures (dragged.Some? && dragged.value.id != target.id
      && IndexOfId(habits, dragged.value.id) >= 0 && habits[IndexOfId(habits, dragged.value.id)] == dragged.value) ==>
        |r| == |habits|
        && (forall i :: 0 <= i < |r| ==> r[i].order == i)
        && multiset(WithoutOrder(r)) == multiset(WithoutOrder(habits))
        && (IndexOfId(habits, target.id) >= 0 ==>
              r[IndexOfId(habits, target.id)] == dragged.value.(order := IndexOfId(habits, target.id)))
  {
    if dragged.None? || dragged.value.id == target.id {
      return habits;
    }
    var d := dragged.value;
    var draggedIndex := IndexOfId(habits, d.id);
    var targetIndex := IndexOfId(habits, target.id);
    var newHabits := habits;
    newHabits := Splice(newHabits, draggedIndex, 1, []);
    ghost var cut := newHabits;
    newHabits := Splice(newHabits, targetIndex, 0, [d]);
    r := Renumber(newHabits);
    if draggedIndex >= 0 && habits[draggedIndex] == d {
      assert cut == habits[..draggedIndex] + habits[draggedIndex + 1..];
      var at := SpliceStart(|cut|, targetIndex);
      assert newHabits == cut[..at] + [d] + cut[at..];
      MovedIsPermutation(habits, draggedIndex, cut, at, newHabits);
      assert multiset(WithoutOrder(r)) == multiset(WithoutOrder(habits));
    }
  }

  lemma MovedIsPermutation(habits: seq<Habit>, from: nat, cut: seq<Habit>, at: nat, moved: seq<Habit>)
    requires from < |habits| && cut == habits[..from] + habits[from + 1..]
    requires at <= |cut| && moved == cut[..at] + [habits[from]] + cut[at..]
    ensures multiset(WithoutOrder(moved)) == multiset(WithoutOrder(habits))
  {
    var x := habits[from];
    var before, after := habits[..from], habits[from + 1..];
    var left, right := cut[..at], cut[at..];
    assert habits == before + [x] + after;
    assert cut == left + right;
    var mx := multiset(WithoutOrder([x]));
    UnorderedUnion(before + [x], after);
    UnorderedUnion(before, [x]);
    UnorderedUnion(before, after);
    UnorderedUnion(left + [x], right);
    UnorderedUnion(left, [x]);
    UnorderedUnion(left, right);
    calc {
      multiset(WithoutOrder(moved));
      multiset(WithoutOrder(left)) + mx + multiset(WithoutOrder(right));
      multiset(WithoutOrder(cut)) + mx;
      multiset(WithoutOrder(before)) + multiset(WithoutOrder(after)) + mx;
      multiset(WithoutOrder(habits));
    }
  }

  /** Removing a habit leaves a gap in the positions, so a habit added next
      can share its position with one already there: positions are not
      unique, and the page never reads them. */
  lemma OrderCanRepeat(a: Habit, b: Habit, name: string, id: nat, createdAt: string)
    requires a.id != b.id && a.order == 0 && b.order == 1 && !IsBlank(name)
    ensures var after := AddHabit(RemoveHabit([a, b], a.id), name, id, createdAt);
      |after| == 2 && after[0].order == after[1].order
  {
    assert RemoveHabit([a, b], a.id) == [b] by {
      assert [a, b][1..] == [b];
      assert [b][1..] == [];
    }
  }

  /** How many habits are completed on the day with the given key. */
  function CompletedCount(habits: seq<Habit>, ledger: Ledger, dateKey: string): (c: nat)
    ensures c <= |habits|
    ensures c == |habits| <==> forall h :: h in habits ==> Truthy(ledger, CompletionKey(h.id, dateKey))
  {
    var done := Filter(habits, (h: Habit) => Truthy(ledger, CompletionKey(h.id, dateKey)));
    FilterLength(habits, (h: Habit) => Truthy(ledger, CompletionKey(h.id, dateKey)));
    |done|
  }

  datatype DayProgress = DayProgress(day: Date, completedCount: nat, total: nat, percentage: real)

  /** The per-day progress row: the count of completed habits out of all
      habits, and its percentage (0 when there are no habits). */
  function DailyProgress(habits: seq<Habit>, ledger: Ledger, days: seq<Date>): (r: seq<DayProgress>)
    ensures |r| == |days|
    ensures forall i :: 0 <= i < |r| ==>
      r[i].day == days[i] && r[i].total == |habits| && r[i].completedCount <= r[i].total
      && (r[i].total == 0 ==> r[i].percentage == 0.0)
      && 0.0 <= r[i].percentage <= 100.0
      && (r[i].completedCount == r[i].total > 0 ==> r[i].percentage == 100.0)
  {
    seq(|days|, i requires 0 <= i < |days| =>
      var c := CompletedCount(habits, ledger, DateKey(days[i]));
      DayProgress(days[i], c, |habits|, Percent(c, |habits|)))
  }

  datatype HabitStats = HabitStats(habit: Habit, completedDays: nat, completionRate: real)

  /** The per-habit row: on how many of the shown days the habit is
      completed, and that as a percentage of the days (0 for no days). */
  function HabitAnalysis(habits: seq<Habit>, ledger: Ledger, days: seq<Date>): (r: seq<HabitStats>)
    ensures |r| == |habits|
    ensures forall i :: 0 <= i < |r| ==>
      r[i].habit == habits[i] && r[i].completedDays <= |days|
      && (|days| == 0 ==> r[i].completionRate == 0.0)
      && 0.0 <= r[i].completionRate <= 100.0
  {
    seq(|habits|, i requires 0 <= i < |habits| =>
      var h := habits[i];
      var c := |Filter(days, (d: Date) => Truthy(ledger, CompletionKey(h.id, DateKey(d))))|;
      HabitStats(h, c, Percent(c, |days|)))
  }

  /** The month's completion rate: the counted completions out of one per
      habit and shown day, in percent; 0 when there is nothing to count. */
  function CompletionPercentage(actual: nat, habitCount: nat, dayCount: nat): (p: real)
    ensures habitCount == 0 || dayCount == 0 ==> p == 0.0
    ensures 0.0 <= p
    ensures actual <= habitCount * dayCount ==> p <= 100.0
    ensures 0 < habitCount * dayCount == actual ==> p == 100.0
  {
    Percent(actual, habitCount * dayCount)
  }

  /** The month key of the statistics: the year as `getFullYear()` prints
      it (no padding), a dash and the two-digit month. */
  function MonthKey(year: int, month: nat): string
  {
    IntToString(year) + "-" + TwoDigits(month)
  }

  /** `key.split('-')[1]`, or `None` (`undefined`) for a key with no dash. */
  function SecondField(key: string): (r: Option<string>)
    ensures r.Some? ==> '-' !in r.value
    ensures r.None? <==> '-' !in key
  {
    var parts := Split(key, '-');
    SplitSpec(key, '-');
    if |parts| >= 2 then Some(parts[1]) else None
  }

  /** The number of completions in the month, AS WRITTEN: each key is split
      at every dash and its second field is tested against the month key.
      A key with no dash makes the test throw (`None`). */
  function ActualCompletionsAsWritten(ledger: Ledger, monthKey: string): Option<nat>
  {
    if exists k :: k in ledger && '-' !in k then None
    else Some(|set k | k in ledger && SecondField(k).Some? && StartsWith(SecondField(k).value, monthKey) && ledger[k]|)
  }

  /** A text starting with a prefix contains every character of the prefix. */
  lemma PrefixKeepsChar(s: string, prefix: string, c: char)
    requires c in prefix
    ensures StartsWith(s, prefix) ==> c in s
  {
    if StartsWith(s, prefix) {
      var i := IndexOf(prefix, c);
      assert s[i] == s[..|prefix|][i] == c;
    }
  }

  /** As written the count is never positive: a split field holds no dash,
      and the month key does. */
  lemma AsWrittenCountsNothing(ledger: Ledger, monthKey: string)
    requires '-' in monthKey
    ensures ActualCompletionsAsWritten(ledger, monthKey) == None || ActualCompletionsAsWritten(ledger, monthKey) == Some(0)
    ensures (forall k :: k in ledger ==> '-' in k) ==> ActualCompletionsAsWritten(ledger, monthKey) == Some(0)
  {
    var matching := set k | k in ledger && SecondField(k).Some? && StartsWith(SecondField(k).value, monthKey) && ledger[k];
    forall k | k in ledger && SecondField(k).Some?
      ensures !StartsWith(SecondField(k).value, monthKey)
    {
      PrefixKeepsChar(SecondField(k).value, monthKey, '-');
    }
    assert matching == {};
  }

  /** The date key of a completion key: the text after its first dash. */
  function DateKeyOfCompletion(key: string): Option<string>
  {
    if '-' in key then Some(key[IndexOf(key, '-') + 1..]) else None
  }

  /** The id and the date key are recovered from a completion key. */
  lemma CompletionKeySplits(id: nat, dateKey: string)
    ensures DateKeyOfCompletion(CompletionKey(id, dateKey)) == Some(dateKey)
  {
    var digits := NatToString(id);
    var key := CompletionKey(id, dateKey);
    FirstAfterDigits(digits, '-', dateKey);
    assert key[|digits| + 1..] == dateKey;
  }

  /** The number of completions in the month, as intended: the whole date
      key after the first dash is tested against the month key. */
  function ActualCompletions(ledger: Ledger, monthKey: string): (c: nat)
    ensures c <= |ledger|
  {
    var counted := set k | k in ledger && ledger[k] && DateKeyOfCompletion(k).Some? && StartsWith(DateKeyOfCompletion(k).value, monthKey);
    assert counted <= ledger.Keys;
    SubsetCard(counted, ledger.Keys);
    |counted|
  }

  lemma SubsetCard<T>(a: set<T>, b: set<T>)
    requires a <= b
    ensures |a| <= |b|
  {
    assert b == a + (b - a);
  }

  lemma FourDigitYear(y: int)
    requires 1000 <= y <= 9999
    ensures YearText(y) == IntToString(y) == NatToString(y) && |NatToString(y)| == 4
  {
    assert Pow10(4) == 10000 && Pow10(3) == 1000 by {
      assert Pow10(1) == 10;
      assert Pow10(2) == 100;
    }
    NatToStringLength(y, 4);
    NatToStringLengthAtLeast(y, 4);
  }

  /** For four-digit years a date key starts with the month key exactly
      when the date lies in that month. */
  lemma DateKeyInMonth(d: Date, year: int, month: int)
    requires 1000 <= d.year <= 9999 && 1000 <= year <= 9999 && 1 <= month <= 12
    ensures StartsWith(DateKey(d), MonthKey(year, month)) <==> d.year == year && d.month == month
  {
    FourDigitYear(d.year);
    FourDigitYear(year);
    TwoDigitsExact(d.month);
    TwoDigitsExact(month);
    TwoDigitsExact(d.day);
    NatToStringInjective(d.year, year);
    var a := NatToString(d.year) + "-" + TwoDigits(d.month);
    var b := MonthKey(year, month);
    assert DateKey(d) == a + "-" + TwoDigits(d.day);
    assert DateKey(d)[..7] == a;
    if a == b {
      assert a[..4] == NatToString(d.year) && b[..4] == NatToString(year);
      assert a[5..] == TwoDigits(d.month) && b[5..] == TwoDigits(month);
    }
  }

  /** One completion on a day of a four-digit year is counted once in its
      month as intended, while the code as written counts nothing. */
  lemma CompletionCountedInItsMonth(id: nat, d: Date)
    requires 1000 <= d.year <= 9999
    ensures var ledger := map[CompletionKey(id, DateKey(d)) := true];
      ActualCompletions(ledger, MonthKey(d.year, d.month)) == 1
      && ActualCompletionsAsWritten(ledger, MonthKey(d.year, d.month)) == Some(0)
  {
    var key := CompletionKey(id, DateKey(d));
    var monthKey := MonthKey(d.year, d.month);
    CompletionKeySplits(id, DateKey(d));
    DateKeyInMonth(d, d.year, d.month);
    SingleCompletionCounted(key, DateKey(d), monthKey);
    KeyHasDash(id, DateKey(d));
    MonthKeyHasDash(d.year, d.month);
    SingleCompletionAsWritten(key, monthKey);
  }

  lemma KeyHasDash(id: nat, dateKey: string)
    ensures '-' in CompletionKey(id, dateKey)
  {
    assert CompletionKey(id, dateKey)[|NatToString(id)|] == '-';
  }

  lemma MonthKeyHasDash(year: int, month: nat)
    requires 1000 <= year <= 9999
    ensures '-' in MonthKey(year, month)
  {
    FourDigitYear(year);
    assert MonthKey(year, month)[4] == '-';
  }

  lemma SingleCompletionCounted(key: string, dateKey: string, monthKey: string)
    requires DateKeyOfCompletion(key) == Some(dateKey) && StartsWith(dateKey, monthKey)
    ensures ActualCompletions(map[key := true], monthKey) == 1
  {
    var ledger := map[key := true];
    var counted := set k | k in ledger && ledger[k] && DateKeyOfCompletion(k).Some? && StartsWith(DateKeyOfCompletion(k).value, monthKey);
    assert counted == {key};
  }

  lemma SingleCompletionAsWritten(key: string, monthKey: string)
    requires '-' in key && '-' in monthKey
    ensures ActualCompletionsAsWritten(map[key := true], monthKey) == Some(0)
  {
    var ledger := map[key := true];
    assert forall k :: k in ledger ==> '-' in k;
    AsWrittenCountsNothing(ledger, monthKey);
  }
}
