/**
 * The admin task list (pages/admin.js): rows of the task table are given
 * safe defaults, ordered by sort index and title, narrowed by the search box
 * and the two drop-down filters, and shown through three small formatters.
 */
module Admin {
  import opened Js
  import opened Sequences

  /** A row as `select("*")` returns it. The title column is text or null. */
  datatype RawTask = RawTask(
    id: Value,
    title: Option<string>,
    active: Value,
    points: Value,
    due_time: Value,
    frequency: Value,
    days_of_week: Value,
    weekly_day: Value,
    day_of_month: Value,
    specific_date: Value,
    sort_index: Value)

  /** A row after normalisation (lines 99-111): the typed fields the rest of the page reads. */
  datatype Task = Task(
    id: Value,
    title: string,
    active: bool,
    points: int,
    due_time: Value,
    frequency: Value,
    days_of_week: Value,
    weekly_day: Option<int>,
    day_of_month: Value,
    specific_date: Value,
    sort_index: int)

  // ---------------------------------------------------------------------------
  // Normalisation
  // ---------------------------------------------------------------------------

  /** Lines 100-110: one row with its defaults filled in. */
  function Normalize(t: RawTask): (r: Task)
    ensures r.id == t.id
    ensures r.title == (if t.title.Some? then t.title.value else "")
    ensures t.active.Bool? ==> r.active == t.active.b
    ensures !t.active.Bool? ==> r.active
    ensures t.points.Num? ==> r.points == t.points.n
    ensures !t.points.Num? ==> r.points == 1
    ensures t.sort_index.Num? ==> r.sort_index == t.sort_index.n
    ensures !t.sort_index.Num? ==> r.sort_index == 1000
    ensures r.weekly_day.Some? <==> t.weekly_day.Num?
    ensures r.weekly_day.Some? ==> r.weekly_day.value == t.weekly_day.n
    ensures !IsNullish(t.due_time) ==> r.due_time == t.due_time
    ensures !IsNullish(t.frequency) ==> r.frequency == t.frequency
    ensures !IsNullish(t.days_of_week) ==> r.days_of_week == t.days_of_week
    ensures !IsNullish(t.day_of_month) ==> r.day_of_month == t.day_of_month
    ensures !IsNullish(t.specific_date) ==> r.specific_date == t.specific_date
    ensures IsNullish(t.due_time) ==> r.due_time == Null
    ensures IsNullish(t.frequency) ==> r.frequency == Null
    ensures IsNullish(t.days_of_week) ==> r.days_of_week == Null
    ensures IsNullish(t.day_of_month) ==> r.day_of_month == Null
    ensures IsNullish(t.specific_date) ==> r.specific_date == Null
  {
    Task(
      id := t.id,
      title := if t.title.Some? then t.title.value else "",
      active := if t.active.Bool? then t.active.b else true,
      points := if t.points.Num? then t.points.n else 1,
      due_time := Coalesce(t.due_time, Null),
      frequency := Coalesce(t.frequency, Null),
      days_of_week := Coalesce(t.days_of_week, Null),
      weekly_day := if t.weekly_day.Num? then Some(t.weekly_day.n) else None,
      day_of_month := Coalesce(t.day_of_month, Null),
      specific_date := Coalesce(t.specific_date, Null),
      sort_index := if t.sort_index.Num? then t.sort_index.n else 1000)
  }

  /** Line 99: `(data || []).map(...)`. */
  function NormalizeAll(data: Option<seq<RawTask>>): (r: seq<Task>)
    ensures data.None? ==> r == []
    ensures data.Some? ==> |r| == |data.value|
    ensures data.Some? ==> forall i :: 0 <= i < |r| ==> r[i] == Normalize(data.value[i])
  {
    if data.None? then []
    else seq(|data.value|, i requires 0 <= i < |data.value| => Normalize(data.value[i]))
  }

  /** A normalised row written back as a table row. */
  function AsRow(t: Task): RawTask {
    RawTask(
      t.id, Some(t.title), Bool(t.active), Num(t.points), t.due_time, t.frequency,
      t.days_of_week, if t.weekly_day.Some? then Num(t.weekly_day.value) else Null,
      t.day_of_month, t.specific_date, Num(t.sort_index))
  }

  /** A row whose every field already has the type normalisation asks for. */
  predicate WellTyped(t: RawTask) {
    t.title.Some? && t.active.Bool? && t.points.Num? && t.sort_index.Num?
    && (t.weekly_day.Num? || t.weekly_day.Null?)
    && !t.due_time.Undefined? && !t.frequency.Undefined? && !t.days_of_week.Undefined?
    && !t.day_of_month.Undefined? && !t.specific_date.Undefined?
  }

  /** Normalisation leaves a well-typed row as it is... */
  lemma NormalizeWellTyped(t: RawTask)
    requires WellTyped(t)
    ensures AsRow(Normalize(t)) == t
  {
  }

  /** ...and always produces one, so normalising twice is normalising once. */
  lemma NormalizeIdempotent(t: RawTask)
    ensures WellTyped(AsRow(Normalize(t)))
    ensures Normalize(AsRow(Normalize(t))) == Normalize(t)
  {
  }

  // ---------------------------------------------------------------------------
  // Order: sort index, then title
  // ---------------------------------------------------------------------------

  /**
   * The comparator of lines 114-118. After normalisation `sort_index` is
   * always a number, so the `?? 1000` there never applies.
   */
  function Compare(a: Task, b: Task): (r: int)
    ensures r < 0 <==> a.sort_index < b.sort_index || (a.sort_index == b.sort_index && StrLe(a.title, b.title) && a.title != b.title)
    ensures r == 0 <==> a.sort_index == b.sort_index && a.title == b.title
  {
    var si := a.sort_index - b.sort_index;
    if si != 0 then si else StrCompare(a.title, b.title)
  }

  /**
   * `Compare(a, b) <= 0`: a may stay in front of b, which orders by sort
   * index, then by title.
   */
  function AdminLe(a: Task, b: Task): (le: bool)
    ensures le <==> a.sort_index < b.sort_index || (a.sort_index == b.sort_index && StrLe(a.title, b.title))
  {
    StrLeReflexive(a.title);
    Compare(a, b) <= 0
  }

  /** The comparator is consistent, as `sort` needs. */
  lemma AdminOrderConsistent()
    ensures IsTotalPreorder(AdminLe)
  {
    forall a: Task, b: Task ensures AdminLe(a, b) || AdminLe(b, a) {
      StrLeTotal(a.title, b.title);
    }
    forall a: Task, b: Task, c: Task | AdminLe(a, b) && AdminLe(b, c) ensures AdminLe(a, c) {
      if a.sort_index == b.sort_index == c.sort_index {
        StrLeTransitive(a.title, b.title, c.title);
      }
    }
  }

  /** Lines 114-118: sorts the normalised rows in place. */
  method SortTasks(a: array<Task>)
    modifies a
    ensures a[..] == Sort(old(a[..]), AdminLe)
    ensures Sorted(a[..], AdminLe)
    ensures multiset(a[..]) == multiset(old(a[..]))
  {
    InsertionSort(a, AdminLe);
    AdminOrderConsistent();
    SortSorted(old(a[..]), AdminLe);
  }

  /**
   * Lines 87-121 once the query has answered: on an error the list is empty
   * and the message (or a stock one) is shown; otherwise the rows are
   * normalised and sorted, rows with equal sort index and title keeping the
   * order the query returned them in.
   */
  method LoadTasks(error: Option<Value>, data: Option<seq<RawTask>>) returns (tasks: array<Task>, err: Value)
    ensures error.Some? ==> tasks.Length == 0
    ensures error.Some? ==> err == (if Truthy(error.value) then error.value else Str("Failed to load tasks"))
    ensures error.None? ==> err == Str("")
    ensures error.None? ==> tasks[..] == Sort(NormalizeAll(data), AdminLe)
    ensures error.None? ==> Sorted(tasks[..], AdminLe)
    ensures error.None? ==> multiset(tasks[..]) == multiset(NormalizeAll(data))
  {
    err := Str("");
    if error.Some? {
      err := if Truthy(error.value) then error.value else Str("Failed to load tasks");
      tasks := new Task[0];
    } else {
      var normalized := NormalizeAll(data);
      tasks := new Task[|normalized|](i requires 0 <= i < |normalized| => normalized[i]);
      assert tasks[..] == normalized;
      SortTasks(tasks);
    }
  }

  // ---------------------------------------------------------------------------
  // Filters (lines 131-156)
  // ---------------------------------------------------------------------------

  /** Lines 135-137: the search box, tested on the untrimmed query, matches case-insensitively. */
  function MatchesQuery(t: Task, q: string): (m: bool)
    ensures q != "" ==> (m <==> Contains(Lower(t.title), Lower(Trim(q))))
    ensures AllSpace(q) ==> m
  {
    q != "" ==> Contains(Lower(t.title), Lower(Trim(q)))
  }

  /** Lines 140-143: `(t.frequency || "none") === freqFilter` unless the filter is "all". */
  function MatchesFrequency(t: Task, freqFilter: string): (m: bool)
    ensures freqFilter == "all" ==> m
    ensures freqFilter != "all" && m ==> t.frequency == Str(freqFilter) || (!Truthy(t.frequency) && freqFilter == "none")
    ensures Truthy(t.frequency) && t.frequency == Str(freqFilter) ==> m
  {
    freqFilter == "all"
    || (if Truthy(t.frequency) then t.frequency == Str(freqFilter) else freqFilter == "none")
  }

  /** Lines 146-151: "active" keeps active rows; any value other than "all" keeps inactive ones. */
  function MatchesActive(t: Task, activeFilter: string): (m: bool)
    ensures activeFilter != "all" ==> (m <==> (t.active <==> activeFilter == "active"))
    ensures activeFilter == "all" ==> m
  {
    activeFilter == "all" || (if activeFilter == "active" then t.active else !t.active)
  }

  /** Line 153: a row shows when it passes the search box and both filters. */
  function Matches(t: Task, q: string, freqFilter: string, activeFilter: string): (m: bool)
    ensures m <==> (q == "" || Contains(Lower(t.title), Lower(Trim(q))))
                   && (freqFilter == "all" || (Truthy(t.frequency) && t.frequency == Str(freqFilter))
                       || (!Truthy(t.frequency) && freqFilter == "none"))
                   && (activeFilter == "all" || (t.active <==> activeFilter == "active"))
    ensures AllSpace(q) && freqFilter == "all" && activeFilter == "all" ==> m
  {
    MatchesQuery(t, q) && MatchesFrequency(t, freqFilter) && MatchesActive(t, activeFilter)
  }

  /** Lines 131-156: the rows the table shows, in list order. */
  function FilterTasks(tasks: seq<Task>, q: string, freqFilter: string, activeFilter: string): (r: seq<Task>)
    ensures IsSubsequence(r, tasks)
    ensures forall i :: 0 <= i < |r| ==> r[i] in tasks && Matches(r[i], q, freqFilter, activeFilter)
    ensures forall i :: 0 <= i < |tasks| && Matches(tasks[i], q, freqFilter, activeFilter) ==> tasks[i] in r
    ensures forall i :: 0 <= i < |tasks| ==>
              multiset(r)[tasks[i]] == if Matches(tasks[i], q, freqFilter, activeFilter) then multiset(tasks)[tasks[i]] else 0
  {
    var matches := t => Matches(t, q, freqFilter, activeFilter);
    FilterCounts(tasks, matches);
    Filter(tasks, matches)
  }

  /** With every filter off the list is shown unchanged. */
  lemma NoFilterKeepsAll(tasks: seq<Task>)
    ensures FilterTasks(tasks, "", "all", "all") == tasks
  {
  }

  /** A query of whitespace only filters nothing: emptiness is tested before trimming. */
  lemma BlankQueryFiltersNothing(tasks: seq<Task>, q: string, freqFilter: string, activeFilter: string)
    requires AllSpace(q)
    ensures FilterTasks(tasks, q, freqFilter, activeFilter) == FilterTasks(tasks, "", freqFilter, activeFilter)
  {
    assert forall t: Task :: MatchesQuery(t, q);
    FilterSameTest(tasks, t => Matches(t, q, freqFilter, activeFilter), t => Matches(t, "", freqFilter, activeFilter));
  }

  /** A non-blank query keeps a row exactly when the lower-cased trimmed query occurs in its lower-cased title. */
  lemma QueryIsSubstringSearch(t: Task, q: string)
    requires q != ""
    ensures MatchesQuery(t, q) <==> exists i: nat :: OccursAt(Lower(t.title), Lower(Trim(q)), i)
  {
    ContainsIffOccurs(Lower(t.title), Lower(Trim(q)));
  }

  /** A row without a frequency is listed under "none". */
  lemma NoFrequencyIsNone(t: Task)
    requires !Truthy(t.frequency)
    ensures MatchesFrequency(t, "none")
    ensures forall f :: f != "all" && f != "none" ==> !MatchesFrequency(t, f)
  {
  }

  /** "active" and "inactive" split the list between them. */
  lemma ActiveFilterPartitions(t: Task)
    ensures MatchesActive(t, "active") <==> t.active
    ensures MatchesActive(t, "inactive") <==> !t.active
  {
  }

  // ---------------------------------------------------------------------------
  // Formatters
  // ---------------------------------------------------------------------------

  const Dash := "—"

  /** The five frequencies a task can have. */
  const FreqKeys: set<string> := {"daily", "few_days_per_week", "weekly", "monthly", "specific_date"}

  /** The own keys of FREQ_LABELS (lines 6-12) and their labels. */
  function FreqLabel(key: string): (r: Option<string>)
    ensures r.Some? <==> key in FreqKeys
    ensures r.Some? ==> r.value != "" && r.value != Dash
  {
    if key == "daily" then Some("Daily")
    else if key == "few_days_per_week" then Some("Few days / week")
    else if key == "weekly" then Some("Weekly")
    else if key == "monthly" then Some("Monthly")
    else if key == "specific_date" then Some("Specific date")
    else None
  }

  /** The property names every object literal inherits from Object.prototype. */
  const ObjectPrototypeKeys: set<string> := {
    "constructor", "hasOwnProperty", "isPrototypeOf", "propertyIsEnumerable",
    "toString", "toLocaleString", "valueOf", "__proto__",
    "__defineGetter__", "__defineSetter__", "__lookupGetter__", "__lookupSetter__"}

  /** No frequency is also a name inherited from Object.prototype. */
  lemma OwnKeysNotInherited()
    ensures FreqKeys !! ObjectPrototypeKeys
  {
  }

  /**
   * `FREQ_LABELS[f]` as written: a property read, which finds the five own
   * labels and, for the names above, an inherited member (a function, or
   * Object.prototype itself) that is truthy and not a string.
   */
  function FreqLabelsRead(f: Value): (r: Value)
    ensures r.Str? <==> FreqLabel(ToString(f)).Some?
    ensures r.Str? ==> r.s == FreqLabel(ToString(f)).value
    ensures r == Obj <==> ToString(f) in ObjectPrototypeKeys
    ensures r.Undefined? <==> FreqLabel(ToString(f)).None? && ToString(f) !in ObjectPrototypeKeys
  {
    var key := ToString(f);
    OwnKeysNotInherited();
    if FreqLabel(key).Some? then Str(FreqLabel(key).value)
    else if key in ObjectPrototypeKeys then Obj
    else Undefined
  }

  /** Lines 16-20 as written. */
  function FreqPrettyAsWritten(t: Task): (r: Value)
    ensures !Truthy(t.frequency) ==> r == Str(Dash)
    ensures r.Str? || r == Obj
    ensures r == Obj <==> Truthy(t.frequency) && ToString(t.frequency) in ObjectPrototypeKeys
  {
    var f := if Truthy(t.frequency) then t.frequency else Null;
    if !Truthy(f) || !Truthy(FreqLabelsRead(f)) then Str(Dash)
    else FreqLabelsRead(f)
  }

  /** A frequency of "toString" shows an inherited function instead of the dash. */
  lemma FreqPrettyInheritedMember(t: Task)
    requires t.frequency == Str("toString")
    ensures FreqPrettyAsWritten(t) == Obj
    ensures FreqPretty(t) == Dash
  {
  }

  /** Apart from inherited names, the written and the corrected formatter agree. */
  lemma FreqPrettyAgrees(t: Task)
    requires ToString(t.frequency) !in ObjectPrototypeKeys
    ensures FreqPrettyAsWritten(t) == Str(FreqPretty(t))
  {
  }

  /**
   * Lines 16-20 as intended: the label of a frequency that is one of the five
   * keys, the dash for anything else, missing included.
   */
  function FreqPretty(t: Task): (r: string)
    ensures Truthy(t.frequency) && FreqLabel(ToString(t.frequency)).Some? ==> r == FreqLabel(ToString(t.frequency)).value
    ensures !Truthy(t.frequency) || FreqLabel(ToString(t.frequency)).None? ==> r == Dash
    ensures t.frequency == Str("weekly") ==> r == "Weekly"
  {
    var f := if Truthy(t.frequency) then t.frequency else Null;
    if !Truthy(f) then Dash
    else match FreqLabel(ToString(f))
      case Some(text) => text
      case None => Dash
  }

  /** DOW (line 14). */
  const Dow: seq<string> := ["Sun", "Mon", "Tue", "Wed", "Thu", "Fri", "Sat"]

  /** DOW names the seven days in the order of `getDay()`, Sunday first. */
  lemma DowNamesDays()
    ensures |Dow| == 7 && Dow[0] == "Sun" && Dow[6] == "Sat"
    ensures forall i, j :: 0 <= i < j < |Dow| ==> Dow[i] != Dow[j]
  {
  }

  /**
   * `DOW[n]`: the key is `String(n)`; "0" to "6" name a day and "length" is
   * 7. Other keys give undefined.
   */
  function DowRead(n: Value): (r: Value)
    ensures r.Str? ==> r.s in Dow
    ensures r.Str? || r == Num(7) || r == Undefined
    ensures r == Num(7) <==> ToString(n) == "length"
  {
    var key := ToString(n);
    if |key| == 1 && '0' <= key[0] <= '6' then Str(Dow[key[0] as int - 48])
    else if key == "length" then Num(7)
    else Undefined
  }

  /** A day number names its day in range and reads as undefined out of range. */
  lemma DowReadNumber(i: int)
    ensures 0 <= i < 7 ==> DowRead(Num(i)) == Str(Dow[i])
    ensures !(0 <= i < 7) ==> DowRead(Num(i)) == Undefined
  {
    var key := IntToString(i);
    if 0 <= i < 10 {
      assert key == [Digit(i)];
    }
  }

  /** Line 28: one entry of the day list, `DOW[n] ?? "?"`, as `join` prints it. */
  function DayEntry(n: Value): (r: string)
    ensures ',' !in r
  {
    var d := DowRead(n);
    var e := Coalesce(d, Str("?"));
    assert e.Str? ==> e.s in Dow || e.s == "?";
    ToString(e)
  }

  /** The day list of a few-days-per-week task: entries joined by ", ". */
  function DayList(items: seq<Value>): (r: string)
    requires |items| > 0
    ensures |Split(r, ',')| == |items|
    ensures Split(r, ',')[0] == DayEntry(items[0])
    ensures forall i :: 0 < i < |items| ==> Split(r, ',')[i] == " " + DayEntry(items[i])
  {
    var entries := seq(|items|, i requires 0 <= i < |items| => DayEntry(items[i]));
    SplitJoinParts(entries, ',', ", ");
    Join(entries, ", ")
  }

  /**
   * Between the ", " separators the list holds, for each element in order, its
   * day name when it is a day number 0-6 and "?" for any other number.
   */
  lemma DayListEntries(items: seq<Value>)
    requires |items| > 0
    ensures |Split(DayList(items), ',')| == |items|
    ensures forall i :: 0 <= i < |items| && items[i].Num? ==>
              Split(DayList(items), ',')[i]
              == (if i == 0 then "" else " ") + (if 0 <= items[i].n < 7 then Dow[items[i].n] else "?")
  {
    forall i | 0 <= i < |items| && items[i].Num? {
      DowReadNumber(items[i].n);
    }
  }

  /** Lines 22-42: the detail column. */
  function FreqDetail(t: Task): (r: Value)
    ensures !Truthy(t.frequency) ==> r == Str(Dash)
    ensures t.frequency == Str("few_days_per_week") ==>
              r == if t.days_of_week.Arr? && |t.days_of_week.items| > 0
                   then Str(DayList(t.days_of_week.items)) else Str(Dash)
    ensures t.frequency == Str("weekly") ==>
              r == if t.weekly_day.Some? then DowRead(Num(t.weekly_day.value)) else Str(Dash)
    ensures t.frequency == Str("monthly") ==>
              r == if Truthy(t.day_of_month) then Str("Day " + ToString(t.day_of_month)) else Str(Dash)
    ensures t.frequency == Str("specific_date") ==>
              r == if IsNullish(t.specific_date) then Str(Dash) else t.specific_date
    ensures t.frequency !in {Str("few_days_per_week"), Str("weekly"), Str("monthly"), Str("specific_date")} ==>
              r == Str(Dash)
  {
    var f := if Truthy(t.frequency) then t.frequency else Null;
    if !Truthy(f) then Str(Dash)
    else if f == Str("few_days_per_week") then
      var arr := if t.days_of_week.Arr? then t.days_of_week.items else [];
      if |arr| > 0 then Str(DayList(arr)) else Str(Dash)
    else if f == Str("weekly") then
      if t.weekly_day.Some? then DowRead(Num(t.weekly_day.value)) else Str(Dash)
    else if f == Str("monthly") then
      if Truthy(t.day_of_month) then Str("Day " + ToString(t.day_of_month)) else Str(Dash)
    else if f == Str("specific_date") then Coalesce(t.specific_date, Str(Dash))
    else Str(Dash)
  }

  /** A weekly task's detail comes from `weekly_day` alone; `days_of_week` is not read. */
  lemma WeeklyIgnoresDaysOfWeek(t: Task, days: Value)
    requires t.frequency == Str("weekly")
    ensures FreqDetail(t.(days_of_week := days)) == FreqDetail(t)
  {
  }

  /**
   * A weekly task with a day number names that day; with a number out of
   * range the detail is undefined (an empty cell), not the dash.
   */
  lemma WeeklyDetail(t: Task)
    requires t.frequency == Str("weekly") && t.weekly_day.Some?
    ensures 0 <= t.weekly_day.value < 7 ==> FreqDetail(t) == Str(Dow[t.weekly_day.value])
    ensures !(0 <= t.weekly_day.value < 7) ==> FreqDetail(t) == Undefined
  {
    DowReadNumber(t.weekly_day.value);
  }

  /** Lines 44-49: `timePretty`, HH:MM out of "HH:MM" or "HH:MM:SS". */
  function TimePretty(v: Value): (r: Value)
    ensures !Truthy(v) ==> r == Str(Dash)
  {
    if !Truthy(v) then Str(Dash)
    else
      var parts := Split(ToString(v), ':');
      if |parts| >= 2 then Str(parts[0] + ":" + parts[1]) else v
  }

  /**
   * A value with a colon shows up to, not including, its second colon (or to
   * its end when it has one colon only); the shown text is a prefix of the
   * value's text.
   */
  lemma TimePrettyPrefix(v: Value)
    requires Truthy(v) && ':' in ToString(v)
    ensures TimePretty(v).Str?
    ensures TimePretty(v).s <= ToString(v)
    ensures ':' in TimePretty(v).s
    ensures |Split(TimePretty(v).s, ':')| == 2
    ensures |TimePretty(v).s| == |ToString(v)| || ToString(v)[|TimePretty(v).s|] == ':'
  {
    var s := ToString(v);
    var parts := Split(s, ':');
    JoinSplit(s, ':');
    assert s == parts[0] + ":" + Join(parts[1..], ":");
    if |parts| > 2 {
      assert Join(parts[1..], ":") == parts[1] + ":" + Join(parts[2..], ":");
    }
    SplitCons(parts[0], ':', parts[1]);
    SplitNone(parts[1], ':');
  }

  /** "HH:MM:SS" shows as "HH:MM", and "HH:MM" as itself. */
  lemma TimePrettyClock(hh: string, mm: string, ss: string)
    requires hh != [] && ':' !in hh && ':' !in mm && ':' !in ss
    ensures TimePretty(Str(hh + ":" + mm + ":" + ss)) == Str(hh + ":" + mm)
    ensures TimePretty(Str(hh + ":" + mm)) == Str(hh + ":" + mm)
  {
    SplitCons(hh, ':', mm + ":" + ss);
    SplitCons(mm, ':', ss);
    assert hh + ":" + mm + ":" + ss == hh + [':'] + (mm + ":" + ss);
    assert mm + ":" + ss == mm + [':'] + ss;
    SplitCons(hh, ':', mm);
    SplitNone(mm, ':');
    assert hh + ":" + mm == hh + [':'] + mm;
  }

  /** A value without a colon is shown as it is. */
  lemma TimePrettyNoColon(v: Value)
    requires Truthy(v) && ':' !in ToString(v)
    ensures TimePretty(v) == v
  {
    SplitNone(ToString(v), ':');
  }

  /** Two colon-free parts joined by ":" show as they are. */
  lemma TimePrettyTwoParts(a: string, b: string)
    requires ':' !in a && ':' !in b
    ensures TimePretty(Str(a + ":" + b)) == Str(a + ":" + b)
  {
    assert a + ":" + b == a + [':'] + b;
    SplitCons(a, ':', b);
    SplitNone(b, ':');
  }

  /** Formatting a formatted time again changes nothing. */
  lemma TimePrettyIdempotent(v: Value)
    ensures TimePretty(TimePretty(v)) == TimePretty(v)
  {
    if !Truthy(v) {
      SplitNone(Dash, ':');
    } else {
      var parts := Split(ToString(v), ':');
      if |parts| >= 2 {
        TimePrettyTwoParts(parts[0], parts[1]);
      }
    }
  }
}
