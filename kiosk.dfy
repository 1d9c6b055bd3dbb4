/**
 * The kiosk board (pages/index.js): which rows of the task table show on
 * today's list, in which order, and the labels drawn for each task and for
 * each staff member. The day of the week `dow` (0 = Sunday) and today's date
 * `todayYMD` ("YYYY-MM-DD"), both taken from the Perth clock by the page,
 * are parameters here.
 */
module Kiosk {
  import opened Js
  import opened Sequences

  /** A task row as the board selects it; any field may hold any value, or be missing. */
  datatype Task = Task(
    id: Value,
    title: Value,
    recurrence: Value,
    days_of_week: Value,
    due_time: Value,
    due_date: Value,
    points: Value,
    active: Value)

  // ---------------------------------------------------------------------------
  // Which tasks show today
  // ---------------------------------------------------------------------------

  /**
   * The filter callback. Only an active task can show; "daily" shows every
   * day, "weekly" on the listed days, "dated" on its date, and any other
   * recurrence never (fail-closed).
   */
  function IsDueToday(t: Task, dow: int, todayYMD: string): (due: bool)
    ensures due ==> Truthy(t.active)
    ensures due ==> t.recurrence in {Str("daily"), Str("weekly"), Str("dated")}
    ensures Truthy(t.active) && t.recurrence == Str("daily") ==> due
    ensures t.recurrence == Str("weekly") ==>
              (due <==> Truthy(t.active) && t.days_of_week.Arr? && Num(dow) in t.days_of_week.items)
    ensures t.recurrence == Str("dated") ==>
              (due <==> Truthy(t.active) && t.due_date == Str(todayYMD))
  {
    if !Truthy(t.active) then false
    else if t.recurrence == Str("daily") then true
    else if t.recurrence == Str("weekly") then
      if !t.days_of_week.Arr? then false else Num(dow) in t.days_of_week.items
    else if t.recurrence == Str("dated") then t.due_date == Str(todayYMD)
    else false
  }

  /** A dated task shows on one date at most. */
  lemma DatedShowsOnOneDate(t: Task, dow1: int, day1: string, dow2: int, day2: string)
    requires t.recurrence == Str("dated")
    requires IsDueToday(t, dow1, day1) && IsDueToday(t, dow2, day2)
    ensures day1 == day2
  {
  }

  /** Whether a task shows depends on the date only through its weekday (weekly) or the date itself (dated). */
  lemma DueDependsOnlyOnRule(t: Task, dow1: int, day1: string, dow2: int, day2: string)
    requires t.recurrence != Str("weekly") || dow1 == dow2
    requires t.recurrence != Str("dated") || day1 == day2
    ensures IsDueToday(t, dow1, day1) == IsDueToday(t, dow2, day2)
  {
  }

  /** `data || []`: a failed select without an error gives no rows. */
  function RowsOf(data: Option<seq<Task>>): (rows: seq<Task>)
    ensures data.None? ==> rows == []
    ensures data.Some? ==> rows == data.value
  {
    if data.Some? then data.value else []
  }

  /** Lines 71-82: the tasks that show today, in table order. */
  function SelectDue(rows: seq<Task>, dow: int, todayYMD: string): (r: seq<Task>)
    ensures IsSubsequence(r, rows)
    ensures forall i :: 0 <= i < |r| ==> r[i] in rows && IsDueToday(r[i], dow, todayYMD)
    ensures forall i :: 0 <= i < |rows| && IsDueToday(rows[i], dow, todayYMD) ==> rows[i] in r
    ensures forall i :: 0 <= i < |rows| ==>
              multiset(r)[rows[i]] == if IsDueToday(rows[i], dow, todayYMD) then multiset(rows)[rows[i]] else 0
  {
    var due := t => IsDueToday(t, dow, todayYMD);
    FilterCounts(rows, due);
    Filter(rows, due)
  }

  // ---------------------------------------------------------------------------
  // Order on the board
  // ---------------------------------------------------------------------------

  /** The comparator of line 84: `String(a.due_time).localeCompare(String(b.due_time)) <= 0`. */
  function DueTimeLe(a: Task, b: Task): (le: bool)
    ensures le || StrLe(ToString(b.due_time), ToString(a.due_time))
  {
    StrLeTotal(ToString(a.due_time), ToString(b.due_time));
    StrLe(ToString(a.due_time), ToString(b.due_time))
  }

  /** The comparator is consistent, as `sort` needs. */
  lemma DueTimeOrderConsistent()
    ensures IsTotalPreorder(DueTimeLe)
  {
    forall a: Task, b: Task ensures DueTimeLe(a, b) || DueTimeLe(b, a) {
      StrLeTotal(ToString(a.due_time), ToString(b.due_time));
    }
    forall a: Task, b: Task, c: Task | DueTimeLe(a, b) && DueTimeLe(b, c) ensures DueTimeLe(a, c) {
      StrLeTransitive(ToString(a.due_time), ToString(b.due_time), ToString(c.due_time));
    }
  }

  /** Line 84: sorts the selected tasks in place by `String(due_time)`. */
  method SortByDueTime(a: array<Task>)
    modifies a
    ensures a[..] == Sort(old(a[..]), DueTimeLe)
    ensures Sorted(a[..], DueTimeLe)
    ensures multiset(a[..]) == multiset(old(a[..]))
  {
    InsertionSort(a, DueTimeLe);
    DueTimeOrderConsistent();
    SortSorted(old(a[..]), DueTimeLe);
  }

  /**
   * Lines 56-85 once the query has answered. The error message is cleared
   * first. On an error it is set to the error's message and the list shown
   * so far stays. Otherwise the list becomes the tasks due today, ordered by
   * `String(due_time)`, tasks with equal times in table order.
   */
  method TodaysTasks(error: Option<Value>, data: Option<seq<Task>>, dow: int, todayYMD: string, shown: seq<Task>)
    returns (tasks: array<Task>, err: Value)
    ensures error.Some? ==> tasks[..] == shown && err == error.value
    ensures error.None? ==> err == Null
    ensures error.None? ==> tasks[..] == Sort(SelectDue(RowsOf(data), dow, todayYMD), DueTimeLe)
    ensures error.None? ==> Sorted(tasks[..], DueTimeLe)
    ensures error.None? ==> multiset(tasks[..]) == multiset(SelectDue(RowsOf(data), dow, todayYMD))
    ensures error.None? ==> forall i :: 0 <= i < tasks.Length ==> IsDueToday(tasks[i], dow, todayYMD)
  {
    err := Null;
    if error.Some? {
      err := error.value;
      tasks := new Task[|shown|](i requires 0 <= i < |shown| => shown[i]);
      return;
    }
    var selected := SelectDue(RowsOf(data), dow, todayYMD);
    tasks := new Task[|selected|](i requires 0 <= i < |selected| => selected[i]);
    assert tasks[..] == selected;
    SortByDueTime(tasks);
    forall i | 0 <= i < tasks.Length ensures IsDueToday(tasks[i], dow, todayYMD) {
      assert tasks[i] in multiset(tasks[..]);
      assert tasks[i] in multiset(selected);
    }
  }

  /** A due time that starts with a digit, as "HH:MM" and "HH:MM:SS" do. */
  predicate IsClockTime(v: Value) {
    v.Str? && v.s != [] && '0' <= v.s[0] <= '9'
  }

  /**
   * `String(null)` is "null" and `String(undefined)` is "undefined"; both
   * order after every clock time, so tasks without a due time come last.
   */
  lemma UntimedAfterClockTimes(s: seq<Task>)
    requires Sorted(s, DueTimeLe)
    ensures forall i, j :: 0 <= i < j < |s| && IsNullish(s[i].due_time) ==> !IsClockTime(s[j].due_time)
  {
    forall i, j | 0 <= i < j < |s| && IsNullish(s[i].due_time)
      ensures !IsClockTime(s[j].due_time)
    {
      assert DueTimeLe(s[i], s[j]);
    }
  }

  // ---------------------------------------------------------------------------
  // Labels
  // ---------------------------------------------------------------------------

  /** Line 147: `String(t.due_time || "").slice(0, 5)`. */
  function TimeLabel(t: Task): (r: string)
    ensures !Truthy(t.due_time) ==> r == ""
    ensures Truthy(t.due_time) ==> r <= ToString(t.due_time)
    ensures |r| <= 5
    ensures Truthy(t.due_time) ==> |r| == if |ToString(t.due_time)| < 5 then |ToString(t.due_time)| else 5
  {
    var s := if Truthy(t.due_time) then ToString(t.due_time) else "";
    if |s| <= 5 then s else s[..5]
  }

  /** Line 148: dated tasks are highlighted. */
  function IsHighlighted(t: Task): (h: bool)
    ensures h <==> KindLabel(t) == "Specific date"
  {
    t.recurrence == Str("dated")
  }

  /** Line 160: the kind shown under the title. */
  function KindLabel(t: Task): (r: string)
    ensures r in {"Daily", "Weekly", "Specific date"}
    ensures r == "Specific date" <==> t.recurrence == Str("dated")
    ensures r == "Weekly" <==> t.recurrence == Str("weekly")
  {
    if t.recurrence == Str("dated") then "Specific date"
    else if t.recurrence == Str("weekly") then "Weekly"
    else "Daily"
  }

  /**
   * On the board the kind label names the rule that put the task there, and
   * only dated tasks are highlighted.
   */
  lemma KindLabelNamesRule(t: Task, dow: int, todayYMD: string)
    requires IsDueToday(t, dow, todayYMD)
    ensures KindLabel(t) == "Daily" <==> t.recurrence == Str("daily")
    ensures KindLabel(t) == "Weekly" <==> t.recurrence == Str("weekly")
    ensures KindLabel(t) == "Specific date" <==> t.recurrence == Str("dated")
    ensures IsHighlighted(t) <==> KindLabel(t) == "Specific date"
  {
  }

  // ---------------------------------------------------------------------------
  // Staff initials
  // ---------------------------------------------------------------------------

  /**
   * Lines 26-32: the first character of the first and of the last word of the
   * name, upper-cased.
   */
  function Initials(name: Value): (r: string)
    ensures !Truthy(name) ==> r == ""
    ensures |r| <= 2
    ensures forall i :: 0 <= i < |r| ==> !('a' <= r[i] <= 'z')
  {
    if !Truthy(name) then ""
    else
      var t := Trim(ToString(name));
      assert t == [] || (!IsSpace(t[0]) && !IsSpace(t[|t| - 1]));
      WordsAtMostTwo(t);
      InitialsOfWords(t)
  }

  /**
   * Line 28 onwards, on the trimmed name t. `parts[parts.length - 1][0]` is
   * undefined for an empty last part, and `+` would then append "undefined";
   * that cannot happen, because a trimmed string does not end in whitespace.
   */
  function InitialsOfWords(t: string): (r: string)
    ensures forall i :: 0 <= i < |r| ==> !('a' <= r[i] <= 'z')
  {
    var parts := SplitSpaces(t);
    var first := if parts[0] != "" then [parts[0][0]] else "";
    var last := parts[|parts| - 1];
    var second := if |parts| > 1 then (if last != "" then Str([last[0]]) else Undefined) else Str("");
    Upper(first + ToString(second))
  }

  /** The name with the surrounding whitespace removed, as the function sees it. */
  function Trimmed(name: Value): string {
    Trim(ToString(name))
  }

  /** No name, or a whitespace-only name, gives no initials. */
  lemma InitialsOfBlank(name: Value)
    requires !Truthy(name) || AllSpace(ToString(name))
    ensures Initials(name) == ""
  {
  }

  /** A trimmed name without whitespace is one word, and its initial is its first character. */
  lemma OneWordInitials(t: string)
    requires t != [] && NoSpace(t)
    ensures InitialsOfWords(t) == [UpperChar(t[0])]
  {
    SplitSpacesNone(t);
  }

  /** A one-word name gives its first character, upper-cased. */
  lemma InitialsOneWord(name: Value)
    requires Truthy(name) && Trimmed(name) != [] && NoSpace(Trimmed(name))
    ensures Initials(name) == [UpperChar(Trimmed(name)[0])]
  {
    OneWordInitials(Trimmed(name));
  }

  lemma WordsInitials(t: string, k: nat)
    requires k + 1 < |t| && !IsSpace(t[0])
    requires IsSpace(t[k]) && NoSpace(t[k + 1..])
    ensures InitialsOfWords(t) == [UpperChar(t[0]), UpperChar(t[k + 1])]
  {
    SplitSpacesFirst(t);
    SplitSpacesLast(t, k);
    var parts := SplitSpaces(t);
    var last := parts[|parts| - 1];
    assert last == t[k + 1..] && last[0] == t[k + 1];
    assert ToString(Str([last[0]])) == [t[k + 1]];
    assert [parts[0][0]] + [t[k + 1]] == [t[0], t[k + 1]];
  }

  /**
   * A name of several words gives the first character of the first word and
   * the first character of the last word (the one after the last whitespace).
   */
  lemma InitialsSeveralWords(name: Value, k: nat)
    requires Truthy(name)
    requires k < |Trimmed(name)| && IsSpace(Trimmed(name)[k]) && NoSpace(Trimmed(name)[k + 1..])
    ensures Initials(name) == [UpperChar(Trimmed(name)[0]), UpperChar(Trimmed(name)[k + 1])]
  {
    WordsInitials(Trimmed(name), k);
  }

  /** The last whitespace position of s, if it has one. */
  function LastSpace(s: string): (k: int)
    ensures -1 <= k < |s|
    ensures k == -1 ==> NoSpace(s)
    ensures k >= 0 ==> IsSpace(s[k]) && NoSpace(s[k + 1..])
  {
    if s == [] then -1
    else if IsSpace(s[|s| - 1]) then |s| - 1
    else
      var k := LastSpace(s[..|s| - 1]);
      NoSpaceAppend(s[..|s| - 1][k + 1..], s[|s| - 1]);
      assert s[k + 1..] == s[..|s| - 1][k + 1..] + [s[|s| - 1]];
      k
  }

  lemma NoSpaceAppend(a: string, c: char)
    requires NoSpace(a) && !IsSpace(c)
    ensures NoSpace(a + [c])
  {
  }

  /** The initials of a trimmed name are at most two characters. */
  lemma WordsAtMostTwo(t: string)
    requires t == [] || (!IsSpace(t[0]) && !IsSpace(t[|t| - 1]))
    ensures |InitialsOfWords(t)| <= 2
  {
    var k := LastSpace(t);
    if k == -1 {
      SplitSpacesNone(t);
    } else {
      WordsInitials(t, k);
    }
  }
}
