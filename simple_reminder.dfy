/**
 * The reminder store of one user (`<user>_reminder.csv`): adding
 * reminders, the Pending -> Ringing -> Rang life cycle driven by the
 * periodic check and the alert, the repeat a rung reminder spawns, and
 * the history, repeat and delete operations of the reminder window.
 *
 * A reminder's date and time is a number of minutes on an absolute scale
 * (the file's `%Y-%m-%d %I:%M %p` text names one minute); the clock is
 * passed in as `nowSec`, seconds on the same scale.
 */
module SimpleReminder {
  import opened Seqs
  import opened Wrappers
  import Text

  datatype Status = Pending | Ringing | Rang

  /** The repeat column: "None", "Daily" or "Weekly". */
  datatype Repeat = NoRepeat | Daily | Weekly

  datatype Reminder = Reminder(id: int, task: string, when: int, status: Status, repeat: Repeat)

  const MinutesPerDay := 1440

  function Ids(rs: seq<Reminder>): (ids: seq<int>)
    ensures |ids| == |rs|
  {
    seq(|rs|, k requires 0 <= k < |rs| => rs[k].id)
  }

  predicate UniqueIds(rs: seq<Reminder>) {
    forall i, j :: 0 <= i < j < |rs| ==> rs[i].id != rs[j].id
  }

  // ---------------------------------------------------------------------------
  // Updating one reminder by id

  /** The position of the first reminder with `id` (`|rs|` when there is none). */
  function FirstWithId(rs: seq<Reminder>, id: int): (i: nat)
    ensures i <= |rs|
    ensures i < |rs| ==> rs[i].id == id
    ensures forall k :: 0 <= k < i ==> rs[k].id != id
  {
    if |rs| == 0 then 0 else if rs[0].id == id then 0 else 1 + FirstWithId(rs[1..], id)
  }

  /** The first reminder with `id` is at position `i`. */
  lemma {:induction false} FirstWithIdAt(rs: seq<Reminder>, id: int, i: nat)
    requires i < |rs| && rs[i].id == id
    requires forall k :: 0 <= k < i ==> rs[k].id != id
    ensures FirstWithId(rs, id) == i
    decreases i
  {
    if i > 0 {
      FirstWithIdAt(rs[1..], id, i - 1);
    }
  }

  /** `update_reminder_status`: the new status on the first reminder with `id`. */
  function WithStatus(rs: seq<Reminder>, id: int, s: Status): (r: seq<Reminder>)
    ensures |r| == |rs|
  {
    var i := FirstWithId(rs, id);
    if i == |rs| then rs else rs[i := rs[i].(status := s)]
  }

  /**
   * Only the status of the first reminder with `id` changes; an unknown id
   * changes nothing.
   */
  lemma WithStatusSpec(rs: seq<Reminder>, id: int, s: Status)
    ensures Ids(WithStatus(rs, id, s)) == Ids(rs)
    ensures forall k :: 0 <= k < |rs| ==> WithStatus(rs, id, s)[k].(status := rs[k].status) == rs[k]
    ensures forall k :: 0 <= k < |rs| && (rs[k].id != id || exists j :: 0 <= j < k && rs[j].id == id) ==>
              WithStatus(rs, id, s)[k] == rs[k]
    ensures (exists k :: 0 <= k < |rs| && rs[k].id == id) ==>
              WithStatus(rs, id, s)[FirstWithId(rs, id)].status == s
    ensures (forall k :: 0 <= k < |rs| ==> rs[k].id != id) ==> WithStatus(rs, id, s) == rs
  {
  }

  // ---------------------------------------------------------------------------
  // The periodic check

  /**
   * The check's test: Pending, and due either at the current minute (the
   * text equals now's) or at an earlier instant.
   */
  predicate Due(r: Reminder, nowSec: int) {
    r.status == Pending && (r.when == nowSec / 60 || r.when * 60 < nowSec)
  }

  /** The two tests together: Pending and at or before the current minute. */
  lemma DueIff(r: Reminder, nowSec: int)
    ensures Due(r, nowSec) <==> r.status == Pending && r.when <= nowSec / 60
  {
    assert 60 * (nowSec / 60) <= nowSec < 60 * (nowSec / 60) + 60;
  }

  /**
   * The check pass over the reminders read at its start: each due one is
   * marked Ringing through `update_reminder_status`, which re-reads the
   * current rows and updates the first with its id.
   */
  function CheckPass(current: seq<Reminder>, read: seq<Reminder>, nowSec: int): (r: seq<Reminder>)
    ensures |r| == |current|
    decreases |read|
  {
    if |read| == 0 then current
    else
      var next := if Due(read[0], nowSec) then WithStatus(current, read[0].id, Ringing) else current;
      CheckPass(next, read[1..], nowSec)
  }

  /** What the pass does when ids are unique: every due reminder rings, nothing else changes. */
  function Rung(rs: seq<Reminder>, nowSec: int): (r: seq<Reminder>)
    ensures |r| == |rs|
  {
    seq(|rs|, k requires 0 <= k < |rs| => if Due(rs[k], nowSec) then rs[k].(status := Ringing) else rs[k])
  }

  lemma {:induction false} CheckPassFrom(rs: seq<Reminder>, current: seq<Reminder>, i: nat, nowSec: int)
    requires UniqueIds(rs) && i <= |rs| && |current| == |rs|
    requires forall k :: 0 <= k < i ==> current[k] == Rung(rs, nowSec)[k]
    requires forall k :: i <= k < |rs| ==> current[k] == rs[k]
    ensures CheckPass(current, rs[i..], nowSec) == Rung(rs, nowSec)
    decreases |rs| - i
  {
    if i == |rs| {
      assert current == Rung(rs, nowSec);
    } else {
      var next := current[i := Rung(rs, nowSec)[i]];
      assert CheckPass(current, rs[i..], nowSec) == CheckPass(next, rs[i + 1..], nowSec) by {
        assert rs[i..][0] == rs[i] && rs[i..][1..] == rs[i + 1..];
        CheckStep(rs, current, i, nowSec);
      }
      CheckPassFrom(rs, next, i + 1, nowSec);
    }
  }

  /** One step of the pass rings reminder `i` when it is due, and only it. */
  lemma CheckStep(rs: seq<Reminder>, current: seq<Reminder>, i: nat, nowSec: int)
    requires UniqueIds(rs) && i < |rs| && |current| == |rs|
    requires forall k :: 0 <= k < i ==> current[k] == Rung(rs, nowSec)[k]
    requires current[i] == rs[i]
    ensures (if Due(rs[i], nowSec) then WithStatus(current, rs[i].id, Ringing) else current)
            == current[i := Rung(rs, nowSec)[i]]
  {
    if Due(rs[i], nowSec) {
      forall k | 0 <= k < i
        ensures current[k].id != rs[i].id
      {
        assert current[k].id == rs[k].id;
      }
      FirstWithIdAt(current, rs[i].id, i);
    }
  }

  /**
   * With unique ids, one pass moves exactly the due Pending reminders to
   * Ringing; reminders in any other status are never touched.
   */
  lemma CheckPassRings(rs: seq<Reminder>, nowSec: int)
    requires UniqueIds(rs)
    ensures CheckPass(rs, rs, nowSec) == Rung(rs, nowSec)
    ensures forall k :: 0 <= k < |rs| && rs[k].status != Pending ==> CheckPass(rs, rs, nowSec)[k] == rs[k]
    ensures forall k :: 0 <= k < |rs| ==>
              CheckPass(rs, rs, nowSec)[k].status ==
              (if rs[k].status == Pending && rs[k].when <= nowSec / 60 then Ringing else rs[k].status)
  {
    assert rs[0..] == rs;
    CheckPassFrom(rs, rs, 0, nowSec);
    forall k | 0 <= k < |rs|
      ensures Due(rs[k], nowSec) <==> rs[k].status == Pending && rs[k].when <= nowSec / 60
    {
      DueIff(rs[k], nowSec);
    }
  }

  // ---------------------------------------------------------------------------
  // The alert and the repeat it spawns

  /** When a repeat is due: a day after the alert, or a week after the original time. */
  function NextOccurrence(repeat: Repeat, oldWhen: int, nowSec: int): int {
    if repeat == Daily then nowSec / 60 + MinutesPerDay else oldWhen + 7 * MinutesPerDay
  }

  /**
   * `alert`: mark the reminder Rang; then, if it is still there with the
   * repeat it rang with, add the next occurrence of a Daily or Weekly one.
   */
  function AlertResult(rs: seq<Reminder>, rid: int, task: string, repeat: Repeat, oldWhen: int, nowSec: int): (r: seq<Reminder>)
    ensures |rs| <= |r| <= |rs| + 1
  {
    var marked := WithStatus(rs, rid, Rang);
    var i := FirstWithId(marked, rid);
    if i == |marked| || marked[i].repeat != repeat || repeat == NoRepeat then marked
    else marked + [Reminder(NextId(Ids(marked), 0), task, NextOccurrence(repeat, oldWhen, nowSec), Pending, repeat)]
  }

  /**
   * The alerted reminder ends Rang; a new reminder appears exactly when it
   * still exists with the same Daily or Weekly repeat, and then it is a
   * Pending copy with a fresh id at the next occurrence.
   */
  lemma AlertSpec(rs: seq<Reminder>, rid: int, task: string, repeat: Repeat, oldWhen: int, nowSec: int)
    ensures var r := AlertResult(rs, rid, task, repeat, oldWhen, nowSec);
            var i := FirstWithId(rs, rid);
            r[..|rs|] == WithStatus(rs, rid, Rang) &&
            (i < |rs| ==> r[i].status == Rang) &&
            (|r| == |rs| + 1 <==> i < |rs| && rs[i].repeat == repeat && repeat != NoRepeat) &&
            (|r| == |rs| + 1 ==>
               r[|rs|] == Reminder(r[|rs|].id, task, NextOccurrence(repeat, oldWhen, nowSec), Pending, repeat) &&
               forall k :: 0 <= k < |rs| ==> rs[k].id < r[|rs|].id)
  {
    var marked := WithStatus(rs, rid, Rang);
    WithStatusSpec(rs, rid, Rang);
    if FirstWithId(rs, rid) < |rs| {
      FirstWithIdAt(marked, rid, FirstWithId(rs, rid));
    } else {
      assert marked == rs;
    }
    forall k | 0 <= k < |rs|
      ensures Ids(marked)[k] == rs[k].id
    {
      assert Ids(rs)[k] == rs[k].id;
    }
  }

  // ---------------------------------------------------------------------------
  // One-way status

  function Rank(s: Status): nat {
    match s
    case Pending => 0
    case Ringing => 1
    case Rang => 2
  }

  /** Neither the check pass (ids unique) nor the alert ever moves a reminder back. */
  lemma StatusOnlyAdvances(rs: seq<Reminder>, rid: int, task: string, repeat: Repeat, oldWhen: int, nowSec: int)
    requires UniqueIds(rs)
    ensures forall k :: 0 <= k < |rs| ==> Rank(CheckPass(rs, rs, nowSec)[k].status) >= Rank(rs[k].status)
    ensures forall k :: 0 <= k < |rs| ==>
              Rank(AlertResult(rs, rid, task, repeat, oldWhen, nowSec)[k].status) >= Rank(rs[k].status)
  {
    CheckPassRings(rs, nowSec);
    AlertSpec(rs, rid, task, repeat, oldWhen, nowSec);
    WithStatusSpec(rs, rid, Rang);
    forall k | 0 <= k < |rs|
      ensures Rank(AlertResult(rs, rid, task, repeat, oldWhen, nowSec)[k].status) >= Rank(rs[k].status)
    {
      var r := AlertResult(rs, rid, task, repeat, oldWhen, nowSec);
      assert r[k] == r[..|rs|][k];
      if k != FirstWithId(rs, rid) {
        assert WithStatus(rs, rid, Rang)[k] == rs[k];
      }
    }
  }

  // ---------------------------------------------------------------------------
  // History, repeat and delete

  predicate NotRang(r: Reminder) {
    r.status != Rang
  }

  /** `clear_rang_reminders` */
  function ClearRang(rs: seq<Reminder>): (r: seq<Reminder>)
    ensures forall k :: 0 <= k < |r| ==> r[k].status != Rang
  {
    Filter(rs, NotRang)
  }

  predicate IsRang(r: Reminder) {
    r.status == Rang
  }

  /**
   * Clearing the history removes exactly the Rang reminders: what is kept
   * and the Rang reminders together are the reminders there were.
   */
  lemma ClearRangSpec(rs: seq<Reminder>)
    ensures forall r :: r in rs && r.status != Rang ==> r in ClearRang(rs)
    ensures multiset(ClearRang(rs)) + multiset(Filter(rs, IsRang)) == multiset(rs)
  {
    FilterSplit(rs, NotRang, IsRang);
    forall r | r in rs && r.status != Rang
      ensures r in ClearRang(rs)
    {
      var k :| 0 <= k < |rs| && rs[k] == r;
    }
  }

  predicate Matches(r: Reminder, when: int, task: string) {
    r.when == when && r.task == task
  }

  /** The first half of `cancel_repeat`: every reminder of (time, task) loses its repeat. */
  function RepeatCleared(rs: seq<Reminder>, when: int, task: string): (r: seq<Reminder>)
    ensures |r| == |rs|
  {
    seq(|rs|, k requires 0 <= k < |rs| => if Matches(rs[k], when, task) then rs[k].(repeat := NoRepeat) else rs[k])
  }

  predicate FutureDaily(r: Reminder, task: string, nowSec: int) {
    r.task == task && r.repeat == Daily && r.when * 60 > nowSec
  }

  /** The second half of `cancel_repeat`: the Daily reminders of that task still to come go. */
  function DropFutureDaily(rs: seq<Reminder>, task: string, nowSec: int): (r: seq<Reminder>)
    ensures |r| <= |rs|
  {
    Filter(rs, r => !FutureDaily(r, task, nowSec))
  }

  function CancelRepeatResult(rs: seq<Reminder>, when: int, task: string, nowSec: int): seq<Reminder> {
    DropFutureDaily(RepeatCleared(rs, when, task), task, nowSec)
  }

  /**
   * After `cancel_repeat` nothing of that task repeats daily into the
   * future, and the selected reminder no longer repeats at all.
   */
  lemma CancelRepeatStops(rs: seq<Reminder>, when: int, task: string, nowSec: int)
    ensures var r := CancelRepeatResult(rs, when, task, nowSec);
            (forall k :: 0 <= k < |r| ==> !FutureDaily(r[k], task, nowSec)) &&
            (forall k :: 0 <= k < |r| && Matches(r[k], when, task) ==> r[k].repeat == NoRepeat)
  {
    var cleared := RepeatCleared(rs, when, task);
    var r := CancelRepeatResult(rs, when, task, nowSec);
    forall k | 0 <= k < |r| && Matches(r[k], when, task)
      ensures r[k].repeat == NoRepeat
    {
      var j :| 0 <= j < |cleared| && cleared[j] == r[k];
    }
  }

  /**
   * `cancel_repeat` keeps every reminder of other tasks, and adds nothing
   * but the selected reminders without their repeat.
   */
  lemma CancelRepeatKeeps(rs: seq<Reminder>, when: int, task: string, nowSec: int)
    ensures var r := CancelRepeatResult(rs, when, task, nowSec);
            (forall x :: x in rs && x.task != task ==> x in r) &&
            (forall x :: x in r ==> x in rs || (Matches(x, when, task) && x.repeat == NoRepeat))
  {
    var cleared := RepeatCleared(rs, when, task);
    var r := CancelRepeatResult(rs, when, task, nowSec);
    forall x | x in rs && x.task != task
      ensures x in r
    {
      var k :| 0 <= k < |rs| && rs[k] == x;
      assert cleared[k] == x;
    }
    forall x | x in r
      ensures x in rs || (Matches(x, when, task) && x.repeat == NoRepeat)
    {
      var k :| 0 <= k < |cleared| && cleared[k] == x;
    }
  }

  /** `delete_reminder`: every reminder of (time, task) goes. */
  function WithoutReminder(rs: seq<Reminder>, when: int, task: string): (r: seq<Reminder>)
    ensures |r| <= |rs|
  {
    Filter(rs, r => !Matches(r, when, task))
  }

  /** Deleting removes exactly the reminders of (time, task) and keeps every other one. */
  lemma WithoutReminderSpec(rs: seq<Reminder>, when: int, task: string, x: Reminder)
    ensures x in WithoutReminder(rs, when, task) <==> x in rs && !Matches(x, when, task)
  {
    if x in rs && !Matches(x, when, task) {
      var k :| 0 <= k < |rs| && rs[k] == x;
    }
  }

  /** Deleting a reminder just added, when no other matched, gives back the list before. */
  lemma WithoutAdded(rs: seq<Reminder>, n: Reminder, when: int, task: string)
    requires forall k :: 0 <= k < |rs| ==> !Matches(rs[k], when, task)
    requires Matches(n, when, task)
    ensures WithoutReminder(rs + [n], when, task) == rs
  {
    FilterConcat(rs, [n], r => !Matches(r, when, task));
    FilterAll(rs, r => !Matches(r, when, task));
    assert [n][1..] == [];
  }

  // ---------------------------------------------------------------------------
  // The add form

  datatype AddError = MissingField | InvalidDateTime | PastTime

  /**
   * `add_reminder`'s checks: a task (trimmed) and a date and time that
   * parse (`None` when they do not), strictly after the current minute.
   */
  function CheckNewReminder(taskInput: string, when: Option<int>, nowSec: int): Result<(string, int), AddError> {
    var task := Text.Strip(taskInput);
    if task == "" then Err(MissingField)
    else if when.None? then Err(InvalidDateTime)
    else if when.value <= nowSec / 60 then Err(PastTime)
    else Ok((task, when.value))
  }

  /**
   * An accepted reminder has a task and lies strictly in the future, so
   * the check running at the same moment does not ring it.
   */
  lemma AcceptedIsFuture(taskInput: string, when: Option<int>, nowSec: int, id: int, repeat: Repeat)
    requires CheckNewReminder(taskInput, when, nowSec).Ok?
    ensures var (task, t) := CheckNewReminder(taskInput, when, nowSec).value;
            task != "" && t * 60 > nowSec && when == Some(t) &&
            !Due(Reminder(id, task, t, Pending, repeat), nowSec)
  {
    var t := when.value;
    DueIff(Reminder(id, Text.Strip(taskInput), t, Pending, repeat), nowSec);
    assert 60 * (nowSec / 60) <= nowSec < 60 * (nowSec / 60) + 60;
  }

  /** An empty or blank task, a date that does not parse, and a past minute are each refused. */
  lemma RejectedInputs(taskInput: string, when: Option<int>, nowSec: int)
    ensures Text.Strip(taskInput) == "" ==> CheckNewReminder(taskInput, when, nowSec) == Err(MissingField)
    ensures Text.Strip(taskInput) != "" && when.None? ==>
              CheckNewReminder(taskInput, when, nowSec) == Err(InvalidDateTime)
    ensures Text.Strip(taskInput) != "" && when.Some? && when.value * 60 <= nowSec ==>
              CheckNewReminder(taskInput, when, nowSec) == Err(PastTime)
  {
    assert 60 * (nowSec / 60) <= nowSec < 60 * (nowSec / 60) + 60;
  }

  // ---------------------------------------------------------------------------
  // The file

  /** `<user>_reminder.csv` with all five columns; a missing file is the empty table. */
  class ReminderFile {
    var rows: seq<Reminder>

    constructor (initial: seq<Reminder>)
      ensures rows == initial
    {
      rows := initial;
    }

    /** `add_reminder_to_csv`: ids start at 0 in this window. */
    method AddToCsv(task: string, when: int, repeat: Repeat)
      modifies this
      ensures rows == old(rows) + [Reminder(NextId(Ids(old(rows)), 0), task, when, Pending, repeat)]
    {
      rows := rows + [Reminder(NextId(Ids(rows), 0), task, when, Pending, repeat)];
    }

    /** `update_reminder_status` */
    method UpdateStatus(id: int, status: Status)
      modifies this
      ensures rows == WithStatus(old(rows), id, status)
    {
      var i := 0;
      while i < |rows| && rows[i].id != id
        invariant i <= |rows|
        invariant forall k :: 0 <= k < i ==> rows[k].id != id
      {
        i := i + 1;
      }
      if i < |rows| {
        FirstWithIdAt(rows, id, i);
        rows := rows[i := rows[i].(status := status)];
      }
    }

    /** One pass of `check_reminders` (the alerts it schedules are `Alert`). */
    method CheckReminders(nowSec: int)
      modifies this
      ensures rows == CheckPass(old(rows), old(rows), nowSec)
    {
      var read := rows;
      var i := 0;
      while i < |read|
        invariant i <= |read|
        invariant CheckPass(rows, read[i..], nowSec) == CheckPass(read, read, nowSec)
      {
        assert read[i..][0] == read[i] && read[i..][1..] == read[i + 1..];
        if Due(read[i], nowSec) {
          UpdateStatus(read[i].id, Ringing);
        }
        i := i + 1;
      }
      assert read[i..] == [];
    }

    /** `alert`, after the popup is dismissed. */
    method Alert(rid: int, task: string, repeat: Repeat, oldWhen: int, nowSec: int)
      modifies this
      ensures rows == AlertResult(old(rows), rid, task, repeat, oldWhen, nowSec)
    {
      UpdateStatus(rid, Rang);
      var i := 0;
      while i < |rows| && rows[i].id != rid
        invariant i <= |rows|
        invariant forall k :: 0 <= k < i ==> rows[k].id != rid
      {
        i := i + 1;
      }
      if i < |rows| {
        FirstWithIdAt(rows, rid, i);
      }
      if i == |rows| || rows[i].repeat != repeat {
        return;
      }
      if repeat == Daily {
        AddToCsv(task, nowSec / 60 + MinutesPerDay, Daily);
      } else if repeat == Weekly {
        AddToCsv(task, oldWhen + 7 * MinutesPerDay, Weekly);
      }
    }

    /** `clear_history`: when the user confirms, drop every reminder that has rung. */
    method ClearHistory(confirmed: bool)
      modifies this
      ensures confirmed ==> rows == ClearRang(old(rows))
      ensures !confirmed ==> rows == old(rows)
    {
      if confirmed {
        rows := ClearRang(rows);
      }
    }

    /** `cancel_repeat` for the selected (time, task). */
    method CancelRepeat(when: int, task: string, nowSec: int)
      modifies this
      ensures rows == CancelRepeatResult(old(rows), when, task, nowSec)
    {
      var i := 0;
      while i < |rows|
        invariant i <= |rows| && |rows| == |old(rows)|
        invariant forall k :: 0 <= k < i ==> rows[k] == RepeatCleared(old(rows), when, task)[k]
        invariant forall k :: i <= k < |rows| ==> rows[k] == old(rows)[k]
      {
        if Matches(rows[i], when, task) {
          rows := rows[i := rows[i].(repeat := NoRepeat)];
        }
        i := i + 1;
      }
      assert rows == RepeatCleared(old(rows), when, task);
      rows := DropFutureDaily(rows, task, nowSec);
    }

    /** `delete_reminder` for the selected (time, task), once the user confirms. */
    method Delete(when: int, task: string, confirmed: bool)
      modifies this
      ensures confirmed ==> rows == WithoutReminder(old(rows), when, task)
      ensures !confirmed ==> rows == old(rows)
    {
      if confirmed {
        rows := WithoutReminder(rows, when, task);
      }
    }

    /** `add_reminder`: the form's checks, then `add_reminder_to_csv`. */
    method AddReminder(taskInput: string, when: Option<int>, repeat: Repeat, nowSec: int)
      returns (result: Result<(string, int), AddError>)
      modifies this
      ensures result == CheckNewReminder(taskInput, when, nowSec)
      ensures result.Err? ==> rows == old(rows)
      ensures result.Ok? ==>
                rows == old(rows) + [Reminder(NextId(Ids(old(rows)), 0), result.value.0, result.value.1, Pending, repeat)]
    {
      result := CheckNewReminder(taskInput, when, nowSec);
      if result.Ok? {
        AddToCsv(result.value.0, result.value.1, repeat);
      }
    }
  }
}
