/**
 * The appointment window: booking a meeting into two students' event
 * stores at once, cancelling one from the history list, and the ordered
 * history itself.
 */
module MakeAppointment {
  import opened Wrappers
  import opened Seqs
  import opened Text
  import TT = StudentTimetable
  import Login
  import BR = BookRoom

  // ---------------------------------------------------------------------------
  // to_minutes and to_12h_str

  /** `to_minutes`: `None` where `int()` or the two-way unpacking would raise. */
  function ToMinutes(hhmm: string): Option<int> {
    match TT.TimeParts(hhmm)
    case None => None
    case Some((h, m)) => Some(h * 60 + m)
  }

  /** `to_minutes` reads an `HH:MM` text back as the minute of the day it was written for. */
  lemma ToMinutesOfHhmm(t: nat)
    requires t < 1440
    ensures ToMinutes(TT.Hhmm(t)) == Some(t)
  {
    TT.TimePartsOfHhmm(t);
  }

  /** A choice from the boxes, converted to 24-hour text, counts as its minute of the day. */
  lemma ToMinutesOfChoice(c: TT.Clock12)
    requires TT.Offered(c)
    ensures 0 <= TT.MinuteOfDay(c) < 1440 && ToMinutes(TT.To24h(c)) == Some(TT.MinuteOfDay(c))
  {
    TT.To24hIsHhmm(c);
    ToMinutesOfHhmm(TT.MinuteOfDay(c));
  }

  /** `to_12h_str` of this window, with its own three-way case split on the hour. */
  function To12hStr(hhmm: string): Option<string> {
    match TT.TimeParts(hhmm)
    case None => None
    case Some((hour, minute)) =>
      var h := if hour == 0 then 12 else if hour > 12 then hour - 12 else hour;
      var suffix := if hour == 12 || hour > 12 then "PM" else "AM";
      Some(IntToDec(h) + ":" + Fmt02(minute) + " " + suffix)
  }

  /** This window and the timetable render every text alike, failing on the same texts. */
  lemma To12hStrAgrees(hhmm: string)
    ensures To12hStr(hhmm) == TT.To12hStr(hhmm)
  {
  }

  /**
   * On the minutes of a day: hour 0 shows as 12 AM, hour 12 as 12 PM,
   * 13 to 23 as the hour less 12, PM, and 1 to 11 as themselves, AM.
   */
  lemma To12hStrHours(t: nat)
    requires t < 1440
    ensures var h, m := t / 60, Pad2(t % 60);
            (h == 0 ==> To12hStr(TT.Hhmm(t)) == Some("12:" + m + " AM")) &&
            (h == 12 ==> To12hStr(TT.Hhmm(t)) == Some("12:" + m + " PM")) &&
            (h > 12 ==> To12hStr(TT.Hhmm(t)) == Some(NatToDec(h - 12) + ":" + m + " PM")) &&
            (0 < h < 12 ==> To12hStr(TT.Hhmm(t)) == Some(NatToDec(h) + ":" + m + " AM"))
  {
    var h := t / 60;
    if h == 0 {
      To12hStrTwelve(t);
    } else if h == 12 {
      To12hStrTwelve(t);
    } else if h > 12 {
      To12hStrOther(t);
    } else {
      To12hStrOther(t);
    }
  }

  /** Hours 0 and 12 both show as 12. */
  lemma To12hStrTwelve(t: nat)
    requires t < 1440 && (t / 60 == 0 || t / 60 == 12)
    ensures To12hStr(TT.Hhmm(t)) == Some("12:" + Pad2(t % 60) + (if t / 60 == 0 then " AM" else " PM"))
  {
    TwelveText();
    To12hStrOfMinute(t);
    TwelveGlue(Pad2(t % 60));
  }

  lemma TwelveText()
    ensures NatToDec(12) == "12"
  {
    assert NatToDec(12) == NatToDec(1) + [DigitChar(2)];
  }

  /** Other hours show as themselves below 12 and less 12 above. */
  lemma To12hStrOther(t: nat)
    requires t < 1440 && t / 60 != 0 && t / 60 != 12
    ensures var h := t / 60;
            To12hStr(TT.Hhmm(t)) ==
            Some(NatToDec(if h > 12 then h - 12 else h) + ":" + Pad2(t % 60) + (if h > 12 then " PM" else " AM"))
  {
    var h := t / 60;
    To12hStrOfMinute(t);
    SuffixGlue(NatToDec(if h > 12 then h - 12 else h), Pad2(t % 60));
  }

  /** `to_12h_str` of a minute of the day, before the pieces are glued together. */
  lemma To12hStrOfMinute(t: nat)
    requires t < 1440
    ensures var h := t / 60;
            To12hStr(TT.Hhmm(t)) ==
            Some(NatToDec(if h == 0 then 12 else if h > 12 then h - 12 else h) + ":" + Pad2(t % 60) + " " +
                 (if h >= 12 then "PM" else "AM"))
  {
    TT.HhmmSplits(t);
  }

  lemma TwelveGlue(m: string)
    ensures "12" + ":" + m + " " + "AM" == "12:" + m + " AM"
    ensures "12" + ":" + m + " " + "PM" == "12:" + m + " PM"
  {
  }

  lemma SuffixGlue(x: string, m: string)
    ensures x + ":" + m + " " + "AM" == x + ":" + m + " AM"
    ensures x + ":" + m + " " + "PM" == x + ":" + m + " PM"
  {
  }

  // ---------------------------------------------------------------------------
  // has_conflict

  /** `start < e_end and end > e_start`: two half-open intervals share a minute. */
  predicate Overlaps(start: int, end: int, eStart: int, eEnd: int) {
    start < eEnd && end > eStart
  }

  /** Overlap is symmetric, and intervals that only touch do not overlap. */
  lemma OverlapsFacts(a: int, b: int, c: int, d: int)
    ensures Overlaps(a, b, c, d) == Overlaps(c, d, a, b)
    ensures !Overlaps(a, b, b, d) && !Overlaps(b, d, a, b)
  {
  }

  /** Both times of an event read as minutes. */
  predicate Timed(e: TT.Event) {
    ToMinutes(e.start).Some? && ToMinutes(e.end).Some?
  }

  /** `[start, end)` overlaps the event's own interval, read in minutes. */
  predicate OverlapsEvent(start: int, end: int, e: TT.Event) {
    Timed(e) && Overlaps(start, end, ToMinutes(e.start).value, ToMinutes(e.end).value)
  }

  /** `has_conflict`: the first event overlapping `[start, end)` ends the scan; `None` where `to_minutes` raises. */
  function HasConflict(events: seq<TT.Event>, start: int, end: int): Option<bool> {
    if |events| == 0 then Some(false)
    else
      match (ToMinutes(events[0].start), ToMinutes(events[0].end))
      case (Some(s), Some(e)) =>
        if Overlaps(start, end, s, e) then Some(true) else HasConflict(events[1..], start, end)
      case _ => None
  }

  /**
   * On events whose times read as minutes, `has_conflict` answers whether
   * some event overlaps; in particular no event means no conflict.
   */
  lemma {:induction false} HasConflictSpec(events: seq<TT.Event>, start: int, end: int)
    requires forall k :: 0 <= k < |events| ==> Timed(events[k])
    ensures HasConflict(events, start, end) ==
            Some(exists k :: 0 <= k < |events| && OverlapsEvent(start, end, events[k]))
    decreases |events|
  {
    if |events| > 0 {
      var e := events[0];
      assert Timed(e);
      assert HasConflict(events, start, end) ==
             if OverlapsEvent(start, end, e) then Some(true) else HasConflict(events[1..], start, end);
      HasConflictSpec(events[1..], start, end);
      OverlapCons(events, start, end);
    }
  }

  /** Some event overlaps exactly when the first does or some later one does. */
  lemma OverlapCons(events: seq<TT.Event>, start: int, end: int)
    requires |events| > 0
    ensures (exists k :: 0 <= k < |events| && OverlapsEvent(start, end, events[k])) <==>
            OverlapsEvent(start, end, events[0]) ||
            exists k :: 0 <= k < |events[1..]| && OverlapsEvent(start, end, events[1..][k])
  {
    assert forall k :: 0 < k < |events| ==> events[k] == events[1..][k - 1];
    assert forall k :: 0 <= k < |events[1..]| ==> events[1..][k] == events[k + 1];
  }

  /**
   * On `HH:MM` texts the minute test here and the editor's string test
   * agree: an appointment conflicts with exactly the events the event
   * editor would report as clashing.
   */
  lemma ConflictMatchesEditor(e: TT.Event, a: nat, b: nat, s: nat, t: nat)
    requires a < 1440 && b < 1440 && s < 1440 && t < 1440
    requires e.start == TT.Hhmm(a) && e.end == TT.Hhmm(b)
    ensures Timed(e) && ToMinutes(e.start) == Some(a) && ToMinutes(e.end) == Some(b)
    ensures Overlaps(s, t, a, b) <==> TT.TextOverlap(e, TT.Hhmm(s), TT.Hhmm(t))
  {
    ToMinutesOfHhmm(a);
    ToMinutesOfHhmm(b);
    TT.HhmmOrder(a, t);
    TT.HhmmOrder(s, b);
  }

  // ---------------------------------------------------------------------------
  // make_appointment

  datatype AppointmentError = MissingField | InvalidDateOrTime | OwnConflict | OtherConflict | Unreadable

  /**
   * The checks `make_appointment` makes before it writes anything, in
   * order, and the two 24-hour times it writes when they all pass.
   * `dateValid` says whether the date boxes name a real day.
   */
  function CheckAppointment(files: TT.Files, current: string, other: string, date: string, dateValid: bool,
                            start: TT.Clock12, end: TT.Clock12): Result<(string, string), AppointmentError>
  {
    if other == "" || date == "" then Err(MissingField)
    else if !dateValid || !TT.Offered(start) || !TT.Offered(end) then Err(InvalidDateOrTime)
    else
      var s, e := TT.To24h(start), TT.To24h(end);
      var sm, em := ToMinutes(s), ToMinutes(e);
      if sm.None? || em.None? || sm.value >= em.value then Err(InvalidDateOrTime)
      else CheckBothFree(files, current, other, date, sm.value, em.value, (s, e))
  }

  /**
   * The two conflict checks of `make_appointment`, on the minutes `sm` and
   * `em`: the current user's events of the date first, then the other's;
   * `times` is what is written when both are free.
   */
  function CheckBothFree(files: TT.Files, current: string, other: string, date: string, sm: int, em: int,
                         times: (string, string)): Result<(string, string), AppointmentError>
  {
    match TT.LoadEvents(TT.StoredIn(files, current), date)
    case None => Err(Unreadable)
    case Some(mine) =>
      match HasConflict(mine, sm, em)
      case None => Err(Unreadable)
      case Some(true) => Err(OwnConflict)
      case Some(false) =>
        match TT.LoadEvents(TT.StoredIn(files, other), date)
        case None => Err(Unreadable)
        case Some(theirs) =>
          match HasConflict(theirs, sm, em)
          case None => Err(Unreadable)
          case Some(true) => Err(OtherConflict)
          case Some(false) => Ok(times)
  }

  /** `make_appointment`: the stores after the two writes, or why nothing was written. */
  function MakeAppointmentResult(files: TT.Files, current: string, otherInput: string, date: string, dateValid: bool,
                                 start: TT.Clock12, end: TT.Clock12): Result<TT.Files, AppointmentError>
  {
    var other := Strip(otherInput);
    match CheckAppointment(files, current, other, date, dateValid, start, end)
    case Err(err) => Err(err)
    case Ok((s, e)) =>
      var f := TT.AddIn(files, current, date, s, e, TT.AppointmentPrefix + other, "appointment", "");
      Ok(TT.AddIn(f, other, date, s, e, TT.AppointmentPrefix + current, "appointment", ""))
  }

  /** A start at or after the end is refused before any store is read. */
  lemma RejectsStartNotBefore(files: TT.Files, current: string, other: string, date: string,
                              start: TT.Clock12, end: TT.Clock12)
    requires other != "" && date != ""
    requires TT.Offered(start) && TT.Offered(end)
    requires TT.MinuteOfDay(start) >= TT.MinuteOfDay(end)
    ensures CheckAppointment(files, current, other, date, true, start, end) == Err(InvalidDateOrTime)
  {
    ToMinutesOfChoice(start);
    ToMinutesOfChoice(end);
  }

  /**
   * With valid inputs and readable stores, the appointment is accepted
   * exactly when it overlaps nothing on that date in either store, and it
   * is written with the times chosen.
   */
  lemma CheckAppointmentSpec(files: TT.Files, current: string, other: string, date: string,
                             start: TT.Clock12, end: TT.Clock12)
    requires other != "" && date != ""
    requires TT.Offered(start) && TT.Offered(end)
    requires TT.MinuteOfDay(start) < TT.MinuteOfDay(end)
    requires TT.LoadEvents(TT.StoredIn(files, current), date).Some?
    requires TT.LoadEvents(TT.StoredIn(files, other), date).Some?
    requires var mine := TT.LoadEvents(TT.StoredIn(files, current), date).value;
             forall k :: 0 <= k < |mine| ==> Timed(mine[k])
    requires var theirs := TT.LoadEvents(TT.StoredIn(files, other), date).value;
             forall k :: 0 <= k < |theirs| ==> Timed(theirs[k])
    ensures var mine := TT.LoadEvents(TT.StoredIn(files, current), date).value;
            var theirs := TT.LoadEvents(TT.StoredIn(files, other), date).value;
            var s, e := TT.MinuteOfDay(start), TT.MinuteOfDay(end);
            var r := CheckAppointment(files, current, other, date, true, start, end);
            (r.Ok? <==>
               (forall k :: 0 <= k < |mine| ==> !OverlapsEvent(s, e, mine[k])) &&
               (forall k :: 0 <= k < |theirs| ==> !OverlapsEvent(s, e, theirs[k]))) &&
            (r.Ok? ==> r.value == (TT.Hhmm(s), TT.Hhmm(e))) &&
            (r.Err? ==> r.error == OwnConflict || r.error == OtherConflict)
  {
    var s, e := TT.MinuteOfDay(start), TT.MinuteOfDay(end);
    assert CheckAppointment(files, current, other, date, true, start, end) ==
           CheckBothFree(files, current, other, date, s, e, (TT.Hhmm(s), TT.Hhmm(e))) by {
      ToMinutesOfChoice(start);
      ToMinutesOfChoice(end);
      TT.To24hIsHhmm(start);
      TT.To24hIsHhmm(end);
    }
    CheckBothFreeSpec(files, current, other, date, s, e, (TT.Hhmm(s), TT.Hhmm(e)));
  }

  /** Both stores readable, the times are written exactly when neither store has an overlapping event. */
  lemma CheckBothFreeSpec(files: TT.Files, current: string, other: string, date: string, sm: int, em: int,
                          times: (string, string))
    requires TT.LoadEvents(TT.StoredIn(files, current), date).Some?
    requires TT.LoadEvents(TT.StoredIn(files, other), date).Some?
    requires var mine := TT.LoadEvents(TT.StoredIn(files, current), date).value;
             forall k :: 0 <= k < |mine| ==> Timed(mine[k])
    requires var theirs := TT.LoadEvents(TT.StoredIn(files, other), date).value;
             forall k :: 0 <= k < |theirs| ==> Timed(theirs[k])
    ensures var mine := TT.LoadEvents(TT.StoredIn(files, current), date).value;
            var theirs := TT.LoadEvents(TT.StoredIn(files, other), date).value;
            var r := CheckBothFree(files, current, other, date, sm, em, times);
            (r.Ok? <==>
               (forall k :: 0 <= k < |mine| ==> !OverlapsEvent(sm, em, mine[k])) &&
               (forall k :: 0 <= k < |theirs| ==> !OverlapsEvent(sm, em, theirs[k]))) &&
            (r.Ok? ==> r.value == times) &&
            (r.Err? ==> r.error == OwnConflict || r.error == OtherConflict)
  {
    HasConflictSpec(TT.LoadEvents(TT.StoredIn(files, current), date).value, sm, em);
    HasConflictSpec(TT.LoadEvents(TT.StoredIn(files, other), date).value, sm, em);
  }

  /** A store that loads with a date filter also loads without one. */
  lemma LoadsOnDate(rows: seq<TT.Event>, date: string)
    requires TT.LoadEvents(rows, date).Some?
    ensures TT.LoadAll(rows).Some?
  {
  }

  /**
   * A successful appointment appends exactly one "appointment" event to
   * each party's store, both with the chosen date and times and each
   * titled with the other party's name; every other store is unchanged.
   */
  lemma MakeAppointmentAdds(files: TT.Files, current: string, otherInput: string, date: string, dateValid: bool,
                            start: TT.Clock12, end: TT.Clock12)
    requires Strip(otherInput) != current
    requires MakeAppointmentResult(files, current, otherInput, date, dateValid, start, end).Ok?
    ensures var other := Strip(otherInput);
            var after := MakeAppointmentResult(files, current, otherInput, date, dateValid, start, end).value;
            var mine := TT.LoadAll(TT.StoredIn(files, current));
            var theirs := TT.LoadAll(TT.StoredIn(files, other));
            var s, e := TT.To24h(start), TT.To24h(end);
            mine.Some? && theirs.Some? &&
            |TT.StoredIn(after, current)| == |mine.value| + 1 &&
            TT.StoredIn(after, current)[..|mine.value|] == mine.value &&
            TT.StoredIn(after, current)[|mine.value|] ==
              TT.Event(TT.StoredIn(after, current)[|mine.value|].id, date, s, e,
                       TT.AppointmentPrefix + other, "0", "appointment", "") &&
            |TT.StoredIn(after, other)| == |theirs.value| + 1 &&
            TT.StoredIn(after, other)[..|theirs.value|] == theirs.value &&
            TT.StoredIn(after, other)[|theirs.value|] ==
              TT.Event(TT.StoredIn(after, other)[|theirs.value|].id, date, s, e,
                       TT.AppointmentPrefix + current, "0", "appointment", "") &&
            (forall u :: u != current && u != other ==> TT.StoredIn(after, u) == TT.StoredIn(files, u))
  {
    var other := Strip(otherInput);
    var c := CheckAppointment(files, current, other, date, dateValid, start, end);
    var s, e := c.value.0, c.value.1;
    LoadsOnDate(TT.StoredIn(files, current), date);
    LoadsOnDate(TT.StoredIn(files, other), date);
    var f := TT.AddIn(files, current, date, s, e, TT.AppointmentPrefix + other, "appointment", "");
    TT.AddInSpec(files, current, date, s, e, TT.AppointmentPrefix + other, "appointment", "");
    assert TT.StoredIn(f, other) == TT.StoredIn(files, other);
    TT.AddInSpec(f, other, date, s, e, TT.AppointmentPrefix + current, "appointment", "");
  }

  /**
   * `make_appointment` on the event stores: run the checks, then append
   * the current user's copy and the other user's copy, one after the other.
   */
  method MakeAppointment(store: TT.EventStore, current: string, otherInput: string, date: string, dateValid: bool,
                         start: TT.Clock12, end: TT.Clock12) returns (err: Option<AppointmentError>)
    modifies store
    ensures var expected := MakeAppointmentResult(old(store.files), current, otherInput, date, dateValid, start, end);
            (expected.Err? ==> err == Some(expected.error) && store.files == old(store.files)) &&
            (expected.Ok? ==> err.None? && store.files == expected.value)
  {
    var other := Strip(otherInput);
    var check := CheckAppointment(store.files, current, other, date, dateValid, start, end);
    if check.Err? {
      return Some(check.error);
    }
    var (s, e) := check.value;
    store.AddEvent(current, date, s, e, TT.AppointmentPrefix + other, "appointment", "");
    store.AddEvent(other, date, s, e, TT.AppointmentPrefix + current, "appointment", "");
    return None;
  }

  // ---------------------------------------------------------------------------
  // cancel_appointment

  /**
   * Why `cancel_appointment` stops: no line is selected, the line does not
   * split or its times do not parse (the source raises), the day's events
   * cannot be read, or no event matches -- all before anything is written;
   * or, after the user's own event is deleted, the other party's events
   * cannot be read (the source raises there, and the success message and
   * the history refresh do not happen).
   */
  datatype CancelError = NoSelection | LineUnreadable | CancelUnreadable | NotFound | OtherUnreadable

  /** What `cancel_appointment` leaves: the stores as written, and the error it stopped with, if any. */
  datatype CancelOutcome = CancelOutcome(files: TT.Files, err: Option<CancelError>)

  /** What a history line says: the date, both times on the 24-hour clock, and the title. */
  datatype HistoryEntry = HistoryEntry(date: string, start: string, end: string, title: string)

  /** A line of `refresh_history`; `None` where `to_12h_str` raises on a time. */
  function HistoryLine(e: TT.Event): Option<string> {
    match (To12hStr(e.start), To12hStr(e.end))
    case (Some(s), Some(t)) => Some(e.date + " | " + s + " - " + t + " | " + e.title)
    case _ => None
  }

  /**
   * How `cancel_appointment` reads a line: `split(" | ", 2)` into date,
   * times and title, `split(" - ")` of the times into exactly two labels,
   * each stripped, parsed with "%I:%M %p" and written with "%H:%M".
   * `None` where the unpacking or `strptime` raises.
   */
  function ReadHistoryLine(line: string): Option<HistoryEntry> {
    match SplitOnce(line, " | ")
    case None => None
    case Some((date, afterDate)) =>
      match SplitOnce(afterDate, " | ")
      case None => None
      case Some((times, title)) =>
        var labels := SplitStr(times, " - ");
        if |labels| != 2 then None
        else match (BR.ParseTimeLabel(Strip(labels[0])), BR.ParseTimeLabel(Strip(labels[1])))
          case (Some(s), Some(e)) => Some(HistoryEntry(date, TT.Hhmm(s), TT.Hhmm(e), title))
          case _ => None
  }

  /** The history line's event: same title, start and end. */
  predicate Listed(e: TT.Event, title: string, start: string, end: string) {
    e.title == title && e.start == start && e.end == end
  }

  function FirstListed(evs: seq<TT.Event>, title: string, start: string, end: string): (i: nat)
    ensures i <= |evs|
    ensures i < |evs| ==> Listed(evs[i], title, start, end)
    ensures forall k :: 0 <= k < i ==> !Listed(evs[k], title, start, end)
  {
    if |evs| == 0 then 0
    else if Listed(evs[0], title, start, end) then 0
    else 1 + FirstListed(evs[1..], title, start, end)
  }

  /**
   * The other party's side: among `other`'s events of the date, delete
   * (by id) the first titled with `user`'s name and with the same times;
   * `None` where loading `other`'s events raises.
   */
  function RemoveOnDate(files: TT.Files, user: string, other: string, date: string, start: string, end: string): Option<TT.Files> {
    match TT.LoadEvents(TT.StoredIn(files, other), date)
    case None => None
    case Some(day) =>
      var j := FirstListed(day, TT.AppointmentPrefix + user, start, end);
      Some(if j == |day| then files else TT.DeleteIn(files, other, day[j].id))
  }

  /** `cancel_appointment` for the history line (date, start, end, title). */
  function CancelResult(files: TT.Files, current: string, date: string, start: string, end: string, title: string): (r: CancelOutcome)
    ensures r.err.Some? && r.err != Some(OtherUnreadable) ==> r.files == files
    ensures r.err == Some(OtherUnreadable) ==> TT.AppointmentPrefix <= title
  {
    match TT.LoadEvents(TT.StoredIn(files, current), date)
    case None => CancelOutcome(files, Some(CancelUnreadable))
    case Some(mine) =>
      var i := FirstListed(mine, title, start, end);
      if i == |mine| then CancelOutcome(files, Some(NotFound))
      else
        var afterOwn := TT.DeleteIn(files, current, mine[i].id);
        if TT.AppointmentPrefix <= title then
          match RemoveOnDate(afterOwn, current, TT.OtherUser(title), date, start, end)
          case None => CancelOutcome(afterOwn, Some(OtherUnreadable))
          case Some(after) => CancelOutcome(after, None)
        else CancelOutcome(afterOwn, None)
  }

  /** `cancel_appointment` for the selected history line, if any. */
  function CancelLineResult(files: TT.Files, current: string, selected: Option<string>): (r: CancelOutcome)
    ensures r.err.Some? && r.err != Some(OtherUnreadable) ==> r.files == files
  {
    match selected
    case None => CancelOutcome(files, Some(NoSelection))
    case Some(line) =>
      match ReadHistoryLine(line)
      case None => CancelOutcome(files, Some(LineUnreadable))
      case Some(h) => CancelResult(files, current, h.date, h.start, h.end, h.title)
  }

  /** The 12-hour text of a minute of the day is its label on the booking page. */
  lemma To12hStrIsTimeLabel(t: nat)
    requires t < 1440
    ensures To12hStr(TT.Hhmm(t)) == Some(BR.TimeLabel(t))
  {
    To12hStrOfMinute(t);
    BR.Label12Shape(BR.Hour12(t / 60), t % 60, t < 720);
    LabelText(t);
  }

  /** The pieces `to_12h_str` glues together spell the label. */
  lemma LabelText(t: nat)
    requires t < 1440
    ensures var h := t / 60;
            NatToDec(if h == 0 then 12 else if h > 12 then h - 12 else h) + ":" + Pad2(t % 60) + " " +
            (if h >= 12 then "PM" else "AM") ==
            NatToDec(BR.Hour12(h)) + [':'] + (Pad2(t % 60) + " " + BR.Meridiem(t < 720))
  {
    var h := t / 60;
    assert BR.Hour12(h) == (if h == 0 then 12 else if h > 12 then h - 12 else h);
    assert (h >= 12) == !(t < 720);
  }

  /** A label holds neither '|' nor '-', has no whitespace around it, and parses back. */
  lemma TimeLabelReads(t: nat)
    requires t < 1440
    ensures '|' !in BR.TimeLabel(t) && '-' !in BR.TimeLabel(t)
    ensures Strip(BR.TimeLabel(t)) == BR.TimeLabel(t)
    ensures BR.ParseTimeLabel(BR.TimeLabel(t)) == Some(t)
  {
    BR.Label12Shape(BR.Hour12(t / 60), t % 60, t < 720);
    LabelChars(BR.Hour12(t / 60), t % 60, t < 720);
    BR.TimeLabelRoundTrip(t);
  }

  /** A label holds neither '|' nor '-' and starts with a digit and ends with 'M'. */
  lemma LabelChars(h12: nat, mm: nat, am: bool)
    ensures var s := NatToDec(h12) + [':'] + (Pad2(mm) + " " + BR.Meridiem(am));
            '|' !in s && '-' !in s && Strip(s) == s
  {
    NatToDecValue(h12);
    Pad2Value(mm);
    var d, p := NatToDec(h12), Pad2(mm);
    DigitsLackMarks(d);
    DigitsLackMarks(p);
    var s := d + [':'] + (p + " " + BR.Meridiem(am));
    assert s[0] == d[0] && s[|s| - 1] == 'M';
    StripTrimmed(s);
  }

  lemma DigitsLackMarks(d: string)
    requires IsDigits(d)
    ensures '|' !in d && '-' !in d
    ensures |d| > 0 ==> !IsSpace(d[0])
  {
  }

  /**
   * A history line of an event whose times are written "HH:MM" and whose
   * date has no '|' reads back to the event's date, times and title.
   */
  lemma HistoryLineReadsBack(e: TT.Event, s: nat, t: nat)
    requires s < 1440 && t < 1440 && e.start == TT.Hhmm(s) && e.end == TT.Hhmm(t) && '|' !in e.date
    ensures HistoryLine(e).Some?
    ensures ReadHistoryLine(HistoryLine(e).value) == Some(HistoryEntry(e.date, e.start, e.end, e.title))
  {
    To12hStrIsTimeLabel(s);
    To12hStrIsTimeLabel(t);
    assert HistoryLine(e) == Some(e.date + " | " + BR.TimeLabel(s) + " - " + BR.TimeLabel(t) + " | " + e.title);
    ReadLabelsLine(e.date, s, t, e.title);
  }

  /** The line of a date, two labels and a title reads back to them, the labels as "HH:MM". */
  lemma ReadLabelsLine(date: string, s: nat, t: nat, title: string)
    requires s < 1440 && t < 1440 && '|' !in date
    ensures ReadHistoryLine(date + " | " + BR.TimeLabel(s) + " - " + BR.TimeLabel(t) + " | " + title) ==
            Some(HistoryEntry(date, TT.Hhmm(s), TT.Hhmm(t), title))
  {
    TimeLabelReads(s);
    TimeLabelReads(t);
    var a, b := BR.TimeLabel(s), BR.TimeLabel(t);
    var times := a + " - " + b;
    LineGlue(date, a, b, title);
    SplitOnceAround(date, times + " | " + title, " | ");
    assert '|' !in times;
    SplitOnceAround(times, title, " | ");
    SplitStrAround(a, b, " - ");
    NotContainsChar(b, " - ", '-');
    SplitStrNone(b, " - ");
    ReadFields(date + " | " + (times + " | " + title), date, times + " | " + title, times, title, a, b, s, t);
  }

  /** `ReadHistoryLine` step by step, from the fields each split yields. */
  lemma ReadFields(line: string, date: string, rest: string, times: string, title: string,
                   a: string, b: string, s: nat, t: nat)
    requires SplitOnce(line, " | ") == Some((date, rest)) && SplitOnce(rest, " | ") == Some((times, title))
    requires SplitStr(times, " - ") == [a, b]
    requires BR.ParseTimeLabel(Strip(a)) == Some(s) && BR.ParseTimeLabel(Strip(b)) == Some(t)
    ensures ReadHistoryLine(line) == Some(HistoryEntry(date, TT.Hhmm(s), TT.Hhmm(t), title))
  {
  }

  lemma LineGlue(date: string, a: string, b: string, title: string)
    ensures date + " | " + a + " - " + b + " | " + title == date + " | " + (a + " - " + b + " | " + title)
  {
  }

  /** Cancelling such a line looks for exactly the event it was made from. */
  lemma CancelOfHistoryLine(files: TT.Files, current: string, e: TT.Event, s: nat, t: nat)
    requires s < 1440 && t < 1440 && e.start == TT.Hhmm(s) && e.end == TT.Hhmm(t) && '|' !in e.date
    ensures HistoryLine(e).Some?
    ensures CancelLineResult(files, current, HistoryLine(e)) == CancelResult(files, current, e.date, e.start, e.end, e.title)
  {
    HistoryLineReadsBack(e, s, t);
  }

  /** A stored start without its leading zero renders like the padded one. */
  lemma UnpaddedRendersPadded(s: nat)
    requires 60 <= s < 600
    ensures To12hStr(NatToDec(s / 60) + ":" + Pad2(s % 60)) == To12hStr(TT.Hhmm(s))
  {
    UnpaddedParts(s / 60, s % 60);
    TT.TimePartsOfHhmm(s);
    To12hStrOfParts(NatToDec(s / 60) + ":" + Pad2(s % 60), TT.Hhmm(s));
  }

  lemma To12hStrOfParts(a: string, b: string)
    requires TT.TimeParts(a) == TT.TimeParts(b)
    ensures To12hStr(a) == To12hStr(b)
  {
  }

  lemma UnpaddedParts(h: nat, m: nat)
    ensures TT.TimeParts(NatToDec(h) + ":" + Pad2(m)) == Some((h, m))
  {
    var d := NatToDec(h);
    NatToDecValue(h);
    Pad2Value(m);
    TT.DigitsPunctuation(d);
    TT.DigitsPunctuation(Pad2(m));
    SplitCharPair(d, Pad2(m), ':');
    assert NatToDec(h) + ":" + Pad2(m) == d + [':'] + Pad2(m);
    PyIntOfDigits(d);
    PyIntOfDigits(Pad2(m));
  }

  /**
   * A start stored as "9:00" is listed in the history, but the line reads
   * back "09:00", so cancelling it finds no event when it is the day's only one.
   */
  lemma UnpaddedStartNotFound(files: TT.Files, current: string, e: TT.Event, s: nat, t: nat)
    requires 60 <= s < 600 && t < 1440
    requires e.start == NatToDec(s / 60) + ":" + Pad2(s % 60) && e.end == TT.Hhmm(t) && '|' !in e.date
    requires TT.LoadEvents(TT.StoredIn(files, current), e.date) == Some([e])
    ensures HistoryLine(e).Some?
    ensures CancelLineResult(files, current, HistoryLine(e)) == CancelOutcome(files, Some(NotFound))
  {
    var early := e.(start := TT.Hhmm(s));
    UnpaddedRendersPadded(s);
    assert HistoryLine(e) == HistoryLine(early);
    HistoryLineReadsBack(early, s, t);
    UnpaddedShorter(s);
    assert !Listed(e, e.title, TT.Hhmm(s), e.end);
  }

  /** An hour below ten is one digit without its zero and two with it. */
  lemma UnpaddedShorter(s: nat)
    requires 60 <= s < 600
    ensures |NatToDec(s / 60) + ":" + Pad2(s % 60)| == 4 && |TT.Hhmm(s)| == 5
  {
    NatToDecValue(s / 60);
    Pad2Value(s / 60);
    Pad2Value(s % 60);
  }

  /** Among events of one date, the title-and-times search finds the timetable's reciprocal copy. */
  lemma FirstListedIsReciprocal(day: seq<TT.Event>, date: string, start: string, end: string, user: string)
    requires forall k :: 0 <= k < |day| ==> day[k].date == date
    ensures FirstListed(day, TT.AppointmentPrefix + user, start, end) == TT.FirstReciprocal(day, date, start, end, user)
  {
    var i := FirstListed(day, TT.AppointmentPrefix + user, start, end);
    var j := TT.FirstReciprocal(day, date, start, end, user);
    assert i < |day| ==> TT.Reciprocal(day[i], date, start, end, user);
    assert j < |day| ==> Listed(day[j], TT.AppointmentPrefix + user, start, end);
  }

  /**
   * For a real date, the other party's side of cancelling here removes the
   * same event as the timetable's `delete_appointment` does.
   */
  lemma RemoveOnDateIsRemoveReciprocal(files: TT.Files, user: string, other: string, date: string, start: string, end: string)
    requires date != ""
    ensures RemoveOnDate(files, user, other, date, start, end).Some? <==> TT.LoadAll(TT.StoredIn(files, other)).Some?
    ensures RemoveOnDate(files, user, other, date, start, end).Some? ==>
              RemoveOnDate(files, user, other, date, start, end).value == TT.RemoveReciprocal(files, user, other, date, start, end)
  {
    match TT.LoadAll(TT.StoredIn(files, other))
    case None =>
    case Some(evs) =>
      var day := TT.OnDate(evs, date);
      FirstListedIsReciprocal(day, date, start, end, user);
      TT.FirstReciprocalOnDate(evs, date, start, end, user);
  }

  /**
   * A cancellation that finds the line's event deletes it, with every
   * event sharing its id, from the current user's store, and keeps the
   * other events there. That delete is written whatever happens on the
   * other party's side: when their events cannot be read, the call stops
   * with `OtherUnreadable` and the stores are as after the own delete.
   */
  lemma CancelOwnSide(files: TT.Files, current: string, date: string, start: string, end: string, title: string)
    requires CancelResult(files, current, date, start, end, title).err in {None, Some(OtherUnreadable)}
    ensures var mineDay := TT.LoadEvents(TT.StoredIn(files, current), date).value;
            var gone := mineDay[FirstListed(mineDay, title, start, end)];
            var afterOwn := TT.DeleteIn(files, current, gone.id);
            var otherSide := RemoveOnDate(afterOwn, current, TT.OtherUser(title), date, start, end);
            var r := CancelResult(files, current, date, start, end, title);
            Listed(gone, title, start, end) && (date != "" ==> gone.date == date) &&
            TT.StoredIn(afterOwn, current) == TT.WithoutId(TT.LoadAll(TT.StoredIn(files, current)).value, gone.id) &&
            gone !in TT.StoredIn(afterOwn, current) &&
            (forall u :: u != current ==> TT.StoredIn(afterOwn, u) == TT.StoredIn(files, u)) &&
            (!(TT.AppointmentPrefix <= title) ==> r == CancelOutcome(afterOwn, None)) &&
            (TT.AppointmentPrefix <= title && otherSide.Some? ==> r == CancelOutcome(otherSide.value, None)) &&
            (TT.AppointmentPrefix <= title && otherSide.None? ==> r == CancelOutcome(afterOwn, Some(OtherUnreadable)))
  {
    var mineDay := TT.LoadEvents(TT.StoredIn(files, current), date).value;
    var gone := mineDay[FirstListed(mineDay, title, start, end)];
    LoadsOnDate(TT.StoredIn(files, current), date);
    TT.WithoutIdSpec(TT.LoadAll(TT.StoredIn(files, current)).value, gone.id, gone);
  }

  /**
   * When the other party's events cannot be read, the user's own event has
   * already been deleted and stays deleted, the other party's store is as
   * it was, and the call stops with `OtherUnreadable`.
   */
  lemma CancelOtherUnreadable(files: TT.Files, current: string, date: string, start: string, end: string, title: string)
    requires TT.AppointmentPrefix <= title && TT.OtherUser(title) != current
    requires TT.LoadEvents(TT.StoredIn(files, current), date).Some?
    requires var mine := TT.LoadEvents(TT.StoredIn(files, current), date).value;
             FirstListed(mine, title, start, end) < |mine|
    requires TT.LoadAll(TT.StoredIn(files, TT.OtherUser(title))).None?
    ensures var mine := TT.LoadEvents(TT.StoredIn(files, current), date).value;
            var gone := mine[FirstListed(mine, title, start, end)];
            var r := CancelResult(files, current, date, start, end, title);
            r.err == Some(OtherUnreadable) && r.files == TT.DeleteIn(files, current, gone.id) &&
            gone !in TT.StoredIn(r.files, current) &&
            TT.StoredIn(r.files, TT.OtherUser(title)) == TT.StoredIn(files, TT.OtherUser(title))
  {
    var mine := TT.LoadEvents(TT.StoredIn(files, current), date).value;
    var gone := mine[FirstListed(mine, title, start, end)];
    var afterOwn := TT.DeleteIn(files, current, gone.id);
    CancelOwnSide(files, current, date, start, end, title);
    assert TT.StoredIn(afterOwn, TT.OtherUser(title)) == TT.StoredIn(files, TT.OtherUser(title));
  }

  /**
   * For an appointment with someone else, cancelling removes at most one
   * event from the other party's store, the first reciprocal copy, and
   * leaves the stores of third parties unchanged.
   */
  lemma CancelOtherSide(files: TT.Files, current: string, date: string, start: string, end: string, title: string)
    requires date != "" && TT.AppointmentPrefix <= title && TT.OtherUser(title) != current
    requires CancelResult(files, current, date, start, end, title).err.None?
    requires TT.LoadAll(TT.StoredIn(files, TT.OtherUser(title))).Some?
    requires TT.UniqueIds(TT.LoadAll(TT.StoredIn(files, TT.OtherUser(title))).value)
    ensures var other := TT.OtherUser(title);
            var after := CancelResult(files, current, date, start, end, title).files;
            var before := TT.LoadAll(TT.StoredIn(files, other)).value;
            var i := TT.FirstReciprocal(before, date, start, end, current);
            (i == |before| ==> TT.StoredIn(after, other) == TT.StoredIn(files, other)) &&
            (i < |before| ==> before[i] !in TT.StoredIn(after, other) &&
                              forall k :: 0 <= k < |before| && k != i ==> before[k] in TT.StoredIn(after, other)) &&
            (forall u :: u != current && u != other ==> TT.StoredIn(after, u) == TT.StoredIn(files, u))
  {
    var other := TT.OtherUser(title);
    var mineDay := TT.LoadEvents(TT.StoredIn(files, current), date).value;
    var gone := mineDay[FirstListed(mineDay, title, start, end)];
    var afterOwn := TT.DeleteIn(files, current, gone.id);
    var after := CancelResult(files, current, date, start, end, title).files;
    assert after == TT.RemoveReciprocal(afterOwn, current, other, date, start, end) &&
           forall u :: u != current ==> TT.StoredIn(afterOwn, u) == TT.StoredIn(files, u) by {
      CancelOwnSide(files, current, date, start, end, title);
      RemoveOnDateIsRemoveReciprocal(afterOwn, current, other, date, start, end);
    }
    assert TT.StoredIn(afterOwn, other) == TT.StoredIn(files, other);
    TT.RemoveReciprocalSpec(afterOwn, current, other, date, start, end);
    TT.RemoveReciprocalOthers(afterOwn, current, other, date, start, end);
  }

  /**
   * `cancel_appointment` on the event stores: read the date, times and
   * title from the selected history line, find that event among the day's
   * events, delete it, then for an appointment delete the first matching
   * copy among the other party's events of that day.
   */
  method CancelAppointment(store: TT.EventStore, current: string, selected: Option<string>)
    returns (err: Option<CancelError>)
    modifies store
    ensures var expected := CancelLineResult(old(store.files), current, selected);
            err == expected.err && store.files == expected.files
  {
    if selected.None? {
      return Some(NoSelection);
    }
    var entry := ReadHistoryLine(selected.value);
    if entry.None? {
      return Some(LineUnreadable);
    }
    var HistoryEntry(date, start, end, title) := entry.value;
    var loaded := TT.LoadEvents(store.Stored(current), date);
    if loaded.None? {
      return Some(CancelUnreadable);
    }
    var mine := loaded.value;
    var i := FindListed(mine, title, start, end);
    if i == |mine| {
      return Some(NotFound);
    }
    store.DeleteEvent(current, mine[i].id);
    if TT.AppointmentPrefix <= title {
      var loadedOther := RemoveCopy(store, current, TT.OtherUser(title), date, start, end);
      if !loadedOther {
        return Some(OtherUnreadable);
      }
    }
    return None;
  }

  /** The search loop over the day's events: the index of the first listed one, or the length. */
  method FindListed(evs: seq<TT.Event>, title: string, start: string, end: string) returns (i: nat)
    ensures i == FirstListed(evs, title, start, end)
  {
    i := 0;
    while i < |evs| && !Listed(evs[i], title, start, end)
      invariant 0 <= i <= |evs|
      invariant forall k :: 0 <= k < i ==> !Listed(evs[k], title, start, end)
    {
      i := i + 1;
    }
    FirstListedAt(evs, title, start, end, i);
  }

  /** The other party's side of `cancel_appointment`, with its search loop and `break`. */
  method RemoveCopy(store: TT.EventStore, user: string, other: string, date: string, start: string, end: string)
    returns (loaded: bool)
    modifies store
    ensures var r := RemoveOnDate(old(store.files), user, other, date, start, end);
            loaded == r.Some? && store.files == (if loaded then r.value else old(store.files))
  {
    var theirs := TT.LoadEvents(store.Stored(other), date);
    if theirs.None? {
      return false;
    }
    var day := theirs.value;
    var j := FindListed(day, TT.AppointmentPrefix + user, start, end);
    if j < |day| {
      store.DeleteEvent(other, day[j].id);
    }
    return true;
  }

  /** A scan that stops at the first listed event, or at the end, stops where `FirstListed` points. */
  lemma FirstListedAt(evs: seq<TT.Event>, title: string, start: string, end: string, i: nat)
    requires i <= |evs|
    requires i < |evs| ==> Listed(evs[i], title, start, end)
    requires forall k :: 0 <= k < i ==> !Listed(evs[k], title, start, end)
    ensures FirstListed(evs, title, start, end) == i
  {
    var j := FirstListed(evs, title, start, end);
    assert j < |evs| ==> Listed(evs[j], title, start, end);
  }

  // ---------------------------------------------------------------------------
  // refresh_history

  predicate IsAppointment(e: TT.Event) {
    TT.AppointmentPrefix <= e.title
  }

  /** The sort key `(date, start_time)`, compared as Python compares tuples of strings. */
  predicate KeyLess(a: TT.Event, b: TT.Event) {
    LexLess(a.date, b.date) || (a.date == b.date && LexLess(a.start, b.start))
  }

  lemma KeyLessAsymmetric(a: TT.Event, b: TT.Event)
    ensures KeyLess(a, b) ==> !KeyLess(b, a)
  {
    if LexLess(a.date, b.date) {
      LexLessAsymmetric(a.date, b.date);
    }
    if LexLess(a.start, b.start) {
      LexLessAsymmetric(a.start, b.start);
    }
    LexLessIrreflexive(a.date);
  }

  /** If `a` sorts before `c`, then any `b` sorts after `a` or before `c`. */
  lemma KeyLessSplit(a: TT.Event, b: TT.Event, c: TT.Event)
    requires KeyLess(a, c)
    ensures KeyLess(a, b) || KeyLess(b, c)
  {
    LexLessTotal(a.date, b.date);
    LexLessTotal(a.start, b.start);
    if LexLess(b.date, a.date) && LexLess(a.date, c.date) {
      LexLessTransitive(b.date, a.date, c.date);
    }
    if LexLess(b.date, a.date) && a.date == c.date {
      assert LexLess(b.date, c.date);
    }
    if b.date == a.date && LexLess(b.start, a.start) && LexLess(a.start, c.start) {
      LexLessTransitive(b.start, a.start, c.start);
    }
  }

  /** No element sorts before one to its left. */
  predicate SortedByKey(s: seq<TT.Event>) {
    forall i, j :: 0 <= i < j < |s| ==> !KeyLess(s[j], s[i])
  }

  /** Insert `x` before the first element that does not sort before it. */
  function Insert(x: TT.Event, s: seq<TT.Event>): (r: seq<TT.Event>)
    ensures multiset(r) == multiset(s) + multiset{x}
  {
    if |s| == 0 then [x]
    else
      assert s == [s[0]] + s[1..];
      if KeyLess(s[0], x) then [s[0]] + Insert(x, s[1..]) else [x] + s
  }

  /** `sorted(..., key=lambda x: (x['date'], x['start_time']))`, by insertion. */
  function SortByKey(s: seq<TT.Event>): (r: seq<TT.Event>)
    ensures multiset(r) == multiset(s)
  {
    if |s| == 0 then []
    else
      assert s == [s[0]] + s[1..];
      Insert(s[0], SortByKey(s[1..]))
  }

  lemma {:induction false} InsertSorted(x: TT.Event, s: seq<TT.Event>)
    requires SortedByKey(s)
    ensures SortedByKey(Insert(x, s))
    decreases |s|
  {
    if |s| > 0 {
      if KeyLess(s[0], x) {
        assert SortedByKey(s[1..]);
        InsertSorted(x, s[1..]);
        InsertBehindHead(x, s);
      } else {
        InsertAtHead(x, s);
      }
    }
  }

  /** Past a first element that sorts before `x`, inserting into the sorted rest keeps the whole sorted. */
  lemma InsertBehindHead(x: TT.Event, s: seq<TT.Event>)
    requires |s| > 0 && SortedByKey(s) && KeyLess(s[0], x)
    requires SortedByKey(Insert(x, s[1..]))
    ensures SortedByKey([s[0]] + Insert(x, s[1..]))
  {
    var r := Insert(x, s[1..]);
    KeyLessAsymmetric(s[0], x);
    forall j | 0 <= j < |r|
      ensures !KeyLess(r[j], s[0])
    {
      assert r[j] in multiset(r);
      if r[j] != x {
        assert r[j] in multiset(s[1..]);
        var k :| 0 <= k < |s[1..]| && s[1..][k] == r[j];
        assert s[k + 1] == r[j];
      }
    }
    assert forall j :: 0 < j < |[s[0]] + r| ==> ([s[0]] + r)[j] == r[j - 1];
  }

  /** Before a first element that does not sort before `x`, `x` goes in front of a sorted list. */
  lemma InsertAtHead(x: TT.Event, s: seq<TT.Event>)
    requires |s| > 0 && SortedByKey(s) && !KeyLess(s[0], x)
    ensures SortedByKey([x] + s)
  {
    forall k | 0 <= k < |s|
      ensures !KeyLess(s[k], x)
    {
      if k > 0 && KeyLess(s[k], x) {
        KeyLessSplit(s[k], s[0], x);
      }
    }
    assert forall j :: 0 < j < |[x] + s| ==> ([x] + s)[j] == s[j - 1];
  }

  lemma {:induction false} SortByKeySorted(s: seq<TT.Event>)
    ensures SortedByKey(SortByKey(s))
    decreases |s|
  {
    if |s| > 0 {
      SortByKeySorted(s[1..]);
      InsertSorted(s[0], SortByKey(s[1..]));
    }
  }

  /** Same date and start: the sort key of the history. */
  predicate SameKey(a: TT.Event, b: TT.Event) {
    a.date == b.date && a.start == b.start
  }

  /** The elements of `s` with the same key as `e`, in their order in `s`. */
  function KeyRun(s: seq<TT.Event>, e: TT.Event): seq<TT.Event> {
    if |s| == 0 then [] else (if SameKey(s[0], e) then [s[0]] else []) + KeyRun(s[1..], e)
  }

  /** Two elements with one key never sort one before the other. */
  lemma SameKeyNotLess(a: TT.Event, b: TT.Event, e: TT.Event)
    requires SameKey(a, e) && SameKey(b, e)
    ensures !KeyLess(a, b)
  {
    LexLessIrreflexive(a.date);
    LexLessIrreflexive(a.start);
  }

  /** `x` joins the elements with its key in front of them; the other keys' elements are untouched. */
  lemma {:induction false} InsertRun(x: TT.Event, s: seq<TT.Event>, e: TT.Event)
    ensures KeyRun(Insert(x, s), e) == (if SameKey(x, e) then [x] else []) + KeyRun(s, e)
    decreases |s|
  {
    if |s| > 0 && KeyLess(s[0], x) {
      InsertRun(x, s[1..], e);
      if SameKey(x, e) && SameKey(s[0], e) {
        SameKeyNotLess(s[0], x, e);
      }
      assert ([s[0]] + Insert(x, s[1..]))[1..] == Insert(x, s[1..]);
    } else if |s| > 0 {
      assert ([x] + s)[1..] == s;
    }
  }

  /** The sort is stable: elements with one key keep the order they had. */
  lemma {:induction false} SortByKeyStable(s: seq<TT.Event>, e: TT.Event)
    ensures KeyRun(SortByKey(s), e) == KeyRun(s, e)
    decreases |s|
  {
    if |s| > 0 {
      SortByKeyStable(s[1..], e);
      InsertRun(s[0], SortByKey(s[1..]), e);
    }
  }

  /** The history: the user's appointments, ordered by date and then start time. */
  function History(evs: seq<TT.Event>): seq<TT.Event> {
    SortByKey(Filter(evs, IsAppointment))
  }

  /**
   * The history holds exactly the appointments of the store, each as many
   * times as it occurs there, in (date, start) order; appointments with the
   * same date and start keep their order in the store.
   */
  lemma HistorySpec(evs: seq<TT.Event>)
    ensures SortedByKey(History(evs))
    ensures multiset(History(evs)) == multiset(Filter(evs, IsAppointment))
    ensures forall e :: e in History(evs) <==> e in evs && IsAppointment(e)
    ensures forall e :: KeyRun(History(evs), e) == KeyRun(Filter(evs, IsAppointment), e)
  {
    SortByKeySorted(Filter(evs, IsAppointment));
    forall e
      ensures KeyRun(History(evs), e) == KeyRun(Filter(evs, IsAppointment), e)
    {
      SortByKeyStable(Filter(evs, IsAppointment), e);
    }
    assert forall e :: e in History(evs) <==> e in multiset(History(evs));
    assert forall e :: e in Filter(evs, IsAppointment) <==> e in multiset(Filter(evs, IsAppointment));
  }

  // ---------------------------------------------------------------------------
  // load_users

  /** The username on one line of the users file, in either format. */
  function NameOnLine(line: string): Option<string> {
    var parts := SplitChar(Strip(line), ',');
    if |parts| == 2 then Some(parts[0]) else if |parts| == 3 then Some(parts[1]) else None
  }

  /** The usernames the user box offers: every readable entry's name except the current user's. */
  function LoadUsers(lines: seq<string>, current: string): (names: seq<string>)
    ensures forall k :: 0 <= k < |names| ==> names[k] != current
  {
    if |lines| == 0 then []
    else
      var name := NameOnLine(lines[|lines| - 1]);
      LoadUsers(lines[..|lines| - 1], current) + (if name.Some? && name.value != current then [name.value] else [])
  }

  function Names(users: seq<Login.User>): (names: seq<string>)
    ensures |names| == |users| && forall k :: 0 <= k < |users| ==> names[k] == users[k].name
  {
    seq(|users|, k requires 0 <= k < |users| => users[k].name)
  }

  /** Both readers take the same username from a line. */
  lemma NameOnLineParsed(line: string)
    ensures NameOnLine(line) == if Login.ParseUser(line).Some? then Some(Login.ParseUser(line).value.name) else None
  {
  }

  /** The names of one more user: one more name at the end. */
  lemma NamesAppend(us: seq<Login.User>, u: Login.User)
    ensures Names(us + [u]) == Names(us) + [u.name]
  {
  }

  /** The names other than `current`, in order. */
  function Others(names: seq<string>, current: string): (r: seq<string>)
    ensures forall k :: 0 <= k < |r| ==> r[k] != current
  {
    Filter(names, (n: string) => n != current)
  }

  lemma OthersAppend(names: seq<string>, n: string, current: string)
    ensures Others(names + [n], current) == Others(names, current) + (if n != current then [n] else [])
  {
    FilterConcat(names, [n], (n: string) => n != current);
    assert [n][1..] == [];
  }

  /** The user box lists the login screen's users, by name, without the current one, in file order. */
  lemma {:induction false} LoadUsersIsReadUsers(lines: seq<string>, current: string)
    ensures LoadUsers(lines, current) == Others(Names(Login.ReadUsers(lines)), current)
    decreases |lines|
  {
    if |lines| > 0 {
      var init := lines[..|lines| - 1];
      var last := lines[|lines| - 1];
      assert lines == init + [last];
      var us := Login.ReadUsers(init);
      assert Login.ReadUsers(lines) == us + (if Login.ParseUser(last).Some? then [Login.ParseUser(last).value] else []) by {
        Login.ReadUsersAppend(init, last);
      }
      LoadUsersIsReadUsers(init, current);
      NameOnLineParsed(last);
      if Login.ParseUser(last).Some? {
        var u := Login.ParseUser(last).value;
        NamesAppend(us, u);
        OthersAppend(Names(us), u.name, current);
      }
    }
  }
}
