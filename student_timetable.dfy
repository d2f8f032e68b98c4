/**
 * The student timetable: each user's event store (`<user>_events.csv`),
 * its add, update and delete operations, the two-sided delete of an
 * appointment, the 12-hour and 24-hour time texts, the checks of the
 * event editor, and the reminder check box that writes the user's
 * reminder file.
 */
module StudentTimetable {
  import opened Seqs
  import opened Wrappers
  import opened Text
  import SimpleReminder

  /** A row of an events file. `start` is as stored: `HH:MM`, or the older `H,M`. */
  datatype Event = Event(id: int, date: string, start: string, end: string, title: string,
                         reminder: string, category: string, description: string)

  /** Every user's events file; a user without one has no events. */
  type Files = map<string, seq<Event>>

  function StoredIn(files: Files, user: string): seq<Event> {
    if user in files then files[user] else []
  }

  function EventIds(evs: seq<Event>): (ids: seq<int>)
    ensures |ids| == |evs|
  {
    seq(|evs|, k requires 0 <= k < |evs| => evs[k].id)
  }

  predicate UniqueIds(evs: seq<Event>) {
    forall i, j :: 0 <= i < j < |evs| ==> evs[i].id != evs[j].id
  }

  // ---------------------------------------------------------------------------
  // load_events

  /** How `load_events` treats a stored start time. */
  datatype StartText = Keep | Convert(hhmm: string) | Skip | Fail

  /**
   * A start with `:` is kept; one with `,` must be two parts `int()` reads,
   * rewritten as `f"{h:02d}:{m:02d}"` (anything else there raises); any
   * other row is skipped.
   */
  function ReadStart(s: string): StartText {
    if ':' in s then Keep
    else if ',' in s then
      var parts := SplitChar(s, ',');
      if |parts| == 2 && PyInt(parts[0]).Some? && PyInt(parts[1]).Some?
      then Convert(Fmt02(PyInt(parts[0]).value) + ":" + Fmt02(PyInt(parts[1]).value))
      else Fail
    else Skip
  }

  /** The rows as `load_events` returns them, or `None` when it raises. */
  function LoadAll(rows: seq<Event>): (r: Option<seq<Event>>)
    ensures r.Some? ==> |r.value| <= |rows|
  {
    if |rows| == 0 then Some([])
    else
      var rest := LoadAll(rows[1..]);
      match ReadStart(rows[0].start)
      case Fail => None
      case Skip => rest
      case Keep => if rest.None? then None else Some([rows[0]] + rest.value)
      case Convert(t) => if rest.None? then None else Some([rows[0].(start := t)] + rest.value)
  }

  /** The events of one date, in file order. */
  function OnDate(evs: seq<Event>, date: string): (r: seq<Event>)
    ensures forall k :: 0 <= k < |r| ==> r[k] in evs && r[k].date == date
    ensures forall k :: 0 <= k < |evs| && evs[k].date == date ==> evs[k] in r
  {
    Filter(evs, (e: Event) => e.date == date)
  }

  /** `load_events(user, date)`: an empty date selects every event. */
  function LoadEvents(rows: seq<Event>, date: string): Option<seq<Event>> {
    match LoadAll(rows)
    case None => None
    case Some(evs) => Some(if date == "" then evs else OnDate(evs, date))
  }

  /** A string of digits has neither `:` nor `,` in it. */
  lemma DigitsPunctuation(s: string)
    requires IsDigits(s)
    ensures ':' !in s && ',' !in s
  {
    forall i | 0 <= i < |s|
      ensures s[i] != ':' && s[i] != ','
    {
      assert IsDigit(s[i]);
    }
  }

  lemma CommaPair(a: string, b: string)
    requires IsDigits(a) && IsDigits(b)
    ensures ':' !in a + "," + b && ',' in a + "," + b
    ensures SplitChar(a + "," + b, ',') == [a, b]
  {
    DigitsPunctuation(a);
    DigitsPunctuation(b);
    var s := a + "," + b;
    forall i | 0 <= i < |s|
      ensures s[i] != ':'
    {
      if i > |a| {
        assert s[i] == b[i - |a| - 1];
      }
    }
    assert s[|a|] == ',';
    SplitCharPair(a, b, ',');
  }

  /**
   * A start of two comma-separated parts: converted to `HH:MM` from the
   * numbers `int()` reads in them, with their signs, spaces and
   * underscores, and raising when either part is not a number.
   */
  lemma ReadStartConverts(a: string, b: string)
    requires ',' !in a && ',' !in b && ':' !in a && ':' !in b
    ensures ReadStart(a + "," + b) ==
            if PyInt(a).Some? && PyInt(b).Some? then Convert(Fmt02(PyInt(a).value) + ":" + Fmt02(PyInt(b).value))
            else Fail
  {
    var s := a + "," + b;
    assert s[|a|] == ',';
    forall i | 0 <= i < |s|
      ensures s[i] != ':'
    {
      if i < |a| {
        assert s[i] == a[i];
      } else if i > |a| {
        assert s[i] == b[i - |a| - 1];
      }
    }
    SplitCharPair(a, b, ',');
  }

  /** The old `H,M` form of two natural numbers becomes zero-padded `HH:MM`. */
  lemma ReadStartConvertsDigits(h: nat, m: nat)
    ensures ReadStart(NatToDec(h) + "," + NatToDec(m)) == Convert(Pad2(h) + ":" + Pad2(m))
  {
    NatToDecValue(h);
    NatToDecValue(m);
    DigitsPunctuation(NatToDec(h));
    DigitsPunctuation(NatToDec(m));
    PyIntOfDigits(NatToDec(h));
    PyIntOfDigits(NatToDec(m));
    ReadStartConverts(NatToDec(h), NatToDec(m));
  }

  /** `int()` is lenient: spaces around either number are ignored, so `"9, 30"` loads as `"09:30"`. */
  lemma ReadStartSpaced(h: nat, m: nat)
    ensures ReadStart(" " + NatToDec(h) + " , " + NatToDec(m) + " ") == Convert(Pad2(h) + ":" + Pad2(m))
  {
    var a, b := " " + NatToDec(h) + " ", " " + NatToDec(m) + " ";
    NatToDecValue(h);
    NatToDecValue(m);
    DigitsPunctuation(NatToDec(h));
    DigitsPunctuation(NatToDec(m));
    SpacedDigits(NatToDec(h));
    SpacedDigits(NatToDec(m));
    assert " " + NatToDec(h) + " , " + NatToDec(m) + " " == a + "," + b;
    ReadStartConverts(a, b);
  }

  /** Digits with a space on either side: no separator, and `int()` reads the digits. */
  lemma SpacedDigits(d: string)
    requires IsDigits(d)
    ensures ',' !in " " + d + " " && ':' !in " " + d + " "
    ensures PyInt(" " + d + " ") == Some(DecValue(d) as int)
  {
    var s := " " + d + " ";
    DigitsPunctuation(d);
    forall i | 0 <= i < |s|
      ensures s[i] != ',' && s[i] != ':'
    {
      if 0 < i < |s| - 1 {
        assert s[i] == d[i - 1];
      }
    }
    SpacedDigitsValue(d);
  }

  lemma SpacedDigitsValue(d: string)
    requires IsDigits(d)
    ensures PyInt(" " + d + " ") == Some(DecValue(d) as int)
  {
    StripSpaced(d);
    PyIntStrips(" " + d + " ");
    PyIntOfDigits(d);
  }

  /** A negative hour is written with its sign, as `f"{-1:02d}"` writes `"-1"`. */
  lemma ReadStartSigned(h: nat, m: nat)
    requires h > 0
    ensures ReadStart("-" + NatToDec(h) + "," + NatToDec(m)) == Convert("-" + NatToDec(h) + ":" + Pad2(m))
  {
    NatToDecValue(h);
    NatToDecValue(m);
    DigitsPunctuation(NatToDec(h));
    DigitsPunctuation(NatToDec(m));
    DigitsNumeral(NatToDec(h));
    PyIntSigned(NatToDec(h));
    PyIntOfDigits(NatToDec(m));
    assert "-" + NatToDec(h) + "," + NatToDec(m) == ("-" + NatToDec(h)) + "," + NatToDec(m);
    ReadStartConverts("-" + NatToDec(h), NatToDec(m));
  }

  /** A third comma-separated part makes the two-way unpacking, and so `load_events`, raise. */
  lemma ReadStartRaises(a: string, b: string, c: string)
    requires ',' !in a && ',' !in b && ',' !in c && ':' !in a && ':' !in b && ':' !in c
    ensures ReadStart(a + "," + b + "," + c) == Fail
  {
    var s := a + "," + b + "," + c;
    assert s == a + [','] + (b + "," + c);
    assert s[|a|] == ',';
    forall i | 0 <= i < |s|
      ensures s[i] != ':'
    {
      if i < |a| {
        assert s[i] == a[i];
      } else if |a| < i < |a| + 1 + |b| {
        assert s[i] == b[i - |a| - 1];
      } else if i > |a| + 1 + |b| {
        assert s[i] == c[i - |a| - |b| - 2];
      }
    }
    SplitCharCons(a, b + "," + c, ',');
    SplitCharPair(b, c, ',');
  }

  /** A start is kept as it is exactly when it holds `:`, and skipped when it holds neither `:` nor `,`. */
  lemma ReadStartKeeps(s: string)
    ensures ReadStart(s) == Keep <==> ':' in s
    ensures ReadStart(s) == Skip <==> ':' !in s && ',' !in s
  {
  }

  /** A start text the loader keeps or writes contains `:`, so it is kept on the next load. */
  lemma ReadStartSettles(s: string)
    requires ReadStart(s).Convert?
    ensures ReadStart(ReadStart(s).hhmm) == Keep
  {
    var parts := SplitChar(s, ',');
    var a := Fmt02(PyInt(parts[0]).value);
    assert (a + ":" + Fmt02(PyInt(parts[1]).value))[|a|] == ':';
  }

  /** Loading raises exactly when some start has a `,` but is not two numbers. */
  lemma {:induction false} LoadAllFails(rows: seq<Event>)
    ensures LoadAll(rows).None? <==> exists k :: 0 <= k < |rows| && ReadStart(rows[k].start).Fail?
    decreases |rows|
  {
    if |rows| > 0 {
      LoadAllFails(rows[1..]);
      if exists k :: 0 <= k < |rows[1..]| && ReadStart(rows[1..][k].start).Fail? {
        var k :| 0 <= k < |rows[1..]| && ReadStart(rows[1..][k].start).Fail?;
        assert rows[k + 1] == rows[1..][k];
      }
      if exists k :: 0 <= k < |rows| && ReadStart(rows[k].start).Fail? {
        var k :| 0 <= k < |rows| && ReadStart(rows[k].start).Fail?;
        if k > 0 {
          assert rows[1..][k - 1] == rows[k];
        }
      }
    }
  }

  /**
   * After a load, every loaded start contains `:`, and every row whose
   * start had a `:` is among the loaded rows, unchanged.
   */
  lemma {:induction false} LoadAllKept(rows: seq<Event>)
    requires LoadAll(rows).Some?
    ensures forall k :: 0 <= k < |LoadAll(rows).value| ==> ReadStart(LoadAll(rows).value[k].start).Keep?
    ensures forall k :: 0 <= k < |rows| && ReadStart(rows[k].start).Keep? ==> rows[k] in LoadAll(rows).value
    decreases |rows|
  {
    if |rows| > 0 {
      var r := LoadAll(rows).value;
      var rest := LoadAll(rows[1..]);
      assert rest.Some?;
      LoadAllKept(rows[1..]);
      forall k | 0 <= k < |rows| && ReadStart(rows[k].start).Keep?
        ensures rows[k] in r
      {
        if k > 0 {
          assert rows[1..][k - 1] == rows[k];
        }
      }
      match ReadStart(rows[0].start)
      case Skip =>
      case Keep =>
        assert r[1..] == rest.value;
      case Convert(t) =>
        ReadStartSettles(rows[0].start);
        assert r[1..] == rest.value;
    }
  }

  /** Rows whose starts all contain `:` load as they are. */
  lemma {:induction false} LoadAllOfKept(rows: seq<Event>)
    requires forall k :: 0 <= k < |rows| ==> ReadStart(rows[k].start).Keep?
    ensures LoadAll(rows) == Some(rows)
    decreases |rows|
  {
    if |rows| > 0 {
      assert ReadStart(rows[0].start).Keep?;
      assert forall k :: 0 <= k < |rows[1..]| ==> rows[1..][k] == rows[k + 1];
      LoadAllOfKept(rows[1..]);
      assert rows == [rows[0]] + rows[1..];
    }
  }

  /** Loading the loaded rows again changes nothing: a store that was written back reads the same. */
  lemma LoadAllSettles(rows: seq<Event>)
    requires LoadAll(rows).Some?
    ensures LoadAll(LoadAll(rows).value) == LoadAll(rows)
  {
    LoadAllKept(rows);
    LoadAllOfKept(LoadAll(rows).value);
  }

  // ---------------------------------------------------------------------------
  // Adding, updating and deleting events

  /** `add_event_txt`: the new event gets the next id (1 in an empty store) and reminder "0". */
  function NewEvent(evs: seq<Event>, date: string, start: string, end: string, title: string,
                    category: string, description: string): Event
  {
    Event(NextId(EventIds(evs), 1), date, start, end, title, "0", category, description)
  }

  /** The new event's id is above every id in the store, so unique ids stay unique. */
  lemma NewEventFresh(evs: seq<Event>, date: string, start: string, end: string, title: string,
                      category: string, description: string)
    ensures var e := NewEvent(evs, date, start, end, title, category, description);
            (forall k :: 0 <= k < |evs| ==> evs[k].id < e.id) &&
            (|evs| == 0 ==> e.id == 1) &&
            e.reminder == "0" &&
            (UniqueIds(evs) ==> UniqueIds(evs + [e]))
  {
    var e := NewEvent(evs, date, start, end, title, category, description);
    forall k | 0 <= k < |evs|
      ensures evs[k].id < e.id
    {
      assert EventIds(evs)[k] == evs[k].id;
    }
  }

  /** The position of the first event with `id` (`|evs|` when there is none). */
  function FirstWithId(evs: seq<Event>, id: int): (i: nat)
    ensures i <= |evs|
    ensures i < |evs| ==> evs[i].id == id
    ensures forall k :: 0 <= k < i ==> evs[k].id != id
  {
    if |evs| == 0 then 0 else if evs[0].id == id then 0 else 1 + FirstWithId(evs[1..], id)
  }

  lemma {:induction false} FirstWithIdAt(evs: seq<Event>, id: int, i: nat)
    requires i < |evs| && evs[i].id == id
    requires forall k :: 0 <= k < i ==> evs[k].id != id
    ensures FirstWithId(evs, id) == i
    decreases i
  {
    if i > 0 {
      FirstWithIdAt(evs[1..], id, i - 1);
    }
  }

  /** `update_event_txt` on the loaded events. */
  function Updated(evs: seq<Event>, id: int, title: string, start: string, end: string,
                   category: string, description: string): (r: seq<Event>)
    ensures |r| == |evs|
  {
    var i := FirstWithId(evs, id);
    if i == |evs| then evs
    else evs[i := evs[i].(title := title, start := start, end := end, category := category, description := description)]
  }

  /**
   * Only the first event with the id changes, and in it only title, start,
   * end, category and description; its id, date and reminder flag stay.
   * An unknown id changes nothing.
   */
  lemma UpdatedSpec(evs: seq<Event>, id: int, title: string, start: string, end: string,
                    category: string, description: string)
    ensures var r := Updated(evs, id, title, start, end, category, description);
            var i := FirstWithId(evs, id);
            (forall k :: 0 <= k < |evs| && k != i ==> r[k] == evs[k]) &&
            (i < |evs| ==> r[i] == Event(id, evs[i].date, start, end, title, evs[i].reminder, category, description)) &&
            ((forall k :: 0 <= k < |evs| ==> evs[k].id != id) ==> r == evs)
  {
  }

  /** `delete_event_txt` on the loaded events: every event with the id goes. */
  function WithoutId(evs: seq<Event>, id: int): (r: seq<Event>)
    ensures |r| <= |evs|
  {
    Filter(evs, (e: Event) => e.id != id)
  }

  /** Deleting keeps exactly the events with other ids, in their order. */
  lemma WithoutIdSpec(evs: seq<Event>, id: int, e: Event)
    ensures e in WithoutId(evs, id) <==> e in evs && e.id != id
  {
    if e in evs && e.id != id {
      var k :| 0 <= k < |evs| && evs[k] == e;
    }
  }

  /** Load, change, write back: a store that does not load is left as it is. */
  function AddIn(files: Files, user: string, date: string, start: string, end: string, title: string,
                 category: string, description: string): Files
  {
    match LoadAll(StoredIn(files, user))
    case None => files
    case Some(evs) => files[user := evs + [NewEvent(evs, date, start, end, title, category, description)]]
  }

  function DeleteIn(files: Files, user: string, id: int): Files {
    match LoadAll(StoredIn(files, user))
    case None => files
    case Some(evs) => files[user := WithoutId(evs, id)]
  }

  /**
   * `add_event_txt` appends exactly one event, with a fresh id and
   * reminder "0", after the loaded events; no other store changes.
   */
  lemma AddInSpec(files: Files, user: string, date: string, start: string, end: string, title: string,
                  category: string, description: string)
    requires LoadAll(StoredIn(files, user)).Some?
    ensures var evs := LoadAll(StoredIn(files, user)).value;
            var r := AddIn(files, user, date, start, end, title, category, description);
            var e := StoredIn(r, user)[|evs|];
            |StoredIn(r, user)| == |evs| + 1 && StoredIn(r, user)[..|evs|] == evs &&
            e == Event(e.id, date, start, end, title, "0", category, description) &&
            (forall k :: 0 <= k < |evs| ==> evs[k].id < e.id) &&
            (forall u :: u != user ==> StoredIn(r, u) == StoredIn(files, u))
  {
    var evs := LoadAll(StoredIn(files, user)).value;
    NewEventFresh(evs, date, start, end, title, category, description);
  }

  // ---------------------------------------------------------------------------
  // delete_appointment

  const AppointmentPrefix := "Appointment with "

  /** The other party named in an appointment's title. */
  function OtherUser(title: string): string {
    Strip(Replace(title, AppointmentPrefix, ""))
  }

  /** The other party's copy of an appointment of `user`'s. */
  predicate Reciprocal(e: Event, date: string, start: string, end: string, user: string) {
    e.date == date && e.start == start && e.end == end && e.title == AppointmentPrefix + user
  }

  function FirstReciprocal(evs: seq<Event>, date: string, start: string, end: string, user: string): (i: nat)
    ensures i <= |evs|
    ensures i < |evs| ==> Reciprocal(evs[i], date, start, end, user)
    ensures forall k :: 0 <= k < i ==> !Reciprocal(evs[k], date, start, end, user)
  {
    if |evs| == 0 then 0
    else if Reciprocal(evs[0], date, start, end, user) then 0
    else 1 + FirstReciprocal(evs[1..], date, start, end, user)
  }

  /** In `other`'s store, delete (by id) the first copy of `user`'s appointment. */
  function RemoveReciprocal(files: Files, user: string, other: string, date: string, start: string, end: string): Files {
    match LoadAll(StoredIn(files, other))
    case None => files
    case Some(evs) =>
      var i := FirstReciprocal(evs, date, start, end, user);
      if i == |evs| then files else DeleteIn(files, other, evs[i].id)
  }

  /** `delete_appointment(user, ev)` */
  function DeleteAppointmentResult(files: Files, user: string, ev: Event): Files {
    match LoadAll(StoredIn(files, user))
    case None => files
    case Some(_) =>
      var afterOwn := DeleteIn(files, user, ev.id);
      if AppointmentPrefix <= ev.title
      then RemoveReciprocal(afterOwn, user, OtherUser(ev.title), ev.date, ev.start, ev.end)
      else afterOwn
  }

  /**
   * The user's own event goes; nobody else's store changes except the
   * other party's, and only for an appointment.
   */
  lemma DeleteAppointmentOwnSide(files: Files, user: string, ev: Event)
    requires LoadAll(StoredIn(files, user)).Some?
    ensures var r := DeleteAppointmentResult(files, user, ev);
            (forall u :: u != user && (u != OtherUser(ev.title) || !(AppointmentPrefix <= ev.title)) ==>
               StoredIn(r, u) == StoredIn(files, u)) &&
            (!(AppointmentPrefix <= ev.title) || OtherUser(ev.title) != user ==>
               forall e :: e in StoredIn(r, user) ==> e.id != ev.id)
  {
    var evs := LoadAll(StoredIn(files, user)).value;
    forall e | e in WithoutId(evs, ev.id)
      ensures e.id != ev.id
    {
      WithoutIdSpec(evs, ev.id, e);
    }
  }

  lemma {:induction false} FirstReciprocalAt(evs: seq<Event>, date: string, start: string, end: string, user: string, i: nat)
    requires i < |evs| && Reciprocal(evs[i], date, start, end, user)
    requires forall k :: 0 <= k < i ==> !Reciprocal(evs[k], date, start, end, user)
    ensures FirstReciprocal(evs, date, start, end, user) == i
    decreases i
  {
    if i > 0 {
      FirstReciprocalAt(evs[1..], date, start, end, user, i - 1);
    }
  }

  /**
   * Searching the events of the appointment's date finds the same first
   * copy as searching the whole file, since a copy has that date.
   */
  lemma {:induction false} FirstReciprocalOnDate(evs: seq<Event>, date: string, start: string, end: string, user: string)
    ensures var day := OnDate(evs, date);
            var i := FirstReciprocal(day, date, start, end, user);
            var j := FirstReciprocal(evs, date, start, end, user);
            (i == |day| <==> j == |evs|) && (i < |day| ==> day[i] == evs[j])
    decreases |evs|
  {
    if |evs| > 0 {
      var day, tail := OnDate(evs, date), OnDate(evs[1..], date);
      var i, j := FirstReciprocal(day, date, start, end, user), FirstReciprocal(evs, date, start, end, user);
      var i', j' := FirstReciprocal(tail, date, start, end, user), FirstReciprocal(evs[1..], date, start, end, user);
      OnDateCons(evs, date);
      FirstReciprocalOnDate(evs[1..], date, start, end, user);
      if Reciprocal(evs[0], date, start, end, user) {
        assert day == [evs[0]] + tail;
        assert i == 0 && j == 0;
      } else {
        assert j == 1 + j';
        assert j < |evs| ==> evs[j] == evs[1..][j'];
        if evs[0].date == date {
          assert day == [evs[0]] + tail;
          FirstReciprocalCons(evs[0], tail, date, start, end, user);
          assert i == 1 + i';
          assert i < |day| ==> day[i] == tail[i'] by {
            assert day[1..] == tail;
          }
        } else {
          assert day == tail;
        }
      }
    }
  }

  /** The events of a date are those of the first event, if it has that date, and then those of the rest. */
  lemma OnDateCons(evs: seq<Event>, date: string)
    requires |evs| > 0
    ensures OnDate(evs, date) == if evs[0].date == date then [evs[0]] + OnDate(evs[1..], date) else OnDate(evs[1..], date)
  {
  }

  /** Past an event that is not the copy, the search goes on one place further. */
  lemma FirstReciprocalCons(e: Event, tail: seq<Event>, date: string, start: string, end: string, user: string)
    requires !Reciprocal(e, date, start, end, user)
    ensures FirstReciprocal([e] + tail, date, start, end, user) == 1 + FirstReciprocal(tail, date, start, end, user)
  {
    assert ([e] + tail)[1..] == tail;
  }

  /**
   * With unique ids, removing the copy deletes at most one event from the
   * other store: the first copy, if there is one; every other event stays.
   * Without a copy the store is not written at all.
   */
  /** Removing the copy touches no store but `other`'s. */
  lemma RemoveReciprocalOthers(files: Files, user: string, other: string, date: string, start: string, end: string)
    ensures forall u :: u != other ==> StoredIn(RemoveReciprocal(files, user, other, date, start, end), u) == StoredIn(files, u)
  {
  }

  lemma RemoveReciprocalSpec(files: Files, user: string, other: string, date: string, start: string, end: string)
    requires LoadAll(StoredIn(files, other)).Some?
    requires UniqueIds(LoadAll(StoredIn(files, other)).value)
    ensures var before := LoadAll(StoredIn(files, other)).value;
            var after := StoredIn(RemoveReciprocal(files, user, other, date, start, end), other);
            var i := FirstReciprocal(before, date, start, end, user);
            (i == |before| ==> after == StoredIn(files, other)) &&
            (i < |before| ==> before[i] !in after &&
                              forall k :: 0 <= k < |before| && k != i ==> before[k] in after)
  {
    var before := LoadAll(StoredIn(files, other)).value;
    var i := FirstReciprocal(before, date, start, end, user);
    if i < |before| {
      var after := WithoutId(before, before[i].id);
      assert StoredIn(RemoveReciprocal(files, user, other, date, start, end), other) == after;
      forall k | 0 <= k < |before| && k != i
        ensures before[k] in after
      {
        assert before[k].id != before[i].id by {
          if k < i {
            assert before[k].id != before[i].id;
          } else {
            assert before[i].id != before[k].id;
          }
        }
        WithoutIdSpec(before, before[i].id, before[k]);
      }
      WithoutIdSpec(before, before[i].id, before[i]);
    }
  }

  /** The other party's side of `delete_appointment` is exactly `RemoveReciprocal`. */
  lemma DeleteAppointmentOtherSide(files: Files, user: string, ev: Event)
    requires LoadAll(StoredIn(files, user)).Some?
    requires AppointmentPrefix <= ev.title && OtherUser(ev.title) != user
    requires LoadAll(StoredIn(files, OtherUser(ev.title))).Some?
    requires UniqueIds(LoadAll(StoredIn(files, OtherUser(ev.title))).value)
    ensures var other := OtherUser(ev.title);
            var before := LoadAll(StoredIn(files, other)).value;
            var after := StoredIn(DeleteAppointmentResult(files, user, ev), other);
            var i := FirstReciprocal(before, ev.date, ev.start, ev.end, user);
            (i == |before| ==> after == StoredIn(files, other)) &&
            (i < |before| ==> before[i] !in after &&
                              forall k :: 0 <= k < |before| && k != i ==> before[k] in after)
  {
    var other := OtherUser(ev.title);
    var afterOwn := DeleteIn(files, user, ev.id);
    assert StoredIn(afterOwn, other) == StoredIn(files, other);
    RemoveReciprocalSpec(afterOwn, user, other, ev.date, ev.start, ev.end);
  }

  // ---------------------------------------------------------------------------
  // The stores

  class EventStore {
    var files: Files

    constructor (initial: Files)
      ensures files == initial
    {
      files := initial;
    }

    function Stored(user: string): seq<Event>
      reads this
    {
      StoredIn(files, user)
    }

    /** `add_event_txt` */
    method AddEvent(user: string, date: string, start: string, end: string, title: string,
                    category: string, description: string)
      modifies this
      ensures files == AddIn(old(files), user, date, start, end, title, category, description)
    {
      var loaded := LoadAll(Stored(user));
      if loaded.Some? {
        var evs := loaded.value;
        files := files[user := evs + [NewEvent(evs, date, start, end, title, category, description)]];
      }
    }

    /** `update_event_txt`: the loop stops at the first event with the id. */
    method UpdateEvent(user: string, id: int, title: string, start: string, end: string,
                       category: string, description: string)
      modifies this
      ensures LoadAll(old(Stored(user))).None? ==> files == old(files)
      ensures LoadAll(old(Stored(user))).Some? ==>
                files == old(files)[user := Updated(LoadAll(old(Stored(user))).value, id, title, start, end, category, description)]
    {
      var loaded := LoadAll(Stored(user));
      if loaded.None? {
        return;
      }
      var evs := loaded.value;
      var i := 0;
      while i < |evs| && evs[i].id != id
        invariant i <= |evs|
        invariant forall k :: 0 <= k < i ==> evs[k].id != id
      {
        i := i + 1;
      }
      if i < |evs| {
        FirstWithIdAt(evs, id, i);
        evs := evs[i := evs[i].(title := title, start := start, end := end, category := category, description := description)];
      }
      files := files[user := evs];
    }

    /** `delete_event_txt` */
    method DeleteEvent(user: string, id: int)
      modifies this
      ensures files == DeleteIn(old(files), user, id)
    {
      var loaded := LoadAll(Stored(user));
      if loaded.Some? {
        files := files[user := WithoutId(loaded.value, id)];
      }
    }

    /** `delete_appointment`: the search in the other store stops at the first copy. */
    method DeleteAppointment(user: string, ev: Event)
      modifies this
      ensures files == DeleteAppointmentResult(old(files), user, ev)
    {
      if LoadAll(Stored(user)).None? {
        return;
      }
      DeleteEvent(user, ev.id);
      if AppointmentPrefix <= ev.title {
        var other := OtherUser(ev.title);
        var loaded := LoadAll(Stored(other));
        if loaded.None? {
          return;
        }
        var evs := loaded.value;
        var i := 0;
        while i < |evs| && !Reciprocal(evs[i], ev.date, ev.start, ev.end, user)
          invariant i <= |evs|
          invariant forall k :: 0 <= k < i ==> !Reciprocal(evs[k], ev.date, ev.start, ev.end, user)
        {
          i := i + 1;
        }
        if i < |evs| {
          FirstReciprocalAt(evs, ev.date, ev.start, ev.end, user, i);
          DeleteEvent(other, evs[i].id);
        }
      }
    }

    /**
     * The reminder check box, as intended: the flag is set in the stored
     * file and the reminder file keeps its repeats.
     */
    method ToggleReminder(reminders: SimpleReminder.ReminderFile, user: string, ev: Event, when: int)
      modifies this, reminders
      ensures var t := Toggle(old(reminders.rows), ev.title, when, ev.reminder);
              files == ToggleStore(old(files), user, ev, t.flag) && reminders.rows == t.reminders
    {
      var t := Toggle(reminders.rows, ev.title, when, ev.reminder);
      reminders.rows := t.reminders;
      var loaded := LoadAll(Stored(user));
      if loaded.Some? {
        files := files[user := SetFlag(loaded.value, ev.id, t.flag)];
      }
    }
  }

  // ---------------------------------------------------------------------------
  // 12-hour and 24-hour times

  /** A time as the editor's three boxes hold it: hour, minute, "AM" or "PM". */
  datatype Clock12 = Clock12(hour: int, minute: int, ampm: string)

  /** A choice the boxes offer: hour 1 to 12, minute 0 to 59, AM or PM. */
  predicate Offered(c: Clock12) {
    1 <= c.hour <= 12 && 0 <= c.minute < 60 && (c.ampm == "AM" || c.ampm == "PM")
  }

  function Hour24(hour: int, ampm: string): int {
    if ampm == "PM" && hour != 12 then hour + 12
    else if ampm == "AM" && hour == 12 then 0
    else hour
  }

  /** `to_24h` */
  function To24h(c: Clock12): string {
    Fmt02(Hour24(c.hour, c.ampm)) + ":" + Fmt02(c.minute)
  }

  /** The minute of the day an offered choice denotes. */
  function MinuteOfDay(c: Clock12): int {
    60 * Hour24(c.hour, c.ampm) + c.minute
  }

  /** The `HH:MM` text of a minute of the day. */
  function Hhmm(t: nat): string
    requires t < 1440
  {
    Pad2(t / 60) + ":" + Pad2(t % 60)
  }

  /** `h, m = map(int, hhmm.split(":"))`: `None` where `int()` or the two-way unpacking would raise. */
  function TimeParts(hhmm: string): Option<(int, int)> {
    var parts := SplitChar(hhmm, ':');
    if |parts| != 2 || PyInt(parts[0]).None? || PyInt(parts[1]).None? then None
    else Some((PyInt(parts[0]).value, PyInt(parts[1]).value))
  }

  /** `to_12h`: `None` where reading the two parts raises. */
  function To12h(hhmm: string): Option<Clock12> {
    match TimeParts(hhmm)
    case None => None
    case Some((hour, minute)) =>
      var h := if hour > 12 then hour - 12 else hour;
      Some(Clock12(if h == 0 then 12 else h, minute, if hour >= 12 then "PM" else "AM"))
  }

  /** `to_12h_str` */
  function To12hStr(hhmm: string): Option<string> {
    match To12h(hhmm)
    case None => None
    case Some(c) => Some(IntToDec(c.hour) + ":" + Fmt02(c.minute) + " " + c.ampm)
  }

  /** Every offered choice is a minute of the day, and `to_24h` writes it as `HH:MM`. */
  lemma To24hIsHhmm(c: Clock12)
    requires Offered(c)
    ensures 0 <= MinuteOfDay(c) < 1440 && To24h(c) == Hhmm(MinuteOfDay(c))
  {
    var h := Hour24(c.hour, c.ampm);
    assert 0 <= h < 24;
    DivMod60(h, c.minute);
  }

  lemma DivMod60(h: nat, m: nat)
    requires m < 60
    ensures (60 * h + m) / 60 == h && (60 * h + m) % 60 == m
  {
  }

  /** The two parts of an `HH:MM` text read as its hour and minute. */
  lemma TimePartsOfHhmm(t: nat)
    requires t < 1440
    ensures TimeParts(Hhmm(t)) == Some((t / 60, t % 60))
  {
    HhmmSplits(t);
  }

  lemma HhmmSplits(t: nat)
    requires t < 1440
    ensures SplitChar(Hhmm(t), ':') == [Pad2(t / 60), Pad2(t % 60)]
    ensures IsDigits(Pad2(t / 60)) && IsDigits(Pad2(t % 60))
    ensures DecValue(Pad2(t / 60)) == t / 60 && DecValue(Pad2(t % 60)) == t % 60
    ensures PyInt(Pad2(t / 60)) == Some(t / 60) && PyInt(Pad2(t % 60)) == Some(t % 60)
  {
    Pad2Value(t / 60);
    Pad2Value(t % 60);
    PyIntOfDigits(Pad2(t / 60));
    PyIntOfDigits(Pad2(t % 60));
    DigitsPunctuation(Pad2(t / 60));
    DigitsPunctuation(Pad2(t % 60));
    SplitCharPair(Pad2(t / 60), Pad2(t % 60), ':');
  }

  /** `to_12h` reads every `HH:MM` text as an offered choice denoting the same minute. */
  lemma To12hOfHhmm(t: nat)
    requires t < 1440
    ensures To12h(Hhmm(t)).Some?
    ensures Offered(To12h(Hhmm(t)).value) && MinuteOfDay(To12h(Hhmm(t)).value) == t
  {
    HhmmSplits(t);
  }

  /** From 24-hour text to the boxes and back: `to_24h(*to_12h(s)) == s`. */
  lemma Hhmm24RoundTrip(t: nat)
    requires t < 1440
    ensures To12h(Hhmm(t)).Some? && To24h(To12h(Hhmm(t)).value) == Hhmm(t)
  {
    To12hOfHhmm(t);
    To24hIsHhmm(To12h(Hhmm(t)).value);
  }

  /** From the boxes to 24-hour text and back: the editor shows what was chosen. */
  lemma Clock12RoundTrip(c: Clock12)
    requires Offered(c)
    ensures To12h(To24h(c)) == Some(c)
  {
    To24hIsHhmm(c);
    To12hOfHhmm(MinuteOfDay(c));
    var d := To12h(Hhmm(MinuteOfDay(c))).value;
    assert MinuteOfDay(d) == MinuteOfDay(c);
    assert d.minute == c.minute && Hour24(d.hour, d.ampm) == Hour24(c.hour, c.ampm);
  }

  lemma TwoDigitOrder(x: nat, y: nat)
    requires x < 100 && y < 100
    ensures LexLess(Pad2(x), Pad2(y)) <==> x < y
  {
    Pad2Digits(x);
    Pad2Digits(y);
    LexLessAppend([DigitChar(x / 10)], [DigitChar(x % 10)], [DigitChar(y / 10)], [DigitChar(y % 10)]);
    assert Pad2(x) == [DigitChar(x / 10)] + [DigitChar(x % 10)];
    assert Pad2(y) == [DigitChar(y / 10)] + [DigitChar(y % 10)];
    LexLessCons(DigitChar(x / 10), [], DigitChar(y / 10), []);
    LexLessCons(DigitChar(x % 10), [], DigitChar(y % 10), []);
    assert [DigitChar(x / 10)] + [] == [DigitChar(x / 10)];
    assert [DigitChar(y / 10)] + [] == [DigitChar(y / 10)];
    assert [DigitChar(x % 10)] + [] == [DigitChar(x % 10)];
    assert [DigitChar(y % 10)] + [] == [DigitChar(y % 10)];
    assert !LexLess([], []);
  }

  /**
   * Comparing `HH:MM` texts as strings, as the editor does, is comparing
   * the minutes they denote.
   */
  lemma HhmmOrder(a: nat, b: nat)
    requires a < 1440 && b < 1440
    ensures LexLess(Hhmm(a), Hhmm(b)) <==> a < b
  {
    MinuteOrder(a, b);
    Pad2Value(a / 60);
    Pad2Value(b / 60);
    ColonTextOrder(Pad2(a / 60), Pad2(a % 60), Pad2(b / 60), Pad2(b % 60));
    TwoDigitOrder(a / 60, b / 60);
    TwoDigitOrder(a % 60, b % 60);
    if Pad2(a / 60) == Pad2(b / 60) {
      assert a / 60 == b / 60;
    }
  }

  /** Two `H:M` texts whose hour parts have one length compare by hour part, then by minute part. */
  lemma ColonTextOrder(h: string, m: string, h': string, m': string)
    requires |h| == |h'|
    ensures LexLess(h + ":" + m, h' + ":" + m') <==> LexLess(h, h') || (h == h' && LexLess(m, m'))
  {
    assert h + ":" + m == h + ([':'] + m);
    assert h' + ":" + m' == h' + ([':'] + m');
    LexLessAppend(h, [':'] + m, h', [':'] + m');
    LexLessCons(':', m, ':', m');
  }

  lemma MinuteOrder(a: nat, b: nat)
    ensures a < b <==> a / 60 < b / 60 || (a / 60 == b / 60 && a % 60 < b % 60)
  {
    assert a == 60 * (a / 60) + a % 60 && b == 60 * (b / 60) + b % 60;
  }

  // ---------------------------------------------------------------------------
  // The event editor's Save

  datatype SaveError = EmptyTitle | IncompleteTime | StartNotBefore | Clash(with: Event)

  /** `not (end <= ev_start or start >= ev_end)`, on the strings. */
  predicate TextOverlap(e: Event, start: string, end: string) {
    LexLess(e.start, end) && LexLess(start, e.end)
  }

  /** The event being edited is not compared with itself. */
  predicate Compared(e: Event, editing: Option<int>) {
    editing.None? || e.id != editing.value
  }

  /** The first event of the day the new times overlap, if any. */
  function FirstClash(evs: seq<Event>, start: string, end: string, editing: Option<int>): (r: Option<Event>)
    ensures r.Some? ==> r.value in evs && Compared(r.value, editing) && TextOverlap(r.value, start, end)
  {
    if |evs| == 0 then None
    else if Compared(evs[0], editing) && TextOverlap(evs[0], start, end) then Some(evs[0])
    else FirstClash(evs[1..], start, end, editing)
  }

  lemma {:induction false} FirstClashNone(evs: seq<Event>, start: string, end: string, editing: Option<int>)
    ensures FirstClash(evs, start, end, editing).None? <==>
            forall e :: e in evs && Compared(e, editing) ==> !TextOverlap(e, start, end)
    decreases |evs|
  {
    if |evs| > 0 {
      FirstClashNone(evs[1..], start, end, editing);
      assert forall e :: e in evs <==> e == evs[0] || e in evs[1..];
    }
  }

  /**
   * `save` in the event editor: the (start, end) texts it writes, or the
   * first check that refuses. `dayEvents` is what `load_events` returns
   * for the shown date.
   */
  function CheckSave(titleInput: string, startSel: Option<Clock12>, endSel: Option<Clock12>,
                     dayEvents: seq<Event>, editing: Option<int>): Result<(string, string), SaveError>
  {
    if Strip(titleInput) == "" then Err(EmptyTitle)
    else if startSel.None? || endSel.None? then Err(IncompleteTime)
    else
      var start := To24h(startSel.value);
      var end := To24h(endSel.value);
      if !LexLess(start, end) then Err(StartNotBefore)
      else match FirstClash(dayEvents, start, end, editing)
        case Some(ev) => Err(Clash(ev))
        case None => Ok((start, end))
  }

  /**
   * Save goes ahead exactly when the title is not blank, both times are
   * chosen, start is before end, and no other event of the day overlaps;
   * it then writes the two 24-hour texts.
   */
  lemma CheckSaveSpec(titleInput: string, startSel: Option<Clock12>, endSel: Option<Clock12>,
                      dayEvents: seq<Event>, editing: Option<int>)
    ensures var r := CheckSave(titleInput, startSel, endSel, dayEvents, editing);
            r.Ok? <==>
              Strip(titleInput) != "" && startSel.Some? && endSel.Some? &&
              LexLess(To24h(startSel.value), To24h(endSel.value)) &&
              forall e :: e in dayEvents && Compared(e, editing) ==>
                !TextOverlap(e, To24h(startSel.value), To24h(endSel.value))
    ensures var r := CheckSave(titleInput, startSel, endSel, dayEvents, editing);
            r.Ok? ==> r.value == (To24h(startSel.value), To24h(endSel.value))
  {
    if startSel.Some? && endSel.Some? {
      FirstClashNone(dayEvents, To24h(startSel.value), To24h(endSel.value), editing);
    }
  }

  /**
   * For offered choices and a stored event in `HH:MM` form, the string
   * tests are the minute tests: start before end, and two intervals that
   * share a minute (touching ones do not clash).
   */
  lemma TextTestsAreMinuteTests(s: Clock12, t: Clock12, e: Event, a: nat, b: nat)
    requires Offered(s) && Offered(t) && a < 1440 && b < 1440
    requires e.start == Hhmm(a) && e.end == Hhmm(b)
    ensures LexLess(To24h(s), To24h(t)) <==> MinuteOfDay(s) < MinuteOfDay(t)
    ensures TextOverlap(e, To24h(s), To24h(t)) <==> a < MinuteOfDay(t) && MinuteOfDay(s) < b
  {
    To24hIsHhmm(s);
    To24hIsHhmm(t);
    HhmmOrder(MinuteOfDay(s), MinuteOfDay(t));
    HhmmOrder(a, MinuteOfDay(t));
    HhmmOrder(MinuteOfDay(s), b);
  }

  // ---------------------------------------------------------------------------
  // The reminder check box

  /**
   * The timetable's own `save_reminders` writes id, task, datetime and
   * status only: read back, every reminder repeats `None`.
   */
  function DropRepeats(rs: seq<SimpleReminder.Reminder>): (r: seq<SimpleReminder.Reminder>)
    ensures |r| == |rs|
    ensures forall k :: 0 <= k < |rs| ==> r[k].repeat == SimpleReminder.NoRepeat
    ensures forall k :: 0 <= k < |rs| ==> r[k].(repeat := rs[k].repeat) == rs[k]
  {
    seq(|rs|, k requires 0 <= k < |rs| => rs[k].(repeat := SimpleReminder.NoRepeat))
  }

  /** The reminders after a click, the event's new flag, and whether the file was written. */
  datatype Toggled = Toggled(reminders: seq<SimpleReminder.Reminder>, flag: string, wrote: bool)

  predicate HasReminder(rs: seq<SimpleReminder.Reminder>, task: string, when: int) {
    exists r :: r in rs && SimpleReminder.Matches(r, when, task)
  }

  /**
   * `toggle_reminder` on the reminder list: with flag "0" and no reminder
   * for (task, when) one is added (next id, 1 in an empty list); with
   * flag "1" and one present every such reminder goes; otherwise nothing.
   */
  function Toggle(rs: seq<SimpleReminder.Reminder>, task: string, when: int, flag: string): Toggled {
    if flag == "0" && !HasReminder(rs, task, when) then
      Toggled(rs + [SimpleReminder.Reminder(NextId(SimpleReminder.Ids(rs), 1), task, when,
                                            SimpleReminder.Pending, SimpleReminder.NoRepeat)], "1", true)
    else if flag == "1" && HasReminder(rs, task, when) then
      Toggled(SimpleReminder.WithoutReminder(rs, when, task), "0", true)
    else Toggled(rs, flag, false)
  }

  /**
   * A click keeps the flag in step with the reminder list: if "1" meant
   * "there is a reminder" before, it does after. Every other reminder is
   * kept as it was.
   */
  lemma ToggleKeepsFlagInStep(rs: seq<SimpleReminder.Reminder>, task: string, when: int, flag: string)
    requires flag == "0" || flag == "1"
    requires flag == "1" <==> HasReminder(rs, task, when)
    ensures var t := Toggle(rs, task, when, flag);
            t.wrote && (t.flag == "0" || t.flag == "1") && t.flag != flag &&
            (t.flag == "1" <==> HasReminder(t.reminders, task, when)) &&
            forall r :: r in rs && !SimpleReminder.Matches(r, when, task) ==> r in t.reminders
  {
    var t := Toggle(rs, task, when, flag);
    if flag == "0" {
      var n := t.reminders[|rs|];
      assert n in t.reminders && SimpleReminder.Matches(n, when, task);
    } else {
      forall r | r in t.reminders
        ensures !SimpleReminder.Matches(r, when, task)
      {
        SimpleReminder.WithoutReminderSpec(rs, when, task, r);
      }
      forall r | r in rs && !SimpleReminder.Matches(r, when, task)
        ensures r in t.reminders
      {
        SimpleReminder.WithoutReminderSpec(rs, when, task, r);
      }
    }
  }

  /** Clicking twice from "0" gives back the reminder list it started with. */
  lemma {:induction false} ToggleTwice(rs: seq<SimpleReminder.Reminder>, task: string, when: int)
    requires !HasReminder(rs, task, when)
    ensures var t := Toggle(rs, task, when, "0");
            Toggle(t.reminders, task, when, t.flag) == Toggled(rs, "0", true)
  {
    var t := Toggle(rs, task, when, "0");
    var n := t.reminders[|rs|];
    assert n in t.reminders && SimpleReminder.Matches(n, when, task);
    assert t.reminders == rs + [n];
    SimpleReminder.WithoutAdded(rs, n, when, task);
  }

  /**
   * The click as written: the shown list (the selected date's events,
   * sorted by start) with the clicked event's new flag becomes the user's
   * whole events file, and a written reminder file loses every repeat.
   */
  function ToggleAsWritten(files: Files, rs: seq<SimpleReminder.Reminder>, user: string,
                           shown: seq<Event>, idx: nat, when: int): (Files, seq<SimpleReminder.Reminder>)
    requires idx < |shown|
  {
    var ev := shown[idx];
    var t := Toggle(rs, ev.title, when, ev.reminder);
    (files[user := shown[idx := ev.(reminder := t.flag)]], if t.wrote then DropRepeats(t.reminders) else rs)
  }

  /**
   * A user with one event on day "1" and one on day "2" ticks the
   * reminder of the first while day "1" is shown: the event of day "2"
   * is gone from the file.
   */
  lemma ToggleAsWrittenLosesEvents()
    ensures var e1 := Event(1, "1", ":", ":", "A", "0", "", "");
            var e2 := Event(2, "2", ":", ":", "A", "0", "", "");
            var files := map["u" := [e1, e2]];
            var shown := LoadEvents(StoredIn(files, "u"), "1");
            shown == Some([e1]) &&
            e2 !in StoredIn(ToggleAsWritten(files, [], "u", shown.value, 0, 0).0, "u")
  {
    var e1 := Event(1, "1", ":", ":", "A", "0", "", "");
    var e2 := Event(2, "2", ":", ":", "A", "0", "", "");
    assert ReadStart(":") == Keep;
    assert LoadAll([]) == Some([]);
    assert LoadAll([e2]) == Some([e2]) by {
      assert [e2][1..] == [];
      assert [e2] + [] == [e2];
    }
    assert LoadAll([e1, e2]) == Some([e1, e2]) by {
      assert [e1, e2][1..] == [e2];
      assert [e1] + [e2] == [e1, e2];
    }
    var p := (e: Event) => e.date == "1";
    assert Filter([e1, e2], p) == [e1] by {
      assert [e1, e2][1..] == [e2];
      assert [e2][1..] == [];
    }
  }

  /** A repeating reminder of another task loses its repeat when any event's box is ticked. */
  lemma ToggleAsWrittenDropsRepeat()
    ensures var weekly := SimpleReminder.Reminder(0, "B", 0, SimpleReminder.Pending, SimpleReminder.Weekly);
            var ev := Event(1, "1", ":", ":", "A", "0", "", "");
            var r := ToggleAsWritten(map[], [weekly], "u", [ev], 0, 1).1;
            |r| == 2 && r[0] == weekly.(repeat := SimpleReminder.NoRepeat)
  {
    var weekly := SimpleReminder.Reminder(0, "B", 0, SimpleReminder.Pending, SimpleReminder.Weekly);
    assert !SimpleReminder.Matches(weekly, 1, "A");
    assert !HasReminder([weekly], "A", 1);
  }

  /** The intended click: only the clicked event's flag changes, in the whole stored file. */
  function SetFlag(evs: seq<Event>, id: int, flag: string): (r: seq<Event>)
    ensures |r| == |evs|
  {
    var i := FirstWithId(evs, id);
    if i == |evs| then evs else evs[i := evs[i].(reminder := flag)]
  }

  function ToggleStore(files: Files, user: string, ev: Event, flag: string): Files {
    match LoadAll(StoredIn(files, user))
    case None => files
    case Some(evs) => files[user := SetFlag(evs, ev.id, flag)]
  }

  /**
   * The corrected click keeps every event of the file, on every date:
   * only the reminder flag of the clicked event changes; and it keeps
   * every other reminder with its repeat.
   */
  lemma ToggleCorrectedKeeps(files: Files, rs: seq<SimpleReminder.Reminder>, user: string, ev: Event, when: int)
    requires LoadAll(StoredIn(files, user)).Some?
    ensures var evs := LoadAll(StoredIn(files, user)).value;
            var t := Toggle(rs, ev.title, when, ev.reminder);
            var after := StoredIn(ToggleStore(files, user, ev, t.flag), user);
            |after| == |evs| &&
            (forall k :: 0 <= k < |evs| ==> after[k].(reminder := evs[k].reminder) == evs[k]) &&
            (forall k :: 0 <= k < |evs| && evs[k].id != ev.id ==> after[k] == evs[k]) &&
            (forall u :: u != user ==> StoredIn(ToggleStore(files, user, ev, t.flag), u) == StoredIn(files, u)) &&
            (forall r :: r in rs && !SimpleReminder.Matches(r, when, ev.title) ==> r in t.reminders)
  {
    var t := Toggle(rs, ev.title, when, ev.reminder);
    forall r | r in rs && !SimpleReminder.Matches(r, when, ev.title)
      ensures r in t.reminders
    {
      SimpleReminder.WithoutReminderSpec(rs, when, ev.title, r);
    }
  }
}
