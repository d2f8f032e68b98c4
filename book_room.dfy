/**
 * Booking a room: the student roster read from the users file, the
 * half-hour time labels, the resolution of the booking owner, and the
 * validations `confirm_booking` runs before it appends a row to the
 * bookings table.
 */
module BookRoom {
  import opened Text
  import opened Seqs
  import opened Wrappers
  import opened RoomHelpers

  // ---------------------------------------------------------------------------
  // Student roster: student id -> upper-cased username, in insertion order

  type Roster = seq<(string, string)>

  predicate UniqueIds(roster: Roster) {
    forall i, j :: 0 <= i < j < |roster| ==> roster[i].0 != roster[j].0
  }

  /** `roster.get(sid)` */
  function Lookup(roster: Roster, sid: string): (r: Option<string>)
    ensures r.Some? ==> (sid, r.value) in roster
    ensures r.None? ==> forall k :: 0 <= k < |roster| ==> roster[k].0 != sid
  {
    if |roster| == 0 then None
    else if roster[0].0 == sid then Some(roster[0].1)
    else Lookup(roster[1..], sid)
  }

  /** The ids of a roster, in order. */
  function Ids(roster: Roster): (ids: seq<string>)
    ensures |ids| == |roster|
    ensures forall k :: 0 <= k < |roster| ==> ids[k] == roster[k].0
  {
    seq(|roster|, k requires 0 <= k < |roster| => roster[k].0)
  }

  /** `roster[sid] = name`: overwrite in place, or add at the end. */
  function Put(roster: Roster, sid: string, name: string): (r: Roster)
    ensures |r| == |roster| || |r| == |roster| + 1
  {
    if |roster| == 0 then [(sid, name)]
    else if roster[0].0 == sid then [(sid, name)] + roster[1..]
    else [roster[0]] + Put(roster[1..], sid, name)
  }

  /** After `roster[sid] = name`, `sid` maps to `name` and every other id is unchanged. */
  lemma {:induction false} PutLookup(roster: Roster, sid: string, name: string, k: string)
    ensures Lookup(Put(roster, sid, name), k) == if k == sid then Some(name) else Lookup(roster, k)
    decreases |roster|
  {
    if |roster| > 0 && roster[0].0 != sid {
      PutLookup(roster[1..], sid, name, k);
      assert Put(roster, sid, name)[1..] == Put(roster[1..], sid, name);
    } else if |roster| > 0 {
      assert Put(roster, sid, name)[1..] == roster[1..];
    }
  }

  /** A new id goes at the end; an existing one keeps its place. */
  lemma {:induction false} PutIds(roster: Roster, sid: string, name: string)
    ensures Ids(Put(roster, sid, name)) == if sid in Ids(roster) then Ids(roster) else Ids(roster) + [sid]
    decreases |roster|
  {
    if |roster| > 0 {
      var r := Put(roster, sid, name);
      var tail := roster[1..];
      IdsCons(roster);
      IdsCons(r);
      if roster[0].0 == sid {
        assert r[1..] == tail;
      } else {
        assert r[1..] == Put(tail, sid, name);
        PutIds(tail, sid, name);
        assert sid in Ids(roster) <==> sid in Ids(tail);
        if sid !in Ids(tail) {
          assert [roster[0].0] + (Ids(tail) + [sid]) == Ids(roster) + [sid];
        }
      }
    }
  }

  lemma IdsCons(roster: Roster)
    requires |roster| > 0
    ensures Ids(roster) == [roster[0].0] + Ids(roster[1..])
  {
  }

  lemma PutKeepsIdsUnique(roster: Roster, sid: string, name: string)
    requires UniqueIds(roster)
    ensures UniqueIds(Put(roster, sid, name))
  {
    var r := Put(roster, sid, name);
    PutIds(roster, sid, name);
    if sid !in Ids(roster) {
      forall i, j | 0 <= i < j < |r|
        ensures r[i].0 != r[j].0
      {
        assert r[i].0 == Ids(r)[i] && r[j].0 == Ids(r)[j];
        if j == |roster| {
          assert Ids(roster)[i] != sid;
        }
      }
    } else {
      forall i, j | 0 <= i < j < |r|
        ensures r[i].0 != r[j].0
      {
        assert r[i].0 == Ids(r)[i] && r[j].0 == Ids(r)[j];
      }
    }
  }

  /** A users-file line with exactly three fields gives (id, USERNAME). */
  function ParseStudentLine(line: string): Option<(string, string)> {
    var parts := SplitChar(Strip(line), ',');
    if |parts| == 3 then Some((Strip(parts[0]), Upper(Strip(parts[1])))) else None
  }

  /** The roster after reading `lines` in order. */
  function StudentsOf(lines: seq<string>): Roster {
    if |lines| == 0 then []
    else
      var before := StudentsOf(lines[..|lines| - 1]);
      match ParseStudentLine(lines[|lines| - 1])
      case None => before
      case Some((sid, name)) => Put(before, sid, name)
  }

  /** Reference definition: the name on the last three-field line with this id. */
  function LastNameFor(lines: seq<string>, sid: string): Option<string> {
    if |lines| == 0 then None
    else
      match ParseStudentLine(lines[|lines| - 1])
      case Some((id, name)) =>
        if id == sid then Some(name) else LastNameFor(lines[..|lines| - 1], sid)
      case None => LastNameFor(lines[..|lines| - 1], sid)
  }

  /** A later line with the same id overwrites an earlier one; ids stay unique. */
  lemma {:induction false} StudentsOfLastWins(lines: seq<string>, sid: string)
    ensures Lookup(StudentsOf(lines), sid) == LastNameFor(lines, sid)
    ensures UniqueIds(StudentsOf(lines))
    decreases |lines|
  {
    if |lines| > 0 {
      StudentsOfLastWins(lines[..|lines| - 1], sid);
      match ParseStudentLine(lines[|lines| - 1])
      case None =>
      case Some((id, name)) =>
        PutKeepsIdsUnique(StudentsOf(lines[..|lines| - 1]), id, name);
        PutLookup(StudentsOf(lines[..|lines| - 1]), id, name, sid);
    }
  }

  /** `load_students` */
  method LoadStudents(lines: seq<string>) returns (students: Roster)
    ensures students == StudentsOf(lines)
    ensures UniqueIds(students)
    ensures forall sid :: Lookup(students, sid) == LastNameFor(lines, sid)
  {
    students := [];
    var i := 0;
    while i < |lines|
      invariant 0 <= i <= |lines|
      invariant students == StudentsOf(lines[..i])
    {
      var parts := SplitChar(Strip(lines[i]), ',');
      if |parts| == 3 {
        var sid := Strip(parts[0]);
        var username := Upper(Strip(parts[1]));
        students := Put(students, sid, username);
      }
      assert lines[..i + 1][..i] == lines[..i];
      i := i + 1;
    }
    assert lines[..|lines|] == lines;
    forall sid
      ensures Lookup(students, sid) == LastNameFor(lines, sid)
    {
      StudentsOfLastWins(lines, sid);
    }
    StudentsOfLastWins(lines, "");
  }

  // ---------------------------------------------------------------------------
  // Booking owner

  /** The first roster entry whose name equals `user` ignoring case. */
  function FindByName(roster: Roster, user: string): (r: Option<(string, string)>)
    ensures r.Some? ==> r.value in roster && Lower(r.value.1) == Lower(user)
    ensures r.None? ==> forall k :: 0 <= k < |roster| ==> Lower(roster[k].1) != Lower(user)
    ensures r.Some? ==> exists k :: 0 <= k < |roster| && roster[k] == r.value &&
                                    forall j :: 0 <= j < k ==> Lower(roster[j].1) != Lower(user)
  {
    if |roster| == 0 then None
    else if Lower(roster[0].1) == Lower(user) then Some(roster[0])
    else
      var r := FindByName(roster[1..], user);
      assert r.Some? ==> exists k :: 1 <= k < |roster| && roster[k] == r.value &&
                                     forall j :: 0 <= j < k ==> Lower(roster[j].1) != Lower(user) by {
        if r.Some? {
          var k :| 0 <= k < |roster| - 1 && roster[1..][k] == r.value &&
                   forall j :: 0 <= j < k ==> Lower(roster[1..][j].1) != Lower(user);
          assert roster[k + 1] == r.value;
          assert forall j :: 0 <= j < k + 1 ==> Lower(roster[j].1) != Lower(user) by {
            forall j | 0 <= j < k + 1 ensures Lower(roster[j].1) != Lower(user) {
              if j > 0 { assert roster[j] == roster[1..][j - 1]; }
            }
          }
        }
      }
      r
  }

  /**
   * The owner shown on the booking page: the id and upper-cased name of the
   * first student whose username matches the logged-in user ignoring case,
   * or "N/A" and the upper-cased user when there is none (or its id is empty).
   */
  function ResolveOwner(roster: Roster, user: string): (owner: (string, string))
    ensures owner.1 == Upper(user)
    ensures owner.0 == "N/A" || exists k :: 0 <= k < |roster| && roster[k].0 == owner.0 && Lower(roster[k].1) == Lower(user)
    ensures (forall k :: 0 <= k < |roster| ==> Lower(roster[k].1) != Lower(user)) ==> owner == ("N/A", Upper(user))
    ensures var found := FindByName(roster, user);
            found.Some? && found.value.0 != "" ==> owner == (found.value.0, Upper(user))
    ensures var found := FindByName(roster, user);
            found.Some? && found.value.0 == "" ==> owner == ("N/A", Upper(user))
  {
    match FindByName(roster, user)
    case Some((sid, uname)) =>
      if sid != "" then
        LowerEqualUpperEqual(uname, user);
        UpperIdempotent(uname);
        (sid, Upper(uname))
      else ("N/A", Upper(user))
    case None => ("N/A", Upper(user))
  }

  /**
   * The owner is decided by the first roster entry whose name matches the
   * user ignoring case: its id when it has one, "N/A" when it has none,
   * whatever later entries hold.
   */
  lemma {:induction false} ResolveOwnerFirstMatch(roster: Roster, user: string, k: nat)
    requires k < |roster| && Lower(roster[k].1) == Lower(user)
    requires forall j :: 0 <= j < k ==> Lower(roster[j].1) != Lower(user)
    ensures ResolveOwner(roster, user) == (if roster[k].0 != "" then roster[k].0 else "N/A", Upper(user))
  {
    FindByNameFirst(roster, user, k);
  }

  lemma {:induction false} FindByNameFirst(roster: Roster, user: string, k: nat)
    requires k < |roster| && Lower(roster[k].1) == Lower(user)
    requires forall j :: 0 <= j < k ==> Lower(roster[j].1) != Lower(user)
    ensures FindByName(roster, user) == Some(roster[k])
  {
    var r := FindByName(roster, user);
    var i :| 0 <= i < |roster| && roster[i] == r.value &&
             forall j :: 0 <= j < i ==> Lower(roster[j].1) != Lower(user);
    assert !(i < k) && !(k < i);
  }

  // ---------------------------------------------------------------------------
  // Time labels

  function Hour12(h: nat): (h12: nat)
    requires h < 24
    ensures 1 <= h12 <= 12 && h12 % 12 == h % 12
  {
    if h % 12 == 0 then 12 else h % 12
  }

  function Meridiem(am: bool): string {
    if am then "AM" else "PM"
  }

  /** What follows the hour in a label: `:MM AM` or `:MM PM`. */
  function MinuteTail(mm: nat, am: bool): string {
    ":" + Pad2(mm) + " " + Meridiem(am)
  }

  /** `strftime("%I:%M %p").lstrip("0")` for a 12-hour clock reading. */
  function Label12(h12: nat, mm: nat, am: bool): string {
    LStripChar(Pad2(h12) + MinuteTail(mm, am), '0')
  }

  /** The label of a minute of the day. */
  function TimeLabel(m: nat): string
    requires m < 1440
  {
    Label12(Hour12(m / 60), m % 60, m < 720)
  }

  /** `strptime(s, "%I:%M %p")` for labels of the form `H:MM AM` / `HH:MM PM`. */
  function ParseTimeLabel(s: string): (r: Option<nat>)
    ensures r.Some? ==> r.value < 1440
  {
    var (hh, sep, rest) := Partition(s, ':');
    if sep == "" then None else ParseClock(hh, rest)
  }

  /** The hour before the ':' of a label and the `MM AM` after it, read as a minute of the day. */
  function ParseClock(hh: string, rest: string): (r: Option<nat>)
    ensures r.Some? ==> r.value < 1440
  {
    if !IsDigits(hh) || |hh| > 2 || |rest| != 5 || rest[2] != ' ' then None
    else
      var mm := rest[..2];
      var am := MeridiemOf(rest[3..]);
      if !IsDigits(mm) || am.None? then None
      else
        var h := DecValue(hh);
        var mi := DecValue(mm);
        if h < 1 || h > 12 || mi > 59 then None
        else Some((h % 12 + (if am.value then 0 else 12)) * 60 + mi)
  }

  /** `%p`: "AM" reads as before noon, "PM" as after, anything else does not parse. */
  function MeridiemOf(ap: string): (am: Option<bool>)
    ensures am.Some? <==> ap == "AM" || ap == "PM"
    ensures am == Some(true) <==> ap == "AM"
  {
    if ap == "AM" then Some(true) else if ap == "PM" then Some(false) else None
  }

  lemma MeridiemRoundTrip(am: bool)
    ensures MeridiemOf(Meridiem(am)) == Some(am)
  {
  }

  lemma {:induction false} LStripCharStops(x: string, t: string, c: char)
    requires x != [] && x[0] != c
    ensures LStripChar(x + t, c) == x + t
  {
    assert (x + t)[0] == x[0];
  }

  lemma {:induction false} LStripCharSkips(y: string, c: char)
    ensures LStripChar([c] + y, c) == LStripChar(y, c)
  {
    assert ([c] + y)[1..] == y;
  }

  /** Stripping the leading zeros of a padded hour leaves `str(h12)`. */
  lemma {:induction false} LStripHour(h12: nat, tail: string)
    requires 1 <= h12 <= 12
    ensures LStripChar(Pad2(h12) + tail, '0') == NatToDec(h12) + tail
  {
    var d := NatToDec(h12);
    NatToDecValue(h12);
    Pad2Value(h12);
    LStripCharStops(d, tail, '0');
    if h12 < 10 {
      assert Pad2(h12) + tail == ['0'] + (d + tail);
      LStripCharSkips(d + tail, '0');
    }
  }

  lemma {:induction false} ParseAfterHour(hh: string, rest: string)
    requires IsDigits(hh)
    ensures Partition(hh + [':'] + rest, ':') == (hh, ":", rest)
  {
    var s := hh + [':'] + rest;
    assert s[|hh|] == ':';
    assert forall k :: 0 <= k < |hh| ==> s[k] == hh[k];
    assert IndexOf(s, ':') == |hh|;
    assert s[..|hh|] == hh;
    assert s[|hh| + 1..] == rest;
  }

  /** A label made of an hour of one or two digits, ':', two minute digits, ' ' and "AM" or "PM" parses. */
  lemma ParseLabelParts(s: string, hh: string, pm: string, am: bool)
    requires IsDigits(hh) && |hh| <= 2 && 1 <= DecValue(hh) <= 12
    requires IsDigits(pm) && |pm| == 2 && DecValue(pm) < 60
    requires s == hh + [':'] + (pm + " " + Meridiem(am))
    ensures ParseTimeLabel(s) == Some((DecValue(hh) % 12 + (if am then 0 else 12)) * 60 + DecValue(pm))
  {
    ParseAfterHour(hh, pm + " " + Meridiem(am));
    ParseClockParts(hh, pm, am);
  }

  /** What follows the hour of a label, `:MM AM` without its ':', parses with the hour to its minute of the day. */
  lemma ParseClockParts(hh: string, pm: string, am: bool)
    requires IsDigits(hh) && |hh| <= 2 && 1 <= DecValue(hh) <= 12
    requires IsDigits(pm) && |pm| == 2 && DecValue(pm) < 60
    ensures ParseClock(hh, pm + " " + Meridiem(am)) ==
            Some((DecValue(hh) % 12 + (if am then 0 else 12)) * 60 + DecValue(pm))
  {
    MinuteTailShape(pm, am);
    MeridiemRoundTrip(am);
    ParseClockFields(hh, pm + " " + Meridiem(am));
  }

  /** Where the minutes, the space and the meridiem sit after the ':' of a label. */
  lemma MinuteTailShape(pm: string, am: bool)
    requires |pm| == 2
    ensures var rest := pm + " " + Meridiem(am);
            |rest| == 5 && rest[2] == ' ' && rest[..2] == pm && rest[3..] == Meridiem(am)
  {
    var rest := pm + " " + Meridiem(am);
    assert rest[..2] == pm;
    assert rest[3..] == Meridiem(am);
  }

  /** A clock reading of the right shape parses to its minute of the day. */
  lemma ParseClockFields(hh: string, rest: string)
    requires IsDigits(hh) && |hh| <= 2 && 1 <= DecValue(hh) <= 12
    requires |rest| == 5 && rest[2] == ' ' && IsDigits(rest[..2]) && DecValue(rest[..2]) < 60
    requires MeridiemOf(rest[3..]).Some?
    ensures ParseClock(hh, rest) ==
            Some((DecValue(hh) % 12 + (if MeridiemOf(rest[3..]).value then 0 else 12)) * 60 + DecValue(rest[..2]))
  {
  }

  /** A label is the hour without its leading zero, ':', the padded minute, ' ' and the meridiem. */
  lemma Label12Shape(h12: nat, mm: nat, am: bool)
    requires 1 <= h12 <= 12
    ensures Label12(h12, mm, am) == NatToDec(h12) + [':'] + (Pad2(mm) + " " + Meridiem(am))
  {
    var tail := Pad2(mm) + " " + Meridiem(am);
    assert MinuteTail(mm, am) == [':'] + tail;
    calc {
      Label12(h12, mm, am);
    == { LStripHour(h12, MinuteTail(mm, am)); }
      NatToDec(h12) + ([':'] + tail);
    == { SeqAssoc(NatToDec(h12), [':'], tail); }
      NatToDec(h12) + [':'] + tail;
    }
  }

  lemma SeqAssoc(a: string, b: string, c: string)
    ensures a + (b + c) == a + b + c
  {
  }

  /** The label of an hour and minute of the 12-hour clock parses back to them. */
  lemma Label12Parts(s: string, h12: nat, mm: nat, am: bool)
    requires 1 <= h12 <= 12 && mm < 60
    requires s == NatToDec(h12) + [':'] + (Pad2(mm) + " " + Meridiem(am))
    ensures ParseTimeLabel(s) == Some((h12 % 12 + (if am then 0 else 12)) * 60 + mm)
  {
    var hh := NatToDec(h12);
    assert IsDigits(hh) && |hh| <= 2 && DecValue(hh) == h12 by {
      NatToDecValue(h12);
      Pad2Value(h12);
    }
    Pad2Value(mm);
    ParseLabelParts(s, hh, Pad2(mm), am);
  }

  lemma {:induction false} Label12RoundTrip(h12: nat, mm: nat, am: bool)
    requires 1 <= h12 <= 12 && mm < 60
    ensures ParseTimeLabel(Label12(h12, mm, am)) == Some((h12 % 12 + (if am then 0 else 12)) * 60 + mm)
  {
    Label12Shape(h12, mm, am);
    Label12Parts(Label12(h12, mm, am), h12, mm, am);
  }

  /** The hour and minute on the 12-hour clock, with the meridiem, give back the minute of the day. */
  lemma ClockOfMinute(m: nat)
    requires m < 1440
    ensures m / 60 < 24 && m % 60 < 60
    ensures (Hour12(m / 60) % 12 + (if m < 720 then 0 else 12)) * 60 + m % 60 == m
  {
    var h, mm := m / 60, m % 60;
    assert m == 60 * h + mm && h < 24;
    assert (m < 720) == (h < 12);
    assert Hour12(h) % 12 + (if h < 12 then 0 else 12) == h;
  }

  /** Every label parses back to its minute, so distinct minutes get distinct labels. */
  lemma {:induction false} TimeLabelRoundTrip(m: nat)
    requires m < 1440
    ensures ParseTimeLabel(TimeLabel(m)) == Some(m)
  {
    ClockOfMinute(m);
    var h12, mm := Hour12(m / 60), m % 60;
    assert TimeLabel(m) == Label12(h12, mm, m < 720);
    Label12RoundTrip(h12, mm, m < 720);
  }

  lemma TimeLabelInjective(m1: nat, m2: nat)
    requires m1 < 1440 && m2 < 1440 && TimeLabel(m1) == TimeLabel(m2)
    ensures m1 == m2
  {
    TimeLabelRoundTrip(m1);
    TimeLabelRoundTrip(m2);
  }

  /** The minute reached after `i` steps of `step` minutes from `first`. */
  function StepMinute(first: nat, step: nat, i: nat): nat {
    if i == 0 then first else StepMinute(first, step, i - 1) + step
  }

  lemma {:induction false} StepMinuteIsLinear(first: nat, step: nat, i: nat)
    ensures StepMinute(first, step, i) == first + i * step
  {
    if i > 0 {
      StepMinuteIsLinear(first, step, i - 1);
    }
  }

  /**
   * The labels of the first `n` steps of `step` minutes from `first`, the
   * last of which still lies within the day.
   */
  function StepLabels(first: nat, step: nat, n: nat): (labels: seq<string>)
    requires n > 0 ==> StepMinute(first, step, n - 1) < 1440
    ensures |labels| == n
  {
    if n == 0 then []
    else StepLabels(first, step, n - 1) + [TimeLabel(StepMinute(first, step, n - 1))]
  }

  /** Label `i` of `StepLabels` is the label of the minute reached after `i` steps. */
  lemma {:induction false} StepLabelsAt(first: nat, step: nat, n: nat, i: nat)
    requires n > 0 ==> StepMinute(first, step, n - 1) < 1440
    requires i < n
    ensures StepMinute(first, step, i) < 1440
    ensures StepLabels(first, step, n)[i] == TimeLabel(StepMinute(first, step, i))
    decreases n
  {
    if i < n - 1 {
      StepLabelsAt(first, step, n - 1, i);
    }
  }

  /**
   * What `generate_times(start_hour, end_hour, step)` returns: the labels of
   * every step from the start hour up to and including the end hour, and no
   * more.
   */
  predicate GeneratedTimes(startHour: nat, endHour: nat, step: nat, times: seq<string>) {
    (|times| > 0 ==> StepMinute(startHour * 60, step, |times| - 1) <= endHour * 60) &&
    StepMinute(startHour * 60, step, |times|) > endHour * 60 &&
    (endHour < 24 ==> times == StepLabels(startHour * 60, step, |times|))
  }

  /** `generate_times(start_hour, end_hour, step)` */
  method GenerateTimes(startHour: nat, endHour: nat, step: nat) returns (times: seq<string>)
    requires startHour < 24 && endHour < 24 && step > 0
    ensures GeneratedTimes(startHour, endHour, step, times)
  {
    times := [];
    var current := startHour * 60;
    var end := endHour * 60;
    while current <= end
      invariant current == StepMinute(startHour * 60, step, |times|)
      invariant |times| > 0 ==> StepMinute(startHour * 60, step, |times| - 1) <= end
      invariant times == StepLabels(startHour * 60, step, |times|)
      decreases end - current
    {
      times := times + [TimeLabel(current)];
      current := current + step;
    }
  }

  /** Minute of the day of label `i` of the booking page's times. */
  function SlotMinute(i: nat): nat {
    480 + 30 * i
  }

  /** `TIMES = generate_times()`: the defaults (8, 21, 30) give 27 labels. */
  lemma DefaultTimesCount(times: seq<string>)
    requires GeneratedTimes(8, 21, 30, times)
    ensures |times| == 27
  {
    StepMinuteIsLinear(480, 30, |times|);
  }

  lemma TimeLabelOf(a: nat, b: nat)
    requires a == b < 1440
    ensures TimeLabel(a) == TimeLabel(b)
  {
  }

  /** Label `i` of `TIMES` is the label of slot minute `i`, and parses back to it. */
  lemma DefaultTimesAt(times: seq<string>, i: nat)
    requires GeneratedTimes(8, 21, 30, times) && i < |times|
    ensures SlotMinute(i) < 1440 && times[i] == TimeLabel(SlotMinute(i))
    ensures ParseTimeLabel(times[i]) == Some(SlotMinute(i))
  {
    DefaultTimesCount(times);
    StepMinuteIsLinear(480, 30, |times| - 1);
    StepLabelsAt(480, 30, |times|, i);
    StepMinuteIsLinear(480, 30, i);
    TimeLabelOf(StepMinute(480, 30, i), SlotMinute(i));
    TimeLabelRoundTrip(SlotMinute(i));
  }

  /** Distinct slots have distinct labels in `TIMES`. */
  lemma DefaultTimesDistinct(times: seq<string>, i: nat, j: nat)
    requires GeneratedTimes(8, 21, 30, times) && i < |times| && j < |times| && i != j
    ensures times[i] != times[j]
  {
    DefaultTimesAt(times, i);
    DefaultTimesAt(times, j);
  }

  /** A label on the hour below ten: one digit, ":00" and the meridiem. */
  lemma HourLabel(h12: nat, am: bool)
    requires 1 <= h12 < 10
    ensures Label12(h12, 0, am) == [DigitChar(h12)] + ":00 " + Meridiem(am)
  {
    LStripHour(h12, MinuteTail(0, am));
    Pad2Value(0);
    assert Pad2(0) == "00";
    assert NatToDec(h12) == [DigitChar(h12)];
  }

  lemma EightAM()
    ensures TimeLabel(480) == "8:00 AM"
  {
    assert TimeLabel(480) == Label12(8, 0, true);
    HourLabel(8, true);
    assert [DigitChar(8)] + ":00 " + Meridiem(true) == "8:00 AM";
  }

  lemma NinePM()
    ensures TimeLabel(1260) == "9:00 PM"
  {
    assert TimeLabel(1260) == Label12(9, 0, false);
    HourLabel(9, false);
    assert [DigitChar(9)] + ":00 " + Meridiem(false) == "9:00 PM";
  }

  /** `TIMES` runs from "8:00 AM" to "9:00 PM". */
  lemma DefaultTimesEnds(times: seq<string>)
    requires GeneratedTimes(8, 21, 30, times)
    ensures |times| == 27 && times[0] == "8:00 AM" && times[26] == "9:00 PM"
  {
    DefaultTimesCount(times);
    DefaultTimesAt(times, 0);
    DefaultTimesAt(times, 26);
    TimeLabelOf(SlotMinute(0), 480);
    TimeLabelOf(SlotMinute(26), 1260);
    EightAM();
    NinePM();
  }

  // ---------------------------------------------------------------------------
  // Member rows

  datatype Member = Member(id: string, name: string)

  datatype MemberError =
    | Incomplete(row: nat)
    | OwnerAgain(row: nat)
    | InvalidStudent(row: nat)
    | DuplicateId(row: nat)

  function RowId(rows: seq<(string, string)>, k: nat): string
    requires k < |rows|
  {
    Strip(rows[k].0)
  }

  function RowName(rows: seq<(string, string)>, k: nat): string
    requires k < |rows|
  {
    Upper(Strip(rows[k].1))
  }

  /** Row `k` passes every check, given the rows before it passed. */
  predicate RowAcceptable(rows: seq<(string, string)>, k: nat, ownerId: string, roster: Roster)
    requires k < |rows|
  {
    RowId(rows, k) != "" && RowName(rows, k) != "" && RowId(rows, k) != ownerId &&
    Lookup(roster, RowId(rows, k)) == Some(RowName(rows, k)) &&
    RowId(rows, k) !in IdsBefore(rows, k)
  }

  /** The ids of the rows before row `i`. */
  function IdsBefore(rows: seq<(string, string)>, i: nat): set<string>
    requires i <= |rows|
  {
    if i == 0 then {} else IdsBefore(rows, i - 1) + {RowId(rows, i - 1)}
  }

  /** An id is among those before row `i` exactly when some earlier row has it. */
  lemma {:induction false} IdsBeforeIff(rows: seq<(string, string)>, i: nat, x: string)
    requires i <= |rows|
    ensures x in IdsBefore(rows, i) <==> exists j :: 0 <= j < i && RowId(rows, j) == x
    decreases i
  {
    if i > 0 {
      IdsBeforeIff(rows, i - 1, x);
    }
  }

  /** The member-row loop of `confirm_booking`, from row `i` on. */
  function CheckRowsFrom(rows: seq<(string, string)>, i: nat, ownerId: string, roster: Roster,
                         seen: set<string>, members: seq<Member>): Result<seq<Member>, MemberError>
    requires i <= |rows|
    decreases |rows| - i
  {
    if i == |rows| then Ok(members)
    else
      var sid := Strip(rows[i].0);
      var sname := Upper(Strip(rows[i].1));
      if sid == "" || sname == "" then Err(Incomplete(i + 1))
      else if sid == ownerId then Err(OwnerAgain(i + 1))
      else if Lookup(roster, sid) != Some(sname) then Err(InvalidStudent(i + 1))
      else if sid in seen then Err(DuplicateId(i + 1))
      else CheckRowsFrom(rows, i + 1, ownerId, roster, seen + {sid}, members + [Member(sid, sname)])
  }

  function CheckMembers(rows: seq<(string, string)>, ownerId: string, roster: Roster): Result<seq<Member>, MemberError> {
    CheckRowsFrom(rows, 0, ownerId, roster, {}, [])
  }

  function MembersOf(rows: seq<(string, string)>): (ms: seq<Member>)
    ensures |ms| == |rows|
  {
    seq(|rows|, k requires 0 <= k < |rows| => Member(RowId(rows, k), RowName(rows, k)))
  }

  /** The error the member loop reports for row `k`, if that row fails. */
  function RowError(rows: seq<(string, string)>, k: nat, ownerId: string, roster: Roster): MemberError
    requires k < |rows|
  {
    if RowId(rows, k) == "" || RowName(rows, k) == "" then Incomplete(k + 1)
    else if RowId(rows, k) == ownerId then OwnerAgain(k + 1)
    else if Lookup(roster, RowId(rows, k)) != Some(RowName(rows, k)) then InvalidStudent(k + 1)
    else DuplicateId(k + 1)
  }

  /** Which rows pass their checks, row by row. */
  function Verdicts(rows: seq<(string, string)>, ownerId: string, roster: Roster): (v: seq<bool>)
    ensures |v| == |rows|
    ensures forall k :: 0 <= k < |rows| ==> v[k] == RowAcceptable(rows, k, ownerId, roster)
  {
    seq(|rows|, k requires 0 <= k < |rows| => RowAcceptable(rows, k, ownerId, roster))
  }

  /** The first `false` from `i` on, or `|v|` when there is none. */
  function FirstFalse(v: seq<bool>, i: nat): (k: nat)
    requires i <= |v|
    ensures i <= k <= |v|
    decreases |v| - i
  {
    if i == |v| then i else if v[i] then FirstFalse(v, i + 1) else i
  }

  /** Every entry from `i` up to the first `false` is `true`, and that one is `false`. */
  lemma {:induction false} FirstFalseSpec(v: seq<bool>, i: nat)
    requires i <= |v|
    ensures forall k :: i <= k < FirstFalse(v, i) ==> v[k]
    ensures FirstFalse(v, i) < |v| ==> !v[FirstFalse(v, i)]
    decreases |v| - i
  {
    if i < |v| && v[i] {
      FirstFalseSpec(v, i + 1);
    }
  }

  /** The first row from `i` on that fails a check, or `|rows|` when none does. */
  function FirstBadRow(rows: seq<(string, string)>, i: nat, ownerId: string, roster: Roster): (k: nat)
    requires i <= |rows|
    ensures i <= k <= |rows|
  {
    FirstFalse(Verdicts(rows, ownerId, roster), i)
  }

  /** Every row from `i` up to the first bad one passes. */
  lemma FirstBadRowPassed(rows: seq<(string, string)>, i: nat, ownerId: string, roster: Roster)
    requires i <= |rows|
    ensures forall k :: i <= k < FirstBadRow(rows, i, ownerId, roster) ==> RowAcceptable(rows, k, ownerId, roster)
  {
    FirstFalseSpec(Verdicts(rows, ownerId, roster), i);
  }

  /** The first bad row, when there is one, fails. */
  lemma FirstBadRowFails(rows: seq<(string, string)>, i: nat, ownerId: string, roster: Roster)
    requires i <= |rows|
    ensures FirstBadRow(rows, i, ownerId, roster) < |rows| ==>
              !RowAcceptable(rows, FirstBadRow(rows, i, ownerId, roster), ownerId, roster)
  {
    FirstFalseSpec(Verdicts(rows, ownerId, roster), i);
  }

  /** What the member loop returns from row `i` on: the first bad row's error, or every member. */
  function LoopOutcome(rows: seq<(string, string)>, i: nat, ownerId: string, roster: Roster): Result<seq<Member>, MemberError>
    requires i <= |rows|
  {
    var f := FirstBadRow(rows, i, ownerId, roster);
    if f == |rows| then Ok(MembersOf(rows)) else Err(RowError(rows, f, ownerId, roster))
  }

  /**
   * From row `i` on, with the ids and members of the earlier rows
   * collected, the loop stops at the first failing row with that row's
   * error, or accepts every row.
   */
  lemma {:induction false} CheckRowsFromFirstBad(rows: seq<(string, string)>, i: nat, ownerId: string, roster: Roster,
                                                 seen: set<string>, members: seq<Member>)
    requires i <= |rows|
    requires seen == IdsBefore(rows, i)
    requires members == MembersOf(rows)[..i]
    ensures CheckRowsFrom(rows, i, ownerId, roster, seen, members) == LoopOutcome(rows, i, ownerId, roster)
    decreases |rows| - i
  {
    if i == |rows| {
      LoopEnds(rows, ownerId, roster, seen, members);
    } else if RowAcceptable(rows, i, ownerId, roster) {
      var m := Member(RowId(rows, i), RowName(rows, i));
      AcceptedRowCollected(rows, i, seen, members);
      CheckRowsFromFirstBad(rows, i + 1, ownerId, roster, seen + {RowId(rows, i)}, members + [m]);
      AcceptedRowStep(rows, i, ownerId, roster, seen, members);
    } else {
      RejectedRowStep(rows, i, ownerId, roster, seen, members);
    }
  }

  /** Past the last row, every member has been collected and the loop accepts them. */
  lemma LoopEnds(rows: seq<(string, string)>, ownerId: string, roster: Roster, seen: set<string>, members: seq<Member>)
    requires members == MembersOf(rows)[..|rows|]
    ensures CheckRowsFrom(rows, |rows|, ownerId, roster, seen, members) == LoopOutcome(rows, |rows|, ownerId, roster)
  {
    assert members == MembersOf(rows);
  }

  /** An accepted row is collected and the loop goes on with the next one. */
  lemma AcceptedRowStep(rows: seq<(string, string)>, i: nat, ownerId: string, roster: Roster,
                        seen: set<string>, members: seq<Member>)
    requires i < |rows| && RowAcceptable(rows, i, ownerId, roster)
    requires seen == IdsBefore(rows, i)
    requires CheckRowsFrom(rows, i + 1, ownerId, roster, seen + {RowId(rows, i)},
                           members + [Member(RowId(rows, i), RowName(rows, i))]) ==
             LoopOutcome(rows, i + 1, ownerId, roster)
    ensures CheckRowsFrom(rows, i, ownerId, roster, seen, members) == LoopOutcome(rows, i, ownerId, roster)
  {
    assert FirstBadRow(rows, i, ownerId, roster) == FirstBadRow(rows, i + 1, ownerId, roster);
  }

  /** After an accepted row, the ids and members collected are those of the rows up to it. */
  lemma AcceptedRowCollected(rows: seq<(string, string)>, i: nat, seen: set<string>, members: seq<Member>)
    requires i < |rows| && seen == IdsBefore(rows, i) && members == MembersOf(rows)[..i]
    ensures seen + {RowId(rows, i)} == IdsBefore(rows, i + 1)
    ensures members + [Member(RowId(rows, i), RowName(rows, i))] == MembersOf(rows)[..i + 1]
  {
    assert MembersOf(rows)[..i + 1] == MembersOf(rows)[..i] + [MembersOf(rows)[i]];
  }

  /** A rejected row stops the loop with its own error. */
  lemma RejectedRowStep(rows: seq<(string, string)>, i: nat, ownerId: string, roster: Roster,
                        seen: set<string>, members: seq<Member>)
    requires i < |rows| && !RowAcceptable(rows, i, ownerId, roster)
    requires seen == IdsBefore(rows, i)
    ensures FirstBadRow(rows, i, ownerId, roster) == i
    ensures CheckRowsFrom(rows, i, ownerId, roster, seen, members) == Err(RowError(rows, i, ownerId, roster))
    ensures CheckRowsFrom(rows, i, ownerId, roster, seen, members) == LoopOutcome(rows, i, ownerId, roster)
  {
  }

  /**
   * The member rows are accepted exactly when every row has an id and a
   * name, is not the owner, matches the roster and repeats no earlier id;
   * a rejection names the first row that fails.
   */
  lemma CheckMembersSpec(rows: seq<(string, string)>, ownerId: string, roster: Roster)
    ensures var r := CheckMembers(rows, ownerId, roster);
            (r.Ok? <==> forall k :: 0 <= k < |rows| ==> RowAcceptable(rows, k, ownerId, roster)) &&
            (r.Ok? ==> r.value == MembersOf(rows)) &&
            (r.Err? ==> 0 < r.error.row <= |rows| &&
                        !RowAcceptable(rows, r.error.row - 1, ownerId, roster) &&
                        forall k :: 0 <= k < r.error.row - 1 ==> RowAcceptable(rows, k, ownerId, roster))
  {
    var f := FirstBadRow(rows, 0, ownerId, roster);
    assert CheckMembers(rows, ownerId, roster) ==
           if f == |rows| then Ok(MembersOf(rows)) else Err(RowError(rows, f, ownerId, roster)) by {
      assert MembersOf(rows)[..0] == [];
      CheckRowsFromFirstBad(rows, 0, ownerId, roster, {}, []);
    }
    FirstBadRowPassed(rows, 0, ownerId, roster);
    FirstBadRowFails(rows, 0, ownerId, roster);
    if f < |rows| {
      RowErrorRow(rows, f, ownerId, roster);
    }
  }

  /** The error of row `k` reports it as row `k + 1`, counting from one as the page does. */
  lemma RowErrorRow(rows: seq<(string, string)>, k: nat, ownerId: string, roster: Roster)
    requires k < |rows|
    ensures RowError(rows, k, ownerId, roster).row == k + 1
  {
  }

  /** `"; ".join(f"{m['id']}|{m['name']}" for m in members)` */
  function MemberTexts(ms: seq<Member>): (texts: seq<string>)
    ensures |texts| == |ms|
  {
    seq(|ms|, k requires 0 <= k < |ms| => ms[k].id + "|" + ms[k].name)
  }

  function MembersText(ms: seq<Member>): string {
    Join(MemberTexts(ms), "; ")
  }

  // ---------------------------------------------------------------------------
  // Availability

  /** Booking `b` stands in the way of a new booking of `[start, end)` on `date`. */
  predicate Clashes(b: Booking, date: int, start: nat, end: nat, ownerId: string, venue: string, room: string) {
    b.date == Date(date) && Overlaps(start, end, b.start, b.end) &&
    (b.ownerId == ownerId || (b.venue == venue && b.room == room))
  }

  datatype BookingError =
    | NoVenue
    | NoRoom
    | NoPax
    | EndNotAfterStart
    | LongerThanThreeHours
    | DateInPast
    | StartPassed
    | DoubleBooking
    | RoomOccupied
    | BadMember(e: MemberError)
    | WrongMemberCount

  /** The availability loop: the first existing booking that stands in the way. */
  function FirstConflict(table: seq<Booking>, date: int, start: nat, end: nat,
                         ownerId: string, venue: string, room: string): Option<BookingError>
  {
    if |table| == 0 then None
    else
      var b := table[0];
      if b.date == Date(date) && Overlaps(start, end, b.start, b.end) then
        if b.ownerId == ownerId then Some(DoubleBooking)
        else if b.venue == venue && b.room == room then Some(RoomOccupied)
        else FirstConflict(table[1..], date, start, end, ownerId, venue, room)
      else FirstConflict(table[1..], date, start, end, ownerId, venue, room)
  }

  /**
   * The availability check passes exactly when no booking clashes; it
   * reports a double booking only for an overlapping booking of the same
   * owner, and an occupied room only for an overlapping booking of another
   * owner in the same room.
   */
  lemma {:induction false} FirstConflictSpec(table: seq<Booking>, date: int, start: nat, end: nat,
                                             ownerId: string, venue: string, room: string)
    ensures var r := FirstConflict(table, date, start, end, ownerId, venue, room);
            (r.None? <==> forall k :: 0 <= k < |table| ==> !Clashes(table[k], date, start, end, ownerId, venue, room)) &&
            (r == Some(DoubleBooking) ==>
               exists k :: 0 <= k < |table| && table[k].date == Date(date) &&
                           Overlaps(start, end, table[k].start, table[k].end) && table[k].ownerId == ownerId) &&
            (r == Some(RoomOccupied) ==>
               exists k :: 0 <= k < |table| && table[k].date == Date(date) &&
                           Overlaps(start, end, table[k].start, table[k].end) && table[k].ownerId != ownerId &&
                           table[k].venue == venue && table[k].room == room) &&
            (r.Some? ==> r == Some(DoubleBooking) || r == Some(RoomOccupied))
    decreases |table|
  {
    if |table| > 0 {
      FirstConflictSpec(table[1..], date, start, end, ownerId, venue, room);
      var r := FirstConflict(table[1..], date, start, end, ownerId, venue, room);
      if r == Some(DoubleBooking) {
        var k :| 0 <= k < |table[1..]| && table[1..][k].date == Date(date) &&
                 Overlaps(start, end, table[1..][k].start, table[1..][k].end) && table[1..][k].ownerId == ownerId;
        assert table[k + 1] == table[1..][k];
      }
      if r == Some(RoomOccupied) {
        var k :| 0 <= k < |table[1..]| && table[1..][k].date == Date(date) &&
                 Overlaps(start, end, table[1..][k].start, table[1..][k].end) && table[1..][k].ownerId != ownerId &&
                 table[1..][k].venue == venue && table[1..][k].room == room;
        assert table[k + 1] == table[1..][k];
      }
      if r.Some? {
        var k :| 0 <= k < |table[1..]| && Clashes(table[1..][k], date, start, end, ownerId, venue, room);
        assert table[k + 1] == table[1..][k];
      }
    }
  }

  // ---------------------------------------------------------------------------
  // Confirming a booking

  /** What the booking form holds when "Confirm Booking" is pressed. */
  datatype Request = Request(
    venue: string,
    room: string,
    date: int,
    startIdx: nat,
    endIdx: nat,
    pax: string,
    ownerId: string,
    ownerName: string,
    memberRows: seq<(string, string)>)

  /** The start and end come from the `TIMES` comboboxes. */
  predicate WellFormedRequest(q: Request) {
    q.startIdx < 27 && q.endIdx < 27
  }

  /** The outcome of `confirm_booking`: the row it appends, or the first error. */
  function Decide(table: seq<Booking>, q: Request, roster: Roster, today: int, nowMin: nat): Result<Booking, BookingError>
    requires WellFormedRequest(q)
  {
    var start := SlotMinute(q.startIdx);
    var end := SlotMinute(q.endIdx);
    var duration := (q.endIdx - q.startIdx) * 30;
    if q.venue == "" then Err(NoVenue)
    else if q.room == "" then Err(NoRoom)
    else if !IsDigits(q.pax) then Err(NoPax)
    else if duration <= 0 then Err(EndNotAfterStart)
    else if duration > 180 then Err(LongerThanThreeHours)
    else if q.date < today then Err(DateInPast)
    else if q.date == today && start <= nowMin then Err(StartPassed)
    else
      match FirstConflict(table, q.date, start, end, q.ownerId, q.venue, q.room)
      case Some(e) => Err(e)
      case None =>
        match CheckMembers(q.memberRows, q.ownerId, roster)
        case Err(e) => Err(BadMember(e))
        case Ok(ms) =>
          if |ms| != DecValue(q.pax) - 1 then Err(WrongMemberCount)
          else Ok(Booking(q.venue, q.room, Date(q.date), start, end, q.pax,
                          q.ownerId, Upper(q.ownerName), MembersText(ms)))
  }

  /** Every rule `confirm_booking` enforces, stated on its own. */
  predicate Acceptable(table: seq<Booking>, q: Request, roster: Roster, today: int, nowMin: nat)
    requires WellFormedRequest(q)
  {
    q.venue != "" && q.room != "" && IsDigits(q.pax) &&
    0 < q.endIdx - q.startIdx <= 6 &&
    q.date >= today && (q.date == today ==> SlotMinute(q.startIdx) > nowMin) &&
    (forall k :: 0 <= k < |table| ==>
       !Clashes(table[k], q.date, SlotMinute(q.startIdx), SlotMinute(q.endIdx), q.ownerId, q.venue, q.room)) &&
    (forall k :: 0 <= k < |q.memberRows| ==> RowAcceptable(q.memberRows, k, q.ownerId, roster)) &&
    |q.memberRows| == DecValue(q.pax) - 1
  }

  /**
   * A booking is accepted exactly when every rule holds, and the row
   * appended is the request with the owner name upper-cased and the members
   * written as `id|NAME` joined by "; ".
   */
  lemma DecideSpec(table: seq<Booking>, q: Request, roster: Roster, today: int, nowMin: nat)
    requires WellFormedRequest(q)
    ensures Decide(table, q, roster, today, nowMin).Ok? <==> Acceptable(table, q, roster, today, nowMin)
    ensures Decide(table, q, roster, today, nowMin).Ok? ==>
              Decide(table, q, roster, today, nowMin).value ==
                Booking(q.venue, q.room, Date(q.date), SlotMinute(q.startIdx), SlotMinute(q.endIdx), q.pax,
                        q.ownerId, Upper(q.ownerName), MembersText(MembersOf(q.memberRows)))
  {
    FirstConflictSpec(table, q.date, SlotMinute(q.startIdx), SlotMinute(q.endIdx), q.ownerId, q.venue, q.room);
    CheckMembersSpec(q.memberRows, q.ownerId, roster);
  }

  /** An accepted booking lasts half an hour to three hours. */
  lemma AcceptedDuration(table: seq<Booking>, q: Request, roster: Roster, today: int, nowMin: nat)
    requires WellFormedRequest(q) && Decide(table, q, roster, today, nowMin).Ok?
    ensures var b := Decide(table, q, roster, today, nowMin).value;
            30 <= b.end - b.start <= 180 && (b.end - b.start) % 30 == 0
  {
  }

  /**
   * The table invariant confirmations keep: two bookings on the same date
   * whose times overlap belong to different owners and different rooms.
   */
  predicate NoClashes(table: seq<Booking>) {
    forall i, j ::
      (0 <= i < |table| && 0 <= j < |table| && i != j && table[i].date == table[j].date &&
       Overlaps(table[i].start, table[i].end, table[j].start, table[j].end)) ==>
      table[i].ownerId != table[j].ownerId &&
      (table[i].venue != table[j].venue || table[i].room != table[j].room)
  }

  lemma ConfirmKeepsNoClashes(table: seq<Booking>, q: Request, roster: Roster, today: int, nowMin: nat)
    requires WellFormedRequest(q) && NoClashes(table)
    requires Decide(table, q, roster, today, nowMin).Ok?
    ensures NoClashes(table + [Decide(table, q, roster, today, nowMin).value])
  {
    DecideSpec(table, q, roster, today, nowMin);
    var b := Decide(table, q, roster, today, nowMin).value;
    var t := table + [b];
    forall i, j | 0 <= i < |t| && 0 <= j < |t| && i != j &&
        t[i].date == t[j].date && Overlaps(t[i].start, t[i].end, t[j].start, t[j].end)
      ensures t[i].ownerId != t[j].ownerId && (t[i].venue != t[j].venue || t[i].room != t[j].room)
    {
      if i == |table| {
        assert !Clashes(table[j], q.date, b.start, b.end, q.ownerId, q.venue, q.room);
      } else if j == |table| {
        assert !Clashes(table[i], q.date, b.start, b.end, q.ownerId, q.venue, q.room);
      }
    }
  }

  /** The owner resolved for the logged-in user sees every booking they confirm. */
  lemma OwnerSeesOwnBooking(table: seq<Booking>, q: Request, roster: Roster, today: int, nowMin: nat, user: string)
    requires WellFormedRequest(q) && Decide(table, q, roster, today, nowMin).Ok?
    requires (q.ownerId, q.ownerName) == ResolveOwner(roster, user)
    ensures UserInBooking(Decide(table, q, roster, today, nowMin).value, user)
  {
    var b := Decide(table, q, roster, today, nowMin).value;
    UpperIdempotent(user);
    assert b.ownerName == Upper(user);
    StripUpper(user);
    StripUpper(Strip(user));
    StripIdempotent(user);
    UpperIdempotent(Strip(user));
  }

  /** `save_booking`: append one row; earlier rows are untouched. */
  method SaveBooking(t: Table, b: Booking)
    modifies t
    ensures t.rows == old(t.rows) + [b]
  {
    t.rows := t.rows + [b];
  }

  /** `confirm_booking`: check the form against the table and append on success. */
  method ConfirmBooking(t: Table, q: Request, roster: Roster, today: int, nowMin: nat)
    returns (r: Result<Booking, BookingError>)
    requires WellFormedRequest(q)
    modifies t
    ensures r == Decide(old(t.rows), q, roster, today, nowMin)
    ensures r.Ok? ==> t.rows == old(t.rows) + [r.value]
    ensures r.Err? ==> t.rows == old(t.rows)
  {
    if q.venue == "" { return Err(NoVenue); }
    if q.room == "" { return Err(NoRoom); }
    if !IsDigits(q.pax) { return Err(NoPax); }
    var duration := (q.endIdx - q.startIdx) * 30;
    if duration <= 0 { return Err(EndNotAfterStart); }
    if duration > 180 { return Err(LongerThanThreeHours); }
    if q.date < today { return Err(DateInPast); }
    var start := SlotMinute(q.startIdx);
    var end := SlotMinute(q.endIdx);
    if q.date == today && start <= nowMin { return Err(StartPassed); }

    // Availability check
    var table := t.rows;
    var i := 0;
    while i < |table|
      invariant 0 <= i <= |table|
      invariant FirstConflict(table, q.date, start, end, q.ownerId, q.venue, q.room) ==
                FirstConflict(table[i..], q.date, start, end, q.ownerId, q.venue, q.room)
    {
      var b := table[i];
      assert table[i..][1..] == table[i + 1..];
      if b.date == Date(q.date) && Overlaps(start, end, b.start, b.end) {
        if b.ownerId == q.ownerId { return Err(DoubleBooking); }
        if b.venue == q.venue && b.room == q.room { return Err(RoomOccupied); }
      }
      i := i + 1;
    }

    // Members validation
    var rows := q.memberRows;
    var members: seq<Member> := [];
    var seen: set<string> := {};
    var k := 0;
    while k < |rows|
      invariant 0 <= k <= |rows|
      invariant CheckMembers(rows, q.ownerId, roster) == CheckRowsFrom(rows, k, q.ownerId, roster, seen, members)
    {
      var sid := Strip(rows[k].0);
      var sname := Upper(Strip(rows[k].1));
      if sid == "" || sname == "" { return Err(BadMember(Incomplete(k + 1))); }
      if sid == q.ownerId { return Err(BadMember(OwnerAgain(k + 1))); }
      var expected := Lookup(roster, sid);
      if expected.None? || expected.value != sname { return Err(BadMember(InvalidStudent(k + 1))); }
      if sid in seen { return Err(BadMember(DuplicateId(k + 1))); }
      seen := seen + {sid};
      members := members + [Member(sid, expected.value)];
      k := k + 1;
    }
    if |members| != DecValue(q.pax) - 1 { return Err(WrongMemberCount); }

    var booking := Booking(q.venue, q.room, Date(q.date), start, end, q.pax,
                           q.ownerId, Upper(q.ownerName), MembersText(members));
    SaveBooking(t, booking);
    return Ok(booking);
  }

  // ---------------------------------------------------------------------------
  // Upcoming rows

  predicate DatedFrom(b: Booking, today: int) {
    b.date.Date? && b.date.day >= today
  }

  /** `fetch_upcoming_bookings`: rows dated today or later, in table order. */
  function FetchUpcomingBookings(table: seq<Booking>, today: int): (r: seq<Booking>)
    ensures forall k :: 0 <= k < |r| ==> r[k] in table && DatedFrom(r[k], today)
    ensures forall k :: 0 <= k < |table| && DatedFrom(table[k], today) ==> table[k] in r
  {
    Filter(table, b => DatedFrom(b, today))
  }
}
