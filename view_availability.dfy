/**
 * The room availability page: the five dates it offers, the half-hour
 * slots of its grid, and the colour of each cell of a room's column.
 */
module ViewAvailability {
  import opened Seqs
  import opened Wrappers
  import opened RoomHelpers
  import BookRoom

  /** `get_next_5_days`: today and the four days after it, as day numbers. */
  function Next5Days(today: int): (days: seq<int>)
    ensures |days| == 5 && days[0] == today
    ensures forall i :: 0 < i < |days| ==> days[i] == days[i - 1] + 1
  {
    [today, today + 1, today + 2, today + 3, today + 4]
  }

  /** The offered dates are distinct, in increasing order, and none is before today. */
  lemma Next5DaysAscending(today: int, i: nat, j: nat)
    requires i < j < 5
    ensures today <= Next5Days(today)[i] < Next5Days(today)[j] <= today + 4
  {
  }

  /**
   * The grid's rows: slot `i` runs from label `i` to label `i + 1` of the
   * default `generate_times()` list, so the 26 slots are consecutive
   * half-open half hours from 8:00 AM to 9:00 PM.
   */
  lemma GridSlots(times: seq<string>, i: nat)
    requires BookRoom.GeneratedTimes(8, 21, 30, times)
    requires i < |times| - 1
    ensures |times| - 1 == 26
    ensures BookRoom.ParseTimeLabel(times[i]) == Some(480 + 30 * i)
    ensures BookRoom.ParseTimeLabel(times[i + 1]) == Some(480 + 30 * i + 30)
    ensures 480 + 30 * i + 30 <= 1260
  {
    BookRoom.DefaultTimesCount(times);
    assert BookRoom.SlotMinute(i) == 480 + 30 * i;
    assert BookRoom.SlotMinute(i + 1) == 480 + 30 * i + 30;
    BookRoom.DefaultTimesAt(times, i);
    BookRoom.DefaultTimesAt(times, i + 1);
  }

  /** The colour of a cell. */
  datatype Cell = Booked | Past | Available

  /** A booking of this venue's room on this date (the date text compared as stored). */
  predicate SameCell(b: Booking, venue: string, room: string, date: int) {
    b.venue == venue && b.room == room && b.date == Date(date)
  }

  /** The page's search over the bookings, stopping at the first one that takes the slot. */
  predicate SlotTaken(bookings: seq<Booking>, venue: string, room: string, date: int,
                      slotStart: nat, slotEnd: nat)
  {
    |bookings| > 0 &&
    ((SameCell(bookings[0], venue, room, date) &&
      Overlaps(slotStart, slotEnd, bookings[0].start, bookings[0].end)) ||
     SlotTaken(bookings[1..], venue, room, date, slotStart, slotEnd))
  }

  /**
   * The colour of the cell for `room` of `venue` on `date` and the slot
   * `[slotStart, slotEnd)`: booked first, then past (today only), else free.
   */
  function CellStatus(bookings: seq<Booking>, venue: string, room: string, date: int,
                      slotStart: nat, slotEnd: nat, today: int, nowMin: nat): Cell
  {
    if SlotTaken(bookings, venue, room, date, slotStart, slotEnd) then Booked
    else if date == today && slotEnd <= nowMin then Past
    else Available
  }

  /** The search finds a booking exactly when some booking of the cell overlaps the slot. */
  lemma {:induction false} SlotTakenIff(bookings: seq<Booking>, venue: string, room: string, date: int,
                                        slotStart: nat, slotEnd: nat)
    ensures SlotTaken(bookings, venue, room, date, slotStart, slotEnd) <==>
            exists k :: 0 <= k < |bookings| && SameCell(bookings[k], venue, room, date) &&
                        Overlaps(slotStart, slotEnd, bookings[k].start, bookings[k].end)
    decreases |bookings|
  {
    if |bookings| > 0 {
      SlotTakenIff(bookings[1..], venue, room, date, slotStart, slotEnd);
      if exists k :: 0 <= k < |bookings| && SameCell(bookings[k], venue, room, date) &&
                     Overlaps(slotStart, slotEnd, bookings[k].start, bookings[k].end)
      {
        var k :| 0 <= k < |bookings| && SameCell(bookings[k], venue, room, date) &&
                 Overlaps(slotStart, slotEnd, bookings[k].start, bookings[k].end);
        if k > 0 {
          assert bookings[1..][k - 1] == bookings[k];
        }
      }
    }
  }

  /**
   * A cell is booked exactly when some booking of the same venue, room and
   * date overlaps the slot; it is past exactly when it is not booked, the
   * date is today and the slot has ended; otherwise it is available.
   */
  lemma CellStatusSpec(bookings: seq<Booking>, venue: string, room: string, date: int,
                       slotStart: nat, slotEnd: nat, today: int, nowMin: nat)
    ensures var taken := exists k :: 0 <= k < |bookings| && SameCell(bookings[k], venue, room, date) &&
                                     Overlaps(slotStart, slotEnd, bookings[k].start, bookings[k].end);
            var c := CellStatus(bookings, venue, room, date, slotStart, slotEnd, today, nowMin);
            (c == Booked <==> taken) &&
            (c == Past <==> !taken && date == today && slotEnd <= nowMin) &&
            (c == Available <==> !taken && !(date == today && slotEnd <= nowMin))
  {
    SlotTakenIff(bookings, venue, room, date, slotStart, slotEnd);
  }

  /**
   * Bookings of other venues, rooms or dates never change a cell: the cell
   * reads the same from the bookings of its own venue, room and date alone.
   */
  lemma {:induction false} OnlySameCellCounts(bookings: seq<Booking>, venue: string, room: string, date: int,
                                              slotStart: nat, slotEnd: nat)
    ensures SlotTaken(bookings, venue, room, date, slotStart, slotEnd) ==
            SlotTaken(Filter(bookings, b => SameCell(b, venue, room, date)), venue, room, date, slotStart, slotEnd)
    decreases |bookings|
  {
    if |bookings| > 0 {
      OnlySameCellCounts(bookings[1..], venue, room, date, slotStart, slotEnd);
      var rest := Filter(bookings[1..], b => SameCell(b, venue, room, date));
      if SameCell(bookings[0], venue, room, date) {
        assert ([bookings[0]] + rest)[1..] == rest;
      }
    }
  }

  /** Hence adding a booking of another venue, room or date leaves every cell as it was. */
  lemma OtherBookingIgnored(bookings: seq<Booking>, b: Booking, venue: string, room: string, date: int,
                            slotStart: nat, slotEnd: nat, today: int, nowMin: nat)
    requires !SameCell(b, venue, room, date)
    ensures CellStatus(bookings + [b], venue, room, date, slotStart, slotEnd, today, nowMin) ==
            CellStatus(bookings, venue, room, date, slotStart, slotEnd, today, nowMin)
  {
    var p := (x: Booking) => SameCell(x, venue, room, date);
    OnlySameCellCounts(bookings + [b], venue, room, date, slotStart, slotEnd);
    OnlySameCellCounts(bookings, venue, room, date, slotStart, slotEnd);
    FilterConcat(bookings, [b], p);
    assert Filter([b], p) == [];
    assert bookings + [b] != [] && Filter(bookings, p) + [] == Filter(bookings, p);
  }

  /** A booking that only touches the slot's boundary leaves the cell free of it. */
  lemma TouchingStaysFree(b: Booking, venue: string, room: string, date: int,
                          slotStart: nat, slotEnd: nat, today: int, nowMin: nat)
    requires SameCell(b, venue, room, date)
    requires b.end == slotStart || b.start == slotEnd
    requires date != today
    ensures CellStatus([b], venue, room, date, slotStart, slotEnd, today, nowMin) == Available
  {
    assert [b][1..] == [];
    assert !SlotTaken([], venue, room, date, slotStart, slotEnd);
    assert !Overlaps(slotStart, slotEnd, b.start, b.end);
  }
}
