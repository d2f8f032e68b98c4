/**
 * The "My Past Bookings" page: the rows of the active table the user takes
 * part in that have already ended. The page reads the whole active table
 * (a missing file is the empty table) and writes nothing.
 */
module PastBookings {
  import opened Wrappers
  import opened Seqs
  import opened RoomHelpers
  import UpcomingBookings

  /** A row dated before today, or today and ended at or before the current minute. */
  predicate IsPast(b: Booking, today: int, nowMin: nat) {
    b.date.Date? && (b.date.day < today || (b.date.day == today && b.end <= nowMin))
  }

  /**
   * The page's loop over the active table. Only rows the user takes part in
   * have their date parsed, and that parse has no fallback: `None` stands
   * for the page failing on a visible row whose date is not a date.
   */
  function PastView(table: seq<Booking>, user: string, today: int, nowMin: nat): (view: Option<seq<Booking>>)
    ensures view.Some? ==> |view.value| <= |table|
  {
    if |table| == 0 then Some([])
    else if !UserInBooking(table[0], user) then PastView(table[1..], user, today, nowMin)
    else if table[0].date.Unparseable? then None
    else
      match PastView(table[1..], user, today, nowMin)
      case None => None
      case Some(rest) => Some(if IsPast(table[0], today, nowMin) then [table[0]] + rest else rest)
  }

  /** Some row the user takes part in has a date that does not parse. */
  predicate HasBadVisibleDate(table: seq<Booking>, user: string) {
    exists k :: 0 <= k < |table| && UserInBooking(table[k], user) && table[k].date.Unparseable?
  }

  /**
   * The page fails exactly when a visible row has an unparseable date;
   * otherwise it lists exactly the visible past rows, in table order.
   */
  lemma {:induction false} PastViewSpec(table: seq<Booking>, user: string, today: int, nowMin: nat)
    ensures PastView(table, user, today, nowMin) ==
            if HasBadVisibleDate(table, user) then None
            else Some(Filter(table, b => UserInBooking(b, user) && IsPast(b, today, nowMin)))
    decreases |table|
  {
    if |table| > 0 {
      PastViewSpec(table[1..], user, today, nowMin);
      if HasBadVisibleDate(table[1..], user) {
        var k :| 0 <= k < |table[1..]| && UserInBooking(table[1..][k], user) && table[1..][k].date.Unparseable?;
        assert table[k + 1] == table[1..][k];
      }
      if HasBadVisibleDate(table, user) && !(UserInBooking(table[0], user) && table[0].date.Unparseable?) {
        var k :| 0 <= k < |table| && UserInBooking(table[k], user) && table[k].date.Unparseable?;
        assert k > 0 && table[1..][k - 1] == table[k];
      }
    }
  }

  /**
   * Every booking the user takes part in, with a date that parses, is
   * either past or upcoming and never both: the end-time tests of the two
   * pages are complementary.
   */
  lemma PastOrUpcoming(b: Booking, today: int, nowMin: nat)
    requires b.date.Date?
    ensures IsPast(b, today, nowMin) != UpcomingBookings.IsUpcoming(b, today, nowMin)
  {
  }

  /**
   * When the past page shows, it and the upcoming page together list every
   * row of the active table the user takes part in, each exactly once.
   */
  lemma PastAndUpcomingSplitVisible(table: seq<Booking>, user: string, today: int, nowMin: nat)
    requires PastView(table, user, today, nowMin).Some?
    ensures multiset(PastView(table, user, today, nowMin).value) +
            multiset(UpcomingBookings.UpcomingView(table, user, today, nowMin)) ==
            multiset(Filter(table, b => UserInBooking(b, user)))
  {
    PastViewSpec(table, user, today, nowMin);
    UpcomingBookings.UpcomingViewIsFilter(table, user, today, nowMin);
    forall k | 0 <= k < |table| && UserInBooking(table[k], user)
      ensures table[k].date.Date?
    {
    }
    FilterPartition(table, b => UserInBooking(b, user),
                    b => UserInBooking(b, user) && IsPast(b, today, nowMin),
                    b => UserInBooking(b, user) && UpcomingBookings.IsUpcoming(b, today, nowMin));
  }

  /** A booking that has ended is never listed as upcoming, and an upcoming one never as past. */
  lemma EndedLeavesUpcoming(table: seq<Booking>, user: string, today: int, nowMin: nat, b: Booking)
    requires PastView(table, user, today, nowMin).Some?
    requires b in PastView(table, user, today, nowMin).value
    ensures b in table && UserInBooking(b, user)
    ensures b !in UpcomingBookings.UpcomingView(table, user, today, nowMin)
  {
    PastViewSpec(table, user, today, nowMin);
    UpcomingBookings.UpcomingViewIsFilter(table, user, today, nowMin);
    assert IsPast(b, today, nowMin);
  }
}
