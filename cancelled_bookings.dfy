/**
 * The "My Cancelled Bookings" page: the rows of the cancelled table the
 * user takes part in. The page reads the whole cancelled table (a missing
 * file is the empty table), applies no date or time test and writes nothing.
 */
module CancelledBookings {
  import opened Seqs
  import opened RoomHelpers
  import UpcomingBookings

  /** The page's comprehension over the cancelled table. */
  function CancelledView(cancelled: seq<Booking>, user: string): (view: seq<Booking>)
    ensures |view| <= |cancelled|
  {
    Filter(cancelled, b => UserInBooking(b, user))
  }

  /** A cancelled row is listed exactly when the user takes part in it. */
  lemma CancelledViewIff(cancelled: seq<Booking>, user: string, b: Booking)
    ensures b in CancelledView(cancelled, user) <==> b in cancelled && UserInBooking(b, user)
  {
    if b in cancelled && UserInBooking(b, user) {
      var k :| 0 <= k < |cancelled| && cancelled[k] == b;
    }
  }

  /**
   * A new cancelled row is listed after the ones already there, for every
   * user it concerns, and the rows already listed stay listed.
   */
  lemma CancelledViewAppend(cancelled: seq<Booking>, user: string, b: Booking)
    ensures CancelledView(cancelled + [b], user) ==
            CancelledView(cancelled, user) + (if UserInBooking(b, user) then [b] else [])
  {
    FilterConcat(cancelled, [b], b => UserInBooking(b, user));
  }

  /**
   * The owner who cancels a booking finds it on this page: cancel is only
   * offered to users who see the booking, and the move appends it to the
   * cancelled table.
   */
  lemma CancellerSeesCancelled(cancelled: seq<Booking>, user: string, b: Booking)
    requires UpcomingBookings.CanCancel(b, user)
    ensures CancelledView(cancelled + [b], user) == CancelledView(cancelled, user) + [b]
  {
    UpcomingBookings.CanCancelSees(b, user);
    CancelledViewAppend(cancelled, user, b);
  }
}
