/**
 * The "My Upcoming Bookings" page: which rows it lists, who may cancel
 * them, and the move of a cancelled booking from the active table to the
 * cancelled table.
 */
module UpcomingBookings {
  import opened Seqs
  import opened RoomHelpers
  import BookRoom

  /**
   * The key `move_to_cancelled` matches rows on: venue, room, date, start,
   * end and owner id (pax, owner name and members play no part).
   */
  predicate SameKey(r: Booking, b: Booking) {
    r.venue == b.venue && r.room == b.room && r.date == b.date &&
    r.start == b.start && r.end == b.end && r.ownerId == b.ownerId
  }

  /** The active table without the rows that carry `b`'s key. */
  function WithoutKey(rows: seq<Booking>, b: Booking): (rest: seq<Booking>)
    ensures forall k :: 0 <= k < |rest| ==> rest[k] in rows && !SameKey(rest[k], b)
    ensures forall k :: 0 <= k < |rows| && !SameKey(rows[k], b) ==> rows[k] in rest
  {
    Filter(rows, r => !SameKey(r, b))
  }

  /**
   * `move_to_cancelled(b)`: append `b` to the cancelled table, then rewrite
   * the active table without every row that has `b`'s key, the others in
   * their order. A missing file is the empty table.
   */
  method MoveToCancelled(active: Table, cancelled: Table, b: Booking)
    requires active != cancelled
    modifies active, cancelled
    ensures cancelled.rows == old(cancelled.rows) + [b]
    ensures active.rows == WithoutKey(old(active.rows), b)
  {
    cancelled.rows := cancelled.rows + [b];
    active.rows := Filter(active.rows, r => !SameKey(r, b));
  }

  /**
   * Only the key decides which rows a cancellation removes: two bookings
   * that differ in pax, owner name or members remove the same rows.
   */
  lemma KeyIgnoresDetails(rows: seq<Booking>, b: Booking, pax: string, ownerName: string, members: string)
    ensures WithoutKey(rows, b) == WithoutKey(rows, b.(pax := pax, ownerName := ownerName, members := members))
  {
    var c := b.(pax := pax, ownerName := ownerName, members := members);
    FilterSame(rows, r => !SameKey(r, b), r => !SameKey(r, c));
  }

  /** The cancelled booking itself, and every copy of its key, leaves the active table. */
  lemma CancelledRowLeaves(rows: seq<Booking>, b: Booking)
    ensures b !in WithoutKey(rows, b)
    ensures forall r :: r in WithoutKey(rows, b) ==> !SameKey(r, b)
    ensures |WithoutKey(rows, b)| <= |rows|
  {
  }

  /** A row dated after today, or today and ending after the current minute. */
  predicate IsUpcoming(b: Booking, today: int, nowMin: nat) {
    b.date.Date? && (b.date.day > today || (b.date.day == today && b.end > nowMin))
  }

  /** The bookings the page lists: upcoming rows the user takes part in, in file order. */
  function UpcomingView(table: seq<Booking>, user: string, today: int, nowMin: nat): (view: seq<Booking>)
    ensures forall k :: 0 <= k < |view| ==> view[k] in table
  {
    Filter(BookRoom.FetchUpcomingBookings(table, today),
           b => UserInBooking(b, user) && IsUpcoming(b, today, nowMin))
  }

  /**
   * The page lists exactly the rows the user takes part in that are
   * upcoming, in table order: the prefilter by date adds nothing.
   */
  lemma UpcomingViewIsFilter(table: seq<Booking>, user: string, today: int, nowMin: nat)
    ensures UpcomingView(table, user, today, nowMin) ==
            Filter(table, b => UserInBooking(b, user) && IsUpcoming(b, today, nowMin))
  {
    FilterImplied(table, b => BookRoom.DatedFrom(b, today),
                  b => UserInBooking(b, user) && IsUpcoming(b, today, nowMin));
  }

  /** Cancel is offered to the owner, by id or by name, and to nobody else. */
  predicate CanCancel(b: Booking, user: string) {
    OwnerMatches(b, user)
  }

  /** Whoever may cancel a booking also sees it. */
  lemma CanCancelSees(b: Booking, user: string)
    requires CanCancel(b, user)
    ensures UserInBooking(b, user)
  {
  }

  /**
   * The users who see a booking but get no cancel button are exactly those
   * a member segment names who do not match the owner.
   */
  lemma MemberCannotCancel(b: Booking, user: string)
    ensures (UserInBooking(b, user) && !CanCancel(b, user)) <==>
            (!OwnerMatches(b, user) && exists k :: 0 <= k < |Segments(b)| && SegmentMatches(Segments(b)[k], user))
  {
    AnySegmentMatchesExists(Segments(b), user);
  }

  /**
   * After the owner cancels a booking of theirs, no row with its key is
   * listed as upcoming any more.
   */
  lemma CancelledLeavesUpcoming(rows: seq<Booking>, b: Booking, user: string, today: int, nowMin: nat)
    ensures forall r :: r in UpcomingView(WithoutKey(rows, b), user, today, nowMin) ==> !SameKey(r, b)
  {
    forall r | r in UpcomingView(WithoutKey(rows, b), user, today, nowMin)
      ensures !SameKey(r, b)
    {
      var k :| 0 <= k < |UpcomingView(WithoutKey(rows, b), user, today, nowMin)| &&
               UpcomingView(WithoutKey(rows, b), user, today, nowMin)[k] == r;
    }
  }
}
