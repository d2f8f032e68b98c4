/**
 * A row of the bookings table and the visibility rule every booking view
 * uses: a user sees a booking when they own it or are listed as a member,
 * by student id or by name.
 */
module RoomHelpers {
  import opened Text

  /** A booking's date as stored: a day number, or text that is not a date. */
  datatype DateText = Date(day: int) | Unparseable(text: string)

  /**
   * A row of the bookings table. Times are minutes since midnight; the
   * table stores them as the labels `BookRoom.TimeLabel` prints.
   */
  datatype Booking = Booking(
    venue: string,
    room: string,
    date: DateText,
    start: nat,
    end: nat,
    pax: string,
    ownerId: string,
    ownerName: string,
    members: string)

  /**
   * Two half-open intervals `[s1, e1)` and `[s2, e2)` overlap, written as
   * the application writes it: neither ends before the other starts.
   */
  predicate Overlaps(s1: int, e1: int, s2: int, e2: int) {
    !(e1 <= s2 || s1 >= e2)
  }

  /** A CSV table of bookings; a missing file is the empty table. */
  class Table {
    var rows: seq<Booking>

    constructor (initial: seq<Booking>)
      ensures rows == initial
    {
      rows := initial;
    }
  }

  /** The owner test: name without case, or id exactly (both trimmed). */
  predicate OwnerMatches(b: Booking, user: string) {
    Upper(Strip(b.ownerName)) == Upper(Strip(user)) || Strip(b.ownerId) == Strip(user)
  }

  /** One `;`-separated segment of the members text, split at its first `|`. */
  predicate SegmentMatches(segment: string, user: string) {
    var m := Strip(segment);
    m != "" &&
    var (sid, _, name) := Partition(m, '|');
    Strip(sid) == Strip(user) || Upper(Strip(name)) == Upper(Strip(user))
  }

  /** The early-return search over the member segments. */
  predicate AnySegmentMatches(segments: seq<string>, user: string) {
    |segments| > 0 && (SegmentMatches(segments[0], user) || AnySegmentMatches(segments[1..], user))
  }

  /** The trimmed members text split on `;`. */
  function Segments(b: Booking): (segments: seq<string>)
    ensures |segments| > 0
  {
    SplitChar(Strip(b.members), ';')
  }

  /** `user_in_booking(b, user)` */
  predicate UserInBooking(b: Booking, user: string) {
    OwnerMatches(b, user) || AnySegmentMatches(Segments(b), user)
  }

  /** The segment search finds a match exactly when some segment matches. */
  lemma {:induction false} AnySegmentMatchesExists(segments: seq<string>, user: string)
    ensures AnySegmentMatches(segments, user) <==>
            exists k :: 0 <= k < |segments| && SegmentMatches(segments[k], user)
    decreases |segments|
  {
    if |segments| > 0 {
      AnySegmentMatchesExists(segments[1..], user);
      if !SegmentMatches(segments[0], user) {
        forall k | 1 <= k < |segments| && SegmentMatches(segments[k], user)
          ensures exists j :: 0 <= j < |segments[1..]| && SegmentMatches(segments[1..][j], user)
        {
          assert segments[1..][k - 1] == segments[k];
        }
      }
    }
  }

  /**
   * A user sees a booking exactly when the owner matches or some segment of
   * the trimmed members text, split on `;`, matches.
   */
  lemma UserInBookingIff(b: Booking, user: string)
    ensures UserInBooking(b, user) <==>
            OwnerMatches(b, user) ||
            exists k :: 0 <= k < |Segments(b)| && SegmentMatches(Segments(b)[k], user)
  {
    AnySegmentMatchesExists(Segments(b), user);
  }

  /** The owner id is compared exactly: ids that differ only in case do not match. */
  lemma OwnerIdCaseSensitive()
    ensures !OwnerMatches(Booking("V", "R", Date(0), 480, 510, "1", "ab", "", ""), "AB")
  {
    StripNoSpace("ab");
    StripNoSpace("AB");
    assert |Upper(Strip("AB"))| == 2;
    assert "ab"[0] != "AB"[0];
  }

  /** A segment without `|` is an id with an empty name. */
  lemma {:induction false} SegmentWithoutBar(segment: string, user: string)
    requires Strip(segment) != "" && '|' !in Strip(segment)
    ensures SegmentMatches(segment, user) <==>
            Strip(Strip(segment)) == Strip(user) || Upper(Strip(user)) == ""
  {
    var m := Strip(segment);
    var (sid, sep, name) := Partition(m, '|');
    assert IndexOf(m, '|') == |m|;
    assert sid == m && name == "";
    assert Upper("") == "";
  }
}
