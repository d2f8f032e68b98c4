/**
 * The static room catalogue: venues, their rooms, and for each room the
 * list of group sizes (`pax`) a booking may choose.
 */
module RoomsData {
  import opened Text
  import opened Wrappers

  datatype Room = Room(
    name: string,
    capacity: seq<nat>,
    equipment: seq<string>,
    location: string,
    description: string,
    venueType: string)

  datatype Venue = Venue(name: string, rooms: seq<Room>)

  /** `ROOMS`, in the catalogue's own order. */
  const ROOMS: seq<Venue> := [LIBRARY, CYBER_CENTER, FACULTY_BLOCK_A, FACULTY_BLOCK_B, STUDENT_HUB, RESEARCH_CENTER]

  const LIBRARY: Venue := Venue("Library", [
    Room("Discussion Room A", [6, 7, 8], ["Projector", "Whiteboard"],
         "Library, Level 1A", "Zone A", "Discussion Room"),
    Room("Discussion Room B", [4, 5, 6], ["Whiteboard"],
         "Library, Level 1B", "Zone A", "Discussion Room"),
    Room("Presentation Room", [10, 11, 12], ["LCD TV", "HDMI Input"],
         "Library, Level 2B", "Zone B", "Presentation Room"),
    Room("Individual Study Room", [1], ["Desk Lamp", "Power Socket"],
         "Library, Level 3C", "Quiet Study Area", "Study Room")])

  const CYBER_CENTER: Venue := Venue("Cyber Center", [
    Room("Computer Lab 1", [20, 21, 22, 23, 24, 25], ["Desktop PCs", "Projector", "Air Conditioning"],
         "Cyber Center, Level G", "Lab with 25 PCs", "Computer Lab"),
    Room("Computer Lab 2", [18, 19, 20, 21, 22], ["Desktop PCs", "Printer", "Projector"],
         "Cyber Center, Level 1", "General-purpose computer lab", "Computer Lab"),
    Room("E-Learning Discussion Room", [6, 7, 8], ["Smart TV", "HDMI Cable", "Whiteboard"],
         "Cyber Center, Level 2", "For online group discussions", "Discussion Room")])

  const FACULTY_BLOCK_A: Venue := Venue("Faculty Block A", [
    Room("Seminar Room 1", [30, 31, 32, 33, 34, 35, 36, 37, 38, 39, 40],
         ["Projector", "Sound System", "Air Conditioning"],
         "Block A, Level 1", "Used for faculty seminars", "Seminar Room"),
    Room("Meeting Room", [12, 13, 14, 15], ["Round Table", "Projector", "Video Conferencing"],
         "Block A, Level 2", "Small faculty meetings", "Meeting Room"),
    Room("Discussion Room C", [8, 9, 10], ["Whiteboard", "Power Socket"],
         "Block A, Level 3", "Student group projects", "Discussion Room")])

  const FACULTY_BLOCK_B: Venue := Venue("Faculty Block B", [
    Room("Discussion Room D", [5, 6, 7], ["Whiteboard"],
         "Block B, Level 2", "Small group discussions", "Discussion Room"),
    Room("Presentation Room 2", [15, 16, 17, 18, 19, 20], ["LCD TV", "HDMI Input", "Sound Bar"],
         "Block B, Level 3", "Formal presentation practices", "Presentation Room")])

  const STUDENT_HUB: Venue := Venue("Student Hub", [
    Room("Creative Discussion Room", [8, 9, 10, 11, 12], ["Whiteboard", "Notice Board"],
         "Student Hub, Level 1", "Brainstorming and creative sessions", "Discussion Room"),
    Room("Collaboration Pod", [4, 5, 6], ["Smart Screen", "USB-C/HDMI"],
         "Student Hub, Level 2", "Modern collaboration space", "Pod")])

  const RESEARCH_CENTER: Venue := Venue("Research Center", [
    Room("Research Discussion Room", [6, 7, 8, 9, 10], ["Whiteboard", "Conference Phone"],
         "Research Center, Level 1", "Used by research teams", "Discussion Room"),
    Room("Data Lab Room", [12, 13, 14, 15], ["Workstations", "Projector", "Whiteboard"],
         "Research Center, Level 2", "Data analysis and presentations", "Lab Room")])

  /** The capacity list is non-empty, starts at one or more and counts up by one. */
  predicate ConsecutiveCapacities(cap: seq<nat>) {
    |cap| > 0 && cap[0] >= 1 && forall i :: 0 <= i < |cap| ==> cap[i] == cap[0] + i
  }

  /** No two rooms of a venue share a name. */
  predicate UniqueRoomNames(rooms: seq<Room>) {
    forall i, j :: 0 <= i < j < |rooms| ==> rooms[i].name != rooms[j].name
  }

  predicate WellFormedVenue(v: Venue) {
    |v.rooms| > 0 && UniqueRoomNames(v.rooms) &&
    forall r :: r in v.rooms ==> ConsecutiveCapacities(r.capacity)
  }

  lemma LibraryWellFormed()
    ensures WellFormedVenue(LIBRARY)
  {
    var rs := LIBRARY.rooms;
    assert ConsecutiveCapacities(rs[0].capacity) && ConsecutiveCapacities(rs[1].capacity);
    assert ConsecutiveCapacities(rs[2].capacity) && ConsecutiveCapacities(rs[3].capacity);
    assert rs[0].name[16] != rs[1].name[16];
    assert rs[0].name[0] != rs[2].name[0] && rs[0].name[0] != rs[3].name[0];
    assert rs[1].name[0] != rs[2].name[0] && rs[1].name[0] != rs[3].name[0];
    assert rs[2].name[0] != rs[3].name[0];
  }

  lemma CyberCenterWellFormed()
    ensures WellFormedVenue(CYBER_CENTER)
  {
    var rs := CYBER_CENTER.rooms;
    assert ConsecutiveCapacities(rs[0].capacity) && ConsecutiveCapacities(rs[1].capacity);
    assert ConsecutiveCapacities(rs[2].capacity);
    assert rs[0].name[13] != rs[1].name[13];
    assert rs[0].name[0] != rs[2].name[0] && rs[1].name[0] != rs[2].name[0];
  }

  lemma FacultyBlockAWellFormed()
    ensures WellFormedVenue(FACULTY_BLOCK_A)
  {
    var rs := FACULTY_BLOCK_A.rooms;
    assert ConsecutiveCapacities(rs[0].capacity) && ConsecutiveCapacities(rs[1].capacity);
    assert ConsecutiveCapacities(rs[2].capacity);
    assert rs[0].name[0] != rs[1].name[0] && rs[0].name[0] != rs[2].name[0];
    assert rs[1].name[0] != rs[2].name[0];
  }

  lemma FacultyBlockBWellFormed()
    ensures WellFormedVenue(FACULTY_BLOCK_B)
  {
    var rs := FACULTY_BLOCK_B.rooms;
    assert ConsecutiveCapacities(rs[0].capacity) && ConsecutiveCapacities(rs[1].capacity);
    assert rs[0].name[0] != rs[1].name[0];
  }

  lemma StudentHubWellFormed()
    ensures WellFormedVenue(STUDENT_HUB)
  {
    var rs := STUDENT_HUB.rooms;
    assert ConsecutiveCapacities(rs[0].capacity) && ConsecutiveCapacities(rs[1].capacity);
    assert rs[0].name[1] != rs[1].name[1];
  }

  lemma ResearchCenterWellFormed()
    ensures WellFormedVenue(RESEARCH_CENTER)
  {
    var rs := RESEARCH_CENTER.rooms;
    assert ConsecutiveCapacities(rs[0].capacity) && ConsecutiveCapacities(rs[1].capacity);
    assert rs[0].name[0] != rs[1].name[0];
  }

  /** The catalogue lists the six venues in order. */
  lemma CatalogueVenues()
    ensures |ROOMS| == 6
    ensures ROOMS[0] == LIBRARY && ROOMS[1] == CYBER_CENTER && ROOMS[2] == FACULTY_BLOCK_A
    ensures ROOMS[3] == FACULTY_BLOCK_B && ROOMS[4] == STUDENT_HUB && ROOMS[5] == RESEARCH_CENTER
  {
  }

  /**
   * Every venue has rooms, room names are unique within a venue, and every
   * capacity list is a non-empty run of consecutive sizes (so the `min`/`max`
   * the room detail page shows exist and bound every choice).
   */
  lemma CatalogueWellFormed()
    ensures |ROOMS| == 6
    ensures forall i :: 0 <= i < |ROOMS| ==> WellFormedVenue(ROOMS[i])
  {
    CatalogueVenues();
    forall i | 0 <= i < |ROOMS|
      ensures WellFormedVenue(ROOMS[i])
    {
      if i == 0 {
        LibraryWellFormed();
      } else if i == 1 {
        CyberCenterWellFormed();
      } else if i == 2 {
        FacultyBlockAWellFormed();
      } else if i == 3 {
        FacultyBlockBWellFormed();
      } else if i == 4 {
        StudentHubWellFormed();
      } else {
        ResearchCenterWellFormed();
      }
    }
  }

  /** The first room of `venue` called `name`, as the booking page looks it up. */
  function FindRoom(venue: string, name: string): (r: Option<Room>)
    ensures r.Some? ==> exists v :: v in ROOMS && v.name == venue && r.value in v.rooms && r.value.name == name
    ensures r.None? ==> forall v :: v in ROOMS && v.name == venue ==> forall x :: x in v.rooms ==> x.name != name
  {
    FindIn(ROOMS, venue, name)
  }

  function FindIn(venues: seq<Venue>, venue: string, name: string): (r: Option<Room>)
    ensures r.Some? ==> exists v :: v in venues && v.name == venue && r.value in v.rooms && r.value.name == name
    ensures r.None? ==> forall v :: v in venues && v.name == venue ==> forall x :: x in v.rooms ==> x.name != name
  {
    if |venues| == 0 then None
    else if venues[0].name == venue then
      match FindRoomIn(venues[0].rooms, name)
      case Some(x) => Some(x)
      case None => FindIn(venues[1..], venue, name)
    else FindIn(venues[1..], venue, name)
  }

  function FindRoomIn(rooms: seq<Room>, name: string): (r: Option<Room>)
    ensures r.Some? ==> r.value in rooms && r.value.name == name
    ensures r.None? ==> forall x :: x in rooms ==> x.name != name
  {
    if |rooms| == 0 then None
    else if rooms[0].name == name then Some(rooms[0])
    else FindRoomIn(rooms[1..], name)
  }

  /** The `pax` combobox values for a room: its capacities as text. */
  function PaxChoices(r: Room): (choices: seq<string>)
    ensures |choices| == |r.capacity|
  {
    seq(|r.capacity|, i requires 0 <= i < |r.capacity| => NatToDec(r.capacity[i]))
  }

  /** Each choice is the decimal text of the capacity at the same position. */
  lemma PaxChoiceValue(r: Room, i: nat)
    requires i < |r.capacity|
    ensures IsDigits(PaxChoices(r)[i]) && DecValue(PaxChoices(r)[i]) == r.capacity[i]
  {
    NatToDecValue(r.capacity[i]);
  }

  /** How many member rows the page offers for the chosen `pax` text. */
  function MemberRowCount(pax: string): (n: nat)
    ensures IsDigits(pax) && DecValue(pax) >= 1 ==> n == DecValue(pax) - 1
    ensures !IsDigits(pax) || DecValue(pax) == 0 ==> n == 0
  {
    if IsDigits(pax) && DecValue(pax) > 1 then DecValue(pax) - 1 else 0
  }

  /**
   * A pax chosen for a room of the catalogue (whose capacities are
   * consecutive, by `CatalogueWellFormed`) lies between the room's smallest
   * and largest capacity, and the page offers `pax - 1` member rows for it.
   */
  lemma {:induction false} PaxChoiceBounds(r: Room, i: nat)
    requires ConsecutiveCapacities(r.capacity) && i < |PaxChoices(r)|
    ensures IsDigits(PaxChoices(r)[i]) &&
            r.capacity[0] <= DecValue(PaxChoices(r)[i]) <= r.capacity[|r.capacity| - 1]
    ensures MemberRowCount(PaxChoices(r)[i]) == r.capacity[i] - 1
  {
    PaxChoiceValue(r, i);
    assert r.capacity[|r.capacity| - 1] == r.capacity[0] + |r.capacity| - 1;
    assert r.capacity[i] == r.capacity[0] + i;
  }

  /** The individual study room only admits one person, so no member rows. */
  lemma IndividualStudyRoomHasNoMembers()
    ensures FindRoom("Library", "Individual Study Room").Some?
    ensures FindRoom("Library", "Individual Study Room").value.capacity == [1]
    ensures PaxChoices(FindRoom("Library", "Individual Study Room").value) == ["1"]
    ensures MemberRowCount("1") == 0
  {
    FindIndividualStudyRoom();
    OnlyOnePax(ROOMS[0].rooms[3]);
  }

  /** The booking page finds the individual study room as the library's fourth room. */
  lemma FindIndividualStudyRoom()
    ensures FindRoom("Library", "Individual Study Room") == Some(ROOMS[0].rooms[3])
    ensures ROOMS[0].rooms[3].capacity == [1]
  {
    var rs := LIBRARY.rooms;
    assert rs[0].name[0] != 'I' && rs[1].name[0] != 'I' && rs[2].name[0] != 'I';
    assert FindRoomIn(rs, "Individual Study Room") == Some(rs[3]);
  }

  /** A room for one person offers only "1" and no member rows. */
  lemma OnlyOnePax(r: Room)
    requires r.capacity == [1]
    ensures PaxChoices(r) == ["1"]
    ensures MemberRowCount("1") == 0
  {
    assert NatToDec(1) == "1";
  }
}
