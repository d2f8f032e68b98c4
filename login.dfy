/**
 * The login screen: the users file (one `id,username,password` line per
 * user, or `username,password` in the old format), student id
 * assignment, registration and login.
 */
module Login {
  import opened Wrappers
  import opened Text
  import Seqs

  /** One entry of the users file. */
  datatype User = User(id: string, name: string, password: string)

  /** The id a user written in the old two-field format is read with. */
  const LegacyId: string := "0000000"

  /** The id of the first user when no entry has a numeric id. */
  const FirstId: string := "1000001"

  // ---------------------------------------------------------------------------
  // read_users

  /** One line of the users file: three fields, two fields, or dropped. */
  function ParseUser(line: string): Option<User> {
    var parts := SplitChar(Strip(line), ',');
    if |parts| == 3 then Some(User(parts[0], parts[1], parts[2]))
    else if |parts| == 2 then Some(User(LegacyId, parts[0], parts[1]))
    else None
  }

  /** `read_users()`: the parsed lines in file order. */
  function ReadUsers(lines: seq<string>): (users: seq<User>)
    ensures |users| <= |lines|
  {
    if |lines| == 0 then []
    else
      var rest := ReadUsers(lines[..|lines| - 1]);
      match ParseUser(lines[|lines| - 1])
      case None => rest
      case Some(u) => rest + [u]
  }

  /** Appending a line appends its user, if it parses, and nothing else. */
  lemma ReadUsersAppend(lines: seq<string>, line: string)
    ensures ReadUsers(lines + [line]) ==
            ReadUsers(lines) + (if ParseUser(line).Some? then [ParseUser(line).value] else [])
  {
    assert (lines + [line])[..|lines|] == lines;
  }

  /** The line `write_user` writes. */
  function UserLine(id: string, name: string, password: string): string {
    id + "," + name + "," + password
  }

  /** Text that `strip()` leaves alone and that holds no comma. */
  predicate PlainField(s: string) {
    s != [] && ',' !in s && !IsSpace(s[0]) && !IsSpace(s[|s| - 1])
  }

  /**
   * A written line reads back as the user it was written for, when the
   * three fields are comma-free and the line has no surrounding space.
   */
  lemma ParseUserLine(id: string, name: string, password: string)
    requires PlainField(id) && ',' !in name && PlainField(password)
    ensures ParseUser(UserLine(id, name, password)) == Some(User(id, name, password))
  {
    var line := UserLine(id, name, password);
    StripTrimmed(line);
    assert line == id + [','] + (name + [','] + password);
    SplitCharCons(id, name + [','] + password, ',');
    SplitCharPair(name, password, ',');
  }

  /** An old-format line reads back with the legacy id. */
  lemma ParseLegacyLine(name: string, password: string)
    requires PlainField(name) && PlainField(password)
    ensures ParseUser(name + "," + password) == Some(User(LegacyId, name, password))
  {
    StripTrimmed(name + "," + password);
    SplitCharPair(name, password, ',');
  }

  /** A line with three or more commas is dropped. */
  lemma ParseUserDropsLongLine(a: string, b: string, c: string, rest: string)
    requires ',' !in a && ',' !in b && ',' !in c
    requires Strip(a + "," + b + "," + c + "," + rest) == a + "," + b + "," + c + "," + rest
    ensures ParseUser(a + "," + b + "," + c + "," + rest) == None
  {
    var line := a + "," + b + "," + c + "," + rest;
    assert line == a + [','] + (b + [','] + (c + [','] + rest));
    SplitCharCons(a, b + [','] + (c + [','] + rest), ',');
    SplitCharCons(b, c + [','] + rest, ',');
    SplitCharCons(c, rest, ',');
  }

  // ---------------------------------------------------------------------------
  // generate_student_id

  /** The values of the ids that are all digits, in file order. */
  function NumericIds(users: seq<User>): (ids: seq<int>)
    ensures forall k :: 0 <= k < |ids| ==> ids[k] >= 0
    ensures forall k :: 0 <= k < |users| && IsDigits(users[k].id) ==> DecValue(users[k].id) in ids
    ensures |ids| == 0 <==> forall k :: 0 <= k < |users| ==> !IsDigits(users[k].id)
  {
    if |users| == 0 then []
    else (if IsDigits(users[0].id) then [DecValue(users[0].id) as int] else []) + NumericIds(users[1..])
  }

  /**
   * `generate_student_id()`: "1000001" when no id is numeric, else one
   * more than the largest numeric id, zero-padded to seven digits.
   */
  function GenerateStudentId(users: seq<User>): string {
    var ids := NumericIds(users);
    if |ids| == 0 then FirstId else ZFill(NatToDec(Seqs.Max(ids) + 1), 7)
  }

  /**
   * The new id is at least seven digits long and denotes a number above
   * every numeric id in the file, so it differs from every existing id.
   */
  lemma GenerateStudentIdFresh(users: seq<User>)
    ensures var id := GenerateStudentId(users);
            IsDigits(id) && |id| >= 7 &&
            (forall k :: 0 <= k < |users| && IsDigits(users[k].id) ==> DecValue(users[k].id) < DecValue(id)) &&
            (forall k :: 0 <= k < |users| ==> users[k].id != id)
    ensures (forall k :: 0 <= k < |users| ==> !IsDigits(users[k].id)) ==> GenerateStudentId(users) == FirstId
  {
    var ids := NumericIds(users);
    var id := GenerateStudentId(users);
    if |ids| == 0 {
      assert IsDigits(FirstId);
    } else {
      var m := Seqs.Max(ids);
      NatToDecValue(m + 1);
      ZFillValue(NatToDec(m + 1), 7);
      forall k | 0 <= k < |users| && IsDigits(users[k].id)
        ensures DecValue(users[k].id) < DecValue(id)
      {
        var j :| 0 <= j < |ids| && ids[j] == DecValue(users[k].id);
      }
    }
  }

  /** A legacy id counts as 0: a file of old-format users gets "0000001" next. */
  lemma LegacyIdCountsAsZero(name: string, password: string)
    ensures GenerateStudentId([User(LegacyId, name, password)]) == "0000001"
  {
    var users := [User(LegacyId, name, password)];
    assert IsDigits(LegacyId);
    ZerosValue(LegacyId);
    assert NumericIds(users[1..]) == [];
    assert NumericIds(users) == [0];
    assert NatToDec(1) == "1";
    assert seq(6, _ => '0') == "000000";
  }

  // ---------------------------------------------------------------------------
  // register_user and login_user

  datatype RegisterError = EmptyField | NameTaken | CommaInField

  predicate NameInUse(users: seq<User>, name: string) {
    exists k :: 0 <= k < |users| && users[k].name == name
  }

  /**
   * The checks `register_user` makes on the trimmed inputs, in order:
   * a blank field, then a username already in the file.
   */
  function RegisterCheckAsWritten(users: seq<User>, name: string, password: string): Option<RegisterError> {
    if name == "" || password == "" then Some(EmptyField)
    else if NameInUse(users, name) then Some(NameTaken)
    else None
  }

  /**
   * The same checks, and also a comma in either field, which would make
   * the written line unreadable.
   */
  function RegisterCheck(users: seq<User>, name: string, password: string): (e: Option<RegisterError>)
    ensures e.None? ==> RegisterCheckAsWritten(users, name, password).None?
    ensures RegisterCheckAsWritten(users, name, password).Some? ==> e == RegisterCheckAsWritten(users, name, password)
  {
    match RegisterCheckAsWritten(users, name, password)
    case Some(err) => Some(err)
    case None => if ',' in name || ',' in password then Some(CommaInField) else None
  }

  /** The first user whose username and password both match exactly. */
  function FirstMatch(users: seq<User>, name: string, password: string): Option<User> {
    if |users| == 0 then None
    else if users[0].name == name && users[0].password == password then Some(users[0])
    else FirstMatch(users[1..], name, password)
  }

  /** Login succeeds exactly when some entry matches, and uses the first one. */
  lemma {:induction false} FirstMatchSpec(users: seq<User>, name: string, password: string)
    ensures FirstMatch(users, name, password).None? <==>
            forall k :: 0 <= k < |users| ==> !(users[k].name == name && users[k].password == password)
    ensures FirstMatch(users, name, password).Some? ==>
            exists k :: 0 <= k < |users| && users[k] == FirstMatch(users, name, password).value &&
                        users[k].name == name && users[k].password == password &&
                        forall j :: 0 <= j < k ==> !(users[j].name == name && users[j].password == password)
    decreases |users|
  {
    if |users| > 0 && !(users[0].name == name && users[0].password == password) {
      FirstMatchSpec(users[1..], name, password);
      if FirstMatch(users, name, password).Some? {
        var k :| 0 <= k < |users[1..]| && users[1..][k] == FirstMatch(users, name, password).value &&
                 users[1..][k].name == name && users[1..][k].password == password &&
                 forall j :: 0 <= j < k ==> !(users[1..][j].name == name && users[1..][j].password == password);
        assert users[k + 1] == users[1..][k];
        forall j | 0 <= j < k + 1
          ensures !(users[j].name == name && users[j].password == password)
        {
          if j > 0 {
            assert users[j] == users[1..][j - 1];
          }
        }
      }
    } else if |users| > 0 {
      assert users[0] == FirstMatch(users, name, password).value;
    }
  }

  /** Matching ignores entries past the first match. */
  lemma {:induction false} FirstMatchAppend(users: seq<User>, more: seq<User>, name: string, password: string)
    requires FirstMatch(users, name, password).None?
    ensures FirstMatch(users + more, name, password) == FirstMatch(more, name, password)
    decreases |users|
  {
    if |users| > 0 {
      assert (users + more)[1..] == users[1..] + more;
      FirstMatchAppend(users[1..], more, name, password);
    } else {
      assert users + more == more;
    }
  }

  /**
   * After a registration that passes the checks, the file reads back as
   * before plus the new user, who is the only one with that username, and
   * logging in with the same inputs finds that user.
   */
  lemma RegisteredCanLogIn(lines: seq<string>, nameInput: string, passwordInput: string)
    requires RegisterCheck(ReadUsers(lines), Strip(nameInput), Strip(passwordInput)).None?
    ensures var users := ReadUsers(lines);
            var u := User(GenerateStudentId(users), Strip(nameInput), Strip(passwordInput));
            var after := ReadUsers(lines + [UserLine(u.id, u.name, u.password)]);
            after == users + [u] &&
            FirstMatch(after, Strip(nameInput), Strip(passwordInput)) == Some(u)
  {
    var users := ReadUsers(lines);
    var name, password := Strip(nameInput), Strip(passwordInput);
    var id := GenerateStudentId(users);
    RegisteredLineParses(users, nameInput, passwordInput);
    ReadUsersAppend(lines, UserLine(id, name, password));
    FirstMatchSpec(users, name, password);
    FirstMatchAppend(users, [User(id, name, password)], name, password);
  }

  /** The line a passing registration writes reads back as the new user. */
  lemma RegisteredLineParses(users: seq<User>, nameInput: string, passwordInput: string)
    requires RegisterCheck(users, Strip(nameInput), Strip(passwordInput)).None?
    ensures var id := GenerateStudentId(users);
            ParseUser(UserLine(id, Strip(nameInput), Strip(passwordInput))) ==
            Some(User(id, Strip(nameInput), Strip(passwordInput)))
  {
    var id := GenerateStudentId(users);
    GenerateStudentIdFresh(users);
    StripShape(nameInput);
    StripShape(passwordInput);
    assert IsDigit(id[0]) && IsDigit(id[|id| - 1]);
    assert forall k :: 0 <= k < |id| ==> id[k] != ',';
    ParseUserLine(id, Strip(nameInput), Strip(passwordInput));
  }

  /**
   * With the checks as written, a username holding a comma is accepted,
   * but its line splits into four fields and is dropped when read back:
   * the new user can never log in.
   */
  lemma CommaNameIsLost()
    ensures RegisterCheckAsWritten([], "a,b", "c").None?
    ensures GenerateStudentId([]) == FirstId
    ensures ReadUsers([UserLine(FirstId, "a,b", "c")]) == []
    ensures FirstMatch(ReadUsers([UserLine(FirstId, "a,b", "c")]), "a,b", "c").None?
  {
    var line := UserLine(FirstId, "a,b", "c");
    assert line == FirstId + "," + "a" + "," + "b" + "," + "c";
    StripTrimmed(line);
    assert ',' !in FirstId;
    ParseUserDropsLongLine(FirstId, "a", "b", "c");
    assert [line][..0] == [];
  }

  /** The corrected checks turn the same registration away. */
  lemma CommaNameRejected()
    ensures RegisterCheck([], "a,b", "c") == Some(CommaInField)
  {
    assert "a,b"[1] == ',';
  }

  /**
   * The users file and the signed-in user (`current_user`).
   */
  class UserFile {
    var lines: seq<string>
    var currentUser: string

    constructor (initial: seq<string>)
      ensures lines == initial && currentUser == ""
    {
      lines := initial;
      currentUser := "";
    }

    /** `write_user`: append one line with a newly generated id and return that id. */
    method WriteUser(name: string, password: string) returns (id: string)
      modifies this
      ensures id == GenerateStudentId(ReadUsers(old(lines)))
      ensures lines == old(lines) + [UserLine(id, name, password)]
      ensures currentUser == old(currentUser)
    {
      id := GenerateStudentId(ReadUsers(lines));
      lines := lines + [UserLine(id, name, password)];
    }

    /**
     * `register_user` on the raw entry texts, with the corrected checks
     * (`RegisterCheck`, which also refuses a comma in either field): trim
     * both, run the checks, and write the user only when they pass.
     */
    method Register(nameInput: string, passwordInput: string) returns (r: Result<string, RegisterError>)
      modifies this
      ensures var e := RegisterCheck(ReadUsers(old(lines)), Strip(nameInput), Strip(passwordInput));
              (e.Some? <==> r.Err?) && (e.Some? ==> r == Err(e.value))
      ensures r.Err? ==> lines == old(lines)
      ensures r.Ok? ==> r.value == GenerateStudentId(ReadUsers(old(lines))) &&
                        lines == old(lines) + [UserLine(r.value, Strip(nameInput), Strip(passwordInput))]
      ensures currentUser == old(currentUser)
    {
      var name := Strip(nameInput);
      var password := Strip(passwordInput);
      var check := RegisterCheck(ReadUsers(lines), name, password);
      if check.Some? {
        return Err(check.value);
      }
      var id := WriteUser(name, password);
      return Ok(id);
    }

    /**
     * `login_user`: scan the users in file order and sign in with the
     * first whose username and password equal the trimmed inputs.
     */
    method LogIn(nameInput: string, passwordInput: string) returns (r: Option<User>)
      modifies this
      ensures r == FirstMatch(ReadUsers(lines), Strip(nameInput), Strip(passwordInput))
      ensures r.Some? ==> currentUser == Strip(nameInput)
      ensures r.None? ==> currentUser == old(currentUser)
      ensures lines == old(lines)
    {
      var name := Strip(nameInput);
      var password := Strip(passwordInput);
      var users := ReadUsers(lines);
      var i := 0;
      while i < |users|
        invariant 0 <= i <= |users|
        invariant FirstMatch(users, name, password) == FirstMatch(users[i..], name, password)
      {
        if users[i].name == name && users[i].password == password {
          currentUser := name;
          return Some(users[i]);
        }
        assert users[i..][1..] == users[i + 1..];
        i := i + 1;
      }
      return None;
    }
  }
}
