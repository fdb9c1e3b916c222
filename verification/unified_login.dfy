/** The shared login window of UnifiedTuitionSystem.java (LoginPanel): one
    form for all four roles. detectRole looks the credentials up in
    admin.txt, receptionist.txt, tutors.txt and students.txt, in that order;
    handleLogin opens the dashboard of the role found, or counts the failure
    and ends the program on the third. The files are the lists
    FileManager.readAllLines returns for them. */
module UnifiedLogin {
  import opened Wrappers
  import opened JavaText
  import opened Sequences
  import opened RecordStore

  datatype Role = Admin | Receptionist | Tutor | Student

  /** The four account files, as read. */
  datatype Accounts = Accounts(admins: Lines, receptionists: Lines, tutors: Lines, students: Lines)

  // ------------------------------------------------------------- matching

  /** A staff line (admin, receptionist or tutor) accepts the credentials when
      it has two or more ',' fields, the username and then the password. */
  predicate StaffAccepts(line: string, username: string, password: string) {
    var parts := Split(line, ",");
    |parts| >= 2 && parts[0] == username && parts[1] == password
  }

  /** A students.txt line accepts them when it has three or more ';' fields,
      the name or the student ID first or second, and the password third. */
  predicate StudentAccepts(line: string, username: string, password: string) {
    var parts := Split(line, ";");
    |parts| >= 3 && (parts[0] == username || parts[1] == username) && parts[2] == password
  }

  predicate InStaffFile(lines: Lines, username: string, password: string) {
    exists i :: 0 <= i < |lines| && StaffAccepts(lines[i], username, password)
  }

  predicate InStudentFile(lines: Lines, username: string, password: string) {
    exists i :: 0 <= i < |lines| && StudentAccepts(lines[i], username, password)
  }

  function StaffMatch(username: string, password: string): string -> bool {
    line => StaffAccepts(line, username, password)
  }

  function StudentMatch(username: string, password: string): string -> bool {
    line => StudentAccepts(line, username, password)
  }

  /** One of detectRole's staff loops: true at the first accepting line. */
  function StaffLoop(lines: Lines, username: string, password: string): (r: bool)
    ensures r <==> InStaffFile(lines, username, password)
  {
    var k := FirstIndex(lines, StaffMatch(username, password));
    assert k.Some? ==> StaffMatch(username, password)(lines[k.value]);
    assert forall i :: 0 <= i < |lines| ==>
             (StaffMatch(username, password)(lines[i]) <==> StaffAccepts(lines[i], username, password));
    k.Some?
  }

  /** The students.txt loop of detectRole. */
  function StudentLoop(lines: Lines, username: string, password: string): (r: bool)
    ensures r <==> InStudentFile(lines, username, password)
  {
    var k := FirstIndex(lines, StudentMatch(username, password));
    assert k.Some? ==> StudentMatch(username, password)(lines[k.value]);
    assert forall i :: 0 <= i < |lines| ==>
             (StudentMatch(username, password)(lines[i]) <==> StudentAccepts(lines[i], username, password));
    k.Some?
  }

  /** detectRole: the first file, in the order admin, receptionist, tutor,
      student, that has a line accepting the credentials names the role; None
      (null) when no file has one. */
  function DetectRole(a: Accounts, username: string, password: string): (r: Option<Role>)
    ensures r == Some(Admin) <==> InStaffFile(a.admins, username, password)
    ensures r == Some(Receptionist) <==>
              !InStaffFile(a.admins, username, password) && InStaffFile(a.receptionists, username, password)
    ensures r == Some(Tutor) <==>
              !InStaffFile(a.admins, username, password) && !InStaffFile(a.receptionists, username, password)
              && InStaffFile(a.tutors, username, password)
    ensures r == Some(Student) <==>
              !InStaffFile(a.admins, username, password) && !InStaffFile(a.receptionists, username, password)
              && !InStaffFile(a.tutors, username, password) && InStudentFile(a.students, username, password)
    ensures r.None? <==>
              !InStaffFile(a.admins, username, password) && !InStaffFile(a.receptionists, username, password)
              && !InStaffFile(a.tutors, username, password) && !InStudentFile(a.students, username, password)
  {
    if StaffLoop(a.admins, username, password) then Some(Admin)
    else if StaffLoop(a.receptionists, username, password) then Some(Receptionist)
    else if StaffLoop(a.tutors, username, password) then Some(Tutor)
    else if StudentLoop(a.students, username, password) then Some(Student)
    else None
  }

  /** A student may sign in with the name or the ID of the record. */
  lemma StudentSignsInEitherWay(a: Accounts, line: string)
    requires line in a.students && |Split(line, ";")| >= 3
    requires !InStaffFile(a.admins, Split(line, ";")[0], Split(line, ";")[2])
    requires !InStaffFile(a.receptionists, Split(line, ";")[0], Split(line, ";")[2])
    requires !InStaffFile(a.tutors, Split(line, ";")[0], Split(line, ";")[2])
    requires !InStaffFile(a.admins, Split(line, ";")[1], Split(line, ";")[2])
    requires !InStaffFile(a.receptionists, Split(line, ";")[1], Split(line, ";")[2])
    requires !InStaffFile(a.tutors, Split(line, ";")[1], Split(line, ";")[2])
    ensures DetectRole(a, Split(line, ";")[0], Split(line, ";")[2]) == Some(Student)
    ensures DetectRole(a, Split(line, ";")[1], Split(line, ";")[2]) == Some(Student)
  {
    var parts := Split(line, ";");
    var i :| 0 <= i < |a.students| && a.students[i] == line;
    assert StudentAccepts(a.students[i], parts[0], parts[2]);
    assert StudentAccepts(a.students[i], parts[1], parts[2]);
  }

  // ------------------------------------------------------------ the panel

  /** MAX_ATTEMPTS. */
  const MaxAttempts: nat := 3

  /** The login window, the dashboard it opened, or the program ended by
      System.exit after the last allowed failure. */
  datatype Panel =
    | Prompt(attempts: nat, message: string)   // loginAttempts and the message label
    | Opened(role: Role, username: string)
    | Exited

  const Start: Panel := Prompt(0, "")

  const AttemptsLeftPrefix := "Invalid credentials. Attempts left: "

  function AttemptsLeftText(left: nat): string {
    AttemptsLeftPrefix + NatToString(left)
  }

  /** The window is open and has not yet counted the last allowed failure. */
  predicate Inv(p: Panel) {
    p.Prompt? ==> p.attempts < MaxAttempts
  }

  /** handleLogin, for a press of the login button. Once the window is gone
      (a dashboard opened or the program ended) presses have no effect. */
  function HandleLogin(p: Panel, a: Accounts, username: string, password: string): (r: Panel)
    ensures !p.Prompt? ==> r == p
    ensures p.Prompt? ==> (r.Opened? <==> DetectRole(a, Trim(username), password).Some?)
    ensures p.Prompt? && r.Opened? ==> r.role == DetectRole(a, Trim(username), password).value && r.username == Trim(username)
    ensures r.Prompt? ==> p.Prompt? && r.attempts == p.attempts + 1 < MaxAttempts
                          && r.message == AttemptsLeftText(MaxAttempts - r.attempts)
    ensures p.Prompt? && r == Exited ==> p.attempts + 1 >= MaxAttempts
  {
    if !p.Prompt? then p
    else
      var u := Trim(username);
      match DetectRole(a, u, password)
      case Some(role) => Opened(role, u)
      case None =>
        var n := p.attempts + 1;
        if n >= MaxAttempts then Exited else Prompt(n, AttemptsLeftText(MaxAttempts - n))
  }

  lemma StartIsInv()
    ensures Inv(Start)
  {
  }

  /** Every press keeps the window below the limit. */
  lemma HandleLoginKeepsInv(p: Panel, a: Accounts, username: string, password: string)
    requires Inv(p)
    ensures Inv(HandleLogin(p, a, username, password))
  {
  }

  /** The number in the message is the count of failures still allowed. */
  lemma AttemptsLeftReadsBack(p: Panel, a: Accounts, username: string, password: string)
    requires HandleLogin(p, a, username, password).Prompt?
    ensures var r := HandleLogin(p, a, username, password);
            && StartsWith(r.message, AttemptsLeftPrefix)
            && ParseInteger(r.message[|AttemptsLeftPrefix|..]) == Some(MaxAttempts - r.attempts)
            && 0 < MaxAttempts - r.attempts < MaxAttempts
  {
    var r := HandleLogin(p, a, username, password);
    var left: nat := MaxAttempts - r.attempts;
    assert r.message == AttemptsLeftPrefix + NatToString(left);
    assert r.message[|AttemptsLeftPrefix|..] == NatToString(left);
    DigitsValueOfNatToString(left);
  }

  /** A press the files accept opens the dashboard whatever the failure count. */
  lemma SuccessOpensDashboard(attempts: nat, message: string, a: Accounts, username: string, password: string)
    requires DetectRole(a, Trim(username), password).Some?
    ensures HandleLogin(Prompt(attempts, message), a, username, password)
            == Opened(DetectRole(a, Trim(username), password).value, Trim(username))
  {
  }

  // --------------------------------------------------------- many presses

  datatype Press = Press(username: string, password: string)

  function Run(p: Panel, a: Accounts, presses: seq<Press>): Panel
    decreases |presses|
  {
    if |presses| == 0 then p
    else Run(HandleLogin(p, a, presses[0].username, presses[0].password), a, presses[1..])
  }

  predicate AllRefused(a: Accounts, presses: seq<Press>) {
    forall i :: 0 <= i < |presses| ==> DetectRole(a, Trim(presses[i].username), presses[i].password).None?
  }

  /** Once the window is gone nothing more happens. */
  lemma {:induction false} ClosedStaysClosed(p: Panel, a: Accounts, presses: seq<Press>)
    requires !p.Prompt?
    ensures Run(p, a, presses) == p
    decreases |presses|
  {
    if |presses| > 0 {
      ClosedStaysClosed(p, a, presses[1..]);
    }
  }

  /** A refused press counts one more failure. */
  lemma RefusedOnce(attempts: nat, message: string, a: Accounts, press: Press)
    requires attempts < MaxAttempts
    requires DetectRole(a, Trim(press.username), press.password).None?
    ensures var n := attempts + 1;
            HandleLogin(Prompt(attempts, message), a, press.username, press.password)
            == if n >= MaxAttempts then Exited else Prompt(n, AttemptsLeftText(MaxAttempts - n))
  {
  }

  /** Refused presses count up one at a time, and the program ends at the
      press that brings the count to MaxAttempts. */
  lemma {:induction false} RefusedPresses(attempts: nat, message: string, a: Accounts, presses: seq<Press>)
    requires attempts < MaxAttempts && |presses| >= 1 && AllRefused(a, presses)
    ensures var n := attempts + |presses|;
            Run(Prompt(attempts, message), a, presses)
            == if n >= MaxAttempts then Exited else Prompt(n, AttemptsLeftText(MaxAttempts - n))
    decreases |presses|
  {
    var p := Prompt(attempts, message);
    var next := HandleLogin(p, a, presses[0].username, presses[0].password);
    var rest := presses[1..];
    assert Run(p, a, presses) == Run(next, a, rest);
    RefusedOnce(attempts, message, a, presses[0]);
    if |rest| > 0 {
      assert AllRefused(a, rest) by {
        assert forall i :: 0 <= i < |rest| ==> rest[i] == presses[i + 1];
      }
      if next.Prompt? {
        RefusedPresses(next.attempts, next.message, a, rest);
      } else {
        ClosedStaysClosed(next, a, rest);
      }
    }
  }

  /** From a fresh window, three refused presses end the program and fewer do not. */
  lemma ThreeRefusalsExit(a: Accounts, presses: seq<Press>)
    requires AllRefused(a, presses)
    ensures Run(Start, a, presses) == Exited <==> |presses| >= MaxAttempts
  {
    if |presses| >= 1 {
      RefusedPresses(0, "", a, presses);
    }
  }
}
