/** The receptionist's student records in UnifiedTuitionSystem.java:
    registration, enrollment update, payment and deletion over students.txt,
    whose lines are name;id;ic;contact;address;level;subjects;balance;month.
    The handlers work on the list FileManager.readAllLines returns; the clock
    (System.currentTimeMillis) and the double parser and printer are
    parameters. */
module StudentRecords {
  import opened Wrappers
  import opened JavaText
  import opened Sequences
  import opened RecordStore

  /** The registration form as typed; level comes from a combo box. */
  datatype StudentForm = StudentForm(
    name: string, ic: string, contact: string, address: string,
    level: string, subjects: string, month: string)

  const MaxSubjects: nat := 3

  /** subjects.split(",").length. */
  function SubjectCount(subjects: string): nat {
    |Split(subjects, ",")|
  }

  // ------------------------------------------------------------ lookup

  /** A line of at least eight ';' fields whose second is the ID: the records
      the update and payment handlers act on. */
  predicate IsRecordOf(line: string, id: string) {
    var parts := Split(line, ";");
    |parts| >= 8 && parts[1] == id
  }

  function RecordOf(id: string): string -> bool {
    line => IsRecordOf(line, id)
  }

  /** Index of the first record of this student. */
  function FindStudent(lines: Lines, id: string): (r: Option<nat>)
    ensures r.None? <==> forall i :: 0 <= i < |lines| ==> !IsRecordOf(lines[i], id)
    ensures r.Some? ==> r.value < |lines| && IsRecordOf(lines[r.value], id)
    ensures r.Some? ==> forall i :: 0 <= i < r.value ==> !IsRecordOf(lines[i], id)
  {
    var k := FirstIndex(lines, RecordOf(id));
    assert k.Some? ==> RecordOf(id)(lines[k.value]);
    assert forall i :: 0 <= i < |lines| ==> (RecordOf(id)(lines[i]) <==> IsRecordOf(lines[i], id));
    k
  }

  /** parts[j] = v; String.join(";", parts). */
  function EditField(line: string, j: nat, v: string): string
    requires j < |Split(line, ";")|
  {
    Join([';'], Split(line, ";")[j := v])
  }

  /** An edited line reads back as the prior fields with field j replaced,
      provided the new value is non-empty and free of ';'. */
  lemma EditFieldReadsBack(line: string, j: nat, v: string)
    requires j < |Split(line, ";")|
    requires ';' !in v && v != ""
    ensures Split(EditField(line, j, v), ";") == Split(line, ";")[j := v]
  {
    SplitIsWellFormed(line, ';');
    SplitAfterFieldEdit(Split(line, ";"), ';', j, v);
  }

  /** Editing a field other than the ID of a record leaves it the record of
      the same student. */
  lemma EditKeepsRecord(line: string, id: string, j: nat, v: string)
    requires IsRecordOf(line, id) && j != 1 && j < |Split(line, ";")|
    requires ';' !in v && v != ""
    ensures IsRecordOf(EditField(line, j, v), id)
  {
    EditFieldReadsBack(line, j, v);
  }

  /** Replacing line k by another record of the same student: the first record
      of the student is still at k. */
  lemma FindAfterEdit(lines: Lines, id: string, k: nat, line: string)
    requires FindStudent(lines, id) == Some(k)
    requires IsRecordOf(line, id)
    ensures FindStudent(lines[k := line], id) == Some(k)
  {
    var edited := lines[k := line];
    assert forall i :: 0 <= i < k ==> edited[i] == lines[i];
    assert IsRecordOf(edited[k], id);
  }

  // ------------------------------------------------------- registration

  function StudentId(millis: nat): string {
    "S" + NatToString(millis % 100000)
  }

  /** The ID is "S" and a number below 100000 that is the clock reading's last
      five decimal digits, so two registrations 100 seconds apart get the same ID. */
  lemma StudentIdMeaning(millis: nat)
    ensures StudentId(millis)[0] == 'S'
    ensures ParseInteger(StudentId(millis)[1..]) == Some(millis % 100000)
    ensures StudentId(millis) == StudentId(millis + 100000)
  {
    var digits := NatToString(millis % 100000);
    assert StudentId(millis)[1..] == digits;
    DigitsValueOfNatToString(millis % 100000);
  }

  /** The nine fields of a new record; every text field trimmed, level as
      chosen, the balance "0.0". */
  function RecordFields(f: StudentForm, id: string): seq<string> {
    [Trim(f.name), id, Trim(f.ic), Trim(f.contact), Trim(f.address), f.level,
     Trim(f.subjects), "0.0", Trim(f.month)]
  }

  predicate MissingField(f: StudentForm) {
    Trim(f.name) == "" || Trim(f.ic) == "" || Trim(f.contact) == "" || Trim(f.address) == ""
    || f.level == "" || Trim(f.subjects) == "" || Trim(f.month) == ""
  }

  /** The register button: refuses a missing field or more than three subjects;
      otherwise appends the joined record to students.txt and reports the new ID. */
  function RegisterStudent(raw: Lines, f: StudentForm, millis: nat): (r: Result<(Lines, string)>)
    ensures r.Err? <==> MissingField(f) || SubjectCount(Trim(f.subjects)) > MaxSubjects
    ensures r.Err? ==> (r.message == "All fields required." <==> MissingField(f))
    ensures r.Err? && !MissingField(f) ==> r.message == "Maximum 3 subjects allowed."
    ensures r.Ok? ==> r.value.1 == StudentId(millis)
                      && |r.value.0| == |raw| + 1 && r.value.0[..|raw|] == raw
                      && r.value.0[|raw|] == Join([';'], RecordFields(f, StudentId(millis)))
  {
    if MissingField(f) then Err("All fields required.")
    else if SubjectCount(Trim(f.subjects)) > MaxSubjects then Err("Maximum 3 subjects allowed.")
    else
      var id := StudentId(millis);
      Ok((raw + [Join([';'], RecordFields(f, id))], id))
  }

  /** Joined fields end with the last field's last character. */
  lemma {:induction false} JoinEndsWithLast(c: char, parts: seq<string>)
    requires |parts| >= 1 && parts[|parts| - 1] != ""
    ensures |Join([c], parts)| >= 1
    ensures Join([c], parts)[|Join([c], parts)| - 1] == parts[|parts| - 1][|parts[|parts| - 1]| - 1]
    decreases |parts|
  {
    if |parts| > 1 {
      JoinEndsWithLast(c, parts[1..]);
    }
  }

  /** A record of non-empty trimmed ends and ';'-free fields is stored as is
      and splits back into its fields. */
  lemma RecordReadsBack(fields: seq<string>)
    requires |fields| >= 2 && WellFormedFields(';', fields)
    requires fields[0] != "" && !IsTrimmable(fields[0][0])
    requires !IsTrimmable(fields[|fields| - 1][|fields[|fields| - 1]| - 1])
    ensures IsStoredLine(Join([';'], fields))
    ensures Split(Join([';'], fields), ";") == fields
  {
    var record := Join([';'], fields);
    SplitOfJoin(';', fields);
    JoinEndsWithLast(';', fields);
    assert record == fields[0] + [';'] + Join([';'], fields[1..]);
    assert record[0] == fields[0][0];
  }

  /** The last line is found when it is the only record of the student. */
  lemma FoundLast(lines: Lines, id: string)
    requires |lines| >= 1 && IsRecordOf(lines[|lines| - 1], id)
    requires forall i :: 0 <= i < |lines| - 1 ==> !IsRecordOf(lines[i], id)
    ensures FindStudent(lines, id) == Some(|lines| - 1)
  {
    FirstIndexAt(lines, RecordOf(id), |lines| - 1);
  }

  /** The record a registration appends (RegisterStudent's Ok case), when no
      field holds ';', is read back from the file: it survives readAllLines,
      splits into the nine fields, and is the student's record unless an
      earlier one has the same ID. */
  lemma RegisteredStudentReadsBack(raw: Lines, f: StudentForm, millis: nat)
    requires !MissingField(f)
    requires forall k :: 0 <= k < 9 ==> ';' !in RecordFields(f, StudentId(millis))[k]
    ensures var record := Join([';'], RecordFields(f, StudentId(millis)));
            var lines := ReadAllLines(raw + [record]);
            && lines == ReadAllLines(raw) + [record]
            && Split(record, ";") == RecordFields(f, StudentId(millis))
            && ((forall i :: 0 <= i < |lines| - 1 ==> !IsRecordOf(lines[i], StudentId(millis))) ==>
                  FindStudent(lines, StudentId(millis)) == Some(|lines| - 1))
  {
    var id := StudentId(millis);
    var record := Join([';'], RecordFields(f, id));
    NewRecordReadsBack(f, id);
    AppendStoredLine(raw, record);
    var lines := ReadAllLines(raw + [record]);
    if forall i :: 0 <= i < |lines| - 1 ==> !IsRecordOf(lines[i], id) {
      FoundLast(lines, id);
    }
  }

  /** The joined record of a complete form with ';'-free fields is a stored
      line, splits into its nine fields, and is a record of its ID. */
  lemma NewRecordReadsBack(f: StudentForm, id: string)
    requires !MissingField(f)
    requires forall k :: 0 <= k < 9 ==> ';' !in RecordFields(f, id)[k]
    ensures IsStoredLine(Join([';'], RecordFields(f, id)))
    ensures Split(Join([';'], RecordFields(f, id)), ";") == RecordFields(f, id)
    ensures IsRecordOf(Join([';'], RecordFields(f, id)), id)
  {
    var fields := RecordFields(f, id);
    assert WellFormedFields(';', fields);
    RecordReadsBack(fields);
  }

  // --------------------------------------------------- enrollment update

  /** The update-enrollment button: with both fields filled and at most three
      subjects, the first record of the student gets the new subjects as its
      seventh field; an unknown ID changes nothing. */
  function UpdateEnrollment(lines: Lines, idField: string, subjectsField: string): (r: Result<Lines>)
    ensures r.Err? <==> Trim(idField) == "" || Trim(subjectsField) == ""
                        || SubjectCount(Trim(subjectsField)) > MaxSubjects
                        || FindStudent(lines, Trim(idField)).None?
    ensures r.Err? ==>
              r.message == (if Trim(idField) == "" || Trim(subjectsField) == "" then "All fields required."
                            else if SubjectCount(Trim(subjectsField)) > MaxSubjects then "Maximum 3 subjects allowed."
                            else "Student ID not found.")
    ensures r.Ok? ==>
              var k := FindStudent(lines, Trim(idField)).value;
              r.value == lines[k := EditField(lines[k], 6, Trim(subjectsField))]
  {
    var id := Trim(idField);
    var subjects := Trim(subjectsField);
    if id == "" || subjects == "" then Err("All fields required.")
    else if SubjectCount(subjects) > MaxSubjects then Err("Maximum 3 subjects allowed.")
    else
      match FindStudent(lines, id)
      case None => Err("Student ID not found.")
      case Some(k) => Ok(lines[k := EditField(lines[k], 6, subjects)])
  }

  /** After an enrollment update with ';'-free subjects the student's first
      record sits where it was, holds the new subjects, and every other field
      and every other line is unchanged. */
  lemma EnrollmentUpdateReadsBack(lines: Lines, idField: string, subjectsField: string)
    requires UpdateEnrollment(lines, idField, subjectsField).Ok?
    requires ';' !in Trim(subjectsField)
    ensures var k := FindStudent(lines, Trim(idField)).value;
            var after := UpdateEnrollment(lines, idField, subjectsField).value;
            && FindStudent(after, Trim(idField)) == Some(k)
            && Split(after[k], ";") == Split(lines[k], ";")[6 := Trim(subjectsField)]
            && forall i :: 0 <= i < |lines| && i != k ==> after[i] == lines[i]
  {
    var k := FindStudent(lines, Trim(idField)).value;
    EditFieldReadsBack(lines[k], 6, Trim(subjectsField));
    EditKeepsRecord(lines[k], Trim(idField), 6, Trim(subjectsField));
    FindAfterEdit(lines, Trim(idField), k, EditField(lines[k], 6, Trim(subjectsField)));
  }

  // ------------------------------------------------------------ payment

  /** Math.max(0.0, oldBalance - amount). */
  function NewBalance(prior: real, amount: real): (r: real)
    ensures r >= 0.0 && r >= prior - amount
    ensures r == 0.0 || r == prior - amount
  {
    if prior - amount > 0.0 then prior - amount else 0.0
  }

  /** A payment of a non-negative amount never raises a non-negative balance,
      and one that does not exceed the balance lowers it by exactly the amount. */
  lemma PaymentLowersBalance(prior: real, amount: real)
    requires prior >= 0.0 && amount >= 0.0
    ensures NewBalance(prior, amount) <= prior
    ensures amount <= prior ==> NewBalance(prior, amount) == prior - amount
    ensures amount >= prior ==> NewBalance(prior, amount) == 0.0
  {
  }

  /** The handler does not refuse a negative amount: it raises the balance. */
  lemma NegativePaymentRaisesBalance(prior: real, amount: real)
    requires prior >= 0.0 && amount < 0.0
    ensures NewBalance(prior, amount) == prior - amount > prior
  {
  }

  /** Double.parseDouble(parts[7]), 0.0 when it throws. */
  function OldBalance(text: string, parseDouble: string -> Option<real>): real {
    parseDouble(text).GetOr(0.0)
  }

  /** What a successful payment produces: the rewritten list, the student's
      name (first field) and the balance after the payment. */
  datatype Payment = Payment(lines: Lines, name: string, amount: real, balance: real)

  /** The accept-payment button: both fields required, the amount must parse;
      the first record of the student gets the new balance as its eighth field. */
  function AcceptPayment(lines: Lines, idField: string, amountField: string,
                         parseDouble: string -> Option<real>, showDouble: real -> string): (r: Result<Payment>)
    ensures r.Err? <==> Trim(idField) == "" || Trim(amountField) == ""
                        || parseDouble(Trim(amountField)).None?
                        || FindStudent(lines, Trim(idField)).None?
    ensures r.Err? ==>
              r.message == (if Trim(idField) == "" || Trim(amountField) == "" then "All fields required."
                            else if parseDouble(Trim(amountField)).None? then "Invalid amount."
                            else "Student ID not found.")
    ensures r.Ok? ==>
              var k := FindStudent(lines, Trim(idField)).value;
              var parts := Split(lines[k], ";");
              && r.value.amount == parseDouble(Trim(amountField)).value
              && r.value.balance == NewBalance(OldBalance(parts[7], parseDouble), r.value.amount)
              && r.value.name == parts[0]
              && r.value.lines == lines[k := EditField(lines[k], 7, showDouble(r.value.balance))]
  {
    var id := Trim(idField);
    var amountText := Trim(amountField);
    if id == "" || amountText == "" then Err("All fields required.")
    else
      match parseDouble(amountText)
      case None => Err("Invalid amount.")
      case Some(amount) =>
        match FindStudent(lines, id)
        case None => Err("Student ID not found.")
        case Some(k) =>
          var parts := Split(lines[k], ";");
          var balance := NewBalance(OldBalance(parts[7], parseDouble), amount);
          Ok(Payment(lines[k := EditField(lines[k], 7, showDouble(balance))], parts[0], amount, balance))
  }

  /** After a payment, with a balance text that is non-empty and free of ';',
      the student's record is where it was and its eighth field is the printed
      new balance; everything else is unchanged. */
  lemma PaymentReadsBack(lines: Lines, idField: string, amountField: string,
                         parseDouble: string -> Option<real>, showDouble: real -> string)
    requires AcceptPayment(lines, idField, amountField, parseDouble, showDouble).Ok?
    requires var b := AcceptPayment(lines, idField, amountField, parseDouble, showDouble).value.balance;
             ';' !in showDouble(b) && showDouble(b) != ""
    ensures var k := FindStudent(lines, Trim(idField)).value;
            var p := AcceptPayment(lines, idField, amountField, parseDouble, showDouble).value;
            && FindStudent(p.lines, Trim(idField)) == Some(k)
            && Split(p.lines[k], ";") == Split(lines[k], ";")[7 := showDouble(p.balance)]
            && forall i :: 0 <= i < |lines| && i != k ==> p.lines[i] == lines[i]
  {
    var k := FindStudent(lines, Trim(idField)).value;
    var p := AcceptPayment(lines, idField, amountField, parseDouble, showDouble).value;
    EditFieldReadsBack(lines[k], 7, showDouble(p.balance));
    EditKeepsRecord(lines[k], Trim(idField), 7, showDouble(p.balance));
    FindAfterEdit(lines, Trim(idField), k, EditField(lines[k], 7, showDouble(p.balance)));
  }

  // ------------------------------------------------------------ deletion

  /** The delete handler only asks for two fields. */
  predicate HasId(line: string, id: string) {
    var parts := Split(line, ";");
    |parts| >= 2 && parts[1] == id
  }

  function IdIs(id: string): string -> bool {
    line => HasId(line, id)
  }

  /** Index of the first line whose second ';' field is the ID. */
  function FindAnyWithId(lines: Lines, id: string): (r: Option<nat>)
    ensures r.None? <==> forall i :: 0 <= i < |lines| ==> !HasId(lines[i], id)
    ensures r.Some? ==> r.value < |lines| && HasId(lines[r.value], id)
    ensures r.Some? ==> forall i :: 0 <= i < r.value ==> !HasId(lines[i], id)
  {
    var k := FirstIndex(lines, IdIs(id));
    assert k.Some? ==> IdIs(id)(lines[k.value]);
    assert forall i :: 0 <= i < |lines| ==> (IdIs(id)(lines[i]) <==> HasId(lines[i], id));
    k
  }

  /** The delete-student button: the first line whose second ';' field is the
      trimmed ID is removed. */
  function DeleteStudent(lines: Lines, idField: string): (r: Result<Lines>)
    ensures r.Err? <==> Trim(idField) == "" || FindAnyWithId(lines, Trim(idField)).None?
    ensures r.Err? ==> r.message == (if Trim(idField) == "" then "Student ID required." else "Student ID not found.")
    ensures r.Ok? ==>
              var k := FindAnyWithId(lines, Trim(idField)).value;
              r.value == lines[..k] + lines[k + 1..]
  {
    var id := Trim(idField);
    if id == "" then Err("Student ID required.")
    else
      match FindAnyWithId(lines, id)
      case None => Err("Student ID not found.")
      case Some(k) => Ok(lines[..k] + lines[k + 1..])
  }

  /** A deletion removes exactly one line, and it is a line of that student. */
  lemma DeleteRemovesOneRecord(lines: Lines, idField: string)
    requires DeleteStudent(lines, idField).Ok?
    ensures var after := DeleteStudent(lines, idField).value;
            var k := FindAnyWithId(lines, Trim(idField)).value;
            && HasId(lines[k], Trim(idField))
            && multiset(after) == multiset(lines) - multiset{lines[k]}
  {
    RemoveAtMultiset(lines, FindAnyWithId(lines, Trim(idField)).value);
  }
}
