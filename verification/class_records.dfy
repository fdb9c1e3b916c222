/** The tutor dashboard's class panels in UnifiedTuitionSystem.java over
    classes.txt, whose lines are classId,subject,price,schedule,tutor. A class
    is added with an ID the tutor types; updating and deleting act on the first
    line with that ID that belongs to the logged-in tutor, and write nothing
    when there is none. */
module ClassRecords {
  import opened Wrappers
  import opened JavaText
  import opened Sequences
  import opened RecordStore

  const NotYours := "Class ID not found or not owned by you."

  /** A line of this class and this tutor: five or more fields, the first the
      class ID and the fifth the tutor. */
  predicate IsClassOf(line: string, classId: string, tutor: string) {
    var parts := Split(line, ",");
    |parts| >= 5 && parts[0] == classId && parts[4] == tutor
  }

  function ClassOf(classId: string, tutor: string): string -> bool {
    line => IsClassOf(line, classId, tutor)
  }

  /** Index of the first line of the tutor's class. */
  function FindClass(lines: Lines, classId: string, tutor: string): (r: Option<nat>)
    ensures r.None? <==> forall i :: 0 <= i < |lines| ==> !IsClassOf(lines[i], classId, tutor)
    ensures r.Some? ==> r.value < |lines| && IsClassOf(lines[r.value], classId, tutor)
    ensures r.Some? ==> forall i :: 0 <= i < r.value ==> !IsClassOf(lines[i], classId, tutor)
  {
    var k := FirstIndex(lines, ClassOf(classId, tutor));
    assert k.Some? ==> ClassOf(classId, tutor)(lines[k.value]);
    assert forall i :: 0 <= i < |lines| ==>
             (ClassOf(classId, tutor)(lines[i]) <==> IsClassOf(lines[i], classId, tutor));
    k
  }

  // ---------------------------------------------------------------- form

  /** The four text fields of the add and update panels, trimmed. */
  datatype ClassForm = ClassForm(classId: string, subject: string, price: string, schedule: string)

  predicate Filled(f: ClassForm) {
    f.classId != "" && f.subject != "" && f.price != "" && f.schedule != ""
  }

  /** Trims the four fields; an empty one is refused with "All fields required.". */
  function ReadForm(idField: string, subjectField: string, priceField: string, scheduleField: string): (r: Result<ClassForm>)
    ensures r.Ok? <==> Filled(ClassForm(Trim(idField), Trim(subjectField), Trim(priceField), Trim(scheduleField)))
    ensures r.Ok? ==> r.value == ClassForm(Trim(idField), Trim(subjectField), Trim(priceField), Trim(scheduleField))
    ensures r.Err? ==> r.message == "All fields required."
  {
    var f := ClassForm(Trim(idField), Trim(subjectField), Trim(priceField), Trim(scheduleField));
    if Filled(f) then Ok(f) else Err("All fields required.")
  }

  /** A form none of whose fields holds a comma. */
  predicate CommaFree(f: ClassForm) {
    ',' !in f.classId && ',' !in f.subject && ',' !in f.price && ',' !in f.schedule
  }

  // ----------------------------------------------------------------- add

  /** classId,subject,price,schedule,tutor. */
  function ClassLine(f: ClassForm, tutor: string): string {
    Join([','], [f.classId, f.subject, f.price, f.schedule, tutor])
  }

  /** The add-class button: a filled form is appended with the tutor as the
      fifth field. */
  function AddClass(lines: Lines, tutor: string, idField: string, subjectField: string,
                    priceField: string, scheduleField: string): (r: Result<Lines>)
    ensures r.Err? <==> ReadForm(idField, subjectField, priceField, scheduleField).Err?
    ensures r.Err? ==> r.message == "All fields required."
    ensures r.Ok? ==> |r.value| == |lines| + 1 && r.value[..|lines|] == lines
                      && r.value[|lines|] == ClassLine(ReadForm(idField, subjectField, priceField, scheduleField).value, tutor)
  {
    match ReadForm(idField, subjectField, priceField, scheduleField)
    case Err(m) => Err(m)
    case Ok(f) => Ok(lines + [ClassLine(f, tutor)])
  }

  /** A class line of a filled comma-free form and a non-empty comma-free tutor
      splits back into the five values and is that tutor's line of the class. */
  lemma ClassLineReadsBack(f: ClassForm, tutor: string)
    requires Filled(f) && CommaFree(f) && ',' !in tutor && tutor != ""
    ensures Split(ClassLine(f, tutor), ",") == [f.classId, f.subject, f.price, f.schedule, tutor]
    ensures IsClassOf(ClassLine(f, tutor), f.classId, tutor)
  {
    var fields := [f.classId, f.subject, f.price, f.schedule, tutor];
    assert WellFormedFields(',', fields);
    SplitOfJoin(',', fields);
  }

  /** A class line appended to a file without one is found at the end. */
  lemma FindAppended(lines: Lines, classId: string, tutor: string, line: string)
    requires FindClass(lines, classId, tutor).None? && IsClassOf(line, classId, tutor)
    ensures FindClass(lines + [line], classId, tutor) == Some(|lines|)
  {
    var after := lines + [line];
    assert forall i :: 0 <= i < |lines| ==> after[i] == lines[i];
    FirstIndexAt(after, ClassOf(classId, tutor), |lines|);
  }

  /** An added class with comma-free fields and a non-empty tutor reads back as
      its five values, and is the tutor's class the update and delete panels
      find, unless the file already had one with that ID. */
  lemma AddedClassIsFound(lines: Lines, tutor: string, idField: string, subjectField: string,
                          priceField: string, scheduleField: string)
    requires AddClass(lines, tutor, idField, subjectField, priceField, scheduleField).Ok?
    requires CommaFree(ReadForm(idField, subjectField, priceField, scheduleField).value)
    requires ',' !in tutor && tutor != ""
    ensures var f := ReadForm(idField, subjectField, priceField, scheduleField).value;
            var after := AddClass(lines, tutor, idField, subjectField, priceField, scheduleField).value;
            && Split(after[|lines|], ",") == [f.classId, f.subject, f.price, f.schedule, tutor]
            && (FindClass(lines, f.classId, tutor).None? ==> FindClass(after, f.classId, tutor) == Some(|lines|))
  {
    var f := ReadForm(idField, subjectField, priceField, scheduleField).value;
    var line := ClassLine(f, tutor);
    assert AddClass(lines, tutor, idField, subjectField, priceField, scheduleField).value == lines + [line];
    ClassLineReadsBack(f, tutor);
    if FindClass(lines, f.classId, tutor).None? {
      FindAppended(lines, f.classId, tutor, line);
    }
  }

  // -------------------------------------------------------------- update

  /** parts[1..3] = subject, price, schedule; String.join(",", parts). */
  function EditClass(line: string, f: ClassForm): string
    requires |Split(line, ",")| >= 5
  {
    Join([','], Split(line, ",")[1 := f.subject][2 := f.price][3 := f.schedule])
  }

  /** The search and replace behind the update button, for a filled form. */
  function UpdateOwned(lines: Lines, tutor: string, f: ClassForm): (r: Result<Lines>)
    ensures r.Err? <==> FindClass(lines, f.classId, tutor).None?
    ensures r.Err? ==> r.message == NotYours
    ensures r.Ok? ==> var k := FindClass(lines, f.classId, tutor).value;
                      r.value == lines[k := EditClass(lines[k], f)]
  {
    match FindClass(lines, f.classId, tutor)
    case None => Err(NotYours)
    case Some(k) => Ok(lines[k := EditClass(lines[k], f)])
  }

  /** The update-class button. */
  function UpdateClass(lines: Lines, tutor: string, idField: string, subjectField: string,
                       priceField: string, scheduleField: string): (r: Result<Lines>)
    ensures ReadForm(idField, subjectField, priceField, scheduleField).Err? ==> r == Err("All fields required.")
    ensures ReadForm(idField, subjectField, priceField, scheduleField).Ok? ==>
              r == UpdateOwned(lines, tutor, ReadForm(idField, subjectField, priceField, scheduleField).value)
  {
    match ReadForm(idField, subjectField, priceField, scheduleField)
    case Err(m) => Err(m)
    case Ok(f) => UpdateOwned(lines, tutor, f)
  }

  /** An edited line with comma-free new values splits back into the old
      fields with the three replaced, so it keeps its ID and tutor. */
  lemma EditClassReadsBack(line: string, f: ClassForm)
    requires |Split(line, ",")| >= 5 && Filled(f) && CommaFree(f)
    ensures Split(EditClass(line, f), ",") == Split(line, ",")[1 := f.subject][2 := f.price][3 := f.schedule]
  {
    var parts := Split(line, ",");
    SplitIsWellFormed(line, ',');
    SplitAfterFieldEdit(parts, ',', 1, f.subject);
    SplitAfterFieldEdit(parts[1 := f.subject], ',', 2, f.price);
    SplitAfterFieldEdit(parts[1 := f.subject][2 := f.price], ',', 3, f.schedule);
  }

  /** Replacing the first line of the tutor's class by another of its lines
      keeps it first. */
  lemma FindAfterReplace(lines: Lines, classId: string, tutor: string, k: nat, line: string)
    requires FindClass(lines, classId, tutor) == Some(k) && IsClassOf(line, classId, tutor)
    ensures FindClass(lines[k := line], classId, tutor) == Some(k)
  {
    assert ClassOf(classId, tutor)(line);
    FirstIndexAfterReplace(lines, ClassOf(classId, tutor), k, line);
  }

  /** After an update with a comma-free form the tutor's class is still first
      found at the same place, holds the new values, and no other line
      changed. */
  lemma ClassUpdateReadsBack(lines: Lines, tutor: string, f: ClassForm)
    requires Filled(f) && CommaFree(f) && UpdateOwned(lines, tutor, f).Ok?
    ensures var k := FindClass(lines, f.classId, tutor).value;
            var after := UpdateOwned(lines, tutor, f).value;
            && FindClass(after, f.classId, tutor) == Some(k)
            && Split(after[k], ",") == Split(lines[k], ",")[1 := f.subject][2 := f.price][3 := f.schedule]
            && forall i :: 0 <= i < |lines| && i != k ==> after[i] == lines[i]
  {
    var k := FindClass(lines, f.classId, tutor).value;
    var line := EditClass(lines[k], f);
    assert UpdateOwned(lines, tutor, f).value == lines[k := line];
    EditClassReadsBack(lines[k], f);
    FindAfterReplace(lines, f.classId, tutor, k, line);
  }

  // -------------------------------------------------------------- delete

  /** The delete-class button: the first line of the tutor's class is removed. */
  function DeleteClass(lines: Lines, tutor: string, idField: string): (r: Result<Lines>)
    ensures r.Err? <==> Trim(idField) == "" || FindClass(lines, Trim(idField), tutor).None?
    ensures r.Err? ==> r.message == (if Trim(idField) == "" then "Class ID required." else NotYours)
    ensures r.Ok? ==> var k := FindClass(lines, Trim(idField), tutor).value;
                      r.value == lines[..k] + lines[k + 1..]
  {
    var id := Trim(idField);
    if id == "" then Err("Class ID required.")
    else
      match FindClass(lines, id, tutor)
      case None => Err(NotYours)
      case Some(k) => Ok(lines[..k] + lines[k + 1..])
  }

  /** A deletion takes out exactly one line, one of the tutor's class, and
      leaves every other line, in order. */
  lemma DeleteClassRemovesOne(lines: Lines, tutor: string, idField: string)
    requires DeleteClass(lines, tutor, idField).Ok?
    ensures var after := DeleteClass(lines, tutor, idField).value;
            var k := FindClass(lines, Trim(idField), tutor).value;
            && IsClassOf(lines[k], Trim(idField), tutor)
            && |after| == |lines| - 1
            && multiset(after) == multiset(lines) - multiset{lines[k]}
  {
    RemoveAtMultiset(lines, FindClass(lines, Trim(idField), tutor).value);
  }

  /** Another tutor's line with the same class ID is never touched. */
  lemma OtherTutorsClassStays(lines: Lines, tutor: string, idField: string, i: nat)
    requires DeleteClass(lines, tutor, idField).Ok?
    requires i < |lines| && |Split(lines[i], ",")| >= 5 && Split(lines[i], ",")[4] != tutor
    ensures lines[i] in DeleteClass(lines, tutor, idField).value
  {
    var k := FindClass(lines, Trim(idField), tutor).value;
    assert i != k;
    if i < k {
      assert lines[i] == (lines[..k] + lines[k + 1..])[i];
    } else {
      assert lines[i] == (lines[..k] + lines[k + 1..])[i - 1];
    }
  }
}
