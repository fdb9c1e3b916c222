/** The class records of the stand-alone Swing tutor program
    (newTutorSystemComplete.java): adding a class with the next free "C" number,
    updating and deleting one of the logged-in tutor's own classes, and the
    cascade that drops the deleted class's enrollments. classes.txt lines are
    id,subject,charges,schedule,tutor; enrollments.txt lines start with a class
    id and a comma. Double.parseDouble and the printing of a double are
    parameters. */
module TutorClasses {
  import opened Wrappers
  import opened JavaText
  import opened Sequences

  // ------------------------------------------------------------- class IDs

  predicate IsComma(c: char) {
    c == ','
  }

  /** The digits a class ID line carries between its leading "C" and its first
      comma, None when the line does not start with "C" or has no comma
      (line.substring(1, line.indexOf(",")) throws then and the line is skipped). */
  function IdDigits(line: string): (r: Option<string>)
    ensures r.Some? ==> StartsWith(line, "C") && 1 + |r.value| < |line| && line[1 + |r.value|] == ','
                        && ',' !in r.value && line[1..1 + |r.value|] == r.value
  {
    if !StartsWith(line, "C") then None
    else
      match FirstIndex(line, IsComma)
      case None => None
      case Some(ci) =>
        assert ci != 0;
        assert forall i :: 1 <= i < ci ==> line[1..ci][i - 1] == line[i];
        Some(line[1..ci])
  }

  /** The number a line contributes to the search for the largest ID, read
      with a given integer parser. */
  function IdNumber(line: string, parse: string -> Option<int>): Option<int> {
    match IdDigits(line)
    case None => None
    case Some(d) => parse(d)
  }

  /** The running maximum of the loop, starting from 0. */
  function MaxIdNumber(lines: seq<string>, parse: string -> Option<int>): (r: int)
    ensures r >= 0
    ensures forall i :: 0 <= i < |lines| && IdNumber(lines[i], parse).Some? ==> IdNumber(lines[i], parse).value <= r
    ensures r == 0 || exists i :: 0 <= i < |lines| && IdNumber(lines[i], parse) == Some(r)
    decreases |lines|
  {
    if |lines| == 0 then 0
    else
      var m := MaxIdNumber(lines[..|lines| - 1], parse);
      var last := lines[|lines| - 1];
      assert forall i :: 0 <= i < |lines| - 1 ==> lines[..|lines| - 1][i] == lines[i];
      match IdNumber(last, parse)
      case Some(id) => if id > m then id else m
      case None => m
  }

  /** The ID a new class receives: "C" followed by the largest ID number plus
      one, zero-padded to three digits, the numbers read without a bound on
      their size. */
  function NextClassId(lines: seq<string>): (r: string)
    ensures Follows(r, MaxIdNumber(lines, ParseInteger))
  {
    var r := "C" + ZeroPad(NatToString(MaxIdNumber(lines, ParseInteger) + 1), 3);
    PaddedIdReadsBack(r, MaxIdNumber(lines, ParseInteger));
    r
  }

  /** An ID of "C" and at least three digits that read back as m + 1. */
  predicate Follows(id: string, m: int) {
    |id| >= 4 && id[0] == 'C' && ParseInteger(id[1..]) == Some(m + 1)
  }

  lemma PaddedIdReadsBack(id: string, m: nat)
    requires id == "C" + ZeroPad(NatToString(m + 1), 3)
    ensures Follows(id, m)
  {
    assert id[1..] == ZeroPad(NatToString(m + 1), 3);
    ParsePadded(m + 1, 3);
  }

  /** The part of a line before its first comma, when it has one. */
  function KeyOf(line: string): Option<string> {
    match FirstIndex(line, IsComma)
    case None => None
    case Some(ci) => Some(line[..ci])
  }

  /** A key "C" + d, read back: the line's ID digits are d. */
  lemma KeyDigits(line: string, d: string)
    requires KeyOf(line) == Some("C" + d)
    ensures IdDigits(line) == Some(d)
  {
    var ci := FirstIndex(line, IsComma).value;
    assert line[..ci] == "C" + d;
    assert |line[..ci]| == ci;
    assert line[..1] == "C";
    assert line[1..ci] == ("C" + d)[1..] == d;
  }

  /** A line "C" + d + "," + rest with comma-free d has key "C" + d and ID digits d. */
  lemma KeyOfIdLine(d: string, rest: string)
    requires ',' !in d
    ensures KeyOf("C" + d + "," + rest) == Some("C" + d)
    ensures IdDigits("C" + d + "," + rest) == Some(d)
  {
    var line := "C" + d + "," + rest;
    forall i | 0 <= i < 1 + |d|
      ensures !IsComma(line[i])
    {
      if i > 0 {
        assert line[i] == d[i - 1];
      }
    }
    FirstIndexAt(line, IsComma, 1 + |d|);
    assert line[..1 + |d|] == "C" + d;
    KeyDigits(line, d);
  }

  /** The new ID is the key of no existing line: its number exceeds every
      number any line carries. */
  lemma NextClassIdIsFresh(lines: seq<string>, i: nat)
    requires i < |lines|
    ensures KeyOf(lines[i]) != Some(NextClassId(lines))
  {
    var n := MaxIdNumber(lines, ParseInteger) + 1;
    var digits := ZeroPad(NatToString(n), 3);
    if KeyOf(lines[i]) == Some("C" + digits) {
      KeyDigits(lines[i], digits);
      ParsePadded(n, 3);
      assert false;
    }
  }

  // ----------------------------------------------- the program as written

  /** The loop as the program writes it: Integer.parseInt, which skips numbers
      outside the int range, then maxId + 1 in int arithmetic and %03d. */
  function NextClassIdAsWritten(lines: seq<string>): (r: string)
    ensures FollowsWrapped(r, MaxIdNumber(lines, ParseJavaInt))
  {
    var r := "C" + FormatPadded(WrapInt32(MaxIdNumber(lines, ParseJavaInt) + 1), 3);
    WrappedIdReadsBack(r, MaxIdNumber(lines, ParseJavaInt));
    r
  }

  /** An ID of "C" and at least three characters whose digits read back,
      through Integer.parseInt, as m + 1, or as Integer.MIN_VALUE when m is
      Integer.MAX_VALUE. */
  predicate FollowsWrapped(id: string, m: int) {
    && |id| >= 4 && id[0] == 'C'
    && (m < IntMax ==> ParseJavaInt(id[1..]) == Some(m + 1))
    && (m == IntMax ==> ParseJavaInt(id[1..]) == Some(IntMin))
  }

  /** The %03d ID after a largest number m follows m in int arithmetic. */
  lemma WrappedIdReadsBack(id: string, m: int)
    requires m >= 0 && id == "C" + FormatPadded(WrapInt32(m + 1), 3)
    ensures FollowsWrapped(id, m)
  {
    FormattedIdReadsBack(id, WrapInt32(m + 1));
    WrapIntMax();
  }

  /** Integer.parseInt reads the text after the "C" of a %03d ID back as its
      number. */
  lemma FormattedIdReadsBack(id: string, n: int)
    requires InInt32(n) && id == "C" + FormatPadded(n, 3)
    ensures |id| >= 4 && id[0] == 'C' && ParseJavaInt(id[1..]) == Some(n)
  {
    ParseFormatted(n, 3);
    assert id[1..] == FormatPadded(n, 3);
  }

  lemma DecimalOfIntMax()
    ensures NatToString(IntMax) == "2147483647"
    ensures NatToString(IntMax + 1) == "2147483648"
  {
    assert NatToString(2) == "2";
    assert NatToString(21) == "21";
    assert NatToString(214) == "214";
    assert NatToString(2147) == "2147";
    assert NatToString(21474) == "21474";
    assert NatToString(214748) == "214748";
    assert NatToString(2147483) == "2147483";
    assert NatToString(21474836) == "21474836";
    assert NatToString(214748364) == "214748364";
    assert NatToString(2147483647) == "2147483647";
    assert NatToString(2147483648) == "2147483648";
  }

  lemma ParseIntMax()
    ensures ParseJavaInt("2147483647") == Some(IntMax)
  {
    DecimalOfIntMax();
    DigitsValueOfNatToString(IntMax);
    assert DigitsValue("2147483647") == IntMax;
  }

  lemma ParseIntMin()
    ensures ParseJavaInt("-2147483648") == Some(IntMin)
  {
    DecimalOfIntMax();
    DigitsValueOfNatToString(IntMax + 1);
    assert "-2147483648"[1..] == "2147483648";
    assert DigitsValue("2147483648") == IntMax + 1;
  }

  lemma FormatIntMin()
    ensures FormatPadded(IntMin, 3) == "-2147483648"
  {
    DecimalOfIntMax();
    assert NatToString(IntMax + 1) == NatToString((IntMax + 1) / 10) + [DigitChar((IntMax + 1) % 10)];
    assert |NatToString(IntMax + 1)| >= 2;
    assert ZeroPad(NatToString(IntMax + 1), 2) == NatToString(IntMax + 1);
  }

  /** The largest number over two lines whose numbers are known. */
  lemma MaxOfTwoLines(a: string, b: string, parse: string -> Option<int>, m: int, n: int)
    requires IdNumber(a, parse) == Some(m) && IdNumber(b, parse) == Some(n)
    requires 0 <= m && n <= m
    ensures MaxIdNumber([a, b], parse) == m
  {
    assert [a, b][..1] == [a];
    assert [a][..0] == [];
  }

  lemma TopLine()
    ensures IdNumber("C2147483647,Maths", ParseJavaInt) == Some(IntMax)
  {
    var line := "C" + "2147483647" + "," + "Maths";
    assert line == "C2147483647,Maths";
    KeyOfIdLine("2147483647", "Maths");
    ParseIntMax();
  }

  lemma BottomLine()
    ensures IdDigits("C-2147483648,Art") == Some("-2147483648")
    ensures KeyOf("C-2147483648,Art") == Some("C" + "-2147483648")
  {
    var line := "C" + "-2147483648" + "," + "Art";
    assert line == "C-2147483648,Art";
    KeyOfIdLine("-2147483648", "Art");
  }

  lemma BottomLineNumber()
    ensures IdNumber("C-2147483648,Art", ParseJavaInt) == Some(IntMin)
  {
    BottomLine();
    ParseIntMin();
  }

  lemma WrapIntMax()
    ensures WrapInt32(IntMax + 1) == IntMin
  {
  }

  /** Of the two lines, the first carries the largest number. */
  lemma TopIsLargest(top: string, bottom: string)
    requires top == "C2147483647,Maths" && bottom == "C-2147483648,Art"
    ensures MaxIdNumber([top, bottom], ParseJavaInt) == IntMax
  {
    TopLine();
    BottomLineNumber();
    MaxOfTwoLines(top, bottom, ParseJavaInt, IntMax, IntMin);
  }

  /** Any file whose largest number is the largest int hands out the key
      "C" followed by the smallest int next, whether or not a line already
      has it. */
  lemma WrapRepeatsKey(lines: seq<string>, j: nat)
    requires j < |lines| && MaxIdNumber(lines, ParseJavaInt) == IntMax
    requires KeyOf(lines[j]) == Some("C" + FormatPadded(IntMin, 3))
    ensures KeyOf(lines[j]) == Some(NextClassIdAsWritten(lines))
  {
    WrapIntMax();
  }

  /** The second line's key is "C" followed by the smallest int. */
  lemma BottomKey(bottom: string)
    requires bottom == "C-2147483648,Art"
    ensures KeyOf(bottom) == Some("C" + FormatPadded(IntMin, 3))
  {
    BottomLine();
    FormatIntMin();
  }

  /** When the largest ID is C2147483647 the increment wraps to -2147483648,
      and a line with that key gets its ID handed out again. */
  lemma NextClassIdAsWrittenCollides(top: string, bottom: string)
    requires top == "C2147483647,Maths" && bottom == "C-2147483648,Art"
    ensures KeyOf(bottom) == Some(NextClassIdAsWritten([top, bottom]))
  {
    TopIsLargest(top, bottom);
    BottomKey(bottom);
    WrapRepeatsKey([top, bottom], 1);
  }

  /** When every ID number is below the largest int, Integer.parseInt reads
      the same largest number as the unbounded parser: the IDs it skips are
      out of range, and those below the smallest int are negative and never
      the maximum. It follows from MaxIdNumber's contract, which pins the
      maximum down for either parser. */
  lemma MaxIdNumberInIntRange(lines: seq<string>)
    requires forall i :: 0 <= i < |lines| && IdNumber(lines[i], ParseInteger).Some? ==>
                           IdNumber(lines[i], ParseInteger).value < IntMax
    ensures MaxIdNumber(lines, ParseJavaInt) == MaxIdNumber(lines, ParseInteger)
  {
  }

  /** With every ID number below the largest int, the program's ID and the
      corrected one are the same string: the two differ only on files that
      reach the int bound. */
  lemma NextClassIdsAgree(lines: seq<string>)
    requires forall i :: 0 <= i < |lines| && IdNumber(lines[i], ParseInteger).Some? ==>
                           IdNumber(lines[i], ParseInteger).value < IntMax
    ensures NextClassIdAsWritten(lines) == NextClassId(lines)
  {
    MaxIdNumberInIntRange(lines);
    var m := MaxIdNumber(lines, ParseInteger);
    assert m < IntMax;
    assert WrapInt32(m + 1) == m + 1;
  }

  // ------------------------------------------------------------ the lines

  /** A double as the dialog handles it: its value and its Double.toString text. */
  datatype Decimal = Decimal(value: real, text: string)

  /** id,subject,charges,schedule,tutor. */
  function ClassLine(id: string, subject: string, charges: string, schedule: string, tutor: string): string {
    Join([','], [id, subject, charges, schedule, tutor])
  }

  /** The choices of the add and update dialogs' combo boxes: a day, then an
      hour, a minute and am/pm for the start and for the end. */
  datatype Slot = Slot(day: string, startHour: string, startMinute: string, startHalf: string,
                       endHour: string, endMinute: string, endHalf: string)

  const Days: seq<string> := ["Mon", "Tue", "Wed", "Thu", "Fri", "Sat", "Sun"]
  /** String.valueOf(i == 0 ? 12 : i) for i from 0 to 11. */
  const Hours: seq<string> := ["12", "1", "2", "3", "4", "5", "6", "7", "8", "9", "10", "11"]
  const Minutes: seq<string> := ["00", "15", "30", "45"]
  const Halves: seq<string> := ["am", "pm"]

  /** A slot whose every choice is one the combo boxes list. */
  predicate Offered(t: Slot) {
    && t.day in Days
    && t.startHour in Hours && t.startMinute in Minutes && t.startHalf in Halves
    && t.endHour in Hours && t.endMinute in Minutes && t.endHalf in Halves
  }

  /** No choice of the slot carries a comma. */
  predicate SlotCommaFree(t: Slot) {
    && ',' !in t.day
    && ',' !in t.startHour && ',' !in t.startMinute && ',' !in t.startHalf
    && ',' !in t.endHour && ',' !in t.endMinute && ',' !in t.endHalf
  }

  /** The schedule text: day + " " + start + "-" + end, each time
      hour:minute followed by am or pm. It holds a comma only when a choice
      does. */
  function ScheduleText(t: Slot): (r: string)
    ensures SlotCommaFree(t) ==> ',' !in r
    ensures StartsWith(r, t.day + " ")
  {
    var start := t.startHour + ":" + t.startMinute + t.startHalf;
    var end := t.endHour + ":" + t.endMinute + t.endHalf;
    t.day + " " + start + "-" + end
  }

  /** Every schedule the dialogs can build is comma-free, so it stays one
      field of the class line. */
  lemma OfferedScheduleCommaFree(t: Slot)
    requires Offered(t)
    ensures ',' !in ScheduleText(t)
  {
  }

  /** A line of the tutor's own classes: five or more fields, the fifth the tutor. */
  predicate IsOwnedBy(line: string, tutor: string) {
    var parts := Split(line, ",");
    |parts| >= 5 && parts[4] == tutor
  }

  function OwnedBy(tutor: string): string -> bool {
    line => IsOwnedBy(line, tutor)
  }

  /** The list the update and delete dialogs offer: the tutor's classes in file order. */
  function MyClasses(lines: seq<string>, tutor: string): (r: seq<string>)
    ensures forall line :: line in r <==> line in lines && IsOwnedBy(line, tutor)
  {
    FilterMembers(lines, OwnedBy(tutor));
    Filter(lines, OwnedBy(tutor))
  }

  /** Subject and charges, both trimmed, must be non-empty, and the charges
      must parse as a number that is not negative. */
  function CheckInput(subject: string, charges: string, parseDouble: string -> Option<Decimal>): (r: Result<Decimal>)
    ensures r.Err? <==> Trim(subject) == "" || Trim(charges) == ""
                        || parseDouble(Trim(charges)).None? || parseDouble(Trim(charges)).value.value < 0.0
    ensures r.Err? ==> (r.message == "All fields are required." <==> Trim(subject) == "" || Trim(charges) == "")
    ensures r.Err? ==> r.message == "All fields are required." || r.message == "Charges must be a positive number."
    ensures r.Ok? ==> r.value == parseDouble(Trim(charges)).value && r.value.value >= 0.0
  {
    if Trim(subject) == "" || Trim(charges) == "" then Err("All fields are required.")
    else
      match parseDouble(Trim(charges))
      case None => Err("Charges must be a positive number.")
      case Some(d) => if d.value < 0.0 then Err("Charges must be a positive number.") else Ok(d)
  }

  /** The add-class save action: the validated class gets the next ID and the
      logged-in tutor as owner and is appended to classes.txt. */
  function AddClass(lines: seq<string>, tutor: string, subject: string, charges: string,
                    parseDouble: string -> Option<Decimal>, slot: Slot): (r: Result<seq<string>>)
    ensures CheckInput(subject, charges, parseDouble).Err? ==>
              r == Err(CheckInput(subject, charges, parseDouble).message)
    ensures CheckInput(subject, charges, parseDouble).Ok? ==>
              r.Ok? && |r.value| == |lines| + 1 && r.value[..|lines|] == lines
              && r.value[|lines|] == ClassLine(NextClassId(lines), Trim(subject),
                                               CheckInput(subject, charges, parseDouble).value.text,
                                               ScheduleText(slot), tutor)
  {
    match CheckInput(subject, charges, parseDouble)
    case Err(m) => Err(m)
    case Ok(d) => Ok(lines + [ClassLine(NextClassId(lines), Trim(subject), d.text, ScheduleText(slot), tutor)])
  }

  /** A class line of comma-free fields reads back as its five fields. */
  lemma ClassLineRoundTrip(id: string, subject: string, charges: string, schedule: string, tutor: string)
    requires ',' !in id && ',' !in subject && ',' !in charges && ',' !in schedule && ',' !in tutor
    requires tutor != ""
    ensures Split(ClassLine(id, subject, charges, schedule, tutor), ",") == [id, subject, charges, schedule, tutor]
  {
    var parts := [id, subject, charges, schedule, tutor];
    assert WellFormedFields(',', parts);
    SplitOfJoin(',', parts);
  }

  /** A new ID is "C" followed by digits only. */
  lemma NextClassIdCommaFree(lines: seq<string>)
    ensures ',' !in NextClassId(lines)
  {
    var n := NatToString(MaxIdNumber(lines, ParseInteger) + 1);
    var digits := ZeroPad(n, 3);
    ZeroPadKeepsValue(n, 3);
    assert forall k :: 0 <= k < |digits| ==> IsDigit(digits[k]);
    assert NextClassId(lines) == "C" + digits;
  }

  /** An added class, with comma-free subject and charges text and a
      schedule picked from the dialog, carries a fresh ID and is listed among
      the tutor's own classes. */
  lemma AddedClassIsOwnedAndFresh(lines: seq<string>, tutor: string, subject: string, charges: string,
                                  parseDouble: string -> Option<Decimal>, slot: Slot)
    requires AddClass(lines, tutor, subject, charges, parseDouble, slot).Ok?
    requires ',' !in Trim(subject) && ',' !in parseDouble(Trim(charges)).value.text && Offered(slot)
    requires ',' !in tutor && tutor != ""
    ensures var added := AddClass(lines, tutor, subject, charges, parseDouble, slot).value;
            && added[|lines|] in MyClasses(added, tutor)
            && Split(added[|lines|], ",")[0] == NextClassId(lines)
            && forall i :: 0 <= i < |lines| ==> KeyOf(lines[i]) != Some(NextClassId(lines))
  {
    var id := NextClassId(lines);
    var added := AddClass(lines, tutor, subject, charges, parseDouble, slot).value;
    var text := parseDouble(Trim(charges)).value.text;
    var schedule := ScheduleText(slot);
    OfferedScheduleCommaFree(slot);
    var line := ClassLine(id, Trim(subject), text, schedule, tutor);
    assert added[|lines|] == line;
    NextClassIdCommaFree(lines);
    ClassLineRoundTrip(id, Trim(subject), text, schedule, tutor);
    assert IsOwnedBy(line, tutor);
    assert line in MyClasses(added, tutor);
    forall i | 0 <= i < |lines|
      ensures KeyOf(lines[i]) != Some(id)
    {
      NextClassIdIsFresh(lines, i);
    }
  }

  /** The update-class save action for a class picked from the tutor's own:
      the first line equal to the picked one is replaced by a line with the
      same ID, the new subject, charges and schedule, and the tutor as owner. */
  function UpdateClass(lines: seq<string>, tutor: string, selected: string, subject: string, charges: string,
                       parseDouble: string -> Option<Decimal>, slot: Slot): (r: Result<seq<string>>)
    requires IsOwnedBy(selected, tutor)
    ensures CheckInput(subject, charges, parseDouble).Err? ==>
              r == Err(CheckInput(subject, charges, parseDouble).message)
    ensures CheckInput(subject, charges, parseDouble).Ok? ==> r.Ok?
    ensures r.Ok? ==>
              var updated := ClassLine(Split(selected, ",")[0], Trim(subject),
                                       CheckInput(subject, charges, parseDouble).value.text,
                                       ScheduleText(slot), tutor);
              && CheckInput(subject, charges, parseDouble).Ok?
              && |r.value| == |lines|
              && (selected !in lines ==> r.value == lines)
              && (selected in lines ==>
                    exists k :: 0 <= k < |lines| && lines[k] == selected && selected !in lines[..k]
                                && r.value == lines[k := updated])
  {
    match CheckInput(subject, charges, parseDouble)
    case Err(m) => Err(m)
    case Ok(d) =>
      var updated := ClassLine(Split(selected, ",")[0], Trim(subject), d.text, ScheduleText(slot), tutor);
      var r := ReplaceFirst(lines, EqualTo(selected), _ => updated);
      assert selected in lines ==> FirstIndex(lines, EqualTo(selected)).Some? by {
        if selected in lines {
          var k :| 0 <= k < |lines| && lines[k] == selected;
          assert EqualTo(selected)(lines[k]);
        }
      }
      assert FirstIndex(lines, EqualTo(selected)).Some? ==> selected in lines;
      Ok(r)
  }

  function EqualTo(x: string): string -> bool {
    y => y == x
  }

  /** An updated class with comma-free inputs keeps its ID and its owner: it
      is still listed among the tutor's classes. */
  lemma UpdatedClassKeepsIdAndOwner(selected: string, tutor: string, subject: string, text: string, schedule: string)
    requires IsOwnedBy(selected, tutor)
    requires ',' !in subject && ',' !in text && ',' !in schedule && ',' !in tutor && tutor != ""
    ensures var updated := ClassLine(Split(selected, ",")[0], subject, text, schedule, tutor);
            IsOwnedBy(updated, tutor) && Split(updated, ",")[0] == Split(selected, ",")[0]
  {
    var parts := Split(selected, ",");
    SplitIsWellFormed(selected, ',');
    assert ',' !in parts[0];
    ClassLineRoundTrip(parts[0], subject, text, schedule, tutor);
  }

  /** The delete-class confirmation: the first line equal to the picked class
      is removed from classes.txt and every enrollment line starting with its
      ID and a comma is removed from enrollments.txt. */
  function DeleteClass(lines: seq<string>, enrollments: seq<string>, tutor: string, selected: string)
    : (r: (seq<string>, seq<string>))
    requires IsOwnedBy(selected, tutor)
    ensures selected in lines ==>
              exists k :: 0 <= k < |lines| && lines[k] == selected && selected !in lines[..k]
                          && r.0 == lines[..k] + lines[k + 1..]
    ensures selected in lines ==> multiset(r.0) == multiset(lines) - multiset{selected}
    ensures selected !in lines ==> r.0 == lines
    ensures forall e :: e in r.1 <==> e in enrollments && !StartsWith(e, Split(selected, ",")[0] + ",")
    ensures r.1 == Filter(enrollments, NotEnrolledIn(Split(selected, ",")[0]))
  {
    var classId := Split(selected, ",")[0];
    RemoveFirstEqual(lines, selected);
    FilterMembers(enrollments, NotEnrolledIn(classId));
    (RemoveFirst(lines, EqualTo(selected)), Filter(enrollments, NotEnrolledIn(classId)))
  }

  /** List.remove(Object): the first occurrence goes and the rest keep their
      order, so there is one occurrence fewer; no change when x is absent. */
  lemma RemoveFirstEqual(lines: seq<string>, x: string)
    ensures x in lines ==>
              exists k :: 0 <= k < |lines| && lines[k] == x && x !in lines[..k]
                          && RemoveFirst(lines, EqualTo(x)) == lines[..k] + lines[k + 1..]
    ensures x in lines ==> multiset(RemoveFirst(lines, EqualTo(x))) == multiset(lines) - multiset{x}
    ensures x !in lines ==> RemoveFirst(lines, EqualTo(x)) == lines
  {
    if x in lines {
      var j :| 0 <= j < |lines| && lines[j] == x;
      assert EqualTo(x)(lines[j]);
      var k := FirstIndex(lines, EqualTo(x)).value;
      assert x !in lines[..k] by {
        assert forall i :: 0 <= i < k ==> lines[..k][i] == lines[i] && !EqualTo(x)(lines[i]);
      }
      assert lines[k] == x && RemoveFirst(lines, EqualTo(x)) == lines[..k] + lines[k + 1..];
      RemoveFirstMultiset(lines, EqualTo(x));
    } else {
      assert FirstIndex(lines, EqualTo(x)).None?;
    }
  }

  function NotEnrolledIn(classId: string): string -> bool {
    e => !StartsWith(e, classId + ",")
  }

  /** After the deletion no enrollment of the deleted class is left, and every
      enrollment of another class stays as often as it was there. */
  lemma DeleteClassCascade(lines: seq<string>, enrollments: seq<string>, tutor: string, selected: string, e: string)
    requires IsOwnedBy(selected, tutor)
    ensures var classId := Split(selected, ",")[0];
            var after := DeleteClass(lines, enrollments, tutor, selected).1;
            && (StartsWith(e, classId + ",") ==> e !in after)
            && (!StartsWith(e, classId + ",") ==> multiset(after)[e] == multiset(enrollments)[e])
  {
    FilterCount(enrollments, NotEnrolledIn(Split(selected, ",")[0]), e);
  }
}
