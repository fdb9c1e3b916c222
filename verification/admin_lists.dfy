/** The admin window of AdminGUI.java: in-memory lists of tutors and
    receptionists behind the register, delete and update buttons, the report,
    and the comma-separated form receptionists.txt stores them in. The Tutor
    class is not part of this model beyond its three constructor values. */
module AdminLists {
  import opened Wrappers
  import opened JavaText
  import opened Sequences

  /** new Tutor(name, subject, level). */
  datatype Tutor = Tutor(name: string, subject: string, level: int)

  datatype Receptionist = Receptionist(id: string, password: string)

  // -------------------------------------------------------------- tutors

  /** registerTutor: the level is read with Integer.parseInt; when that throws
      the handler stops and the list is unchanged. */
  function RegisterTutor(tutors: seq<Tutor>, name: string, subject: string, levelText: string): (r: Option<seq<Tutor>>)
    ensures r.None? <==> ParseJavaInt(levelText).None?
    ensures r.Some? ==> |r.value| == |tutors| + 1 && r.value[..|tutors|] == tutors
                        && r.value[|tutors|].name == name && r.value[|tutors|].subject == subject
                        && r.value[|tutors|].level == ParseJavaInt(levelText).value
                        && InInt32(r.value[|tutors|].level)
  {
    match ParseJavaInt(levelText)
    case None => None
    case Some(level) => Some(tutors + [Tutor(name, subject, level)])
  }

  /** A registered tutor's level prints back as the digits typed, when those
      are a plain decimal in the int range. */
  lemma RegisteredLevelReadsBack(tutors: seq<Tutor>, name: string, subject: string, level: nat)
    requires level <= IntMax
    ensures RegisterTutor(tutors, name, subject, NatToString(level)) == Some(tutors + [Tutor(name, subject, level)])
  {
    DigitsValueOfNatToString(level);
  }

  function NotNamed(name: string): Tutor -> bool {
    (t: Tutor) => t.name != name
  }

  /** deleteTutor: tutors.removeIf(tutor -> tutor.name.equals(name)). */
  function DeleteTutor(tutors: seq<Tutor>, name: string): (r: seq<Tutor>)
    ensures |r| <= |tutors|
    ensures forall t :: t in r <==> t in tutors && t.name != name
  {
    FilterMembers(tutors, NotNamed(name));
    Filter(tutors, NotNamed(name))
  }

  /** Every tutor of that name goes; every other tutor stays, as often as it
      was there. */
  lemma DeleteTutorCounts(tutors: seq<Tutor>, name: string, t: Tutor)
    ensures multiset(DeleteTutor(tutors, name))[t] == if t.name == name then 0 else multiset(tutors)[t]
  {
    FilterCount(tutors, NotNamed(name), t);
  }

  /** Deleting a name no tutor has changes nothing. */
  lemma DeleteUnknownTutor(tutors: seq<Tutor>, name: string)
    requires forall i :: 0 <= i < |tutors| ==> tutors[i].name != name
    ensures DeleteTutor(tutors, name) == tutors
  {
    FilterKeepsAll(tutors, NotNamed(name));
  }

  const ReportHeading: string := "Monthly Income Report:\nTotal Tutors: "

  /** viewReport: the heading, then the count and a line break. */
  function Report(tutors: seq<Tutor>): (r: string)
    ensures StartsWith(r, ReportHeading) && |r| > |ReportHeading| + 1 && r[|r| - 1] == '\n'
  {
    "Monthly Income Report:\n" + "Total Tutors: " + NatToString(|tutors|) + "\n"
  }

  /** The report's second line reads back as the length of the list. */
  lemma ReportCountsTutors(tutors: seq<Tutor>)
    ensures var r := Report(tutors);
            ParseInteger(r[|ReportHeading|..|r| - 1]) == Some(|tutors|)
  {
    var digits := NatToString(|tutors|);
    var r := Report(tutors);
    assert r == ReportHeading + digits + "\n";
    assert r[|ReportHeading|..|r| - 1] == digits;
    DigitsValueOfNatToString(|tutors|);
  }

  // ------------------------------------------------------- receptionists

  /** registerReceptionist: the new receptionist goes at the end. */
  function RegisterReceptionist(rs: seq<Receptionist>, id: string, password: string): (r: seq<Receptionist>)
    ensures |r| == |rs| + 1 && r[..|rs|] == rs && r[|rs|] == Receptionist(id, password)
  {
    rs + [Receptionist(id, password)]
  }

  function HasId(id: string): Receptionist -> bool {
    (r: Receptionist) => r.id == id
  }

  function WithPassword(password: string): Receptionist -> Receptionist {
    (r: Receptionist) => r.(password := password)
  }

  /** What updateProfile does to the list and what it reports. */
  datatype Update = Update(receptionists: seq<Receptionist>, message: string)

  /** updateProfile: the first receptionist with the id gets the new password;
      with none, nothing changes. */
  function UpdateProfile(rs: seq<Receptionist>, id: string, password: string): (r: Update)
    ensures FirstIndex(rs, HasId(id)).None? ==> r == Update(rs, "Receptionist Not Found!")
    ensures FirstIndex(rs, HasId(id)).Some? ==> r.message == "Profile Updated!"
  {
    match FirstIndex(rs, HasId(id))
    case None => Update(rs, "Receptionist Not Found!")
    case Some(_) => Update(ReplaceFirst(rs, HasId(id), WithPassword(password)), "Profile Updated!")
  }

  /** After an update the first receptionist with the id has the new password,
      keeps the id, and no other entry changes; the length is the same. */
  lemma UpdateProfileChangesOne(rs: seq<Receptionist>, id: string, password: string)
    requires exists i :: 0 <= i < |rs| && rs[i].id == id
    ensures var after := UpdateProfile(rs, id, password).receptionists;
            var k := FirstIndex(rs, HasId(id)).value;
            && |after| == |rs|
            && after[k] == Receptionist(id, password)
            && (forall i :: 0 <= i < k ==> rs[i].id != id)
            && (forall i :: 0 <= i < |rs| && i != k ==> after[i] == rs[i])
  {
    var i :| 0 <= i < |rs| && rs[i].id == id;
    assert HasId(id)(rs[i]);
    var k := FirstIndex(rs, HasId(id)).value;
    assert HasId(id)(rs[k]);
    assert forall j :: 0 <= j < k ==> !HasId(id)(rs[j]);
  }

  // --------------------------------------------------------- file format

  /** Receptionist.toString. */
  function Serialize(r: Receptionist): (line: string)
    ensures |line| == |r.id| + 1 + |r.password|
    ensures line[..|r.id|] == r.id && line[|r.id|] == ',' && line[|r.id| + 1..] == r.password
  {
    r.id + "," + r.password
  }

  /** saveReceptionists: one line per receptionist, in list order. */
  function SaveAll(rs: seq<Receptionist>): (lines: seq<string>)
    ensures |lines| == |rs| && forall i :: 0 <= i < |rs| ==> lines[i] == Serialize(rs[i])
  {
    seq(|rs|, i requires 0 <= i < |rs| => Serialize(rs[i]))
  }

  /** One line of loadReceptionists: fields 0 and 1 of line.split(","); a line
      with fewer than two fields throws, which None stands for. */
  function ParseReceptionist(line: string): (r: Option<Receptionist>)
    ensures r.Some? <==> |Split(line, ",")| >= 2
  {
    var parts := Split(line, ",");
    if |parts| >= 2 then Some(Receptionist(parts[0], parts[1])) else None
  }

  /** loadReceptionists: every line, in order; the first line that throws
      ends the load with an exception. */
  function LoadAll(lines: seq<string>): (r: Option<seq<Receptionist>>)
    ensures r.Some? <==> forall i :: 0 <= i < |lines| ==> ParseReceptionist(lines[i]).Some?
    ensures r.Some? ==> |r.value| == |lines| && forall i :: 0 <= i < |lines| ==> r.value[i] == ParseReceptionist(lines[i]).value
    decreases |lines|
  {
    if |lines| == 0 then Some([])
    else
      match ParseReceptionist(lines[0])
      case None => None
      case Some(r) =>
        match LoadAll(lines[1..])
        case None =>
          assert !ParseReceptionist(lines[1..][0]).Some? || exists i :: 0 <= i < |lines| - 1 && !ParseReceptionist(lines[1..][i]).Some?;
          None
        case Some(rest) => Some([r] + rest)
  }

  /** A receptionist whose id and password hold no comma, with a non-empty
      password, is read back from its line. */
  lemma SerializeRoundTrip(r: Receptionist)
    requires ',' !in r.id && ',' !in r.password && r.password != ""
    ensures ParseReceptionist(Serialize(r)) == Some(r)
  {
    var fields := [r.id, r.password];
    assert Serialize(r) == Join([','], fields);
    assert WellFormedFields(',', fields);
    SplitOfJoin(',', fields);
  }

  /** Saving a list of such receptionists and loading the file gives the list back. */
  lemma SaveLoadRoundTrip(rs: seq<Receptionist>)
    requires forall i :: 0 <= i < |rs| ==> ',' !in rs[i].id && ',' !in rs[i].password && rs[i].password != ""
    ensures LoadAll(SaveAll(rs)) == Some(rs)
  {
    var lines := SaveAll(rs);
    forall i | 0 <= i < |rs|
      ensures ParseReceptionist(lines[i]) == Some(rs[i])
    {
      SerializeRoundTrip(rs[i]);
    }
    var loaded := LoadAll(lines);
    assert loaded.Some?;
    assert |loaded.value| == |rs| && forall i :: 0 <= i < |rs| ==> loaded.value[i] == rs[i];
    assert loaded.value == rs;
  }

  /** An empty password is written as "id," and no longer loads. */
  lemma EmptyPasswordDoesNotLoad(id: string)
    requires ',' !in id
    ensures ParseReceptionist(Serialize(Receptionist(id, ""))).None?
  {
    var line := id + ",";
    assert Serialize(Receptionist(id, "")) == line;
    NoCharMatch(id, ',', "");
    assert line == id + [','] + "";
    FieldsAfterPrefix(id, ",", "");
    assert Fields(line, ",") == [id, ""];
  }
}
