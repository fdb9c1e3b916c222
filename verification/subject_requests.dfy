/** The student's subject-change requests in UnifiedTuitionSystem.java
    (createRequestPanel). A request is the enrollments.txt line
    add,studentId,drop; the panel lists the student's requests as
    "Drop: d, Add: a", and the delete button parses the selected entry back
    into the two subjects and removes every line equal to the request. */
module SubjectRequests {
  import opened Wrappers
  import opened JavaText
  import opened Sequences
  import opened RecordStore

  /** add + "," + studentId + "," + drop. */
  function RequestLine(add: string, studentId: string, drop: string): string {
    add + "," + studentId + "," + drop
  }

  /** The list entry of a request. */
  function Display(drop: string, add: string): string {
    "Drop: " + drop + ", Add: " + add
  }

  /** The entry a line of the file contributes to the student's list: only a
      line of exactly three fields whose second is the student ID. */
  function EntryOf(line: string, studentId: string): Option<string> {
    var parts := Split(line, ",");
    if |parts| == 3 && parts[1] == studentId then Some(Display(parts[2], parts[0])) else None
  }

  function EntryFor(studentId: string): string -> Option<string> {
    line => EntryOf(line, studentId)
  }

  /** The list built when the panel opens: the entries of the student's
      lines, in file order. */
  function Listed(lines: Lines, studentId: string): (r: seq<string>)
    ensures |r| <= |lines|
    ensures forall e :: e in r <==> exists i :: 0 <= i < |lines| && EntryOf(lines[i], studentId) == Some(e)
  {
    FilterMapMembers(lines, EntryFor(studentId));
    FilterMap(lines, EntryFor(studentId))
  }

  /** The file and the list model the panel shows. */
  datatype Panel = Panel(lines: Lines, listed: seq<string>)

  /** Opening the panel: the file as read, and an entry for exactly the
      lines that are the student's requests. */
  function Open(lines: Lines, studentId: string): (r: Panel)
    ensures r.lines == lines && |r.listed| <= |lines|
    ensures forall e :: e in r.listed <==> exists i :: 0 <= i < |lines| && EntryOf(lines[i], studentId) == Some(e)
  {
    Panel(lines, Listed(lines, studentId))
  }

  // ----------------------------------------------------------------- send

  /** The send button: both trimmed subjects required; the request is
      appended to the file and its entry to the list. */
  function Send(p: Panel, studentId: string, dropField: string, addField: string): (r: Result<Panel>)
    ensures r.Err? <==> Trim(dropField) == "" || Trim(addField) == ""
    ensures r.Err? ==> r.message == "Both fields required."
    ensures r.Ok? ==> |r.value.lines| == |p.lines| + 1 && r.value.lines[..|p.lines|] == p.lines
                      && |r.value.listed| == |p.listed| + 1 && r.value.listed[..|p.listed|] == p.listed
    ensures r.Ok? ==> r.value.lines[|p.lines|] == RequestLine(Trim(addField), studentId, Trim(dropField))
                      && r.value.listed[|p.listed|] == Display(Trim(dropField), Trim(addField))
  {
    var drop, add := Trim(dropField), Trim(addField);
    if drop == "" || add == "" then Err("Both fields required.")
    else Ok(Panel(p.lines + [RequestLine(add, studentId, drop)], p.listed + [Display(drop, add)]))
  }

  /** A request line of comma-free values is listed for its student as the
      same entry the send button adds. */
  lemma EntryOfRequest(add: string, studentId: string, drop: string)
    requires ',' !in add && ',' !in studentId && ',' !in drop && drop != ""
    ensures EntryOf(RequestLine(add, studentId, drop), studentId) == Some(Display(drop, add))
  {
    var fields := [add, studentId, drop];
    assert fields[1..] == [studentId, drop] && fields[1..][1..] == [drop];
    assert Join([','], [studentId, drop]) == studentId + "," + drop;
    assert RequestLine(add, studentId, drop) == Join([','], fields);
    assert WellFormedFields(',', fields);
    SplitOfJoin(',', fields);
  }

  /** Reopening the panel after a send shows the same list the send produced,
      when the panel showed the file's list before. */
  lemma SentRequestIsListed(lines: Lines, studentId: string, dropField: string, addField: string)
    requires Send(Open(lines, studentId), studentId, dropField, addField).Ok?
    requires ',' !in Trim(addField) && ',' !in studentId && ',' !in Trim(dropField)
    ensures var after := Send(Open(lines, studentId), studentId, dropField, addField).value;
            after == Open(after.lines, studentId)
  {
    var after := Send(Open(lines, studentId), studentId, dropField, addField).value;
    var line := RequestLine(Trim(addField), studentId, Trim(dropField));
    assert after.lines == lines + [line];
    assert after.lines[..|after.lines| - 1] == lines;
    EntryOfRequest(Trim(addField), studentId, Trim(dropField));
  }

  // ---------------------------------------------------------------- parse

  /** selected.replace("Drop: ", "").replace("Add: ", "").split(", "), when it
      gives exactly two parts: the dropped and the added subject. */
  function ParseEntry(selected: string): (r: Option<(string, string)>)
    ensures r.Some? ==> r.value.1 != ""
  {
    var parts := Split(DeleteOccurrences(DeleteOccurrences(selected, "Drop: "), "Add: "), ", ");
    if |parts| == 2 then Some((parts[0], parts[1])) else None
  }

  /** Subjects the entry text can carry without being misread. */
  predicate Plain(s: string) {
    !Contains(s, "Drop: ") && !Contains(s, "Add: ") && !Contains(s, ", ")
  }

  /** Deleting "Drop: " from an entry leaves the rest as it is. */
  lemma DropLabelRemoved(drop: string, add: string)
    requires Plain(drop) && Plain(add)
    ensures DeleteOccurrences(Display(drop, add), "Drop: ") == drop + ", Add: " + add
  {
    var tag := ", Add: ";
    assert forall i :: 0 <= i < |tag| ==> tag[i] != 'D';
    DeleteOnlyLeading("Drop: ", drop, tag, add);
  }

  /** Deleting "Add: " next leaves the two subjects and the ", " between them. */
  lemma AddLabelRemoved(drop: string, add: string)
    requires Plain(drop) && Plain(add)
    ensures DeleteOccurrences(drop + ", Add: " + add, "Add: ") == drop + ", " + add
  {
    var pat := "Add: ";
    var mid := drop + ", ";
    var rest := pat + add;
    var s := mid + rest;
    assert drop + ", Add: " + add == s;
    assert s == drop + (", " + rest);
    NoMatchAcross(drop, ", " + rest, pat);
    assert s[|drop| + 1] == ' ';
    DeleteKeepsPrefix(mid, rest, pat);
    DeleteLeading(pat, add);
    DeleteAbsent(add, pat);
  }

  /** The two subjects, joined by ", ", split back apart. */
  lemma SplitPair(drop: string, add: string)
    requires Plain(drop) && Plain(add) && add != ""
    ensures Split(drop + ", " + add, ", ") == [drop, add]
  {
    var sep := ", ";
    var s := drop + sep + add;
    forall i | 0 <= i < |drop|
      ensures !MatchAt(s, sep, i)
    {
      if i + 2 <= |drop| {
        assert s[i..i + 2] == drop[i..i + 2];
        assert !MatchAt(drop, sep, i);
      } else {
        assert s[i + 1] == ',' && s[i..i + 2][1] == s[i + 1];
      }
    }
    FieldsAfterPrefix(drop, sep, add);
    assert NoMatchBefore(add, sep, |add|) by {
      assert forall i :: 0 <= i < |add| ==> !MatchAt(add, sep, i);
    }
    FieldsNoMatch(add, sep);
  }

  /** An entry of plain subjects, the added one non-empty, parses back into
      them. */
  lemma DisplayRoundTrip(drop: string, add: string)
    requires Plain(drop) && Plain(add) && add != ""
    ensures ParseEntry(Display(drop, add)) == Some((drop, add))
  {
    DropLabelRemoved(drop, add);
    AddLabelRemoved(drop, add);
    SplitPair(drop, add);
  }

  // --------------------------------------------------------------- delete

  function NotEqualTo(line: string): string -> bool {
    l => l != line
  }

  /** The delete button for list entry idx (-1 when nothing is selected):
      when the entry parses, every line equal to its request is removed from
      the file; the entry leaves the list either way. */
  function DeleteSelected(p: Panel, studentId: string, idx: int): (r: Panel)
    requires -1 <= idx < |p.listed|
    ensures idx == -1 ==> r == p
    ensures idx >= 0 ==> r.listed == p.listed[..idx] + p.listed[idx + 1..]
    ensures idx >= 0 && ParseEntry(p.listed[idx]).None? ==> r.lines == p.lines
  {
    if idx == -1 then p
    else
      var lines := match ParseEntry(p.listed[idx])
                   case Some((drop, add)) => Filter(p.lines, NotEqualTo(RequestLine(add, studentId, drop)))
                   case None => p.lines;
      Panel(lines, p.listed[..idx] + p.listed[idx + 1..])
  }

  /** A parsed deletion removes every copy of the request and keeps every
      other line as often as it was there. */
  lemma DeleteRemovesRequest(p: Panel, studentId: string, idx: int, line: string)
    requires 0 <= idx < |p.listed| && ParseEntry(p.listed[idx]).Some?
    ensures var (drop, add) := ParseEntry(p.listed[idx]).value;
            var after := DeleteSelected(p, studentId, idx).lines;
            multiset(after)[line] == if line == RequestLine(add, studentId, drop) then 0 else multiset(p.lines)[line]
  {
    var (drop, add) := ParseEntry(p.listed[idx]).value;
    FilterCount(p.lines, NotEqualTo(RequestLine(add, studentId, drop)), line);
  }

  /** Sending a request and deleting its entry straight away restores the
      list and leaves the file without any copy of the request. */
  lemma SendThenDelete(p: Panel, studentId: string, dropField: string, addField: string)
    requires Send(p, studentId, dropField, addField).Ok?
    requires Plain(Trim(dropField)) && Plain(Trim(addField))
    ensures var sent := Send(p, studentId, dropField, addField).value;
            var line := RequestLine(Trim(addField), studentId, Trim(dropField));
            var after := DeleteSelected(sent, studentId, |p.listed|);
            && after.listed == p.listed
            && after.lines == Filter(p.lines, NotEqualTo(line))
  {
    var drop, add := Trim(dropField), Trim(addField);
    var sent := Send(p, studentId, dropField, addField).value;
    var line := RequestLine(add, studentId, drop);
    assert sent.lines == p.lines + [line];
    assert sent.listed[|p.listed|] == Display(drop, add);
    DisplayRoundTrip(drop, add);
    FilterSnoc(p.lines, line, NotEqualTo(line));
    assert sent.listed[..|p.listed|] == p.listed;
  }
}
