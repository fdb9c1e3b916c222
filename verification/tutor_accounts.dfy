/** The tutor account logic of the stand-alone Swing tutor program
    (newTutorSystemComplete.java): Tutor.login over the lines of tutors.txt and
    the profile update that rewrites the tutor's own line. That program reads
    files without trimming them, so the lines here are exactly the file's. */
module TutorAccounts {
  import opened Wrappers
  import opened JavaText
  import opened Sequences

  /** One tutors.txt record: username,password,name,contact. */
  datatype Tutor = Tutor(username: string, password: string, name: string, contact: string)

  /** Tutor.login accepts a line for these credentials when it has at least four
      comma-separated fields and its first two, trimmed, equal the trimmed inputs. */
  predicate Accepts(line: string, username: string, password: string) {
    var parts := Split(line, ",");
    |parts| >= 4 && Trim(parts[0]) == Trim(username) && Trim(parts[1]) == Trim(password)
  }

  /** The tutor built from a line of four or more fields, each field trimmed. */
  function TutorOfLine(line: string): Tutor
    requires |Split(line, ",")| >= 4
  {
    var parts := Split(line, ",");
    Tutor(Trim(parts[0]), Trim(parts[1]), Trim(parts[2]), Trim(parts[3]))
  }

  function AcceptsFor(username: string, password: string): string -> bool {
    line => Accepts(line, username, password)
  }

  /** Tutor.login: the tutor of the first accepting line, None (null) when no
      line accepts. The returned credentials are the trimmed inputs. */
  function Login(lines: seq<string>, username: string, password: string): (r: Option<Tutor>)
    ensures r.None? <==> forall i :: 0 <= i < |lines| ==> !Accepts(lines[i], username, password)
    ensures r.Some? ==> r.value.username == Trim(username) && r.value.password == Trim(password)
  {
    match FirstIndex(lines, AcceptsFor(username, password))
    case None => None
    case Some(k) =>
      assert Accepts(lines[k], username, password);
      Some(TutorOfLine(lines[k]))
  }

  /** Login returns the tutor of the first accepting line. */
  lemma LoginPicksFirstAccepting(lines: seq<string>, username: string, password: string, k: nat)
    requires k < |lines| && Accepts(lines[k], username, password)
    requires forall i :: 0 <= i < k ==> !Accepts(lines[i], username, password)
    ensures Login(lines, username, password) == Some(TutorOfLine(lines[k]))
  {
    var first := FirstIndex(lines, AcceptsFor(username, password));
    assert AcceptsFor(username, password)(lines[k]);
    assert first.Some? && first.value <= k;
  }

  /** The tutors.txt line of this username: four or more fields, the first equal. */
  predicate IsProfileLine(line: string, username: string) {
    var parts := Split(line, ",");
    |parts| >= 4 && parts[0] == username
  }

  function ProfileLineOf(username: string): string -> bool {
    line => IsProfileLine(line, username)
  }

  /** The line the profile dialog writes for a tutor. */
  function ProfileLine(t: Tutor): string {
    t.username + "," + t.password + "," + t.name + "," + t.contact
  }

  /** showUpdateProfileDialog's save action. Name and contact are trimmed, the
      password is taken as typed; any of them empty is refused. Otherwise the
      first line of the tutor's username is replaced by the new profile line
      (the file is rewritten even when no line matches) and the logged-in
      tutor takes the new values. */
  function UpdateProfile(lines: seq<string>, current: Tutor, name: string, contact: string, password: string)
    : (r: Result<(seq<string>, Tutor)>)
    ensures r.Err? <==> Trim(name) == "" || Trim(contact) == "" || password == ""
    ensures r.Err? ==> r.message == "All fields are required."
    ensures r.Ok? ==>
              var updated := Tutor(current.username, password, Trim(name), Trim(contact));
              && r.value.1 == updated
              && (FirstIndex(lines, ProfileLineOf(current.username)).None? ==> r.value.0 == lines)
              && (FirstIndex(lines, ProfileLineOf(current.username)).Some? ==>
                    var k := FirstIndex(lines, ProfileLineOf(current.username)).value;
                    r.value.0 == lines[k := ProfileLine(updated)])
  {
    var n := Trim(name);
    var c := Trim(contact);
    if n == "" || c == "" || password == "" then Err("All fields are required.")
    else
      var updated := Tutor(current.username, password, n, c);
      var newLine := ProfileLine(updated);
      Ok((ReplaceFirst(lines, ProfileLineOf(current.username), _ => newLine), updated))
  }

  /** A profile line of comma-free, non-empty fields reads back as its four
      fields, so the next login (and the next profile update) find it. */
  lemma ProfileLineRoundTrip(t: Tutor)
    requires ',' !in t.username && ',' !in t.password && ',' !in t.name && ',' !in t.contact
    requires t.contact != ""
    ensures Split(ProfileLine(t), ",") == [t.username, t.password, t.name, t.contact]
  {
    var parts := [t.username, t.password, t.name, t.contact];
    assert WellFormedFields(',', parts);
    assert Join([','], parts[2..]) == t.name + "," + t.contact;
    assert Join([','], parts[1..]) == t.password + "," + Join([','], parts[2..]);
    assert Join([','], parts) == t.username + "," + Join([','], parts[1..]);
    SplitOfJoin(',', parts);
    assert Join([','], parts) == ProfileLine(t);
  }
}
