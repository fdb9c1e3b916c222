/** The admin dashboard's delete buttons in UnifiedTuitionSystem.java: a row
    of the tutor or receptionist table is deleted by removing every line of
    tutors.txt or receptionist.txt that starts with the row's username and a
    comma. */
module StaffRecords {
  import opened JavaText
  import opened Sequences
  import opened RecordStore
  import UnifiedLogin

  /** A line of this account: it starts with the username and a comma. */
  predicate IsAccountLine(line: string, username: string) {
    StartsWith(line, username + ",")
  }

  function KeepOthers(username: string): string -> bool {
    line => !IsAccountLine(line, username)
  }

  /** lines.removeIf(l -> l.startsWith(username + ",")): the other lines, in
      their order. */
  function DeleteAccount(lines: Lines, username: string): (r: Lines)
    ensures |r| <= |lines|
    ensures forall line :: line in r <==> line in lines && !IsAccountLine(line, username)
  {
    FilterMembers(lines, KeepOthers(username));
    Filter(lines, KeepOthers(username))
  }

  /** Every line of the account goes, every other line stays as often as it was. */
  lemma DeleteAccountCounts(lines: Lines, username: string, line: string)
    ensures multiset(DeleteAccount(lines, username))[line]
            == if IsAccountLine(line, username) then 0 else multiset(lines)[line]
  {
    FilterCount(lines, KeepOthers(username), line);
  }

  /** Without a line of the account the file is rewritten unchanged. */
  lemma DeleteUnknownKeepsAll(lines: Lines, username: string)
    requires forall i :: 0 <= i < |lines| ==> !IsAccountLine(lines[i], username)
    ensures DeleteAccount(lines, username) == lines
  {
    FilterKeepsAll(lines, KeepOthers(username));
  }

  /** After the deletion no line of the file lets the username sign in, with
      any password. */
  lemma DeletedAccountCannotSignIn(lines: Lines, username: string, password: string)
    ensures !UnifiedLogin.InStaffFile(DeleteAccount(lines, username), username, password)
  {
    var r := DeleteAccount(lines, username);
    forall i | 0 <= i < |r|
      ensures !UnifiedLogin.StaffAccepts(r[i], username, password)
    {
      assert r[i] in r;
      if |Split(r[i], ",")| >= 2 {
        SplitHeadPrefix(r[i], ',');
      }
    }
  }
}
