# Tuition centre records: a Dafny model

This project models the logic inside the GUI callbacks of a Java tuition-centre
application. The application has three programs:

- **The stand-alone tutor program** (`newTutorSystemComplete.java`). Its login
  window counts failed logins and locks the login button for five minutes after
  the third failure. A one-second timer shows the countdown as `m:ss`.
  `Tutor.login` searches `tutors.txt`. The dashboard adds, updates and deletes
  the tutor's own classes in `classes.txt`; a class deletion also removes the
  class's enrollments. The profile dialog rewrites the tutor's line.
- **The unified system** (`UnifiedTuitionSystem.java`):
  - `FileManager.readAllLines` trims every line and drops blank ones;
  - one login window detects the role from four account files, and the third
    failure ends the program;
  - the receptionist registers students, updates their enrollment, accepts
    payments and deletes students in `students.txt`;
  - the admin deletes tutors and receptionists;
  - the tutor adds, updates and deletes classes;
  - the student sends and deletes subject-change requests in `enrollments.txt`.
- **The admin window** (`AdminGUI.java`). It keeps in-memory lists of tutors and
  receptionists. Receptionists are stored one per line as `id,password`.

Every data file is a `seq<string>` of lines that goes into and comes out of pure
functions. Dialog input is a set of string parameters. A button's outcome is a
`Result`: either the rewritten list, or the message the dialog shows.

The Java library behaviour the handlers rely on is modelled in the `JavaText`
module. Each operation below has a contract. The round trips between them,
such as splitting a joined line or parsing a formatted number, are separate
lemmas:

- `trim`;
- `split` on a literal separator, which drops trailing empty fields and returns
  `[s]` when the separator does not occur;
- `String.join`;
- `replace(pat, "")`;
- `Integer.parseInt`, with its 32-bit range;
- `%0Nd` formatting;
- 32-bit wrap-around of `int` addition.

The `Sequences` module models the list idioms: first match, set-and-break,
remove-and-break, `List.remove(Object)` and `removeIf`.

Modules, one per file:
- `Wrappers`
- `JavaText`
- `Sequences`
- `RecordStore` (readAllLines)
- `TutorAccounts`, `TutorLockout` and `TutorClasses` (the tutor program)
- `UnifiedLogin`, `StudentRecords`, `ClassRecords`, `StaffRecords` and
  `SubjectRequests` (the unified system)
- `AdminLists` (the admin window)

The tutor program's lockout timer first decrements the countdown and then
tests it for `<= 0`. The lock therefore ends on the 300th tick after the third
failure, and the label shows `m:ss` on each of the 299 ticks before it
(`TutorLockout.LockoutLastsThreeHundredTicks`, `TutorLockout.Tick`).

## Model

| member | source | states |
|---|---|---|
| JavaText.Trim | UnifiedTuitionSystem.java:19 | the result is a slice s[a..e] of the line with only characters up to U+0020 before a and from e on; it starts and ends with a character above U+0020; it is empty exactly when the line is blank; a line with untouched ends comes back unchanged |
| JavaText.Split | UnifiedTuitionSystem.java:130 | the result is a prefix of the line's fields; a result of two or more fields does not end in an empty one |
| JavaText.SplitDropsOnlyEmpty | UnifiedTuitionSystem.java:130 | the fields split leaves out at the end are all empty |
| JavaText.Join | UnifiedTuitionSystem.java:450 | the joined string starts with the first part, and each of its characters comes from the separator or from a part |
| JavaText.SplitOfJoin | UnifiedTuitionSystem.java:450 | joining separator-free fields whose last field is non-empty, then splitting on the same character, gives the fields back |
| JavaText.SplitAfterFieldEdit | UnifiedTuitionSystem.java:493-496 | setting one field of a split line to a non-empty separator-free value and re-joining: the result splits into exactly the edited fields |
| JavaText.SplitHeadPrefix | UnifiedTuitionSystem.java:147 | when a character split gives two or more fields, the string starts with the first field and the separator |
| JavaText.ParsePadded | newTutorSystemComplete.java:467 | a zero-padded decimal parses back to the number printed |
| JavaText.WrapInt32 | newTutorSystemComplete.java:467 | `int` addition: the result is in the 32-bit range, equals the exact sum when that fits, and differs from it by a multiple of 2^32 |
| JavaText.ParseJavaInt | newTutorSystemComplete.java:462 | Integer.parseInt succeeds only on an optionally signed digit string whose value fits in 32 bits, and then returns that value |
| JavaText.FormatPadded | newTutorSystemComplete.java:467 | `%0Nd` prints at least N characters, and the text starts with '-' exactly when the number is negative |
| JavaText.ParseFormatted | newTutorSystemComplete.java:462-467 | every int, negative ones included, printed with `%0Nd` for any width N >= 1, is read back by Integer.parseInt as the same int |
| JavaText.DeleteOccurrences | UnifiedTuitionSystem.java:1110 | replace(pat, "") never lengthens the string, and leaves it unchanged whenever it removes nothing |
| JavaText.DeleteOnlyLeading | UnifiedTuitionSystem.java:1110 | replace(pat, "") on a string where pat occurs only at the start removes just that occurrence |
| Sequences.FirstIndex | UnifiedTuitionSystem.java:492-494 | none exactly when no element matches; otherwise the index of a matching element with no match before it |
| Sequences.ReplaceFirst | newTutorSystemComplete.java:592-597 | the set-and-break loop changes only the first matching element; without a match the list is unchanged |
| Sequences.RemoveFirst | UnifiedTuitionSystem.java:603-610 | the remove-and-break loop takes out only the first match and keeps the rest in order |
| Sequences.RemoveFirstMultiset | newTutorSystemComplete.java:626 | removing the first match takes exactly that one element out of the multiset |
| Sequences.Filter | UnifiedTuitionSystem.java:147 | removeIf keeps no more elements than the list had, and every element kept passes the predicate |
| Sequences.FilterMap | UnifiedTuitionSystem.java:1087-1092 | the list built by the loop has at most one value per element |
| Sequences.FilterMapMembers | UnifiedTuitionSystem.java:1087-1092 | a value is listed exactly when some element maps to it |
| Sequences.FilterMembers | UnifiedTuitionSystem.java:147 | removeIf keeps exactly the elements the predicate does not remove |
| Sequences.FilterCount | UnifiedTuitionSystem.java:1115 | removeIf leaves each kept value as often as before and each removed value not at all |
| Sequences.FilterSnoc | UnifiedTuitionSystem.java:1115 | filtering a list with one more line at the end filters the old list and then that line |
| RecordStore.ReadAllLines | UnifiedTuitionSystem.java:11-26 | every line read is non-empty and trimmed, and there are no more of them than raw lines |
| RecordStore.ReadAllLinesMembers | UnifiedTuitionSystem.java:18-20 | a line is read exactly when it is the trimmed form of a non-blank raw line |
| RecordStore.ReadAllLinesAppend | UnifiedTuitionSystem.java:18-20 | reading works line by line, so it keeps the relative order of lines |
| RecordStore.ReadAllLinesOfStored | UnifiedTuitionSystem.java:27-35 | lines that are already trimmed and non-blank are read back unchanged |
| RecordStore.AppendStoredLine | UnifiedTuitionSystem.java:36-40 | after appendLine of a stored line, the next read is the old read followed by that line |
| RecordStore.ReadAfterWrite | UnifiedTuitionSystem.java:27-35 | writing back what was read and reading again gives the same list |
| TutorAccounts.Login | newTutorSystemComplete.java:98-111 | null exactly when no line of four or more fields has the trimmed credentials; otherwise a tutor with the trimmed username and password |
| TutorAccounts.LoginPicksFirstAccepting | newTutorSystemComplete.java:100-107 | the tutor returned is the one from the first accepting line |
| TutorAccounts.UpdateProfile | newTutorSystemComplete.java:736-757 | refuses an empty trimmed name, an empty trimmed contact or an empty password; otherwise replaces only the first line of four or more fields whose first field is the username, and the logged-in tutor takes the new values |
| TutorAccounts.ProfileLineRoundTrip | newTutorSystemComplete.java:746 | a profile line of comma-free fields with a non-empty contact splits back into its four fields |
| TutorLockout.ClockOf | newTutorSystemComplete.java:230-231 | minutes*60 + seconds is the countdown and the seconds are below 60 |
| TutorLockout.ClockTextRoundTrip | newTutorSystemComplete.java:230-232 | the `%d:%02d` text parses back to exactly the seconds left |
| TutorLockout.FullLockoutShowsFiveMinutes | newTutorSystemComplete.java:224-226 | 300 seconds display as 5:00 |
| TutorLockout.LockedTextMatchesCountdown | newTutorSystemComplete.java:226 | the fixed lockout message shows the countdown text for the full lockout |
| TutorLockout.Attempt | newTutorSystemComplete.java:214-216 | the login finds a tutor exactly when some line accepts the trimmed username and the password as typed |
| TutorLockout.Submit | newTutorSystemComplete.java:213-245 | a disabled button changes nothing; a success opens the dashboard and keeps the counter; a failure adds exactly one to the counter |
| TutorLockout.Tick | newTutorSystemComplete.java:228-238 | each firing lowers the countdown by one; while time is left the label shows the countdown of the seconds left; at 0 the timer stops, the counter resets, the button is enabled and the label is cleared; without a running timer nothing changes |
| TutorLockout.Logout | newTutorSystemComplete.java:300-304 | logging out gives the login window with zero failures, an enabled button and an empty message |
| TutorLockout.StartIsReachable | newTutorSystemComplete.java:119-120 | the first window satisfies the invariant: below three failures and no timer |
| TutorLockout.StepRefinesGuard | newTutorSystemComplete.java:213-245 | every event keeps the invariant and moves the three-state guard (active, locked out, authenticated) as the guard machine says |
| TutorLockout.SubmitRefinesGuard | newTutorSystemComplete.java:222-226 | a login press keeps the invariant: below three failures it stays active; the third failure locks for 300 seconds |
| TutorLockout.TickRefinesGuard | newTutorSystemComplete.java:229-238 | a tick keeps the invariant and counts the lock down, unlocking with zero failures at the end |
| TutorLockout.LogoutRefinesGuard | newTutorSystemComplete.java:300-304 | logout keeps the invariant and returns the authenticated guard to active with zero failures |
| TutorLockout.FailureBelowLimit | newTutorSystemComplete.java:222-243 | below the limit a failure adds one and shows `3 - attempts` attempts left, and the button stays enabled |
| TutorLockout.ThirdFailureLocks | newTutorSystemComplete.java:223-226 | the third failure sets 300 seconds, disables the button, starts the timer and shows 5:00 |
| TutorLockout.ThreeBadLoginsFromStart | newTutorSystemComplete.java:222-226 | from the first window, two failures leave 2 and then 1 attempts; the third locks |
| TutorLockout.LockedIgnoresLogins | newTutorSystemComplete.java:225 | while locked, no answer of the login changes the session |
| TutorLockout.TicksCountDown | newTutorSystemComplete.java:228-238 | after k ticks of a lock with n seconds left, the window is still locked with n - k left while k < n, and unlocked and reset at k = n |
| TutorLockout.LockoutLastsThreeHundredTicks | newTutorSystemComplete.java:224-238 | after the third failure, the button stays disabled for the next 299 ticks and is enabled, with a zero counter and an empty message, after exactly 300 |
| TutorLockout.SuccessThenLogout | newTutorSystemComplete.java:300-304 | a correct login opens the dashboard whatever the earlier failures were, and logging out resets the counter to zero |
| TutorClasses.IdDigits | newTutorSystemComplete.java:460-462 | the digits read start after the leading C and stop at the line's first comma |
| TutorClasses.MaxIdNumber | newTutorSystemComplete.java:458-466 | the maximum is at least 0 and at least every parsed ID, and is 0 or one of them |
| TutorClasses.NextClassId | newTutorSystemComplete.java:457-467 | the corrected new ID is C followed by at least three digits that read back as the largest ID number plus one |
| TutorClasses.NextClassIdIsFresh | newTutorSystemComplete.java:457-467 | with unbounded arithmetic the new ID is the key of no existing line |
| TutorClasses.NextClassIdAsWritten | newTutorSystemComplete.java:457-467 | the ID as the program computes it is C and at least three more characters, which Integer.parseInt reads as the largest ID number plus one, or as the smallest int when that number is the largest int |
| TutorClasses.WrappedIdReadsBack | newTutorSystemComplete.java:467 | `"C" + String.format("%03d", maxId + 1)` with int arithmetic reads back as maxId + 1, or as the smallest int when maxId is the largest int |
| TutorClasses.NextClassIdAsWrittenCollides | newTutorSystemComplete.java:457-467 | with 32-bit parseInt and `maxId + 1`, a file holding C2147483647 and C-2147483648 gets the new ID C-2147483648 again |
| TutorClasses.MaxIdNumberInIntRange | newTutorSystemComplete.java:458-466 | when every ID number is below the largest int, the largest ID found with Integer.parseInt is the one found without a bound |
| TutorClasses.NextClassIdsAgree | newTutorSystemComplete.java:457-467 | when every ID number is below the largest int, the ID the program computes with int arithmetic equals the corrected ID |
| TutorClasses.WrapRepeatsKey | newTutorSystemComplete.java:463-467 | whenever the largest parsed ID is the largest int, the new ID as written is C-2147483648, so a line with that key collides |
| TutorClasses.MyClasses | newTutorSystemComplete.java:481-486 | the listed classes are exactly the lines of five or more fields whose fifth is the tutor |
| TutorClasses.CheckInput | newTutorSystemComplete.java:439-456 | refuses an empty subject or empty charges with "All fields are required.", and unparseable or negative charges with "Charges must be a positive number." |
| TutorClasses.ScheduleText | newTutorSystemComplete.java:441-444 | the schedule starts with the day and a space, and holds a comma only when one of the seven choices does |
| TutorClasses.OfferedScheduleCommaFree | newTutorSystemComplete.java:382-395 | every schedule built from the combo boxes' days, hours, minutes and am/pm is comma-free |
| TutorClasses.AddClass | newTutorSystemComplete.java:438-469 | invalid input gives the dialog's message; valid input appends exactly one line: the corrected next ID, the trimmed subject, the charges text, the schedule text of the picked slot and the tutor |
| TutorClasses.ClassLineRoundTrip | newTutorSystemComplete.java:468 | a class line of comma-free fields with a non-empty tutor splits back into its five fields |
| TutorClasses.AddedClassIsOwnedAndFresh | newTutorSystemComplete.java:441-469 | with a slot picked from the combo boxes, the added line is listed among the tutor's classes, carries the new ID, and that ID is the key of no earlier line |
| TutorClasses.UpdateClass | newTutorSystemComplete.java:572-597 | invalid input gives the dialog's message and valid input always succeeds; then only the first line equal to the picked class changes; it gets the same ID, the new values and the tutor |
| TutorClasses.UpdatedClassKeepsIdAndOwner | newTutorSystemComplete.java:591 | the rewritten line keeps the picked class's ID and stays the tutor's |
| TutorClasses.DeleteClass | newTutorSystemComplete.java:625-637 | the first line equal to the picked class leaves classes.txt and the other lines keep their order; the enrollments kept are exactly those not starting with the class ID and a comma, in their original order |
| TutorClasses.RemoveFirstEqual | newTutorSystemComplete.java:626 | List.remove(Object) removes the first occurrence when present, keeping the others in order, and changes nothing otherwise |
| TutorClasses.DeleteClassCascade | newTutorSystemComplete.java:629-636 | no enrollment of the deleted class is left, and every other enrollment stays as often as it was there |
| UnifiedLogin.StaffLoop | UnifiedTuitionSystem.java:1293-1296 | the loop finds a line exactly when some line has two or more fields, the username first and the password second |
| UnifiedLogin.StudentLoop | UnifiedTuitionSystem.java:1305-1308 | the loop finds a line exactly when some line has three or more ';' fields, the username first or second, and the password third |
| UnifiedLogin.DetectRole | UnifiedTuitionSystem.java:1292-1310 | the role is that of the first file, in the order admin, receptionist, tutor, student, that accepts the credentials; null exactly when none does |
| UnifiedLogin.StudentSignsInEitherWay | UnifiedTuitionSystem.java:1307 | a student record signs in with its name or its ID when no staff file accepts them |
| UnifiedLogin.HandleLogin | UnifiedTuitionSystem.java:1274-1291 | a found role opens its dashboard; otherwise the count rises by one and the window shows the attempts left, or the program ends at the third failure |
| UnifiedLogin.HandleLoginKeepsInv | UnifiedTuitionSystem.java:1283-1289 | an open window always has fewer failures than the limit |
| UnifiedLogin.AttemptsLeftReadsBack | UnifiedTuitionSystem.java:1288 | the number in the message is `MAX_ATTEMPTS - loginAttempts`, between 1 and 2 |
| UnifiedLogin.SuccessOpensDashboard | UnifiedTuitionSystem.java:1278-1281 | accepted credentials open the dashboard whatever the failure count |
| UnifiedLogin.ClosedStaysClosed | UnifiedTuitionSystem.java:1280-1286 | once the window is disposed or the program has ended, later presses change nothing |
| UnifiedLogin.RefusedPresses | UnifiedTuitionSystem.java:1283-1289 | refused presses raise the count one at a time, and the program ends at the press that reaches the limit |
| UnifiedLogin.ThreeRefusalsExit | UnifiedTuitionSystem.java:1245-1289 | from a fresh window, refused presses end the program exactly when there are three or more of them |
| StudentRecords.FindStudent | UnifiedTuitionSystem.java:492-494 | the index is that of the first line of eight or more ';' fields whose second is the ID; none exactly when there is no such line |
| StudentRecords.EditFieldReadsBack | UnifiedTuitionSystem.java:495-496 | the edited line splits into the old fields with field j replaced |
| StudentRecords.FindAfterEdit | UnifiedTuitionSystem.java:492-498 | replacing the found line with another record of the student keeps it the first one found |
| StudentRecords.StudentIdMeaning | UnifiedTuitionSystem.java:448 | the ID is S followed by the clock reading modulo 100000, so readings 100000 ms apart give the same ID |
| StudentRecords.RegisterStudent | UnifiedTuitionSystem.java:430-452 | refused exactly when a field is empty ("All fields required.") or there are more than 3 subjects ("Maximum 3 subjects allowed."); otherwise one record is appended |
| StudentRecords.RegisteredStudentReadsBack | UnifiedTuitionSystem.java:448-451 | the appended record survives readAllLines at the end of the file and splits into its nine fields; when no earlier record has its ID, it is the record the other handlers find |
| StudentRecords.UpdateEnrollment | UnifiedTuitionSystem.java:478-506 | refuses empty fields, more than three subjects and an unknown ID; otherwise only the student's first record changes |
| StudentRecords.EnrollmentUpdateReadsBack | UnifiedTuitionSystem.java:490-500 | after the update the student's record is found at the same place, its subjects field is the new one, and its other fields are unchanged |
| StudentRecords.NewBalance | UnifiedTuitionSystem.java:553 | the new balance is never negative: it is either old - amount or 0 |
| StudentRecords.PaymentLowersBalance | UnifiedTuitionSystem.java:553 | a non-negative payment never raises a non-negative balance, and pays it off down to 0 |
| StudentRecords.NegativePaymentRaisesBalance | UnifiedTuitionSystem.java:539-553 | a negative amount is accepted and raises the balance |
| StudentRecords.AcceptPayment | UnifiedTuitionSystem.java:532-573 | refuses empty fields, an unparseable amount and an unknown ID; otherwise only the balance field of the student's first record changes |
| StudentRecords.PaymentReadsBack | UnifiedTuitionSystem.java:548-555 | after a payment the record is found at the same place and its balance field is the new balance's text |
| StudentRecords.DeleteStudent | UnifiedTuitionSystem.java:595-616 | refuses an empty ID or one that no line carries in its second field; otherwise removes the first such line |
| StudentRecords.DeleteRemovesOneRecord | UnifiedTuitionSystem.java:603-610 | a deletion removes exactly one line, one of that student, and keeps the rest in order |
| ClassRecords.FindClass | UnifiedTuitionSystem.java:787-789 | the index is that of the first line with the class ID first and the tutor fifth; none exactly when there is no such line |
| ClassRecords.ReadForm | UnifiedTuitionSystem.java:736-743 | all four fields trimmed; refused with "All fields required." exactly when one is empty |
| ClassRecords.AddClass | UnifiedTuitionSystem.java:735-745 | a filled form appends exactly one line, the four values and the tutor |
| ClassRecords.AddedClassIsFound | UnifiedTuitionSystem.java:744 | the added line splits into its five values; when the file had no line of that class and tutor, it is the line the update and delete panels find |
| ClassRecords.UpdateOwned | UnifiedTuitionSystem.java:785-803 | without a line of the tutor's class the update is refused as not found or not owned; otherwise only that first line is replaced |
| ClassRecords.UpdateClass | UnifiedTuitionSystem.java:776-803 | an incomplete form is refused before the file is searched |
| ClassRecords.EditClassReadsBack | UnifiedTuitionSystem.java:790-793 | the rewritten line splits into the old fields with subject, price and schedule replaced |
| ClassRecords.ClassUpdateReadsBack | UnifiedTuitionSystem.java:785-797 | after an update the class is still found at the same place, holds the new values, and no other line changed |
| ClassRecords.DeleteClass | UnifiedTuitionSystem.java:825-846 | refuses an empty ID, and refuses a class that is not found or not owned; otherwise removes the first line of the tutor's class |
| ClassRecords.DeleteClassRemovesOne | UnifiedTuitionSystem.java:831-840 | exactly one line of the tutor's class leaves the file |
| ClassRecords.OtherTutorsClassStays | UnifiedTuitionSystem.java:835 | a line owned by another tutor is never removed |
| StaffRecords.DeleteAccount | UnifiedTuitionSystem.java:146-148 | the lines kept are exactly those not starting with the username and a comma |
| StaffRecords.DeleteAccountCounts | UnifiedTuitionSystem.java:212-214 | every line of the account goes, and every other line stays as often as it was there |
| StaffRecords.DeleteUnknownKeepsAll | UnifiedTuitionSystem.java:147 | without a line of the account the file is rewritten unchanged |
| StaffRecords.DeletedAccountCannotSignIn | UnifiedTuitionSystem.java:146-148 | after the deletion no line of the file signs the username in, with any password |
| SubjectRequests.Listed | UnifiedTuitionSystem.java:1086-1092 | the list has at most one entry per line, and an entry is listed exactly when some line of exactly three fields, with the student ID second, gives it |
| SubjectRequests.Open | UnifiedTuitionSystem.java:1086-1092 | the panel keeps the file as read, and lists exactly the entries of the student's request lines |
| SubjectRequests.Send | UnifiedTuitionSystem.java:1094-1104 | refused exactly when a trimmed subject is empty ("Both fields required."); otherwise the line add,studentId,drop of the trimmed subjects goes at the end of the file and "Drop: d, Add: a" at the end of the list |
| SubjectRequests.SentRequestIsListed | UnifiedTuitionSystem.java:1086-1102 | after a send, reopening the panel lists exactly what the send left in the list |
| SubjectRequests.ParseEntry | UnifiedTuitionSystem.java:1110-1113 | a parsed entry always has a non-empty added subject, since split drops an empty last field |
| SubjectRequests.DisplayRoundTrip | UnifiedTuitionSystem.java:1090-1113 | an entry "Drop: d, Add: a" parses back to (d, a) when neither holds ", ", "Drop: " or "Add: " and a is non-empty |
| SubjectRequests.DeleteSelected | UnifiedTuitionSystem.java:1106-1119 | without a selection nothing changes; otherwise the entry leaves the list, and an entry that does not parse leaves the file alone |
| SubjectRequests.DeleteRemovesRequest | UnifiedTuitionSystem.java:1114-1115 | a parsed deletion removes every copy of the request line and keeps every other line as often as it was there |
| SubjectRequests.SendThenDelete | UnifiedTuitionSystem.java:1094-1119 | sending a request and deleting its entry straight away restores the list and leaves the file without that request |
| AdminLists.RegisterTutor | AdminGUI.java:117-124 | fails, leaving the list alone, exactly when parseInt rejects the level; otherwise appends one tutor with that name, subject and the parsed level |
| AdminLists.RegisteredLevelReadsBack | AdminGUI.java:120-121 | a level typed as a decimal in the int range is stored as that number |
| AdminLists.DeleteTutor | AdminGUI.java:126-131 | the list never grows, and a tutor stays exactly when it was there and has another name |
| AdminLists.DeleteTutorCounts | AdminGUI.java:126-129 | every tutor of that name is removed, and every other tutor stays as often as it was there |
| AdminLists.DeleteUnknownTutor | AdminGUI.java:128 | deleting a name no tutor has changes nothing |
| AdminLists.RegisterReceptionist | AdminGUI.java:133-137 | exactly one receptionist is appended at the end; the others are unchanged |
| AdminLists.UpdateProfile | AdminGUI.java:141-153 | with no matching id the list is unchanged and "Receptionist Not Found!" is shown; otherwise "Profile Updated!" |
| AdminLists.UpdateProfileChangesOne | AdminGUI.java:144-150 | only the first receptionist with the id changes, taking the new password and keeping the id |
| AdminLists.Report | AdminGUI.java:155-158 | the report starts with the heading and "Total Tutors: ", has more after it, and ends with a line break |
| AdminLists.ReportCountsTutors | AdminGUI.java:155-158 | the number after "Total Tutors: " reads back as the number of tutors |
| AdminLists.ParseReceptionist | AdminGUI.java:184-187 | a line loads exactly when it splits into two or more fields |
| AdminLists.LoadAll | AdminGUI.java:180-192 | the load succeeds exactly when every line loads, and gives one receptionist per line, in order |
| AdminLists.SaveAll | AdminGUI.java:205-214 | one line per receptionist, in list order |
| AdminLists.Serialize | AdminGUI.java:226-229 | the line is the id, one comma, then the password |
| AdminLists.SerializeRoundTrip | AdminGUI.java:226-229 | a receptionist with comma-free fields and a non-empty password reads back from its line |
| AdminLists.SaveLoadRoundTrip | AdminGUI.java:184-229 | saving such receptionists and loading the file gives the list back |
| AdminLists.EmptyPasswordDoesNotLoad | AdminGUI.java:184-186 | an empty password is saved as `id,`, and that line no longer loads |

## Left out

- Swing and JavaFX widgets, dialogs, tables, layout and styling are UI plumbing. The model works on the values the handlers read from the widgets.
- File I/O (`FileReader`, `FileWriter`, `ensureFile`, the hard-coded paths) is left out. Each file is a list of lines, passed in and returned; I/O failures are not modelled.
- The Swing lockout timer is replaced by an explicit `Tick` event.
- `Double.parseDouble`, the double-to-text conversion and `%.2f` are parameters (`parseDouble`, `showDouble`). Balances are `real` without rounding.
- The payment receipt, which uses `new Date()` and `%.2f` and is appended to `all_receipts.txt`, is left out.
- The admin income report of the unified system (UnifiedTuitionSystem.java:276-304) is left out. It relies on doubles, `%.2f` and `HashMap` iteration order.
- `System.currentTimeMillis()` in the student ID is a parameter (`millis`).
- `StudentGUI.java` is not part of this model. It is a JavaFX demo with random sample data.
- The tables and list views that only display data are left out: view students, view classes, view enrolled students, and the admin tables.
- `Integer.parseInt` also accepts non-ASCII Unicode digits. The model reads ASCII digits only.
- `String.split` is modelled for literal separators only, which are the only ones the code uses.
- TutorClasses.AddClass: the appended line carries the corrected ID `NextClassId`, which reads IDs without a bound and does not wrap. The program reads them with 32-bit `Integer.parseInt`, skips IDs outside the int range and wraps `maxId + 1`. The two agree whenever every ID number is below the largest int (`TutorClasses.NextClassIdsAgree`); where they differ is the finding below.
- AdminLists.RegisterTutor: the `Tutor` class of `AdminGUI.java` is not part of this model. A tutor is its three constructor values. `Tutor.toString`, `saveTutors` and `loadTutors` are left out for the same reason.
- AdminLists.LoadAll: loading appends to an empty list, so the model returns the loaded list. An `ArrayIndexOutOfBoundsException` from a short line is `None`.
- UnifiedLogin.HandleLogin: the "Maximum login attempts reached." dialog before `System.exit` is not modelled. The ended program is the `Exited` state.
- SubjectRequests.DeleteSelected: the handler reads `enrollments.txt` again before deleting. The model takes the panel's lines to be that file's contents as read, so writes by other windows in between are not modelled.
- TutorLockout.Submit: the success message and the disposal of the login frame are reduced to the screen changing to the dashboard.

## Findings

| source | as written | input that shows it | evidently intended | confidence | as-written member | corrected member |
|---|---|---|---|---|---|---|
| newTutorSystemComplete.java:457-467 | the next class ID is `"C" + String.format("%03d", maxId + 1)`, with `maxId` an `int` found by `Integer.parseInt`; `maxId + 1` wraps at 2^31 - 1 | classes.txt holding `C2147483647,Maths` and `C-2147483648,Art`: the new ID is `C-2147483648`, the ID of the second line | a new class ID differs from every existing ID | not executed | TutorClasses.NextClassIdAsWritten, TutorClasses.NextClassIdAsWrittenCollides | TutorClasses.NextClassId, TutorClasses.NextClassIdIsFresh |
