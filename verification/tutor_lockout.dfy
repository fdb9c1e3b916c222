/** The login window of the stand-alone Swing tutor program
    (newTutorSystemComplete.java, TutorSystemGUI): failed logins are counted,
    the third one disables the login button for five minutes, a one-second
    timer counts the lockout down on screen as m:ss, and at zero the counter is
    reset and the button enabled again. The Swing timer becomes an explicit
    Tick event; the file tutors.txt is a parameter of every login attempt. */
module TutorLockout {
  import opened Wrappers
  import opened JavaText
  import TutorAccounts

  /** MAX_ATTEMPTS. */
  const MaxAttempts: int := 3

  /** The lockout length set on the third failure, 5 * 60 seconds. */
  const LockoutSeconds: int := 5 * 60

  datatype Screen = LoginWindow | Dashboard(tutor: TutorAccounts.Tutor)

  /** The fields of TutorSystemGUI that the login window reads and writes. */
  datatype Session = Session(
    attempts: int,        // loginAttempts
    secondsLeft: int,     // lockoutSecondsLeft
    loginEnabled: bool,   // whether the login button is enabled
    timerRunning: bool,   // whether the lockout timer is running
    message: Notice,      // what the message label shows
    screen: Screen)

  /** The program's first window: no failures, button enabled, empty message. */
  const Start: Session := Session(0, 0, true, false, Blank, LoginWindow)

  datatype Event =
    | Press(username: string, password: string)   // the login button (or Enter)
    | Tick                                         // one firing of the lockout timer
    | SignOff                                      // the dashboard's logout button

  // ------------------------------------------------------- countdown text

  /** A countdown split into whole minutes and the remaining seconds. */
  datatype Clock = Clock(minutes: nat, seconds: nat)

  function ClockOf(secondsLeft: nat): (c: Clock)
    ensures c.minutes * 60 + c.seconds == secondsLeft
    ensures c.seconds < 60
  {
    Clock(secondsLeft / 60, secondsLeft % 60)
  }

  /** "%d:%02d" of the minutes and seconds. */
  function ClockText(secondsLeft: nat): string {
    ShowClock(ClockOf(secondsLeft))
  }

  function ShowClock(c: Clock): string {
    NatToString(c.minutes) + ":" + ZeroPad(NatToString(c.seconds), 2)
  }

  /** Reads m:ss back: digits, a colon, exactly two digits below 60. */
  function ParseClock(text: string): Option<nat> {
    var parts := Split(text, ":");
    if |parts| == 2 && |parts[0]| >= 1 && AllDigits(parts[0]) && |parts[1]| == 2 && AllDigits(parts[1])
       && DigitsValue(parts[1]) < 60
    then Some(DigitsValue(parts[0]) * 60 + DigitsValue(parts[1]))
    else None
  }

  /** The seconds part of the countdown: always two digits, reading back as the value. */
  lemma TwoDigitSeconds(n: nat)
    requires n < 60
    ensures |ZeroPad(NatToString(n), 2)| == 2
    ensures AllDigits(ZeroPad(NatToString(n), 2))
    ensures DigitsValue(ZeroPad(NatToString(n), 2)) == n
  {
    if n >= 10 {
      assert NatToString(n) == NatToString(n / 10) + [DigitChar(n % 10)];
      assert |NatToString(n / 10)| == 1;
    }
    ZeroPadKeepsValue(NatToString(n), 2);
    DigitsValueOfNatToString(n);
  }

  /** Two digit strings joined by a colon split back into the two. */
  lemma ColonSplit(m: string, sec: string)
    requires AllDigits(m) && AllDigits(sec) && sec != ""
    ensures Split(m + ":" + sec, ":") == [m, sec]
  {
    assert ':' !in m by {
      assert forall i :: 0 <= i < |m| ==> IsDigit(m[i]);
    }
    assert ':' !in sec by {
      assert forall i :: 0 <= i < |sec| ==> IsDigit(sec[i]);
    }
    assert WellFormedFields(':', [m, sec]);
    assert Join([':'], [m, sec]) == m + ":" + sec;
    SplitOfJoin(':', [m, sec]);
  }

  lemma ShowClockRoundTrip(c: Clock)
    requires c.seconds < 60
    ensures ParseClock(ShowClock(c)) == Some(c.minutes * 60 + c.seconds)
  {
    var m := NatToString(c.minutes);
    var sec := ZeroPad(NatToString(c.seconds), 2);
    TwoDigitSeconds(c.seconds);
    DigitsValueOfNatToString(c.minutes);
    ColonSplit(m, sec);
    assert ShowClock(c) == m + ":" + sec;
    var parts := Split(ShowClock(c), ":");
    assert parts == [m, sec];
    assert |parts| == 2 && |parts[0]| >= 1 && AllDigits(parts[0]) && |parts[1]| == 2 && AllDigits(parts[1]);
    assert DigitsValue(parts[0]) == c.minutes && DigitsValue(parts[1]) == c.seconds;
  }

  /** The displayed countdown denotes exactly the seconds left. */
  lemma ClockTextRoundTrip(secondsLeft: nat)
    ensures ParseClock(ClockText(secondsLeft)) == Some(secondsLeft)
  {
    ShowClockRoundTrip(ClockOf(secondsLeft));
  }

  /** Five minutes are shown as 5:00. */
  lemma FullLockoutShowsFiveMinutes()
    ensures ClockText(LockoutSeconds) == "5:00"
  {
    assert ClockOf(LockoutSeconds) == Clock(5, 0);
    assert NatToString(5) == "5";
    assert NatToString(0) == "0";
    assert Zeros(1) == "0";
    assert ZeroPad("0", 2) == "00";
    assert ShowClock(Clock(5, 0)) == "5" + ":" + "00";
  }

  // ------------------------------------------------------------- messages

  const LockedPrefix: string := "Maximum login attempts reached. Please wait "
  const WaitSuffix: string := " to try again."

  /** The message label's contents, kept symbolic in the session and rendered
      by Text. */
  datatype Notice =
    | Blank                      // ""
    | AttemptsLeft(left: nat)    // after a failure below the limit
    | LockedNow                  // right after the third failure
    | Countdown(secondsLeft: nat) // each second of the lockout

  function Text(n: Notice): string {
    match n
    case Blank => ""
    case AttemptsLeft(left) => "Invalid credentials. Attempts left: " + NatToString(left)
    case LockedNow => LockedPrefix + "5:00" + WaitSuffix
    case Countdown(left) => "Locked out. Please wait " + ClockText(left) + WaitSuffix
  }

  /** The fixed text shown on lockout is the countdown text of the full lockout. */
  lemma LockedTextMatchesCountdown()
    ensures Text(LockedNow) == LockedPrefix + ClockText(LockoutSeconds) + WaitSuffix
  {
    FullLockoutShowsFiveMinutes();
  }

  // ---------------------------------------------------------- transitions

  /** The login button can be pressed: the login window is showing and the
      button is enabled (a disabled button delivers no action at all). */
  predicate CanSubmit(s: Session) {
    s.screen.LoginWindow? && s.loginEnabled
  }

  /** What Tutor.login answers for the typed fields: the username field is
      trimmed before the call, the password is passed as typed. */
  function Attempt(tutors: seq<string>, username: string, password: string): (r: Option<TutorAccounts.Tutor>)
    ensures r.Some? <==> exists i :: 0 <= i < |tutors| && TutorAccounts.Accepts(tutors[i], Trim(username), password)
  {
    TutorAccounts.Login(tutors, Trim(username), password)
  }

  /** The login action once Tutor.login has answered `found`. A success opens
      the dashboard and leaves the failure counter alone; a failure counts,
      and the third one starts the lockout. */
  function Submit(s: Session, found: Option<TutorAccounts.Tutor>): (r: Session)
    ensures !CanSubmit(s) ==> r == s
    ensures CanSubmit(s) && found.Some? ==> r.screen == Dashboard(found.value) && r.attempts == s.attempts
    ensures CanSubmit(s) && found.None? ==> r.screen.LoginWindow? && r.attempts == s.attempts + 1
  {
    if !CanSubmit(s) then s
    else
      match found
      case Some(t) => s.(screen := Dashboard(t))
      case None =>
        var n := s.attempts + 1;
        if n >= MaxAttempts then
          s.(attempts := n, secondsLeft := LockoutSeconds, loginEnabled := false,
             timerRunning := true, message := LockedNow)
        else
          s.(attempts := n, message := AttemptsLeft(MaxAttempts - n))
  }

  /** One firing of the lockout timer: one second less; at zero or below the
      timer stops, the counter resets, the button is enabled and the message
      cleared. Without a running timer nothing fires. */
  function Tick(s: Session): (r: Session)
    ensures !s.timerRunning ==> r == s
    ensures s.timerRunning ==> r.secondsLeft == s.secondsLeft - 1
    ensures s.timerRunning && s.secondsLeft <= 1 ==> !r.timerRunning && r.loginEnabled && r.attempts == 0
    ensures s.timerRunning && s.secondsLeft > 1 ==> r.timerRunning && r.loginEnabled == s.loginEnabled && r.attempts == s.attempts
    ensures s.timerRunning && s.secondsLeft > 1 ==> r.message == Countdown(r.secondsLeft)
    ensures s.timerRunning && s.secondsLeft <= 1 ==> r.message == Blank
  {
    if !s.timerRunning then s
    else
      var left := s.secondsLeft - 1;
      if left <= 0 then
        s.(secondsLeft := left, timerRunning := false, attempts := 0, loginEnabled := true, message := Blank)
      else
        s.(secondsLeft := left, message := Countdown(left))
  }

  /** The dashboard's logout: a fresh login window with the counter at zero. */
  function Logout(s: Session): (r: Session)
    ensures s.screen.Dashboard? ==> r.screen.LoginWindow? && r.attempts == 0 && r.loginEnabled && r.message == Blank
    ensures !s.screen.Dashboard? ==> r == s
  {
    if s.screen.Dashboard? then s.(screen := LoginWindow, attempts := 0, loginEnabled := true, message := Blank)
    else s
  }

  function Step(s: Session, tutors: seq<string>, e: Event): Session {
    match e
    case Press(u, p) => Submit(s, Attempt(tutors, u, p))
    case Tick => Tick(s)
    case SignOff => Logout(s)
  }

  /** n timer firings in a row. */
  function Ticks(s: Session, n: nat): Session
    decreases n
  {
    if n == 0 then s else Ticks(Tick(s), n - 1)
  }

  // ------------------------------------------------- reachable states

  /** What holds of every session the program can reach: while the timer runs
      the button is disabled, three failures are recorded and 1..300 seconds
      remain; otherwise fewer than three failures are recorded. */
  predicate Inv(s: Session) {
    && 0 <= s.attempts <= MaxAttempts
    && (s.timerRunning <==> !s.loginEnabled)
    && (s.timerRunning ==> s.screen.LoginWindow? && s.attempts == MaxAttempts
                           && 1 <= s.secondsLeft <= LockoutSeconds)
    && (!s.timerRunning ==> s.attempts < MaxAttempts)
  }

  lemma StartIsReachable()
    ensures Inv(Start)
  {
  }

  /** The lockout guard as a three-state machine. */
  datatype Guard = Active(failures: nat) | LockedOut(remaining: nat) | Authenticated

  datatype GuardEvent = WrongCredentials | RightCredentials | OneSecond | SignOut

  /** The guard's transitions: fewer than three failures stay active, the third
      locks for LockoutSeconds, each second counts down and the last one
      unlocks with the count at zero; a lock ignores login attempts. */
  function GuardStep(g: Guard, e: GuardEvent): Guard {
    match (g, e)
    case (Active(n), WrongCredentials) =>
      if n + 1 >= MaxAttempts then LockedOut(LockoutSeconds) else Active(n + 1)
    case (Active(_), RightCredentials) => Authenticated
    case (LockedOut(r), OneSecond) => if r <= 1 then Active(0) else LockedOut(r - 1)
    case (Authenticated, SignOut) => Active(0)
    case _ => g
  }

  function Abstract(s: Session): Guard
    requires Inv(s)
  {
    if s.screen.Dashboard? then Authenticated
    else if s.timerRunning then LockedOut(s.secondsLeft)
    else Active(s.attempts)
  }

  function OutcomeEvent(found: Option<TutorAccounts.Tutor>): GuardEvent {
    if found.Some? then RightCredentials else WrongCredentials
  }

  /** Which guard event a concrete event amounts to. */
  function Classify(tutors: seq<string>, e: Event): GuardEvent {
    match e
    case Press(u, p) => OutcomeEvent(Attempt(tutors, u, p))
    case Tick => OneSecond
    case SignOff => SignOut
  }

  lemma SubmitRefinesGuard(s: Session, found: Option<TutorAccounts.Tutor>)
    requires Inv(s)
    ensures Inv(Submit(s, found))
    ensures Abstract(Submit(s, found)) == GuardStep(Abstract(s), OutcomeEvent(found))
  {
  }

  lemma TickRefinesGuard(s: Session)
    requires Inv(s)
    ensures Inv(Tick(s)) && Tick(s).screen == s.screen
    ensures Abstract(Tick(s)) == GuardStep(Abstract(s), OneSecond)
  {
    var t := Tick(s);
    if !s.timerRunning {
      assert t == s;
    } else if s.secondsLeft <= 1 {
      assert !t.timerRunning && t.attempts == 0 && t.loginEnabled && t.screen == s.screen;
    } else {
      assert t.timerRunning && t.attempts == s.attempts && !t.loginEnabled && t.screen == s.screen;
      assert t.secondsLeft == s.secondsLeft - 1;
    }
  }

  lemma LogoutRefinesGuard(s: Session)
    requires Inv(s)
    ensures Inv(Logout(s))
    ensures Abstract(Logout(s)) == GuardStep(Abstract(s), SignOut)
  {
  }

  /** Every step keeps the invariant and moves the guard exactly as GuardStep says. */
  lemma StepRefinesGuard(s: Session, tutors: seq<string>, e: Event)
    requires Inv(s)
    ensures Inv(Step(s, tutors, e))
    ensures Abstract(Step(s, tutors, e)) == GuardStep(Abstract(s), Classify(tutors, e))
  {
    match e
    case Press(u, p) => SubmitRefinesGuard(s, Attempt(tutors, u, p));
    case Tick => TickRefinesGuard(s);
    case SignOff => LogoutRefinesGuard(s);
  }

  // ------------------------------------------------------------ scenarios

  /** A failed login below the limit adds exactly one failure and reports
      3 - attempts left; the button stays enabled. */
  lemma FailureBelowLimit(s: Session)
    requires Inv(s) && CanSubmit(s)
    requires s.attempts + 1 < MaxAttempts
    ensures Submit(s, None).attempts == s.attempts + 1
    ensures Submit(s, None).loginEnabled
    ensures Text(Submit(s, None).message) == "Invalid credentials. Attempts left: " + NatToString(MaxAttempts - (s.attempts + 1))
  {
  }

  /** The third failure locks for 300 seconds, disables the button and shows 5:00. */
  lemma ThirdFailureLocks(s: Session)
    requires Inv(s) && CanSubmit(s)
    requires s.attempts + 1 == MaxAttempts
    ensures Submit(s, None).secondsLeft == 300
    ensures !Submit(s, None).loginEnabled && Submit(s, None).timerRunning
    ensures Text(Submit(s, None).message) == LockedPrefix + ClockText(300) + WaitSuffix
  {
    LockedTextMatchesCountdown();
  }

  /** Three bad logins from the first window lock it; two do not. */
  lemma ThreeBadLoginsFromStart()
    ensures var s1 := Submit(Start, None);
            var s2 := Submit(s1, None);
            var s3 := Submit(s2, None);
            && s1.loginEnabled && s1.attempts == 1 && Text(s1.message) == "Invalid credentials. Attempts left: 2"
            && s2.loginEnabled && s2.attempts == 2 && Text(s2.message) == "Invalid credentials. Attempts left: 1"
            && !s3.loginEnabled && Inv(s3) && Abstract(s3) == LockedOut(300)
  {
    assert NatToString(2) == "2";
    assert NatToString(1) == "1";
  }

  /** While locked, no login action is possible: any answer of Tutor.login
      leaves the session exactly as it was. */
  lemma LockedIgnoresLogins(s: Session, found: Option<TutorAccounts.Tutor>)
    requires Inv(s) && s.timerRunning
    ensures Submit(s, found) == s
  {
  }

  /** A locked session with n seconds left is still locked after k < n ticks,
      with n - k seconds left, and unlocked after exactly n ticks: attempts 0,
      button enabled, message cleared, timer stopped. */
  lemma {:induction false} TicksCountDown(s: Session, k: nat)
    requires Inv(s) && s.timerRunning
    requires k <= s.secondsLeft
    ensures Inv(Ticks(s, k)) && Ticks(s, k).screen == s.screen
    ensures k < s.secondsLeft ==>
              Ticks(s, k).timerRunning && !Ticks(s, k).loginEnabled
              && Ticks(s, k).secondsLeft == s.secondsLeft - k
    ensures k == s.secondsLeft ==>
              !Ticks(s, k).timerRunning && Ticks(s, k).loginEnabled
              && Ticks(s, k).attempts == 0 && Ticks(s, k).message == Blank
    decreases k
  {
    if k > 0 {
      var t := Tick(s);
      TickRefinesGuard(s);
      assert Ticks(s, k) == Ticks(t, k - 1);
      if s.secondsLeft == 1 {
        assert Ticks(t, 0) == t;
      } else {
        TicksCountDown(t, k - 1);
      }
    }
  }

  /** From the moment of lockout, exactly 300 ticks unlock the login window. */
  lemma LockoutLastsThreeHundredTicks(s: Session)
    requires Inv(s) && CanSubmit(s)
    requires s.attempts + 1 == MaxAttempts
    ensures forall k: nat :: k < 300 ==> !Ticks(Submit(s, None), k).loginEnabled
    ensures var done := Ticks(Submit(s, None), 300);
            Inv(done) && done.loginEnabled && done.attempts == 0 && done.message == Blank && Abstract(done) == Active(0)
  {
    var locked := Submit(s, None);
    SubmitRefinesGuard(s, None);
    forall k: nat | k < 300
      ensures !Ticks(locked, k).loginEnabled
    {
      TicksCountDown(locked, k);
    }
    TicksCountDown(locked, 300);
  }

  /** A correct login opens the dashboard whatever the number of earlier
      failures, and logging out starts again from zero failures. */
  lemma SuccessThenLogout(s: Session, t: TutorAccounts.Tutor)
    requires Inv(s) && CanSubmit(s)
    ensures Inv(Submit(s, Some(t))) && Abstract(Submit(s, Some(t))) == Authenticated
    ensures Logout(Submit(s, Some(t))).attempts == 0
    ensures Inv(Logout(Submit(s, Some(t)))) && Abstract(Logout(Submit(s, Some(t)))) == Active(0)
  {
  }
}
