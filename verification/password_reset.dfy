/**
 * The password-reset state machine of controllers/appController.js. The process-wide
 * `app.locals` pair (OTP, resetSession) becomes an explicit `ResetState` value that each
 * handler takes and returns. The initial state has no OTP and no session.
 */
module PasswordReset {
  import opened Wrappers
  import opened JsText
  import opened Bcrypt
  import opened UserModel
  import opened Accounts

  predicate IsSixDigits(c: string) {
    |c| == 6 && AllRadixDigits(c, 10)
  }

  /** What the OTP generator produces: six decimal digits. */
  type SixDigitCode = c: string | IsSixDigits(c) witness "000000"

  datatype ResetState = ResetState(otp: Option<string>, resetSession: bool)

  const Initial := ResetState(None, false)

  /** `parseInt` of a value that may be null or undefined; both of those give NaN (None). */
  function ParseOtp(v: Option<string>): Option<int> {
    match v
    case None => None
    case Some(s) => ParseInt(s)
  }

  /** `===` on two parse results: NaN equals nothing, not even NaN. */
  predicate SameNumber(a: Option<int>, b: Option<int>) {
    a.Some? && b.Some? && a.value == b.value
  }

  const VerifiedMsg := "Verify Successsfully!"
  const InvalidOtpMsg := "Invalid OTP"
  const SessionExpiredMsg := "Session expired!"
  const ResetNotFoundMsg := "Username or Email not found"
  const ResetDoneMsg := "Password reset successfully"

  /** A six-digit code parses to the number it spells, and distinct codes to distinct numbers. */
  lemma SixDigitParse(a: string, b: string)
    requires IsSixDigits(a) && IsSixDigits(b)
    ensures ParseInt(a) == Some(ValueOf(a, 10))
    ensures SameNumber(ParseInt(a), ParseInt(b)) <==> a == b
  {
    if ValueOf(a, 10) == ValueOf(b, 10) {
      DecimalValueInjective(a, b);
    }
  }

  lemma SixDigitsCompare(otp: Option<string>, code: Option<string>)
    ensures otp.Some? && IsSixDigits(otp.value) && code.Some? && IsSixDigits(code.value) ==>
              (SameNumber(ParseOtp(otp), ParseOtp(code)) <==> code.value == otp.value)
  {
    if otp.Some? && IsSixDigits(otp.value) && code.Some? && IsSixDigits(code.value) {
      SixDigitParse(code.value, otp.value);
    }
  }

  /** `generateOTP`: stores the new code, replacing any earlier one, and sends it back. */
  function GenerateOtp(st: ResetState, code: SixDigitCode): (o: (ResetState, Reply))
    ensures o.0.otp == Some(code) && IsSixDigits(o.0.otp.value)
    ensures o.0.resetSession == st.resetSession
    ensures o.1 == Reply(201, OtpCode(code))
  {
    (st.(otp := Some(code)), Reply(201, OtpCode(code)))
  }

  /**
   * `verifyOTP`: the stored OTP and the supplied code are compared as parsed numbers.
   * A match clears the OTP and opens the reset session; anything else changes nothing.
   */
  function VerifyOtp(st: ResetState, code: Option<string>): (o: (ResetState, Reply))
    ensures o.1.status == 201 ==> o == (ResetState(None, true), Reply(201, Message(VerifiedMsg)))
    ensures o.1.status != 201 ==> o == (st, Reply(400, Error(InvalidOtpMsg)))
    ensures st.otp.None? ==> o.1.status == 400
    ensures code.None? ==> o.1.status == 400
    ensures st.otp.Some? && IsSixDigits(st.otp.value) && code.Some? ==>
              (o.1.status == 201 <==> ParseInt(code.value) == Some(ValueOf(st.otp.value, 10)))
    ensures st.otp.Some? && IsSixDigits(st.otp.value) && code.Some? && IsSixDigits(code.value) ==>
              (o.1.status == 201 <==> code.value == st.otp.value)
  {
    SixDigitsCompare(st.otp, code);
    if SameNumber(ParseOtp(st.otp), ParseOtp(code)) then
      (ResetState(None, true), Reply(201, Message(VerifiedMsg)))
    else
      (st, Reply(400, Error(InvalidOtpMsg)))
  }

  /** `createResetSession`: reports the session flag and never changes the state. */
  function CreateResetSession(st: ResetState): (o: (ResetState, Reply))
    ensures o.0 == st
    ensures o.1.status == 201 <==> st.resetSession
    ensures st.resetSession ==> o.1 == Reply(201, SessionFlag(true))
    ensures !st.resetSession ==> o.1 == Reply(440, Error(SessionExpiredMsg))
  {
    if st.resetSession then (st, Reply(201, SessionFlag(true)))
    else (st, Reply(440, Error(SessionExpiredMsg)))
  }

  /** The reset state and the user store together, as one request leaves them. */
  datatype Step = Step(state: ResetState, users: seq<User>, reply: Reply)

  /**
   * `resetPassword`. The lookup by email or username has no `isDeleted` filter. The new hash
   * is written with `updateOne({ username })`, i.e. to the first user with the found user's
   * username. A missing password makes `bcrypt.hash` throw (500), leaving the session open.
   */
  function ResetPassword(st: ResetState, users: seq<User>, h: Hasher, ident: string,
                         password: Option<string>): (o: Step)
    ensures !st.resetSession ==> o == Step(st, users, Reply(440, Error(SessionExpiredMsg)))
    ensures st.resetSession && NoMatch(users, ByIdentifier(ident)) ==>
              o == Step(st, users, Reply(404, Error(ResetNotFoundMsg)))
    ensures forall i :: st.resetSession && IsFirstMatch(users, i, ByIdentifier(ident)) ==>
              && (password.None? ==> o == Step(st, users, Reply(500, Error(InternalErrorMsg))))
              && (password.Some? ==>
                    && o.state == ResetState(st.otp, false)
                    && o.reply == Reply(201, Message(ResetDoneMsg))
                    && exists j :: && IsFirstMatch(users, j, ByUsername(users[i].username))
                                   && ChangesOnly(users, o.users, j, users[j].(password := h.hash(password.value))))
              && (password.Some? && UniqueUsernames(users) ==>
                    ChangesOnly(users, o.users, i, users[i].(password := h.hash(password.value))))
    ensures o.reply.status == 201 <==> st.resetSession && !NoMatch(users, ByIdentifier(ident)) && password.Some?
    ensures o.reply.status != 201 ==> o.state == st && o.users == users
  {
    if !st.resetSession then Step(st, users, Reply(440, Error(SessionExpiredMsg)))
    else match FindUser(users, ByIdentifier(ident))
      case None => Step(st, users, Reply(404, Error(ResetNotFoundMsg)))
      case Some(i) =>
        if password.None? then Step(st, users, Reply(500, Error(InternalErrorMsg)))
        else
          var hashed := h.hash(password.value);
          assert Matches(users[i], ByUsername(users[i].username));
          match FindUser(users, ByUsername(users[i].username))
          case Some(j) =>
            assert IsFirstMatch(users, j, ByUsername(users[i].username));
            assert forall k :: IsFirstMatch(users, k, ByIdentifier(ident)) ==> k == i;
            assert j <= i;
            assert UniqueUsernames(users) ==> j == i;
            Step(st.(resetSession := false), users[j := users[j].(password := hashed)],
                 Reply(201, Message(ResetDoneMsg)))
  }

  /** With a sound hasher, the new password is the one that now verifies for the reset user. */
  lemma ResetThenPasswordVerifies(st: ResetState, users: seq<User>, h: Hasher, ident: string,
                                  password: string, i: nat)
    requires Sound(h) && UniqueUsernames(users)
    requires st.resetSession && IsFirstMatch(users, i, ByIdentifier(ident))
    ensures var o := ResetPassword(st, users, h, ident, Some(password));
            h.verifies(password, o.users[i].password)
  {
  }

  /** A generated code verifies once; the second attempt fails because the OTP is cleared. */
  lemma GenerateThenVerifyOnce(st: ResetState, code: SixDigitCode)
    ensures var (s1, r1) := GenerateOtp(st, code);
            var (s2, r2) := VerifyOtp(s1, Some(code));
            var (s3, r3) := VerifyOtp(s2, Some(code));
            && r1.body == OtpCode(code)
            && r2.status == 201 && s2 == ResetState(None, true)
            && r3.status == 400 && s3 == s2
  {
  }

  /** The comparison is numeric: a supplied code with extra leading zeros is accepted. */
  lemma {:induction false} LeadingZerosIgnored(st: ResetState, otp: SixDigitCode)
    requires st.otp == Some(otp)
    ensures VerifyOtp(st, Some("0" + otp)).1.status == 201
    ensures VerifyOtp(st, Some("00" + otp)).1.status == 201
  {
    ValueOfLeadingZero(otp);
    ValueOfLeadingZero("0" + otp);
    assert "0" + ("0" + otp) == "00" + otp;
  }

  /**
   * `parseInt` reads the supplied code loosely: leading white space and anything after the
   * digits are ignored, so " 123456" and "123456x" both unlock the stored "123456".
   */
  lemma {:induction false} LooseCodesAccepted(st: ResetState, otp: SixDigitCode, junk: string)
    requires st.otp == Some(otp)
    requires junk == [] || !IsRadixDigit(junk[0], 10)
    ensures VerifyOtp(st, Some(" " + otp)).1.status == 201
    ensures VerifyOtp(st, Some(otp + junk)).1.status == 201
  {
    ParseSkipsWhiteSpace(" " + otp);
    assert (" " + otp)[1..] == otp;
    ParseStopsAtNonDigit(otp, junk);
  }

  // ----- whole reset flows -----

  datatype Event =
    | Generate(code: SixDigitCode)
    | Verify(supplied: Option<string>)
    | CreateSession
    | Reset(ident: string, password: Option<string>)

  datatype Server = Server(state: ResetState, users: seq<User>)

  function Handle(s: Server, h: Hasher, e: Event): (Server, Reply) {
    match e
    case Generate(code) =>
      var (st, r) := GenerateOtp(s.state, code); (Server(st, s.users), r)
    case Verify(code) =>
      var (st, r) := VerifyOtp(s.state, code); (Server(st, s.users), r)
    case CreateSession =>
      var (st, r) := CreateResetSession(s.state); (Server(st, s.users), r)
    case Reset(ident, password) =>
      var o := ResetPassword(s.state, s.users, h, ident, password); (Server(o.state, o.users), o.reply)
  }

  datatype Trace = Trace(final: Server, replies: seq<Reply>)

  /** The requests handled one after another, each atomically. */
  function Run(s: Server, h: Hasher, events: seq<Event>): (t: Trace)
    ensures |t.replies| == |events|
  {
    if events == [] then Trace(s, [])
    else
      var t := Run(s, h, events[..|events| - 1]);
      var (s', r) := Handle(t.final, h, events[|events| - 1]);
      Trace(s', t.replies + [r])
  }

  /** Some OTP verification succeeded and no password reset succeeded after it. */
  predicate VerifiedSinceReset(events: seq<Event>, replies: seq<Reply>)
    requires |replies| == |events|
  {
    exists k :: && 0 <= k < |events| && events[k].Verify? && replies[k].status == 201
                && forall m :: k < m < |events| ==> !(events[m].Reset? && replies[m].status == 201)
  }

  lemma {:induction false} RunPrefix(s: Server, h: Hasher, events: seq<Event>, n: nat)
    requires n <= |events|
    ensures Run(s, h, events).replies[..n] == Run(s, h, events[..n]).replies
    decreases |events|
  {
    if n < |events| {
      var init := events[..|events| - 1];
      RunPrefix(s, h, init, n);
      assert init[..n] == events[..n];
    } else {
      assert events[..n] == events;
    }
  }

  /** How one request moves the session flag. */
  lemma HandleFlag(s: Server, h: Hasher, e: Event)
    ensures var (s', r) := Handle(s, h, e);
            && (e.Verify? && r.status == 201 ==> s'.state.resetSession)
            && (e.Reset? && r.status == 201 ==> !s'.state.resetSession)
            && (!(e.Verify? && r.status == 201) && !(e.Reset? && r.status == 201) ==>
                  s'.state.resetSession == s.state.resetSession)
  {
  }

  lemma RunLast(s: Server, h: Hasher, events: seq<Event>)
    requires events != []
    ensures var n := |events| - 1;
            var t := Run(s, h, events);
            var tp := Run(s, h, events[..n]);
            && t.replies == tp.replies + [Handle(tp.final, h, events[n]).1]
            && t.final == Handle(tp.final, h, events[n]).0
  {
  }

  /** How the last request of a history decides `VerifiedSinceReset`. */
  lemma VerifiedSinceResetLast(events: seq<Event>, replies: seq<Reply>)
    requires |replies| == |events| > 0
    ensures var n := |events| - 1;
            var e, r := events[n], replies[n];
            && (e.Verify? && r.status == 201 ==> VerifiedSinceReset(events, replies))
            && (e.Reset? && r.status == 201 ==> !VerifiedSinceReset(events, replies))
            && (!(e.Verify? && r.status == 201) && !(e.Reset? && r.status == 201) ==>
                  (VerifiedSinceReset(events, replies) <==> VerifiedSinceReset(events[..n], replies[..n])))
  {
    var n := |events| - 1;
    var e, r := events[n], replies[n];
    var init, rinit := events[..n], replies[..n];
    if e.Verify? && r.status == 201 {
      assert events[n].Verify? && replies[n].status == 201;
    } else if !(e.Reset? && r.status == 201) {
      if VerifiedSinceReset(init, rinit) {
        var k :| && 0 <= k < n && init[k].Verify? && rinit[k].status == 201
                 && forall m :: k < m < n ==> !(init[m].Reset? && rinit[m].status == 201);
        assert events[k].Verify? && replies[k].status == 201;
        assert forall m :: k < m < |events| ==> !(events[m].Reset? && replies[m].status == 201) by {
          forall m | k < m < |events| ensures !(events[m].Reset? && replies[m].status == 201) {
            if m < n {
              assert init[m] == events[m] && rinit[m] == replies[m];
            }
          }
        }
      }
      if VerifiedSinceReset(events, replies) {
        var k :| && 0 <= k < |events| && events[k].Verify? && replies[k].status == 201
                 && forall m :: k < m < |events| ==> !(events[m].Reset? && replies[m].status == 201);
        assert k < n;
        assert init[k].Verify? && rinit[k].status == 201;
        assert forall m :: k < m < n ==> init[m] == events[m] && rinit[m] == replies[m];
      }
    }
  }

  /**
   * Starting from the initial state, the reset session is open exactly when an OTP was
   * verified and no password reset has succeeded since.
   */
  lemma {:induction false} SessionIffVerifiedSinceReset(users: seq<User>, h: Hasher, events: seq<Event>)
    ensures var t := Run(Server(Initial, users), h, events);
            t.final.state.resetSession <==> VerifiedSinceReset(events, t.replies)
  {
    var s0 := Server(Initial, users);
    var t := Run(s0, h, events);
    if events != [] {
      var n := |events| - 1;
      var tp := Run(s0, h, events[..n]);
      SessionIffVerifiedSinceReset(users, h, events[..n]);
      RunLast(s0, h, events);
      HandleFlag(tp.final, h, events[n]);
      assert t.replies[..n] == tp.replies;
      VerifiedSinceResetLast(events, t.replies);
    }
  }

  /** A password reset succeeds only after an OTP verification that no earlier reset used up. */
  lemma ResetNeedsVerifiedOtp(users: seq<User>, h: Hasher, events: seq<Event>, k: nat)
    requires k < |events| && events[k].Reset?
    requires Run(Server(Initial, users), h, events).replies[k].status == 201
    ensures VerifiedSinceReset(events[..k], Run(Server(Initial, users), h, events[..k]).replies)
  {
    var s0 := Server(Initial, users);
    RunPrefix(s0, h, events, k + 1);
    var pre := events[..k];
    assert events[..k + 1][..k] == pre;
    assert events[..k + 1][k] == events[k];
    SessionIffVerifiedSinceReset(users, h, pre);
  }
}
