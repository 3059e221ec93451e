/** The decision sequences of the `/auth/send-otp` and `/auth/login` endpoints:
    which response each combination of registry state and OTP outcome produces,
    and what happens to the challenge table on the way. */
module Auth {
  import opened Results
  import opened Clock
  import Users
  import Otp

  const UnknownNumber := "User not found with this mobile number"
  const BadOtp := "Invalid or expired OTP"
  const Deactivated := "User account is deactivated"
  const NoSuchUser := "User not found"
  const LoggedIn := "Login successful"
  /** The text of the finder's error when two unverified challenges share number and code. */
  const NonUniqueResult := "query did not return a unique result"

  /** `sendOTP`: an unregistered number is refused before any challenge is made; a service failure
      is wrapped once more in the controller's own "Failed to send OTP: " prefix. */
  function SendOtp(reg: Users.Registry, rows: seq<Otp.Challenge>, mobile: string, draw: nat, now: Time,
                   deliver: (string, string) -> bool): (r: (seq<Otp.Challenge>, Response<string>))
    requires draw < 900000
    ensures !Users.IsUserExists(reg, mobile) ==> r == (rows, BadRequest(UnknownNumber))
    ensures Users.IsUserExists(reg, mobile) && deliver(mobile, Otp.GenerateOtp(draw))
            ==> r.1 == Success("OTP sent successfully to " + mobile, None) && |r.0| == |rows| + 1
                && r.0 == Otp.GenerateAndSend(rows, mobile, draw, now, deliver).0
    ensures Users.IsUserExists(reg, mobile) && !deliver(mobile, Otp.GenerateOtp(draw))
            ==> r == (rows, ServerError("Failed to send OTP: " + Otp.DeliveryFailed))
  {
    if !Users.IsUserExists(reg, mobile) then (rows, BadRequest(UnknownNumber))
    else
      var (after, out) := Otp.GenerateAndSend(rows, mobile, draw, now, deliver);
      match out
      case Ok(message) => (after, Success(message, None))
      case Err(message) => (after, ServerError("Failed to send OTP: " + message))
  }

  /** `login`: the OTP is checked (and consumed) first, then the account is looked up. */
  function Login(reg: Users.Registry, rows: seq<Otp.Challenge>, mobile: string, code: string, now: Time)
    : (r: (seq<Otp.Challenge>, Response<Users.User>))
    ensures r.0 == Otp.VerifyOtp(rows, mobile, code, now).0
    ensures Otp.VerifyOtp(rows, mobile, code, now).1 == Otp.Rejected ==> r.1 == BadRequest(BadOtp)
    ensures Otp.VerifyOtp(rows, mobile, code, now).1 == Otp.NonUnique ==> r.1 == ServerError("Login failed: " + NonUniqueResult)
    ensures Otp.VerifyOtp(rows, mobile, code, now).1 == Otp.Verified && Users.FindByMobile(reg.users, mobile).None?
            ==> r.1 == BadRequest(NoSuchUser)
    ensures (Otp.VerifyOtp(rows, mobile, code, now).1 == Otp.Verified && Users.FindByMobile(reg.users, mobile).Some?
             && !Users.FindByMobile(reg.users, mobile).value.isActive) ==> r.1 == BadRequest(Deactivated)
    ensures r.1.Success? <==> (Otp.VerifyOtp(rows, mobile, code, now).1 == Otp.Verified
                               && Users.FindByMobile(reg.users, mobile).Some?
                               && Users.FindByMobile(reg.users, mobile).value.isActive)
    ensures r.1.Success? ==> r.1.data == Users.FindByMobile(reg.users, mobile) && r.1.message == LoggedIn
  {
    var (after, outcome) := Otp.VerifyOtp(rows, mobile, code, now);
    match outcome
    case NonUnique => (after, ServerError("Login failed: " + NonUniqueResult))
    case Rejected => (after, BadRequest(BadOtp))
    case Verified =>
      match Users.FindByMobile(reg.users, mobile)
      case None => (after, BadRequest(NoSuchUser))
      case Some(u) => if !u.isActive then (after, BadRequest(Deactivated)) else (after, Success(LoggedIn, Some(u)))
  }

  /** A deactivated account is told so only after its code has been used up: retrying the same code then fails as invalid. */
  lemma DeactivatedStillConsumesOtp(reg: Users.Registry, rows: seq<Otp.Challenge>, mobile: string, code: string,
                                    now: Time, later: Time)
    requires Otp.VerifyOtp(rows, mobile, code, now).1 == Otp.Verified
    requires Users.FindByMobile(reg.users, mobile).Some? && !Users.FindByMobile(reg.users, mobile).value.isActive
    ensures Login(reg, rows, mobile, code, now).1 == BadRequest(Deactivated)
    ensures Login(reg, rows, mobile, code, now).0 != rows
    ensures Login(reg, Login(reg, rows, mobile, code, now).0, mobile, code, later).1 == BadRequest(BadOtp)
  {
    var after := Otp.VerifyOtp(rows, mobile, code, now).0;
    var i :| 0 <= i < |rows| && Otp.IsLookupHit(rows[i], mobile, code)
      && after == rows[i := rows[i].(verified := true)];
    assert after[i] != rows[i];
    Otp.VerifyIsSingleUse(rows, mobile, code, now, later);
  }

  /** A registered, active user who asks for a code and types it back in time is logged in,
      provided no older unverified challenge of the number happens to carry the same code. */
  lemma SendThenLogin(reg: Users.Registry, rows: seq<Otp.Challenge>, mobile: string, draw: nat, now: Time,
                      deliver: (string, string) -> bool, at: Time)
    requires draw < 900000 && deliver(mobile, Otp.GenerateOtp(draw))
    requires Users.FindByMobile(reg.users, mobile).Some? && Users.FindByMobile(reg.users, mobile).value.isActive
    requires Otp.LookupCount(rows, mobile, Otp.GenerateOtp(draw)) == 0
    requires now <= at <= now + Otp.Lifetime
    ensures Login(reg, SendOtp(reg, rows, mobile, draw, now, deliver).0, mobile, Otp.GenerateOtp(draw), at).1
            == Success(LoggedIn, Users.FindByMobile(reg.users, mobile))
  {
    assert SendOtp(reg, rows, mobile, draw, now, deliver).0 == Otp.GenerateAndSend(rows, mobile, draw, now, deliver).0;
    Otp.SentCodeVerifies(rows, mobile, draw, now, deliver, at);
  }

  /** Asking for a code for an unregistered number leaves the challenge table as it was. */
  lemma UnregisteredGetsNoChallenge(reg: Users.Registry, rows: seq<Otp.Challenge>, mobile: string, draw: nat,
                                    now: Time, deliver: (string, string) -> bool)
    requires draw < 900000 && !Users.HasMobile(reg.users, mobile)
    ensures SendOtp(reg, rows, mobile, draw, now, deliver).0 == rows
  {
  }
}
