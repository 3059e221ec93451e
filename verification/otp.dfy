/** One-time-password challenges: the `OTPVerification` entity, the queries of
    its repository and the `OTPService` operations that create, consume and
    sweep challenges. The table is a sequence of rows in insertion order; the
    clock is an explicit `now` in seconds, the random draw and SMS delivery are
    parameters. */
module Otp {
  import opened Text
  import opened Seqs
  import opened Results
  import opened Clock
  import Validators

  /** The service's exception text when the SMS gateway refuses the code. */
  const DeliveryFailed := "Failed to send OTP: SMS sending failed"

  /** The challenge lifetime, ten minutes; the configurable expiry setting is never read. */
  const Lifetime: int := 10 * Minute

  datatype Challenge = Challenge(
    mobile: string,
    code: string,
    verified: bool,
    expiresAt: Time,
    createdAt: Time)

  /** The `(mobile, code)` constructor as used by the service: unverified, expiring ten minutes after creation. */
  function NewChallenge(mobile: string, code: string, now: Time): (c: Challenge)
    ensures !c.verified && c.mobile == mobile && c.code == code
    ensures c.expiresAt - c.createdAt == Lifetime && c.createdAt == now
  {
    Challenge(mobile, code, false, now + Lifetime, now)
  }

  /** Expired means strictly after `expiresAt`. */
  predicate IsExpired(c: Challenge, now: Time)
    ensures IsExpired(c, now) <==> c.expiresAt < now
  {
    now > c.expiresAt
  }

  /** A fresh challenge can be used up to and including the instant ten minutes later. */
  lemma FreshChallengeLifetime(mobile: string, code: string, created: Time, now: Time)
    ensures !IsExpired(NewChallenge(mobile, code, created), now) <==> now <= created + 600
  {
  }

  /** The column constraints on the entity: a mobile number of the form [6-9] then nine digits, a six-character code. */
  predicate WellFormed(c: Challenge)
  {
    Validators.IsValidMobileNumber(c.mobile) && |c.code| == 6
  }

  predicate AllWellFormed(rows: seq<Challenge>)
  {
    forall i :: 0 <= i < |rows| ==> WellFormed(rows[i])
  }

  // ---------------------------------------------------------------------------
  // Repository queries

  /** `findByMobileNumberAndOtpCodeAndIsVerifiedFalse`: the lookup that `verifyOTP` uses. */
  predicate IsLookupHit(c: Challenge, mobile: string, code: string)
  {
    c.mobile == mobile && c.code == code && !c.verified
  }

  function LookupBy(mobile: string, code: string): Challenge -> bool
  {
    c => IsLookupHit(c, mobile, code)
  }

  function Lookup(rows: seq<Challenge>, mobile: string, code: string): (r: seq<Challenge>)
    ensures forall i :: 0 <= i < |r| ==> r[i].mobile == mobile && r[i].code == code && !r[i].verified
    ensures forall i :: 0 <= i < |rows| && IsLookupHit(rows[i], mobile, code) ==> rows[i] in r
    ensures forall c :: multiset(r)[c] == if IsLookupHit(c, mobile, code) then multiset(rows)[c] else 0
    ensures IsSubsequence(r, rows)
  {
    FilterOccurrences(rows, LookupBy(mobile, code));
    FilterIsSubsequence(rows, LookupBy(mobile, code));
    Filter(rows, LookupBy(mobile, code))
  }

  /** `findByMobileNumber`. */
  function ByMobile(rows: seq<Challenge>, mobile: string): (r: seq<Challenge>)
    ensures forall i :: 0 <= i < |r| ==> r[i].mobile == mobile && r[i] in rows
    ensures forall i :: 0 <= i < |rows| && rows[i].mobile == mobile ==> rows[i] in r
    ensures forall c :: multiset(r)[c] == if c.mobile == mobile then multiset(rows)[c] else 0
    ensures IsSubsequence(r, rows)
  {
    var keep := (c: Challenge) => c.mobile == mobile;
    FilterOccurrences(rows, keep);
    FilterIsSubsequence(rows, keep);
    Filter(rows, keep)
  }

  predicate IsValidFor(c: Challenge, mobile: string, now: Time)
  {
    c.mobile == mobile && !c.verified && c.expiresAt > now
  }

  function CreatedAt(c: Challenge): int { c.createdAt }

  /** `findValidOTPsByMobileNumber`: unverified rows of the number whose expiry is still ahead, newest first. */
  function ValidOtps(rows: seq<Challenge>, mobile: string, now: Time): (r: seq<Challenge>)
    ensures SortedDesc(r, CreatedAt)
    ensures multiset(r) == multiset(Filter(rows, (c: Challenge) => IsValidFor(c, mobile, now)))
    ensures forall i :: 0 <= i < |r| ==> IsValidFor(r[i], mobile, now)
  {
    var hits := Filter(rows, (c: Challenge) => IsValidFor(c, mobile, now));
    var r := SortDesc(hits, CreatedAt);
    assert forall i :: 0 <= i < |r| ==> IsValidFor(r[i], mobile, now) by {
      forall i | 0 <= i < |r|
        ensures IsValidFor(r[i], mobile, now)
      {
        assert r[i] in multiset(hits);
      }
    }
    r
  }

  predicate IsExpiredUnverified(c: Challenge, now: Time)
  {
    c.expiresAt < now && !c.verified
  }

  function ExpiredAt(now: Time): Challenge -> bool
  {
    c => IsExpiredUnverified(c, now)
  }

  /** `findExpiredOTPs`: unverified rows whose expiry is strictly in the past. */
  function ExpiredOtps(rows: seq<Challenge>, now: Time): (r: seq<Challenge>)
    ensures forall i :: 0 <= i < |r| ==> r[i] in rows && r[i].expiresAt < now && !r[i].verified
    ensures forall i :: 0 <= i < |rows| && rows[i].expiresAt < now && !rows[i].verified ==> rows[i] in r
  {
    Filter(rows, ExpiredAt(now))
  }

  /** The expired query selects exactly the rows `isExpired` reports, among the unverified. */
  lemma ExpiredQueryMatchesIsExpired(c: Challenge, now: Time)
    ensures IsExpiredUnverified(c, now) <==> IsExpired(c, now) && !c.verified
  {
  }

  /** At the instant of expiry a row is in neither query, yet `verifyOTP` still accepts it. */
  lemma ExpiryInstantInNeitherQuery(rows: seq<Challenge>, i: int, now: Time)
    requires 0 <= i < |rows| && rows[i].expiresAt == now && !rows[i].verified
    ensures rows[i] !in ValidOtps(rows, rows[i].mobile, now)
    ensures rows[i] !in ExpiredOtps(rows, now)
    ensures !IsExpired(rows[i], now)
  {
  }

  predicate IsVerifiedOf(c: Challenge, mobile: string)
  {
    c.mobile == mobile && c.verified
  }

  /** `deleteByMobileNumberAndIsVerifiedTrue`: drops the consumed challenges of one number. */
  function DeleteVerifiedFor(rows: seq<Challenge>, mobile: string): (r: seq<Challenge>)
    ensures forall i :: 0 <= i < |r| ==> r[i] in rows && !(r[i].mobile == mobile && r[i].verified)
    ensures forall i :: 0 <= i < |rows| && !(rows[i].mobile == mobile && rows[i].verified) ==> rows[i] in r
    ensures forall c :: multiset(r)[c] == if IsVerifiedOf(c, mobile) then 0 else multiset(rows)[c]
    ensures IsSubsequence(r, rows)
  {
    var keep := (c: Challenge) => IsVerifiedOf(c, mobile);
    RejectOccurrences(rows, keep);
    RejectIsSubsequence(rows, keep);
    Reject(rows, keep)
  }

  // ---------------------------------------------------------------------------
  // Service

  /** `generateOTP`: `100000 + nextInt(900000)` rendered in decimal; `draw` is the random value. */
  function GenerateOtp(draw: nat): (code: string)
    requires draw < 900000
    ensures |code| == 6 && AllDigits(code) && code[0] != '0'
    ensures DecimalValue(code) == 100000 + draw
  {
    var n := 100000 + draw;
    assert Pow10(5) == 100000 && Pow10(6) == 1000000;
    DecimalLength(n, 6);
    DecimalRoundTrip(n);
    DecimalString(n)
  }

  /** `generateAndSendOTP`: inserts a fresh challenge and hands the code to `deliver`.
      A delivery failure throws, and the class-level transaction rolls the insert back. */
  function GenerateAndSend(rows: seq<Challenge>, mobile: string, draw: nat, now: Time,
                           deliver: (string, string) -> bool): (r: (seq<Challenge>, Result<string>))
    requires draw < 900000
    ensures r.1.Ok? <==> deliver(mobile, GenerateOtp(draw))
    ensures r.1.Ok? ==> (|r.0| == |rows| + 1 && r.0[..|rows|] == rows
                         && r.0[|rows|].mobile == mobile && !r.0[|rows|].verified
                         && r.0[|rows|].expiresAt == now + Lifetime && |r.0[|rows|].code| == 6
                         && r.1.value == "OTP sent successfully to " + mobile)
    ensures r.1.Err? ==> r.0 == rows && r.1.message == DeliveryFailed
  {
    var code := GenerateOtp(draw);
    if deliver(mobile, code) then
      (rows + [NewChallenge(mobile, code, now)], Ok("OTP sent successfully to " + mobile))
    else
      (rows, Err(DeliveryFailed))
  }

  /** The three ways `verifyOTP` ends: true, false, or the finder's error when two
      unverified rows carry the same number and code (it returns a single `Optional`). */
  datatype VerifyOutcome = Verified | Rejected | NonUnique

  /** The position of the first lookup hit, or -1. */
  function FirstHit(rows: seq<Challenge>, mobile: string, code: string): (i: int)
    ensures -1 <= i < |rows|
    ensures i >= 0 ==> IsLookupHit(rows[i], mobile, code)
    ensures i == -1 ==> forall j :: 0 <= j < |rows| ==> !IsLookupHit(rows[j], mobile, code)
  {
    FirstIndex(rows, LookupBy(mobile, code))
  }

  function LookupCount(rows: seq<Challenge>, mobile: string, code: string): nat
  {
    |Lookup(rows, mobile, code)|
  }

  /** Exactly one hit means any two hits are at the same position. */
  lemma SingleHit(rows: seq<Challenge>, mobile: string, code: string, i: int, j: int)
    requires LookupCount(rows, mobile, code) == 1
    requires 0 <= i < |rows| && IsLookupHit(rows[i], mobile, code)
    requires 0 <= j < |rows| && IsLookupHit(rows[j], mobile, code)
    ensures i == j
  {
    if i < j {
      FilterTwoHits(rows, LookupBy(mobile, code), i, j);
    } else if j < i {
      FilterTwoHits(rows, LookupBy(mobile, code), j, i);
    }
  }

  /** `verifyOTP`: marks the single matching unverified challenge as verified if it has not expired. */
  function VerifyOtp(rows: seq<Challenge>, mobile: string, code: string, now: Time): (r: (seq<Challenge>, VerifyOutcome))
    ensures r.1 == NonUnique <==> LookupCount(rows, mobile, code) > 1
    ensures r.1 == Verified <==> (LookupCount(rows, mobile, code) == 1 &&
                                  exists i :: 0 <= i < |rows| && IsLookupHit(rows[i], mobile, code) && !IsExpired(rows[i], now))
    ensures r.1 == Verified ==> (exists i :: 0 <= i < |rows| && IsLookupHit(rows[i], mobile, code)
                                             && r.0 == rows[i := rows[i].(verified := true)])
    ensures r.1 != Verified ==> r.0 == rows
  {
    var n := LookupCount(rows, mobile, code);
    if n == 0 then
      (rows, Rejected)
    else if n > 1 then
      (rows, NonUnique)
    else
      var i := FirstHit(rows, mobile, code);
      assert i >= 0 by { HitIsFound(rows, mobile, code); }
      assert forall j :: 0 <= j < |rows| && IsLookupHit(rows[j], mobile, code) ==> j == i by {
        forall j | 0 <= j < |rows| && IsLookupHit(rows[j], mobile, code)
          ensures j == i
        {
          SingleHit(rows, mobile, code, i, j);
        }
      }
      if IsExpired(rows[i], now) then (rows, Rejected)
      else (rows[i := rows[i].(verified := true)], Verified)
  }

  /** A consumed challenge cannot be consumed again: the same call right after a success fails. */
  lemma VerifyIsSingleUse(rows: seq<Challenge>, mobile: string, code: string, now: Time, later: Time)
    requires VerifyOtp(rows, mobile, code, now).1 == Verified
    ensures VerifyOtp(VerifyOtp(rows, mobile, code, now).0, mobile, code, later).1 == Rejected
  {
    var after := VerifyOtp(rows, mobile, code, now).0;
    var i :| 0 <= i < |rows| && IsLookupHit(rows[i], mobile, code)
      && after == rows[i := rows[i].(verified := true)];
    forall j | 0 <= j < |after|
      ensures !IsLookupHit(after[j], mobile, code)
    {
      if j != i && IsLookupHit(after[j], mobile, code) {
        SingleHit(rows, mobile, code, i, j);
      }
    }
    NoHitNoLookup(after, mobile, code);
  }

  lemma NoHitNoLookup(rows: seq<Challenge>, mobile: string, code: string)
    requires forall j :: 0 <= j < |rows| ==> !IsLookupHit(rows[j], mobile, code)
    ensures LookupCount(rows, mobile, code) == 0
  {
    FilterNone(rows, LookupBy(mobile, code));
  }

  /** When the lookup returns something, the scan for the first hit finds a position. */
  lemma HitIsFound(rows: seq<Challenge>, mobile: string, code: string)
    requires LookupCount(rows, mobile, code) >= 1
    ensures FirstHit(rows, mobile, code) >= 0
  {
    var hit := Lookup(rows, mobile, code)[0];
    assert hit in rows;
    var k :| 0 <= k < |rows| && rows[k] == hit;
    assert IsLookupHit(rows[k], mobile, code);
  }

  /** The code just sent verifies at any instant up to its expiry, when no earlier
      unverified challenge of the number carries the same code. */
  lemma SentCodeVerifies(rows: seq<Challenge>, mobile: string, draw: nat, now: Time,
                         deliver: (string, string) -> bool, at: Time)
    requires draw < 900000
    requires deliver(mobile, GenerateOtp(draw))
    requires LookupCount(rows, mobile, GenerateOtp(draw)) == 0
    requires now <= at <= now + Lifetime
    ensures VerifyOtp(GenerateAndSend(rows, mobile, draw, now, deliver).0, mobile, GenerateOtp(draw), at).1 == Verified
  {
    var code := GenerateOtp(draw);
    var row := NewChallenge(mobile, code, now);
    var after := rows + [row];
    assert GenerateAndSend(rows, mobile, draw, now, deliver).0 == after;
    FilterAppend(rows, [row], LookupBy(mobile, code));
    assert Lookup([row], mobile, code) == [row];
    assert LookupCount(after, mobile, code) == 1;
    assert IsLookupHit(after[|rows|], mobile, code) && !IsExpired(after[|rows|], at);
  }

  /** An expired challenge never verifies, however often it is tried. */
  lemma ExpiredNeverVerifies(rows: seq<Challenge>, mobile: string, code: string, now: Time)
    requires forall i :: 0 <= i < |rows| && IsLookupHit(rows[i], mobile, code) ==> IsExpired(rows[i], now)
    ensures VerifyOtp(rows, mobile, code, now) == (rows, Rejected) || VerifyOtp(rows, mobile, code, now).1 == NonUnique
  {
  }

  /** `cleanupExpiredOTPs`: deletes the rows the expired query returns. */
  function CleanupExpired(rows: seq<Challenge>, now: Time): (r: seq<Challenge>)
    ensures forall i :: 0 <= i < |r| ==> r[i] in rows && (r[i].verified || r[i].expiresAt >= now)
    ensures forall i :: 0 <= i < |rows| && (rows[i].verified || rows[i].expiresAt >= now) ==> rows[i] in r
  {
    Reject(rows, ExpiredAt(now))
  }

  /** A second sweep at the same instant deletes nothing more. */
  lemma CleanupIdempotent(rows: seq<Challenge>, now: Time)
    ensures CleanupExpired(CleanupExpired(rows, now), now) == CleanupExpired(rows, now)
  {
    RejectIdempotent(rows, ExpiredAt(now));
  }

  /** The sweep removes exactly as many rows as the expired query returns. */
  lemma CleanupRemovesExpired(rows: seq<Challenge>, now: Time)
    ensures |CleanupExpired(rows, now)| + |ExpiredOtps(rows, now)| == |rows|
    ensures multiset(CleanupExpired(rows, now)) + multiset(ExpiredOtps(rows, now)) == multiset(rows)
  {
    FilterRejectPartition(rows, ExpiredAt(now));
    FilterMultiset(rows, ExpiredAt(now));
  }

  /** Every operation keeps the table within the entity's column constraints,
      given a request whose number passed the controller's pattern check. */
  lemma OperationsKeepWellFormed(rows: seq<Challenge>, mobile: string, code: string, draw: nat, now: Time,
                                 deliver: (string, string) -> bool)
    requires AllWellFormed(rows) && Validators.IsValidMobileNumber(mobile) && draw < 900000
    ensures AllWellFormed(GenerateAndSend(rows, mobile, draw, now, deliver).0)
    ensures AllWellFormed(VerifyOtp(rows, mobile, code, now).0)
    ensures AllWellFormed(CleanupExpired(rows, now))
    ensures AllWellFormed(DeleteVerifiedFor(rows, mobile))
  {
    var c := CleanupExpired(rows, now);
    forall i | 0 <= i < |c|
      ensures WellFormed(c[i])
    {
      var k :| 0 <= k < |rows| && rows[k] == c[i];
    }
    var d := DeleteVerifiedFor(rows, mobile);
    forall i | 0 <= i < |d|
      ensures WellFormed(d[i])
    {
      var k :| 0 <= k < |rows| && rows[k] == d[i];
    }
  }
}
