/** The form checks of the two mobile clients: the Android login and signup
    screens and the iOS signup and profile screens. Each screen runs its checks
    in a fixed order, reports the first one that fails, and only then builds the
    request it sends. Android trims with Java's `String.trim`; iOS trims
    Unicode white space and new lines. */
module ClientForms {
  import opened Text
  import opened Results
  import opened Validators
  import Users

  /** One check of a form: whether it passed, and the message shown when it did not. */
  datatype Check = Check(ok: bool, message: string)

  datatype Verdict = Accepted | Refused(message: string)

  /** The checks run in order: `c` decides unless it passes, and then the checks after it do. */
  function Then(c: Check, rest: Verdict): (v: Verdict)
    ensures !c.ok ==> v == Refused(c.message)
    ensures c.ok ==> v == rest
  {
    if c.ok then rest else Refused(c.message)
  }

  // ---------------------------------------------------------------------------
  // Android login

  const MobileRequired := "Valid 10-digit mobile number is required"
  const MobileFormat := "Invalid mobile number format"
  const OtpRequired := "Valid 6-digit OTP is required"

  /** `LoginActivity.validateMobileNumber`: length first, then the `^[6-9]\d{9}$` expression,
      both on the trimmed input. */
  function ValidateMobileNumber(raw: string): (v: Verdict)
    ensures v.Accepted? <==> IsValidMobileNumber(JavaTrim(raw))
    ensures |JavaTrim(raw)| != 10 ==> v == Refused(MobileRequired)
    ensures |JavaTrim(raw)| == 10 && !IsValidMobileNumber(JavaTrim(raw)) ==> v == Refused(MobileFormat)
  {
    var m := JavaTrim(raw);
    MobileNumberShape(m);
    Then(Check(m != [] && |m| == 10, MobileRequired),
    Then(Check(IsValidMobileNumber(m), MobileFormat),
    Accepted))
  }

  /** `LoginActivity.validateOTP`: only the trimmed length is checked. */
  function ValidateOtp(raw: string): (v: Verdict)
    ensures v.Accepted? <==> |JavaTrim(raw)| == 6
    ensures v.Refused? ==> v.message == OtpRequired
  {
    var otp := JavaTrim(raw);
    Then(Check(otp != [] && |otp| == 6, OtpRequired), Accepted)
  }

  /** The login screen lets six letters through as a code; only the server turns it down. */
  lemma OtpDigitsNotChecked()
    ensures ValidateOtp("abcdef") == Accepted
  {
    TrimClean("abcdef", IsJavaTrimmable);
  }

  // ---------------------------------------------------------------------------
  // Android signup

  /** The signup screen as typed: raw text fields, the radio choice (None when no button
      is checked) and the terms box. */
  datatype AndroidSignupForm = AndroidSignupForm(
    fullName: string,
    mobile: string,
    email: string,
    aadhaar: string,
    pan: string,
    address: string,
    userChoice: Option<Users.UserType>,
    termsChecked: bool)

  const NameRequired := "Full name is required"
  const EmailRequired := "Valid email address is required"
  const AadhaarRequired := "Valid 12-digit Aadhaar number is required"
  const PanRequired := "Valid PAN card number is required (e.g., ABCDE1234F)"
  const TypeRequired := "Please select user type"
  const TermsRequired := "Please accept terms and conditions"

  // The Android signup checks that a form can pass, one per field, in the order the screen runs them.
  predicate AndroidNameOk(f: AndroidSignupForm) { JavaTrim(f.fullName) != [] }
  predicate AndroidMobileOk(f: AndroidSignupForm) { IsValidMobileNumber(JavaTrim(f.mobile)) }
  predicate AndroidEmailOk(f: AndroidSignupForm, isEmail: string -> bool) { JavaTrim(f.email) != [] && isEmail(JavaTrim(f.email)) }
  predicate AndroidAadhaarOk(f: AndroidSignupForm) { |JavaTrim(f.aadhaar)| == 12 }
  predicate AndroidPanOk(f: AndroidSignupForm) { IsValidPAN(JavaTrim(f.pan)) }

  /** `SignupActivity.validateInputs`: eight checks in order; the first that fails names its field. `isEmail` is the platform's
      `Patterns.EMAIL_ADDRESS` matcher. */
  function ValidateAndroidSignup(f: AndroidSignupForm, isEmail: string -> bool): (v: Verdict)
    ensures v.Accepted? <==> JavaTrim(f.fullName) != [] && IsValidMobileNumber(JavaTrim(f.mobile))
                             && JavaTrim(f.email) != [] && isEmail(JavaTrim(f.email))
                             && |JavaTrim(f.aadhaar)| == 12 && IsValidPAN(JavaTrim(f.pan))
                             && f.userChoice.Some? && f.termsChecked
    ensures JavaTrim(f.fullName) == [] ==> v == Refused(NameRequired)
    ensures JavaTrim(f.fullName) != [] && |JavaTrim(f.mobile)| != 10 ==> v == Refused(MobileRequired)
    ensures (JavaTrim(f.fullName) != [] && |JavaTrim(f.mobile)| == 10 && !IsValidMobileNumber(JavaTrim(f.mobile)))
            ==> v == Refused(MobileFormat)
    ensures AndroidNameOk(f) && AndroidMobileOk(f) && !AndroidEmailOk(f, isEmail) ==> v == Refused(EmailRequired)
    ensures (AndroidNameOk(f) && AndroidMobileOk(f) && AndroidEmailOk(f, isEmail) && !AndroidAadhaarOk(f))
            ==> v == Refused(AadhaarRequired)
    ensures (AndroidNameOk(f) && AndroidMobileOk(f) && AndroidEmailOk(f, isEmail) && AndroidAadhaarOk(f)
             && !AndroidPanOk(f)) ==> v == Refused(PanRequired)
    ensures (AndroidNameOk(f) && AndroidMobileOk(f) && AndroidEmailOk(f, isEmail) && AndroidAadhaarOk(f)
             && AndroidPanOk(f) && f.userChoice.None?) ==> v == Refused(TypeRequired)
    ensures (AndroidNameOk(f) && AndroidMobileOk(f) && AndroidEmailOk(f, isEmail) && AndroidAadhaarOk(f)
             && AndroidPanOk(f) && f.userChoice.Some? && !f.termsChecked) ==> v == Refused(TermsRequired)
  {
    var name := JavaTrim(f.fullName);
    var mobile := JavaTrim(f.mobile);
    var email := JavaTrim(f.email);
    var aadhaar := JavaTrim(f.aadhaar);
    var pan := JavaTrim(f.pan);
    MobileNumberShape(mobile);
    PanShape(pan);
    Then(Check(name != [], NameRequired),
    Then(Check(mobile != [] && |mobile| == 10, MobileRequired),
    Then(Check(IsValidMobileNumber(mobile), MobileFormat),
    Then(Check(email != [] && isEmail(email), EmailRequired),
    Then(Check(aadhaar != [] && |aadhaar| == 12, AadhaarRequired),
    Then(Check(pan != [] && IsValidPAN(pan), PanRequired),
    Then(Check(f.userChoice.Some?, TypeRequired),
    Then(Check(f.termsChecked, TermsRequired),
    Accepted))))))))
  }

  /** `performSignup`: the request the Android client sends once the form is accepted.
      PAN is upper-cased, SELLER only when that radio button is checked, and an address
      that trims to nothing is left out. */
  function AndroidSignupRequest(f: AndroidSignupForm): (r: Users.SignupRequest)
    ensures r.userType == Users.Seller <==> f.userChoice == Some(Users.Seller)
    ensures r.address.None? <==> JavaTrim(f.address) == []
    ensures r.address.Some? ==> r.address.value == JavaTrim(f.address)
    ensures r.mobile == JavaTrim(f.mobile) && r.email == JavaTrim(f.email) && r.aadhaar == JavaTrim(f.aadhaar)
    ensures r.pan == ToUpper(JavaTrim(f.pan))
  {
    var address := JavaTrim(f.address);
    Users.SignupRequest(
      JavaTrim(f.fullName), JavaTrim(f.mobile), JavaTrim(f.email), JavaTrim(f.aadhaar),
      ToUpper(JavaTrim(f.pan)),
      if f.userChoice == Some(Users.Seller) then Users.Seller else Users.Customer,
      if address == [] then None else Some(address))
  }

  /** The signup button: validate, then build. */
  function SubmitAndroidSignup(f: AndroidSignupForm, isEmail: string -> bool): (r: Result<Users.SignupRequest>)
    ensures r.Ok? <==> ValidateAndroidSignup(f, isEmail).Accepted?
    ensures r.Err? ==> r.message == ValidateAndroidSignup(f, isEmail).message
  {
    match ValidateAndroidSignup(f, isEmail)
    case Refused(m) => Err(m)
    case Accepted => Ok(AndroidSignupRequest(f))
  }

  /** The PAN the Android client sends is the PAN the user typed: an accepted PAN is
      already upper-case, so the upper-casing changes nothing. */
  lemma AndroidPanSentAsTyped(f: AndroidSignupForm, isEmail: string -> bool)
    requires SubmitAndroidSignup(f, isEmail).Ok?
    ensures SubmitAndroidSignup(f, isEmail).value.pan == JavaTrim(f.pan)
    ensures IsValidMobileNumber(SubmitAndroidSignup(f, isEmail).value.mobile)
  {
    PanIsUpperCase(JavaTrim(f.pan));
  }

  /** Android checks only the Aadhaar length: a form whose Aadhaar field is twelve characters
      that are not all digits gets the same verdict as the same form with a real Aadhaar
      number, though it does not hold one. */
  lemma AndroidAadhaarLengthOnly(f: AndroidSignupForm, isEmail: string -> bool, digits: string)
    requires |JavaTrim(f.aadhaar)| == 12 && !AllDigits(JavaTrim(f.aadhaar))
    requires IsValidAadhaar(JavaTrim(digits))
    ensures ValidateAndroidSignup(f, isEmail) == ValidateAndroidSignup(f.(aadhaar := digits), isEmail)
    ensures !IsValidAadhaar(JavaTrim(f.aadhaar))
  {
    AadhaarShape(JavaTrim(f.aadhaar));
    AadhaarShape(JavaTrim(digits));
  }

  // ---------------------------------------------------------------------------
  // iOS signup

  /** The iOS signup screen: text fields, the user-type segment and the terms flag. */
  datatype IosSignupForm = IosSignupForm(
    fullName: string,
    mobile: string,
    email: string,
    aadhaar: string,
    pan: string,
    address: string,
    segment: int,
    termsAccepted: bool)

  const IosNameRequired := "Please enter your full name"
  const IosMobileInvalid := "Please enter a valid mobile number"
  const IosEmailInvalid := "Please enter a valid email address"
  const IosAadhaarInvalid := "Please enter a valid Aadhaar number"
  const IosPanInvalid := "Please enter a valid PAN card number"
  const IosTermsRequired := "Please accept the terms and conditions"
  const SessionExpired := "User session expired. Please login again."

  /** `termsCheckboxTapped`: flips the acceptance flag. */
  function TapTerms(f: IosSignupForm): (g: IosSignupForm)
    ensures g.termsAccepted != f.termsAccepted
    ensures g.(termsAccepted := f.termsAccepted) == f
  {
    f.(termsAccepted := !f.termsAccepted)
  }

  /** Two taps put the form back as it was. */
  lemma TapTwiceRestores(f: IosSignupForm)
    ensures TapTerms(TapTerms(f)) == f
  {
  }

  /** `SignupViewController.validateInputs`: every field trimmed, then checked in order. */
  function ValidateIosSignup(f: IosSignupForm): (v: Verdict)
    ensures v.Accepted? <==> SwiftTrim(f.fullName) != [] && IsValidMobileNumber(SwiftTrim(f.mobile))
                             && IsValidEmail(SwiftTrim(f.email)) && IsValidAadhaar(SwiftTrim(f.aadhaar))
                             && IsValidPAN(SwiftTrim(f.pan)) && f.termsAccepted
    ensures SwiftTrim(f.fullName) == [] ==> v == Refused(IosNameRequired)
    ensures SwiftTrim(f.fullName) != [] && !IsValidMobileNumber(SwiftTrim(f.mobile)) ==> v == Refused(IosMobileInvalid)
    ensures (SwiftTrim(f.fullName) != [] && IsValidMobileNumber(SwiftTrim(f.mobile))
             && !IsValidEmail(SwiftTrim(f.email))) ==> v == Refused(IosEmailInvalid)
    ensures (SwiftTrim(f.fullName) != [] && IsValidMobileNumber(SwiftTrim(f.mobile))
             && IsValidEmail(SwiftTrim(f.email)) && !IsValidAadhaar(SwiftTrim(f.aadhaar))) ==> v == Refused(IosAadhaarInvalid)
    ensures (SwiftTrim(f.fullName) != [] && IsValidMobileNumber(SwiftTrim(f.mobile))
             && IsValidEmail(SwiftTrim(f.email)) && IsValidAadhaar(SwiftTrim(f.aadhaar))
             && !IsValidPAN(SwiftTrim(f.pan))) ==> v == Refused(IosPanInvalid)
    ensures (SwiftTrim(f.fullName) != [] && IsValidMobileNumber(SwiftTrim(f.mobile))
             && IsValidEmail(SwiftTrim(f.email)) && IsValidAadhaar(SwiftTrim(f.aadhaar))
             && IsValidPAN(SwiftTrim(f.pan)) && !f.termsAccepted) ==> v == Refused(IosTermsRequired)
  {
    Then(Check(SwiftTrim(f.fullName) != [], IosNameRequired),
    Then(Check(IsValidMobileNumber(SwiftTrim(f.mobile)), IosMobileInvalid),
    Then(Check(IsValidEmail(SwiftTrim(f.email)), IosEmailInvalid),
    Then(Check(IsValidAadhaar(SwiftTrim(f.aadhaar)), IosAadhaarInvalid),
    Then(Check(IsValidPAN(SwiftTrim(f.pan)), IosPanInvalid),
    Then(Check(f.termsAccepted, IosTermsRequired),
    Accepted))))))
  }

  /** The request built in `signupButtonTapped`: segment 0 is a customer, and the address
      is absent only when its raw text is empty. */
  function IosSignupRequest(f: IosSignupForm): (r: Users.SignupRequest)
    ensures r.userType == Users.Customer <==> f.segment == 0
    ensures r.address.None? <==> f.address == []
    ensures r.address.Some? ==> r.address.value == SwiftTrim(f.address)
    ensures r.fullName == SwiftTrim(f.fullName) && r.mobile == SwiftTrim(f.mobile) && r.email == SwiftTrim(f.email)
            && r.aadhaar == SwiftTrim(f.aadhaar) && r.pan == SwiftTrim(f.pan)
  {
    Users.SignupRequest(
      SwiftTrim(f.fullName), SwiftTrim(f.mobile), SwiftTrim(f.email), SwiftTrim(f.aadhaar), SwiftTrim(f.pan),
      if f.segment == 0 then Users.Customer else Users.Seller,
      if f.address == [] then None else Some(SwiftTrim(f.address)))
  }

  function SubmitIosSignup(f: IosSignupForm): (r: Result<Users.SignupRequest>)
    ensures r.Ok? <==> ValidateIosSignup(f).Accepted?
    ensures r.Err? ==> r.message == ValidateIosSignup(f).message
  {
    match ValidateIosSignup(f)
    case Refused(m) => Err(m)
    case Accepted => Ok(IosSignupRequest(f))
  }

  /** A request the iOS client sends has the key formats the server's columns expect. */
  lemma IosSignupSendsValidKeys(f: IosSignupForm)
    requires SubmitIosSignup(f).Ok?
    ensures IsValidMobileNumber(SubmitIosSignup(f).value.mobile)
    ensures IsValidEmail(SubmitIosSignup(f).value.email)
    ensures IsValidAadhaar(SubmitIosSignup(f).value.aadhaar) && IsValidPAN(SubmitIosSignup(f).value.pan)
  {
  }

  /** An address of blanks is sent as an empty string, not left out. */
  lemma IosBlankAddressSentEmpty(f: IosSignupForm)
    requires f.address != [] && forall k :: 0 <= k < |f.address| ==> IsSwiftWhitespace(f.address[k])
    ensures IosSignupRequest(f).address == Some("")
  {
    TrimAllDropped(f.address, IsSwiftWhitespace);
  }

  // ---------------------------------------------------------------------------
  // iOS profile

  datatype ProfileForm = ProfileForm(fullName: string, email: string, aadhaar: string, pan: string, address: string)

  /** The body of the profile update: there is no mobile-number field. */
  datatype UserUpdateRequest = UserUpdateRequest(
    fullName: string,
    email: string,
    aadhaarNumber: Option<string>,
    panCard: Option<string>,
    address: Option<string>)

  /** `ProfileViewController.validateInputs`: name and email are required; Aadhaar and PAN
      may be left empty, but when given must be valid. */
  function ValidateProfile(f: ProfileForm): (v: Verdict)
    ensures v.Accepted? <==> SwiftTrim(f.fullName) != [] && IsValidEmail(SwiftTrim(f.email))
                             && (SwiftTrim(f.aadhaar) == [] || IsValidAadhaar(SwiftTrim(f.aadhaar)))
                             && (SwiftTrim(f.pan) == [] || IsValidPAN(SwiftTrim(f.pan)))
    ensures SwiftTrim(f.fullName) == [] ==> v == Refused(IosNameRequired)
    ensures SwiftTrim(f.fullName) != [] && !IsValidEmail(SwiftTrim(f.email)) ==> v == Refused(IosEmailInvalid)
    ensures (SwiftTrim(f.fullName) != [] && IsValidEmail(SwiftTrim(f.email))
             && SwiftTrim(f.aadhaar) != [] && !IsValidAadhaar(SwiftTrim(f.aadhaar))) ==> v == Refused(IosAadhaarInvalid)
    ensures (SwiftTrim(f.fullName) != [] && IsValidEmail(SwiftTrim(f.email))
             && (SwiftTrim(f.aadhaar) == [] || IsValidAadhaar(SwiftTrim(f.aadhaar)))
             && SwiftTrim(f.pan) != [] && !IsValidPAN(SwiftTrim(f.pan))) ==> v == Refused(IosPanInvalid)
  {
    var aadhaar := SwiftTrim(f.aadhaar);
    var pan := SwiftTrim(f.pan);
    Then(Check(SwiftTrim(f.fullName) != [], IosNameRequired),
    Then(Check(IsValidEmail(SwiftTrim(f.email)), IosEmailInvalid),
    Then(Check(aadhaar == [] || IsValidAadhaar(aadhaar), IosAadhaarInvalid),
    Then(Check(pan == [] || IsValidPAN(pan), IosPanInvalid),
    Accepted))))
  }

  /** `updateButtonTapped`: validation, then the session check; the update is addressed by
      the signed-in user's mobile number, which the body never carries. */
  function SubmitProfile(f: ProfileForm, currentUser: Option<Users.User>): (r: Result<(UserUpdateRequest, string)>)
    ensures ValidateProfile(f).Refused? ==> r == Err(ValidateProfile(f).message)
    ensures ValidateProfile(f).Accepted? && currentUser.None? ==> r == Err(SessionExpired)
    ensures r.Ok? <==> ValidateProfile(f).Accepted? && currentUser.Some?
    ensures r.Ok? ==> r.value.1 == currentUser.value.mobile
                      && r.value.0.fullName == SwiftTrim(f.fullName) && r.value.0.email == SwiftTrim(f.email)
                      && r.value.0.aadhaarNumber == Some(SwiftTrim(f.aadhaar))
                      && r.value.0.panCard == Some(SwiftTrim(f.pan))
                      && (r.value.0.address.None? <==> f.address == [])
  {
    match ValidateProfile(f)
    case Refused(m) => Err(m)
    case Accepted =>
      if currentUser.None? then Err(SessionExpired)
      else
        var req := UserUpdateRequest(
          SwiftTrim(f.fullName), SwiftTrim(f.email), Some(SwiftTrim(f.aadhaar)), Some(SwiftTrim(f.pan)),
          if f.address == [] then None else Some(SwiftTrim(f.address)));
        Ok((req, currentUser.value.mobile))
  }

  /** Profile Aadhaar and PAN are optional: a form valid in name and email is accepted with both left blank. */
  lemma ProfileKeysOptional(f: ProfileForm)
    requires SwiftTrim(f.fullName) != [] && IsValidEmail(SwiftTrim(f.email))
    requires f.aadhaar == [] && f.pan == []
    ensures ValidateProfile(f) == Accepted
  {
  }
}
