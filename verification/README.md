# Property listing platform: a Dafny model of its core

This project models the sequential logic of a property-listing system with three parts:

- a Spring backend that stores users, listings, inquiries and one-time passwords;
- an Android client;
- an iOS client.

Every table is a `seq` of immutable records. Tables that the database numbers also carry a next-id counter. Each service operation is a pure function from the old tables to the new tables and its outcome. Clock reads are an explicit `now: int` parameter. External effects are parameters too: the SMS gateway is `deliver: (string, string) -> bool`, the random draw is a `nat` below 900000, and `plusMonths(3)` is `calendar: int -> int`.

The modules, and what each covers:

- `Seqs`: order-preserving filters, counts, subsequences and the newest-first sort behind the repository queries.
- `Text`: character classes, Java and Swift trimming, ASCII case folding, substring search and decimal rendering.
- `Validators`: the four `String` validators of the iOS extensions. Each is written as a small anchored pattern and proved equal to a plain shape (length, character ranges).
- `HexColor`: the integer part of `UIColor(hex:)`.
- `Otp`: the `OTPVerification` entity, its repository queries, and `OTPService` (generate and send, verify once, clean up).
- `Users`: the `users` table and `UserService`, with the table invariant that the four unique keys stay unique.
- `Properties`: `PropertyService` and the JPQL queries of `PropertyRepository`.
- `Inquiries`: the `Inquiry` entity, `InquiryRepository` and `InquiryService`.
- `Auth`: the `send-otp` and `login` decision sequences of `AuthController`.
- `Admin`: the dashboard counts and the two per-customer inquiry reports of `AdminController`, including `Collectors.toMap` failing on a repeated key.
- `ClientForms`: the form checks and request building of the Android login and signup screens and the iOS signup and profile screens.
- `Dashboard`: the Android list screen, modelled with a heap of list references because its adapter shares a list with the activity, and the iOS list screen.

## Model

| member | source | states |
|---|---|---|
| Otp.NewChallenge | backend/src/main/java/com/propertyapp/model/OTPVerification.java:43-47 | a new challenge is unverified, holds the given number and code, and expires ten minutes after the clock read it is built with, whatever the configured expiry |
| Otp.IsExpired | backend/src/main/java/com/propertyapp/model/OTPVerification.java:68-70 | a challenge is expired iff the current time is strictly after its expiry time, so it is still usable at that instant |
| Otp.FreshChallengeLifetime | backend/src/main/java/com/propertyapp/model/OTPVerification.java:68-70 | expiry is strict: a new challenge is unexpired exactly up to and including ten minutes after its creation |
| Otp.OperationsKeepWellFormed | backend/src/main/java/com/propertyapp/model/OTPVerification.java:20-28 | generate, verify, clean-up and delete all keep every row within the column rules: a `[6-9]` plus nine-digit number and a six-character code |
| Otp.Lookup | backend/src/main/java/com/propertyapp/repository/OTPVerificationRepository.java:16 | the verification finder returns exactly the unverified rows with that number and code, each as many times as the table holds it, in table order |
| Otp.ByMobile | backend/src/main/java/com/propertyapp/repository/OTPVerificationRepository.java:18 | the by-number finder returns exactly the rows of that number, each as many times as the table holds it, in table order |
| Otp.ValidOtps | backend/src/main/java/com/propertyapp/repository/OTPVerificationRepository.java:20-22 | the valid-OTP query returns the unverified, not-yet-expired rows of the number, newest first, each exactly as often as stored |
| Otp.ExpiredOtps | backend/src/main/java/com/propertyapp/repository/OTPVerificationRepository.java:24-25 | the expired query returns exactly the unverified rows whose expiry is strictly before `now` |
| Otp.ExpiredQueryMatchesIsExpired | backend/src/main/java/com/propertyapp/repository/OTPVerificationRepository.java:24-25 | among unverified rows, the expired query agrees with the entity's own `isExpired` |
| Otp.ExpiryInstantInNeitherQuery | backend/src/main/java/com/propertyapp/repository/OTPVerificationRepository.java:20-25 | at the instant of expiry a row is in neither the valid query nor the expired query, yet it is not expired |
| Otp.DeleteVerifiedFor | backend/src/main/java/com/propertyapp/repository/OTPVerificationRepository.java:27 | deleting a number's verified rows removes exactly those rows and keeps every other row as many times as it was stored, in table order |
| Otp.GenerateOtp | backend/src/main/java/com/propertyapp/service/OTPService.java:61-65 | the code is six decimal digits with no leading zero, and its decimal value is 100000 plus the random draw |
| Otp.GenerateAndSend | backend/src/main/java/com/propertyapp/service/OTPService.java:27-43 | the call succeeds iff the gateway accepts the code; on success exactly one new unverified row for the number is appended and old rows are untouched; on failure the table is unchanged (the transaction rolls back) and the error is "Failed to send OTP: SMS sending failed" |
| Otp.VerifyOtp | backend/src/main/java/com/propertyapp/service/OTPService.java:45-58 | the outcome is true iff exactly one unverified row matches and it has not expired, and then only that row becomes verified; on false the table is unchanged; two matches give the finder's error |
| Otp.VerifyIsSingleUse | backend/src/main/java/com/propertyapp/service/OTPService.java:45-56 | after a successful verification, the same call fails at any later time |
| Otp.SentCodeVerifies | backend/src/main/java/com/propertyapp/service/OTPService.java:27-56 | a code that was just sent verifies at any instant up to its expiry, when no other unverified row of the number has that code |
| Otp.ExpiredNeverVerifies | backend/src/main/java/com/propertyapp/service/OTPService.java:49-58 | if every matching row has expired, verification does not succeed: either it rejects the code and leaves the table as it was, or two matches raise the finder's error |
| Otp.CleanupExpired | backend/src/main/java/com/propertyapp/service/OTPService.java:67-70 | clean-up keeps exactly the verified rows and the rows not yet past expiry |
| Otp.CleanupIdempotent | backend/src/main/java/com/propertyapp/service/OTPService.java:67-70 | a second clean-up at the same instant deletes nothing more |
| Otp.CleanupRemovesExpired | backend/src/main/java/com/propertyapp/service/OTPService.java:67-70 | the kept rows plus the rows the expired query returns are, as a multiset, the original table |
| Auth.SendOtp | backend/src/main/java/com/propertyapp/controller/AuthController.java:41-56 | an unregistered number gets "User not found with this mobile number" and no challenge; a registered number gets the service's success message and the table the service produced, one challenge longer; a gateway failure gives a server error and leaves the table alone, with the "Failed to send OTP: " prefix appearing twice in its message |
| Auth.UnregisteredGetsNoChallenge | backend/src/main/java/com/propertyapp/controller/AuthController.java:45-48 | asking for a code for an unknown number leaves the challenge table untouched |
| Auth.Login | backend/src/main/java/com/propertyapp/controller/AuthController.java:58-84 | the code is always checked, and consumed, first; login succeeds iff the code verifies and the user exists and is active; a failed code gives "Invalid or expired OTP"; the finder's error gives "Login failed: ..."; after a good code a missing user gives "User not found" and an inactive one "User account is deactivated" |
| Auth.DeactivatedStillConsumesOtp | backend/src/main/java/com/propertyapp/controller/AuthController.java:62-74 | a good code for an existing, deactivated account is refused as deactivated only after the code is used up, so retrying the same code reports an invalid code |
| Auth.SendThenLogin | backend/src/main/java/com/propertyapp/controller/AuthController.java:45-75 | a registered, active user who asks for a code and types it back before it expires is logged in |
| Users.FindByMobile | backend/src/main/java/com/propertyapp/repository/UserRepository.java:16 | the lookup finds a user iff some stored user has the number, and the user it finds has that number |
| Users.FindByMobileUnique | backend/src/main/java/com/propertyapp/repository/UserRepository.java:16 | on a table with unique numbers, the lookup finds the one user who holds the number |
| Users.IsUserExists | backend/src/main/java/com/propertyapp/service/UserService.java:95-97 | holds iff some stored user has the mobile number |
| Users.GetUsersByType | backend/src/main/java/com/propertyapp/repository/UserRepository.java:28-29 | returns exactly the active users of the given type, each as many times as the table holds it, in table order |
| Users.Signup | backend/src/main/java/com/propertyapp/service/UserService.java:21-51 | fails iff any of the four keys is taken, and reports the first in the order mobile, email, Aadhaar, PAN; on failure nothing changes; on success exactly one active user with the request's fields is appended |
| Users.SignupPreservesValid | backend/src/main/java/com/propertyapp/service/UserService.java:21-51 | signup keeps the four keys and the ids unique |
| Users.SignupThenExists | backend/src/main/java/com/propertyapp/service/UserService.java:23-25 | after a signup the number exists, and repeating the signup fails on the number |
| Users.UpdateUser | backend/src/main/java/com/propertyapp/service/UserService.java:73-83 | succeeds iff the id exists and no other user holds the new email; a missing id is "User not found with ID: n"; an email that another user holds is refused by the unique column; on any refusal nothing changes; otherwise only that user's name, email and address change |
| Users.UpdateUserPreservesValid | backend/src/main/java/com/propertyapp/service/UserService.java:73-83 | an accepted edit keeps the four keys unique |
| Users.DeactivateUser | backend/src/main/java/com/propertyapp/service/UserService.java:85-93 | fails iff the id is missing; otherwise only that user's active flag is cleared |
| Users.DeactivateIdempotent | backend/src/main/java/com/propertyapp/service/UserService.java:85-93 | deactivating twice leaves the table as deactivating once |
| Users.DeactivatedNotListed | backend/src/main/java/com/propertyapp/repository/UserRepository.java:28-29 | a deactivated user no longer appears in the by-type listing |
| Properties.CreateProperty | backend/src/main/java/com/propertyapp/service/PropertyService.java:27-55 | succeeds iff the seller exists and is a SELLER; a failure stores nothing; on success one active listing with the given seller and fields is appended |
| Properties.CreatePreservesValid | backend/src/main/java/com/propertyapp/service/PropertyService.java:27-55 | listing ids stay distinct |
| Properties.UpdateProperty | backend/src/main/java/com/propertyapp/service/PropertyService.java:93-119 | succeeds iff the listing exists and belongs to the seller; a missing listing or another seller fails with no change; on success only the request's fields of that listing change |
| Properties.UpdateKeepsOwnerAndActivity | backend/src/main/java/com/propertyapp/service/PropertyService.java:104-118 | an update never changes any listing's id, seller or active flag, so a deleted listing stays deleted |
| Properties.DeleteProperty | backend/src/main/java/com/propertyapp/service/PropertyService.java:121-133 | owner-checked soft delete: succeeds iff the listing exists and belongs to the seller; a failure changes nothing; on success only the active flag of that listing becomes false |
| Properties.DeleteIdempotent | backend/src/main/java/com/propertyapp/service/PropertyService.java:121-133 | deleting twice leaves the table as deleting once |
| Properties.DeletedNotActive | backend/src/main/java/com/propertyapp/service/PropertyService.java:57-59 | a deleted listing is no longer among the active listings |
| Properties.ActiveProperties | backend/src/main/java/com/propertyapp/repository/PropertyRepository.java:25 | returns exactly the active listings, each as many times as the table holds it, in table order |
| Properties.ActiveBySeller | backend/src/main/java/com/propertyapp/repository/PropertyRepository.java:27-28 | returns exactly the seller's active listings, each as many times as the table holds it, in table order |
| Properties.ActiveByType | backend/src/main/java/com/propertyapp/repository/PropertyRepository.java:30-31 | returns exactly the active listings of the type |
| Properties.ActiveByCity | backend/src/main/java/com/propertyapp/repository/PropertyRepository.java:33-34 | returns exactly the active listings whose city equals the given one, each as many times as the table holds it, in table order |
| Properties.ActiveByPriceRange | backend/src/main/java/com/propertyapp/repository/PropertyRepository.java:36-38 | returns exactly the active listings priced within the range, both ends included, each as many times as the table holds it, in table order |
| Properties.PriceRangeBounds | backend/src/main/java/com/propertyapp/repository/PropertyRepository.java:36-38 | an inverted range returns nothing; a one-point range returns every active listing at that price |
| Properties.ActiveByTypeAndCity | backend/src/main/java/com/propertyapp/repository/PropertyRepository.java:40-42 | returns exactly the active listings of that type in that city |
| Properties.TypeAndCityIsConjunction | backend/src/main/java/com/propertyapp/repository/PropertyRepository.java:40-42 | the type-and-city query equals the city filter applied to the by-type query, order included |
| Inquiries.NewInquiry | backend/src/main/java/com/propertyapp/model/Inquiry.java:67-74 | a new inquiry is OPEN with terms not accepted and no close date or reason; it is dated `now` and expires at `calendar(now)` |
| Inquiries.FindExpired | backend/src/main/java/com/propertyapp/repository/InquiryRepository.java:35-36 | returns exactly the OPEN inquiries whose expiry date is strictly before `now` |
| Inquiries.NewestFirst | backend/src/main/java/com/propertyapp/repository/InquiryRepository.java:26-33 | the by-customer, by-seller and by-property lists are sorted newest first and hold the owner's inquiries exactly as often as stored |
| Inquiries.NewestFirstMembers | backend/src/main/java/com/propertyapp/repository/InquiryRepository.java:26-33 | an inquiry is on an owner's list iff it is stored and belongs to that owner, whatever its status |
| Inquiries.BySellerAndStatus | backend/src/main/java/com/propertyapp/repository/InquiryRepository.java:38-39 | returns exactly the seller's inquiries in that status |
| Inquiries.ByCustomerAndStatus | backend/src/main/java/com/propertyapp/repository/InquiryRepository.java:41-42 | returns exactly the customer's inquiries in that status, each as many times as the table holds it, in table order |
| Inquiries.OpenCountBounded | backend/src/main/java/com/propertyapp/repository/InquiryRepository.java:44-45 | a seller's open count is at most the number of the seller's inquiries |
| Inquiries.CustomerCountsPartition | backend/src/main/java/com/propertyapp/repository/InquiryRepository.java:47-48 | a customer's count covers every status: it is the sum of the open, closed and expired counts |
| Inquiries.CreateInquiry | backend/src/main/java/com/propertyapp/service/InquiryService.java:35-77 | succeeds iff all four guards pass; they fail in order (customer missing, not a customer, listing missing, terms not accepted) and then nothing is saved or sent; on success one OPEN inquiry owned by the listing's seller, with terms accepted and the description verbatim, is appended, and the one notice offered goes to the seller's number with the text naming the listing and the customer |
| Inquiries.CreateIgnoresDelivery | backend/src/main/java/com/propertyapp/service/InquiryService.java:66-76 | whether the seller's SMS goes through changes neither the saved inquiry nor the result |
| Inquiries.CreatePreservesValid | backend/src/main/java/com/propertyapp/service/InquiryService.java:35-77 | creation keeps ids distinct and every stored reason within its 500-character column |
| Inquiries.FreshInquirySurvivesSweep | backend/src/main/java/com/propertyapp/service/InquiryService.java:59-61 | a new inquiry is not overdue at its creation instant when three months later is later |
| Inquiries.Notify | backend/src/main/java/com/propertyapp/service/InquiryService.java:66-74 | at most one notice is recorded, and one is recorded iff the recipient is known and the gateway accepts it |
| Inquiries.CustomerMessage | backend/src/main/java/com/propertyapp/service/InquiryService.java:123-127 | the text names the title and the lower-case status, and " Reason: r" is appended iff the reason is present and non-empty, whatever the status |
| Inquiries.SellerMessage | backend/src/main/java/com/propertyapp/service/InquiryService.java:68-70 | the seller's text is, in order, "New inquiry received for your property: ", the title, ". Customer: ", the customer's name, a space, and the customer's number in parentheses, with nothing else |
| Inquiries.StatusNotice | backend/src/main/java/com/propertyapp/service/InquiryService.java:121-131 | at most one notice is recorded, and one is iff the listing and the customer are found and the gateway accepts the customer's message |
| Inquiries.WithStatus | backend/src/main/java/com/propertyapp/service/InquiryService.java:113-117 | the status is always written; the close date and reason are written only for CLOSED and otherwise keep their old values; no other field changes |
| Inquiries.UpdateStatus | backend/src/main/java/com/propertyapp/service/InquiryService.java:103-134 | a missing inquiry or a caller who is not its seller fails with nothing changed and nobody notified; for a found and owned inquiry the customer's notice is offered before the commit, so a closing reason over 500 characters then fails with the table unchanged but the notice already sent; it succeeds iff the inquiry is found, owned and the reason fits, and then only that inquiry is rewritten as above |
| Inquiries.AnyTransitionAllowed | backend/src/main/java/com/propertyapp/service/InquiryService.java:113 | the inquiry's seller can move it to any status from any status, including out of CLOSED or EXPIRED |
| Inquiries.UpdateStatusPreservesValid | backend/src/main/java/com/propertyapp/service/InquiryService.java:103-134 | status updates keep the table invariant |
| Inquiries.ExpireOld | backend/src/main/java/com/propertyapp/service/InquiryService.java:136-142 | each OPEN inquiry past its expiry date becomes EXPIRED, no other row or field changes, and nobody is notified |
| Inquiries.ExpireOldIdempotent | backend/src/main/java/com/propertyapp/service/InquiryService.java:136-142 | after a sweep the expired query is empty, so a second sweep at the same instant changes nothing |
| Inquiries.ExpireOldTouchesOnlyOverdue | backend/src/main/java/com/propertyapp/service/InquiryService.java:136-142 | the number of EXPIRED rows grows by exactly the number of rows the expired query returned |
| Inquiries.ExpireOldPreservesValid | backend/src/main/java/com/propertyapp/service/InquiryService.java:136-142 | the sweep keeps the table invariant |
| Inquiries.InquiriesOfCustomer | backend/src/main/java/com/propertyapp/service/InquiryService.java:79-85 | fails iff the customer id is missing; otherwise returns the customer's inquiries newest first |
| Inquiries.InquiriesOfSeller | backend/src/main/java/com/propertyapp/service/InquiryService.java:87-93 | fails iff the seller id is missing; otherwise returns the seller's inquiries newest first |
| Inquiries.InquiriesOfProperty | backend/src/main/java/com/propertyapp/service/InquiryService.java:95-101 | fails iff the listing is missing; otherwise returns the listing's inquiries newest first |
| Inquiries.OpenCountOfSeller | backend/src/main/java/com/propertyapp/service/InquiryService.java:144-150 | fails iff the seller id is missing; otherwise the count is the number of that seller's OPEN inquiries |
| Inquiries.CountOfCustomer | backend/src/main/java/com/propertyapp/service/InquiryService.java:152-158 | fails iff the customer id is missing; otherwise the count equals the length of the customer's inquiry list |
| Admin.Stats | backend/src/main/java/com/propertyapp/controller/AdminController.java:134-155 | the customer and seller figures count the users of each type and sum to the total; the active figure counts users whose flag is on, the inactive figure those whose flag is off, and the two sum to the total |
| Admin.SignupCounts | backend/src/main/java/com/propertyapp/controller/AdminController.java:137-148 | a successful signup adds one to the total, to the active count and to the count of its type, and leaves the inactive count alone |
| Admin.DeactivateCounts | backend/src/main/java/com/propertyapp/controller/AdminController.java:137-148 | deactivating keeps the totals and the type counts, and takes one off the active count iff the user was active |
| Admin.ToMap | backend/src/main/java/com/propertyapp/controller/AdminController.java:67-70 | `toMap` succeeds iff every value is present and the keys are distinct; the map then has exactly the users' names as keys, each with its user's value; a repeated name gives "Duplicate key " plus that name |
| Admin.SharedNameNotDistinct | backend/src/main/java/com/propertyapp/controller/AdminController.java:67-70 | two customers with one name, on a table with distinct ids, make the report's keys not distinct |
| Admin.ClosedItems | backend/src/main/java/com/propertyapp/controller/AdminController.java:80-86 | the closed list is built iff every item can be built (each needs its title and close date), and then item k comes from inquiry k |
| Admin.ClosedEntryShowsClosedOnly | backend/src/main/java/com/propertyapp/controller/AdminController.java:72-87 | a customer's entry has their number, their address or "N/A", and each item comes from one of their CLOSED inquiries, with "N/A" for a missing reason |
| Admin.ClosedReport | backend/src/main/java/com/propertyapp/controller/AdminController.java:62-96 | the report succeeds iff every customer's entry can be built and the customer names are distinct; its keys are then exactly the customers' names; failure is a bad request with the report's prefix |
| Admin.ClosedReportFailsOnlyOnNames | backend/src/main/java/com/propertyapp/controller/AdminController.java:62-96 | on a valid table where every inquiry's listing exists, the closed report succeeds iff customer names are distinct |
| Admin.TallyOf | backend/src/main/java/com/propertyapp/controller/AdminController.java:110-123 | each of the open, closed and expired figures is the number of the customer's inquiries in that status, the three add up to the total, and the total is the customer's inquiry count |
| Admin.StatusCountMatchesQuery | backend/src/main/java/com/propertyapp/controller/AdminController.java:113-122 | counting one status in the customer's newest-first list gives the same figure as the repository's query for that customer and status |
| Admin.AllReport | backend/src/main/java/com/propertyapp/controller/AdminController.java:98-132 | the report succeeds iff customer names are distinct; its keys are then exactly those names, each with its tally of total, open, closed and expired inquiries; otherwise the message is the prefix plus "Duplicate key " and a customer's name |
| Admin.ReportsListOnlyCustomers | backend/src/main/java/com/propertyapp/controller/AdminController.java:68 | every key of either report is the name of a stored CUSTOMER |
| Admin.SharedNameFailsReports | backend/src/main/java/com/propertyapp/controller/AdminController.java:92-95 | two customers with one name make both reports bad requests |
| Validators.MobileNumberShape | ios-app/PropertyListing/Utils/Extensions.swift:85-89 | `isValidMobileNumber` holds iff the text is ten characters, the first in '6'..'9' and the rest ASCII digits |
| Validators.AadhaarShape | ios-app/PropertyListing/Utils/Extensions.swift:97-101 | `isValidAadhaar` holds iff the text is twelve ASCII digits |
| Validators.PanShape | ios-app/PropertyListing/Utils/Extensions.swift:91-95 | `isValidPAN` holds iff the text is five letters A-Z, four digits, then one letter A-Z |
| Validators.PanIsUpperCase | ios-app/PropertyListing/Utils/Extensions.swift:91-95 | a valid PAN is unchanged by upper-casing |
| Validators.EmailShape | ios-app/PropertyListing/Utils/Extensions.swift:79-83 | `isValidEmail` holds iff the text splits as local part, '@', domain, '.', and a final run of 2 to 64 letters, each part from its character set |
| Validators.EmailHasOneAt | ios-app/PropertyListing/Utils/Extensions.swift:79-83 | an accepted address has exactly one '@' |
| HexColor.DecodeHexColor | ios-app/PropertyListing/Utils/Extensions.swift:41-55 | every decoded channel is at most 255 |
| HexColor.ScanHex | ios-app/PropertyListing/Utils/Extensions.swift:44 | the scan reads the leading hex digits: all-hex text gives its hexadecimal value, text not starting with a hex digit gives 0, and the value always fits the text's digit count |
| HexColor.DecodeThreeDigits | ios-app/PropertyListing/Utils/Extensions.swift:47-48 | any text that trims to three hex digits, in either case and with or without "#", decodes to alpha 255 and each digit times 17 |
| HexColor.ThreeDigitsRoundTrip | ios-app/PropertyListing/Utils/Extensions.swift:47-48 | three nibbles written as "#RGB" decode back to each nibble times 17 |
| HexColor.DecodeSixDigits | ios-app/PropertyListing/Utils/Extensions.swift:49-50 | any text that trims to six hex digits, in either case and with or without "#", decodes to alpha 255 and the three bytes its digit pairs spell |
| HexColor.SixDigitsRoundTrip | ios-app/PropertyListing/Utils/Extensions.swift:49-50 | three bytes written as "#RRGGBB" decode back to themselves with alpha 255 |
| HexColor.DecodeEightDigits | ios-app/PropertyListing/Utils/Extensions.swift:51-52 | any text that trims to eight hex digits, in either case and with or without "#", decodes to the four bytes its digit pairs spell, alpha first |
| HexColor.EightDigitsRoundTrip | ios-app/PropertyListing/Utils/Extensions.swift:51-52 | four bytes written as "#AARRGGBB" decode back to themselves, alpha first |
| HexColor.LowerCaseDecodes | ios-app/PropertyListing/Utils/Extensions.swift:42-48 | "#abc" decodes to (255, 170, 187, 204) |
| HexColor.BareDigitsDecode | ios-app/PropertyListing/Utils/Extensions.swift:42-50 | "0a0b0c", with no "#", decodes to (255, 10, 11, 12) |
| HexColor.OtherLengthsFallBack | ios-app/PropertyListing/Utils/Extensions.swift:53-54 | any trimmed length other than 3, 6 or 8 gives (1, 1, 1, 0) |
| ClientForms.ValidateMobileNumber | android-app/app/src/main/java/com/propertyapp/android/LoginActivity.java:93-109 | accepts iff the trimmed text is a valid number; a wrong length reports "Valid 10-digit mobile number is required" and a bad ten-character text reports "Invalid mobile number format" |
| ClientForms.ValidateOtp | android-app/app/src/main/java/com/propertyapp/android/LoginActivity.java:111-121 | accepts iff the trimmed text has six characters |
| ClientForms.OtpDigitsNotChecked | android-app/app/src/main/java/com/propertyapp/android/LoginActivity.java:111-121 | six letters pass the code check |
| ClientForms.ValidateAndroidSignup | android-app/app/src/main/java/com/propertyapp/android/SignupActivity.java:81-135 | accepts iff all eight checks pass; for each check (name, mobile length, mobile format, email, Aadhaar length, PAN, user type, terms) a form that passes the earlier ones and fails it is refused with that check's own message |
| ClientForms.AndroidAadhaarLengthOnly | android-app/app/src/main/java/com/propertyapp/android/SignupActivity.java:112-116 | twelve characters that are not all digits get the same verdict as a real Aadhaar number |
| ClientForms.AndroidSignupRequest | android-app/app/src/main/java/com/propertyapp/android/SignupActivity.java:137-152 | the type is SELLER iff the seller button is checked; the address is left out iff it trims to nothing; fields are trimmed and the PAN upper-cased |
| ClientForms.SubmitAndroidSignup | android-app/app/src/main/java/com/propertyapp/android/SignupActivity.java:81-152 | a request is built iff validation accepts, otherwise the first failure's message is shown |
| ClientForms.AndroidPanSentAsTyped | android-app/app/src/main/java/com/propertyapp/android/SignupActivity.java:118-144 | the upper-casing of an accepted PAN changes nothing, and the number sent is valid |
| ClientForms.TapTerms | ios-app/PropertyListing/Controllers/SignupViewController.swift:148-151 | a tap flips the acceptance flag and nothing else |
| ClientForms.TapTwiceRestores | ios-app/PropertyListing/Controllers/SignupViewController.swift:148-151 | two taps restore the form |
| ClientForms.ValidateIosSignup | ios-app/PropertyListing/Controllers/SignupViewController.swift:177-214 | accepts iff every trimmed field passes and terms are accepted; for each check (name, mobile, email, Aadhaar, PAN, terms) a form that passes the earlier ones and fails it is refused with that check's own message |
| ClientForms.IosSignupRequest | ios-app/PropertyListing/Controllers/SignupViewController.swift:153-168 | the type is customer iff segment 0 is selected; the address is left out iff the raw text is empty, otherwise it is sent trimmed |
| ClientForms.SubmitIosSignup | ios-app/PropertyListing/Controllers/SignupViewController.swift:153-168 | a request is built iff validation accepts |
| ClientForms.IosSignupSendsValidKeys | ios-app/PropertyListing/Controllers/SignupViewController.swift:177-214 | every request sent has a valid mobile number, email, Aadhaar number and PAN |
| ClientForms.IosBlankAddressSentEmpty | ios-app/PropertyListing/Controllers/SignupViewController.swift:165 | an address made only of whitespace is sent as an empty string, not left out |
| ClientForms.ValidateProfile | ios-app/PropertyListing/Controllers/ProfileViewController.swift:205-231 | accepts iff the name is non-empty, the email is valid, and Aadhaar and PAN are each empty or valid; checked in order name, email, Aadhaar, PAN, the first failure giving its own message, and an empty Aadhaar or PAN never refused |
| ClientForms.ProfileKeysOptional | ios-app/PropertyListing/Controllers/ProfileViewController.swift:218-228 | a blank Aadhaar and a blank PAN are accepted |
| ClientForms.SubmitProfile | ios-app/PropertyListing/Controllers/ProfileViewController.swift:169-185 | a validation failure comes first, then "User session expired. Please login again." without a signed-in user; the update is addressed by the signed-in user's number; Aadhaar and PAN are sent trimmed even when blank, and the address is left out iff its field is empty |
| Dashboard.UpdateProperties | android-app/app/src/main/java/com/propertyapp/android/adapter/PropertyAdapter.java:63-67 | the adapter's list becomes a copy of the source list when they are different lists, and becomes empty when they are the same list; every other list is untouched |
| Dashboard.NewAdapter | android-app/app/src/main/java/com/propertyapp/android/adapter/PropertyAdapter.java:36-39 | the adapter keeps the very list it is given, not a copy |
| Dashboard.ItemCount | android-app/app/src/main/java/com/propertyapp/android/adapter/PropertyAdapter.java:58-61 | the row count is the length of the adapter's list, and zero iff that list is empty |
| Dashboard.InquireVisible | android-app/app/src/main/java/com/propertyapp/android/adapter/PropertyAdapter.java:109-120 | the inquire button shows only when a user is stored, and then iff that user is not a seller |
| Dashboard.Create | android-app/app/src/main/java/com/propertyapp/android/DashboardActivity.java:97-102 | after set-up the adapter shows the filtered list itself, not a copy |
| Dashboard.Loaded | android-app/app/src/main/java/com/propertyapp/android/DashboardActivity.java:161-166 | a load puts the response in both the full list and the filtered list |
| Dashboard.Refill | android-app/app/src/main/java/com/propertyapp/android/DashboardActivity.java:193-203 | the filtered list is refilled with all properties, or with those of the chosen type, in order |
| Dashboard.FilterByType | android-app/app/src/main/java/com/propertyapp/android/DashboardActivity.java:184-212 | choosing a chip keeps the loaded list and the wiring; with a blank search the filtered list is the loaded properties of that chip, in order, and with search text it is those that also match the trimmed text |
| Dashboard.FilterProperties | android-app/app/src/main/java/com/propertyapp/android/DashboardActivity.java:214-231 | a non-empty search leaves in the filtered list the matches on title, city, state or address, ignoring case, in order |
| Dashboard.AllChipShowsEverything | android-app/app/src/main/java/com/propertyapp/android/DashboardActivity.java:193-195 | with no search text, "All" shows every loaded property in order |
| Dashboard.TypeChipShowsThatType | android-app/app/src/main/java/com/propertyapp/android/DashboardActivity.java:196-203 | with no search text, a type chip shows exactly the properties of that type, in order |
| Dashboard.SearchOverwritesFiltered | android-app/app/src/main/java/com/propertyapp/android/DashboardActivity.java:219-230 | searches are cumulative: a second search filters the first one's results |
| Dashboard.ClearedSearchEmptiesList | android-app/app/src/main/java/com/propertyapp/android/DashboardActivity.java:214-217 | clearing the search leaves the list on screen empty |
| Dashboard.FilterPropertiesSeparate | android-app/app/src/main/java/com/propertyapp/android/DashboardActivity.java:214-231 | with an adapter that owns its list, a search changes only what is shown and never the filtered list |
| Dashboard.CopyingAdapterRestoresList | android-app/app/src/main/java/com/propertyapp/android/adapter/PropertyAdapter.java:36-39 | with an adapter that owns its list, clearing the search shows the filtered list again, and searches are not cumulative |
| Dashboard.InquireButtonMatchesServer | android-app/app/src/main/java/com/propertyapp/android/adapter/PropertyAdapter.java:110-120 | the inquire button is hidden from a stored user iff the server would refuse that user's inquiry with "Only customers can create inquiries" |
| Dashboard.ApplyFilters | ios-app/PropertyListing/Controllers/DashboardViewController.swift:165-183 | the result is an order-preserving subsequence of the loaded list, holding exactly the properties of the selected type that match the search on title, city or address |
| Dashboard.SetSearch | ios-app/PropertyListing/Controllers/DashboardViewController.swift:199-202 | typing recomputes the shown list from the loaded list |
| Dashboard.SelectType | ios-app/PropertyListing/Controllers/DashboardViewController.swift:116-133 | choosing a type recomputes the shown list from the loaded list |
| Dashboard.Load | ios-app/PropertyListing/Controllers/DashboardViewController.swift:142-163 | a load recomputes the shown list from the new loaded list |
| Dashboard.IosSearchNotCumulative | ios-app/PropertyListing/Controllers/DashboardViewController.swift:165-166 | each search starts from the loaded list, and clearing it shows every property of the selected type |
| Dashboard.EmptyStateMeansNoMatch | ios-app/PropertyListing/Controllers/DashboardViewController.swift:185-188 | the empty-state view shows iff no loaded property passes both filters |

## Left out

- SMS transport: the gateway is the `deliver` predicate. Its "+91" prefixing, its client set-up and its exception texts are not modelled. A refused message is the only failure.
- Randomness: `Random.nextInt(900000)` is the `draw` parameter.
- Clock and calendar: each clock read is the `now` parameter. `createInquiry` reads the clock twice and is modelled with one `now`; so is the OTP entity (see `Otp.NewChallenge` below). `plusMonths(3)` is the `calendar` parameter. Only the lemma that needs it assumes that `calendar` moves forward.
- Scheduling and concurrency: no scheduled method exists in the code. The expiry sweep and OTP clean-up are explicit calls. Races between concurrent requests and database isolation are not modelled.
- Transactions: a gateway failure inside `generateAndSendOTP` is modelled as leaving the table unchanged. The class-level `@Transactional` rolls back the insert when the runtime exception propagates.
- Bean validation: the annotations on entities and request objects are enforced by the framework and are not re-checked by the operations. Only three parts appear in the model: the unique columns of `users` (kept by `Users.Valid`, so `Users.UpdateUser` refuses an email another user already holds), the 500-character limit on closing reasons, and the OTP column rules (stated as `Otp.WellFormed`).
- Exact framework texts: five messages stand in for the JDK, Spring and database wording. They are the finder's non-unique-result message, the "Duplicate key" text of `Collectors.toMap`, "null" for a missing value in `Map.of`, `Users.DuplicateKey` for the unique-constraint violation, and `Inquiries.ReasonTooLong` for the commit failure on an over-long closing reason. The tail of the JDK duplicate-key message, which names both values, is dropped.
- Otp.NewChallenge: the constructor's `LocalDateTime.now()` sets `expiresAt`, and `@CreationTimestamp` sets `createdAt` from a second clock read at insert. Both are the one `now` parameter, so "exactly ten minutes apart" holds in the model but only up to the gap between the two reads in the code.
- Inquiries.UpdateStatus: the commit failure surfaces at the controller as "Failed to update inquiry status: " followed by the database's text. The model returns `Inquiries.ReasonTooLong` from the service and does not model the controller's prefix.
- ClientForms.ValidateMobileNumber: Java `length()` counts UTF-16 code units and the model counts `char`s, which are code points. The two differ only on text outside the Basic Multilingual Plane, which the number pattern refuses anyway, but the length message may differ from the format message there.
- ClientForms.ValidateOtp: the six-character check counts code points, not UTF-16 code units, so six characters outside the Basic Multilingual Plane pass in the model and fail in the code.
- ClientForms.ValidateAndroidSignup: the twelve-character Aadhaar check counts code points, not UTF-16 code units.
- Inquiries.UpdateStatus: the `@Size(max = 500)` limit on the closing reason counts UTF-16 code units; the model counts code points.
- Enum value sets: the backend enum files are not part of this model. `Users.UserType` (CUSTOMER, SELLER) and `Properties.PropertyType` (LAND, FLAT, ROW_HOUSE, BUNGALOW) take their values from the client enums, and `Admin.Stats` relies on a user being one of the two types.
- Database collation: SQL Server `NVARCHAR` columns compare case-insensitively and ignore trailing spaces under the default collation. The model compares strings exactly in Properties.ActiveByCity, the unique keys of Users.Valid, the Users.FindByMobile style finders and Otp.Lookup. Two keys that differ only in case are distinct in the model and the same in the database.
- Admin.ClosedReport: a missing listing title or close date makes `Map.of` throw. It is modelled as a failed entry. The exact exception message is not modelled.
- Decimal columns: price, size, latitude and longitude are `BigDecimal` in the code and `int` in the model, counted in each column's smallest unit (hundredths of a rupee for price, whose column has scale 2; the column's own scale for the others). Input with more decimal places than the column's scale, the rounding the database then applies, and the precision limits are not modelled. Properties.ActiveByPriceRange and Properties.PriceRangeBounds compare these integers.
- The nearby-properties native query (`PropertyRepository.java:44-57`): it uses floating-point trigonometry.
- Floating point and formatting: the division of colour channels by 255, currency and comma formatting, and price display.
- HexColor.DecodeHexColor: `Scanner.scanHexInt64` also accepts a "0x" prefix and saturates on overflow. The model reads only the leading hex digits. No trimmed string of length 3, 6 or 8 can overflow.
- HexColor.DecodeHexColor: Swift's `CharacterSet.alphanumerics` is Unicode-wide and `count` counts grapheme clusters. The model trims only ASCII letters and digits. So "#é12" gives (255, 0, 0, 0) in the code, where Swift keeps the three characters "é12" and scans them as 0, and the fallback (1, 1, 1, 0) in the model, which trims it to "12". Text with non-ASCII letters or digits is not modelled faithfully.
- Validators.MobileNumberShape: `\d` in `NSPredicate` also matches non-ASCII decimal digits. The model accepts ASCII digits only.
- Case folding: Java `toLowerCase`/`toUpperCase` and Swift `localizedCaseInsensitiveContains` are modelled as ASCII case folding.
- ClientForms.ValidateAndroidSignup: `Patterns.EMAIL_ADDRESS` is the `isEmail` parameter. Its Android pattern is not part of this model.
- ClientForms.ValidateIosSignup: the `!` on a text field's text is assumed not to trap. Text fields are modelled as strings, never nil.
- Sort ties: rows with equal `createdAt` may come back from the database in any order. The model sorts stably and states only the order and the multiset.
- The controllers for properties and inquiries, and the admin user-listing endpoints: they only wrap service calls in response envelopes.
- `AuthController.java:86-123`: it assigns an `Optional<User>` to a `User` and does not compile as written.
- The `InquiryStatus` enum file is not part of this model. The statuses are the three the backend code uses: OPEN, CLOSED and EXPIRED. The IN_PROGRESS value of the iOS enum is not modelled.
- How the iOS type buttons map a button tag to a type (`filterButtonTapped`): `Dashboard.SelectType` takes the chosen type as given.
- Android search text: `onTextChanged` passes the untrimmed text to `filterProperties`, and `filterByType` passes the trimmed text. `Dashboard.FilterProperties` takes whatever text it is given.
- Networking, persistence clients, JSON mappings, navigation, layout and the inquiry screens: these are user-interface or I/O code.

## Findings

| source | as written | input that shows it | evidently intended | confidence | as-written member | corrected member |
|---|---|---|---|---|---|---|
| android-app/app/src/main/java/com/propertyapp/android/DashboardActivity.java:98 | The adapter keeps `filteredProperties` itself, not a copy. `updateProperties` clears its own list before copying from its argument. So `filterProperties("")` hands the adapter its own list and empties it, and every search overwrites `filteredProperties`. | Load two properties, type "a" in the search box, then delete it: the screen shows no properties. | Clearing the search shows the type-filtered list again, and each search starts from that list. | not executed | Dashboard.ClearedSearchEmptiesList | Dashboard.CopyingAdapterRestoresList |
