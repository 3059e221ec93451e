/** The user registry: the `Users` table, the `UserService` operations that
    add, edit and deactivate accounts, and the repository lookups they use.
    Mobile number, email, Aadhaar number and PAN card are each unique across
    the table. */
module Users {
  import opened Text
  import opened Seqs
  import opened Results

  datatype UserType = Customer | Seller

  datatype User = User(
    id: nat,
    fullName: string,
    mobile: string,
    email: string,
    aadhaar: string,
    pan: string,
    userType: UserType,
    address: Option<string>,
    isActive: bool)

  /** The table, with the next identity value. */
  datatype Registry = Registry(users: seq<User>, nextId: nat)

  datatype SignupRequest = SignupRequest(
    fullName: string,
    mobile: string,
    email: string,
    aadhaar: string,
    pan: string,
    userType: UserType,
    address: Option<string>)

  const MobileTaken := "User with this mobile number already exists"
  const EmailTaken := "User with this email already exists"
  const AadhaarTaken := "User with this Aadhaar number already exists"
  const PanTaken := "User with this PAN card already exists"
  /** The database rejects a row that breaks a unique column. */
  const DuplicateKey := "Duplicate key in a unique column"

  function NotFound(id: nat): string { "User not found with ID: " + DecimalString(id) }

  // ---------------------------------------------------------------------------
  // Table invariant

  /** No two users share any of the four unique keys, and ids are distinct and below `nextId`. */
  ghost predicate Valid(reg: Registry)
  {
    && (forall i :: 0 <= i < |reg.users| ==> reg.users[i].id < reg.nextId)
    && (forall i, j :: 0 <= i < j < |reg.users| ==>
          reg.users[i].id != reg.users[j].id
          && reg.users[i].mobile != reg.users[j].mobile
          && reg.users[i].email != reg.users[j].email
          && reg.users[i].aadhaar != reg.users[j].aadhaar
          && reg.users[i].pan != reg.users[j].pan)
  }

  // ---------------------------------------------------------------------------
  // Repository

  predicate HasMobile(users: seq<User>, m: string) { exists i :: 0 <= i < |users| && users[i].mobile == m }
  predicate HasEmail(users: seq<User>, e: string) { exists i :: 0 <= i < |users| && users[i].email == e }
  predicate HasAadhaar(users: seq<User>, a: string) { exists i :: 0 <= i < |users| && users[i].aadhaar == a }
  predicate HasPan(users: seq<User>, p: string) { exists i :: 0 <= i < |users| && users[i].pan == p }

  /** `findByMobileNumber`: a linear scan for the first user with the number. */
  function FindByMobile(users: seq<User>, m: string): (r: Option<User>)
    ensures r.Some? <==> HasMobile(users, m)
    ensures r.Some? ==> r.value in users && r.value.mobile == m
  {
    if users == [] then None
    else if users[0].mobile == m then Some(users[0])
    else
      var rest := FindByMobile(users[1..], m);
      assert rest.Some? <==> HasMobile(users, m) by {
        if HasMobile(users, m) {
          var i :| 0 <= i < |users| && users[i].mobile == m;
          assert users[1..][i - 1].mobile == m;
        }
        if rest.Some? {
          var k :| 0 <= k < |users[1..]| && users[1..][k].mobile == m;
          assert users[k + 1].mobile == m;
        }
      }
      rest
  }

  /** With unique mobile numbers the lookup returns the one user holding the number. */
  lemma FindByMobileUnique(reg: Registry, i: int)
    requires Valid(reg) && 0 <= i < |reg.users|
    ensures FindByMobile(reg.users, reg.users[i].mobile) == Some(reg.users[i])
  {
    var r := FindByMobile(reg.users, reg.users[i].mobile);
    var k :| 0 <= k < |reg.users| && reg.users[k] == r.value;
  }

  function HasId(id: nat): User -> bool { (u: User) => u.id == id }

  /** `findById`: the position of the user with the id, or -1. */
  function IndexOfId(users: seq<User>, id: nat): (k: int)
    ensures -1 <= k < |users|
    ensures k >= 0 ==> users[k].id == id
    ensures k == -1 ==> forall j :: 0 <= j < |users| ==> users[j].id != id
  {
    FirstIndex(users, HasId(id))
  }

  /** `isUserExists`: some stored user has the number. */
  function IsUserExists(reg: Registry, m: string): (b: bool)
    ensures b <==> exists i :: 0 <= i < |reg.users| && reg.users[i].mobile == m
  {
    FindByMobile(reg.users, m).Some?
  }

  predicate IsActiveOfType(u: User, t: UserType) { u.isActive && u.userType == t }

  /** `getUsersByType`, i.e. `findActiveUsersByType`: the active users of one type. */
  function GetUsersByType(reg: Registry, t: UserType): (r: seq<User>)
    ensures forall i :: 0 <= i < |r| ==> r[i] in reg.users && r[i].isActive && r[i].userType == t
    ensures forall i :: 0 <= i < |reg.users| && reg.users[i].isActive && reg.users[i].userType == t ==> reg.users[i] in r
    ensures forall u :: multiset(r)[u] == if IsActiveOfType(u, t) then multiset(reg.users)[u] else 0
    ensures IsSubsequence(r, reg.users)
  {
    var keep := (u: User) => IsActiveOfType(u, t);
    FilterOccurrences(reg.users, keep);
    FilterIsSubsequence(reg.users, keep);
    Filter(reg.users, keep)
  }

  // ---------------------------------------------------------------------------
  // Service

  /** The user a successful signup stores. */
  predicate CreatedFrom(u: User, req: SignupRequest, id: nat)
  {
    u.id == id && u.fullName == req.fullName && u.mobile == req.mobile && u.email == req.email
    && u.aadhaar == req.aadhaar && u.pan == req.pan && u.userType == req.userType
    && u.address == req.address && u.isActive
  }

  /** `signup`: checks the four keys in order, then stores an active user with the request's fields. */
  function Signup(reg: Registry, req: SignupRequest): (r: (Registry, Result<User>))
    ensures r.1.Err? <==> HasMobile(reg.users, req.mobile) || HasEmail(reg.users, req.email)
                          || HasAadhaar(reg.users, req.aadhaar) || HasPan(reg.users, req.pan)
    ensures HasMobile(reg.users, req.mobile) ==> r.1 == Err(MobileTaken)
    ensures !HasMobile(reg.users, req.mobile) && HasEmail(reg.users, req.email) ==> r.1 == Err(EmailTaken)
    ensures (!HasMobile(reg.users, req.mobile) && !HasEmail(reg.users, req.email)
             && HasAadhaar(reg.users, req.aadhaar)) ==> r.1 == Err(AadhaarTaken)
    ensures (!HasMobile(reg.users, req.mobile) && !HasEmail(reg.users, req.email)
             && !HasAadhaar(reg.users, req.aadhaar) && HasPan(reg.users, req.pan)) ==> r.1 == Err(PanTaken)
    ensures r.1.Err? ==> r.0 == reg
    ensures r.1.Ok? ==> r.0.users == reg.users + [r.1.value] && CreatedFrom(r.1.value, req, reg.nextId)
                        && r.0.nextId == reg.nextId + 1
  {
    if HasMobile(reg.users, req.mobile) then (reg, Err(MobileTaken))
    else if HasEmail(reg.users, req.email) then (reg, Err(EmailTaken))
    else if HasAadhaar(reg.users, req.aadhaar) then (reg, Err(AadhaarTaken))
    else if HasPan(reg.users, req.pan) then (reg, Err(PanTaken))
    else
      var u := User(reg.nextId, req.fullName, req.mobile, req.email, req.aadhaar, req.pan,
                    req.userType, req.address, true);
      (Registry(reg.users + [u], reg.nextId + 1), Ok(u))
  }

  /** Signup keeps the four keys unique. */
  lemma SignupPreservesValid(reg: Registry, req: SignupRequest)
    requires Valid(reg)
    ensures Valid(Signup(reg, req).0)
  {
    var r := Signup(reg, req);
    if r.1.Ok? {
      var us := r.0.users;
      forall i, j | 0 <= i < j < |us|
        ensures us[i].id != us[j].id && us[i].mobile != us[j].mobile && us[i].email != us[j].email
                && us[i].aadhaar != us[j].aadhaar && us[i].pan != us[j].pan
      {
        if j == |reg.users| {
          assert us[i] == reg.users[i];
          assert us[i].mobile != req.mobile;
          assert us[i].email != req.email;
          assert us[i].aadhaar != req.aadhaar;
          assert us[i].pan != req.pan;
        }
      }
    }
  }

  /** A registered number can log in: after signup it exists, and a second signup with it fails on the number. */
  lemma SignupThenExists(reg: Registry, req: SignupRequest)
    requires Signup(reg, req).1.Ok?
    ensures IsUserExists(Signup(reg, req).0, req.mobile)
    ensures Signup(Signup(reg, req).0, req).1 == Err(MobileTaken)
  {
    var after := Signup(reg, req).0;
    assert after.users[|reg.users|].mobile == req.mobile;
  }

  /** `updateUser(id, u)`: overwrites name, email and address, nothing else. */
  function UpdateUser(reg: Registry, id: nat, fullName: string, email: string, address: Option<string>): (r: (Registry, Result<User>))
    ensures r.1.Err? ==> r.0 == reg
    ensures IndexOfId(reg.users, id) == -1 <==> r.1 == Err(NotFound(id))
    ensures r.1 == Err(DuplicateKey) <==>
              (IndexOfId(reg.users, id) >= 0
               && exists j :: 0 <= j < |reg.users| && j != IndexOfId(reg.users, id) && reg.users[j].email == email)
    ensures r.1.Ok? <==>
              (IndexOfId(reg.users, id) >= 0
               && forall j :: 0 <= j < |reg.users| && j != IndexOfId(reg.users, id) ==> reg.users[j].email != email)
    ensures r.1.Ok? ==> exists k :: 0 <= k < |reg.users| && reg.users[k].id == id
                          && r.1.value == reg.users[k].(fullName := fullName, email := email, address := address)
                          && r.0 == reg.(users := reg.users[k := r.1.value])
  {
    var k := IndexOfId(reg.users, id);
    assert NotFound(id) != DuplicateKey by {
      assert NotFound(id)[0] == 'U' && DuplicateKey[0] == 'D';
    }
    if k == -1 then (reg, Err(NotFound(id)))
    else if exists j :: 0 <= j < |reg.users| && j != k && reg.users[j].email == email then
      (reg, Err(DuplicateKey))
    else
      var u := reg.users[k].(fullName := fullName, email := email, address := address);
      (reg.(users := reg.users[k := u]), Ok(u))
  }

  /** An accepted edit keeps the four keys unique. */
  lemma UpdateUserPreservesValid(reg: Registry, id: nat, fullName: string, email: string, address: Option<string>)
    requires Valid(reg)
    ensures Valid(UpdateUser(reg, id, fullName, email, address).0)
  {
  }

  /** `deactivateUser`: clears only the active flag. */
  function DeactivateUser(reg: Registry, id: nat): (r: (Registry, Result<User>))
    ensures r.1.Err? <==> IndexOfId(reg.users, id) == -1
    ensures r.1.Err? ==> r.0 == reg && r.1.message == NotFound(id)
    ensures r.1.Ok? ==> exists k :: 0 <= k < |reg.users| && reg.users[k].id == id
                          && r.1.value == reg.users[k].(isActive := false)
                          && r.0 == reg.(users := reg.users[k := r.1.value])
  {
    var k := IndexOfId(reg.users, id);
    if k == -1 then (reg, Err(NotFound(id)))
    else
      var u := reg.users[k].(isActive := false);
      (reg.(users := reg.users[k := u]), Ok(u))
  }

  /** Deactivating twice is the same as deactivating once. */
  lemma DeactivateIdempotent(reg: Registry, id: nat)
    ensures DeactivateUser(DeactivateUser(reg, id).0, id).0 == DeactivateUser(reg, id).0
  {
    var once := DeactivateUser(reg, id).0;
    var k := IndexOfId(reg.users, id);
    if k != -1 {
      assert once.users[k].id == id;
    }
  }

  /** A deactivated user is no longer listed by type. */
  lemma DeactivatedNotListed(reg: Registry, id: nat, t: UserType)
    requires Valid(reg) && DeactivateUser(reg, id).1.Ok?
    ensures forall u :: u in GetUsersByType(DeactivateUser(reg, id).0, t) ==> u.id != id
  {
    var after := DeactivateUser(reg, id).0;
    forall u | u in GetUsersByType(after, t)
      ensures u.id != id
    {
      var r := GetUsersByType(after, t);
      var n :| 0 <= n < |r| && r[n] == u;
      var m :| 0 <= m < |after.users| && after.users[m] == u;
      var k := IndexOfId(reg.users, id);
      if m != k {
        assert after.users[m] == reg.users[m];
        if m < k {
          assert reg.users[m].id != reg.users[k].id;
        } else {
          assert reg.users[k].id != reg.users[m].id;
        }
      }
    }
  }
}
