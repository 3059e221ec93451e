/** The aggregations behind the `/admin` endpoints: the dashboard head counts
    and the two per-customer inquiry reports. Both reports are built with
    `Collectors.toMap` keyed by the customer's full name, so two customers who
    share a name make the whole report fail. */
module Admin {
  import opened Seqs
  import opened Results
  import opened Clock
  import Users
  import Properties
  import Inquiries

  // ---------------------------------------------------------------------------
  // Dashboard statistics

  datatype DashboardStats = DashboardStats(
    totalUsers: nat,
    totalCustomers: nat,
    totalSellers: nat,
    activeUsers: nat,
    inactiveUsers: int)

  predicate IsCustomer(u: Users.User) { u.userType == Users.Customer }
  predicate IsSeller(u: Users.User) { u.userType == Users.Seller }
  predicate IsActive(u: Users.User) { u.isActive }
  predicate IsInactive(u: Users.User) { !u.isActive }

  /** `getDashboardStats`: head counts over the whole user table; the inactive
      figure is the difference of two counts, which is the number of deactivated accounts. */
  function Stats(reg: Users.Registry): (s: DashboardStats)
    ensures s.totalUsers == |reg.users|
    ensures s.totalCustomers == Count(reg.users, IsCustomer) && s.totalSellers == Count(reg.users, IsSeller)
    ensures s.totalCustomers + s.totalSellers == s.totalUsers
    ensures s.activeUsers == Count(reg.users, IsActive)
    ensures s.activeUsers + s.inactiveUsers == s.totalUsers
    ensures s.inactiveUsers == Count(reg.users, IsInactive)
  {
    var total := |reg.users|;
    var active := Count(reg.users, IsActive);
    CountComplement(reg.users, IsCustomer, IsSeller);
    CountComplement(reg.users, IsActive, IsInactive);
    DashboardStats(total, Count(reg.users, IsCustomer), Count(reg.users, IsSeller), active, total - active)
  }

  /** A signup adds one active user to the counts, under its own type. */
  lemma SignupCounts(reg: Users.Registry, req: Users.SignupRequest)
    requires Users.Signup(reg, req).1.Ok?
    ensures Stats(Users.Signup(reg, req).0).totalUsers == Stats(reg).totalUsers + 1
    ensures Stats(Users.Signup(reg, req).0).activeUsers == Stats(reg).activeUsers + 1
    ensures Stats(Users.Signup(reg, req).0).inactiveUsers == Stats(reg).inactiveUsers
    ensures Stats(Users.Signup(reg, req).0).totalCustomers
            == Stats(reg).totalCustomers + (if req.userType == Users.Customer then 1 else 0)
    ensures Stats(Users.Signup(reg, req).0).totalSellers
            == Stats(reg).totalSellers + (if req.userType == Users.Seller then 1 else 0)
  {
    var u := Users.Signup(reg, req).1.value;
    CountSnoc(reg.users, u, IsActive);
    CountSnoc(reg.users, u, IsCustomer);
    CountSnoc(reg.users, u, IsSeller);
  }

  /** Deactivation moves an active account to the inactive count and leaves the type counts alone. */
  lemma DeactivateCounts(reg: Users.Registry, id: nat)
    requires Users.DeactivateUser(reg, id).1.Ok?
    ensures Stats(Users.DeactivateUser(reg, id).0).totalUsers == Stats(reg).totalUsers
    ensures Stats(Users.DeactivateUser(reg, id).0).totalCustomers == Stats(reg).totalCustomers
    ensures Stats(Users.DeactivateUser(reg, id).0).totalSellers == Stats(reg).totalSellers
    ensures Stats(Users.DeactivateUser(reg, id).0).activeUsers
            == Stats(reg).activeUsers - (if reg.users[Users.IndexOfId(reg.users, id)].isActive then 1 else 0)
  {
    var k := Users.IndexOfId(reg.users, id);
    var u := reg.users[k].(isActive := false);
    assert Users.DeactivateUser(reg, id).0.users == reg.users[k := u];
    CountUpdate(reg.users, k, u, IsActive);
    CountUpdate(reg.users, k, u, IsCustomer);
    CountUpdate(reg.users, k, u, IsSeller);
  }

  // ---------------------------------------------------------------------------
  // Collectors.toMap keyed by full name

  /** The message of the exception `Map.of` raises on a null value. */
  const NullMessage := "null"

  /** The head of the `toMap` duplicate-key message; the merged values it also prints are not modelled. */
  function DuplicateKeyMessage(name: string): string { "Duplicate key " + name }

  ghost predicate DistinctNames(us: seq<Users.User>)
  {
    forall i, j :: 0 <= i < j < |us| ==> us[i].fullName != us[j].fullName
  }

  function NamesOf(us: seq<Users.User>): set<string>
  {
    set i | 0 <= i < |us| :: us[i].fullName
  }

  /** `toMap` over `us`, continuing from `acc`, meets no null value and no repeated key. */
  ghost predicate Fits<V>(us: seq<Users.User>, value: Users.User -> Option<V>, acc: map<string, V>)
  {
    (forall i :: 0 <= i < |us| ==> value(us[i]).Some? && us[i].fullName !in acc) && DistinctNames(us)
  }

  lemma NamesCons(us: seq<Users.User>)
    requires us != []
    ensures NamesOf(us) == {us[0].fullName} + NamesOf(us[1..])
  {
    forall n | n in NamesOf(us) ensures n in {us[0].fullName} + NamesOf(us[1..]) {
      var i :| 0 <= i < |us| && us[i].fullName == n;
      if i > 0 { assert us[1..][i - 1].fullName == n; }
    }
    forall n | n in NamesOf(us[1..]) ensures n in NamesOf(us) {
      var i :| 0 <= i < |us[1..]| && us[1..][i].fullName == n;
      assert us[i + 1].fullName == n;
    }
  }

  /** Once the head is accepted into `acc`, the tail fits the extended map iff the whole list fits `acc`. */
  lemma FitsCons<V>(us: seq<Users.User>, value: Users.User -> Option<V>, acc: map<string, V>, v: V)
    requires us != [] && value(us[0]) == Some(v) && us[0].fullName !in acc
    ensures Fits(us[1..], value, acc[us[0].fullName := v]) <==> Fits(us, value, acc)
  {
    var acc' := acc[us[0].fullName := v];
    if Fits(us[1..], value, acc') {
      forall i, j | 0 <= i < j < |us| ensures us[i].fullName != us[j].fullName {
        assert us[1..][j - 1] == us[j];
        if i > 0 { assert us[1..][i - 1] == us[i]; }
      }
      forall i | 0 <= i < |us| ensures value(us[i]).Some? && us[i].fullName !in acc {
        if i > 0 { assert us[1..][i - 1] == us[i]; }
      }
    }
    if Fits(us, value, acc) {
      forall i | 0 <= i < |us[1..]| ensures value(us[1..][i]).Some? && us[1..][i].fullName !in acc' {
        assert us[1..][i] == us[i + 1];
      }
      forall i, j | 0 <= i < j < |us[1..]| ensures us[1..][i].fullName != us[1..][j].fullName {
        assert us[1..][i] == us[i + 1] && us[1..][j] == us[j + 1];
      }
    }
  }

  /** `toMap(User::getFullName, value)` over `us`, continuing from the entries in `acc`.
      `value` yields None where the Java value mapper would throw on a null. */
  function ToMapFrom<V>(us: seq<Users.User>, value: Users.User -> Option<V>, acc: map<string, V>)
    : (r: Result<map<string, V>>)
    ensures r.Ok? <==> Fits(us, value, acc)
    ensures r.Ok? ==> r.value.Keys == acc.Keys + NamesOf(us)
                      && (forall n :: n in acc ==> r.value[n] == acc[n])
                      && (forall i :: 0 <= i < |us| ==> r.value[us[i].fullName] == value(us[i]).value)
    ensures r.Err? && (forall i :: 0 <= i < |us| ==> value(us[i]).Some?)
            ==> exists j :: 0 <= j < |us| && r.message == DuplicateKeyMessage(us[j].fullName)
    decreases |us|
  {
    if us == [] then Ok(acc)
    else
      match value(us[0])
      case None => Err(NullMessage)
      case Some(v) =>
        if us[0].fullName in acc then Err(DuplicateKeyMessage(us[0].fullName))
        else
          var rest := ToMapFrom(us[1..], value, acc[us[0].fullName := v]);
          NamesCons(us);
          FitsCons(us, value, acc, v);
          assert rest.Ok? ==> forall i :: 0 <= i < |us| ==> rest.value[us[i].fullName] == value(us[i]).value by {
            if rest.Ok? {
              forall i | 0 <= i < |us| ensures rest.value[us[i].fullName] == value(us[i]).value {
                if i > 0 { assert us[1..][i - 1] == us[i]; }
              }
            }
          }
          assert rest.Err? && (forall i :: 0 <= i < |us| ==> value(us[i]).Some?)
                 ==> exists j :: 0 <= j < |us| && rest.message == DuplicateKeyMessage(us[j].fullName) by {
            if rest.Err? && (forall i :: 0 <= i < |us| ==> value(us[i]).Some?) {
              forall i | 0 <= i < |us[1..]| ensures value(us[1..][i]).Some? {
                assert us[1..][i] == us[i + 1];
              }
              var j :| 0 <= j < |us[1..]| && rest.message == DuplicateKeyMessage(us[1..][j].fullName);
              assert us[1..][j] == us[j + 1];
            }
          }
          rest
  }

  function ToMap<V>(us: seq<Users.User>, value: Users.User -> Option<V>): (r: Result<map<string, V>>)
    ensures r.Ok? <==> (forall i :: 0 <= i < |us| ==> value(us[i]).Some?) && DistinctNames(us)
    ensures r.Ok? ==> r.value.Keys == NamesOf(us)
                      && forall i :: 0 <= i < |us| ==> r.value[us[i].fullName] == value(us[i]).value
    ensures r.Err? && (forall i :: 0 <= i < |us| ==> value(us[i]).Some?)
            ==> exists j :: 0 <= j < |us| && r.message == DuplicateKeyMessage(us[j].fullName)
  {
    ToMapFrom(us, value, map[])
  }

  /** The report's rows: every CUSTOMER in table order, active or not. */
  function Customers(reg: Users.Registry): seq<Users.User>
  {
    Filter(reg.users, IsCustomer)
  }

  /** Two different users with one name in a list make its names not distinct. */
  lemma TwoWithOneName(us: seq<Users.User>, x: Users.User, y: Users.User)
    requires x in us && y in us && x != y && x.fullName == y.fullName
    ensures !DistinctNames(us)
  {
    var a :| 0 <= a < |us| && us[a] == x;
    var b :| 0 <= b < |us| && us[b] == y;
    if a < b {
      assert us[a].fullName == us[b].fullName;
    } else {
      assert us[b].fullName == us[a].fullName;
    }
  }

  /** A shared name among customers of a table with distinct ids breaks `toMap`'s key uniqueness. */
  lemma SharedNameNotDistinct(reg: Users.Registry, i: int, j: int)
    requires Users.Valid(reg) && 0 <= i < j < |reg.users|
    requires IsCustomer(reg.users[i]) && IsCustomer(reg.users[j])
    requires reg.users[i].fullName == reg.users[j].fullName
    ensures !DistinctNames(Customers(reg))
  {
    assert reg.users[i].id != reg.users[j].id;
    TwoWithOneName(Customers(reg), reg.users[i], reg.users[j]);
  }

  function AddressOrNA(u: Users.User): string
  {
    if u.address.Some? then u.address.value else "N/A"
  }

  // ---------------------------------------------------------------------------
  // Closed-inquiries report

  datatype ClosedItem = ClosedItem(propertyTitle: string, closingReason: string, closedDate: Time)

  datatype ClosedEntry = ClosedEntry(contactNo: string, address: string, closedInquiries: seq<ClosedItem>)

  predicate IsClosed(q: Inquiries.Inquiry) { q.status == Inquiries.Closed }

  /** One row of a customer's closed list; None where `Map.of` meets a null title or closing date. */
  function ClosedItemOf(ls: Properties.Listings, q: Inquiries.Inquiry): Option<ClosedItem>
  {
    var title := Inquiries.TitleOf(ls, q.propertyId);
    if title.None? || q.closedDate.None? then None
    else
      Some(ClosedItem(title.value, if q.closingReason.Some? then q.closingReason.value else "N/A", q.closedDate.value))
  }

  /** The mapped list, or None as soon as one row cannot be built. */
  function ClosedItems(ls: Properties.Listings, qs: seq<Inquiries.Inquiry>): (r: Option<seq<ClosedItem>>)
    ensures r.Some? <==> forall i :: 0 <= i < |qs| ==> ClosedItemOf(ls, qs[i]).Some?
    ensures r.Some? ==> |r.value| == |qs| && forall i :: 0 <= i < |qs| ==> r.value[i] == ClosedItemOf(ls, qs[i]).value
  {
    if qs == [] then Some([])
    else
      match ClosedItemOf(ls, qs[0])
      case None => None
      case Some(item) =>
        var rest := ClosedItems(ls, qs[1..]);
        assert rest.Some? <==> forall i :: 0 <= i < |qs| ==> ClosedItemOf(ls, qs[i]).Some? by {
          if forall i :: 0 <= i < |qs| ==> ClosedItemOf(ls, qs[i]).Some? {
            forall i | 0 <= i < |qs[1..]| ensures ClosedItemOf(ls, qs[1..][i]).Some? {
              assert qs[1..][i] == qs[i + 1];
            }
          }
          if rest.Some? {
            forall i | 0 <= i < |qs| ensures ClosedItemOf(ls, qs[i]).Some? {
              if i > 0 { assert qs[1..][i - 1] == qs[i]; }
            }
          }
        }
        if rest.None? then None else Some([item] + rest.value)
  }

  /** The customer's CLOSED inquiries, in the newest-first order of `getInquiriesByCustomer`. */
  function ClosedOf(b: Inquiries.Book, u: Users.User): seq<Inquiries.Inquiry>
  {
    Filter(Inquiries.NewestFirst(b, Inquiries.OfCustomer(u.id)), IsClosed)
  }

  /** The value the closed report stores under one customer's name. */
  function ClosedEntryOf(b: Inquiries.Book, ls: Properties.Listings, u: Users.User): Option<ClosedEntry>
  {
    var items := ClosedItems(ls, ClosedOf(b, u));
    if items.None? then None else Some(ClosedEntry(u.mobile, AddressOrNA(u), items.value))
  }

  function ClosedEntryFor(b: Inquiries.Book, ls: Properties.Listings): Users.User -> Option<ClosedEntry>
  {
    (u: Users.User) => ClosedEntryOf(b, ls, u)
  }

  /** The closed list of a customer holds only that customer's CLOSED inquiries. */
  lemma ClosedOfMember(b: Inquiries.Book, u: Users.User, q: Inquiries.Inquiry)
    requires q in ClosedOf(b, u)
    ensures q in b.inquiries && q.customerId == u.id && q.status == Inquiries.Closed
  {
    Inquiries.NewestFirstMembers(b, Inquiries.OfCustomer(u.id), q);
  }

  /** A closed-report entry carries the customer's number, "N/A" for a missing address,
      and one row per CLOSED inquiry of that customer, showing "N/A" for a missing reason. */
  lemma ClosedEntryShowsClosedOnly(b: Inquiries.Book, ls: Properties.Listings, u: Users.User, k: int)
    requires ClosedEntryOf(b, ls, u).Some? && 0 <= k < |ClosedEntryOf(b, ls, u).value.closedInquiries|
    ensures ClosedEntryOf(b, ls, u).value.contactNo == u.mobile
    ensures ClosedEntryOf(b, ls, u).value.address == (if u.address.None? then "N/A" else u.address.value)
    ensures exists q :: q in b.inquiries && q.customerId == u.id && q.status == Inquiries.Closed
                        && q.closedDate == Some(ClosedEntryOf(b, ls, u).value.closedInquiries[k].closedDate)
                        && ClosedEntryOf(b, ls, u).value.closedInquiries[k].closingReason
                           == (if q.closingReason.None? then "N/A" else q.closingReason.value)
  {
    var qs := ClosedOf(b, u);
    var q := qs[k];
    ClosedOfMember(b, u, q);
    assert ClosedEntryOf(b, ls, u).value.closedInquiries[k] == ClosedItemOf(ls, q).value;
  }

  const ClosedReportRetrieved := "Closed inquiries report retrieved successfully"
  const ClosedReportFailed := "Failed to retrieve closed inquiries report: "

  /** `getClosedInquiriesReport`: customer name to closed entry, or a 400 carrying the exception text. */
  function ClosedReport(reg: Users.Registry, b: Inquiries.Book, ls: Properties.Listings)
    : (r: Response<map<string, ClosedEntry>>)
    ensures r.Success? || r.BadRequest?
    ensures r.Success? <==> ((forall i :: 0 <= i < |Customers(reg)| ==> ClosedEntryOf(b, ls, Customers(reg)[i]).Some?)
                             && DistinctNames(Customers(reg)))
    ensures r.Success? ==> r.message == ClosedReportRetrieved && r.data.Some?
                           && r.data.value.Keys == NamesOf(Customers(reg))
                           && forall i :: 0 <= i < |Customers(reg)| ==>
                                r.data.value[Customers(reg)[i].fullName] == ClosedEntryOf(b, ls, Customers(reg)[i]).value
    ensures r.BadRequest? ==> |ClosedReportFailed| <= |r.message| && r.message[..|ClosedReportFailed|] == ClosedReportFailed
  {
    match ToMap(Customers(reg), ClosedEntryFor(b, ls))
    case Ok(m) => Success(ClosedReportRetrieved, Some(m))
    case Err(e) => BadRequest(ClosedReportFailed + e)
  }

  /** With a consistent inquiry table (every CLOSED inquiry dated, every property on the table)
      no null is met, so the closed report fails exactly when two customers share a name. */
  lemma ClosedReportFailsOnlyOnNames(reg: Users.Registry, b: Inquiries.Book, ls: Properties.Listings)
    requires Inquiries.Valid(b)
    requires forall i :: 0 <= i < |b.inquiries| ==> Inquiries.TitleOf(ls, b.inquiries[i].propertyId).Some?
    ensures ClosedReport(reg, b, ls).Success? <==> DistinctNames(Customers(reg))
  {
    var cs := Customers(reg);
    forall i | 0 <= i < |cs| ensures ClosedEntryOf(b, ls, cs[i]).Some? {
      ClosedEntryDefined(b, ls, cs[i]);
    }
  }

  lemma ClosedEntryDefined(b: Inquiries.Book, ls: Properties.Listings, u: Users.User)
    requires Inquiries.Valid(b)
    requires forall i :: 0 <= i < |b.inquiries| ==> Inquiries.TitleOf(ls, b.inquiries[i].propertyId).Some?
    ensures ClosedEntryOf(b, ls, u).Some?
  {
    var qs := ClosedOf(b, u);
    forall k | 0 <= k < |qs| ensures ClosedItemOf(ls, qs[k]).Some? {
      ClosedOfMember(b, u, qs[k]);
      var n :| 0 <= n < |b.inquiries| && b.inquiries[n] == qs[k];
    }
  }

  // ---------------------------------------------------------------------------
  // All-inquiries report

  datatype Tally = Tally(
    contactNo: string,
    address: string,
    totalInquiries: nat,
    openInquiries: nat,
    closedInquiries: nat,
    expiredInquiries: nat)

  function HasStatus(s: Inquiries.InquiryStatus): Inquiries.Inquiry -> bool
  {
    (q: Inquiries.Inquiry) => q.status == s
  }

  /** The three statuses split any list of inquiries. */
  lemma {:induction false} StatusPartition(qs: seq<Inquiries.Inquiry>)
    ensures Count(qs, HasStatus(Inquiries.Open)) + Count(qs, HasStatus(Inquiries.Closed))
            + Count(qs, HasStatus(Inquiries.Expired)) == |qs|
    decreases |qs|
  {
    if qs != [] {
      StatusPartition(qs[1..]);
    }
  }

  /** Counting one status in a customer's newest-first list gives the same figure as the
      repository's query for that customer and status. */
  lemma StatusCountMatchesQuery(b: Inquiries.Book, customerId: nat, s: Inquiries.InquiryStatus)
    ensures Count(Inquiries.NewestFirst(b, Inquiries.OfCustomer(customerId)), HasStatus(s))
            == |Inquiries.ByCustomerAndStatus(b, customerId, s)|
  {
    CountPermutation(Inquiries.NewestFirst(b, Inquiries.OfCustomer(customerId)),
                     Filter(b.inquiries, Inquiries.OfCustomer(customerId)), HasStatus(s));
    FilterOfFilter(b.inquiries, Inquiries.OfCustomer(customerId), HasStatus(s), Inquiries.CustomerIn(customerId, s));
  }

  /** The value the all-inquiries report stores under one customer's name: each status figure
      is the number of the customer's inquiries in that status, the three add up to the total,
      and the total is the repository's count for the customer. */
  function TallyOf(b: Inquiries.Book, u: Users.User): (t: Tally)
    ensures t.openInquiries == |Inquiries.ByCustomerAndStatus(b, u.id, Inquiries.Open)|
    ensures t.closedInquiries == |Inquiries.ByCustomerAndStatus(b, u.id, Inquiries.Closed)|
    ensures t.expiredInquiries == |Inquiries.ByCustomerAndStatus(b, u.id, Inquiries.Expired)|
    ensures t.openInquiries + t.closedInquiries + t.expiredInquiries == t.totalInquiries
    ensures t.totalInquiries == Inquiries.CountByCustomer(b, u.id)
    ensures t.contactNo == u.mobile && t.address == AddressOrNA(u)
  {
    var qs := Inquiries.NewestFirst(b, Inquiries.OfCustomer(u.id));
    StatusPartition(qs);
    StatusCountMatchesQuery(b, u.id, Inquiries.Open);
    StatusCountMatchesQuery(b, u.id, Inquiries.Closed);
    StatusCountMatchesQuery(b, u.id, Inquiries.Expired);
    assert |qs| == |multiset(qs)| == |multiset(Filter(b.inquiries, Inquiries.OfCustomer(u.id)))|;
    Tally(u.mobile, AddressOrNA(u), |qs|, Count(qs, HasStatus(Inquiries.Open)),
          Count(qs, HasStatus(Inquiries.Closed)), Count(qs, HasStatus(Inquiries.Expired)))
  }

  function TallyFor(b: Inquiries.Book): Users.User -> Option<Tally>
  {
    (u: Users.User) => Some(TallyOf(b, u))
  }

  const AllReportRetrieved := "All inquiries report retrieved successfully"
  const AllReportFailed := "Failed to retrieve all inquiries report: "

  /** `getAllInquiriesReport`: no value can be null here, so only a shared customer name fails it. */
  function AllReport(reg: Users.Registry, b: Inquiries.Book): (r: Response<map<string, Tally>>)
    ensures r.Success? || r.BadRequest?
    ensures r.Success? <==> DistinctNames(Customers(reg))
    ensures r.Success? ==> r.message == AllReportRetrieved && r.data.Some?
                           && r.data.value.Keys == NamesOf(Customers(reg))
                           && forall i :: 0 <= i < |Customers(reg)| ==>
                                r.data.value[Customers(reg)[i].fullName] == TallyOf(b, Customers(reg)[i])
    ensures r.BadRequest? ==> exists j :: 0 <= j < |Customers(reg)|
                                && r.message == AllReportFailed + DuplicateKeyMessage(Customers(reg)[j].fullName)
  {
    match ToMap(Customers(reg), TallyFor(b))
    case Ok(m) => Success(AllReportRetrieved, Some(m))
    case Err(e) => BadRequest(AllReportFailed + e)
  }

  /** Both reports are keyed by customers only: every key is the name of a CUSTOMER on the table. */
  lemma ReportsListOnlyCustomers(reg: Users.Registry, b: Inquiries.Book, ls: Properties.Listings, n: string)
    requires (ClosedReport(reg, b, ls).Success? && n in ClosedReport(reg, b, ls).data.value)
             || (AllReport(reg, b).Success? && n in AllReport(reg, b).data.value)
    ensures exists u :: u in reg.users && u.userType == Users.Customer && u.fullName == n
  {
    var cs := Customers(reg);
    var i :| 0 <= i < |cs| && cs[i].fullName == n;
    assert cs[i] in reg.users && IsCustomer(cs[i]);
  }

  /** Two customers with one name make both reports fail. */
  lemma SharedNameFailsReports(reg: Users.Registry, b: Inquiries.Book, ls: Properties.Listings, i: int, j: int)
    requires Users.Valid(reg) && 0 <= i < j < |reg.users|
    requires reg.users[i].userType == Users.Customer && reg.users[j].userType == Users.Customer
    requires reg.users[i].fullName == reg.users[j].fullName
    ensures ClosedReport(reg, b, ls).BadRequest?
    ensures AllReport(reg, b).BadRequest?
  {
    SharedNameNotDistinct(reg, i, j);
  }
}
