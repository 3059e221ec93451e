/** Customer inquiries about listings: the `Inquiry` entity and its defaults,
    the `InquiryRepository` queries and counts, and the `InquiryService`
    operations that open an inquiry, let the seller change its status and sweep
    overdue ones to EXPIRED. `LocalDateTime.plusMonths(3)` is the parameter
    `calendar`; SMS notifications go through `deliver`, whose failure the
    service swallows. */
module Inquiries {
  import opened Text
  import opened Seqs
  import opened Results
  import opened Clock
  import Users
  import Properties

  datatype InquiryStatus = Open | Closed | Expired

  datatype Inquiry = Inquiry(
    id: nat,
    propertyId: nat,
    customerId: nat,
    sellerId: nat,
    description: Option<string>,
    status: InquiryStatus,
    closingReason: Option<string>,
    termsAccepted: bool,
    inquiryDate: Option<Time>,
    expiryDate: Time,
    closedDate: Option<Time>,
    createdAt: Time)

  datatype Book = Book(inquiries: seq<Inquiry>, nextId: nat)

  /** An SMS the service handed to the gateway and the gateway accepted. */
  datatype Notice = Notice(to: string, text: string)

  /** What an operation leaves behind: the table, the outcome and the notices delivered. */
  datatype Effect<T> = Effect(book: Book, result: Result<T>, sent: seq<Notice>)

  const MaxClosingReason: nat := 500

  const OnlyCustomers := "Only customers can create inquiries"
  const TermsRequired := "Terms and conditions must be accepted to create an inquiry"
  const OnlySeller := "Only the seller can update inquiry status"
  const ReasonTooLong := "Closing reason must not exceed " + "500 characters"

  function CustomerNotFound(id: nat): string { "Customer not found with ID: " + DecimalString(id) }
  function SellerNotFound(id: nat): string { "Seller not found with ID: " + DecimalString(id) }
  function PropertyNotFound(id: nat): string { "Property not found with ID: " + DecimalString(id) }
  function InquiryNotFound(id: nat): string { "Inquiry not found with ID: " + DecimalString(id) }

  // ---------------------------------------------------------------------------
  // Entity

  /** The four-argument constructor: status OPEN, terms not accepted, never closed,
      dated `now` and due to expire `calendar(now)`, three months later. */
  function NewInquiry(id: nat, propertyId: nat, customerId: nat, sellerId: nat,
                      description: Option<string>, now: Time, calendar: Time -> Time): (q: Inquiry)
    ensures q.status == Open && !q.termsAccepted && q.closedDate.None? && q.closingReason.None?
    ensures q.inquiryDate == Some(now) && q.expiryDate == calendar(now) && q.createdAt == now
    ensures q.propertyId == propertyId && q.customerId == customerId && q.sellerId == sellerId
            && q.description == description && q.id == id
  {
    Inquiry(id, propertyId, customerId, sellerId, description, Open, None, false,
            Some(now), calendar(now), None, now)
  }

  /** The column constraint on the closing reason. */
  predicate ReasonFits(q: Inquiry)
  {
    q.closingReason.None? || |q.closingReason.value| <= MaxClosingReason
  }

  /** Every closed inquiry carries the date it was closed, and every reason fits its column. */
  ghost predicate Valid(b: Book)
  {
    && (forall i :: 0 <= i < |b.inquiries| ==> b.inquiries[i].id < b.nextId)
    && (forall i, j :: 0 <= i < j < |b.inquiries| ==> b.inquiries[i].id != b.inquiries[j].id)
    && (forall i :: 0 <= i < |b.inquiries| ==>
          ReasonFits(b.inquiries[i]) && (b.inquiries[i].status == Closed ==> b.inquiries[i].closedDate.Some?))
  }

  // ---------------------------------------------------------------------------
  // Repository

  function CreatedAt(q: Inquiry): int { q.createdAt }

  predicate IsOverdue(q: Inquiry, now: Time) { q.status == Open && q.expiryDate < now }

  function OverdueAt(now: Time): Inquiry -> bool { (q: Inquiry) => IsOverdue(q, now) }

  /** `findExpiredInquiries`: OPEN inquiries whose expiry date is strictly before `now`. */
  function FindExpired(b: Book, now: Time): (r: seq<Inquiry>)
    ensures forall i :: 0 <= i < |r| ==> r[i] in b.inquiries && r[i].status == Open && r[i].expiryDate < now
    ensures forall i :: 0 <= i < |b.inquiries| && b.inquiries[i].status == Open && b.inquiries[i].expiryDate < now
                        ==> b.inquiries[i] in r
  {
    Filter(b.inquiries, OverdueAt(now))
  }

  /** The three `...OrderByCreatedAtDesc` queries: every inquiry of one owner, any status, newest first. */
  function NewestFirst(b: Book, owns: Inquiry -> bool): (r: seq<Inquiry>)
    ensures SortedDesc(r, CreatedAt)
    ensures multiset(r) == multiset(Filter(b.inquiries, owns))
  {
    SortDesc(Filter(b.inquiries, owns), CreatedAt)
  }

  function OfCustomer(customerId: nat): Inquiry -> bool { (q: Inquiry) => q.customerId == customerId }
  function OfSeller(sellerId: nat): Inquiry -> bool { (q: Inquiry) => q.sellerId == sellerId }
  function OfProperty(propertyId: nat): Inquiry -> bool { (q: Inquiry) => q.propertyId == propertyId }

  /** The newest-first lists hold exactly the owner's inquiries, whatever their status. */
  lemma NewestFirstMembers(b: Book, owns: Inquiry -> bool, q: Inquiry)
    ensures q in NewestFirst(b, owns) <==> q in b.inquiries && owns(q)
  {
    var hits := Filter(b.inquiries, owns);
    SortDescSameElements(hits, CreatedAt);
    if q in b.inquiries && owns(q) {
      var k :| 0 <= k < |b.inquiries| && b.inquiries[k] == q;
      assert b.inquiries[k] in hits;
    }
  }

  predicate OfSellerIn(q: Inquiry, sellerId: nat, status: InquiryStatus) { q.sellerId == sellerId && q.status == status }
  predicate OfCustomerIn(q: Inquiry, customerId: nat, status: InquiryStatus) { q.customerId == customerId && q.status == status }

  /** `findBySellerAndStatus`. */
  function BySellerAndStatus(b: Book, sellerId: nat, status: InquiryStatus): (r: seq<Inquiry>)
    ensures forall i :: 0 <= i < |r| ==> r[i] in b.inquiries && r[i].sellerId == sellerId && r[i].status == status
    ensures forall i :: 0 <= i < |b.inquiries| && OfSellerIn(b.inquiries[i], sellerId, status) ==> b.inquiries[i] in r
  {
    Filter(b.inquiries, (q: Inquiry) => OfSellerIn(q, sellerId, status))
  }

  function CustomerIn(customerId: nat, status: InquiryStatus): Inquiry -> bool
  {
    (q: Inquiry) => OfCustomerIn(q, customerId, status)
  }

  /** `findByCustomerAndStatus`. */
  function ByCustomerAndStatus(b: Book, customerId: nat, status: InquiryStatus): (r: seq<Inquiry>)
    ensures forall i :: 0 <= i < |r| ==> r[i] in b.inquiries && r[i].customerId == customerId && r[i].status == status
    ensures forall i :: 0 <= i < |b.inquiries| && OfCustomerIn(b.inquiries[i], customerId, status) ==> b.inquiries[i] in r
    ensures forall q :: multiset(r)[q] == if OfCustomerIn(q, customerId, status) then multiset(b.inquiries)[q] else 0
    ensures IsSubsequence(r, b.inquiries)
  {
    var keep := CustomerIn(customerId, status);
    FilterOccurrences(b.inquiries, keep);
    FilterIsSubsequence(b.inquiries, keep);
    Filter(b.inquiries, keep)
  }

  /** `countOpenInquiriesBySeller`. */
  function CountOpenBySeller(b: Book, sellerId: nat): nat
  {
    |BySellerAndStatus(b, sellerId, Open)|
  }

  /** `countInquiriesByCustomer`: every status counts. */
  function CountByCustomer(b: Book, customerId: nat): nat
  {
    |Filter(b.inquiries, OfCustomer(customerId))|
  }

  /** A customer's inquiries split into the three statuses: open, closed and expired add up to the total. */
  lemma {:induction false} CustomerCountsPartition(qs: seq<Inquiry>, customerId: nat)
    ensures |Filter(qs, OfCustomer(customerId))|
            == |Filter(qs, (q: Inquiry) => OfCustomerIn(q, customerId, Open))|
             + |Filter(qs, (q: Inquiry) => OfCustomerIn(q, customerId, Closed))|
             + |Filter(qs, (q: Inquiry) => OfCustomerIn(q, customerId, Expired))|
    decreases |qs|
  {
    if qs != [] {
      CustomerCountsPartition(qs[1..], customerId);
    }
  }

  /** The open count of a seller never exceeds the seller's inquiries. */
  lemma OpenCountBounded(b: Book, sellerId: nat)
    ensures CountOpenBySeller(b, sellerId) <= |Filter(b.inquiries, OfSeller(sellerId))|
  {
    FilterOfFilter(b.inquiries, OfSeller(sellerId), (q: Inquiry) => q.status == Open,
                   (q: Inquiry) => OfSellerIn(q, sellerId, Open));
  }

  // ---------------------------------------------------------------------------
  // Service: creation

  const SellerPrefix := "New inquiry received for your property: "
  const CustomerLabel := ". Customer: "

  /** The seller's notice: the listing's title right after the fixed opening, and the customer's
      mobile number in the closing parentheses. */
  function SellerMessage(title: string, customer: Users.User): (m: string)
    ensures |m| == |SellerPrefix| + |title| + |CustomerLabel| + |customer.fullName| + |customer.mobile| + 3
    ensures m[..|SellerPrefix|] == SellerPrefix
    ensures m[|SellerPrefix|..|SellerPrefix| + |title|] == title
    ensures m[|m| - 1] == ')' && m[|m| - |customer.mobile| - 2] == '('
    ensures m[|m| - |customer.mobile| - 1..|m| - 1] == customer.mobile
    ensures var at := |SellerPrefix| + |title|;
      m[at..at + |CustomerLabel|] == CustomerLabel
      && m[at + |CustomerLabel|..at + |CustomerLabel| + |customer.fullName|] == customer.fullName
      && m[at + |CustomerLabel| + |customer.fullName|] == ' '
  {
    var m := SellerPrefix + title + CustomerLabel + customer.fullName + " (" + customer.mobile + ")";
    SevenParts(SellerPrefix, title, CustomerLabel, customer.fullName, " (", customer.mobile, ")");
    m
  }

  /** Where each of seven concatenated parts sits in the whole. */
  lemma SevenParts(a: string, b: string, c: string, d: string, e: string, f: string, g: string)
    ensures var m := a + b + c + d + e + f + g;
      var ab := |a| + |b|;
      var abcd := ab + |c| + |d|;
      |m| == abcd + |e| + |f| + |g|
      && m[..|a|] == a && m[|a|..ab] == b && m[ab..ab + |c|] == c && m[ab + |c|..abcd] == d
      && m[abcd..abcd + |e|] == e && m[abcd + |e|..abcd + |e| + |f|] == f && m[abcd + |e| + |f|..] == g
  {
  }

  /** Tries one notification: `deliver` accepts it, or the failure is swallowed and nothing is recorded. */
  function Notify(to: Option<string>, text: string, deliver: (string, string) -> bool): (sent: seq<Notice>)
    ensures |sent| <= 1
    ensures sent != [] <==> to.Some? && deliver(to.value, text)
  {
    if to.Some? && deliver(to.value, text) then [Notice(to.value, text)] else []
  }

  /** The mobile number of a user, if the user is on the table. */
  function MobileOf(reg: Users.Registry, id: nat): Option<string>
  {
    var k := Users.IndexOfId(reg.users, id);
    if k == -1 then None else Some(reg.users[k].mobile)
  }

  /** `createInquiry`: four guards in order, then an OPEN inquiry owned by the listing's seller.
      Both clock reads of the source are the single instant `now`. */
  function CreateInquiry(b: Book, reg: Users.Registry, ls: Properties.Listings, customerId: nat,
                         propertyId: nat, description: Option<string>, termsAccepted: bool,
                         now: Time, calendar: Time -> Time, deliver: (string, string) -> bool): (e: Effect<Inquiry>)
    ensures Users.IndexOfId(reg.users, customerId) == -1 ==> e.result == Err(CustomerNotFound(customerId))
    ensures (Users.IndexOfId(reg.users, customerId) >= 0
             && reg.users[Users.IndexOfId(reg.users, customerId)].userType != Users.Customer)
            ==> e.result == Err(OnlyCustomers)
    ensures (Users.IndexOfId(reg.users, customerId) >= 0
             && reg.users[Users.IndexOfId(reg.users, customerId)].userType == Users.Customer
             && Properties.IndexOfProperty(ls.props, propertyId) == -1)
            ==> e.result == Err(PropertyNotFound(propertyId))
    ensures (Users.IndexOfId(reg.users, customerId) >= 0
             && reg.users[Users.IndexOfId(reg.users, customerId)].userType == Users.Customer
             && Properties.IndexOfProperty(ls.props, propertyId) >= 0 && !termsAccepted)
            ==> e.result == Err(TermsRequired)
    ensures e.result.Ok? <==> (Users.IndexOfId(reg.users, customerId) >= 0
                               && reg.users[Users.IndexOfId(reg.users, customerId)].userType == Users.Customer
                               && Properties.IndexOfProperty(ls.props, propertyId) >= 0 && termsAccepted)
    ensures e.result.Err? ==> e.book == b && e.sent == []
    ensures e.result.Ok? ==> (
              var q := e.result.value;
              var listing := ls.props[Properties.IndexOfProperty(ls.props, propertyId)];
              && q == NewInquiry(b.nextId, propertyId, customerId, listing.sellerId,
                                 description, now, calendar).(termsAccepted := true)
              && e.book == Book(b.inquiries + [q], b.nextId + 1)
              && e.sent == Notify(MobileOf(reg, listing.sellerId),
                                  SellerMessage(listing.details.title, reg.users[Users.IndexOfId(reg.users, customerId)]),
                                  deliver))
  {
    var c := Users.IndexOfId(reg.users, customerId);
    if c == -1 then Effect(b, Err(CustomerNotFound(customerId)), [])
    else if reg.users[c].userType != Users.Customer then Effect(b, Err(OnlyCustomers), [])
    else
      var p := Properties.IndexOfProperty(ls.props, propertyId);
      if p == -1 then Effect(b, Err(PropertyNotFound(propertyId)), [])
      else if !termsAccepted then Effect(b, Err(TermsRequired), [])
      else
        var listing := ls.props[p];
        var q := NewInquiry(b.nextId, propertyId, customerId, listing.sellerId, description, now, calendar)
                 .(termsAccepted := true);
        var text := SellerMessage(listing.details.title, reg.users[c]);
        Effect(Book(b.inquiries + [q], b.nextId + 1), Ok(q), Notify(MobileOf(reg, listing.sellerId), text, deliver))
  }

  /** A failed notification changes nothing about the stored inquiry: with or without delivery the table and result agree. */
  lemma CreateIgnoresDelivery(b: Book, reg: Users.Registry, ls: Properties.Listings, customerId: nat,
                              propertyId: nat, description: Option<string>, termsAccepted: bool,
                              now: Time, calendar: Time -> Time, deliver: (string, string) -> bool)
    ensures var e1 := CreateInquiry(b, reg, ls, customerId, propertyId, description, termsAccepted, now, calendar, deliver);
            var e2 := CreateInquiry(b, reg, ls, customerId, propertyId, description, termsAccepted, now, calendar,
                                    (to: string, text: string) => false);
            e1.book == e2.book && e1.result == e2.result && e2.sent == []
  {
  }

  lemma CreatePreservesValid(b: Book, reg: Users.Registry, ls: Properties.Listings, customerId: nat,
                             propertyId: nat, description: Option<string>, termsAccepted: bool,
                             now: Time, calendar: Time -> Time, deliver: (string, string) -> bool)
    requires Valid(b)
    ensures Valid(CreateInquiry(b, reg, ls, customerId, propertyId, description, termsAccepted, now, calendar, deliver).book)
  {
  }

  /** A new inquiry is not swept at its creation instant, when three months later is later. */
  lemma FreshInquirySurvivesSweep(b: Book, reg: Users.Registry, ls: Properties.Listings, customerId: nat,
                                  propertyId: nat, description: Option<string>, now: Time,
                                  calendar: Time -> Time, deliver: (string, string) -> bool)
    requires calendar(now) >= now
    requires CreateInquiry(b, reg, ls, customerId, propertyId, description, true, now, calendar, deliver).result.Ok?
    ensures !IsOverdue(CreateInquiry(b, reg, ls, customerId, propertyId, description, true, now, calendar, deliver).result.value, now)
  {
  }

  // ---------------------------------------------------------------------------
  // Service: status changes

  function StatusWord(s: InquiryStatus): string
  {
    match s
    case Open => "open"
    case Closed => "closed"
    case Expired => "expired"
  }

  /** The customer's message; the reason is appended whenever it is present and non-empty, whatever the status. */
  function CustomerMessage(title: string, status: InquiryStatus, reason: Option<string>): (m: string)
    ensures reason.Some? && reason.value != [] ==> m == "Your inquiry for property '" + title + "' has been "
                                                        + StatusWord(status) + "." + " Reason: " + reason.value
    ensures !(reason.Some? && reason.value != []) ==> m == "Your inquiry for property '" + title + "' has been "
                                                        + StatusWord(status) + "."
  {
    var base := "Your inquiry for property '" + title + "' has been " + StatusWord(status) + ".";
    if reason.Some? && reason.value != [] then base + " Reason: " + reason.value else base
  }

  /** The title of a listing, if it is on the table. */
  function TitleOf(ls: Properties.Listings, id: nat): Option<string>
  {
    var k := Properties.IndexOfProperty(ls.props, id);
    if k == -1 then None else Some(ls.props[k].details.title)
  }

  function HasInquiryId(id: nat): Inquiry -> bool { (q: Inquiry) => q.id == id }

  function IndexOfInquiry(qs: seq<Inquiry>, id: nat): (k: int)
    ensures -1 <= k < |qs|
    ensures k >= 0 ==> qs[k].id == id
    ensures k == -1 ==> forall j :: 0 <= j < |qs| ==> qs[j].id != id
  {
    FirstIndex(qs, HasInquiryId(id))
  }

  /** The stored row after an authorised status write: closing stamps date and reason, other statuses leave both alone. */
  function WithStatus(q: Inquiry, status: InquiryStatus, reason: Option<string>, now: Time): (r: Inquiry)
    ensures r.status == status
    ensures status == Closed ==> r.closedDate == Some(now) && r.closingReason == reason
    ensures status != Closed ==> r.closedDate == q.closedDate && r.closingReason == q.closingReason
    ensures r.(status := q.status, closedDate := q.closedDate, closingReason := q.closingReason) == q
  {
    if status == Closed then q.(status := status, closedDate := Some(now), closingReason := reason)
    else q.(status := status)
  }

  /** The customer's notice about a status change: sent only when the listing's title can be read,
      and then through `Notify`. */
  function StatusNotice(reg: Users.Registry, ls: Properties.Listings, q: Inquiry, status: InquiryStatus,
                        reason: Option<string>, deliver: (string, string) -> bool): (sent: seq<Notice>)
    ensures |sent| <= 1
    ensures sent != [] <==> TitleOf(ls, q.propertyId).Some? && MobileOf(reg, q.customerId).Some?
                            && deliver(MobileOf(reg, q.customerId).value,
                                       CustomerMessage(TitleOf(ls, q.propertyId).value, status, reason))
  {
    var title := TitleOf(ls, q.propertyId);
    if title.Some? then Notify(MobileOf(reg, q.customerId), CustomerMessage(title.value, status, reason), deliver)
    else []
  }

  /** `updateInquiryStatus`: the inquiry must exist and belong to `sellerId`; there is no check on the
      current status. The service is transactional and the save does not flush, so the customer is
      notified before the commit; a closing reason over the column's 500 characters then fails the
      commit, the change rolls back, and the notice has already gone out. */
  function UpdateStatus(b: Book, reg: Users.Registry, ls: Properties.Listings, inquiryId: nat, sellerId: nat,
                        status: InquiryStatus, reason: Option<string>, now: Time,
                        deliver: (string, string) -> bool): (e: Effect<Inquiry>)
    ensures IndexOfInquiry(b.inquiries, inquiryId) == -1 ==> e.result == Err(InquiryNotFound(inquiryId))
    ensures (IndexOfInquiry(b.inquiries, inquiryId) >= 0
             && b.inquiries[IndexOfInquiry(b.inquiries, inquiryId)].sellerId != sellerId)
            ==> e.result == Err(OnlySeller)
    ensures e.result == Err(ReasonTooLong) <==>
              (IndexOfInquiry(b.inquiries, inquiryId) >= 0
               && b.inquiries[IndexOfInquiry(b.inquiries, inquiryId)].sellerId == sellerId
               && !ReasonFits(WithStatus(b.inquiries[IndexOfInquiry(b.inquiries, inquiryId)], status, reason, now)))
    ensures e.result.Ok? <==>
              (IndexOfInquiry(b.inquiries, inquiryId) >= 0
               && b.inquiries[IndexOfInquiry(b.inquiries, inquiryId)].sellerId == sellerId
               && ReasonFits(WithStatus(b.inquiries[IndexOfInquiry(b.inquiries, inquiryId)], status, reason, now)))
    ensures e.result.Err? ==> e.book == b
    ensures (IndexOfInquiry(b.inquiries, inquiryId) == -1
             || b.inquiries[IndexOfInquiry(b.inquiries, inquiryId)].sellerId != sellerId) ==> e.sent == []
    ensures (IndexOfInquiry(b.inquiries, inquiryId) >= 0
             && b.inquiries[IndexOfInquiry(b.inquiries, inquiryId)].sellerId == sellerId)
            ==> e.sent == StatusNotice(reg, ls, b.inquiries[IndexOfInquiry(b.inquiries, inquiryId)], status, reason, deliver)
    ensures e.result.Ok? ==> (exists k :: 0 <= k < |b.inquiries| && b.inquiries[k].id == inquiryId
                                && b.inquiries[k].sellerId == sellerId
                                && e.result.value == WithStatus(b.inquiries[k], status, reason, now)
                                && e.book == b.(inquiries := b.inquiries[k := e.result.value]))
  {
    var k := IndexOfInquiry(b.inquiries, inquiryId);
    assert InquiryNotFound(inquiryId)[0] == 'I' && OnlySeller[0] == 'O';
    assert ReasonTooLong[0] == 'C';
    if k == -1 then Effect(b, Err(InquiryNotFound(inquiryId)), [])
    else if b.inquiries[k].sellerId != sellerId then Effect(b, Err(OnlySeller), [])
    else
      var q := WithStatus(b.inquiries[k], status, reason, now);
      var sent := StatusNotice(reg, ls, b.inquiries[k], status, reason, deliver);
      if !ReasonFits(q) then Effect(b, Err(ReasonTooLong), sent)
      else Effect(b.(inquiries := b.inquiries[k := q]), Ok(q), sent)
  }

  /** Any status can follow any status: an authorised write always lands, whatever the inquiry's state was. */
  lemma AnyTransitionAllowed(b: Book, reg: Users.Registry, ls: Properties.Listings, k: int,
                             status: InquiryStatus, now: Time, deliver: (string, string) -> bool)
    requires Valid(b) && 0 <= k < |b.inquiries| && IndexOfInquiry(b.inquiries, b.inquiries[k].id) == k
    ensures var e := UpdateStatus(b, reg, ls, b.inquiries[k].id, b.inquiries[k].sellerId, status, None, now, deliver);
            e.result.Ok? && e.result.value.status == status
  {
  }

  lemma UpdateStatusPreservesValid(b: Book, reg: Users.Registry, ls: Properties.Listings, inquiryId: nat, sellerId: nat,
                                   status: InquiryStatus, reason: Option<string>, now: Time,
                                   deliver: (string, string) -> bool)
    requires Valid(b)
    ensures Valid(UpdateStatus(b, reg, ls, inquiryId, sellerId, status, reason, now, deliver).book)
  {
  }

  // ---------------------------------------------------------------------------
  // Service: expiry sweep

  function ExpireOne(q: Inquiry, now: Time): (r: Inquiry)
  {
    if IsOverdue(q, now) then q.(status := Expired) else q
  }

  /** The table after the sweep, row by row. */
  function Swept(qs: seq<Inquiry>, now: Time): (r: seq<Inquiry>)
    ensures |r| == |qs|
    ensures forall i :: 0 <= i < |qs| ==> r[i] == ExpireOne(qs[i], now)
  {
    seq(|qs|, i requires 0 <= i < |qs| => ExpireOne(qs[i], now))
  }

  /** `expireOldInquiries`: every OPEN inquiry past its expiry date becomes EXPIRED; nobody is notified. */
  function ExpireOld(b: Book, now: Time): (r: Book)
    ensures r.nextId == b.nextId && |r.inquiries| == |b.inquiries|
    ensures forall i :: 0 <= i < |b.inquiries| ==>
              if IsOverdue(b.inquiries[i], now) then r.inquiries[i] == b.inquiries[i].(status := Expired)
              else r.inquiries[i] == b.inquiries[i]
  {
    b.(inquiries := Swept(b.inquiries, now))
  }

  /** After the sweep the expired query is empty, so a second sweep at the same instant changes nothing. */
  lemma ExpireOldIdempotent(b: Book, now: Time)
    ensures FindExpired(ExpireOld(b, now), now) == []
    ensures ExpireOld(ExpireOld(b, now), now) == ExpireOld(b, now)
  {
    var r := ExpireOld(b, now);
    assert forall i :: 0 <= i < |r.inquiries| ==> !IsOverdue(r.inquiries[i], now);
    FilterNone(r.inquiries, OverdueAt(now));
    assert forall i :: 0 <= i < |r.inquiries| ==> ExpireOne(r.inquiries[i], now) == r.inquiries[i];
    assert ExpireOld(r, now).inquiries == r.inquiries;
  }

  predicate IsExpiredRow(q: Inquiry) { q.status == Expired }

  /** The sweep adds to the EXPIRED rows exactly as many as the expired query returned. */
  lemma ExpireOldTouchesOnlyOverdue(b: Book, now: Time)
    ensures |FindExpired(b, now)| == Count(ExpireOld(b, now).inquiries, IsExpiredRow) - Count(b.inquiries, IsExpiredRow)
  {
    SweepCounts(b.inquiries, now);
  }

  lemma {:induction false} SweepCounts(qs: seq<Inquiry>, now: Time)
    ensures Count(qs, OverdueAt(now)) + Count(qs, IsExpiredRow) == Count(Swept(qs, now), IsExpiredRow)
    decreases |qs|
  {
    if qs != [] {
      assert Swept(qs, now)[1..] == Swept(qs[1..], now);
      SweepCounts(qs[1..], now);
    }
  }

  lemma ExpireOldPreservesValid(b: Book, now: Time)
    requires Valid(b)
    ensures Valid(ExpireOld(b, now))
  {
  }

  // ---------------------------------------------------------------------------
  // Service: lookups with existence checks

  /** `getInquiriesByCustomer`. */
  function InquiriesOfCustomer(b: Book, reg: Users.Registry, customerId: nat): (r: Result<seq<Inquiry>>)
    ensures r.Err? <==> Users.IndexOfId(reg.users, customerId) == -1
    ensures r.Err? ==> r.message == CustomerNotFound(customerId)
    ensures r.Ok? ==> SortedDesc(r.value, CreatedAt) && multiset(r.value) == multiset(Filter(b.inquiries, OfCustomer(customerId)))
  {
    if Users.IndexOfId(reg.users, customerId) == -1 then Err(CustomerNotFound(customerId))
    else Ok(NewestFirst(b, OfCustomer(customerId)))
  }

  /** `getInquiriesBySeller`. */
  function InquiriesOfSeller(b: Book, reg: Users.Registry, sellerId: nat): (r: Result<seq<Inquiry>>)
    ensures r.Err? <==> Users.IndexOfId(reg.users, sellerId) == -1
    ensures r.Err? ==> r.message == SellerNotFound(sellerId)
    ensures r.Ok? ==> SortedDesc(r.value, CreatedAt) && multiset(r.value) == multiset(Filter(b.inquiries, OfSeller(sellerId)))
  {
    if Users.IndexOfId(reg.users, sellerId) == -1 then Err(SellerNotFound(sellerId))
    else Ok(NewestFirst(b, OfSeller(sellerId)))
  }

  /** `getInquiriesByProperty`. */
  function InquiriesOfProperty(b: Book, ls: Properties.Listings, propertyId: nat): (r: Result<seq<Inquiry>>)
    ensures r.Err? <==> Properties.IndexOfProperty(ls.props, propertyId) == -1
    ensures r.Err? ==> r.message == PropertyNotFound(propertyId)
    ensures r.Ok? ==> SortedDesc(r.value, CreatedAt) && multiset(r.value) == multiset(Filter(b.inquiries, OfProperty(propertyId)))
  {
    if Properties.IndexOfProperty(ls.props, propertyId) == -1 then Err(PropertyNotFound(propertyId))
    else Ok(NewestFirst(b, OfProperty(propertyId)))
  }

  /** `getOpenInquiriesCountBySeller`: the number of the seller's OPEN inquiries, never more than the seller's list shows. */
  function OpenCountOfSeller(b: Book, reg: Users.Registry, sellerId: nat): (r: Result<nat>)
    ensures r.Err? <==> Users.IndexOfId(reg.users, sellerId) == -1
    ensures r.Err? ==> r.message == SellerNotFound(sellerId)
    ensures r.Ok? ==> r.value == |BySellerAndStatus(b, sellerId, Open)|
    ensures r.Ok? ==> r.value <= |InquiriesOfSeller(b, reg, sellerId).value|
  {
    if Users.IndexOfId(reg.users, sellerId) == -1 then Err(SellerNotFound(sellerId))
    else
      OpenCountBounded(b, sellerId);
      assert |multiset(NewestFirst(b, OfSeller(sellerId)))| == |multiset(Filter(b.inquiries, OfSeller(sellerId)))|;
      Ok(CountOpenBySeller(b, sellerId))
  }

  /** `getInquiriesCountByCustomer`: the length of the customer's inquiry list, every status included. */
  function CountOfCustomer(b: Book, reg: Users.Registry, customerId: nat): (r: Result<nat>)
    ensures r.Err? <==> Users.IndexOfId(reg.users, customerId) == -1
    ensures r.Err? ==> r.message == CustomerNotFound(customerId)
    ensures r.Ok? ==> r.value == |InquiriesOfCustomer(b, reg, customerId).value|
  {
    if Users.IndexOfId(reg.users, customerId) == -1 then Err(CustomerNotFound(customerId))
    else
      assert |multiset(NewestFirst(b, OfCustomer(customerId)))| == |multiset(Filter(b.inquiries, OfCustomer(customerId)))|;
      Ok(CountByCustomer(b, customerId))
  }
}
