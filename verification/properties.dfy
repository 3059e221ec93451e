/** Property listings: the `Properties` table, the `PropertyService` operations
    that create, edit and soft-delete a listing, and the repository's JPQL
    filters. Decimal columns (price, size, coordinates) are integers in their
    column's smallest unit. */
module Properties {
  import opened Text
  import opened Seqs
  import opened Results
  import Users

  datatype PropertyType = Land | Flat | RowHouse | Bungalow

  /** The fields a `PropertyRequest` carries, copied verbatim by create and update. */
  datatype Details = Details(
    propertyType: PropertyType,
    title: string,
    description: Option<string>,
    size: Option<int>,
    price: int,
    address: string,
    city: string,
    state: string,
    pincode: string,
    latitude: Option<int>,
    longitude: Option<int>,
    images: Option<string>,
    ptrDocument: Option<string>)

  datatype Property = Property(id: nat, sellerId: nat, details: Details, isActive: bool)

  datatype Listings = Listings(props: seq<Property>, nextId: nat)

  const OnlySellers := "Only sellers can create property listings"
  const OnlyOwnerUpdates := "Only the property owner can update this property"
  const OnlyOwnerDeletes := "Only the property owner can delete this property"

  function SellerNotFound(id: nat): string { "Seller not found with ID: " + DecimalString(id) }
  function PropertyNotFound(id: nat): string { "Property not found with ID: " + DecimalString(id) }

  /** Property ids are distinct and below `nextId`. */
  ghost predicate Valid(ls: Listings)
  {
    && (forall i :: 0 <= i < |ls.props| ==> ls.props[i].id < ls.nextId)
    && (forall i, j :: 0 <= i < j < |ls.props| ==> ls.props[i].id != ls.props[j].id)
  }

  function HasPropertyId(id: nat): Property -> bool { (p: Property) => p.id == id }

  /** `findById` on the table: the position of the property, or -1. */
  function IndexOfProperty(props: seq<Property>, id: nat): (k: int)
    ensures -1 <= k < |props|
    ensures k >= 0 ==> props[k].id == id
    ensures k == -1 ==> forall j :: 0 <= j < |props| ==> props[j].id != id
  {
    FirstIndex(props, HasPropertyId(id))
  }

  // ---------------------------------------------------------------------------
  // Service

  /** `createProperty`: the seller must exist and be a SELLER; the listing starts active. */
  function CreateProperty(ls: Listings, reg: Users.Registry, sellerId: nat, d: Details): (r: (Listings, Result<Property>))
    ensures Users.IndexOfId(reg.users, sellerId) == -1 ==> r.1 == Err(SellerNotFound(sellerId))
    ensures (Users.IndexOfId(reg.users, sellerId) >= 0
             && reg.users[Users.IndexOfId(reg.users, sellerId)].userType != Users.Seller) ==> r.1 == Err(OnlySellers)
    ensures r.1.Ok? <==> (Users.IndexOfId(reg.users, sellerId) >= 0
                          && reg.users[Users.IndexOfId(reg.users, sellerId)].userType == Users.Seller)
    ensures r.1.Err? ==> r.0 == ls
    ensures r.1.Ok? ==> (Users.IndexOfId(reg.users, sellerId) >= 0
                         && reg.users[Users.IndexOfId(reg.users, sellerId)].userType == Users.Seller
                         && r.1.value == Property(ls.nextId, sellerId, d, true)
                         && r.0 == Listings(ls.props + [r.1.value], ls.nextId + 1))
  {
    var k := Users.IndexOfId(reg.users, sellerId);
    if k == -1 then (ls, Err(SellerNotFound(sellerId)))
    else if reg.users[k].userType != Users.Seller then (ls, Err(OnlySellers))
    else
      var p := Property(ls.nextId, sellerId, d, true);
      (Listings(ls.props + [p], ls.nextId + 1), Ok(p))
  }

  lemma CreatePreservesValid(ls: Listings, reg: Users.Registry, sellerId: nat, d: Details)
    requires Valid(ls)
    ensures Valid(CreateProperty(ls, reg, sellerId, d).0)
  {
  }

  /** `updateProperty`: owner-checked; replaces the request's fields and keeps id, seller and active flag. */
  function UpdateProperty(ls: Listings, propertyId: nat, sellerId: nat, d: Details): (r: (Listings, Result<Property>))
    ensures IndexOfProperty(ls.props, propertyId) == -1 ==> r.1 == Err(PropertyNotFound(propertyId))
    ensures (IndexOfProperty(ls.props, propertyId) >= 0
             && ls.props[IndexOfProperty(ls.props, propertyId)].sellerId != sellerId) ==> r.1 == Err(OnlyOwnerUpdates)
    ensures r.1.Ok? <==> (IndexOfProperty(ls.props, propertyId) >= 0
                          && ls.props[IndexOfProperty(ls.props, propertyId)].sellerId == sellerId)
    ensures r.1.Err? ==> r.0 == ls
    ensures r.1.Ok? ==> (exists k :: 0 <= k < |ls.props| && ls.props[k].id == propertyId
                           && ls.props[k].sellerId == sellerId
                           && r.1.value == ls.props[k].(details := d)
                           && r.0 == ls.(props := ls.props[k := r.1.value]))
  {
    var k := IndexOfProperty(ls.props, propertyId);
    if k == -1 then (ls, Err(PropertyNotFound(propertyId)))
    else if ls.props[k].sellerId != sellerId then (ls, Err(OnlyOwnerUpdates))
    else
      var p := ls.props[k].(details := d);
      (ls.(props := ls.props[k := p]), Ok(p))
  }

  /** An update never revives a deleted listing nor moves it to another seller. */
  lemma UpdateKeepsOwnerAndActivity(ls: Listings, propertyId: nat, sellerId: nat, d: Details, i: int)
    requires 0 <= i < |ls.props|
    ensures |UpdateProperty(ls, propertyId, sellerId, d).0.props| == |ls.props|
    ensures UpdateProperty(ls, propertyId, sellerId, d).0.props[i].isActive == ls.props[i].isActive
    ensures UpdateProperty(ls, propertyId, sellerId, d).0.props[i].sellerId == ls.props[i].sellerId
    ensures UpdateProperty(ls, propertyId, sellerId, d).0.props[i].id == ls.props[i].id
  {
  }

  /** `deleteProperty`: owner-checked soft delete. */
  function DeleteProperty(ls: Listings, propertyId: nat, sellerId: nat): (r: (Listings, Result<Property>))
    ensures IndexOfProperty(ls.props, propertyId) == -1 ==> r.1 == Err(PropertyNotFound(propertyId))
    ensures (IndexOfProperty(ls.props, propertyId) >= 0
             && ls.props[IndexOfProperty(ls.props, propertyId)].sellerId != sellerId) ==> r.1 == Err(OnlyOwnerDeletes)
    ensures r.1.Ok? <==> (IndexOfProperty(ls.props, propertyId) >= 0
                          && ls.props[IndexOfProperty(ls.props, propertyId)].sellerId == sellerId)
    ensures r.1.Err? ==> r.0 == ls
    ensures r.1.Ok? ==> (exists k :: 0 <= k < |ls.props| && ls.props[k].id == propertyId
                           && ls.props[k].sellerId == sellerId
                           && r.1.value == ls.props[k].(isActive := false)
                           && r.0 == ls.(props := ls.props[k := r.1.value]))
  {
    var k := IndexOfProperty(ls.props, propertyId);
    if k == -1 then (ls, Err(PropertyNotFound(propertyId)))
    else if ls.props[k].sellerId != sellerId then (ls, Err(OnlyOwnerDeletes))
    else
      var p := ls.props[k].(isActive := false);
      (ls.(props := ls.props[k := p]), Ok(p))
  }

  /** Deleting twice leaves the table as deleting once. */
  lemma DeleteIdempotent(ls: Listings, propertyId: nat, sellerId: nat)
    ensures DeleteProperty(DeleteProperty(ls, propertyId, sellerId).0, propertyId, sellerId).0
            == DeleteProperty(ls, propertyId, sellerId).0
  {
    var once := DeleteProperty(ls, propertyId, sellerId).0;
    var k := IndexOfProperty(ls.props, propertyId);
    if k != -1 {
      assert once.props[k].id == propertyId;
    }
  }

  // ---------------------------------------------------------------------------
  // Repository filters

  predicate IsActive(p: Property) { p.isActive }

  /** `findByIsActiveTrue`, i.e. `getAllActiveProperties`. */
  function ActiveProperties(ls: Listings): (r: seq<Property>)
    ensures forall i :: 0 <= i < |r| ==> r[i] in ls.props && r[i].isActive
    ensures forall i :: 0 <= i < |ls.props| && ls.props[i].isActive ==> ls.props[i] in r
    ensures forall p :: multiset(r)[p] == if IsActive(p) then multiset(ls.props)[p] else 0
    ensures IsSubsequence(r, ls.props)
  {
    var keep := IsActive;
    FilterOccurrences(ls.props, keep);
    FilterIsSubsequence(ls.props, keep);
    Filter(ls.props, keep)
  }

  /** A successfully deleted listing leaves the active list. */
  lemma DeletedNotActive(ls: Listings, propertyId: nat, sellerId: nat)
    requires Valid(ls) && DeleteProperty(ls, propertyId, sellerId).1.Ok?
    ensures forall p :: p in ActiveProperties(DeleteProperty(ls, propertyId, sellerId).0) ==> p.id != propertyId
  {
    var after := DeleteProperty(ls, propertyId, sellerId).0;
    var k := IndexOfProperty(ls.props, propertyId);
    forall p | p in ActiveProperties(after)
      ensures p.id != propertyId
    {
      var m :| 0 <= m < |after.props| && after.props[m] == p;
      if m != k {
        assert after.props[m] == ls.props[m];
        if m < k {
          assert ls.props[m].id != ls.props[k].id;
        } else {
          assert ls.props[k].id != ls.props[m].id;
        }
      }
    }
  }

  /** `findActivePropertiesBySeller`. */
  function ActiveBySeller(ls: Listings, sellerId: nat): (r: seq<Property>)
    ensures forall i :: 0 <= i < |r| ==> r[i] in ls.props && r[i].isActive && r[i].sellerId == sellerId
    ensures forall i :: 0 <= i < |ls.props| && ls.props[i].isActive && ls.props[i].sellerId == sellerId ==> ls.props[i] in r
    ensures forall p :: multiset(r)[p] == if p.isActive && p.sellerId == sellerId then multiset(ls.props)[p] else 0
    ensures IsSubsequence(r, ls.props)
  {
    var keep := (p: Property) => p.isActive && p.sellerId == sellerId;
    FilterOccurrences(ls.props, keep);
    FilterIsSubsequence(ls.props, keep);
    Filter(ls.props, keep)
  }

  predicate IsActiveOfType(p: Property, t: PropertyType) { p.isActive && p.details.propertyType == t }

  /** `findActivePropertiesByType`. */
  function ActiveByType(ls: Listings, t: PropertyType): (r: seq<Property>)
    ensures forall i :: 0 <= i < |r| ==> r[i] in ls.props && r[i].isActive && r[i].details.propertyType == t
    ensures forall i :: 0 <= i < |ls.props| && ls.props[i].isActive && ls.props[i].details.propertyType == t ==> ls.props[i] in r
  {
    Filter(ls.props, (p: Property) => IsActiveOfType(p, t))
  }

  /** `findActivePropertiesByCity`: exact, case-sensitive equality. */
  function ActiveByCity(ls: Listings, city: string): (r: seq<Property>)
    ensures forall i :: 0 <= i < |r| ==> r[i] in ls.props && r[i].isActive && r[i].details.city == city
    ensures forall i :: 0 <= i < |ls.props| && ls.props[i].isActive && ls.props[i].details.city == city ==> ls.props[i] in r
    ensures forall p :: multiset(r)[p] == if p.isActive && p.details.city == city then multiset(ls.props)[p] else 0
    ensures IsSubsequence(r, ls.props)
  {
    var keep := (p: Property) => p.isActive && p.details.city == city;
    FilterOccurrences(ls.props, keep);
    FilterIsSubsequence(ls.props, keep);
    Filter(ls.props, keep)
  }

  predicate InPriceRange(p: Property, minPrice: int, maxPrice: int)
  {
    minPrice <= p.details.price <= maxPrice && p.isActive
  }

  /** `findActivePropertiesByPriceRange`: SQL BETWEEN includes both bounds. */
  function ActiveByPriceRange(ls: Listings, minPrice: int, maxPrice: int): (r: seq<Property>)
    ensures forall i :: 0 <= i < |r| ==> (r[i] in ls.props && r[i].isActive
                                          && minPrice <= r[i].details.price <= maxPrice)
    ensures forall i :: 0 <= i < |ls.props| && InPriceRange(ls.props[i], minPrice, maxPrice) ==> ls.props[i] in r
    ensures forall p :: multiset(r)[p] == if InPriceRange(p, minPrice, maxPrice) then multiset(ls.props)[p] else 0
    ensures IsSubsequence(r, ls.props)
  {
    var keep := (p: Property) => InPriceRange(p, minPrice, maxPrice);
    FilterOccurrences(ls.props, keep);
    FilterIsSubsequence(ls.props, keep);
    Filter(ls.props, keep)
  }

  /** An inverted range selects nothing; a one-point range selects exactly that price. */
  lemma PriceRangeBounds(ls: Listings, minPrice: int, maxPrice: int)
    ensures minPrice > maxPrice ==> ActiveByPriceRange(ls, minPrice, maxPrice) == []
    ensures forall i :: 0 <= i < |ls.props| && ls.props[i].isActive && ls.props[i].details.price == minPrice
                        ==> ls.props[i] in ActiveByPriceRange(ls, minPrice, minPrice)
  {
    if minPrice > maxPrice {
      FilterNone(ls.props, (p: Property) => InPriceRange(p, minPrice, maxPrice));
    }
  }

  predicate IsActiveOfTypeIn(p: Property, t: PropertyType, city: string)
  {
    p.details.propertyType == t && p.details.city == city && p.isActive
  }

  /** `findActivePropertiesByTypeAndCity`. */
  function ActiveByTypeAndCity(ls: Listings, t: PropertyType, city: string): (r: seq<Property>)
    ensures forall i :: 0 <= i < |r| ==> r[i] in ls.props && IsActiveOfTypeIn(r[i], t, city)
    ensures forall i :: 0 <= i < |ls.props| && IsActiveOfTypeIn(ls.props[i], t, city) ==> ls.props[i] in r
  {
    Filter(ls.props, (p: Property) => IsActiveOfTypeIn(p, t, city))
  }

  /** The type-and-city query is the city filter applied to the by-type query, order included. */
  lemma TypeAndCityIsConjunction(ls: Listings, t: PropertyType, city: string)
    ensures ActiveByTypeAndCity(ls, t, city) == Filter(ActiveByType(ls, t), (p: Property) => p.details.city == city)
  {
    FilterOfFilter(ls.props, (p: Property) => IsActiveOfType(p, t), (p: Property) => p.details.city == city,
                   (p: Property) => IsActiveOfTypeIn(p, t, city));
  }
}
