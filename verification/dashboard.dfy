/** The property lists on the two dashboards.

    Android keeps three `ArrayList`s: all loaded properties, the type-filtered
    list, and the adapter's list. The adapter constructor keeps the list it is
    given by reference, so the adapter's list IS the filtered list, and
    `updateProperties` (clear, then add all) reads its argument after it has
    already cleared its own list. That aliasing is modelled with an explicit
    heap of lists addressed by reference.

    iOS recomputes its filtered array from the loaded array on every change. */
module Dashboard {
  import opened Seqs
  import opened Text
  import opened Results
  import Users
  import Properties
  import Inquiries

  type Property = Properties.Property

  // ---------------------------------------------------------------------------
  // A heap of mutable lists

  type Ref = nat

  datatype Heap = Heap(lists: map<Ref, seq<Property>>, next: Ref)

  ghost predicate HeapOk(h: Heap)
  {
    forall r :: r in h.lists ==> r < h.next
  }

  /** `new ArrayList<>(xs)`: a fresh reference holding `xs`. */
  function Alloc(h: Heap, xs: seq<Property>): (r: (Heap, Ref))
    requires HeapOk(h)
    ensures HeapOk(r.0) && r.1 !in h.lists && r.0.lists == h.lists[r.1 := xs]
  {
    (Heap(h.lists[h.next := xs], h.next + 1), h.next)
  }

  /** `list.clear()`. */
  function Clear(h: Heap, r: Ref): Heap
    requires r in h.lists
  {
    h.(lists := h.lists[r := []])
  }

  /** `target.addAll(source)`: appends what `source` holds at the moment of the call. */
  function AddAll(h: Heap, target: Ref, source: Ref): Heap
    requires target in h.lists && source in h.lists
  {
    h.(lists := h.lists[target := h.lists[target] + h.lists[source]])
  }

  // ---------------------------------------------------------------------------
  // PropertyAdapter

  /** The adapter: it remembers which list it shows, never a copy of it. */
  datatype Adapter = Adapter(items: Ref)

  /** The constructor keeps the caller's list. */
  function NewAdapter(list: Ref): (a: Adapter)
    ensures a.items == list
  {
    Adapter(list)
  }

  /** `updateProperties(source)`: clear the adapter's list, then add all of `source`. */
  function UpdateProperties(h: Heap, a: Adapter, source: Ref): (h': Heap)
    requires a.items in h.lists && source in h.lists
    ensures h'.next == h.next && h'.lists.Keys == h.lists.Keys
    ensures forall r :: r in h.lists && r != a.items ==> h'.lists[r] == h.lists[r]
    ensures source != a.items ==> h'.lists[a.items] == h.lists[source]
    ensures source == a.items ==> h'.lists[a.items] == []
  {
    AddAll(Clear(h, a.items), a.items, source)
  }

  /** `getItemCount`: the size of the list the adapter shows. */
  function ItemCount(h: Heap, a: Adapter): (n: nat)
    requires a.items in h.lists
    ensures n == 0 <==> h.lists[a.items] == []
    ensures n == |h.lists[a.items]|
  {
    |h.lists[a.items]|
  }

  /** The inquire button in `bind`: shown only to a signed-in customer. */
  predicate InquireVisible(currentUser: Option<Users.User>)
    ensures InquireVisible(currentUser) ==> currentUser.Some?
    ensures currentUser.Some? ==> (InquireVisible(currentUser) <==> currentUser.value.userType != Users.Seller)
  {
    currentUser.Some? && currentUser.value.userType == Users.Customer
  }

  /** With distinct ids, looking a stored user up by id finds that user. */
  lemma IndexOfStoredUser(reg: Users.Registry, u: Users.User)
    requires Users.Valid(reg) && u in reg.users
    ensures Users.IndexOfId(reg.users, u.id) >= 0 && reg.users[Users.IndexOfId(reg.users, u.id)] == u
  {
    var i :| 0 <= i < |reg.users| && reg.users[i] == u;
    assert Users.IndexOfId(reg.users, u.id) == i;
  }

  /** The button hides exactly for the users the server would turn away as non-customers:
      a signed-in seller who inquired anyway would get "Only customers can create inquiries". */
  lemma InquireButtonMatchesServer(b: Inquiries.Book, reg: Users.Registry, ls: Properties.Listings, u: Users.User,
                                   propertyId: nat, description: Option<string>, termsAccepted: bool,
                                   now: int, calendar: int -> int, deliver: (string, string) -> bool)
    requires Users.Valid(reg) && u in reg.users
    ensures !InquireVisible(Some(u))
            <==> Inquiries.CreateInquiry(b, reg, ls, u.id, propertyId, description, termsAccepted,
                                         now, calendar, deliver).result == Err(Inquiries.OnlyCustomers)
  {
    IndexOfStoredUser(reg, u);
    var e := Inquiries.CreateInquiry(b, reg, ls, u.id, propertyId, description, termsAccepted, now, calendar, deliver);
    if InquireVisible(Some(u)) {
      var pid := DecimalString(propertyId);
      assert Inquiries.PropertyNotFound(propertyId) != Inquiries.OnlyCustomers by {
        assert Inquiries.PropertyNotFound(propertyId)[0] == 'P';
      }
    }
  }

  // ---------------------------------------------------------------------------
  // DashboardActivity

  /** The activity's lists and the search box text. */
  datatype Android = Android(heap: Heap, all: Ref, filtered: Ref, adapter: Adapter, searchBox: string)

  /** The wiring `setupRecyclerView` leaves: the adapter shows the filtered list itself. */
  ghost predicate Wired(d: Android)
  {
    HeapOk(d.heap) && d.all in d.heap.lists && d.filtered in d.heap.lists && d.all != d.filtered
    && d.adapter.items == d.filtered
  }

  /** `onCreate` up to `setupRecyclerView`: two empty lists and an adapter over the second. */
  function Create(): (d: Android)
    ensures Wired(d) && d.heap.lists[d.all] == [] && d.heap.lists[d.filtered] == []
  {
    var (h0, all) := Alloc(Heap(map[], 0), []);
    var (h1, filtered) := Alloc(h0, []);
    Android(h1, all, filtered, NewAdapter(filtered), "")
  }

  /** `loadProperties` on success: both lists refilled from the response. */
  function Loaded(d: Android, ps: seq<Property>): (d': Android)
    requires Wired(d)
    ensures Wired(d') && d'.heap.lists[d'.all] == ps && d'.heap.lists[d'.filtered] == ps
  {
    var h := d.heap.(lists := d.heap.lists[d.all := []]);
    var h := h.(lists := h.lists[d.all := h.lists[d.all] + ps]);
    var h := AddAll(Clear(h, d.filtered), d.filtered, d.all);
    d.(heap := h)
  }

  /** The Android search: title, city, state or address contains the text, ignoring case. */
  predicate AndroidMatch(p: Property, text: string)
  {
    ContainsIgnoringCase(p.details.title, text) || ContainsIgnoringCase(p.details.city, text)
    || ContainsIgnoringCase(p.details.state, text) || ContainsIgnoringCase(p.details.address, text)
  }

  function AndroidMatches(text: string): Property -> bool { (p: Property) => AndroidMatch(p, text) }

  function OfType(t: Properties.PropertyType): Property -> bool { (p: Property) => p.details.propertyType == t }

  /** `filterProperties(text)`. An empty text hands the filtered list to the adapter, which is
      the adapter's own list; otherwise the matches go through a fresh list. */
  function FilterProperties(d: Android, text: string): (d': Android)
    requires Wired(d)
    ensures Wired(d') && d'.heap.lists[d'.all] == d.heap.lists[d.all]
    ensures d'.all == d.all && d'.filtered == d.filtered && d'.adapter == d.adapter && d'.searchBox == d.searchBox
    ensures text != [] ==> d'.heap.lists[d'.filtered] == Filter(d.heap.lists[d.filtered], AndroidMatches(text))
  {
    if text == [] then d.(heap := UpdateProperties(d.heap, d.adapter, d.filtered))
    else
      var results := Filter(d.heap.lists[d.filtered], AndroidMatches(text));
      var (h, found) := Alloc(d.heap, results);
      d.(heap := UpdateProperties(h, d.adapter, found))
  }

  /** The first half of `filterByType(t)`: the filtered list refilled from all properties,
      keeping only type `t` when one is given. */
  function Refill(d: Android, t: Option<Properties.PropertyType>): (d': Android)
    requires Wired(d)
    ensures Wired(d') && d'.all == d.all && d'.filtered == d.filtered && d'.searchBox == d.searchBox
    ensures d'.heap.lists[d.all] == d.heap.lists[d.all]
    ensures t.None? ==> d'.heap.lists[d.filtered] == d.heap.lists[d.all]
    ensures t.Some? ==> d'.heap.lists[d.filtered] == Filter(d.heap.lists[d.all], OfType(t.value))
  {
    var h := Clear(d.heap, d.filtered);
    if t.None? then d.(heap := AddAll(h, d.filtered, d.all))
    else d.(heap := h.(lists := h.lists[d.filtered := Filter(h.lists[d.all], OfType(t.value))]))
  }

  /** The properties a type chip selects: all of them for "All", otherwise those of the chosen type. */
  function OfChip(ps: seq<Property>, t: Option<Properties.PropertyType>): seq<Property>
  {
    if t.None? then ps else Filter(ps, OfType(t.value))
  }

  /** `filterByType(t)`: refill, then re-run a non-empty trimmed search, which narrows the refilled list. */
  function FilterByType(d: Android, t: Option<Properties.PropertyType>): (d': Android)
    requires Wired(d)
    ensures Wired(d') && d'.heap.lists[d'.all] == d.heap.lists[d.all]
    ensures d'.all == d.all && d'.filtered == d.filtered && d'.adapter == d.adapter
    ensures JavaTrim(d.searchBox) == [] ==> d'.heap.lists[d.filtered] == OfChip(d.heap.lists[d.all], t)
    ensures JavaTrim(d.searchBox) != [] ==>
              d'.heap.lists[d.filtered] == Filter(OfChip(d.heap.lists[d.all], t), AndroidMatches(JavaTrim(d.searchBox)))
  {
    var d1 := Refill(d, t);
    var text := JavaTrim(d.searchBox);
    if text != [] then FilterProperties(d1, text) else d1
  }

  /** With no search text, "All" shows every loaded property, in order. */
  lemma AllChipShowsEverything(d: Android)
    requires Wired(d) && JavaTrim(d.searchBox) == []
    ensures FilterByType(d, None).heap.lists[d.filtered] == d.heap.lists[d.all]
    ensures ItemCount(FilterByType(d, None).heap, d.adapter) == |d.heap.lists[d.all]|
  {
  }

  /** With no search text, a type chip shows exactly the properties of that type, in order. */
  lemma TypeChipShowsThatType(d: Android, t: Properties.PropertyType)
    requires Wired(d) && JavaTrim(d.searchBox) == []
    ensures IsSubsequence(FilterByType(d, Some(t)).heap.lists[d.filtered], d.heap.lists[d.all])
    ensures forall p :: p in FilterByType(d, Some(t)).heap.lists[d.filtered]
                        <==> p in d.heap.lists[d.all] && p.details.propertyType == t
  {
    FilterIsSubsequence(d.heap.lists[d.all], OfType(t));
  }

  /** A search writes its results into the filtered list itself, through the shared adapter
      list: the next search starts from them, not from the type-filtered list. */
  lemma SearchOverwritesFiltered(d: Android, a: string, b: string)
    requires Wired(d) && a != [] && b != []
    ensures FilterProperties(FilterProperties(d, a), b).heap.lists[d.filtered]
            == Filter(Filter(d.heap.lists[d.filtered], AndroidMatches(a)), AndroidMatches(b))
  {
  }

  /** Clearing the search box empties the list on screen: `updateProperties(filteredProperties)`
      clears the adapter's list, which is `filteredProperties`, before copying from it. */
  lemma ClearedSearchEmptiesList(d: Android)
    requires Wired(d)
    ensures ItemCount(FilterProperties(d, "").heap, d.adapter) == 0
    ensures FilterProperties(d, "").heap.lists[d.filtered] == []
  {
  }

  // ---------------------------------------------------------------------------
  // The same screen with an adapter that owns its list

  /** The activity with the adapter holding a list of its own. */
  ghost predicate Separate(d: Android)
  {
    HeapOk(d.heap) && d.all in d.heap.lists && d.filtered in d.heap.lists && d.adapter.items in d.heap.lists
    && d.all != d.filtered && d.adapter.items != d.filtered && d.adapter.items != d.all
  }

  /** An adapter constructor that copies the caller's list. */
  function NewCopyingAdapter(h: Heap, list: Ref): (r: (Heap, Adapter))
    requires HeapOk(h) && list in h.lists
    ensures HeapOk(r.0) && r.1.items !in h.lists && r.0.lists == h.lists[r.1.items := h.lists[list]]
  {
    var (h', copy) := Alloc(h, h.lists[list]);
    (h', Adapter(copy))
  }

  /** `filterProperties` against an adapter that owns its list. */
  function FilterPropertiesSeparate(d: Android, text: string): (d': Android)
    requires Separate(d)
    ensures Separate(d') && d'.adapter == d.adapter
    ensures d'.heap.lists[d'.filtered] == d.heap.lists[d.filtered] && d'.heap.lists[d'.all] == d.heap.lists[d.all]
    ensures text == [] ==> d'.heap.lists[d.adapter.items] == d.heap.lists[d.filtered]
    ensures text != [] ==> d'.heap.lists[d.adapter.items] == Filter(d.heap.lists[d.filtered], AndroidMatches(text))
  {
    if text == [] then d.(heap := UpdateProperties(d.heap, d.adapter, d.filtered))
    else
      var results := Filter(d.heap.lists[d.filtered], AndroidMatches(text));
      var (h, found) := Alloc(d.heap, results);
      d.(heap := UpdateProperties(h, d.adapter, found))
  }

  /** With its own list, the adapter shows the type-filtered list again once the search is cleared,
      and searches are not cumulative. */
  lemma CopyingAdapterRestoresList(d: Android, text: string, other: string)
    requires Separate(d)
    ensures ItemCount(FilterPropertiesSeparate(FilterPropertiesSeparate(d, text), "").heap, d.adapter)
            == |d.heap.lists[d.filtered]|
    ensures FilterPropertiesSeparate(FilterPropertiesSeparate(d, text), "").heap.lists[d.adapter.items]
            == d.heap.lists[d.filtered]
    ensures other != [] ==> FilterPropertiesSeparate(FilterPropertiesSeparate(d, text), other).heap.lists[d.adapter.items]
                            == Filter(d.heap.lists[d.filtered], AndroidMatches(other))
  {
  }

  /** Building the screen with the copying constructor gives the separate wiring. */
  lemma CopyingConstructorSeparates(d: Android)
    requires Wired(d)
    ensures Separate(d.(heap := NewCopyingAdapter(d.heap, d.filtered).0, adapter := NewCopyingAdapter(d.heap, d.filtered).1))
  {
  }

  // ---------------------------------------------------------------------------
  // DashboardViewController

  /** The iOS search: title, city or address (not state) contains the text, ignoring case. */
  predicate IosMatch(p: Property, text: string)
  {
    ContainsIgnoringCase(p.details.title, text) || ContainsIgnoringCase(p.details.city, text)
    || ContainsIgnoringCase(p.details.address, text)
  }

  function IosMatches(text: string): Property -> bool { (p: Property) => IosMatch(p, text) }

  function OfOptionalType(t: Option<Properties.PropertyType>): Property -> bool
  {
    (p: Property) => t.None? || p.details.propertyType == t.value
  }

  /** `applyFilters`: from the loaded array, keep the selected type, then the search matches. */
  function ApplyFilters(properties: seq<Property>, selected: Option<Properties.PropertyType>, search: string)
    : (r: seq<Property>)
    ensures IsSubsequence(r, properties)
    ensures forall p :: p in r <==> (p in properties && (selected.None? || p.details.propertyType == selected.value)
                                     && (search == [] || IosMatch(p, search)))
  {
    var typed := Filter(properties, OfOptionalType(selected));
    FilterIsSubsequence(properties, OfOptionalType(selected));
    if search == [] then typed
    else
      var r := Filter(typed, IosMatches(search));
      FilterIsSubsequence(typed, IosMatches(search));
      SubsequenceTransitive(r, typed, properties);
      r
  }

  /** The screen state: the loaded array, the shown array, the type button and the search bar text. */
  datatype Ios = Ios(properties: seq<Property>, filtered: seq<Property>,
                     selected: Option<Properties.PropertyType>, search: string)

  /** The shown array is always recomputed from the loaded one. */
  ghost predicate InSync(d: Ios)
  {
    d.filtered == ApplyFilters(d.properties, d.selected, d.search)
  }

  /** `textDidChange`. */
  function SetSearch(d: Ios, text: string): (d': Ios)
    ensures InSync(d') && d'.properties == d.properties && d'.selected == d.selected && d'.search == text
  {
    d.(search := text, filtered := ApplyFilters(d.properties, d.selected, text))
  }

  /** `filterButtonTapped`. */
  function SelectType(d: Ios, t: Option<Properties.PropertyType>): (d': Ios)
    ensures InSync(d') && d'.properties == d.properties && d'.search == d.search && d'.selected == t
  {
    d.(selected := t, filtered := ApplyFilters(d.properties, t, d.search))
  }

  /** `loadProperties` on success. */
  function Load(d: Ios, ps: seq<Property>): (d': Ios)
    ensures InSync(d') && d'.properties == ps && d'.search == d.search && d'.selected == d.selected
  {
    d.(properties := ps, filtered := ApplyFilters(ps, d.selected, d.search))
  }

  /** Filtering is not cumulative: each search starts again from the loaded array,
      and clearing the search shows every property of the selected type. */
  lemma IosSearchNotCumulative(d: Ios, a: string, b: string)
    ensures SetSearch(SetSearch(d, a), b) == SetSearch(d, b)
    ensures SetSearch(SetSearch(d, a), "").filtered == Filter(d.properties, OfOptionalType(d.selected))
  {
  }

  /** `updateUI`: the empty-state view is hidden exactly when something is shown. */
  predicate EmptyStateHidden(d: Ios)
  {
    d.filtered != []
  }

  /** The empty state shows exactly when no loaded property passes both filters. */
  lemma EmptyStateMeansNoMatch(d: Ios)
    requires InSync(d)
    ensures !EmptyStateHidden(d) <==> forall i :: 0 <= i < |d.properties| ==>
              !((d.selected.None? || d.properties[i].details.propertyType == d.selected.value)
                && (d.search == [] || IosMatch(d.properties[i], d.search)))
  {
    if !EmptyStateHidden(d) {
      forall i | 0 <= i < |d.properties|
        ensures !((d.selected.None? || d.properties[i].details.propertyType == d.selected.value)
                  && (d.search == [] || IosMatch(d.properties[i], d.search)))
      {
        assert d.properties[i] !in d.filtered;
      }
    } else {
      var p := d.filtered[0];
      assert p in d.filtered;
      var i :| 0 <= i < |d.properties| && d.properties[i] == p;
    }
  }
}
