/** The two public hostel listings: the homepage selection of up to six hostels,
    featured ones first, and the searchable hostel list with its filters and sort orders. */
module Listing {
  import opened Wrappers
  import opened Text
  import opened Sorting
  import opened Models
  import opened Ratings

  /** Shown to visitors: approved by an administrator and not deactivated. */
  predicate IsVisible(h: Hostel) {
    h.isVerified && h.isActive
  }

  predicate IsFeaturedVisible(h: Hostel) {
    h.isFeatured && IsVisible(h)
  }

  /** Two rows are different hostels; the primary key makes this hold across any table. */
  predicate DifferentIds(a: Hostel, b: Hostel) {
    a.id != b.id
  }

  /** Sort key putting the most recently created first (`order_by('-created_at')`). */
  function NewestHostelKey(h: Hostel): real {
    -(h.createdAt as real)
  }

  /** The hostels of `s`, most recently created first. */
  function Newest(s: seq<Hostel>): (r: seq<Hostel>)
    ensures SortedBy(r, NewestHostelKey)
    ensures multiset(r) == multiset(s)
    ensures |r| == |s|
    ensures forall x :: x in r <==> x in s
  {
    var r := SortBy(s, NewestHostelKey);
    SameMembers(r, s);
    assert |multiset(r)| == |multiset(s)|;
    r
  }

  /** The newest-first list of the hostels of `s` satisfying `p`. */
  function NewestWhere(s: seq<Hostel>, p: Hostel -> bool): (r: seq<Hostel>)
    ensures SortedBy(r, NewestHostelKey)
    ensures |r| == |Filter(s, p)|
    ensures forall x :: x in r <==> x in s && p(x)
  {
    FilterMembers(s, p);
    Newest(Filter(s, p))
  }

  // ---------------------------------------------------------------------------------------
  // Homepage
  // ---------------------------------------------------------------------------------------

  const HomeSlots: nat := 6

  /** The ids of a list of hostels (`values_list('id', flat=True)`). */
  function IdSet(s: seq<Hostel>): set<HostelId> {
    set h | h in s :: h.id
  }

  /** Visible hostels whose id is not among `ids`. */
  function Unlisted(ids: set<HostelId>): Hostel -> bool {
    (h: Hostel) => IsVisible(h) && h.id !in ids
  }

  /** The first part of the homepage: the six newest featured, visible hostels. */
  function FeaturedPick(table: seq<Hostel>): (f: seq<Hostel>)
    ensures |f| <= HomeSlots
    ensures forall i :: 0 <= i < |f| ==> f[i] in table && IsFeaturedVisible(f[i])
  {
    var all := NewestWhere(table, IsFeaturedVisible);
    var f := Take(all, HomeSlots);
    assert forall i :: 0 <= i < |f| ==> f[i] == all[i] && all[i] in all;
    f
  }

  /** The filler: the newest visible hostels not already picked, enough to reach six. */
  function FillerPick(table: seq<Hostel>, f: seq<Hostel>): (g: seq<Hostel>)
    requires |f| < HomeSlots
    ensures |g| <= HomeSlots - |f|
    ensures forall i :: 0 <= i < |g| ==> g[i] in table && IsVisible(g[i]) && g[i].id !in IdSet(f)
  {
    var all := NewestWhere(table, Unlisted(IdSet(f)));
    var g := Take(all, HomeSlots - |f|);
    assert forall i :: 0 <= i < |g| ==> g[i] == all[i] && all[i] in all;
    g
  }

  /** `HomeView`'s hostel section: the featured pick, topped up with filler when it has
      fewer than six hostels. */
  function HomeFeatured(table: seq<Hostel>): (r: seq<Hostel>)
    ensures |r| <= HomeSlots
    ensures forall i :: 0 <= i < |r| ==> r[i] in table && IsVisible(r[i])
  {
    var f := FeaturedPick(table);
    if |f| < HomeSlots then f + FillerPick(table, f) else f
  }

  /** When the featured pick is short, it holds every featured, visible hostel. */
  lemma ShortPickIsComplete(table: seq<Hostel>)
    requires |FeaturedPick(table)| < HomeSlots
    ensures |FeaturedPick(table)| == |Filter(table, IsFeaturedVisible)|
    ensures forall h :: h in table && IsFeaturedVisible(h) ==> h in FeaturedPick(table)
  {
    var all := NewestWhere(table, IsFeaturedVisible);
    assert FeaturedPick(table) == all;
  }

  /** The filler of a short pick holds no featured hostel. */
  lemma FillerIsPlain(table: seq<Hostel>)
    requires |FeaturedPick(table)| < HomeSlots
    ensures forall i :: 0 <= i < |FillerPick(table, FeaturedPick(table))| ==>
      !FillerPick(table, FeaturedPick(table))[i].isFeatured
  {
    var f := FeaturedPick(table);
    var g := FillerPick(table, f);
    ShortPickIsComplete(table);
    forall i | 0 <= i < |g|
      ensures !g[i].isFeatured
    {
      var h := g[i];
      assert IsFeaturedVisible(h) ==> h in f;
      assert h in f ==> h.id in IdSet(f);
    }
  }

  /** A full pick is the six newest featured, visible hostels. */
  lemma FullPickIsNewest(table: seq<Hostel>)
    ensures var all := NewestWhere(table, IsFeaturedVisible);
      |FeaturedPick(table)| == HomeSlots ==> FeaturedPick(table) == all[..HomeSlots]
  {
  }

  /** The homepage reads featured hostels, newest first, then non-featured filler, newest
      first; filler appears only when there are fewer than six featured hostels, and then
      every featured, visible hostel is on the page. */
  lemma HomeFeaturedShape(table: seq<Hostel>)
    ensures var r := HomeFeatured(table); var k := |FeaturedPick(table)|;
      && k <= |r|
      && r[..k] == FeaturedPick(table)
      && (forall i :: 0 <= i < k ==> r[i].isFeatured)
      && (forall i :: k <= i < |r| ==> !r[i].isFeatured)
      && SortedBy(r[..k], NewestHostelKey)
      && SortedBy(r[k..], NewestHostelKey)
      && (k < |r| ==> k < HomeSlots && forall h :: h in table && IsFeaturedVisible(h) ==> h in r[..k])
  {
    var r := HomeFeatured(table);
    var f := FeaturedPick(table);
    var k := |f|;
    assert SortedBy(f, NewestHostelKey) by {
      var all := NewestWhere(table, IsFeaturedVisible);
      assert f == all[..k];
    }
    if k < HomeSlots {
      ShortPickIsComplete(table);
      FillerIsPlain(table);
      var g := FillerPick(table, f);
      assert r[..k] == f && r[k..] == g;
      assert SortedBy(g, NewestHostelKey) by {
        var all := NewestWhere(table, Unlisted(IdSet(f)));
        assert g == all[..|g|];
      }
    } else {
      assert r[..k] == f;
      assert r[k..] == [];
    }
  }

  /** Every featured, visible hostel left off the homepage is outranked: the page is
      six featured hostels, each created no earlier. */
  lemma HomeFeaturedTopSix(table: seq<Hostel>, h: Hostel)
    requires h in table && IsFeaturedVisible(h)
    requires h !in HomeFeatured(table)
    ensures |HomeFeatured(table)| == HomeSlots
    ensures forall i :: 0 <= i < HomeSlots ==>
      HomeFeatured(table)[i].isFeatured && HomeFeatured(table)[i].createdAt >= h.createdAt
  {
    var all := NewestWhere(table, IsFeaturedVisible);
    var f := FeaturedPick(table);
    if |f| < HomeSlots {
      ShortPickIsComplete(table);
      assert false;
    }
    FullPickIsNewest(table);
    assert HomeFeatured(table) == f == all[..HomeSlots];
    var j :| 0 <= j < |all| && all[j] == h;
    assert j >= HomeSlots;
    forall i | 0 <= i < HomeSlots
      ensures f[i].createdAt >= h.createdAt
    {
      assert NewestHostelKey(all[i]) <= NewestHostelKey(all[j]);
    }
  }

  /** With unique ids in the table, no hostel appears twice on the homepage. */
  lemma HomeFeaturedNoDuplicates(table: seq<Hostel>)
    requires Pairwise(table, DifferentIds)
    ensures Pairwise(HomeFeatured(table), DifferentIds)
  {
    var f := FeaturedPick(table);
    FilterPairwise(table, IsFeaturedVisible, DifferentIds);
    SortPairwise(Filter(table, IsFeaturedVisible), NewestHostelKey, DifferentIds);
    if |f| < HomeSlots {
      var p := Unlisted(IdSet(f));
      FilterPairwise(table, p, DifferentIds);
      SortPairwise(Filter(table, p), NewestHostelKey, DifferentIds);
      var g := FillerPick(table, f);
      forall i, j | 0 <= i < |f| && 0 <= j < |g|
        ensures DifferentIds(f[i], g[j])
      {
        assert f[i].id in IdSet(f);
      }
      ConcatPairwise(f, g, DifferentIds);
    }
  }

  /** With unique ids, a visible hostel is either featured or has an id the short pick
      does not hold, never both. */
  lemma ShortPickSplitsVisible(table: seq<Hostel>)
    requires Pairwise(table, DifferentIds)
    requires |FeaturedPick(table)| < HomeSlots
    ensures var p := Unlisted(IdSet(FeaturedPick(table)));
      && (forall x :: x in table ==> (IsVisible(x) <==> IsFeaturedVisible(x) || p(x)))
      && (forall x :: x in table ==> !(IsFeaturedVisible(x) && p(x)))
  {
    var f := FeaturedPick(table);
    ShortPickIsComplete(table);
    forall x | x in table && IsVisible(x) && !x.isFeatured
      ensures x.id !in IdSet(f)
    {
      forall y | y in f
        ensures y.id != x.id
      {
        var b :| 0 <= b < |f| && f[b] == y;
        var i :| 0 <= i < |table| && table[i] == x;
        var j :| 0 <= j < |table| && table[j] == y;
        if i < j {
          assert DifferentIds(table[i], table[j]);
        } else if j < i {
          assert DifferentIds(table[j], table[i]);
        }
      }
    }
    forall x | x in table && IsFeaturedVisible(x)
      ensures x.id in IdSet(f)
    {
      assert x in f;
    }
  }

  /** With unique ids in the table, the homepage shows six hostels, or every visible
      hostel when there are fewer than six. */
  lemma HomeFeaturedSize(table: seq<Hostel>)
    requires Pairwise(table, DifferentIds)
    ensures var visible := Count(table, IsVisible);
      |HomeFeatured(table)| == if visible < HomeSlots then visible else HomeSlots
  {
    var f := FeaturedPick(table);
    if |f| < HomeSlots {
      ShortPickIsComplete(table);
      ShortPickSplitsVisible(table);
      var p := Unlisted(IdSet(f));
      FilterCountSplit(table, IsVisible, IsFeaturedVisible, p);
      assert |NewestWhere(table, p)| == |Filter(table, p)|;
    } else {
      FilterCountSplit(table, IsVisible, IsFeaturedVisible, (h: Hostel) => IsVisible(h) && !h.isFeatured);
      assert |NewestWhere(table, IsFeaturedVisible)| == |Filter(table, IsFeaturedVisible)|;
    }
  }

  // ---------------------------------------------------------------------------------------
  // Hostel list
  // ---------------------------------------------------------------------------------------

  /** The rows the list view reads. */
  datatype Catalog = Catalog(
    hostels: seq<Hostel>,
    rooms: seq<RoomType>,
    links: seq<HostelFacility>,
    reviews: seq<Review>)

  /** The query-string parameters of the list view; `None` is a parameter left out. */
  datatype ListParams = ListParams(
    q: Option<string>,
    landmark: Option<string>,
    maxDistance: Option<string>,
    minPrice: Option<string>,
    maxPrice: Option<string>,
    facilities: seq<string>,
    roomType: Option<string>,
    minRating: Option<string>,
    sort: Option<string>)

  /** Errors the list view lets escape, each ending the request with a server error. */
  datatype ListError =
    | InvalidDistance   // `Decimal(...)` raising `InvalidOperation`, which is not caught
    | InvalidPrice      // a price the decimal column cannot convert
    | InvalidFacilityId // a facility id the integer column cannot convert

  /** The filters in effect once the parameters are read. */
  datatype Criteria = Criteria(
    q: Option<string>,
    landmark: Option<string>,
    maxDistance: Option<real>,
    minPrice: Option<real>,
    maxPrice: Option<real>,
    facilities: Option<seq<int>>,
    roomType: Option<string>,
    minRating: Option<int>)

  /** Python truthiness of an optional text parameter. */
  predicate Given(p: Option<string>) {
    p.Some? && p.value != ""
  }

  /** `int(x)` of each facility id, failing when any one fails. */
  function ParseIds(xs: seq<string>): (r: Option<seq<int>>)
    ensures r.Some? <==> forall i :: 0 <= i < |xs| ==> ParseInt(xs[i]).Some?
    ensures r.Some? ==> |r.value| == |xs| && forall i :: 0 <= i < |xs| ==> Some(r.value[i]) == ParseInt(xs[i])
  {
    if |xs| == 0 then Some([])
    else
      var head := ParseInt(xs[0]);
      var tail := ParseIds(xs[1..]);
      assert forall i :: 1 <= i < |xs| ==> xs[i] == xs[1..][i - 1];
      if head.None? || tail.None? then None
      else
        var r := [head.value] + tail.value;
        assert forall i :: 1 <= i < |r| ==> r[i] == tail.value[i - 1];
        Some(r)
  }

  /** The distance bound as the view reads it: text `Decimal` cannot read escapes as an error. */
  function DistanceBoundAsWritten(p: Option<string>): (r: Result<Option<real>, ListError>)
    ensures Given(p) && ParseDecimal(p.value).None? <==> r.Err?
  {
    if !Given(p) then Ok(None)
    else
      var d := ParseDecimal(p.value);
      if d.None? then Err(InvalidDistance) else Ok(Some(d.value))
  }

  /** The distance bound the `try`/`except` evidently means: unreadable text skips the filter. */
  function DistanceBound(p: Option<string>): (r: Option<real>)
    ensures r.Some? <==> Given(p) && ParseDecimal(p.value).Some?
    ensures r.Some? ==> Some(r.value) == ParseDecimal(p.value)
  {
    if Given(p) then ParseDecimal(p.value) else None
  }

  /** A price bound handed to the decimal column: unreadable text is an error. */
  function PriceBound(p: Option<string>): (r: Result<Option<real>, ListError>)
    ensures r.Err? <==> Given(p) && ParseDecimal(p.value).None?
    ensures r.Ok? && r.value.Some? ==> Given(p) && Some(r.value.value) == ParseDecimal(p.value)
  {
    if !Given(p) then Ok(None)
    else
      var d := ParseDecimal(p.value);
      if d.None? then Err(InvalidPrice) else Ok(Some(d.value))
  }

  /** Reads the parameters after the distance bound, in the order the view uses them. */
  function CriteriaWith(p: ListParams, maxDistance: Option<real>): (r: Result<Criteria, ListError>)
    ensures r.Err? <==>
      || (Given(p.minPrice) && ParseDecimal(p.minPrice.value).None?)
      || (Given(p.maxPrice) && ParseDecimal(p.maxPrice.value).None?)
      || (|p.facilities| > 0 && exists i :: 0 <= i < |p.facilities| && ParseInt(p.facilities[i]).None?)
    ensures r.Ok? ==> r.value.maxDistance == maxDistance
    ensures r.Ok? ==> (r.value.minRating.Some? <==> Given(p.minRating) && ParseInt(p.minRating.value).Some?)
  {
    var minPrice := PriceBound(p.minPrice);
    var maxPrice := PriceBound(p.maxPrice);
    var ids := ParseIds(p.facilities);
    if minPrice.Err? then Err(InvalidPrice)
    else if maxPrice.Err? then Err(InvalidPrice)
    else if |p.facilities| > 0 && ids.None? then Err(InvalidFacilityId)
    else
      var rating := if Given(p.minRating) then ParseInt(p.minRating.value) else None;
      Ok(Criteria(
        q := if Given(p.q) then p.q else None,
        landmark := if Given(p.landmark) then p.landmark else None,
        maxDistance := maxDistance,
        minPrice := minPrice.value,
        maxPrice := maxPrice.value,
        facilities := if |p.facilities| > 0 then ids else None,
        roomType := if Given(p.roomType) then p.roomType else None,
        minRating := rating))
  }

  /** The text search: the query in the name, the address or the landmark. */
  predicate MatchesText(h: Hostel, q: string) {
    ContainsIgnoringCase(h.name, q) || ContainsIgnoringCase(h.address, q) || ContainsIgnoringCase(h.landmark, q)
  }

  predicate WithinDistance(h: Hostel, bound: real) {
    h.distance.Some? && h.distance.value <= bound
  }

  predicate HasRoomFrom(h: Hostel, rooms: seq<RoomType>, low: real) {
    exists i :: 0 <= i < |rooms| && rooms[i].hostel == h.id && rooms[i].price >= low
  }

  predicate HasRoomUpTo(h: Hostel, rooms: seq<RoomType>, high: real) {
    exists i :: 0 <= i < |rooms| && rooms[i].hostel == h.id && rooms[i].price <= high
  }

  predicate HasRoomOfKind(h: Hostel, rooms: seq<RoomType>, kind: string) {
    exists i :: 0 <= i < |rooms| && rooms[i].hostel == h.id && rooms[i].kind == kind
  }

  predicate HasFacilityAmong(h: Hostel, links: seq<HostelFacility>, ids: seq<int>) {
    exists i :: 0 <= i < |links| && links[i].hostel == h.id && links[i].facility in ids
  }

  /** Ratings of all the hostel's reviews: the list filter does not look at approval. */
  function AllRatings(reviews: seq<Review>, hostel: HostelId): seq<int> {
    if |reviews| == 0 then []
    else (if reviews[0].hostel == hostel then [reviews[0].rating] else []) + AllRatings(reviews[1..], hostel)
  }

  /** `Avg('reviews__rating') >= low`; a hostel without reviews averages SQL `NULL` and fails. */
  predicate RatedAtLeast(h: Hostel, reviews: seq<Review>, low: int) {
    var rs := AllRatings(reviews, h.id);
    |rs| > 0 && (Sum(rs) as real) / (|rs| as real) >= low as real
  }

  /** Everything the filters demand of one hostel, stated as a single condition. */
  predicate Matches(h: Hostel, c: Criteria, db: Catalog) {
    && IsVisible(h)
    && (c.q.Some? ==> MatchesText(h, c.q.value))
    && (c.landmark.Some? ==> ContainsIgnoringCase(h.landmark, c.landmark.value))
    && (c.maxDistance.Some? ==> WithinDistance(h, c.maxDistance.value))
    && (c.minPrice.Some? ==> HasRoomFrom(h, db.rooms, c.minPrice.value))
    && (c.maxPrice.Some? ==> HasRoomUpTo(h, db.rooms, c.maxPrice.value))
    && (c.facilities.Some? ==> HasFacilityAmong(h, db.links, c.facilities.value))
    && (c.roomType.Some? ==> HasRoomOfKind(h, db.rooms, c.roomType.value))
    && (c.minRating.Some? ==> RatedAtLeast(h, db.reviews, c.minRating.value))
  }

  /** Applies `p` when the filter is present, as each `if ...: queryset = queryset.filter(...)`. */
  function FilterWhen(s: seq<Hostel>, present: bool, p: Hostel -> bool): (r: seq<Hostel>)
    ensures forall x :: x in r <==> x in s && (present ==> p(x))
  {
    if present then Filter(s, p) else s
  }

  /** The chain of `filter` calls of `get_queryset`, one per criterion, in the view's order. */
  function Narrow(db: Catalog, c: Criteria): (r: seq<Hostel>)
  {
    var s0 := Filter(db.hostels, IsVisible);
    var s1 := FilterWhen(s0, c.q.Some?, (h: Hostel) => c.q.Some? && MatchesText(h, c.q.value));
    var s2 := FilterWhen(s1, c.landmark.Some?,
      (h: Hostel) => c.landmark.Some? && ContainsIgnoringCase(h.landmark, c.landmark.value));
    var s3 := FilterWhen(s2, c.maxDistance.Some?,
      (h: Hostel) => c.maxDistance.Some? && WithinDistance(h, c.maxDistance.value));
    var s4 := FilterWhen(s3, c.minPrice.Some?,
      (h: Hostel) => c.minPrice.Some? && HasRoomFrom(h, db.rooms, c.minPrice.value));
    var s5 := FilterWhen(s4, c.maxPrice.Some?,
      (h: Hostel) => c.maxPrice.Some? && HasRoomUpTo(h, db.rooms, c.maxPrice.value));
    var s6 := FilterWhen(s5, c.facilities.Some?,
      (h: Hostel) => c.facilities.Some? && HasFacilityAmong(h, db.links, c.facilities.value));
    var s7 := FilterWhen(s6, c.roomType.Some?,
      (h: Hostel) => c.roomType.Some? && HasRoomOfKind(h, db.rooms, c.roomType.value));
    FilterWhen(s7, c.minRating.Some?,
      (h: Hostel) => c.minRating.Some? && RatedAtLeast(h, db.reviews, c.minRating.value))
  }

  /** The chained filters select exactly the table's hostels meeting every criterion. */
  lemma NarrowExact(db: Catalog, c: Criteria)
    ensures forall x :: x in Narrow(db, c) <==> x in db.hostels && Matches(x, c, db)
  {
  }

  predicate HasDistance(h: Hostel) {
    h.distance.Some?
  }

  predicate IsFeatured(h: Hostel) {
    h.isFeatured
  }

  predicate IsPlain(h: Hostel) {
    !h.isFeatured
  }

  function DistanceKey(h: Hostel): real {
    if h.distance.Some? then h.distance.value else 0.0
  }

  /** `order_by('-is_featured', '-created_at')`: featured hostels, newest first, then the others,
      newest first. */
  function FeaturedFirst(s: seq<Hostel>): (r: seq<Hostel>)
    ensures forall x :: x in r <==> x in s
  {
    var a := NewestWhere(s, IsFeatured);
    var b := NewestWhere(s, IsPlain);
    assert forall x :: x in a + b <==> x in a || x in b;
    a + b
  }

  /** The sort orders whose SQL order is not part of this model. */
  predicate JoinOrdered(sort: string) {
    sort == "price_low" || sort == "price_high" || sort == "rating"
  }

  /** The `sort` parameter, `featured` when it is left out. */
  function SortChoice(p: ListParams): string {
    if p.sort.Some? then p.sort.value else "featured"
  }

  /** The `order_by` step. `featured`: featured first, then newest; `distance`: hostels with a
      distance, nearest first; the joined orders keep the filtered rows as they are; anything
      else: newest first. */
  function Arrange(s: seq<Hostel>, sort: string): (r: seq<Hostel>)
    ensures sort != "distance" ==> forall x :: x in r <==> x in s
    ensures sort == "distance" ==> forall x :: x in r <==> x in s && HasDistance(x)
  {
    if sort == "featured" then FeaturedFirst(s)
    else if JoinOrdered(sort) then s
    else if sort == "distance" then
      var r := SortBy(Filter(s, HasDistance), DistanceKey);
      SameMembers(r, Filter(s, HasDistance));
      r
    else Newest(s)
  }

  /** The `featured` order: every featured hostel before every other, each part newest first. */
  lemma ArrangeFeaturedShape(s: seq<Hostel>)
    ensures var r := Arrange(s, "featured"); var k := |Filter(s, IsFeatured)|;
      && k <= |r|
      && (forall i :: 0 <= i < k ==> r[i].isFeatured)
      && (forall i :: k <= i < |r| ==> !r[i].isFeatured)
      && SortedBy(r[..k], NewestHostelKey)
      && SortedBy(r[k..], NewestHostelKey)
  {
    var a := NewestWhere(s, IsFeatured);
    var b := NewestWhere(s, IsPlain);
    var r := Arrange(s, "featured");
    assert r == a + b;
    assert r[..|a|] == a && r[|a|..] == b;
    forall i | 0 <= i < |a| ensures r[i].isFeatured {
      assert a[i] in a;
    }
    forall i | |a| <= i < |r| ensures !r[i].isFeatured {
      assert b[i - |a|] in b;
    }
  }

  /** The `distance` order: nearest first. */
  lemma ArrangeDistanceSorted(s: seq<Hostel>)
    ensures SortedBy(Arrange(s, "distance"), DistanceKey)
  {
  }

  /** The view's pipeline once the distance bound is read: the other parameters, the filters,
      the order. */
  function ListWith(db: Catalog, p: ListParams, maxDistance: Option<real>): (r: Result<seq<Hostel>, ListError>)
    ensures r.Ok? ==> forall i :: 0 <= i < |r.value| ==> r.value[i].isVerified && r.value[i].isActive
  {
    var c := CriteriaWith(p, maxDistance);
    if c.Err? then Err(c.error)
    else
      var r := Arrange(Narrow(db, c.value), SortChoice(p));
      NarrowExact(db, c.value);
      assert forall i :: 0 <= i < |r| ==> r[i] in Narrow(db, c.value);
      Ok(r)
  }

  /** `HostelListView.get_queryset` as written: an unreadable `max_distance` is an error. */
  function ListHostelsAsWritten(db: Catalog, p: ListParams): (r: Result<seq<Hostel>, ListError>)
    ensures r.Ok? ==> forall i :: 0 <= i < |r.value| ==> r.value[i].isVerified && r.value[i].isActive
  {
    var d := DistanceBoundAsWritten(p.maxDistance);
    if d.Err? then Err(d.error) else ListWith(db, p, d.value)
  }

  /** `HostelListView.get_queryset` with the distance guard it evidently intends: an unreadable
      `max_distance` is ignored. Every listed hostel is verified and active. */
  function ListHostels(db: Catalog, p: ListParams): (r: Result<seq<Hostel>, ListError>)
    ensures r.Ok? ==> forall i :: 0 <= i < |r.value| ==> r.value[i].isVerified && r.value[i].isActive
    ensures r.Err? <==>
      || (Given(p.minPrice) && ParseDecimal(p.minPrice.value).None?)
      || (Given(p.maxPrice) && ParseDecimal(p.maxPrice.value).None?)
      || (|p.facilities| > 0 && exists i :: 0 <= i < |p.facilities| && ParseInt(p.facilities[i]).None?)
  {
    ListWith(db, p, DistanceBound(p.maxDistance))
  }

  /** The listed hostels are exactly those meeting every given criterion, with the `distance`
      order also dropping hostels that have no distance. */
  lemma ListHostelsMembers(db: Catalog, p: ListParams, x: Hostel)
    requires ListHostels(db, p).Ok?
    ensures var c := CriteriaWith(p, DistanceBound(p.maxDistance)).value;
      x in ListHostels(db, p).value <==>
        x in db.hostels && Matches(x, c, db) && (SortChoice(p) == "distance" ==> HasDistance(x))
  {
    NarrowExact(db, CriteriaWith(p, DistanceBound(p.maxDistance)).value);
  }

  /** An unreadable `min_rating` is ignored: the list is the one without the parameter. */
  lemma UnreadableMinRatingIgnored(db: Catalog, p: ListParams, text: string)
    requires ParseInt(text).None?
    ensures ListHostels(db, p.(minRating := Some(text))) == ListHostels(db, p.(minRating := None))
  {
    var p1 := p.(minRating := Some(text));
    var p0 := p.(minRating := None);
    var d := DistanceBound(p.maxDistance);
    assert DistanceBound(p1.maxDistance) == d == DistanceBound(p0.maxDistance);
    assert CriteriaWith(p1, d) == CriteriaWith(p0, d);
    assert SortChoice(p1) == SortChoice(p0);
  }

  /** With the intended guard, an unreadable `max_distance` is ignored. */
  lemma UnreadableDistanceIgnored(db: Catalog, p: ListParams, text: string)
    requires ParseDecimal(text).None?
    ensures ListHostels(db, p.(maxDistance := Some(text))) == ListHostels(db, p.(maxDistance := None))
  {
    var p1 := p.(maxDistance := Some(text));
    var p0 := p.(maxDistance := None);
    assert DistanceBound(p1.maxDistance) == None == DistanceBound(p0.maxDistance);
    assert CriteriaWith(p1, None) == CriteriaWith(p0, None);
    assert SortChoice(p1) == SortChoice(p0);
  }

  /** As written, `max_distance=abc` ends the request with an error, whatever else is asked. */
  lemma UnreadableDistanceFailsAsWritten(db: Catalog, p: ListParams)
    ensures ListHostelsAsWritten(db, p.(maxDistance := Some("abc"))) == Err(InvalidDistance)
  {
    StripUnchanged("abc");
    ParseDecimalRejectsLetters("abc");
  }

  /** Where the distance text reads, or is absent, both versions agree. */
  lemma ListVersionsAgree(db: Catalog, p: ListParams)
    requires !Given(p.maxDistance) || ParseDecimal(p.maxDistance.value).Some?
    ensures ListHostelsAsWritten(db, p) == ListHostels(db, p)
  {
  }
}
