/** The records of the hostel marketplace and the derived properties its model
    classes compute at read time: featured-request windows, subscription expiry,
    e-mail token expiry, plan labels, and the rules `save()` applies to hostels
    and their images.

    Instants are integer microseconds (Python datetimes carry microseconds);
    calendar dates are day numbers, day 0 starting at instant 0.
    Database tables are sequences of records; foreign keys are integer ids. */
module Models {
  import opened Wrappers
  import opened Text
  import opened Sorting

  type HostelId = int
  type UserId = int
  type PlanId = int
  type RequestId = int
  type ImageId = int
  type ReviewId = int
  type FacilityId = int

  const MicrosPerHour: int := 3_600_000_000
  const MicrosPerDay: int := 86_400_000_000

  datatype Role = Owner | Student | Admin

  datatype User = User(
    id: UserId,
    username: string,
    firstName: string,
    lastName: string,
    email: string,
    role: Role,
    isSuperuser: bool,
    isActive: bool)

  /** A listing. `distance` is the distance to the nearby landmark in kilometres,
      absent when the owner left it blank. */
  datatype Hostel = Hostel(
    id: HostelId,
    owner: UserId,
    name: string,
    slug: string,
    address: string,
    landmark: string,
    distance: Option<real>,
    isVerified: bool,
    isActive: bool,
    isFeatured: bool,
    createdAt: int)

  datatype Facility = Facility(id: FacilityId, name: string)

  /** One row of the hostel/facility link table. */
  datatype HostelFacility = HostelFacility(hostel: HostelId, facility: FacilityId)

  datatype RoomType = RoomType(hostel: HostelId, kind: string, price: real)

  datatype HostelImage = HostelImage(
    id: ImageId,
    hostel: HostelId,
    caption: string,
    isPrimary: bool,
    createdAt: int)

  datatype Review = Review(
    id: ReviewId,
    hostel: HostelId,
    user: UserId,
    rating: int,
    text: string,
    isApproved: bool)

  datatype Favorite = Favorite(user: UserId, hostel: HostelId)

  datatype FeaturedPlan = FeaturedPlan(
    id: PlanId,
    name: string,
    durationDays: int,
    price: real,
    isActive: bool)

  datatype RequestStatus = Pending | Approved | Rejected | Expired

  /** An owner's request to have a hostel featured; `start`/`end` are the featured
      window, null until an administrator approves the request. */
  datatype FeaturedRequest = FeaturedRequest(
    id: RequestId,
    hostel: HostelId,
    plan: PlanId,
    owner: UserId,
    status: RequestStatus,
    requestedAt: int,
    start: Option<int>,
    end: Option<int>)

  datatype SubscriptionStatus =
    | SubscriptionPending
    | SubscriptionActive
    | SubscriptionExpired
    | SubscriptionCancelled

  /** A hostel's subscription; the dates are calendar days. */
  datatype HostelSubscription = HostelSubscription(
    hostel: HostelId,
    status: SubscriptionStatus,
    startDate: Option<int>,
    endDate: Option<int>)

  datatype EmailVerification = EmailVerification(user: UserId, createdAt: int, verifiedAt: Option<int>)

  // ---------------------------------------------------------------------------
  // Featured requests

  /** `FeaturedRequest.is_active`: approved, both window ends set, and `now`
      inside the window with both ends included. */
  predicate RequestActive(r: FeaturedRequest, now: int) {
    && r.status == Approved
    && r.start.Some?
    && r.end.Some?
    && r.start.value <= now <= r.end.value
  }

  /** Both ends of an approved window are inside it, the instants just outside are not,
      and a request that is not approved is never active. */
  lemma RequestWindowInclusive(r: FeaturedRequest, now: int)
    ensures r.status != Approved ==> !RequestActive(r, now)
    ensures r.status == Approved && r.start.Some? && r.end.Some? && r.start.value <= r.end.value ==>
      && RequestActive(r, r.start.value)
      && RequestActive(r, r.end.value)
      && !RequestActive(r, r.start.value - 1)
      && !RequestActive(r, r.end.value + 1)
  {
  }

  /** A window is an interval: active at two instants means active at every instant between. */
  lemma RequestWindowConvex(r: FeaturedRequest, t1: int, t2: int, t3: int)
    requires t1 <= t2 <= t3
    requires RequestActive(r, t1) && RequestActive(r, t3)
    ensures RequestActive(r, t2)
  {
  }

  /** `FeaturedRequest.days_remaining`: whole days from `now` to the end of the window,
      rounded down as `timedelta.days` does, and never below zero. */
  function DaysRemaining(r: FeaturedRequest, now: int): (d: nat)
    ensures r.end.None? ==> d == 0
    ensures r.end.Some? && now > r.end.value ==> d == 0
    ensures r.end.Some? && now <= r.end.value ==>
      d * MicrosPerDay <= r.end.value - now < (d + 1) * MicrosPerDay
  {
    if r.end.Some? then
      var days := (r.end.value - now) / MicrosPerDay;
      if days < 0 then 0 else days
    else 0
  }

  /** Days remaining only shrink as time passes. */
  lemma {:induction false} DaysRemainingMonotone(r: FeaturedRequest, t1: int, t2: int)
    requires t1 <= t2
    ensures DaysRemaining(r, t2) <= DaysRemaining(r, t1)
  {
    if r.end.Some? && t2 <= r.end.value {
      var d1 := DaysRemaining(r, t1);
      var d2 := DaysRemaining(r, t2);
      assert d2 * MicrosPerDay <= r.end.value - t2 <= r.end.value - t1 < (d1 + 1) * MicrosPerDay;
    }
  }

  /** `FeaturedRequest.total_amount`: the price of the request's plan as the plan
      catalogue holds it now. The plan must exist (it is a foreign key). */
  function TotalAmount(r: FeaturedRequest, plans: map<PlanId, FeaturedPlan>): real
    requires r.plan in plans
  {
    plans[r.plan].price
  }

  /** The amount is read through the plan, not copied into the request:
      editing the plan's price changes the amount of every request on that plan,
      and editing another plan changes nothing. */
  lemma TotalAmountFollowsPlan(r: FeaturedRequest, plans: map<PlanId, FeaturedPlan>, p: PlanId, price: real)
    requires r.plan in plans && p in plans
    ensures TotalAmount(r, plans[p := plans[p].(price := price)]) ==
      if p == r.plan then price else TotalAmount(r, plans)
  {
  }

  /** Sort key putting the most recently requested first (`ordering = ['-requested_at']`). */
  function NewestRequestKey(r: FeaturedRequest): real {
    -(r.requestedAt as real)
  }

  /** The filter `hostel=hostel` on the request table. */
  function OfHostel(hostel: HostelId): FeaturedRequest -> bool {
    (r: FeaturedRequest) => r.hostel == hostel
  }

  /** `hostel.featured_requests` in the model's default order. */
  function RequestsOf(hostel: HostelId, requests: seq<FeaturedRequest>): seq<FeaturedRequest> {
    SortBy(Filter(requests, OfHostel(hostel)), NewestRequestKey)
  }

  /** Position of the first active request in `s`, or `|s|` when none is active. */
  function FirstActive(s: seq<FeaturedRequest>, now: int): (k: nat)
    ensures k <= |s|
    ensures k < |s| ==> RequestActive(s[k], now)
    ensures forall i :: 0 <= i < k ==> !RequestActive(s[i], now)
  {
    if |s| == 0 || RequestActive(s[0], now) then 0 else 1 + FirstActive(s[1..], now)
  }

  /** Every active request of the hostel appears at or after the first active position of
      the newest-first list, so that position exists and holds a request at least as recent. */
  lemma {:induction false} FirstActiveIsNewest(hostel: HostelId, requests: seq<FeaturedRequest>, now: int, i: int)
    requires 0 <= i < |requests| && requests[i].hostel == hostel && RequestActive(requests[i], now)
    ensures FirstActive(RequestsOf(hostel, requests), now) < |RequestsOf(hostel, requests)|
    ensures requests[i].requestedAt <=
      RequestsOf(hostel, requests)[FirstActive(RequestsOf(hostel, requests), now)].requestedAt
  {
    var s := RequestsOf(hostel, requests);
    var k := FirstActive(s, now);
    OwnRequestListed(hostel, requests, i);
    var j :| 0 <= j < |s| && s[j] == requests[i];
    assert k <= j;
    assert SortedBy(s, NewestRequestKey);
    assert NewestRequestKey(s[k]) <= NewestRequestKey(s[j]);
  }

  /** Every request of the hostel appears in its newest-first list. */
  lemma OwnRequestListed(hostel: HostelId, requests: seq<FeaturedRequest>, i: int)
    requires 0 <= i < |requests| && requests[i].hostel == hostel
    ensures requests[i] in RequestsOf(hostel, requests)
  {
    var own := Filter(requests, OfHostel(hostel));
    assert OfHostel(hostel)(requests[i]);
    assert requests[i] in own;
    SameMembers(RequestsOf(hostel, requests), own);
  }

  /** Everything in the newest-first list is a request of the hostel. */
  lemma {:induction false} RequestsOfBelong(hostel: HostelId, requests: seq<FeaturedRequest>, k: int)
    requires 0 <= k < |RequestsOf(hostel, requests)|
    ensures RequestsOf(hostel, requests)[k] in requests
    ensures RequestsOf(hostel, requests)[k].hostel == hostel
  {
    var own := Filter(requests, OfHostel(hostel));
    var s := RequestsOf(hostel, requests);
    SameMembers(s, own);
    assert s[k] in own;
    var j :| 0 <= j < |own| && own[j] == s[k];
    assert OfHostel(hostel)(own[j]);
  }

  /** `Hostel.current_featured_request`: the first of the hostel's requests, newest first,
      that is approved with a window containing `now`. */
  function CurrentFeaturedRequest(hostel: HostelId, requests: seq<FeaturedRequest>, now: int): (c: Option<FeaturedRequest>)
    ensures c.Some? <==>
      exists i :: 0 <= i < |requests| && requests[i].hostel == hostel && RequestActive(requests[i], now)
    ensures c.Some? ==> c.value in requests && c.value.hostel == hostel && RequestActive(c.value, now)
    ensures c.Some? ==> forall i :: 0 <= i < |requests| && requests[i].hostel == hostel && RequestActive(requests[i], now) ==>
      requests[i].requestedAt <= c.value.requestedAt
  {
    var s := RequestsOf(hostel, requests);
    var k := FirstActive(s, now);
    forall i | 0 <= i < |requests| && requests[i].hostel == hostel && RequestActive(requests[i], now)
      ensures k < |s| && requests[i].requestedAt <= s[k].requestedAt
    {
      FirstActiveIsNewest(hostel, requests, now, i);
    }
    if k < |s| then
      RequestsOfBelong(hostel, requests, k);
      Some(s[k])
    else None
  }

  /** `Hostel.is_currently_featured`. */
  function IsCurrentlyFeatured(hostel: HostelId, requests: seq<FeaturedRequest>, now: int): (b: bool)
    ensures b <==> exists i :: 0 <= i < |requests| && requests[i].hostel == hostel && RequestActive(requests[i], now)
  {
    CurrentFeaturedRequest(hostel, requests, now).Some?
  }

  /** `Hostel.featured_until`: the end of the current featured window, if any. */
  function FeaturedUntil(hostel: HostelId, requests: seq<FeaturedRequest>, now: int): (u: Option<int>)
    ensures u.Some? <==> IsCurrentlyFeatured(hostel, requests, now)
    ensures u.Some? ==> now <= u.value
    ensures u.Some? ==>
      exists i :: 0 <= i < |requests| && requests[i].hostel == hostel && RequestActive(requests[i], now) && requests[i].end == u
        && forall j :: 0 <= j < |requests| && requests[j].hostel == hostel && RequestActive(requests[j], now) ==>
             requests[j].requestedAt <= requests[i].requestedAt
  {
    var c := CurrentFeaturedRequest(hostel, requests, now);
    if c.Some? then Some(c.value.end.value) else None
  }

  /** When one active request of the hostel was made after every other one, the featured
      period ends where that request ends, whatever the older requests say. */
  lemma FeaturedUntilNewest(hostel: HostelId, requests: seq<FeaturedRequest>, now: int, k: int)
    requires 0 <= k < |requests| && requests[k].hostel == hostel && RequestActive(requests[k], now)
    requires forall j ::
      0 <= j < |requests| && requests[j].hostel == hostel && RequestActive(requests[j], now) && requests[j] != requests[k]
      ==> requests[j].requestedAt < requests[k].requestedAt
    ensures FeaturedUntil(hostel, requests, now) == requests[k].end
  {
    var u := FeaturedUntil(hostel, requests, now);
    assert IsCurrentlyFeatured(hostel, requests, now);
    var i :| 0 <= i < |requests| && requests[i].hostel == hostel && RequestActive(requests[i], now) && requests[i].end == u
      && forall j :: 0 <= j < |requests| && requests[j].hostel == hostel && RequestActive(requests[j], now) ==>
           requests[j].requestedAt <= requests[i].requestedAt;
    assert requests[k].requestedAt <= requests[i].requestedAt;
  }

  // ---------------------------------------------------------------------------
  // Subscriptions and e-mail verification

  /** The calendar day of an instant (`timezone.now().date()`). */
  function DateOf(instant: int): (day: int)
    ensures day * MicrosPerDay <= instant < (day + 1) * MicrosPerDay
  {
    instant / MicrosPerDay
  }

  /** `HostelSubscription.is_active`: status active, an end date set, and today not past it. */
  predicate SubscriptionIsActive(s: HostelSubscription, now: int) {
    s.status == SubscriptionActive && s.endDate.Some? && DateOf(now) <= s.endDate.value
  }

  /** `HostelSubscription.days_until_expiry`: days from today to the end date,
      negative once it has passed; null without an end date. */
  function DaysUntilExpiry(s: HostelSubscription, now: int): (d: Option<int>)
    ensures d.Some? <==> s.endDate.Some?
    ensures d.Some? ==> DateOf(now) + d.value == s.endDate.value
  {
    if s.endDate.Some? then Some(s.endDate.value - DateOf(now)) else None
  }

  /** An active-status subscription with an end date is active exactly while
      its days until expiry are not negative. */
  lemma SubscriptionActiveIffDaysLeft(s: HostelSubscription, now: int)
    ensures SubscriptionIsActive(s, now) <==>
      s.status == SubscriptionActive && DaysUntilExpiry(s, now).Some? && DaysUntilExpiry(s, now).value >= 0
  {
  }

  const VerificationLifetime: int := 24 * MicrosPerHour

  /** `EmailVerification.is_expired`: more than 24 hours after the token was created. */
  predicate VerificationExpired(v: EmailVerification, now: int) {
    now > v.createdAt + VerificationLifetime
  }

  /** A token is still valid at exactly 24 hours, expired one microsecond later,
      and stays expired from then on. */
  lemma VerificationExpiryBoundary(v: EmailVerification, later: int)
    ensures !VerificationExpired(v, v.createdAt + 86_400_000_000)
    ensures VerificationExpired(v, v.createdAt + 86_400_000_001)
    ensures later > v.createdAt + 86_400_000_000 ==> VerificationExpired(v, later)
  {
  }

  // ---------------------------------------------------------------------------
  // Featured plans

  /** `FeaturedPlan.duration_display`. */
  function DurationDisplay(days: int): string {
    if days == 1 then "1 Day"
    else if days == 7 then "1 Week"
    else if days == 30 then "1 Month"
    else FormatInt(days) + " Days"
  }

  /** Reads a duration shown back to a number of days: the inverse of `DurationDisplay`. */
  function ParseDurationLabel(shown: string): Option<int> {
    if shown == "1 Day" then Some(1)
    else if shown == "1 Week" then Some(7)
    else if shown == "1 Month" then Some(30)
    else if |shown| >= 5 && shown[|shown| - 5..] == " Days" then ParseInt(shown[..|shown| - 5])
    else None
  }

  /** Every label reads back to the duration it was made from. */
  lemma {:induction false} DurationDisplayRoundTrip(days: int)
    ensures ParseDurationLabel(DurationDisplay(days)) == Some(days)
  {
    if days != 1 && days != 7 && days != 30 {
      var shown := FormatInt(days) + " Days";
      assert shown[|shown| - 1] == 's';
      assert shown[|shown| - 5..] == " Days";
      assert shown[..|shown| - 5] == FormatInt(days);
      ParseFormatInt(days);
    }
  }

  /** Different durations have different labels; in particular no plan other than the
      7-day and 30-day ones is shown as a week or a month. */
  lemma {:induction false} DurationDisplayInjective(a: int, b: int)
    requires DurationDisplay(a) == DurationDisplay(b)
    ensures a == b
  {
    DurationDisplayRoundTrip(a);
    DurationDisplayRoundTrip(b);
  }

  // ---------------------------------------------------------------------------
  // Saving hostels and images

  /** `Hostel.save`: a blank slug is filled from the name by `slugify`
      (an opaque function here); anything else is stored as given. */
  function SaveHostel(h: Hostel, slugify: string -> string): (r: Hostel)
    ensures r.(slug := h.slug) == h
    ensures h.slug != "" ==> r == h
  {
    if h.slug == "" then h.(slug := slugify(h.name)) else h
  }

  /** Saving a hostel a second time changes nothing more. */
  lemma SaveHostelIdempotent(h: Hostel, slugify: string -> string)
    ensures SaveHostel(SaveHostel(h, slugify), slugify) == SaveHostel(h, slugify)
  {
  }

  predicate UniqueImageIds(images: seq<HostelImage>) {
    forall i, j :: 0 <= i < j < |images| ==> images[i].id != images[j].id
  }

  /** No hostel has two primary images. */
  predicate AtMostOnePrimary(images: seq<HostelImage>) {
    forall i, j :: 0 <= i < j < |images| && images[i].isPrimary && images[j].isPrimary ==>
      images[i].hostel != images[j].hostel
  }

  /** `HostelImage.objects.filter(hostel=h, is_primary=True).update(is_primary=False)`. */
  function ClearPrimary(images: seq<HostelImage>, hostel: HostelId): (r: seq<HostelImage>)
    ensures |r| == |images|
    ensures forall i :: 0 <= i < |r| ==> r[i].id == images[i].id && r[i].hostel == images[i].hostel
    ensures forall i :: 0 <= i < |r| && r[i].hostel == hostel ==> !r[i].isPrimary
    ensures forall i :: 0 <= i < |r| && images[i].hostel != hostel ==> r[i] == images[i]
  {
    seq(|images|, i requires 0 <= i < |images| =>
      if images[i].hostel == hostel && images[i].isPrimary then images[i].(isPrimary := false) else images[i])
  }

  /** Position of the image with id `id`, or `|images|` when there is none. */
  function ImageIndex(images: seq<HostelImage>, id: ImageId): (k: nat)
    ensures k <= |images|
    ensures k < |images| ==> images[k].id == id
    ensures forall i :: 0 <= i < k ==> images[i].id != id
  {
    FirstWhere(images, (x: HostelImage) => x.id == id)
  }

  /** `Model.save()`: update the row with the same primary key, or insert a new row. */
  function UpsertImage(images: seq<HostelImage>, img: HostelImage): (r: seq<HostelImage>)
    ensures img in r
    ensures |r| == |images| || r == images + [img]
    ensures forall i :: 0 <= i < |images| && images[i].id != img.id ==> r[i] == images[i]
    ensures forall i :: 0 <= i < |r| && r[i].id == img.id ==> r[i] == img || (i < |images| && images[i] == r[i])
  {
    var k := ImageIndex(images, img.id);
    if k < |images| then
      assert images[k := img][k] == img;
      images[k := img]
    else images + [img]
  }

  /** `HostelImage.save`: a primary image first demotes every primary image of its hostel. */
  function SaveImage(images: seq<HostelImage>, img: HostelImage): seq<HostelImage> {
    UpsertImage(if img.isPrimary then ClearPrimary(images, img.hostel) else images, img)
  }

  /** After saving a primary image it is the only primary image of its hostel,
      and images of other hostels keep their place and content. */
  lemma {:induction false} SavePrimaryIsSolePrimary(images: seq<HostelImage>, img: HostelImage)
    requires UniqueImageIds(images)
    requires img.isPrimary
    ensures img in SaveImage(images, img)
    ensures forall x :: x in SaveImage(images, img) && x.hostel == img.hostel && x.isPrimary ==> x == img
    ensures forall i :: 0 <= i < |images| && images[i].hostel != img.hostel && images[i].id != img.id ==>
      SaveImage(images, img)[i] == images[i]
  {
    var cleared := ClearPrimary(images, img.hostel);
    var r := SaveImage(images, img);
    forall x | x in r && x.hostel == img.hostel && x.isPrimary
      ensures x == img
    {
      var i :| 0 <= i < |r| && r[i] == x;
    }
  }

  /** Saving any image keeps ids unique and keeps at most one primary image per hostel. */
  lemma {:induction false} SaveImageKeepsSinglePrimary(images: seq<HostelImage>, img: HostelImage)
    requires UniqueImageIds(images)
    requires AtMostOnePrimary(images)
    ensures UniqueImageIds(SaveImage(images, img))
    ensures AtMostOnePrimary(SaveImage(images, img))
  {
    var base := if img.isPrimary then ClearPrimary(images, img.hostel) else images;
    var r := SaveImage(images, img);
    assert UniqueImageIds(base);
    var k := ImageIndex(base, img.id);
    assert forall i :: 0 <= i < |base| && i != k ==> r[i] == base[i];
    assert forall i :: 0 <= i < |base| ==> base[i].isPrimary ==> images[i].isPrimary;
    assert forall i :: 0 <= i < |base| && base[i].isPrimary && img.isPrimary ==> base[i].hostel != img.hostel;
  }
}
