/** The request handlers a visitor or student triggers directly: the client address
    recorded when a contact is revealed, adding and editing a review, and the favourites list. */
module StudentViews {
  import opened Wrappers
  import opened Text
  import opened Sorting
  import opened Models
  import opened Ratings

  // ---------------------------------------------------------------------------------------
  // Client address
  // ---------------------------------------------------------------------------------------

  /** `RevealContactView.get_client_ip`: the first entry of a non-empty `X-Forwarded-For`
      header, otherwise `REMOTE_ADDR` (which may itself be missing). */
  function ClientIp(forwardedFor: Option<string>, remoteAddr: Option<string>): (ip: Option<string>)
    ensures forwardedFor.None? || forwardedFor.value == "" ==> ip == remoteAddr
    ensures forwardedFor.Some? && forwardedFor.value != "" ==>
      && ip.Some?
      && ip.value <= forwardedFor.value
      && ',' !in ip.value
      && (ip.value == forwardedFor.value || forwardedFor.value[|ip.value|] == ',')
  {
    if forwardedFor.Some? && forwardedFor.value != "" then Some(BeforeFirst(forwardedFor.value, ','))
    else remoteAddr
  }

  /** A header listing one address yields that address. */
  lemma ClientIpSingle(header: string, remoteAddr: Option<string>)
    requires header != "" && ',' !in header
    ensures ClientIp(Some(header), remoteAddr) == Some(header)
  {
    assert FindChar(header, ',') == |header|;
  }

  /** A header listing a chain of proxies yields the first, the originating client. */
  lemma ClientIpChain(first: string, rest: string, remoteAddr: Option<string>)
    requires ',' !in first
    ensures ClientIp(Some(first + "," + rest), remoteAddr) == Some(first)
  {
    var header := first + "," + rest;
    assert header[|first|] == ',';
    assert forall i :: 0 <= i < |first| ==> header[i] == first[i];
    assert FindChar(header, ',') == |first|;
    assert header[..|first|] == first;
  }

  // ---------------------------------------------------------------------------------------
  // Reviews
  // ---------------------------------------------------------------------------------------

  /** The outcomes other than success, each a JSON error reply or a 404. */
  datatype ReviewError =
    | NotFound
    | AlreadyReviewed
    | InvalidRating
    | RatingOutOfRange
    | TextTooShort

  const MinReviewLength: nat := 10

  /** `get_object_or_404(Hostel, slug=slug, is_verified=True, is_active=True)`. */
  function VisibleBySlug(table: seq<Hostel>, slug: string): (h: Option<Hostel>)
    ensures h.Some? <==> exists i :: 0 <= i < |table| && table[i].slug == slug && table[i].isVerified && table[i].isActive
    ensures h.Some? ==> h.value in table && h.value.slug == slug && h.value.isVerified && h.value.isActive
  {
    if |table| == 0 then None
    else if table[0].slug == slug && table[0].isVerified && table[0].isActive then Some(table[0])
    else
      var rest := VisibleBySlug(table[1..], slug);
      assert forall i :: 1 <= i < |table| ==> table[i] == table[1..][i - 1];
      rest
  }

  /** The user already has a review of the hostel, approved or not. */
  predicate HasReviewBy(reviews: seq<Review>, hostel: HostelId, user: UserId) {
    exists i :: 0 <= i < |reviews| && reviews[i].hostel == hostel && reviews[i].user == user
  }

  /** The checks both review handlers run on the posted fields, in their order: the rating
      must read as an integer (a missing rating fails too), lie in 1..5, and the stripped text
      must have at least ten characters. */
  function CheckReviewInput(rating: Option<string>, text: Option<string>): (r: Result<(int, string), ReviewError>)
    ensures r == Err(InvalidRating) <==> rating.None? || ParseInt(rating.value).None?
    ensures r == Err(RatingOutOfRange) <==>
      rating.Some? && ParseInt(rating.value).Some? && !(1 <= ParseInt(rating.value).value <= 5)
    ensures r == Err(TextTooShort) <==>
      rating.Some? && ParseInt(rating.value).Some? && 1 <= ParseInt(rating.value).value <= 5
      && |Strip(if text.Some? then text.value else "")| < MinReviewLength
    ensures r.Err? ==> r.error in {InvalidRating, RatingOutOfRange, TextTooShort}
    ensures r.Ok? ==>
      && rating.Some? && ParseInt(rating.value) == Some(r.value.0)
      && 1 <= r.value.0 <= 5
      && r.value.1 == Strip(if text.Some? then text.value else "")
      && |r.value.1| >= MinReviewLength
  {
    var n := if rating.Some? then ParseInt(rating.value) else None;
    var body := Strip(if text.Some? then text.value else "");
    if n.None? then Err(InvalidRating)
    else if !(1 <= n.value <= 5) then Err(RatingOutOfRange)
    else if |body| < MinReviewLength then Err(TextTooShort)
    else Ok((n.value, body))
  }

  /** `AddReviewView.post`: the hostel must be visible, the user must not have reviewed it,
      and the input must pass the checks; the new review waits for approval. */
  function AddReview(
    table: seq<Hostel>, reviews: seq<Review>, slug: string, user: UserId,
    rating: Option<string>, text: Option<string>, newId: ReviewId): (r: Result<seq<Review>, ReviewError>)
    ensures r == Err(NotFound) <==> VisibleBySlug(table, slug).None?
    ensures r == Err(AlreadyReviewed) <==>
      VisibleBySlug(table, slug).Some? && HasReviewBy(reviews, VisibleBySlug(table, slug).value.id, user)
    ensures VisibleBySlug(table, slug).Some? && !HasReviewBy(reviews, VisibleBySlug(table, slug).value.id, user) ==>
      (r.Err? <==> CheckReviewInput(rating, text).Err?)
    ensures r.Ok? ==>
      var h := VisibleBySlug(table, slug).value;
      var input := CheckReviewInput(rating, text).value;
      r.value == reviews + [Review(newId, h.id, user, input.0, input.1, false)]
  {
    var found := VisibleBySlug(table, slug);
    if found.None? then Err(NotFound)
    else if HasReviewBy(reviews, found.value.id, user) then Err(AlreadyReviewed)
    else
      var input := CheckReviewInput(rating, text);
      if input.Err? then Err(input.error)
      else Ok(reviews + [Review(newId, found.value.id, user, input.value.0, input.value.1, false)])
  }

  /** A second review of the same hostel by the same user is refused. */
  lemma AddReviewTwiceRefused(
    table: seq<Hostel>, reviews: seq<Review>, slug: string, user: UserId,
    rating: Option<string>, text: Option<string>, newId: ReviewId,
    rating2: Option<string>, text2: Option<string>, newId2: ReviewId)
    requires AddReview(table, reviews, slug, user, rating, text, newId).Ok?
    ensures AddReview(table, AddReview(table, reviews, slug, user, rating, text, newId).value,
      slug, user, rating2, text2, newId2) == Err(AlreadyReviewed)
  {
    var after := AddReview(table, reviews, slug, user, rating, text, newId).value;
    var h := VisibleBySlug(table, slug).value;
    assert after[|reviews|].hostel == h.id && after[|reviews|].user == user;
  }

  /** A rating that does not read as an integer is refused once the hostel and user pass. */
  lemma NonIntegerRatingRefused(
    table: seq<Hostel>, reviews: seq<Review>, slug: string, user: UserId,
    rating: string, text: Option<string>, newId: ReviewId)
    requires VisibleBySlug(table, slug).Some?
    requires !HasReviewBy(reviews, VisibleBySlug(table, slug).value.id, user)
    requires ParseInt(rating).None?
    ensures AddReview(table, reviews, slug, user, Some(rating), text, newId) == Err(InvalidRating)
  {
  }

  /** A newly added review waits for approval, so the hostel's rating figures do not move. */
  lemma AddReviewKeepsRatings(
    table: seq<Hostel>, reviews: seq<Review>, slug: string, user: UserId,
    rating: Option<string>, text: Option<string>, newId: ReviewId, hostel: HostelId)
    requires AddReview(table, reviews, slug, user, rating, text, newId).Ok?
    ensures var after := AddReview(table, reviews, slug, user, rating, text, newId).value;
      && AverageRating(after, hostel) == AverageRating(reviews, hostel)
      && RatingCount(after, hostel) == RatingCount(reviews, hostel)
      && RatingDistribution(after, hostel) == RatingDistribution(reviews, hostel)
  {
    var after := AddReview(table, reviews, slug, user, rating, text, newId).value;
    OtherReviewIgnored(reviews, after[|reviews|], hostel);
    assert after == reviews + [after[|reviews|]];
  }

  /** Position of the review with id `id` written by `user`, or `|reviews|` when there is none:
      `get_object_or_404(Review, id=review_id, user=request.user)`. */
  function OwnReviewIndex(reviews: seq<Review>, id: ReviewId, user: UserId): (k: nat)
    ensures k <= |reviews|
    ensures k < |reviews| ==> reviews[k].id == id && reviews[k].user == user
    ensures forall i :: 0 <= i < k ==> !(reviews[i].id == id && reviews[i].user == user)
  {
    FirstWhere(reviews, (r: Review) => r.id == id && r.user == user)
  }

  /** `UpdateReviewView.post`: only the requester's own review can be edited; the same checks
      as adding apply; the edit sets rating and text and sends the review back for approval. */
  function UpdateReview(
    reviews: seq<Review>, id: ReviewId, user: UserId,
    rating: Option<string>, text: Option<string>): (r: Result<seq<Review>, ReviewError>)
    ensures r == Err(NotFound) <==> !(exists i :: 0 <= i < |reviews| && reviews[i].id == id && reviews[i].user == user)
    ensures r.Ok? ==> |r.value| == |reviews|
    ensures r.Ok? ==> forall i :: 0 <= i < |reviews| && reviews[i].id != id ==> r.value[i] == reviews[i]
    ensures r.Ok? ==> CheckReviewInput(rating, text).Ok?
    ensures r.Ok? ==> var input := CheckReviewInput(rating, text).value;
      exists k :: 0 <= k < |reviews| && reviews[k].id == id && reviews[k].user == user && r.value[k] == reviews[k].(rating := input.0, text := input.1, isApproved := false)
    ensures r.Err? && r.error != NotFound ==> CheckReviewInput(rating, text) == Err(r.error)
  {
    var k := OwnReviewIndex(reviews, id, user);
    if k == |reviews| then Err(NotFound)
    else
      var input := CheckReviewInput(rating, text);
      if input.Err? then Err(input.error)
      else
        var edited := reviews[k].(rating := input.value.0, text := input.value.1, isApproved := false);
        var after := reviews[k := edited];
        assert after[k] == edited;
        Ok(after)
  }

  /** An edited review stays with its author and hostel, and is no longer approved. */
  lemma UpdateReviewResetsApproval(
    reviews: seq<Review>, id: ReviewId, user: UserId, rating: Option<string>, text: Option<string>, i: int)
    requires UpdateReview(reviews, id, user, rating, text).Ok?
    requires 0 <= i < |reviews| && reviews[i].id == id && reviews[i].user == user
    ensures var after := UpdateReview(reviews, id, user, rating, text).value;
      OwnReviewIndex(reviews, id, user) == i ==>
        && after[i].user == user && after[i].hostel == reviews[i].hostel
        && !after[i].isApproved
        && 1 <= after[i].rating <= 5
  {
  }

  /** Nobody can edit another user's review. */
  lemma UpdateOthersReviewRefused(
    reviews: seq<Review>, id: ReviewId, user: UserId, rating: Option<string>, text: Option<string>)
    requires forall i :: 0 <= i < |reviews| && reviews[i].id == id ==> reviews[i].user != user
    ensures UpdateReview(reviews, id, user, rating, text) == Err(NotFound)
  {
  }

  // ---------------------------------------------------------------------------------------
  // Favourites
  // ---------------------------------------------------------------------------------------

  /** `get_object_or_404(Hostel, slug=slug)`: any hostel, visible or not. */
  function HostelBySlug(table: seq<Hostel>, slug: string): (h: Option<Hostel>)
    ensures h.Some? <==> exists i :: 0 <= i < |table| && table[i].slug == slug
    ensures h.Some? ==> h.value in table && h.value.slug == slug
  {
    if |table| == 0 then None
    else if table[0].slug == slug then Some(table[0])
    else
      var rest := HostelBySlug(table[1..], slug);
      assert forall i :: 1 <= i < |table| ==> table[i] == table[1..][i - 1];
      rest
  }

  /** `Favorite.objects.get_or_create(user=..., hostel=...)`: the table afterwards and whether
      a record was created. */
  function GetOrCreateFavorite(favorites: seq<Favorite>, fav: Favorite): (r: (seq<Favorite>, bool))
    ensures r.1 <==> fav !in favorites
    ensures fav in r.0
    ensures r.0 == if r.1 then favorites + [fav] else favorites
  {
    if fav in favorites then (favorites, false) else (favorites + [fav], true)
  }

  /** `AddToFavoritesView.post`. */
  function AddFavorite(table: seq<Hostel>, favorites: seq<Favorite>, user: UserId, slug: string)
    : (r: Option<(seq<Favorite>, bool)>)
    ensures r.None? <==> HostelBySlug(table, slug).None?
    ensures r.Some? ==> Favorite(user, HostelBySlug(table, slug).value.id) in r.value.0
  {
    var h := HostelBySlug(table, slug);
    if h.None? then None else Some(GetOrCreateFavorite(favorites, Favorite(user, h.value.id)))
  }

  /** Adding a favourite keeps the one-record-per-pair rule: at most one record before,
      exactly one after, and adding again creates nothing. */
  lemma AddFavoriteKeepsOneRecord(favorites: seq<Favorite>, fav: Favorite)
    requires multiset(favorites)[fav] <= 1
    ensures multiset(GetOrCreateFavorite(favorites, fav).0)[fav] == 1
    ensures GetOrCreateFavorite(GetOrCreateFavorite(favorites, fav).0, fav) == (GetOrCreateFavorite(favorites, fav).0, false)
  {
    if fav in favorites {
      assert fav in multiset(favorites);
    } else {
      assert multiset(favorites)[fav] == 0;
      assert multiset(favorites + [fav]) == multiset(favorites) + multiset{fav};
    }
  }

  /** `Favorite.objects.filter(user=..., hostel=...).delete()`. */
  function DeleteFavorite(favorites: seq<Favorite>, fav: Favorite): (r: seq<Favorite>)
    ensures fav !in r
    ensures forall x :: x in r <==> x in favorites && x != fav
  {
    var r := Filter(favorites, (x: Favorite) => x != fav);
    FilterMembers(favorites, (x: Favorite) => x != fav);
    r
  }

  /** `RemoveFromFavoritesView.post`. */
  function RemoveFavorite(table: seq<Hostel>, favorites: seq<Favorite>, user: UserId, slug: string)
    : (r: Option<seq<Favorite>>)
    ensures r.None? <==> HostelBySlug(table, slug).None?
    ensures r.Some? ==> Favorite(user, HostelBySlug(table, slug).value.id) !in r.value
  {
    var h := HostelBySlug(table, slug);
    if h.None? then None else Some(DeleteFavorite(favorites, Favorite(user, h.value.id)))
  }

  /** Removing twice is removing once, and removing after adding leaves no record. */
  lemma RemoveFavoriteIdempotent(favorites: seq<Favorite>, fav: Favorite)
    ensures DeleteFavorite(DeleteFavorite(favorites, fav), fav) == DeleteFavorite(favorites, fav)
    ensures fav !in DeleteFavorite(GetOrCreateFavorite(favorites, fav).0, fav)
  {
    var once := DeleteFavorite(favorites, fav);
    FilterCongruent(once, (x: Favorite) => x != fav, (x: Favorite) => true);
    FilterKeepsAll(once, (x: Favorite) => true);
  }
}
