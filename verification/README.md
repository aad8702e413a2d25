# Hostel directory: a Dafny model of its rules

The repository is a Django site. Hostel owners list hostels, students search and review them,
and administrators verify, feature and moderate them. Most of it is database and template
plumbing. This project models the small deterministic rules inside that plumbing and proves
what they promise. The rules come from `hostels/models.py`, `hostels/views.py`,
`hostels/admin_views.py` and `hostels/forms.py`.

Every rule is a pure function over immutable records. A database table is a `seq` of a
`datatype` row, and the clock is an explicit `now` parameter in microseconds. The modules:

| module | file | what it holds |
|---|---|---|
| `Wrappers` | `wrappers.dfy` | `Option` and `Result` |
| `Text` | `text.dfy` | the Python string behaviours the rules use: `str.strip`, `int(...)`, `decimal.Decimal(...)` on positional text, `str(n)`, `split(',')[0]`, `icontains` |
| `Sorting` | `sorting.dfy` | filter, insertion sort by key, take: the SQL behind `filter`, `order_by` and slicing |
| `Models` | `models.dfy` | the model rows, the featured-window and subscription rules, `duration_display`, slug save, single primary image |
| `Ratings` | `ratings.dfy` | average, count, per-star distribution and the five-icon strip |
| `Listing` | `listing.dfy` | the homepage "featured, then fill to six" pick and the hostel list's filters and orders |
| `StudentViews` | `student_views.dfy` | the client-IP header parse, adding and editing a review, adding and removing a favourite |
| `AdminViews` | `admin_views.dfy` | single-hostel approve, reject and toggles; bulk hostel actions; single and bulk user actions |
| `Forms` | `forms.dfy` | replacing a hostel's facilities on save, the screenshot size limit, plan choices, the contact-name default |

A few modelling choices:

- Where the code and its own comments or documentation disagree, the model follows the code.
  - `total_amount` reads the plan's current price (hostels/models.py:557). It is not a price
    copied into the request when it was made.
  - The hostel list's rating filter averages every review of a hostel, approved or not
    (hostels/views.py:150). The hostel page's `average_rating` counts only approved reviews.
- Each `filter(...)` across a multi-valued relation (room types, facility links) is its own
  existence test, as Django joins it. So `min_price` and `max_price` may be met by different
  rooms of the same hostel.
- Uniqueness that the database enforces is stated as a precondition on the table wherever a
  property needs it. Examples are unique primary keys and the `unique_together` pairs.
- Hostel ids are UUIDs in the source. Here they are opaque integers; only equality matters.

## Model

| member | source | states |
|---|---|---|
| Models.RequestWindowInclusive | hostels/models.py:536-543 | a request that is not approved is never active; an approved request with both dates set is active at its start and at its end, and inactive one microsecond before the start or after the end |
| Models.RequestWindowConvex | hostels/models.py:536-543 | a request active at two instants is active at every instant between them |
| Models.DaysRemaining | hostels/models.py:545-552 | zero without an end date or once the end has passed; otherwise the whole days left, rounded down, so that d days ≤ end − now < d+1 days |
| Models.DaysRemainingMonotone | hostels/models.py:545-552 | the days remaining never grow as time passes |
| Models.TotalAmountFollowsPlan | hostels/models.py:554-557 | the amount is the plan's current price: changing that plan's price changes the amount, and changing another plan leaves it alone |
| Models.FirstActiveIsNewest | hostels/models.py:102-110 | if any request of the hostel is active, the newest-first scan finds one, and that one was requested no earlier than any active request |
| Models.RequestsOfBelong | hostels/models.py:105-109 | the scanned list holds only requests of that hostel, drawn from the table |
| Models.RequestActive | hostels/models.py:537-542 | a request is active iff it is approved, both dates are set, and now lies between them, bounds included |
| Models.RequestsOf | hostels/models.py:103-110 | the hostel's featured requests, newest `requested_at` first as the model's ordering (hostels/models.py:527) puts them |
| Models.FirstActive | hostels/models.py:106-110 | `.first()` of the filtered list: the position of an active request with none active before it, or the end when none is active |
| Models.TotalAmount | hostels/models.py:555-557 | a request costs the price of its plan |
| Models.CurrentFeaturedRequest | hostels/models.py:102-110 | there is a current request iff some request of the hostel is active now; it is an active request of that hostel, and the most recently requested of them |
| Models.IsCurrentlyFeatured | hostels/models.py:112-115 | holds iff some request of the hostel is approved with a window containing now |
| Models.FeaturedUntil | hostels/models.py:117-121 | present iff the hostel is currently featured; then not before now, and the end of an active request of the hostel that no other active request of it postdates |
| Models.FeaturedUntilNewest | hostels/models.py:102-121 | when one active request of the hostel was made after every other active one, the featured period ends where that request ends |
| Models.DateOf | hostels/models.py:437 | the calendar day of an instant is the day whose span contains it, so instants before midnight of day 0 fall on negative days |
| Models.DaysUntilExpiry | hostels/models.py:440-447 | absent iff there is no end date; otherwise today plus the result is the end date, so the result is negative after expiry |
| Models.SubscriptionActiveIffDaysLeft | hostels/models.py:432-447 | a subscription is active iff its status is active, an end date is set, and the days until expiry are not negative |
| Models.SubscriptionIsActive | hostels/models.py:433-438 | a subscription is active iff its status is active, an end date is set, and today is not after it |
| Models.VerificationExpired | hostels/models.py:402-406 | a token is expired iff now is later than 24 hours after its creation |
| Models.VerificationExpiryBoundary | hostels/models.py:401-406 | a token is still valid exactly 24 hours after creation, expired one microsecond later, and expired at every later instant |
| Models.DurationDisplayRoundTrip | hostels/models.py:473-483 | reading a label back gives the duration it was made from: "1 Day", "1 Week" and "1 Month" for 1, 7 and 30, and "n Days" for any other n |
| Models.DurationDisplayInjective | hostels/models.py:473-483 | different durations get different labels |
| Models.DurationDisplay | hostels/models.py:474-483 | 1, 7 and 30 days read "1 Day", "1 Week" and "1 Month"; any other number n reads "n Days" |
| Models.SaveHostel | hostels/models.py:75-78 | saving changes nothing but the slug, and keeps a non-empty slug as it is |
| Models.SaveHostelIdempotent | hostels/models.py:75-78 | saving a saved hostel again changes nothing |
| Models.ClearPrimary | hostels/models.py:231-232 | the update clears the primary flag on every image of the hostel, and leaves ids, hostels and other hostels' images unchanged |
| Models.UpsertImage | hostels/models.py:233 | the saved image is in the table; an image with a new id is appended, and other images keep their positions |
| Models.SavePrimaryIsSolePrimary | hostels/models.py:229-233 | after saving an image marked primary, it is the only primary image of its hostel, and other hostels' images are untouched |
| Models.SaveImageKeepsSinglePrimary | hostels/models.py:229-233 | saving any image keeps ids unique and keeps at most one primary image per hostel |
| Models.SaveImage | hostels/models.py:229-233 | saving a primary image first clears the flag on the hostel's other images, then stores the image |
| Ratings.ApprovedRatings | hostels/models.py:125-126 | the approved ratings of the hostel are no more than its reviews, and lie in 1..5 when every stored rating does |
| Ratings.ApprovedReviewCounted | hostels/models.py:125-126 | an approved review of the hostel, appended to the table, adds its rating at the end of the approved ratings |
| Ratings.RatingCountCountsApproved | hostels/models.py:132-135 | the rating count is the number of reviews that are approved and about the hostel |
| Ratings.RatingCount | hostels/models.py:132-135 | the number of approved ratings of the hostel; `Ratings.RatingCountCountsApproved` states which reviews these are |
| Ratings.DistributionCountsStar | hostels/models.py:137-144 | each star's count is the number of reviews that are approved, about the hostel, and gave that star |
| Ratings.RoundTenth | hostels/models.py:129 | `round(x, 1)` gives a multiple of a tenth within a twentieth of x, and keeps a value in 1..5 in 1..5 |
| Ratings.RoundTenthOfTenth | hostels/models.py:129 | rounding leaves a multiple of a tenth unchanged |
| Ratings.AverageRating | hostels/models.py:123-130 | zero with no approved review; otherwise within a twentieth of the mean approved rating, and in 1..5 when the ratings respect their 1..5 choices (hostels/models.py:281) |
| Ratings.OtherReviewSkipped | hostels/models.py:125-126 | an unapproved review, or one of another hostel, adds nothing to the approved ratings |
| Ratings.OtherReviewIgnored | hostels/models.py:123-144 | such a review leaves the average, the ratings and the distribution unchanged |
| Ratings.RatingDistribution | hostels/models.py:137-144 | the keys are exactly the stars 1..5 |
| Ratings.DistributionSumsToCount | hostels/models.py:132-144 | the five counts add up to the rating count |
| Ratings.StarsShape | hostels/models.py:146-159 | full icons form a prefix, empty icons a suffix, and a half icon is followed only by empty ones; for a non-negative average, icon i is full iff i is at most its whole part; icon i is half iff i − 0.5 ≤ average < i |
| Ratings.StarAt | hostels/models.py:152-158 | icon i is full when i is at most the average, half when i − 0.5 is, and empty otherwise |
| Ratings.StarsDisplay | hostels/models.py:146-159 | the strip has exactly five icons; `Ratings.StarsShape` states which are full, half and empty |
| Ratings.RatingStars | hostels/models.py:146-159 | five icons; all empty with no approved review; the first full when there are approved reviews and the stored ratings are in 1..5 |
| Listing.Newest | hostels/views.py:79 | the newest-first order is a permutation of the rows, ascending in the newest-first key |
| Listing.NewestWhere | hostels/views.py:77-79 | the selected rows are exactly those meeting the filter, newest first |
| Listing.FeaturedPick | hostels/views.py:77-79 | at most six hostels, each from the table, featured, verified and active |
| Listing.FillerPick | hostels/views.py:84-88 | at most 6 − (featured count) hostels, each visible and not among the featured pick |
| Listing.HomeFeatured | hostels/views.py:76-90 | at most six hostels, all from the table, verified and active |
| Listing.ShortPickIsComplete | hostels/views.py:77-82 | when fewer than six featured hostels are picked, every featured visible hostel is picked |
| Listing.FillerIsPlain | hostels/views.py:84-88 | filler hostels are never featured |
| Listing.FullPickIsNewest | hostels/views.py:77-79 | a full pick is the six newest featured visible hostels |
| Listing.HomeFeaturedShape | hostels/views.py:76-90 | the page is the featured pick, newest first, then non-featured filler, newest first; filler appears only when fewer than six hostels are featured, and then all featured hostels are shown |
| Listing.HomeFeaturedTopSix | hostels/views.py:76-90 | a featured visible hostel left off the page is outranked by six featured hostels, none older than it |
| Listing.HomeFeaturedNoDuplicates | hostels/views.py:84-90 | with unique ids in the table, no hostel appears twice |
| Listing.ShortPickSplitsVisible | hostels/views.py:84-88 | with a short pick, each visible hostel is either featured or outside the pick, never both |
| Listing.HomeFeaturedSize | hostels/views.py:76-90 | with unique ids, the page shows min(6, number of visible hostels) hostels |
| Listing.ParseIds | hostels/views.py:136-138 | the facility ids read iff every one reads as an integer, and then they are those integers in order |
| Listing.DistanceBoundAsWritten | hostels/views.py:119-125 | as written, a given `max_distance` that `Decimal` cannot read is an error |
| Listing.DistanceBound | hostels/views.py:119-125 | as intended, a bound is used iff `max_distance` is given and reads as a decimal, and then it is that decimal |
| Listing.PriceBound | hostels/views.py:128-133 | a given price the decimal column cannot read is an error; otherwise the bound is its value |
| Text.ParseInt | hostels/views.py:818 | `int(text)`: stripped text with an optional sign and ASCII digits reads as that integer; other text reads as nothing |
| Text.ParseDecimal | hostels/views.py:122 | `Decimal(text)` on positional notation: an optional sign, digits and at most one point read as that decimal; other text reads as nothing |
| Listing.CriteriaWith | hostels/views.py:106-152 | reading the parameters fails iff a price or a facility id does not read; the rating filter is present iff `min_rating` is given and reads as an integer |
| Listing.RatedAtLeast | hostels/views.py:146-152 | a hostel passes the rating filter iff it has reviews and their mean (SQL `Avg`, over all its reviews) is at least the bound |
| Listing.Matches | hostels/views.py:106-152 | a hostel meets the criteria iff it is visible and meets each filter that is given |
| Listing.Narrow | hostels/views.py:104-152 | the view's chain of filters, applied one after another in its order |
| Listing.NarrowExact | hostels/views.py:104-152 | the chained filters keep exactly the visible hostels that meet every given criterion |
| Listing.FeaturedFirst | hostels/views.py:156-157 | the featured order holds exactly the filtered hostels |
| Listing.Arrange | hostels/views.py:154-167 | every order keeps exactly the filtered hostels, except `distance`, which also drops hostels with no distance |
| Listing.ArrangeFeaturedShape | hostels/views.py:156-157 | the `featured` order puts every featured hostel before every other, each part newest first |
| Listing.ArrangeDistanceSorted | hostels/views.py:162-163 | the `distance` order is nearest first |
| Listing.ListWith | hostels/views.py:103-169 | every listed hostel is verified and active |
| Listing.ListHostelsAsWritten | hostels/views.py:103-169 | the view as written lists only verified, active hostels |
| Listing.ListHostels | hostels/views.py:103-169 | whatever the parameters, every listed hostel is verified and active; the view fails iff a price or a facility id does not read |
| Listing.ListHostelsMembers | hostels/views.py:103-169 | the list holds exactly the table's hostels meeting every criterion, and for `distance` only those with a distance |
| Listing.UnreadableMinRatingIgnored | hostels/views.py:146-152 | an unreadable `min_rating` gives the same list as no `min_rating` |
| Listing.UnreadableDistanceIgnored | hostels/views.py:119-125 | with the intended guard, an unreadable `max_distance` gives the same list as no `max_distance` |
| Listing.UnreadableDistanceFailsAsWritten | hostels/views.py:119-125 | as written, `max_distance=abc` ends the request with an error whatever else is asked |
| Listing.ListVersionsAgree | hostels/views.py:119-125 | where `max_distance` is absent or reads, the view as written and the intended view give the same list |
| StudentViews.ClientIp | hostels/views.py:266-272 | with an empty or missing `X-Forwarded-For`, the address is `REMOTE_ADDR`; otherwise it is the longest comma-free prefix of the header |
| StudentViews.ClientIpSingle | hostels/views.py:266-272 | a header without a comma is taken whole |
| StudentViews.ClientIpChain | hostels/views.py:266-272 | from a chain of addresses, the first one is taken |
| StudentViews.VisibleBySlug | hostels/views.py:807 | a hostel is found iff one with the slug is verified and active |
| StudentViews.CheckReviewInput | hostels/views.py:817-831 | checks in order: the rating must read as an integer, then lie in 1..5, then the stripped text must have at least ten characters; each error iff the earlier checks pass and its own fails |
| StudentViews.AddReview | hostels/views.py:806-851 | the hostel must be visible, then the user must not have reviewed it, then the input must pass; success appends one unapproved review with the parsed rating and stripped text |
| StudentViews.AddReviewTwiceRefused | hostels/views.py:810-815 | a second review of the same hostel by the same user is refused |
| StudentViews.NonIntegerRatingRefused | hostels/views.py:818-851 | a rating that does not read as an integer is refused as invalid |
| StudentViews.AddReviewKeepsRatings | hostels/views.py:834-840 | a new review leaves the hostel's average, count and distribution unchanged until approved |
| StudentViews.UpdateReview | hostels/views.py:862-901 | not found iff the user has no review with that id; other errors are exactly the input checks; success changes only that review's rating and text and clears its approval |
| StudentViews.UpdateReviewResetsApproval | hostels/views.py:881-885 | an edited review keeps its author and hostel, has a rating in 1..5 and is unapproved |
| StudentViews.UpdateOthersReviewRefused | hostels/views.py:863 | a user cannot edit someone else's review |
| StudentViews.HostelBySlug | hostels/views.py:542 | a hostel is found iff one has the slug, visible or not |
| StudentViews.GetOrCreateFavorite | hostels/views.py:543-545 | creates iff the pair is missing; afterwards the pair is present |
| StudentViews.AddFavorite | hostels/views.py:540-552 | fails iff there is no hostel with the slug; otherwise the user's favourite of it is present |
| StudentViews.AddFavoriteKeepsOneRecord | hostels/models.py:270-271 | adding a favourite leaves exactly one record of the pair, and adding it again creates nothing |
| StudentViews.DeleteFavorite | hostels/views.py:558 | the pair is gone and every other favourite stays |
| StudentViews.RemoveFavorite | hostels/views.py:555-560 | fails iff there is no hostel with the slug; otherwise the user's favourite of it is gone |
| StudentViews.RemoveFavoriteIdempotent | hostels/views.py:558 | removing twice is removing once, and removing after adding leaves no record |
| AdminViews.EditWhere | hostels/admin_views.py:21-23 | the edit applies to the rows with the id and leaves every other row unchanged |
| AdminViews.IsAdmin | hostels/admin_views.py:9-13 | a request passes the permission mixin iff it comes from a signed-in user who is an administrator or a superuser |
| AdminViews.EditHostel | hostels/admin_views.py:16-33 | refused iff the requester is not an administrator or superuser; not found iff there is no such hostel; otherwise the edit and then `save()` are applied to the rows with the id, and every other row is unchanged |
| AdminViews.ApproveHostel | hostels/admin_views.py:19-23 | fails iff the requester is not an administrator or the hostel is missing; otherwise sets `is_verified`, fills a blank slug on save, and changes nothing else in the hostel or any other row |
| AdminViews.RejectHostel | hostels/admin_views.py:39-46 | fails iff the requester is not an administrator, the body is neither empty nor a JSON object (a 400 then, before the lookup), or the hostel is missing; otherwise clears `is_active`, fills a blank slug on save, and changes nothing else in the hostel or any other row |
| AdminViews.RejectIgnoresReason | hostels/admin_views.py:41-48 | the reason only has to be readable: any two reasons, and an empty body, give the same outcome |
| AdminViews.ToggleFeatured | hostels/admin_views.py:65-69 | fails iff the requester is not an administrator or the hostel is missing; otherwise negates `is_featured`, fills a blank slug on save, and changes nothing else in the hostel or any other row |
| AdminViews.ToggleActive | hostels/admin_views.py:86-90 | fails iff the requester is not an administrator or the hostel is missing; otherwise negates `is_active`, fills a blank slug on save, and changes nothing else in the hostel or any other row |
| AdminViews.ToggleFeaturedTwice | hostels/admin_views.py:65-69 | toggling featured twice leaves each hostel as one `save()` leaves it, so a table whose hostel has a slug is restored |
| AdminViews.ToggleActiveTwice | hostels/admin_views.py:86-90 | toggling active twice leaves each hostel as one `save()` leaves it, so a table whose hostel has a slug is restored |
| AdminViews.ApproveIdempotent | hostels/admin_views.py:19-23 | approving twice is approving once |
| AdminViews.BulkHostelAction | hostels/admin_views.py:107-158 | refused without permission; missing input iff the action or the id list is empty; invalid iff the action is unknown; otherwise the listed hostels get the action's update, others are unchanged, `delete` removes exactly the listed ones, and the count is the number listed and present |
| AdminViews.BulkHostelRefusalChangesNothing | hostels/admin_views.py:113-152 | no action, no ids, or an unknown action yields an error and no new table |
| AdminViews.BulkRejectHides | hostels/admin_views.py:124-126 | bulk reject clears both `is_active` and `is_verified` on the listed hostels and changes nothing else |
| AdminViews.BulkDeleteCount | hostels/admin_views.py:139-147 | the reported count plus the rows left equals the rows before |
| AdminViews.UserIndex | hostels/admin_views.py:271 | the lookup finds a user with the id iff one exists |
| AdminViews.WithoutUser | hostels/admin_views.py:287 | deleting a user keeps exactly the users with other ids |
| AdminViews.DeleteUser | hostels/admin_views.py:269-297 | refused without permission; not found iff no such user; a superuser is refused; then the requester's own account is refused; otherwise exactly that user is removed |
| AdminViews.DeleteUserSparesProtected | hostels/admin_views.py:273-284 | with unique ids, a successful delete never removes a superuser or the requester |
| AdminViews.BulkUserAction | hostels/admin_views.py:303-340 | the same refusals as bulk hostel actions; `delete` and `deactivate` skip superusers and the requester, `activate` does not; the count is the number of targeted users |
| AdminViews.BulkUserSparesProtected | hostels/admin_views.py:317-319 | bulk `delete` and `deactivate` leave superusers and the requester untouched |
| AdminViews.BulkActivateReachesSuperusers | hostels/admin_views.py:321-322 | bulk `activate` does reactivate a listed superuser |
| Forms.GetOrCreateFacility | hostels/forms.py:191-193 | an existing facility with that name is reused and the table is unchanged; otherwise one with the fresh id is appended |
| Forms.NewFacilityName | hostels/forms.py:180-192 | a new facility is named iff the field is given and not all whitespace, and the name is the stripped field |
| Forms.FullName | hostels/forms.py:607 | `get_full_name()`: first and last name joined by a space, then stripped |
| Forms.SaveFacilities | hostels/forms.py:174-196 | without `commit` the facility tables are untouched |
| Forms.Relinked | hostels/forms.py:183-187 | after clearing and re-adding, the hostel is linked exactly to the selected facilities and other hostels keep their links |
| Forms.SaveFacilitiesLinks | hostels/forms.py:177-194 | after a committed save the hostel is linked exactly to the selected facilities plus the new one, and every other hostel keeps exactly its links |
| Forms.SaveFacilitiesDropsUnselected | hostels/forms.py:183 | a facility linked before but neither selected nor new is unlinked |
| Forms.SaveFacilitiesReusesByName | hostels/forms.py:190-194 | a new facility whose stripped name exists reuses that facility and adds no facility |
| Forms.SaveFacilitiesNoDuplicateLinks | hostels/forms.py:183-194 | with no duplicate links and distinct selected facilities before, the save creates no duplicate (hostel, facility) link |
| Forms.CheckScreenshot | hostels/forms.py:638-643 | rejected iff a file is given and larger than 5·1024·1024 bytes; otherwise the file is returned as given |
| Forms.ScreenshotLimitBoundary | hostels/forms.py:638-643 | exactly 5 242 880 bytes and no file are accepted; 5 242 881 bytes is rejected |
| Forms.ActivePlanChoices | hostels/forms.py:603 | the choices are exactly the active plans, in ascending duration (hostels/models.py:468) |
| Forms.ContactNameDefault | hostels/forms.py:606-607 | a default exists iff a user is given |
| Forms.ContactNameFallback | hostels/forms.py:607 | the default is the username when both names are blank, and the stripped full name otherwise |
| Text.Strip | hostels/views.py:819 | `str.strip()` removes exactly the leading and trailing whitespace, and is empty iff the text is all whitespace |
| Text.StripIdempotent | hostels/forms.py:192 | stripping an already stripped name changes nothing |
| Text.ParseFormatInt | hostels/views.py:818 | `int(str(n)) == n` for every integer |
| Text.BeforeFirst | hostels/views.py:269 | `split(',')[0]` is a comma-free prefix that is the whole text or stops at the first comma |
| Text.ParseDecimalOfInt | hostels/views.py:122 | integer text reads as the same decimal |
| Text.ParseDecimalRejectsLetters | hostels/views.py:122 | `abc` is not a decimal |

## Left out

- HTTP, JSON and ORM plumbing is not modelled. Requests, JSON bodies, messages, redirects and
  templates are replaced by parameters and `Result` values.
- AdminViews.BulkHostelAction: takes its ids already read as hostel ids. In the source a
  malformed JSON body, a `hostel_ids` that is not a list, or an entry that is not a UUID makes
  `Hostel.objects.filter(id__in=hostel_ids)` (`hostels/admin_views.py:119`) or the JSON
  parser raise. The `except Exception` branch then answers 400 and no row changes. The
  model has no such error.
- AdminViews.BulkUserAction: takes its ids already read as user ids. In the source a
  malformed JSON body, or an entry of `user_ids` that is not an integer, raises in
  `User.objects.filter(id__in=user_ids)` (`hostels/admin_views.py:315`). The answer is
  then 400 and no row changes. The model has no such error.
- Pagination of the hostel list (12 per page) is left out; the model returns the whole list.
- The `price_low`, `price_high` and `rating` orders of the hostel list are not modelled.
  They depend on SQL join duplication before `distinct()` and on where the database puts NULLs.
  For them the model states only that the filtered hostels are kept (`Listing.Arrange`).
- Listing.ListHostels: the model states membership and the `featured` and `distance` orders.
  Ties in `created_at` or distance are broken by the insertion sort here, and by the database
  in the source.
- Listing.HomeFeatured: the home page's `order_by('-created_at')[:6]`
  (`hostels/views.py:77-79`) leaves `created_at` ties to the database as well. The model
  breaks them by table order, and `Listing.FullPickIsNewest` and
  `Listing.HomeFeaturedTopSix` are stated for that order.
- The `updated_at` timestamps that `save()` writes (`auto_now=True`,
  `hostels/models.py:64`) are not modelled; the hostel record has no such field. So
  "changes nothing else" in the single-hostel admin views, and "restores the table" in
  `AdminViews.ToggleFeaturedTwice` and `AdminViews.ToggleActiveTwice`, hold up to that
  timestamp.
- Text.ParseDecimal: reads positional notation with the ASCII digits `0`-`9` only. Python's
  `Decimal` also accepts an exponent (`1e3`), `NaN`, `Infinity`, digit-group underscores and
  the decimal digits of other scripts (`'١٢'`). The model treats such text as unreadable.
  This touches `max_distance` and the prices of the hostel list (`hostels/views.py:122`,
  `:130-133`).
- Text.ParseInt: reads the ASCII digits `0`-`9` only. Python's `int` also accepts
  digit-group underscores and the decimal digits of other scripts (`int('٥') == 5`,
  `int('１０') == 10`); the model reads these as `None`. In the other direction, CPython
  3.11 and later refuse text of more than 4300 digits with a `ValueError`, and the model
  reads that text as a number. So a 5000-digit `rating` (`hostels/views.py:818`, `:866`) is
  `InvalidRating` in the source and `RatingOutOfRange` in the model. A 5000-digit
  `min_rating` (`:148-150`) skips the rating filter in the source and filters in the model.
  Facility ids (`:137`) are read the same way.
- `icontains` folds case for ASCII letters only, as SQLite's `LIKE` does. Case folding of other
  letters is left out.
- Ratings.AverageRating: Python rounds the binary floating-point quotient. The model rounds the
  exact quotient half to even. The two can differ on a tie that the float cannot represent
  exactly.
- Models.CurrentFeaturedRequest: the source reads `timezone.now()` twice, once per bound. The
  model uses one instant for both.
- `slugify` is a parameter, not a model of Django's function (`Models.SaveHostel`, and the four single-hostel admin views, which call `save()`). The bulk actions use `update()`, which does not save, so they leave slugs as they are.
- The featured-request transition handlers (approve, reject, expiry sweep, history) are routed
  in `hostels/urls.py`, but `hostels/views.py` does not define them. So there is no code to
  model.
- The owner's hostel add, edit and delete views, image formsets, the hostel detail view, the
  contact reveal counter and page views are left out. So are the single-hostel
  `DeleteHostelView`, review deletion and review moderation. These are plain CRUD or counters.
- Cascading deletes are left out. A deleted user's or hostel's dependent rows stay in the
  other tables of the model.
- CSV export, JSON backup and the mock geocoder are left out; they are I/O or stubs.
- Dashboards and analytics are left out; they are plain counts.
- `hostels/admin.py`, `hostels/urls.py` and the management commands and scripts are left out.
  They are registration, routing and seed data.
- `FeaturedRequestForm` contact e-mail and phone defaults are left out; they copy fields as
  they are.

## Findings

| source | as written | input that shows it | evidently intended | confidence | as-written member | corrected member |
|---|---|---|---|---|---|---|
| hostels/views.py:119-125 | `Decimal(max_distance)` is guarded by `except (ValueError, TypeError)`. Unreadable text raises `decimal.InvalidOperation`, an `ArithmeticError` that this handler does not catch, so the request fails with a server error | `?max_distance=abc` | an unreadable distance skips the filter, as an unreadable `min_rating` does | not executed | Listing.ListHostelsAsWritten | Listing.ListHostels |
