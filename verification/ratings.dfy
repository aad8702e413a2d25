/** Rating aggregates a hostel shows on its page, computed from approved reviews only:
    the average, the count, the number of reviews per star, and the five-star strip. */
module Ratings {
  import opened Models

  /** Every stored rating is one of the choices 1..5 the rating field declares. */
  predicate ValidRatings(reviews: seq<Review>) {
    forall i :: 0 <= i < |reviews| ==> 1 <= reviews[i].rating <= 5
  }

  predicate CountsFor(r: Review, hostel: HostelId) {
    r.hostel == hostel && r.isApproved
  }

  /** Ratings of the hostel's approved reviews, in table order. */
  function ApprovedRatings(reviews: seq<Review>, hostel: HostelId): (rs: seq<int>)
    ensures |rs| <= |reviews|
    ensures ValidRatings(reviews) ==> forall i :: 0 <= i < |rs| ==> 1 <= rs[i] <= 5
  {
    if |reviews| == 0 then []
    else
      (if CountsFor(reviews[0], hostel) then [reviews[0].rating] else [])
      + ApprovedRatings(reviews[1..], hostel)
  }

  function Sum(s: seq<int>): int {
    if |s| == 0 then 0 else s[0] + Sum(s[1..])
  }

  /** Occurrences of `star` in `s`. */
  function Occurrences(s: seq<int>, star: int): nat {
    if |s| == 0 then 0 else (if s[0] == star then 1 else 0) + Occurrences(s[1..], star)
  }

  /** A sum of ratings in 1..5 lies between one and five times their number. */
  lemma {:induction false} SumBounds(s: seq<int>)
    requires forall i :: 0 <= i < |s| ==> 1 <= s[i] <= 5
    ensures |s| <= Sum(s) <= 5 * |s|
  {
    if |s| > 0 {
      SumBounds(s[1..]);
    }
  }

  /** Dividing by a positive number keeps order. */
  lemma DivMonotone(a: real, b: real, n: real)
    requires n > 0.0 && a <= b
    ensures a / n <= b / n
  {
  }

  /** A total between one and five times a positive count has its mean in 1..5. */
  lemma MeanBounds(total: real, n: real)
    requires n > 0.0 && n <= total <= 5.0 * n
    ensures 1.0 <= total / n <= 5.0
  {
    DivMonotone(n, total, n);
    DivMonotone(total, 5.0 * n, n);
    assert n / n == 1.0;
    assert (5.0 * n) / n == 5.0;
  }

  /** `Hostel.rating_count`: the number of approved reviews. */
  function RatingCount(reviews: seq<Review>, hostel: HostelId): nat {
    |ApprovedRatings(reviews, hostel)|
  }

  /** The mean of a list of ratings, zero for an empty list. */
  function Mean(rs: seq<int>): real {
    if |rs| == 0 then 0.0 else (Sum(rs) as real) / (|rs| as real)
  }

  /** The mean of ratings in 1..5 lies in 1..5. */
  lemma MeanBoundsOf(rs: seq<int>)
    ensures |rs| > 0 && (forall i :: 0 <= i < |rs| ==> 1 <= rs[i] <= 5) ==> 1.0 <= Mean(rs) <= 5.0
  {
    if |rs| > 0 && forall i :: 0 <= i < |rs| ==> 1 <= rs[i] <= 5 {
      SumBounds(rs);
      MeanBounds(Sum(rs) as real, |rs| as real);
    }
  }

  /** Python's `round(x, 1)`: the nearest multiple of a tenth, a tie going to the even tenth. */
  function RoundTenth(x: real): (r: real)
    ensures -0.05 <= r - x <= 0.05
    ensures ((r * 10.0).Floor as real) == r * 10.0
    ensures 1.0 <= x <= 5.0 ==> 1.0 <= r <= 5.0
  {
    var y := x * 10.0;
    var f := y.Floor;
    var k := if y - f as real < 0.5 then f
      else if y - f as real > 0.5 then f + 1
      else if f % 2 == 0 then f
      else f + 1;
    assert f as real <= y < f as real + 1.0;
    assert (k as real / 10.0) * 10.0 == k as real;
    k as real / 10.0
  }

  /** A value already on the grid of tenths is left as it is. */
  lemma RoundTenthOfTenth(k: int)
    ensures RoundTenth(k as real / 10.0) == k as real / 10.0
  {
    assert (k as real / 10.0) * 10.0 == k as real;
  }

  /** `Hostel.average_rating`: zero when there is no approved review, otherwise the mean of
      the approved ratings rounded to a tenth, which lies in 1..5. */
  function AverageRating(reviews: seq<Review>, hostel: HostelId): (avg: real)
    ensures RatingCount(reviews, hostel) == 0 ==> avg == 0.0
    ensures RatingCount(reviews, hostel) > 0 ==> -0.05 <= avg - Mean(ApprovedRatings(reviews, hostel)) <= 0.05
    ensures ValidRatings(reviews) && RatingCount(reviews, hostel) > 0 ==> 1.0 <= avg <= 5.0
  {
    var rs := ApprovedRatings(reviews, hostel);
    MeanBoundsOf(rs);
    if |rs| == 0 then 0.0 else RoundTenth(Mean(rs))
  }

  /** A review that is unapproved, or about another hostel, adds no rating to the list. */
  lemma {:induction false} OtherReviewSkipped(reviews: seq<Review>, extra: Review, hostel: HostelId)
    requires !CountsFor(extra, hostel)
    ensures ApprovedRatings(reviews + [extra], hostel) == ApprovedRatings(reviews, hostel)
  {
    if |reviews| == 0 {
      assert ApprovedRatings([extra][1..], hostel) == [];
    } else {
      OtherReviewSkipped(reviews[1..], extra, hostel);
      assert (reviews + [extra])[1..] == reviews[1..] + [extra];
    }
  }

  /** A review that is unapproved, or about another hostel, changes none of the aggregates. */
  lemma OtherReviewIgnored(reviews: seq<Review>, extra: Review, hostel: HostelId)
    requires !CountsFor(extra, hostel)
    ensures ApprovedRatings(reviews + [extra], hostel) == ApprovedRatings(reviews, hostel)
    ensures AverageRating(reviews + [extra], hostel) == AverageRating(reviews, hostel)
    ensures RatingDistribution(reviews + [extra], hostel) == RatingDistribution(reviews, hostel)
  {
    OtherReviewSkipped(reviews, extra, hostel);
  }

  /** An approved review of the hostel, appended to the table, adds its rating at the end
      of the list the rating properties read. */
  lemma {:induction false} ApprovedReviewCounted(reviews: seq<Review>, extra: Review, hostel: HostelId)
    requires CountsFor(extra, hostel)
    ensures ApprovedRatings(reviews + [extra], hostel) == ApprovedRatings(reviews, hostel) + [extra.rating]
  {
    if |reviews| == 0 {
      assert ApprovedRatings([extra][1..], hostel) == [];
    } else {
      ApprovedReviewCounted(reviews[1..], extra, hostel);
      assert (reviews + [extra])[1..] == reviews[1..] + [extra];
    }
  }

  lemma {:induction false} OccurrencesAppend(s: seq<int>, x: int, star: int)
    ensures Occurrences(s + [x], star) == Occurrences(s, star) + (if x == star then 1 else 0)
  {
    if |s| == 0 {
      assert [x][1..] == [];
    } else {
      OccurrencesAppend(s[1..], x, star);
      assert (s + [x])[1..] == s[1..] + [x];
    }
  }

  /** `rating_count` is the number of reviews that are approved and about the hostel. */
  lemma {:induction false} RatingCountCountsApproved(reviews: seq<Review>, hostel: HostelId)
    ensures RatingCount(reviews, hostel) == |set i | 0 <= i < |reviews| && CountsFor(reviews[i], hostel)|
  {
    if |reviews| > 0 {
      var n := |reviews| - 1;
      var init, last := reviews[..n], reviews[n];
      assert reviews == init + [last];
      RatingCountCountsApproved(init, hostel);
      if CountsFor(last, hostel) {
        ApprovedReviewCounted(init, last, hostel);
      } else {
        OtherReviewSkipped(init, last, hostel);
      }
      CountedSplit(reviews, hostel);
    }
  }

  /** The indices counted for a non-empty table: those of its prefix, and the last one if
      it counts. */
  lemma CountedSplit(reviews: seq<Review>, hostel: HostelId)
    requires |reviews| > 0
    ensures var n := |reviews| - 1;
      |set i | 0 <= i < |reviews| && CountsFor(reviews[i], hostel)| ==
      |set i | 0 <= i < n && CountsFor(reviews[..n][i], hostel)|
        + (if CountsFor(reviews[n], hostel) then 1 else 0)
  {
    var n := |reviews| - 1;
    var init := reviews[..n];
    var before := set i | 0 <= i < n && CountsFor(init[i], hostel);
    var after := set i | 0 <= i < |reviews| && CountsFor(reviews[i], hostel);
    assert forall i :: 0 <= i < n ==> init[i] == reviews[i];
    if CountsFor(reviews[n], hostel) {
      assert after == before + {n};
    } else {
      assert after == before;
    }
  }

  /** Each star's entry in the distribution is the number of reviews that are approved,
      about the hostel, and gave that star. */
  lemma DistributionCountsStar(reviews: seq<Review>, hostel: HostelId, star: int)
    requires 1 <= star <= 5
    ensures RatingDistribution(reviews, hostel)[star] ==
      |set i | 0 <= i < |reviews| && CountsFor(reviews[i], hostel) && reviews[i].rating == star|
  {
    StarCountsApproved(reviews, hostel, star);
  }

  lemma {:induction false} StarCountsApproved(reviews: seq<Review>, hostel: HostelId, star: int)
    ensures Occurrences(ApprovedRatings(reviews, hostel), star) ==
      |set i | 0 <= i < |reviews| && CountsFor(reviews[i], hostel) && reviews[i].rating == star|
  {
    if |reviews| > 0 {
      var n := |reviews| - 1;
      var init, last := reviews[..n], reviews[n];
      assert reviews == init + [last];
      StarCountsApproved(init, hostel, star);
      if CountsFor(last, hostel) {
        ApprovedReviewCounted(init, last, hostel);
        OccurrencesAppend(ApprovedRatings(init, hostel), last.rating, star);
      } else {
        OtherReviewSkipped(init, last, hostel);
      }
      GivenStarSplit(reviews, hostel, star);
    }
  }

  /** The indices counted for a non-empty table: those of its prefix, and the last one if
      it counts. */
  lemma GivenStarSplit(reviews: seq<Review>, hostel: HostelId, star: int)
    requires |reviews| > 0
    ensures var n := |reviews| - 1;
      var last := reviews[n];
      |set i | 0 <= i < |reviews| && CountsFor(reviews[i], hostel) && reviews[i].rating == star| ==
      |set i | 0 <= i < n && CountsFor(reviews[..n][i], hostel) && reviews[..n][i].rating == star|
        + (if CountsFor(last, hostel) && last.rating == star then 1 else 0)
  {
    var n := |reviews| - 1;
    var init, last := reviews[..n], reviews[n];
    var before := set i | 0 <= i < n && CountsFor(init[i], hostel) && init[i].rating == star;
    var after := set i | 0 <= i < |reviews| && CountsFor(reviews[i], hostel) && reviews[i].rating == star;
    assert forall i :: 0 <= i < n ==> init[i] == reviews[i];
    if CountsFor(last, hostel) && last.rating == star {
      assert after == before + {n};
    } else {
      assert after == before;
    }
  }

  /** `Hostel.rating_distribution`: for each star 1..5, how many approved reviews gave it. */
  function RatingDistribution(reviews: seq<Review>, hostel: HostelId): (d: map<int, nat>)
    ensures d.Keys == {1, 2, 3, 4, 5}
    ensures forall star :: star in d ==> d[star] == Occurrences(ApprovedRatings(reviews, hostel), star)
  {
    var d := map star | 1 <= star <= 5 :: Occurrences(ApprovedRatings(reviews, hostel), star);
    assert d.Keys == {1, 2, 3, 4, 5} by {
      assert 1 in d && 2 in d && 3 in d && 4 in d && 5 in d;
    }
    d
  }

  /** Ratings in 1..5 are split among the five stars with none lost. */
  lemma {:induction false} OccurrencesSumToLength(s: seq<int>)
    requires forall i :: 0 <= i < |s| ==> 1 <= s[i] <= 5
    ensures Occurrences(s, 1) + Occurrences(s, 2) + Occurrences(s, 3) + Occurrences(s, 4) + Occurrences(s, 5) == |s|
  {
    if |s| > 0 {
      OccurrencesSumToLength(s[1..]);
    }
  }

  /** The distribution's counts add up to the rating count. */
  lemma DistributionSumsToCount(reviews: seq<Review>, hostel: HostelId)
    requires ValidRatings(reviews)
    ensures var d := RatingDistribution(reviews, hostel);
      d[1] + d[2] + d[3] + d[4] + d[5] == RatingCount(reviews, hostel)
  {
    OccurrencesSumToLength(ApprovedRatings(reviews, hostel));
  }

  datatype Star = Full | Half | Empty

  /** Icon `i` (1..5) of the strip: full up to the average, half within half a star of it. */
  function StarAt(i: int, avg: real): Star {
    if i as real <= avg then Full
    else if i as real - 0.5 <= avg then Half
    else Empty
  }

  /** The five icons `Hostel.rating_stars_display` renders for an average. */
  function StarsDisplay(avg: real): (stars: seq<Star>)
    ensures |stars| == 5
  {
    seq(5, i requires 0 <= i < 5 => StarAt(i + 1, avg))
  }

  /** The strip reads full icons, then at most one half icon, then empty icons;
      for a non-negative average the full icons are exactly its whole stars, and icon i+1 is
      half exactly when the average lies in the half star below i+1. */
  lemma StarsShape(avg: real)
    ensures var stars := StarsDisplay(avg);
      && (forall i, j :: 0 <= i < j < 5 && stars[j] == Full ==> stars[i] == Full)
      && (forall i, j :: 0 <= i < j < 5 && stars[i] == Empty ==> stars[j] == Empty)
      && (forall i, j :: 0 <= i < j < 5 && stars[i] == Half ==> stars[j] == Empty)
      && (0.0 <= avg ==> forall i :: 0 <= i < 5 ==> (stars[i] == Full <==> i + 1 <= avg.Floor))
      && (forall i :: 0 <= i < 5 ==> (stars[i] == Half <==> (i + 1) as real - 0.5 <= avg < (i + 1) as real))
  {
  }

  /** The star strip of a hostel, drawn from its average rating. */
  function RatingStars(reviews: seq<Review>, hostel: HostelId): (stars: seq<Star>)
    ensures |stars| == 5
    ensures RatingCount(reviews, hostel) == 0 ==> stars == [Empty, Empty, Empty, Empty, Empty]
    ensures ValidRatings(reviews) && RatingCount(reviews, hostel) > 0 ==> stars[0] == Full
  {
    StarsDisplay(AverageRating(reviews, hostel))
  }
}
