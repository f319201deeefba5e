/** The rating annotation of TitleViewSet: the average of the scores of a
    title's reviews, kept as a sum and a count so that no rounding enters;
    a title without reviews has no rating. */
module Rating {
  import opened Outcome
  import opened Store

  /** The average `sum / count` of `count` scores. */
  datatype Mean = Mean(sum: int, count: nat)

  /** Sum and number of the scores of title `t` among the reviews whose
      keys lie below `n`. */
  function Tally(reviews: map<ReviewId, Review>, t: TitleId, n: nat): Mean
    decreases n
  {
    if n == 0 then Mean(0, 0)
    else
      var m := Tally(reviews, t, n - 1);
      if n - 1 in reviews && reviews[n - 1].title == t
      then Mean(m.sum + reviews[n - 1].score, m.count + 1)
      else m
  }

  /** The reviews of `t` whose keys lie below `n`. */
  ghost function ReviewsBelow(reviews: map<ReviewId, Review>, t: TitleId, n: nat): set<ReviewId>
  {
    set r | r in reviews && r < n && reviews[r].title == t
  }

  /** The tally counts exactly the title's reviews. */
  lemma {:induction false} TallyCountsReviews(reviews: map<ReviewId, Review>, t: TitleId, n: nat)
    ensures Tally(reviews, t, n).count == |ReviewsBelow(reviews, t, n)|
  {
    if n == 0 {
      assert ReviewsBelow(reviews, t, n) == {};
    } else {
      TallyCountsReviews(reviews, t, n - 1);
      var below := ReviewsBelow(reviews, t, n - 1);
      if n - 1 in reviews && reviews[n - 1].title == t {
        assert ReviewsBelow(reviews, t, n) == below + {n - 1};
        assert n - 1 !in below;
      } else {
        assert ReviewsBelow(reviews, t, n) == below;
      }
    }
  }

  /** With every score in range, the sum lies between count times the
      lowest and count times the highest score. */
  lemma {:induction false} TallyWithinScoreRange(reviews: map<ReviewId, Review>, t: TitleId, n: nat)
    requires forall r :: r in reviews ==> MinScore <= reviews[r].score <= MaxScore
    ensures var m := Tally(reviews, t, n); MinScore * m.count <= m.sum <= MaxScore * m.count
  {
    if n > 0 {
      TallyWithinScoreRange(reviews, t, n - 1);
    }
  }

  /** The tally reads only the reviews of `t` below `n`. */
  lemma {:induction false} TallyReadsOnlyTitle(reviews: map<ReviewId, Review>, reviews': map<ReviewId, Review>, t: TitleId, n: nat)
    requires forall r :: r < n ==> (r in reviews && reviews[r].title == t <==> r in reviews' && reviews'[r].title == t)
    requires forall r :: r < n && r in reviews && r in reviews' && reviews[r].title == t ==> reviews[r].score == reviews'[r].score
    ensures Tally(reviews, t, n) == Tally(reviews', t, n)
  {
    if n > 0 {
      TallyReadsOnlyTitle(reviews, reviews', t, n - 1);
    }
  }

  /** Some key of a non-empty set of keys is at least every other. */
  lemma {:induction false} HighestKeyExists(ids: set<ReviewId>)
    requires ids != {}
    ensures exists m :: m in ids && forall x :: x in ids ==> x <= m
    decreases ids
  {
    var y :| y in ids;
    if ids != {y} {
      HighestKeyExists(ids - {y});
      var m :| m in ids - {y} && forall x :: x in ids - {y} ==> x <= m;
      var top := if m < y then y else m;
      forall x | x in ids
        ensures x <= top
      {
        if x != y {
          assert x in ids - {y};
        }
      }
      assert top in ids;
    } else {
      assert forall x :: x in ids ==> x <= y;
    }
  }

  /** The highest key of a non-empty set of keys. */
  ghost function HighestKey(ids: set<ReviewId>): (m: ReviewId)
    requires ids != {}
    ensures m in ids && forall x :: x in ids ==> x <= m
  {
    HighestKeyExists(ids);
    var m :| m in ids && forall x :: x in ids ==> x <= m; m
  }

  /** The sum of the scores of the reviews with keys in `ids`, taken one
      key at a time from the highest down. It is a definition of the sum
      over a set that does not depend on how the tally walks the keys. */
  ghost function ScoreSum(reviews: map<ReviewId, Review>, ids: set<ReviewId>): int
    requires ids <= reviews.Keys
    decreases ids
  {
    if ids == {} then 0
    else
      var m := HighestKey(ids);
      reviews[m].score + ScoreSum(reviews, ids - {m})
  }

  /** The tally's sum is the sum of the scores of the title's reviews below
      `n`. */
  lemma {:induction false} TallySumsScores(reviews: map<ReviewId, Review>, t: TitleId, n: nat)
    ensures Tally(reviews, t, n).sum == ScoreSum(reviews, ReviewsBelow(reviews, t, n))
  {
    if n == 0 {
      assert ReviewsBelow(reviews, t, n) == {};
    } else {
      TallySumsScores(reviews, t, n - 1);
      var below := ReviewsBelow(reviews, t, n - 1);
      if n - 1 in reviews && reviews[n - 1].title == t {
        var ids := ReviewsBelow(reviews, t, n);
        assert ids == below + {n - 1};
        assert HighestKey(ids) == n - 1;
        assert ids - {n - 1} == below;
      } else {
        assert ReviewsBelow(reviews, t, n) == below;
      }
    }
  }

  /** `Avg('reviews__score')` for title `t`. */
  function RatingOf(s: Store, t: TitleId): Option<Mean>
  {
    var m := Tally(s.reviews, t, s.nextId);
    if m.count == 0 then None else Some(m)
  }

  /** The rating is absent exactly when the title has no review; otherwise
      it is the sum of the scores of the title's reviews over their number,
      and the average lies within the score range. */
  lemma RatingIsMeanOfReviews(s: Store, t: TitleId)
    requires Valid(s)
    ensures RatingOf(s, t).None? <==> ReviewsOf(s, t) == {}
    ensures RatingOf(s, t).Some? ==>
      var m := RatingOf(s, t).value;
      && m.count == |ReviewsOf(s, t)|
      && m.sum == ScoreSum(s.reviews, ReviewsOf(s, t))
      && MinScore * m.count <= m.sum <= MaxScore * m.count
  {
    TallyCountsReviews(s.reviews, t, s.nextId);
    TallySumsScores(s.reviews, t, s.nextId);
    TallyWithinScoreRange(s.reviews, t, s.nextId);
    assert ReviewsBelow(s.reviews, t, s.nextId) == ReviewsOf(s, t);
  }

  /** Adding review `r` of `t` with score `score` at the next free key adds
      the score to the tally of `t` and one to its count, and leaves every
      other title's rating as it was. */
  lemma RatingAfterNewReview(s: Store, s': Store, r: Review)
    requires KeysBelow(s)
    requires s'.reviews == s.reviews[s.nextId := r] && s'.nextId == s.nextId + 1
    ensures Tally(s'.reviews, r.title, s'.nextId) ==
      Mean(Tally(s.reviews, r.title, s.nextId).sum + r.score, Tally(s.reviews, r.title, s.nextId).count + 1)
    ensures forall t :: t != r.title ==> RatingOf(s', t) == RatingOf(s, t)
  {
    TallyReadsOnlyTitle(s.reviews, s'.reviews, r.title, s.nextId);
    forall t | t != r.title
      ensures RatingOf(s', t) == RatingOf(s, t)
    {
      TallyReadsOnlyTitle(s.reviews, s'.reviews, t, s.nextId);
    }
  }
}
