/** ReviewViewSet of api/views.py with ReviewSerializer: the reviews of a
    title, listed, created, edited and deleted under the title's URL. */
module Reviews {
  import opened Outcome
  import opened Accounts
  import opened Store
  import opened Fields
  import opened Permissions
  import opened Requests
  import Cascade
  import Rating

  /** A request body: each field is absent or a submitted value. */
  datatype ReviewBody = ReviewBody(text: Option<string>, score: Option<int>)

  /** The serializer's fields: on a create or a full update both are
      required; on a partial update each may be absent. */
  ghost predicate BodyAcceptable(b: ReviewBody, partial: bool)
  {
    && (b.text.None? ==> partial)
    && (b.text.Some? ==> 0 < |b.text.value| <= MaxTextLength)
    && (b.score.None? ==> partial)
    && (b.score.Some? ==> MinScore <= b.score.value <= MaxScore)
  }

  function ValidateBody(b: ReviewBody, partial: bool): (r: Result<ReviewBody>)
    ensures r.Ok? <==> BodyAcceptable(b, partial)
    ensures r.Ok? ==> r.value == b
  {
    var text :- CheckText(b.text, !partial);
    var score :- CheckScore(b.score, !partial);
    Ok(ReviewBody(text, score))
  }

  predicate IsReviewBy(rv: Review, t: TitleId, a: UserId)
  {
    rv.title == t && rv.author == a
  }

  ghost predicate Reviewed(s: Store, t: TitleId, a: UserId)
  {
    exists j :: j in s.reviews && s.reviews[j].title == t && s.reviews[j].author == a
  }

  /** `Review.objects.filter(title=title, author=author)`, first row. */
  function ReviewBy(s: Store, t: TitleId, a: UserId): (r: Option<ReviewId>)
    requires KeysBelow(s)
    ensures r.Some? ==> r.value in s.reviews && s.reviews[r.value].title == t && s.reviews[r.value].author == a
    ensures r.None? <==> !Reviewed(s, t, a)
  {
    FirstMatch(s.reviews, (rv: Review) => IsReviewBy(rv, t, a), s.nextId)
  }

  /** The store with review `rv` added under the next free key. */
  function AddReview(s: Store, rv: Review): (s': Store)
    ensures s'.reviews == s.reviews[s.nextId := rv] && s'.nextId == s.nextId + 1
    ensures s'.users == s.users && s'.titles == s.titles && s'.comments == s.comments
    ensures s'.categories == s.categories && s'.genres == s.genres && s'.genreTitles == s.genreTitles
  {
    Store(s.users, s.categories, s.genres, s.titles, s.genreTitles, s.reviews[s.nextId := rv], s.comments, s.nextId + 1)
  }

  /** A review whose author and title exist, whose score is in range and
      whose author has not yet reviewed the title keeps the store valid. */
  lemma AddReviewKeepsValid(s: Store, rv: Review)
    requires Valid(s)
    requires rv.author in s.users && rv.title in s.titles && MinScore <= rv.score <= MaxScore
    requires !Reviewed(s, rv.title, rv.author)
    ensures Valid(AddReview(s, rv))
  {
    AddReviewKeepsLinks(s, rv);
    AddReviewKeepsUnique(s, rv);
  }

  lemma AddReviewKeepsLinks(s: Store, rv: Review)
    requires KeysBelow(s) && ForeignKeysResolve(s) && FieldBounds(s)
    requires rv.author in s.users && rv.title in s.titles && MinScore <= rv.score <= MaxScore
    ensures var s' := AddReview(s, rv); KeysBelow(s') && ForeignKeysResolve(s') && FieldBounds(s')
  {
    var s' := AddReview(s, rv);
    assert KeysBelow(s');
    assert FieldBounds(s');
  }

  lemma AddReviewKeepsUnique(s: Store, rv: Review)
    requires UniqueColumns(s) && KeysBelow(s) && !Reviewed(s, rv.title, rv.author)
    ensures UniqueColumns(AddReview(s, rv))
  {
    assert forall j :: j in s.reviews ==> !IsReviewBy(s.reviews[j], rv.title, rv.author);
  }

  /** GET on the reviews of title `t`: exactly the reviews of that title, or
      not found when the title does not exist. */
  function ListReviews(s: Store, req: Requester, t: TitleId): (r: Result<set<ReviewId>>)
    ensures req.Bearer? && req.id !in s.users ==> r == Fail(Denied)
    ensures (req.Guest? || req.id in s.users) && t !in s.titles ==> r == Fail(NotFound)
    ensures r.Ok? ==> t in s.titles && forall j :: j in r.value <==> j in s.reviews && s.reviews[j].title == t
    ensures (req.Guest? || req.id in s.users) && t in s.titles ==> r.Ok?
  {
    var p :- Authenticate(s, req);
    if !ModerOrAuthorView(Get, p) then Fail(Denied)
    else if t !in s.titles then Fail(NotFound)
    else Ok(ReviewsOf(s, t))
  }

  /** POST of a review of title `t`. The permission check refuses the
      anonymous user; the fields are checked; `validate` finds the title or
      answers not found, and refuses a second review by the same author;
      `perform_create` stores the review with the requester as author and
      the URL's title. */
  function PostReview(s: Store, req: Requester, t: TitleId, b: ReviewBody): (st: Step<ReviewId>)
    requires Valid(s)
    ensures req.Guest? || req.id !in s.users ==> st == Step(s, Fail(Denied))
    ensures st.result.Fail? ==> st.store == s
    ensures st.result.Ok? <==>
      req.Bearer? && req.id in s.users && BodyAcceptable(b, false) && t in s.titles && !Reviewed(s, t, req.id)
    ensures req.Bearer? && req.id in s.users && BodyAcceptable(b, false) && t !in s.titles ==>
      st.result == Fail(NotFound)
    ensures req.Bearer? && req.id in s.users && BodyAcceptable(b, false) && t in s.titles && Reviewed(s, t, req.id) ==>
      st.result == Fail(Invalid(DuplicateReview))
    ensures st.result.Ok? ==>
      && st.result.value == s.nextId
      && st.store == AddReview(s, Review(req.id, t, b.text.value, b.score.value))
  {
    match Authenticate(s, req)
    case Fail(f) => Step(s, Fail(f))
    case Ok(p) =>
      if !ModerOrAuthorView(Post, p) then Step(s, Fail(Denied))
      else match ValidateBody(b, false)
        case Fail(f) => Step(s, Fail(f))
        case Ok(_) =>
          if t !in s.titles then Step(s, Fail(NotFound))
          else if ReviewBy(s, t, p.id).Some? then Step(s, Fail(Invalid(DuplicateReview)))
          else Step(AddReview(s, Review(p.id, t, b.text.value, b.score.value)), Ok(s.nextId))
  }

  lemma PostReviewKeepsValid(s: Store, req: Requester, t: TitleId, b: ReviewBody)
    requires Valid(s)
    ensures Valid(PostReview(s, req, t, b).store)
  {
    var st := PostReview(s, req, t, b);
    if st.result.Ok? {
      AddReviewKeepsValid(s, Review(req.id, t, b.text.value, b.score.value));
    }
  }

  /** After a review is posted the author cannot post a second one for the
      same title. */
  lemma SecondReviewRefused(s: Store, k: UserId, t: TitleId, b: ReviewBody, b': ReviewBody)
    requires Valid(s) && PostReview(s, Bearer(k), t, b).result.Ok?
    requires BodyAcceptable(b', false)
    ensures var s1 := PostReview(s, Bearer(k), t, b).store;
      Valid(s1) && PostReview(s1, Bearer(k), t, b') == Step(s1, Fail(Invalid(DuplicateReview)))
  {
    var s1 := PostReview(s, Bearer(k), t, b).store;
    PostReviewKeepsValid(s, Bearer(k), t, b);
    assert s1.reviews[s.nextId].title == t && s1.reviews[s.nextId].author == k;
  }

  /** A posted review adds its score to its title's rating and changes no
      other title's rating. */
  lemma PostReviewUpdatesRating(s: Store, req: Requester, t: TitleId, b: ReviewBody)
    requires Valid(s) && PostReview(s, req, t, b).result.Ok?
    ensures var s' := PostReview(s, req, t, b).store;
      && Rating.Tally(s'.reviews, t, s'.nextId) ==
           Rating.Mean(Rating.Tally(s.reviews, t, s.nextId).sum + b.score.value,
                       Rating.Tally(s.reviews, t, s.nextId).count + 1)
      && forall t' :: t' != t ==> Rating.RatingOf(s', t') == Rating.RatingOf(s, t')
  {
    var s' := PostReview(s, req, t, b).store;
    Rating.RatingAfterNewReview(s, s', Review(req.id, t, b.text.value, b.score.value));
  }

  /** The review `r` as `get_object` finds it under title `t`: not found
      when the title is missing or `r` is not one of its reviews. */
  function FindReview(s: Store, t: TitleId, r: ReviewId): (x: Result<Review>)
    ensures x.Ok? <==> t in s.titles && r in s.reviews && s.reviews[r].title == t
    ensures x.Ok? ==> x.value == s.reviews[r]
    ensures x.Fail? ==> x.failure == NotFound
  {
    if t !in s.titles || r !in s.reviews || s.reviews[r].title != t then Fail(NotFound)
    else Ok(s.reviews[r])
  }

  /** Who may change review `r`: the view check, then the object check on
      its author. */
  function MayChange(s: Store, req: Requester, m: Method, t: TitleId, r: ReviewId): (x: Result<Review>)
    requires !IsSafe(m)
    ensures x.Ok? <==>
      && req.Bearer? && req.id in s.users
      && t in s.titles && r in s.reviews && s.reviews[r].title == t
      && (IsAdmin(s.users[req.id]) || IsModer(s.users[req.id]) || req.id == s.reviews[r].author)
    ensures x.Ok? ==> x.value == s.reviews[r]
    ensures req.Guest? || req.id !in s.users ==> x == Fail(Denied)
    ensures req.Bearer? && req.id in s.users && x.Fail? && !(t in s.titles && r in s.reviews && s.reviews[r].title == t) ==>
      x == Fail(NotFound)
  {
    var p :- Authenticate(s, req);
    if !ModerOrAuthorView(m, p) then Fail(Denied)
    else
      var rv :- FindReview(s, t, r);
      if !ModerOrAuthorGate(m, p, rv.author) then Fail(Denied) else Ok(rv)
  }

  /** `rv` with the supplied fields of a validated body. */
  function Revise(rv: Review, b: ReviewBody): (rv': Review)
    ensures rv'.author == rv.author && rv'.title == rv.title
    ensures rv'.text == (if b.text.Some? then b.text.value else rv.text)
    ensures rv'.score == (if b.score.Some? then b.score.value else rv.score)
  {
    Review(rv.author, rv.title,
           if b.text.Some? then b.text.value else rv.text,
           if b.score.Some? then b.score.value else rv.score)
  }

  /** The store with review `r` replaced by `rv`. */
  function PutReview(s: Store, r: ReviewId, rv: Review): (s': Store)
    ensures s'.reviews == s.reviews[r := rv] && s'.nextId == s.nextId
    ensures s'.users == s.users && s'.titles == s.titles && s'.comments == s.comments
    ensures s'.categories == s.categories && s'.genres == s.genres && s'.genreTitles == s.genreTitles
  {
    Store(s.users, s.categories, s.genres, s.titles, s.genreTitles, s.reviews[r := rv], s.comments, s.nextId)
  }

  /** PUT (full) or PATCH (partial) of review `r` under title `t`. The
      duplicate check applies to POST only, so an edit never meets it; the
      author and the title of the review stay as they were. */
  function EditReview(s: Store, req: Requester, partial: bool, t: TitleId, r: ReviewId, b: ReviewBody): (st: Step<Review>)
    requires Valid(s)
    ensures st.result.Fail? ==> st.store == s
    ensures st.result != Fail(Invalid(DuplicateReview))
    ensures st.result.Ok? <==>
      MayChange(s, req, if partial then Patch else Put, t, r).Ok? && BodyAcceptable(b, partial)
    ensures st.result.Ok? ==>
      && st.result.value == Revise(s.reviews[r], b)
      && st.result.value.author == s.reviews[r].author && st.result.value.title == t
      && st.store == PutReview(s, r, st.result.value)
  {
    match MayChange(s, req, if partial then Patch else Put, t, r)
    case Fail(f) => Step(s, Fail(f))
    case Ok(rv) =>
      match ValidateBody(b, partial)
      case Fail(f) => Step(s, Fail(f))
      case Ok(_) =>
        var rv' := Revise(rv, b);
        Step(PutReview(s, r, rv'), Ok(rv'))
  }

  lemma EditReviewKeepsValid(s: Store, req: Requester, partial: bool, t: TitleId, r: ReviewId, b: ReviewBody)
    requires Valid(s)
    ensures Valid(EditReview(s, req, partial, t, r, b).store)
  {
    var st := EditReview(s, req, partial, t, r, b);
    if st.result.Ok? {
      PutReviewKeepsValid(s, r, st.result.value);
    }
  }

  /** Replacing a review by one with the same author and title and a score
      in range keeps the store valid. */
  lemma PutReviewKeepsValid(s: Store, r: ReviewId, rv: Review)
    requires Valid(s) && r in s.reviews
    requires rv.author == s.reviews[r].author && rv.title == s.reviews[r].title
    requires MinScore <= rv.score <= MaxScore
    ensures Valid(PutReview(s, r, rv))
  {
    PutReviewKeepsLinks(s, r, rv);
    PutReviewKeepsUnique(s, r, rv);
  }

  lemma PutReviewKeepsLinks(s: Store, r: ReviewId, rv: Review)
    requires KeysBelow(s) && ForeignKeysResolve(s) && FieldBounds(s) && r in s.reviews
    requires rv.author == s.reviews[r].author && rv.title == s.reviews[r].title
    requires MinScore <= rv.score <= MaxScore
    ensures var s' := PutReview(s, r, rv); KeysBelow(s') && ForeignKeysResolve(s') && FieldBounds(s')
  {
    var s' := PutReview(s, r, rv);
    assert KeysBelow(s');
    assert FieldBounds(s');
  }

  lemma PutReviewKeepsUnique(s: Store, r: ReviewId, rv: Review)
    requires UniqueColumns(s) && r in s.reviews
    requires rv.author == s.reviews[r].author && rv.title == s.reviews[r].title
    ensures UniqueColumns(PutReview(s, r, rv))
  {
  }

  /** A plain user may edit its own review and no other. */
  lemma PlainUsersEditOnlyTheirOwn(s: Store, k: UserId, partial: bool, t: TitleId, r: ReviewId, b: ReviewBody)
    requires Valid(s) && k in s.users && s.users[k].role == PlainUser && !s.users[k].isSuperuser
    requires r in s.reviews && s.reviews[r].title == t && t in s.titles && BodyAcceptable(b, partial)
    ensures EditReview(s, Bearer(k), partial, t, r, b).result.Ok? <==> s.reviews[r].author == k
  {
  }

  /** DELETE of review `r` under title `t`: the review and its comments go. */
  function RemoveReview(s: Store, req: Requester, t: TitleId, r: ReviewId): (st: Step<ReviewId>)
    requires Valid(s)
    ensures st.result.Fail? ==> st.store == s
    ensures st.result.Ok? <==> MayChange(s, req, Delete, t, r).Ok?
    ensures st.result.Ok? ==> st.result.value == r && st.store == Cascade.DeleteReview(s, r)
    ensures Valid(st.store)
  {
    match MayChange(s, req, Delete, t, r)
    case Fail(f) => Step(s, Fail(f))
    case Ok(_) =>
      Cascade.DeleteReviewKeepsValid(s, r);
      Step(Cascade.DeleteReview(s, r), Ok(r))
  }
}
