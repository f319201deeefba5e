/** CommentViewSet of api/views.py with CommentSerializer: the comments on
    a review. The view finds the review by its key alone, so the title key
    in the URL takes no part in any decision. */
module Comments {
  import opened Outcome
  import opened Accounts
  import opened Store
  import opened Fields
  import opened Permissions
  import opened Requests
  import Cascade

  /** The store with comment `cm` added under the next free key. */
  function AddComment(s: Store, cm: Comment): (s': Store)
    ensures s'.comments == s.comments[s.nextId := cm] && s'.nextId == s.nextId + 1
    ensures s'.users == s.users && s'.titles == s.titles && s'.reviews == s.reviews
    ensures s'.categories == s.categories && s'.genres == s.genres && s'.genreTitles == s.genreTitles
  {
    Store(s.users, s.categories, s.genres, s.titles, s.genreTitles, s.reviews, s.comments[s.nextId := cm], s.nextId + 1)
  }

  /** A comment whose author and review exist keeps the store valid. */
  lemma AddCommentKeepsValid(s: Store, cm: Comment)
    requires Valid(s) && cm.author in s.users && cm.review in s.reviews
    ensures Valid(AddComment(s, cm))
  {
    AddCommentKeepsKeys(s, cm);
    AddCommentKeepsLinks(s, cm);
    AddCommentKeepsRest(s, cm);
  }

  lemma AddCommentKeepsKeys(s: Store, cm: Comment)
    requires KeysBelow(s)
    ensures KeysBelow(AddComment(s, cm))
  {
  }

  lemma AddCommentKeepsLinks(s: Store, cm: Comment)
    requires ForeignKeysResolve(s) && cm.author in s.users && cm.review in s.reviews
    ensures ForeignKeysResolve(AddComment(s, cm))
  {
  }

  lemma AddCommentKeepsRest(s: Store, cm: Comment)
    requires UniqueColumns(s) && FieldBounds(s)
    ensures UniqueColumns(AddComment(s, cm)) && FieldBounds(AddComment(s, cm))
  {
  }

  /** GET on the comments of review `r`: exactly its comments, or not found
      when the review does not exist. */
  function ListComments(s: Store, req: Requester, t: TitleId, r: ReviewId): (x: Result<set<CommentId>>)
    ensures req.Bearer? && req.id !in s.users ==> x == Fail(Denied)
    ensures (req.Guest? || req.id in s.users) && r !in s.reviews ==> x == Fail(NotFound)
    ensures x.Ok? ==> r in s.reviews && forall c :: c in x.value <==> c in s.comments && s.comments[c].review == r
    ensures (req.Guest? || req.id in s.users) && r in s.reviews ==> x.Ok?
  {
    var p :- Authenticate(s, req);
    if !ModerOrAuthorView(Get, p) then Fail(Denied)
    else if r !in s.reviews then Fail(NotFound)
    else Ok(CommentsOf(s, r))
  }

  /** POST of a comment on review `r`: the anonymous user is refused, the
      text is checked, then `perform_create` finds the review or answers not
      found and stores the comment with the requester as author. */
  function PostComment(s: Store, req: Requester, t: TitleId, r: ReviewId, text: Option<string>): (st: Step<CommentId>)
    ensures req.Guest? || req.id !in s.users ==> st == Step(s, Fail(Denied))
    ensures st.result.Fail? ==> st.store == s
    ensures st.result.Ok? <==>
      && req.Bearer? && req.id in s.users && r in s.reviews
      && text.Some? && 0 < |text.value| <= MaxTextLength
    ensures req.Bearer? && req.id in s.users && CheckText(text, true).Ok? && r !in s.reviews ==>
      st.result == Fail(NotFound)
    ensures st.result.Ok? ==>
      && st.result.value == s.nextId
      && st.store == AddComment(s, Comment(req.id, r, text.value))
  {
    match Authenticate(s, req)
    case Fail(f) => Step(s, Fail(f))
    case Ok(p) =>
      if !ModerOrAuthorView(Post, p) then Step(s, Fail(Denied))
      else match CheckText(text, true)
        case Fail(f) => Step(s, Fail(f))
        case Ok(_) =>
          if r !in s.reviews then Step(s, Fail(NotFound))
          else Step(AddComment(s, Comment(p.id, r, text.value)), Ok(s.nextId))
  }

  lemma PostCommentKeepsValid(s: Store, req: Requester, t: TitleId, r: ReviewId, text: Option<string>)
    requires Valid(s)
    ensures Valid(PostComment(s, req, t, r, text).store)
  {
    if PostComment(s, req, t, r, text).result.Ok? {
      AddCommentKeepsValid(s, Comment(req.id, r, text.value));
    }
  }

  /** The title key of the URL changes nothing: a comment posted or listed
      under any title key is the same, even one that is not the review's
      title. */
  lemma TitleInPathIgnored(s: Store, req: Requester, t: TitleId, t': TitleId, r: ReviewId, text: Option<string>)
    ensures PostComment(s, req, t, r, text) == PostComment(s, req, t', r, text)
    ensures ListComments(s, req, t, r) == ListComments(s, req, t', r)
    ensures r in s.reviews && s.reviews[r].title != t' && req.Bearer? && req.id in s.users && CheckText(text, true).Ok? ==>
      PostComment(s, req, t', r, text).result.Ok?
  {
  }

  /** Who may change comment `c` on review `r`: the view check, the comment
      among the review's comments, then the object check on its author. */
  function MayChange(s: Store, req: Requester, m: Method, r: ReviewId, c: CommentId): (x: Result<Comment>)
    requires !IsSafe(m)
    ensures x.Ok? <==>
      && req.Bearer? && req.id in s.users
      && r in s.reviews && c in s.comments && s.comments[c].review == r
      && (IsAdmin(s.users[req.id]) || IsModer(s.users[req.id]) || req.id == s.comments[c].author)
    ensures x.Ok? ==> x.value == s.comments[c]
    ensures req.Guest? || req.id !in s.users ==> x == Fail(Denied)
    ensures req.Bearer? && req.id in s.users && !(r in s.reviews && c in s.comments && s.comments[c].review == r) ==>
      x == Fail(NotFound)
  {
    var p :- Authenticate(s, req);
    if !ModerOrAuthorView(m, p) then Fail(Denied)
    else if r !in s.reviews || c !in s.comments || s.comments[c].review != r then Fail(NotFound)
    else if !ModerOrAuthorGate(m, p, s.comments[c].author) then Fail(Denied)
    else Ok(s.comments[c])
  }

  /** PUT or PATCH of comment `c`: only the text can change. */
  function EditComment(s: Store, req: Requester, partial: bool, t: TitleId, r: ReviewId, c: CommentId, text: Option<string>): (st: Step<Comment>)
    ensures st.result.Fail? ==> st.store == s
    ensures st.result.Ok? <==>
      MayChange(s, req, if partial then Patch else Put, r, c).Ok? && CheckText(text, !partial).Ok?
    ensures st.result.Ok? ==>
      && st.result.value.author == s.comments[c].author && st.result.value.review == r
      && st.result.value.text == (if text.Some? then text.value else s.comments[c].text)
      && st.store == PutComment(s, c, st.result.value)
  {
    match MayChange(s, req, if partial then Patch else Put, r, c)
    case Fail(f) => Step(s, Fail(f))
    case Ok(cm) =>
      match CheckText(text, !partial)
      case Fail(f) => Step(s, Fail(f))
      case Ok(_) =>
        var cm' := cm.(text := if text.Some? then text.value else cm.text);
        Step(PutComment(s, c, cm'), Ok(cm'))
  }

  lemma EditCommentKeepsValid(s: Store, req: Requester, partial: bool, t: TitleId, r: ReviewId, c: CommentId, text: Option<string>)
    requires Valid(s)
    ensures Valid(EditComment(s, req, partial, t, r, c, text).store)
  {
    var st := EditComment(s, req, partial, t, r, c, text);
    if st.result.Ok? {
      PutCommentKeepsValid(s, c, st.result.value);
    }
  }

  /** The store with comment `c` replaced by `cm`. */
  function PutComment(s: Store, c: CommentId, cm: Comment): (s': Store)
    ensures s'.comments == s.comments[c := cm] && s'.nextId == s.nextId
    ensures s'.users == s.users && s'.titles == s.titles && s'.reviews == s.reviews
    ensures s'.categories == s.categories && s'.genres == s.genres && s'.genreTitles == s.genreTitles
  {
    Store(s.users, s.categories, s.genres, s.titles, s.genreTitles, s.reviews, s.comments[c := cm], s.nextId)
  }

  /** Replacing a comment by one with the same author and review keeps the
      store valid. */
  lemma PutCommentKeepsValid(s: Store, c: CommentId, cm: Comment)
    requires Valid(s) && c in s.comments
    requires cm.author == s.comments[c].author && cm.review == s.comments[c].review
    ensures Valid(PutComment(s, c, cm))
  {
    PutCommentKeepsKeys(s, c, cm);
    PutCommentKeepsLinks(s, c, cm);
    PutCommentKeepsRest(s, c, cm);
  }

  lemma PutCommentKeepsKeys(s: Store, c: CommentId, cm: Comment)
    requires KeysBelow(s) && c in s.comments
    ensures KeysBelow(PutComment(s, c, cm))
  {
  }

  lemma PutCommentKeepsLinks(s: Store, c: CommentId, cm: Comment)
    requires ForeignKeysResolve(s) && c in s.comments
    requires cm.author == s.comments[c].author && cm.review == s.comments[c].review
    ensures ForeignKeysResolve(PutComment(s, c, cm))
  {
  }

  lemma PutCommentKeepsRest(s: Store, c: CommentId, cm: Comment)
    requires UniqueColumns(s) && FieldBounds(s)
    ensures UniqueColumns(PutComment(s, c, cm)) && FieldBounds(PutComment(s, c, cm))
  {
  }

  /** DELETE of comment `c` on review `r`. */
  function RemoveComment(s: Store, req: Requester, t: TitleId, r: ReviewId, c: CommentId): (st: Step<CommentId>)
    ensures st.result.Fail? ==> st.store == s
    ensures st.result.Ok? <==> MayChange(s, req, Delete, r, c).Ok?
    ensures st.result.Ok? ==> st.result.value == c && st.store == Cascade.DeleteComment(s, c)
  {
    match MayChange(s, req, Delete, r, c)
    case Fail(f) => Step(s, Fail(f))
    case Ok(_) => Step(Cascade.DeleteComment(s, c), Ok(c))
  }

  /** A moderator may delete any comment; a plain user only its own. */
  lemma WhoMayRemoveComments(s: Store, k: UserId, t: TitleId, r: ReviewId, c: CommentId)
    requires k in s.users && r in s.reviews && c in s.comments && s.comments[c].review == r
    ensures s.users[k].role == Moderator ==> RemoveComment(s, Bearer(k), t, r, c).result.Ok?
    ensures s.users[k].role == PlainUser && !s.users[k].isSuperuser ==>
      (RemoveComment(s, Bearer(k), t, r, c).result.Ok? <==> s.comments[c].author == k)
  {
  }
}
