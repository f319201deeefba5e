/** The `on_delete` behaviour of the foreign keys of reviews/models.py:
    a deleted category leaves its titles without a category; deleting a
    genre, a title, a review or a user deletes every row that refers to it,
    and in turn every row that refers to those. Each deletion is a function
    that states which rows survive, with a lemma that it keeps the store
    valid. */
module Cascade {
  import opened Outcome
  import opened Accounts
  import opened Store

  /** Every row of `s'` is a row of `s` under the same key, unchanged. */
  ghost predicate RowsKept(s': Store, s: Store)
  {
    && (forall k :: k in s'.users ==> k in s.users && s'.users[k] == s.users[k])
    && (forall k :: k in s'.categories ==> k in s.categories && s'.categories[k] == s.categories[k])
    && (forall k :: k in s'.genres ==> k in s.genres && s'.genres[k] == s.genres[k])
    && (forall k :: k in s'.titles ==> k in s.titles && s'.titles[k] == s.titles[k])
    && (forall k :: k in s'.genreTitles ==> k in s.genreTitles && s'.genreTitles[k] == s.genreTitles[k])
    && (forall k :: k in s'.reviews ==> k in s.reviews && s'.reviews[k] == s.reviews[k])
    && (forall k :: k in s'.comments ==> k in s.comments && s'.comments[k] == s.comments[k])
    && s'.nextId == s.nextId
  }

  lemma SubStoreKeepsKeysAndBounds(s': Store, s: Store)
    requires KeysBelow(s) && FieldBounds(s) && RowsKept(s', s)
    ensures KeysBelow(s') && FieldBounds(s')
  {
  }

  lemma SubStoreKeepsUnique(s': Store, s: Store)
    requires UniqueColumns(s) && RowsKept(s', s)
    ensures UniqueColumns(s')
  {
  }

  /** A store made of rows kept from a valid store is valid as soon as its
      own foreign keys resolve: keys, unique columns and field bounds carry
      over from the rows. */
  lemma SubStoreStaysValid(s': Store, s: Store)
    requires Valid(s) && RowsKept(s', s) && ForeignKeysResolve(s')
    ensures Valid(s')
  {
    SubStoreKeepsKeysAndBounds(s', s);
    SubStoreKeepsUnique(s', s);
  }

  /** Category deletion (SET_NULL): no title is deleted, the titles that
      were in the category lose it and keep everything else, and no other
      table changes. */
  function DeleteCategory(s: Store, c: CategoryId): (s': Store)
    ensures s'.categories == s.categories - {c}
    ensures s'.titles.Keys == s.titles.Keys
    ensures forall t :: t in s.titles ==>
      s'.titles[t] == (if s.titles[t].category == Some(c) then s.titles[t].(category := None) else s.titles[t])
    ensures forall t :: t in s'.titles ==> s'.titles[t].category != Some(c)
    ensures s'.users == s.users && s'.genres == s.genres && s'.genreTitles == s.genreTitles
    ensures s'.reviews == s.reviews && s'.comments == s.comments && s'.nextId == s.nextId
  {
    var titles := map t | t in s.titles ::
      if s.titles[t].category == Some(c) then s.titles[t].(category := None) else s.titles[t];
    Store(s.users, s.categories - {c}, s.genres, titles, s.genreTitles, s.reviews, s.comments, s.nextId)
  }

  lemma DeleteCategoryKeepsValid(s: Store, c: CategoryId)
    requires Valid(s)
    ensures Valid(DeleteCategory(s, c))
  {
    DeleteCategoryKeepsBounds(s, c);
    DeleteCategoryKeepsUnique(s, c);
    DeleteCategoryKeepsLinks(s, c);
  }

  lemma DeleteCategoryKeepsBounds(s: Store, c: CategoryId)
    requires KeysBelow(s) && FieldBounds(s)
    ensures KeysBelow(DeleteCategory(s, c)) && FieldBounds(DeleteCategory(s, c))
  {
    var s' := DeleteCategory(s, c);
    assert forall t :: t in s'.titles ==> s'.titles[t].year == s.titles[t].year;
  }

  lemma DeleteCategoryKeepsUnique(s: Store, c: CategoryId)
    requires UniqueColumns(s)
    ensures UniqueColumns(DeleteCategory(s, c))
  {
  }

  lemma DeleteCategoryKeepsLinks(s: Store, c: CategoryId)
    requires ForeignKeysResolve(s)
    ensures ForeignKeysResolve(DeleteCategory(s, c))
  {
  }

  /** Genre deletion (CASCADE on GenreTitle.genre): exactly the association
      rows of that genre go with it. */
  function DeleteGenre(s: Store, g: GenreId): (s': Store)
    requires ForeignKeysResolve(s)
    ensures RowsKept(s', s)
    ensures s'.genres == s.genres - {g}
    ensures forall l :: l in s'.genreTitles <==> l in s.genreTitles && s.genreTitles[l].genre in s'.genres
    ensures s'.users == s.users && s'.categories == s.categories && s'.titles == s.titles
    ensures s'.reviews == s.reviews && s'.comments == s.comments
  {
    var links := map l | l in s.genreTitles && s.genreTitles[l].genre != g :: s.genreTitles[l];
    Store(s.users, s.categories, s.genres - {g}, s.titles, links, s.reviews, s.comments, s.nextId)
  }

  lemma DeleteGenreKeepsValid(s: Store, g: GenreId)
    requires Valid(s)
    ensures Valid(DeleteGenre(s, g))
  {
    SubStoreStaysValid(DeleteGenre(s, g), s);
  }

  /** Title deletion (CASCADE on GenreTitle.title and Review.title, then on
      Comment.review): a row survives exactly when what it refers to does. */
  function DeleteTitle(s: Store, t: TitleId): (s': Store)
    requires ForeignKeysResolve(s)
    ensures RowsKept(s', s)
    ensures s'.titles == s.titles - {t}
    ensures forall l :: l in s'.genreTitles <==> l in s.genreTitles && s.genreTitles[l].title in s'.titles
    ensures forall r :: r in s'.reviews <==> r in s.reviews && s.reviews[r].title in s'.titles
    ensures forall c :: c in s'.comments <==> c in s.comments && s.comments[c].review in s'.reviews
    ensures s'.users == s.users && s'.categories == s.categories && s'.genres == s.genres
  {
    var reviews := map r | r in s.reviews && s.reviews[r].title != t :: s.reviews[r];
    var links := map l | l in s.genreTitles && s.genreTitles[l].title != t :: s.genreTitles[l];
    var comments := map c | c in s.comments && s.comments[c].review in reviews :: s.comments[c];
    Store(s.users, s.categories, s.genres, s.titles - {t}, links, reviews, comments, s.nextId)
  }

  lemma DeleteTitleKeepsValid(s: Store, t: TitleId)
    requires Valid(s)
    ensures Valid(DeleteTitle(s, t))
  {
    var s' := DeleteTitle(s, t);
    assert ForeignKeysResolve(s') by {
      forall c | c in s'.comments
        ensures s'.comments[c].author in s'.users && s'.comments[c].review in s'.reviews
      {
        assert s'.comments[c] == s.comments[c];
      }
    }
    SubStoreStaysValid(s', s);
  }

  /** Review deletion (CASCADE on Comment.review). */
  function DeleteReview(s: Store, r: ReviewId): (s': Store)
    requires ForeignKeysResolve(s)
    ensures RowsKept(s', s)
    ensures s'.reviews == s.reviews - {r}
    ensures forall c :: c in s'.comments <==> c in s.comments && s.comments[c].review in s'.reviews
    ensures s'.users == s.users && s'.categories == s.categories && s'.genres == s.genres
    ensures s'.titles == s.titles && s'.genreTitles == s.genreTitles
  {
    var comments := map c | c in s.comments && s.comments[c].review != r :: s.comments[c];
    Store(s.users, s.categories, s.genres, s.titles, s.genreTitles, s.reviews - {r}, comments, s.nextId)
  }

  lemma DeleteReviewKeepsValid(s: Store, r: ReviewId)
    requires Valid(s)
    ensures Valid(DeleteReview(s, r))
  {
    SubStoreStaysValid(DeleteReview(s, r), s);
  }

  /** Comment deletion: nothing refers to a comment. */
  function DeleteComment(s: Store, c: CommentId): (s': Store)
    ensures RowsKept(s', s)
    ensures s'.comments == s.comments - {c}
    ensures s'.users == s.users && s'.reviews == s.reviews && s'.titles == s.titles
    ensures s'.categories == s.categories && s'.genres == s.genres && s'.genreTitles == s.genreTitles
  {
    Store(s.users, s.categories, s.genres, s.titles, s.genreTitles, s.reviews, s.comments - {c}, s.nextId)
  }

  lemma DeleteCommentKeepsValid(s: Store, c: CommentId)
    requires Valid(s)
    ensures Valid(DeleteComment(s, c))
  {
    SubStoreStaysValid(DeleteComment(s, c), s);
  }

  /** User deletion (CASCADE on Review.author and Comment.author, and on
      Comment.review for the comments under the user's reviews). */
  function DeleteUser(s: Store, u: UserId): (s': Store)
    requires ForeignKeysResolve(s)
    ensures RowsKept(s', s)
    ensures s'.users == s.users - {u}
    ensures forall r :: r in s'.reviews <==> r in s.reviews && s.reviews[r].author in s'.users
    ensures forall c :: c in s'.comments <==>
      c in s.comments && s.comments[c].author in s'.users && s.comments[c].review in s'.reviews
    ensures s'.categories == s.categories && s'.genres == s.genres
    ensures s'.titles == s.titles && s'.genreTitles == s.genreTitles
  {
    var reviews := map r | r in s.reviews && s.reviews[r].author != u :: s.reviews[r];
    var comments := map c | c in s.comments && s.comments[c].author != u && s.comments[c].review in reviews
                      :: s.comments[c];
    Store(s.users - {u}, s.categories, s.genres, s.titles, s.genreTitles, reviews, comments, s.nextId)
  }

  lemma DeleteUserKeepsValid(s: Store, u: UserId)
    requires Valid(s)
    ensures Valid(DeleteUser(s, u))
  {
    var s' := DeleteUser(s, u);
    assert ForeignKeysResolve(s') by {
      forall c | c in s'.comments
        ensures s'.comments[c].author in s'.users && s'.comments[c].review in s'.reviews
      {
        assert s'.comments[c] == s.comments[c];
      }
    }
    SubStoreStaysValid(s', s);
  }
}
