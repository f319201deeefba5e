/** The persistent store: one map per table from primary key to row, and
    the next free primary key. `Valid` collects the constraints the schema
    of reviews/models.py declares (foreign keys, unique columns, the one
    review per title and author) together with the field bounds every
    modelled write checks. */
module Store {
  import opened Outcome
  import opened Accounts

  type CategoryId = nat
  type GenreId = nat
  type TitleId = nat
  type LinkId = nat
  type ReviewId = nat
  type CommentId = nat

  const MinScore := 1
  const MaxScore := 10
  const StartYear := 1
  const MaxTextLength := 200
  const MaxNameLength := 256
  const MaxSlugLength := 50
  const MaxDescriptionLength := 2000

  datatype Category = Category(name: string, slug: string)
  datatype Genre = Genre(name: string, slug: string)

  /** A title; `category` is `None` once its category has been deleted. */
  datatype Title = Title(name: string, year: int, description: Option<string>, category: Option<CategoryId>)

  /** A row of the title-genre association table. */
  datatype GenreTitle = GenreTitle(genre: GenreId, title: TitleId)

  datatype Review = Review(author: UserId, title: TitleId, text: string, score: int)
  datatype Comment = Comment(author: UserId, review: ReviewId, text: string)

  datatype Store = Store(
    users: map<UserId, User>,
    categories: map<CategoryId, Category>,
    genres: map<GenreId, Genre>,
    titles: map<TitleId, Title>,
    genreTitles: map<LinkId, GenreTitle>,
    reviews: map<ReviewId, Review>,
    comments: map<CommentId, Comment>,
    nextId: nat)

  /** A request's effect: the store afterwards and what the caller receives. */
  datatype Step<+T> = Step(store: Store, result: Result<T>)

  /** Every primary key in use lies below the next free one. */
  ghost predicate KeysBelow(s: Store)
  {
    && (forall k :: k in s.users ==> k < s.nextId)
    && (forall k :: k in s.categories ==> k < s.nextId)
    && (forall k :: k in s.genres ==> k < s.nextId)
    && (forall k :: k in s.titles ==> k < s.nextId)
    && (forall k :: k in s.genreTitles ==> k < s.nextId)
    && (forall k :: k in s.reviews ==> k < s.nextId)
    && (forall k :: k in s.comments ==> k < s.nextId)
  }

  /** Every foreign key names an existing row. */
  ghost predicate ForeignKeysResolve(s: Store)
  {
    && (forall t :: t in s.titles && s.titles[t].category.Some? ==> s.titles[t].category.value in s.categories)
    && (forall l :: l in s.genreTitles ==> s.genreTitles[l].genre in s.genres && s.genreTitles[l].title in s.titles)
    && (forall r :: r in s.reviews ==> s.reviews[r].author in s.users && s.reviews[r].title in s.titles)
    && (forall c :: c in s.comments ==> s.comments[c].author in s.users && s.comments[c].review in s.reviews)
  }

  /** The unique columns and the (title, author) constraint of Review. */
  ghost predicate UniqueColumns(s: Store)
  {
    && (forall a, b :: a in s.users && b in s.users && s.users[a].username == s.users[b].username ==> a == b)
    && (forall a, b :: a in s.users && b in s.users && s.users[a].email == s.users[b].email ==> a == b)
    && (forall a, b :: a in s.categories && b in s.categories && s.categories[a].slug == s.categories[b].slug ==> a == b)
    && (forall a, b :: a in s.genres && b in s.genres && s.genres[a].slug == s.genres[b].slug ==> a == b)
    && (forall a, b ::
          (a in s.reviews && b in s.reviews && s.reviews[a].title == s.reviews[b].title
           && s.reviews[a].author == s.reviews[b].author) ==> a == b)
  }

  /** Field bounds: a non-blank username of bounded length, the title year
      floor and the review score range. */
  ghost predicate FieldBounds(s: Store)
  {
    && (forall u :: u in s.users ==> 0 < |s.users[u].username| <= MaxUsernameLength)
    && (forall t :: t in s.titles ==> StartYear <= s.titles[t].year)
    && (forall r :: r in s.reviews ==> MinScore <= s.reviews[r].score <= MaxScore)
  }

  ghost predicate Valid(s: Store)
  {
    KeysBelow(s) && ForeignKeysResolve(s) && UniqueColumns(s) && FieldBounds(s)
  }

  /** The smallest key below `n` whose row satisfies `p`: a filtered query
      read in primary-key order. */
  function FirstMatch<T>(m: map<nat, T>, p: T -> bool, n: nat): (r: Option<nat>)
    ensures r.Some? ==> r.value in m && r.value < n && p(m[r.value])
    ensures r.Some? ==> forall k :: k in m && k < r.value ==> !p(m[k])
    ensures r.None? ==> forall k :: k in m && k < n ==> !p(m[k])
    decreases n
  {
    if n == 0 then None
    else
      match FirstMatch(m, p, n - 1)
      case Some(k) => Some(k)
      case None => if n - 1 in m && p(m[n - 1]) then Some(n - 1) else None
  }

  predicate HasUsername(u: User, name: string) { u.username == name }
  predicate HasEmail(u: User, email: string) { u.email == email }

  ghost predicate UsernameInUse(s: Store, name: string)
  {
    exists k :: k in s.users && s.users[k].username == name
  }

  ghost predicate EmailInUse(s: Store, email: string)
  {
    exists k :: k in s.users && s.users[k].email == email
  }

  /** `User.objects.filter(username=name)`, first row. */
  function UserNamed(s: Store, name: string): (r: Option<UserId>)
    requires KeysBelow(s)
    ensures r.Some? ==> r.value in s.users && s.users[r.value].username == name
    ensures r.None? <==> !UsernameInUse(s, name)
  {
    FirstMatch(s.users, (u: User) => HasUsername(u, name), s.nextId)
  }

  /** `User.objects.filter(email=email)`, first row. */
  function UserWithEmail(s: Store, email: string): (r: Option<UserId>)
    requires KeysBelow(s)
    ensures r.Some? ==> r.value in s.users && s.users[r.value].email == email
    ensures r.None? <==> !EmailInUse(s, email)
  {
    FirstMatch(s.users, (u: User) => HasEmail(u, email), s.nextId)
  }

  /** Under the unique constraint a username names at most one user, so the
      first match is the match. */
  lemma UserNamedIsUnique(s: Store, name: string, k: UserId)
    requires Valid(s)
    requires k in s.users && s.users[k].username == name
    ensures UserNamed(s, name) == Some(k)
  {
  }

  /** No user other than `k` holds `u`'s username or email. */
  ghost predicate FreeFor(s: Store, k: UserId, u: User)
  {
    forall j :: j in s.users && j != k ==> s.users[j].username != u.username && s.users[j].email != u.email
  }

  /** Replacing user `k`'s row keeps the store valid when the new row's
      username and email are held by no other user and the username is
      non-blank and short enough. */
  lemma ReplaceUserKeepsValid(s: Store, k: UserId, u: User)
    requires Valid(s) && k in s.users
    requires FreeFor(s, k, u) && 0 < |u.username| <= MaxUsernameLength
    ensures Valid(s.(users := s.users[k := u]))
  {
    ReplaceUserKeepsUnique(s, k, u);
    ReplaceUserKeepsLinks(s, k, u);
    ReplaceUserKeepsBounds(s, k, u);
  }

  lemma ReplaceUserKeepsLinks(s: Store, k: UserId, u: User)
    requires KeysBelow(s) && ForeignKeysResolve(s) && k in s.users
    ensures KeysBelow(s.(users := s.users[k := u])) && ForeignKeysResolve(s.(users := s.users[k := u]))
  {
  }

  lemma ReplaceUserKeepsBounds(s: Store, k: UserId, u: User)
    requires FieldBounds(s) && 0 < |u.username| <= MaxUsernameLength
    ensures FieldBounds(s.(users := s.users[k := u]))
  {
  }

  lemma ReplaceUserKeepsUnique(s: Store, k: UserId, u: User)
    requires UniqueColumns(s) && k in s.users && FreeFor(s, k, u)
    ensures UniqueColumns(s.(users := s.users[k := u]))
  {
  }

  /** The reviews of a title. */
  function ReviewsOf(s: Store, t: TitleId): (ids: set<ReviewId>)
    ensures forall r :: r in ids <==> r in s.reviews && s.reviews[r].title == t
  {
    set r | r in s.reviews && s.reviews[r].title == t
  }

  /** The comments on a review. */
  function CommentsOf(s: Store, r: ReviewId): (ids: set<CommentId>)
    ensures forall c :: c in ids <==> c in s.comments && s.comments[c].review == r
  {
    set c | c in s.comments && s.comments[c].review == r
  }
}
