/** Categories and genres through the CustomViewSet of api/mixins.py (list,
    create, delete by slug) under IsAdminOrReadOnly, with the serializers
    the model serializer derives from the Category and Genre columns. */
module Catalog {
  import opened Outcome
  import opened Accounts
  import opened Store
  import opened Permissions
  import opened Requests
  import Cascade

  predicate CategoryHasSlug(c: Category, slug: string) { c.slug == slug }
  predicate GenreHasSlug(g: Genre, slug: string) { g.slug == slug }

  ghost predicate CategorySlugInUse(s: Store, slug: string)
  {
    exists k :: k in s.categories && s.categories[k].slug == slug
  }

  ghost predicate GenreSlugInUse(s: Store, slug: string)
  {
    exists k :: k in s.genres && s.genres[k].slug == slug
  }

  /** `Category.objects.get(slug=slug)`, as a lookup by slug. */
  function CategoryWithSlug(s: Store, slug: string): (r: Option<CategoryId>)
    requires KeysBelow(s)
    ensures r.Some? ==> r.value in s.categories && s.categories[r.value].slug == slug
    ensures r.None? <==> !CategorySlugInUse(s, slug)
  {
    FirstMatch(s.categories, (c: Category) => CategoryHasSlug(c, slug), s.nextId)
  }

  /** `Genre.objects.get(slug=slug)`, as a lookup by slug. */
  function GenreWithSlug(s: Store, slug: string): (r: Option<GenreId>)
    requires KeysBelow(s)
    ensures r.Some? ==> r.value in s.genres && s.genres[r.value].slug == slug
    ensures r.None? <==> !GenreSlugInUse(s, slug)
  {
    FirstMatch(s.genres, (g: Genre) => GenreHasSlug(g, slug), s.nextId)
  }

  /** A required CharField: present, non-blank, at most `maxLength`. */
  function CheckRequired(value: Option<string>, maxLength: nat): (r: Result<string>)
    ensures r.Ok? <==> value.Some? && 0 < |value.value| <= maxLength
    ensures r.Ok? ==> r.value == value.value
  {
    match value
    case None => Fail(Invalid(Missing))
    case Some(v) =>
      if v == "" then Fail(Invalid(Blank))
      else if |v| > maxLength then Fail(Invalid(TooLong))
      else Ok(v)
  }

  /** The fields of a category or genre: a name of at most 256 characters
      and a slug of at most 50. The uniqueness check on the slug is made by
      the caller, against its own table. */
  function CheckNameAndSlug(name: Option<string>, slug: Option<string>): (r: Result<(string, string)>)
    ensures r.Ok? <==>
      name.Some? && 0 < |name.value| <= MaxNameLength && slug.Some? && 0 < |slug.value| <= MaxSlugLength
    ensures r.Ok? ==> r.value == (name.value, slug.value)
  {
    var n :- CheckRequired(name, MaxNameLength);
    var sl :- CheckRequired(slug, MaxSlugLength);
    Ok((n, sl))
  }

  /** POST of a category: admins only; the slug must be new. */
  function CreateCategory(s: Store, req: Requester, name: Option<string>, slug: Option<string>): (st: Step<CategoryId>)
    requires KeysBelow(s)
    ensures st.result.Fail? ==> st.store == s
    ensures st.result.Ok? <==>
      && req.Bearer? && req.id in s.users && IsAdmin(s.users[req.id])
      && CheckNameAndSlug(name, slug).Ok? && !CategorySlugInUse(s, slug.value)
    ensures st.result.Ok? ==>
      st.result.value == s.nextId && st.store == AddCategory(s, Category(name.value, slug.value))
  {
    match Authenticate(s, req)
    case Fail(f) => Step(s, Fail(f))
    case Ok(p) =>
      if !AdminOrReadOnly(Post, p) then Step(s, Fail(Denied))
      else match CheckNameAndSlug(name, slug)
        case Fail(f) => Step(s, Fail(f))
        case Ok((n, sl)) =>
          if CategoryWithSlug(s, sl).Some? then Step(s, Fail(Invalid(SlugTaken)))
          else Step(AddCategory(s, Category(n, sl)), Ok(s.nextId))
  }

  /** The store with category `c` added under the next free key. */
  function AddCategory(s: Store, c: Category): (s': Store)
    ensures s'.categories == s.categories[s.nextId := c] && s'.nextId == s.nextId + 1
    ensures s'.users == s.users && s'.genres == s.genres && s'.titles == s.titles
    ensures s'.genreTitles == s.genreTitles && s'.reviews == s.reviews && s'.comments == s.comments
  {
    Store(s.users, s.categories[s.nextId := c], s.genres, s.titles, s.genreTitles, s.reviews, s.comments, s.nextId + 1)
  }

  lemma CreateCategoryKeepsValid(s: Store, req: Requester, name: Option<string>, slug: Option<string>)
    requires Valid(s)
    ensures Valid(CreateCategory(s, req, name, slug).store)
  {
    var st := CreateCategory(s, req, name, slug);
    if st.result.Ok? {
      var c := Category(name.value, slug.value);
      AddCategoryKeepsKeys(s, c);
      AddCategoryKeepsLinks(s, c);
      AddCategoryKeepsUnique(s, c);
    }
  }

  lemma AddCategoryKeepsKeys(s: Store, c: Category)
    requires KeysBelow(s) && FieldBounds(s)
    ensures KeysBelow(AddCategory(s, c)) && FieldBounds(AddCategory(s, c))
  {
  }

  lemma AddCategoryKeepsLinks(s: Store, c: Category)
    requires ForeignKeysResolve(s)
    ensures ForeignKeysResolve(AddCategory(s, c))
  {
  }

  lemma AddCategoryKeepsUnique(s: Store, c: Category)
    requires UniqueColumns(s) && KeysBelow(s) && !CategorySlugInUse(s, c.slug)
    ensures UniqueColumns(AddCategory(s, c))
  {
    assert forall k :: k in s.categories ==> s.categories[k].slug != c.slug;
  }

  /** POST of a genre: admins only; the slug must be new. */
  function CreateGenre(s: Store, req: Requester, name: Option<string>, slug: Option<string>): (st: Step<GenreId>)
    requires KeysBelow(s)
    ensures st.result.Fail? ==> st.store == s
    ensures st.result.Ok? <==>
      && req.Bearer? && req.id in s.users && IsAdmin(s.users[req.id])
      && CheckNameAndSlug(name, slug).Ok? && !GenreSlugInUse(s, slug.value)
    ensures st.result.Ok? ==>
      st.result.value == s.nextId && st.store == AddGenre(s, Genre(name.value, slug.value))
  {
    match Authenticate(s, req)
    case Fail(f) => Step(s, Fail(f))
    case Ok(p) =>
      if !AdminOrReadOnly(Post, p) then Step(s, Fail(Denied))
      else match CheckNameAndSlug(name, slug)
        case Fail(f) => Step(s, Fail(f))
        case Ok((n, sl)) =>
          if GenreWithSlug(s, sl).Some? then Step(s, Fail(Invalid(SlugTaken)))
          else Step(AddGenre(s, Genre(n, sl)), Ok(s.nextId))
  }

  /** The store with genre `g` added under the next free key. */
  function AddGenre(s: Store, g: Genre): (s': Store)
    ensures s'.genres == s.genres[s.nextId := g] && s'.nextId == s.nextId + 1
    ensures s'.users == s.users && s'.categories == s.categories && s'.titles == s.titles
    ensures s'.genreTitles == s.genreTitles && s'.reviews == s.reviews && s'.comments == s.comments
  {
    Store(s.users, s.categories, s.genres[s.nextId := g], s.titles, s.genreTitles, s.reviews, s.comments, s.nextId + 1)
  }

  lemma CreateGenreKeepsValid(s: Store, req: Requester, name: Option<string>, slug: Option<string>)
    requires Valid(s)
    ensures Valid(CreateGenre(s, req, name, slug).store)
  {
    var st := CreateGenre(s, req, name, slug);
    if st.result.Ok? {
      var g := Genre(name.value, slug.value);
      AddGenreKeepsKeys(s, g);
      AddGenreKeepsLinks(s, g);
      AddGenreKeepsUnique(s, g);
    }
  }

  lemma AddGenreKeepsKeys(s: Store, g: Genre)
    requires KeysBelow(s) && FieldBounds(s)
    ensures KeysBelow(AddGenre(s, g)) && FieldBounds(AddGenre(s, g))
  {
  }

  lemma AddGenreKeepsLinks(s: Store, g: Genre)
    requires ForeignKeysResolve(s)
    ensures ForeignKeysResolve(AddGenre(s, g))
  {
  }

  lemma AddGenreKeepsUnique(s: Store, g: Genre)
    requires UniqueColumns(s) && KeysBelow(s) && !GenreSlugInUse(s, g.slug)
    ensures UniqueColumns(AddGenre(s, g))
  {
    assert forall k :: k in s.genres ==> s.genres[k].slug != g.slug;
  }

  /** DELETE of the category with a slug: admins only; its titles lose
      their category. */
  function RemoveCategory(s: Store, req: Requester, slug: string): (st: Step<CategoryId>)
    requires KeysBelow(s)
    ensures st.result.Fail? ==> st.store == s
    ensures st.result.Ok? <==>
      req.Bearer? && req.id in s.users && IsAdmin(s.users[req.id]) && CategorySlugInUse(s, slug)
    ensures st.result.Ok? ==>
      && st.result.value in s.categories && s.categories[st.result.value].slug == slug
      && st.store == Cascade.DeleteCategory(s, st.result.value)
  {
    match Authenticate(s, req)
    case Fail(f) => Step(s, Fail(f))
    case Ok(p) =>
      if !AdminOrReadOnly(Delete, p) then Step(s, Fail(Denied))
      else match CategoryWithSlug(s, slug)
        case None => Step(s, Fail(NotFound))
        case Some(c) => Step(Cascade.DeleteCategory(s, c), Ok(c))
  }

  /** DELETE of the genre with a slug: admins only; its title links go. */
  function RemoveGenre(s: Store, req: Requester, slug: string): (st: Step<GenreId>)
    requires KeysBelow(s) && ForeignKeysResolve(s)
    ensures st.result.Fail? ==> st.store == s
    ensures st.result.Ok? <==>
      req.Bearer? && req.id in s.users && IsAdmin(s.users[req.id]) && GenreSlugInUse(s, slug)
    ensures st.result.Ok? ==>
      && st.result.value in s.genres && s.genres[st.result.value].slug == slug
      && st.store == Cascade.DeleteGenre(s, st.result.value)
  {
    match Authenticate(s, req)
    case Fail(f) => Step(s, Fail(f))
    case Ok(p) =>
      if !AdminOrReadOnly(Delete, p) then Step(s, Fail(Denied))
      else match GenreWithSlug(s, slug)
        case None => Step(s, Fail(NotFound))
        case Some(g) => Step(Cascade.DeleteGenre(s, g), Ok(g))
  }

  /** Creating a category and deleting it by its slug gives back the
      categories as they were and touches no title. */
  lemma CreateThenRemoveCategory(s: Store, k: UserId, name: string, slug: string)
    requires Valid(s) && CreateCategory(s, Bearer(k), Some(name), Some(slug)).result.Ok?
    ensures var s1 := CreateCategory(s, Bearer(k), Some(name), Some(slug)).store;
      && RemoveCategory(s1, Bearer(k), slug) == Step(Cascade.DeleteCategory(s1, s.nextId), Ok(s.nextId))
      && Cascade.DeleteCategory(s1, s.nextId).titles == s.titles
      && Cascade.DeleteCategory(s1, s.nextId).categories == s.categories
  {
    var s1 := AddCategory(s, Category(name, slug));
    FreshSlugFound(s, Category(name, slug));
    FreshCategoryOwnsNoTitle(s, Category(name, slug));
  }

  /** In the store with a new category, its slug finds it. */
  lemma FreshSlugFound(s: Store, c: Category)
    requires KeysBelow(s) && UniqueColumns(s) && !CategorySlugInUse(s, c.slug)
    ensures CategoryWithSlug(AddCategory(s, c), c.slug) == Some(s.nextId)
  {
    var s1 := AddCategory(s, c);
    assert forall j :: j in s1.categories && j != s.nextId ==> s1.categories[j].slug != c.slug;
  }

  /** No title is in a category just created, so deleting it again sets
      no title's category to null. */
  lemma FreshCategoryOwnsNoTitle(s: Store, c: Category)
    requires KeysBelow(s) && ForeignKeysResolve(s)
    ensures Cascade.DeleteCategory(AddCategory(s, c), s.nextId).titles == s.titles
    ensures Cascade.DeleteCategory(AddCategory(s, c), s.nextId).categories == s.categories
  {
    var s1 := AddCategory(s, c);
    assert forall t :: t in s.titles ==> s.titles[t].category != Some(s.nextId);
    assert Cascade.DeleteCategory(s1, s.nextId).titles == s.titles;
  }
}
