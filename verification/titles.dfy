/** TitleViewSet of api/views.py: the serializer chosen per action, title
    creation through TitleCreateSerializer (slug-related category and
    genres, the year checked against the current year), a title shown with
    its rating, and title deletion. */
module Titles {
  import opened Outcome
  import opened Accounts
  import opened Store
  import opened Fields
  import opened Permissions
  import opened Requests
  import opened Catalog
  import Cascade
  import Rating

  /** The viewset actions and the request method each is routed for. */
  datatype Action = List | Retrieve | Create | Update | PartialUpdate | Destroy

  function ActionMethod(a: Action): Method
  {
    match a
    case List => Get
    case Retrieve => Get
    case Create => Post
    case Update => Put
    case PartialUpdate => Patch
    case Destroy => Delete
  }

  datatype SerializerKind = ReadSerializer | WriteSerializer

  /** `get_serializer_class`: TitleCreateSerializer for the three writing
      actions, TitleSerializer for the rest. */
  function SerializerFor(a: Action): (k: SerializerKind)
    ensures k == WriteSerializer <==> a == Create || a == Update || a == PartialUpdate
  {
    if a in {Create, Update, PartialUpdate} then WriteSerializer else ReadSerializer
  }

  /** Every request by a safe method is answered with the reading
      serializer, and every unsafe one but a deletion with the writing one. */
  lemma SerializerFollowsMethod(a: Action)
    ensures IsSafe(ActionMethod(a)) ==> SerializerFor(a) == ReadSerializer
    ensures !IsSafe(ActionMethod(a)) && a != Destroy ==> SerializerFor(a) == WriteSerializer
  {
  }

  /** The keys of `xs` in order of first occurrence, each once. */
  function Distinct(xs: seq<nat>): (d: seq<nat>)
    ensures forall x :: x in d <==> x in xs
    ensures forall i, j :: 0 <= i < j < |d| ==> d[i] != d[j]
  {
    if |xs| == 0 then []
    else
      var rest := Distinct(xs[..|xs| - 1]);
      assert xs == xs[..|xs| - 1] + [xs[|xs| - 1]];
      if xs[|xs| - 1] in rest then rest else rest + [xs[|xs| - 1]]
  }

  /** The category field: a slug naming a stored category. */
  function ResolveCategory(s: Store, slug: Option<string>): (r: Result<CategoryId>)
    requires KeysBelow(s)
    ensures r.Ok? <==> slug.Some? && slug.value != "" && CategorySlugInUse(s, slug.value)
    ensures r.Ok? ==> r.value in s.categories && s.categories[r.value].slug == slug.value
  {
    match slug
    case None => Fail(Invalid(Missing))
    case Some(v) =>
      if v == "" then Fail(Invalid(Blank))
      else match CategoryWithSlug(s, v)
        case None => Fail(Invalid(UnknownSlug))
        case Some(c) => Ok(c)
  }

  /** The genre field: every slug names a stored genre; the first one that
      does not is reported. Each item is looked up as it stands: unlike the
      single category field, a list item that is the empty string is not
      turned into a missing value, so it resolves when a stored genre has
      that slug. */
  function ResolveGenres(s: Store, slugs: seq<string>): (r: Result<seq<GenreId>>)
    requires KeysBelow(s)
    ensures r.Ok? <==> forall i :: 0 <= i < |slugs| ==> GenreSlugInUse(s, slugs[i])
    ensures r.Fail? ==> r.failure == Invalid(UnknownSlug)
    ensures r.Ok? ==> |r.value| == |slugs|
    ensures r.Ok? ==> forall i :: 0 <= i < |slugs| ==> r.value[i] in s.genres && s.genres[r.value[i]].slug == slugs[i]
  {
    if |slugs| == 0 then Ok([])
    else match GenreWithSlug(s, slugs[0])
      case None => Fail(Invalid(UnknownSlug))
      case Some(g) =>
        var rest :- ResolveGenres(s, slugs[1..]);
        Ok([g] + rest)
  }

  /** A request body for TitleCreateSerializer. */
  datatype TitleBody = TitleBody(
    name: Option<string>,
    year: Option<int>,
    description: Option<string>,
    category: Option<string>,
    genre: Option<seq<string>>)

  /** A validated body: the title row and its genres, each once. */
  datatype Draft = Draft(title: Title, genres: seq<GenreId>)

  /** What creating a title accepts at the calendar year `currentYear`. */
  ghost predicate TitleBodyAcceptable(s: Store, b: TitleBody, currentYear: int)
  {
    && b.name.Some? && 0 < |b.name.value| <= MaxNameLength
    && b.year.Some? && StartYear <= b.year.value <= currentYear
    && (b.description.Some? ==> |b.description.value| <= MaxDescriptionLength)
    && b.category.Some? && b.category.value != "" && CategorySlugInUse(s, b.category.value)
    && b.genre.Some? && forall i :: 0 <= i < |b.genre.value| ==> GenreSlugInUse(s, b.genre.value[i])
  }

  /** `is_valid()` of TitleCreateSerializer, fields in model order. The year
      is checked by `validate_year` alone: the limit the model column fixes
      at import time is not applied (see `Fields.AcceptedYearAsWritten`). */
  function ValidateTitle(s: Store, b: TitleBody, currentYear: int): (r: Result<Draft>)
    requires KeysBelow(s) && UniqueColumns(s)
    ensures r.Ok? <==> TitleBodyAcceptable(s, b, currentYear)
    ensures r.Ok? ==>
      && r.value.title.name == b.name.value && r.value.title.year == b.year.value
      && r.value.title.description == b.description
      && r.value.title.category.Some? && r.value.title.category.value in s.categories
      && s.categories[r.value.title.category.value].slug == b.category.value
    ensures r.Ok? ==> forall g :: g in r.value.genres <==> g in s.genres && s.genres[g].slug in b.genre.value
    ensures r.Ok? ==> forall i, j :: 0 <= i < j < |r.value.genres| ==> r.value.genres[i] != r.value.genres[j]
  {
    var name :- CheckRequired(b.name, MaxNameLength);
    var year :- match b.year
      case None => Fail(Invalid(Missing))
      case Some(y) => ValidateYear(y, currentYear);
    var description :- match b.description
      case None => Ok(None)
      case Some(d) => if |d| > MaxDescriptionLength then Fail(Invalid(TooLong)) else Ok(Some(d));
    var category :- ResolveCategory(s, b.category);
    var genres :- match b.genre
      case None => Fail(Invalid(Missing))
      case Some(slugs) => ResolveGenres(s, slugs);
    ResolvedGenresBySlug(s, b.genre.value, genres);
    Ok(Draft(Title(name, year, description, Some(category)), Distinct(genres)))
  }

  /** A genre list holding the empty string resolves to the stored genre
      whose slug is empty, when there is one: the list items get no blank
      check of their own. */
  lemma EmptyGenreSlugResolves(s: Store, g: GenreId)
    requires KeysBelow(s) && UniqueColumns(s)
    requires g in s.genres && s.genres[g].slug == ""
    ensures ResolveGenres(s, [""]) == Ok([g])
  {
    var r := ResolveGenres(s, [""]);
    assert GenreSlugInUse(s, "");
    assert r.Ok? && |r.value| == 1 && s.genres[r.value[0]].slug == "";
    assert r.value[0] == g;
    assert r.value == [g];
  }

  /** Under unique genre slugs, the resolved keys are exactly the genres
      whose slug is listed. */
  lemma ResolvedGenresBySlug(s: Store, slugs: seq<string>, ids: seq<GenreId>)
    requires UniqueColumns(s)
    requires |ids| == |slugs|
    requires forall i :: 0 <= i < |slugs| ==> ids[i] in s.genres && s.genres[ids[i]].slug == slugs[i]
    ensures forall g :: g in ids <==> g in s.genres && s.genres[g].slug in slugs
  {
    forall g | g in s.genres && s.genres[g].slug in slugs
      ensures g in ids
    {
      var i :| 0 <= i < |slugs| && slugs[i] == s.genres[g].slug;
      assert ids[i] == g;
    }
  }

  /** The genres a title is linked to. */
  function GenresOf(s: Store, t: TitleId): (gs: set<GenreId>)
    ensures forall g :: g in gs <==>
      exists l :: l in s.genreTitles && s.genreTitles[l].title == t && s.genreTitles[l].genre == g
  {
    set l | l in s.genreTitles && s.genreTitles[l].title == t :: s.genreTitles[l].genre
  }

  /** The store with one association row under the next free key. */
  function AddLink(s: Store, g: GenreId, t: TitleId): (s': Store)
    ensures s'.genreTitles == s.genreTitles[s.nextId := GenreTitle(g, t)] && s'.nextId == s.nextId + 1
    ensures s'.users == s.users && s'.categories == s.categories && s'.genres == s.genres
    ensures s'.titles == s.titles && s'.reviews == s.reviews && s'.comments == s.comments
  {
    Store(s.users, s.categories, s.genres, s.titles, s.genreTitles[s.nextId := GenreTitle(g, t)],
          s.reviews, s.comments, s.nextId + 1)
  }

  /** The store with title `t` linked to each of `gs` in turn. */
  function AddLinks(s: Store, gs: seq<GenreId>, t: TitleId): (s': Store)
    ensures s'.nextId == s.nextId + |gs|
    ensures s'.users == s.users && s'.categories == s.categories && s'.genres == s.genres
    ensures s'.titles == s.titles && s'.reviews == s.reviews && s'.comments == s.comments
    decreases |gs|
  {
    if |gs| == 0 then s else AddLinks(AddLink(s, gs[0], t), gs[1..], t)
  }

  /** The store with the drafted title under the next free key, then one
      association row per genre. */
  function AddTitle(s: Store, d: Draft): (s': Store)
    ensures s'.titles == s.titles[s.nextId := d.title]
    ensures s'.nextId == s.nextId + 1 + |d.genres|
    ensures s'.users == s.users && s'.categories == s.categories && s'.genres == s.genres
    ensures s'.reviews == s.reviews && s'.comments == s.comments
  {
    var s1 := AddTitleRow(s, d.title);
    AddLinks(s1, d.genres, s.nextId)
  }

  ghost predicate LinkKeysBelow(s: Store)
  {
    forall l :: l in s.genreTitles ==> l < s.nextId
  }

  /** One more row adds its genre to the title's genres and no other. */
  lemma AddLinkGenres(s: Store, g: GenreId, t: TitleId)
    requires LinkKeysBelow(s)
    ensures LinkKeysBelow(AddLink(s, g, t))
    ensures GenresOf(AddLink(s, g, t), t) == GenresOf(s, t) + {g}
  {
    var s' := AddLink(s, g, t);
    assert s'.genreTitles[s.nextId] == GenreTitle(g, t);
    forall x | x in GenresOf(s', t)
      ensures x in GenresOf(s, t) + {g}
    {
      var l :| l in s'.genreTitles && s'.genreTitles[l].title == t && s'.genreTitles[l].genre == x;
      if l != s.nextId {
        assert s.genreTitles[l] == s'.genreTitles[l];
      }
    }
    forall x | x in GenresOf(s, t)
      ensures x in GenresOf(s', t)
    {
      var l :| l in s.genreTitles && s.genreTitles[l].title == t && s.genreTitles[l].genre == x;
      assert s'.genreTitles[l] == s.genreTitles[l];
    }
  }

  /** Linking a title to `gs` adds exactly the genres of `gs`. */
  lemma {:induction false} AddLinksGenres(s: Store, gs: seq<GenreId>, t: TitleId)
    requires LinkKeysBelow(s)
    ensures forall g :: g in GenresOf(AddLinks(s, gs, t), t) <==> g in GenresOf(s, t) || g in gs
    decreases |gs|
  {
    if |gs| > 0 {
      var s1 := AddLink(s, gs[0], t);
      AddLinkGenres(s, gs[0], t);
      AddLinksGenres(s1, gs[1..], t);
      assert gs == [gs[0]] + gs[1..];
    }
  }

  lemma AddLinkKeepsKeys(s: Store, g: GenreId, t: TitleId)
    requires KeysBelow(s)
    ensures KeysBelow(AddLink(s, g, t))
  {
  }

  lemma AddLinkKeepsLinks(s: Store, g: GenreId, t: TitleId)
    requires ForeignKeysResolve(s) && g in s.genres && t in s.titles
    ensures ForeignKeysResolve(AddLink(s, g, t))
  {
  }

  lemma AddLinkKeepsRest(s: Store, g: GenreId, t: TitleId)
    requires UniqueColumns(s) && FieldBounds(s)
    ensures UniqueColumns(AddLink(s, g, t)) && FieldBounds(AddLink(s, g, t))
  {
  }

  lemma AddLinksKeepsValid(s: Store, gs: seq<GenreId>, t: TitleId)
    requires Valid(s) && t in s.titles
    requires forall i :: 0 <= i < |gs| ==> gs[i] in s.genres
    ensures Valid(AddLinks(s, gs, t))
  {
    AddLinksKeepsKeys(s, gs, t);
    AddLinksKeepsLinks(s, gs, t);
    AddLinksKeepsRest(s, gs, t);
  }

  lemma {:induction false} AddLinksKeepsKeys(s: Store, gs: seq<GenreId>, t: TitleId)
    requires KeysBelow(s)
    ensures KeysBelow(AddLinks(s, gs, t))
    decreases |gs|
  {
    if |gs| > 0 {
      AddLinkKeepsKeys(s, gs[0], t);
      AddLinksKeepsKeys(AddLink(s, gs[0], t), gs[1..], t);
    }
  }

  lemma {:induction false} AddLinksKeepsLinks(s: Store, gs: seq<GenreId>, t: TitleId)
    requires ForeignKeysResolve(s) && t in s.titles
    requires forall i :: 0 <= i < |gs| ==> gs[i] in s.genres
    ensures ForeignKeysResolve(AddLinks(s, gs, t))
    decreases |gs|
  {
    if |gs| > 0 {
      AddLinkKeepsLinks(s, gs[0], t);
      assert forall i :: 0 <= i < |gs[1..]| ==> gs[1..][i] == gs[i + 1];
      AddLinksKeepsLinks(AddLink(s, gs[0], t), gs[1..], t);
    }
  }

  lemma {:induction false} AddLinksKeepsRest(s: Store, gs: seq<GenreId>, t: TitleId)
    requires UniqueColumns(s) && FieldBounds(s)
    ensures UniqueColumns(AddLinks(s, gs, t)) && FieldBounds(AddLinks(s, gs, t))
    decreases |gs|
  {
    if |gs| > 0 {
      AddLinkKeepsRest(s, gs[0], t);
      AddLinksKeepsRest(AddLink(s, gs[0], t), gs[1..], t);
    }
  }

  /** POST of a title: admins only; a valid body stores the title and its
      genre links. */
  function CreateTitle(s: Store, req: Requester, b: TitleBody, currentYear: int): (st: Step<TitleId>)
    requires KeysBelow(s) && UniqueColumns(s)
    ensures st.result.Fail? ==> st.store == s
    ensures req.Guest? || req.id !in s.users ==> st == Step(s, Fail(Denied))
    ensures st.result.Ok? <==>
      req.Bearer? && req.id in s.users && IsAdmin(s.users[req.id]) && TitleBodyAcceptable(s, b, currentYear)
    ensures st.result.Ok? ==>
      st.result.value == s.nextId && st.store == AddTitle(s, ValidateTitle(s, b, currentYear).value)
  {
    match Authenticate(s, req)
    case Fail(f) => Step(s, Fail(f))
    case Ok(p) =>
      if !AdminOrReadOnly(Post, p) then Step(s, Fail(Denied))
      else match ValidateTitle(s, b, currentYear)
        case Fail(f) => Step(s, Fail(f))
        case Ok(d) => Step(AddTitle(s, d), Ok(s.nextId))
  }

  /** A created title carries the submitted fields, is linked to exactly the
      genres whose slugs were listed, and has no rating yet. */
  lemma CreatedTitleContents(s: Store, req: Requester, b: TitleBody, currentYear: int)
    requires Valid(s) && CreateTitle(s, req, b, currentYear).result.Ok?
    ensures var s' := CreateTitle(s, req, b, currentYear).store;
      && s'.titles[s.nextId].name == b.name.value && s'.titles[s.nextId].year == b.year.value
      && StartYear <= s'.titles[s.nextId].year <= currentYear
      && (forall g :: g in GenresOf(s', s.nextId) <==> g in s.genres && s.genres[g].slug in b.genre.value)
      && Rating.RatingOf(s', s.nextId).None?
  {
    var d := ValidateTitle(s, b, currentYear).value;
    NewTitleLinks(s, d);
    NewTitleHasNoReviews(s, d);
  }

  /** The new title is linked to exactly the drafted genres. */
  lemma NewTitleLinks(s: Store, d: Draft)
    requires KeysBelow(s) && ForeignKeysResolve(s)
    ensures forall g :: g in GenresOf(AddTitle(s, d), s.nextId) <==> g in d.genres
  {
    var s1 := AddTitleRow(s, d.title);
    assert forall l :: l in s.genreTitles ==> s.genreTitles[l].title != s.nextId;
    assert GenresOf(s1, s.nextId) == {};
    AddLinksGenres(s1, d.genres, s.nextId);
  }

  /** No stored review names the new title's key, so it has no rating. */
  lemma NewTitleHasNoReviews(s: Store, d: Draft)
    requires KeysBelow(s) && ForeignKeysResolve(s)
    ensures Rating.RatingOf(AddTitle(s, d), s.nextId).None?
  {
    var s' := AddTitle(s, d);
    Rating.TallyCountsReviews(s'.reviews, s.nextId, s'.nextId);
    assert Rating.ReviewsBelow(s'.reviews, s.nextId, s'.nextId) == {};
  }

  /** A drafted title with an existing category, a year of at least one and
      existing genres keeps the store valid. */
  lemma NewTitleKeepsValid(s: Store, d: Draft)
    requires Valid(s)
    requires d.title.category.Some? ==> d.title.category.value in s.categories
    requires StartYear <= d.title.year
    requires forall i :: 0 <= i < |d.genres| ==> d.genres[i] in s.genres
    ensures Valid(AddTitle(s, d))
  {
    var s1 := AddTitleRow(s, d.title);
    TitleRowKeepsValid(s, d.title);
    AddLinksKeepsValid(s1, d.genres, s.nextId);
  }

  /** The title row alone, under the next free key. */
  lemma TitleRowKeepsValid(s: Store, x: Title)
    requires Valid(s)
    requires x.category.Some? ==> x.category.value in s.categories
    requires StartYear <= x.year
    ensures Valid(AddTitleRow(s, x))
  {
    TitleRowKeepsKeys(s, x);
    TitleRowKeepsLinks(s, x);
    TitleRowKeepsRest(s, x);
  }

  function AddTitleRow(s: Store, x: Title): (s': Store)
    ensures s'.titles == s.titles[s.nextId := x] && s'.nextId == s.nextId + 1
    ensures s'.users == s.users && s'.categories == s.categories && s'.genres == s.genres
    ensures s'.genreTitles == s.genreTitles && s'.reviews == s.reviews && s'.comments == s.comments
  {
    Store(s.users, s.categories, s.genres, s.titles[s.nextId := x], s.genreTitles, s.reviews, s.comments, s.nextId + 1)
  }

  lemma TitleRowKeepsKeys(s: Store, x: Title)
    requires KeysBelow(s)
    ensures KeysBelow(AddTitleRow(s, x))
  {
  }

  lemma TitleRowKeepsLinks(s: Store, x: Title)
    requires ForeignKeysResolve(s)
    requires x.category.Some? ==> x.category.value in s.categories
    ensures ForeignKeysResolve(AddTitleRow(s, x))
  {
  }

  lemma TitleRowKeepsRest(s: Store, x: Title)
    requires UniqueColumns(s) && FieldBounds(s) && StartYear <= x.year
    ensures UniqueColumns(AddTitleRow(s, x)) && FieldBounds(AddTitleRow(s, x))
  {
  }

  lemma CreateTitleKeepsValid(s: Store, req: Requester, b: TitleBody, currentYear: int)
    requires Valid(s)
    ensures Valid(CreateTitle(s, req, b, currentYear).store)
  {
    if CreateTitle(s, req, b, currentYear).result.Ok? {
      var d := ValidateTitle(s, b, currentYear).value;
      NewTitleKeepsValid(s, d);
    }
  }

  /** A title as TitleSerializer shows it. */
  datatype TitleView = TitleView(title: Title, rating: Option<Rating.Mean>, genres: set<GenreId>)

  /** GET of one title from the annotated queryset: the row, its genres and
      the average of its review scores, absent when it has no review. */
  function ShowTitle(s: Store, req: Requester, t: TitleId): (r: Result<TitleView>)
    requires Valid(s)
    ensures req.Bearer? && req.id !in s.users ==> r == Fail(Denied)
    ensures (req.Guest? || req.id in s.users) ==> (r.Ok? <==> t in s.titles)
    ensures r.Fail? && t !in s.titles && (req.Guest? || req.id in s.users) ==> r == Fail(NotFound)
    ensures r.Ok? ==>
      && r.value.title == s.titles[t]
      && (r.value.rating.None? <==> ReviewsOf(s, t) == {})
      && (r.value.rating.Some? ==>
            && r.value.rating.value.count == |ReviewsOf(s, t)|
            && r.value.rating.value.sum == Rating.ScoreSum(s.reviews, ReviewsOf(s, t))
            && MinScore * r.value.rating.value.count <= r.value.rating.value.sum <= MaxScore * r.value.rating.value.count)
  {
    var p :- Authenticate(s, req);
    if !AdminOrReadOnly(Get, p) then Fail(Denied)
    else if t !in s.titles then Fail(NotFound)
    else
      Rating.RatingIsMeanOfReviews(s, t);
      Ok(TitleView(s.titles[t], Rating.RatingOf(s, t), GenresOf(s, t)))
  }

  /** DELETE of a title: admins only; its links, reviews and their comments
      go with it. */
  function RemoveTitle(s: Store, req: Requester, t: TitleId): (st: Step<TitleId>)
    requires ForeignKeysResolve(s)
    ensures st.result.Fail? ==> st.store == s
    ensures st.result.Ok? <==> req.Bearer? && req.id in s.users && IsAdmin(s.users[req.id]) && t in s.titles
    ensures st.result.Ok? ==> st.result.value == t && st.store == Cascade.DeleteTitle(s, t)
  {
    match Authenticate(s, req)
    case Fail(f) => Step(s, Fail(f))
    case Ok(p) =>
      if !AdminOrReadOnly(Delete, p) then Step(s, Fail(Denied))
      else if t !in s.titles then Step(s, Fail(NotFound))
      else Step(Cascade.DeleteTitle(s, t), Ok(t))
  }
}
