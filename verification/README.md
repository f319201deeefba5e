# api_yamdb business rules in Dafny

This project models the business rules of the YaMDb review service. YaMDb
is a Django REST backend. Users sign up by email and confirm with a mailed
code. Administrators keep a catalogue of titles, categories and genres.
Authenticated users review titles and comment on reviews.

The model is an abstract store with one map per table, from primary key to
row, plus the next free key. Each request is a pure function from a store
to a `Step`: the store afterwards and either a result or a failure. The
failures are `Denied`, `NotFound`, `Invalid(reason)`, `Conflict`,
`DeliveryFailed` and `Crashed`.

The modules follow the program:

- `Accounts` covers roles and users.
- `Usernames` is the username validator.
- `Permissions` holds the permission classes.
- `Fields` holds the field validators.
- `Store` holds the tables and the invariant `Valid`. `Valid` covers keys,
  foreign keys, unique columns and field bounds.
- `Cascade` holds the delete rules.
- `Rating` is the average-score annotation.
- `Tokens` is the opaque confirmation-code generator and access-token issuer.
- `Requests` authenticates a request.
- `Signup` is signup and confirmation in api/serializers.py.
- `LegacyAuth` is the older variant in users/serializers.py.
- `Profile` is the `me` action.
- `Reviews`, `Comments`, `Catalog` and `Titles` are the viewsets.

The clock's year is a parameter. So is the outcome of `send_mail` (as
`delivered`).

The confirmation code does not depend on the active flag, so in the
current signup flow a code that has already activated a user activates it
again (`Signup.ReconfirmationSucceeds`).

## Model

| member | source | states |
|---|---|---|
| Accounts.ParseRole | api_yamdb/reviews/models.py:17-21 | a submitted role string resolves to the choice whose stored value it is, and to no choice when no choice stores that value |
| Accounts.RoleChoicesRoundTrip | api_yamdb/users/models.py:5-9 | each of the three role choices is recovered from its stored value, and no two choices store the same value |
| Accounts.NewUser | api_yamdb/users/models.py:26-31 | a user created without an explicit role gets the default role user and no superuser flag, so it is neither admin nor moderator |
| Usernames.Match | api_yamdb/validators.py:12-19 | the scan of `^[\w.@+-]+$` succeeds exactly on a non-empty run of name characters, optionally followed by one final newline |
| Usernames.ValidateUsername | api_yamdb/validators.py:5-19 | the empty string is refused as required; any other value is refused iff the pattern fails; an accepted value comes back unchanged |
| Usernames.TrailingNewlineAccepted | api_yamdb/validators.py:13 | an accepted name followed by one "\n" is still accepted, because `$` matches before a final newline; "me" passes this validator |
| Usernames.ForeignCharacterRejected | api_yamdb/validators.py:12-19 | a character outside `[\w.@+-]` is enough for the name to be refused, unless it is a newline in the final position |
| Permissions.AdminOnly | api_yamdb/api/permissions.py:4-9 | granted iff the requester is authenticated and either a superuser or in the admin role |
| Permissions.AdminOrReadOnly | api_yamdb/api/permissions.py:21-26 | safe methods are always granted; an unsafe method is granted iff `IsAdmin` grants it |
| Permissions.ReadOnlyRefusesNonAdmins | api_yamdb/api/permissions.py:23-26 | an unsafe method is refused to the anonymous user and to plain users and moderators without superuser rights |
| Permissions.ModerOrAuthorView | api_yamdb/api/permissions.py:33-37 | granted iff the method is safe or the requester is authenticated |
| Permissions.ModerOrAuthorObject | api_yamdb/api/permissions.py:39-45 | safe methods get true; an unsafe method by the anonymous user raises; otherwise granted iff admin, moderator or the object's author |
| Permissions.ModerOrAuthorGate | api_yamdb/api/permissions.py:33-45 | the view check followed by the object check grants iff the method is safe, or the requester is authenticated and is admin, moderator or the author |
| Permissions.GateNeverRaises | api_yamdb/api/permissions.py:33-45 | once the view check passes, the object check returns a verdict instead of raising |
| Permissions.OnlyAuthorAmongPlainUsers | api_yamdb/api/permissions.py:39-45 | a plain user may update or delete an object iff it is the author |
| Permissions.LegacyAdminOnly | api_yamdb/users/permissions.py:4-9 | the anonymous user is refused; an authenticated user is granted iff it is admin (superuser or admin role) |
| Permissions.LegacyAdminAgrees | api_yamdb/users/permissions.py:6-9 | the older class ignores the method and decides as the current `IsAdmin`; a moderator who is not a superuser is refused |
| Store.UserNamedIsUnique | api_yamdb/reviews/models.py:29-33 | under the unique username column, looking a username up finds exactly the one user holding it |
| Store.ReplaceUserKeepsValid | api_yamdb/reviews/models.py:24-43 | replacing a user's row keeps every constraint when the new username and email belong to no other user and the username is non-blank and fits 150 characters |
| Store.ReviewsOf | api_yamdb/api/views.py:162-164 | a review belongs to the result iff it is stored and names the title |
| Store.CommentsOf | api_yamdb/api/views.py:184-186 | a comment belongs to the result iff it is stored and names the review |
| Cascade.SubStoreStaysValid | api_yamdb/reviews/models.py:116-208 | a store made of unchanged rows of a valid store is valid as soon as its foreign keys resolve |
| Cascade.DeleteCategory | api_yamdb/reviews/models.py:116-123 | deleting a category removes exactly that category row and deletes no title; the titles in it lose their category and keep every other field; no other table changes |
| Cascade.DeleteCategoryKeepsValid | api_yamdb/yamdb/models.py:34-40 | after the SET_NULL deletion of a category every constraint still holds |
| Cascade.DeleteGenre | api_yamdb/reviews/models.py:138-143 | deleting a genre removes exactly that genre row and the association rows naming it; users, categories, titles, reviews and comments stay |
| Cascade.DeleteGenreKeepsValid | api_yamdb/yamdb/models.py:50-58 | after a genre and its association rows go, every constraint still holds |
| Cascade.DeleteTitle | api_yamdb/reviews/models.py:144-168 | deleting a title removes exactly that title row, its association rows, its reviews and the comments on those reviews; users, categories and genres stay |
| Cascade.DeleteTitleKeepsValid | api_yamdb/reviews/models.py:138-208 | after a title and everything depending on it go, every constraint still holds |
| Cascade.DeleteReview | api_yamdb/reviews/models.py:204-208 | deleting a review removes exactly that review row and the comments on it; every other table stays |
| Cascade.DeleteReviewKeepsValid | api_yamdb/reviews/models.py:194-208 | after a review and its comments go, every constraint still holds |
| Cascade.DeleteComment | api_yamdb/reviews/models.py:194-208 | deleting a comment removes that comment row alone; every other table stays as it was |
| Cascade.DeleteCommentKeepsValid | api_yamdb/reviews/models.py:194-199 | after a comment goes, every constraint still holds |
| Cascade.DeleteUser | api_yamdb/reviews/models.py:155-160 | deleting a user removes exactly that user row, its reviews, its comments and the comments on its reviews; categories, genres, titles and association rows stay |
| Cascade.DeleteUserKeepsValid | api_yamdb/reviews/models.py:195-199 | after a user and everything it wrote go, every constraint still holds |
| Rating.TallyCountsReviews | api_yamdb/api/views.py:133-135 | the averaged count is the number of the title's reviews |
| Rating.TallySumsScores | api_yamdb/api/views.py:133-135 | the averaged sum is the sum of the scores of the title's reviews, a sum over the set of those reviews defined apart from the tally |
| Rating.TallyWithinScoreRange | api_yamdb/reviews/models.py:170-179 | with every score in 1..10, the sum lies between 1 and 10 times the count |
| Rating.TallyReadsOnlyTitle | api_yamdb/api/views.py:134 | the average of a title depends only on the reviews of that title |
| Rating.RatingIsMeanOfReviews | api_yamdb/api/views.py:133-135 | the rating is absent iff the title has no review; otherwise it is the sum of the scores of the title's reviews over their number, and lies within the score range |
| Rating.RatingAfterNewReview | api_yamdb/api/views.py:133-135 | a new review adds its score to its title's sum and one to its count, and leaves every other title's rating unchanged |
| Tokens.CheckToken | api_yamdb/api/serializers.py:145 | a code checks for a user iff it is the code made for that user's current row |
| Tokens.CodeBindsUser | api_yamdb/users/serializers.py:66-67 | a code made for one user never checks for another |
| Tokens.IssueToken | api_yamdb/api/serializers.py:153-154 | the access token is issued for the confirmed user |
| Fields.ValidateYear | api_yamdb/api/serializers.py:205-216 | accepted iff 1 <= year <= current year, returned unchanged; a year below 1 and a year after the current one are refused with distinct reasons |
| Fields.ValidateScore | api_yamdb/reviews/models.py:170-175 | a score is accepted iff it lies in 1..10, and is returned unchanged |
| Fields.CheckScore | api_yamdb/api/serializers.py:225-229 | the score field is accepted iff present with a value in 1..10, or absent on a partial update |
| Fields.CheckText | api_yamdb/reviews/models.py:162-164 | a text field is accepted iff it is non-blank with at most 200 characters, or absent on a partial update; absent on a create is a missing field |
| Fields.ModelYearCheck | api_yamdb/reviews/models.py:100-107 | the column accepts iff 1 <= year <= the year read at import |
| Fields.LegacyModelYearCheck | api_yamdb/yamdb/models.py:25-33 | the older column accepts iff 1455 <= year <= the year read at import; an earlier year is below the minimum |
| Fields.AcceptedYearAsWritten | api_yamdb/api/serializers.py:188-216 | as written, a year is accepted iff it is at least 1 and at most both the import year and the current year |
| Fields.FrozenYearRejectsCurrentYear | api_yamdb/reviews/models.py:103-106 | once the calendar moves past the import year, the current year is refused as written although `validate_year` accepts it |
| Fields.CheckMaxValue | api_yamdb/users/serializers.py:8-14 | on an integer it refuses iff the value exceeds the limit, so the limit itself passes; on a string it raises |
| Fields.LegacyLastNameCheckRaises | api_yamdb/users/serializers.py:44 | every non-blank last name given to the older UserSerializer makes its validator raise; a blank one is refused by the field first |
| Fields.CheckLastName | api_yamdb/api/serializers.py:38-41 | a last name is accepted iff it is non-blank with at most 150 characters, and is returned unchanged |
| Signup.CheckSignupUsername | api_yamdb/api/serializers.py:96-102 | accepted iff at most 150 characters, matching the pattern and not "me"; "me", and only "me", is refused as the reserved name |
| Signup.CheckSignupEmail | api_yamdb/api/serializers.py:76-94 | accepted iff non-blank, at most 254 characters, not held without the username existing, and equal to the email of the user with the username; each refusal carries its reason |
| Signup.ValidateSignup | api_yamdb/api/serializers.py:67-102 | a signup body is valid iff both fields pass, and the validated data is the submitted pair |
| Signup.GetOrCreate | api_yamdb/api/serializers.py:106-112 | it returns the user with the email; a known email leaves the store unchanged; otherwise exactly one new inactive user with the username is added |
| Signup.AddUserKeepsValid | api_yamdb/users/models.py:17-25 | adding a user whose username and email are unused and whose username is non-blank and fits keeps every constraint |
| Signup.GetOrCreateAfterValidation | api_yamdb/api/serializers.py:79-112 | after validation, get-or-create returns a user with both the email and the username, and the store stays valid |
| Signup.SignupRequest | api_yamdb/api/serializers.py:104-126 | invalid data is a 400 that saves nothing; valid data registers the pair, creating an inactive user only for a new email; the mail carries a code that checks for that user |
| Signup.SignupIsIdempotent | api_yamdb/api/serializers.py:79-112 | after a valid signup exactly one user has the email, and it has the username; repeating the signup changes nothing, and every delivered mail goes to the email with a code that checks for that user |
| Signup.Activate | api_yamdb/api/serializers.py:150-151 | activation sets the user's active flag and changes nothing else |
| Signup.ActivateIsIdempotent | api_yamdb/api/serializers.py:150-151 | activating an active user changes nothing |
| Signup.ActivationKeepsValid | api_yamdb/reviews/models.py:24-43 | activation keeps every constraint |
| Signup.CheckConfirmUsername | api_yamdb/api/serializers.py:132 | the username field accepts exactly the non-blank usernames of at most 150 characters; blank and over-long are distinct field errors |
| Signup.ConfirmRequest | api_yamdb/api/serializers.py:129-157 | a blank or over-150 username and a blank code are field errors; then an unknown username is not found and a wrong code is a validation error; no failure saves anything; otherwise the named user is activated and gets a token |
| Signup.SignupCodeConfirms | api_yamdb/api/serializers.py:113-157 | the mailed code confirms the user it was mailed for, who is then active |
| Signup.ConfirmWithCheckingCode | api_yamdb/api/serializers.py:143-157 | a user confirmed with a checking code is activated and receives its token |
| Signup.ReconfirmationSucceeds | api_yamdb/api/serializers.py:143-148 | confirming again with the same code succeeds again and changes nothing further |
| LegacyAuth.CheckLegacyFields | api_yamdb/users/serializers.py:17-20 | the older fields accept iff the email is non-blank and the username has 1 to 150 characters |
| LegacyAuth.LegacySignupRequest | api_yamdb/users/serializers.py:22-38 | with valid fields, a conflict (the uncaught IntegrityError, a server error) occurs iff the username or email is stored; otherwise exactly one new inactive user is stored and the mail carries that user's code |
| LegacyAuth.LegacySignupKeepsValid | api_yamdb/users/models.py:17-25 | the older signup keeps every constraint: it stores a user only when the username and email are unused |
| LegacyAuth.InactiveUserNamed | api_yamdb/users/serializers.py:61-62 | the lookup finds an inactive user of that name, or nothing iff every user of that name is active |
| LegacyAuth.LegacyConfirmRequest | api_yamdb/users/serializers.py:52-76 | a blank or over-150 username and a blank code are field errors; past the fields every failure is the same validation error; no failure saves anything; success iff an inactive user of that name has a checking code, and then it is activated |
| LegacyAuth.LegacyConfirmKeepsValid | api_yamdb/users/serializers.py:69-70 | the older confirmation keeps every constraint |
| LegacyAuth.ActiveUserCannotConfirm | api_yamdb/users/serializers.py:61-64 | an active user cannot confirm, whatever the code; a non-blank code fails as a wrong one |
| LegacyAuth.ConfirmationHappensOnce | api_yamdb/users/serializers.py:62-70 | after one successful confirmation every further one fails |
| LegacyAuth.LegacySignupCodeConfirms | api_yamdb/users/serializers.py:22-76 | the code the older signup mails confirms the user it created |
| LegacyAuth.MailedCodeConfirms | api_yamdb/users/serializers.py:66-70 | an inactive user confirms with the code made for its own row |
| Profile.UsernameFreeAsWritten | api_yamdb/api/serializers.py:58-64 | as written, a username passes iff no stored user holds it, the user being edited included |
| Profile.UsernameFreeFor | api_yamdb/api/serializers.py:60 | corrected, a username passes iff no user other than the one being edited holds it |
| Profile.OwnUsernameRejectedAsWritten | api_yamdb/api/serializers.py:59-63 | resubmitting one's own username is refused as written and accepted by the corrected check |
| Profile.CheckProfileUsername | api_yamdb/api/serializers.py:42-45 | accepted iff non-blank, at most 150 characters, matching the pattern and held by no other user |
| Profile.CheckProfileEmail | api_yamdb/reviews/models.py:34-37 | accepted iff non-blank, at most 254 characters and held by no other user |
| Profile.CheckRoleChoice | api_yamdb/api/serializers.py:33-37 | accepted iff the string is one of the three role choices, which it then names |
| Profile.ValidatePatch | api_yamdb/api/serializers.py:30-56 | a partial body is valid iff every supplied field passes its check, and the validated data carries the submitted values |
| Profile.Apply | api_yamdb/api/views.py:81 | saving a partial update replaces exactly the supplied fields and keeps the superuser and active flags |
| Profile.MeGet | api_yamdb/api/views.py:90-91 | an authenticated requester receives its own row; the anonymous user is refused |
| Profile.MePatch | api_yamdb/api/views.py:77-89 | anonymous is refused; an invalid body is a 400 that saves nothing; a valid body changes only the requester's row, keeping its role and superuser flag |
| Profile.MePatchKeepsValid | api_yamdb/api/views.py:78-81 | a `me` PATCH keeps every constraint |
| Profile.NoSelfPromotion | api_yamdb/api/views.py:80 | whatever role is submitted, the admin and moderator rights after the PATCH are those before it |
| Profile.SubmittedRoleIsIgnored | api_yamdb/api/views.py:80-81 | two accepted bodies that differ only in the role save the same row |
| Reviews.ValidateBody | api_yamdb/api/serializers.py:219-234 | a review body is valid iff text and score pass their checks, both being required except on a partial update |
| Reviews.ReviewBy | api_yamdb/api/serializers.py:244 | the lookup finds a review of that title by that author, or nothing iff none exists |
| Reviews.AddReviewKeepsValid | api_yamdb/reviews/models.py:184-188 | adding a review whose author has not yet reviewed the title, with a score in range, keeps every constraint, one review per title and author included |
| Reviews.ListReviews | api_yamdb/api/views.py:155-164 | the listing holds exactly the reviews of the URL's title; a missing title is not found |
| Reviews.PostReview | api_yamdb/api/views.py:166-168 | success iff authenticated, valid body, existing title and no earlier review by the requester; the new review has the requester as author and the URL's title |
| Reviews.PostReviewKeepsValid | api_yamdb/api/serializers.py:236-249 | creating a review keeps every constraint |
| Reviews.SecondReviewRefused | api_yamdb/api/serializers.py:242-248 | after a review is posted, a second POST by the same author for the same title is refused and saves nothing |
| Reviews.PostReviewUpdatesRating | api_yamdb/api/views.py:133-134 | a posted review adds its score to its title's rating and changes no other title's rating |
| Reviews.FindReview | api_yamdb/api/views.py:157-164 | a review is found iff the title exists and the review is one of its reviews |
| Reviews.MayChange | api_yamdb/api/permissions.py:39-44 | an unsafe request on a review passes iff authenticated, the review is under the title, and the requester is admin, moderator or its author |
| Reviews.Revise | api_yamdb/api/serializers.py:231-234 | an edit replaces the supplied text and score and keeps the author and the title |
| Reviews.EditReview | api_yamdb/api/serializers.py:242-243 | an edit is never refused as a duplicate; it succeeds iff permitted and the body is valid; it keeps author and title and replaces only that review |
| Reviews.EditReviewKeepsValid | api_yamdb/reviews/models.py:170-188 | editing a review keeps every constraint |
| Reviews.PutReviewKeepsValid | api_yamdb/reviews/models.py:181-188 | replacing a review by one with the same author and title and a score in range keeps every constraint |
| Reviews.PlainUsersEditOnlyTheirOwn | api_yamdb/api/permissions.py:41-45 | a plain user's valid edit of a review succeeds iff it wrote the review |
| Reviews.RemoveReview | api_yamdb/api/views.py:148-152 | a deletion succeeds iff permitted; it removes the review and its comments, and the store stays valid |
| Comments.ListComments | api_yamdb/api/views.py:184-186 | the listing holds exactly the comments of the URL's review; a missing review is not found |
| Comments.PostComment | api_yamdb/api/views.py:188-190 | success iff authenticated, the review exists and the text is valid; the comment has the requester as author and the URL's review |
| Comments.PostCommentKeepsValid | api_yamdb/reviews/models.py:194-208 | creating a comment keeps every constraint |
| Comments.TitleInPathIgnored | api_yamdb/api/views.py:177-182 | posting and listing do not depend on the title key in the URL, even one that is not the review's title |
| Comments.MayChange | api_yamdb/api/permissions.py:39-45 | an unsafe request on a comment passes iff authenticated, the comment is on the review, and the requester is admin, moderator or its author |
| Comments.EditComment | api_yamdb/api/serializers.py:252-265 | an edit succeeds iff permitted and the text is valid; it keeps the author and the review and replaces only the text |
| Comments.EditCommentKeepsValid | api_yamdb/reviews/models.py:201-203 | editing a comment keeps every constraint |
| Comments.PutCommentKeepsValid | api_yamdb/reviews/models.py:195-208 | replacing a comment by one with the same author and review keeps every constraint |
| Comments.RemoveComment | api_yamdb/api/views.py:171-175 | a deletion succeeds iff permitted and removes that comment alone |
| Comments.WhoMayRemoveComments | api_yamdb/api/permissions.py:42-45 | a moderator may delete any comment; a plain user only its own |
| Catalog.CategoryWithSlug | api_yamdb/api/mixins.py:18 | the lookup by slug finds a category with that slug, or nothing iff none has it |
| Catalog.CheckNameAndSlug | api_yamdb/reviews/models.py:57-66 | a body is valid iff the name has 1 to 256 characters and the slug 1 to 50 |
| Catalog.CreateCategory | api_yamdb/api/views.py:103-107 | success iff the requester is admin, the fields are valid and the slug is new; it adds exactly that category |
| Catalog.CreateCategoryKeepsValid | api_yamdb/reviews/models.py:62-66 | creating a category keeps every constraint, unique slugs included |
| Catalog.AddCategoryKeepsUnique | api_yamdb/yamdb/models.py:9 | adding a category with an unused slug keeps category slugs unique |
| Catalog.CreateGenre | api_yamdb/api/views.py:110-114 | success iff the requester is admin, the fields are valid and the slug is new; it adds exactly that genre |
| Catalog.CreateGenreKeepsValid | api_yamdb/reviews/models.py:81-85 | creating a genre keeps every constraint, unique slugs included |
| Catalog.AddGenreKeepsUnique | api_yamdb/yamdb/models.py:17 | adding a genre with an unused slug keeps genre slugs unique |
| Catalog.RemoveCategory | api_yamdb/api/mixins.py:7-19 | a deletion by slug succeeds iff the requester is admin and a category has the slug; its titles lose their category |
| Catalog.RemoveGenre | api_yamdb/api/mixins.py:7-23 | a deletion by slug succeeds iff the requester is admin and a genre has the slug; its association rows go |
| Catalog.CreateThenRemoveCategory | api_yamdb/reviews/models.py:116-123 | creating a category and deleting it by slug restores the categories and touches no title |
| Titles.SerializerFor | api_yamdb/api/views.py:141-145 | the writing serializer is chosen iff the action is create, update or partial update |
| Titles.SerializerFollowsMethod | api_yamdb/api/views.py:139-145 | every safe request reads through TitleSerializer, and every unsafe one except a deletion writes through TitleCreateSerializer |
| Titles.Distinct | api_yamdb/reviews/models.py:124-128 | the genre keys are kept once each, with the same membership |
| Titles.ResolveCategory | api_yamdb/api/serializers.py:196-199 | the category field resolves iff a non-blank slug names a stored category, and yields that category |
| Titles.ResolveGenres | api_yamdb/api/serializers.py:191-195 | the genre field resolves iff every slug names a stored genre, the empty string included, and yields those genres in order; otherwise the failure is an unknown slug |
| Titles.EmptyGenreSlugResolves | api_yamdb/api/serializers.py:191-195 | a genre list holding the empty string resolves to the stored genre with the empty slug, since list items get no blank check |
| Titles.ValidateTitle | api_yamdb/api/serializers.py:188-216 | a title body is valid iff each field passes; the draft carries the submitted fields, the named category, and exactly the named genres, each once |
| Titles.ResolvedGenresBySlug | api_yamdb/reviews/models.py:81-85 | under unique genre slugs, the resolved keys are exactly the genres whose slug is listed |
| Titles.AddLinksGenres | api_yamdb/reviews/models.py:138-148 | adding association rows for a list of genres adds exactly those genres to the title |
| Titles.AddLinksKeepsValid | api_yamdb/yamdb/models.py:50-58 | association rows between an existing title and existing genres keep every constraint |
| Titles.CreateTitle | api_yamdb/api/views.py:130-139 | success iff the requester is admin and the body is valid; it stores the drafted title and its genre links |
| Titles.CreatedTitleContents | api_yamdb/api/serializers.py:188-199 | a created title has the submitted name and a year within 1 and the current year, is linked to exactly the listed genres, and has no rating |
| Titles.NewTitleHasNoReviews | api_yamdb/api/views.py:133-135 | a newly stored title has no rating |
| Titles.NewTitleLinks | api_yamdb/reviews/models.py:124-128 | a new title is linked to exactly the drafted genres |
| Titles.NewTitleKeepsValid | api_yamdb/reviews/models.py:95-128 | a title with an existing category, a year of at least 1 and existing genres keeps every constraint |
| Titles.TitleRowKeepsValid | api_yamdb/reviews/models.py:100-123 | the title row alone keeps every constraint |
| Titles.CreateTitleKeepsValid | api_yamdb/reviews/models.py:95-148 | creating a title keeps every constraint |
| Titles.ShowTitle | api_yamdb/api/views.py:133-136 | a title is shown iff it exists; its rating is absent iff it has no review, and otherwise is the sum of the scores of its reviews over their number, within the score range |
| Titles.RemoveTitle | api_yamdb/api/views.py:130-139 | a deletion succeeds iff the requester is admin and the title exists; it removes the title, its links, its reviews and their comments |

## Left out

- Python's `\w` matches Unicode letters and digits; the model uses its ASCII part (`Usernames.IsWordChar`).
- Email syntax (`EmailField`) is taken as given; only blank and length are checked. Whitespace trimming by `CharField` is not modelled.
- Confirmation codes are opaque. The real generator hashes the key, password, last login, timestamp and email. The model keeps the key and email, and does not model expiry. Because the timestamp is dropped, a repeated signup mails the same code in the model; in the program it mails a new code that also checks. JWT encoding is not modelled.
- `send_mail` is the `delivered` parameter. Its failure leaves the user row stored.
- `datetime.now()` is the `currentYear` parameter, and the import-time year is the `importYear` parameter.
- Authentication is reduced to a bearer naming a stored user key. Token parsing and inactive-user handling by the JWT layer are not modelled.
- Pagination, filtering (`TitleFilterSet`) and search are not modelled. `Titles.ShowTitle` models a single title, not the filtered listing.
- The rating is a sum and count. The float from `Avg` and its coercion to an integer are not modelled.
- Validation reports only the first failing field, not every field's error.
- `UserViewSet`'s admin CRUD (list, create, retrieve, delete by username) is left out. So is its `destroy` override for "me". The `me` action is modelled.
- `first_name` and `pub_date` are not part of the rows. Slug syntax (`SlugField`) is not checked.
- Title update (PUT/PATCH through TitleCreateSerializer) is not modelled; title creation, display and deletion are.
- The older users/views.py and the routing tables are framework plumbing and are not modelled. Of the genre and category viewset base in api/mixins.py, the slug lookup, the permission class and the create, list and destroy actions are modelled in `Catalog`; its pagination and name search are not. The CSV import and db_clear commands are bulk I/O and are not modelled.
- Name length in the older schema of yamdb/models.py (200) is not modelled separately. Its year floor, SET_NULL and cascades are: `Fields.LegacyModelYearCheck`, `Cascade`.
- Tokens.IssueToken: states only which user the token is for, because the token's encoding is opaque here.

## Findings

| source | as written | input that shows it | evidently intended | confidence | as-written member | corrected member |
|---|---|---|---|---|---|---|
| api_yamdb/reviews/models.py:100-107 | the Title year column caps the year at `datetime.now().year` read once at import; TitleCreateSerializer copies that cap onto its year field before `validate_year` runs | a server started in year Y, with the title posted in year Y+1 for year Y+1 | `validate_year`'s per-request bound: any year from 1 to the current year | medium, not executed | Fields.AcceptedYearAsWritten (counterexample: Fields.FrozenYearRejectsCurrentYear) | Fields.ValidateYear, used by Titles.ValidateTitle |
| api_yamdb/api/serializers.py:58-64 | `validate_username` refuses any username held by any user, including the user being edited | a `me` PATCH by user "alice" whose body repeats `"username": "alice"` | refuse a username only when another user holds it | high, not executed | Profile.UsernameFreeAsWritten (counterexample: Profile.OwnUsernameRejectedAsWritten) | Profile.UsernameFreeFor, used by Profile.MePatch |
| api_yamdb/users/serializers.py:8-14 | the custom `MaxValueValidator(150)` on the `last_name` CharField compares a str with an int, which raises TypeError | any older UserSerializer body with `"last_name": "Smith"` | a length limit of 150 characters | high, not executed | Fields.CheckMaxValue (counterexample: Fields.LegacyLastNameCheckRaises) | Fields.CheckLastName, used by Profile.ValidatePatch |
