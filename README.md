# Sova blog backend — a verified Dafny model

Sova is a blog with a JSON API: users register and sign in with bearer
tokens, editors and administrators write posts, signed-in users comment,
and anyone may read published posts. This project models the backend's
request handling in Dafny and proves what it promises.

The model covers:
- the post policy (`viewAny`, `view`, `create`, `update`, `delete`);
- the route table, in three tiers: public, signed in, and signed-in administrator;
- the two post form requests, with the validator semantics their rules rely on:
  `required`, `sometimes`, `nullable`, `string`, `max`, `min`, `email`, `in`,
  `date_format:Y-m-d H:i:s` and `unique`;
- the post controller's listing (the filter, ordering by `updated_at` and pages of 10), show, store, update and destroy;
- comment creation;
- registration, sign-in and sign-out;
- the administrator-only user list.

Modules follow the source files:
- `Types`: the rows of `users`, `posts` and `comments`; the requester; request fields; failures.
- `DateFormat`: the `Y-m-d H:i:s` format and its parse/format round trip.
- `Validation`: how one field is judged against a rule list.
- `PostPolicy`, `Routes`, `PostRequests`, `PostController`, `CommentController`,
  `AuthController`, `UserController`: one per source file.
- `Blog`: a class holding the tables and the issued tokens. Its methods are the state-changing requests.

A request is answered in the framework's order:
1. The token guard refuses a guest on a guarded route (401).
2. Route model binding refuses an unknown post (404).
3. The controller's resource authorization checks the policy (403).
4. The form request's `authorize` (403), then its rules (422).
5. The handler runs. A write the database refuses (a duplicate slug, a failing insert) gives 500. The model assumes the database stores every value the rules accept (see "## Left out").

A refused request changes nothing, with one exception. When a comment's insert succeeds but loading its author afterwards fails, the answer is 500 and the comment stays stored.

A request field is missing, null, a string, a number or boolean (judged
by the string PHP casts it to), or an array or object (judged by its number
of entries). Blank strings become null before validation.

Slugging (`Str::slug`), password hashing and the e-mail validator are given
functions, fixed when the store is created. Time is an integer number of
seconds, passed in as `now`.

The listing and the single-post view disagree at one instant:
- The listing shows a guest posts with `published_at <= now` (`PostController.php` line 31).
- `view` requires `published_at` to be strictly in the past (`isPast()`, `PostPolicy.php` line 26).

So a post whose publication time is exactly `now` is listed to guests, but opening it is refused. The model keeps this behaviour, and `PostController.ListedButNotViewableAtNow` proves the gap exists and is exactly that one instant.

## Model

| member | source | states |
|---|---|---|
| PostPolicy.ViewAnyAllowsEveryone | sova-backend/app/Policies/PostPolicy.php:15-18 | every requester, guests included, may list posts |
| PostPolicy.PastPostVisibleToAll | sova-backend/app/Policies/PostPolicy.php:24-28 | a post published strictly before `now` may be viewed by anyone |
| PostPolicy.UnpublishedVisibleToOwnerOrAdmin | sova-backend/app/Policies/PostPolicy.php:24-31 | a draft, or a post scheduled at or after `now`, may be viewed exactly by its owner or an administrator, never by a guest |
| PostPolicy.CreateIffSignedIn | sova-backend/app/Policies/PostPolicy.php:37-40 | creating is allowed iff the requester is an editor or an administrator, which is the same as being signed in |
| PostPolicy.UpdateIffOwnerOrAdmin | sova-backend/app/Policies/PostPolicy.php:45-49 | updating is allowed iff the requester is signed in and owns the post or is an administrator |
| PostPolicy.DeleteAgreesWithUpdate | sova-backend/app/Policies/PostPolicy.php:54-58 | deleting is allowed exactly when updating is |
| PostPolicy.AdminMayDoAnything | sova-backend/app/Policies/PostPolicy.php:24-58 | an administrator may view, update and delete any post |
| PostPolicy.OtherEditorsMayNotChange | sova-backend/app/Policies/PostPolicy.php:45-58 | an editor may neither update nor delete another user's post |
| PostPolicy.OwnerMaySeeAndChange | sova-backend/app/Policies/PostPolicy.php:24-58 | the owner may view, update and delete their post, published or not |
| PostPolicy.GuestMayOnlyRead | sova-backend/app/Policies/PostPolicy.php:37-58 | a guest may not create, update or delete (those abilities need a user) |
| Routes.EndpointsDistinct | sova-backend/routes/api.php:23-51 | no two routes share a verb and a path |
| Routes.ReadingAndSigningInArePublic | sova-backend/routes/api.php:23-51 | listing, showing, registering and signing in are outside the token guard |
| Routes.WritingNeedsSignIn | sova-backend/routes/api.php:27-47 | every route in the token group other than the user list admits exactly signed-in requesters and answers a guest with 401 |
| Routes.UserListNeedsAdmin | sova-backend/routes/api.php:38 | the user list admits exactly administrators: 401 for a guest, 403 for an editor |
| Routes.CurrentUserReply | sova-backend/routes/api.php:29-36 | `/user` returns the resolved user, or 401 when none was resolved |
| Routes.CurrentUserBehindGuard | sova-backend/routes/api.php:27-36 | behind the token guard the handler's own 401 branch is never taken |
| DateFormat.ParseFormat | sova-backend/app/Http/Requests/StorePostRequest.php:30 | formatting a valid date-time and reading it back gives the same date-time |
| DateFormat.FormatParse | sova-backend/app/Http/Requests/StorePostRequest.php:30 | a string accepted as `Y-m-d H:i:s` is a valid date-time that formats back to the same string |
| DateFormat.ParseAccepts | sova-backend/app/Http/Requests/StorePostRequest.php:30 | a string is accepted with value d iff d is a valid date-time whose format is that string |
| DateFormat.TimestampMonotonic | sova-backend/app/Policies/PostPolicy.php:26 | for valid date-times, an earlier date-time has a smaller timestamp, and two date-times are equal iff their timestamps are |
| Validation.RequiredBoundedText | sova-backend/app/Http/Requests/StorePostRequest.php:27 | `required|string|max:N` plus further rules passes exactly non-blank text of at most N characters that passes the further rules |
| Validation.NullableBoundedText | sova-backend/app/Http/Requests/StorePostRequest.php:29 | `nullable|string|max:N` passes a missing, null or blank field, and otherwise exactly text of at most N characters |
| Validation.NullableDate | sova-backend/app/Http/Requests/StorePostRequest.php:30 | `nullable|date_format` passes a missing, null or blank field, and otherwise exactly text, or a number, whose string form parses as a date-time; an array never passes |
| Validation.SometimesSkips | sova-backend/app/Http/Requests/UpdatePostRequest.php:33-40 | a rule list headed by `sometimes` passes a missing field and otherwise judges the field by the rest of the list |
| PostRequests.AuthorizeIsSignedIn | sova-backend/app/Http/Requests/StorePostRequest.php:13-17 | both requests' `authorize` refuses (403) exactly a guest |
| PostRequests.ValidateStore | sova-backend/app/Http/Requests/StorePostRequest.php:13-33 | a create request succeeds iff a user sent it and no field fails; a failure names the failing fields; success hands on the sent title (non-blank, unused, at most 255 characters) and body (non-blank), the sent image path (at most 2048 characters) and the date-time the sent date parses to, each of the last two absent exactly when it was missing, null or blank |
| PostRequests.StoreErrorsExact | sova-backend/app/Http/Requests/StorePostRequest.php:24-33 | for each of the four fields, the exact raw inputs it is reported for: a number or array as image path, and an array or a number or text that does not parse as date, are reported |
| PostRequests.RequiredText | sova-backend/app/Http/Requests/StorePostRequest.php:28 | `required|string` passes exactly non-blank text |
| PostRequests.ValidateUpdate | sova-backend/app/Http/Requests/UpdatePostRequest.php:14-44 | an update request succeeds iff a user sent it and no field fails; each field is handed on iff it was sent; a sent title is non-blank, at most 255 characters and no other post's title, a sent body is non-blank, both as sent; a sent image path is handed on as sent and a sent date as the date-time it parses to, each as null exactly when sent null or blank |
| PostRequests.UpdateErrorsExact | sova-backend/app/Http/Requests/UpdatePostRequest.php:28-44 | for each field, the exact raw inputs it is reported for; a missing field is never reported |
| PostRequests.OwnTitleStaysAvailable | sova-backend/app/Http/Requests/UpdatePostRequest.php:30-38 | re-sending a post's own title is not a uniqueness failure, because the rule ignores the post being updated |
| PostController.ResourceAbility | sova-backend/app/Http/Controllers/PostController.php:16 | the resource routes, and only they, are bound to a policy ability |
| PostController.ResourceWiring | sova-backend/app/Http/Controllers/PostController.php:16 | update and destroy get the same verdict, store is allowed exactly for a signed-in requester, index for everyone, and show exactly as `view` decides |
| PostController.FilterListed | sova-backend/app/Http/Controllers/PostController.php:24-32 | the listing keeps exactly the rows the requester may list, each as often as it occurs in the table |
| PostController.SortByLatest | sova-backend/app/Http/Controllers/PostController.php:22 | the rows in order of latest update first, a permutation of the input |
| PostController.PageOf | sova-backend/app/Http/Controllers/PostController.php:34 | page p holds the rows from position (p-1)*10 on, in order: 10 while that many remain, the remaining ones on the last page, none past the end |
| PostController.PagesUpToLast | sova-backend/app/Http/Controllers/PostController.php:34 | a page holds rows exactly when there are rows and its number is at most the last page number |
| PostController.LastPage | sova-backend/app/Http/Controllers/PostController.php:34 | the last page number is at least 1, its pages cover every row, and it starts at an existing row unless there are none |
| PostController.ResolvePage | sova-backend/app/Http/Controllers/PostController.php:34 | a page number below 1, or none, means page 1 |
| PostController.Index | sova-backend/app/Http/Controllers/PostController.php:19-36 | the page is page p of the listed rows sorted by latest update, so it holds exactly as many rows as page p of `total` rows does; every row is listed and from the table; total and last page count the listed rows |
| PostController.StaffSeeEverything | sova-backend/app/Http/Controllers/PostController.php:26-28 | a signed-in editor or administrator is listed every row |
| PostController.GuestSeesPublishedOnly | sova-backend/app/Http/Controllers/PostController.php:29-32 | a guest is listed a row iff its publication time is set and not after `now` |
| PostController.PagesFollowOrder | sova-backend/app/Http/Controllers/PostController.php:22-34 | row i of page p is row (p-1)*10+i of the sorted listing |
| PostController.ListedButNotViewableAtNow | sova-backend/app/Http/Controllers/PostController.php:30-31 | a post published exactly at `now` is listed to a guest but may not be viewed; that instant is the only gap; whatever a guest may view is also listed |
| PostController.Show | sova-backend/app/Http/Controllers/PostController.php:53-58 | 404 without a bound post; the post iff the policy lets the requester view it; 403 otherwise |
| PostController.StoreRecord | sova-backend/app/Http/Controllers/PostController.php:38-51 | the stored post is owned by the requester, title and body are stored as sent, its slug comes from its title, the image path is stored as sent and the date as the timestamp of the date-time sent, each null exactly when it was missing, null or blank; creation and update time are `now` |
| PostController.UpdateRecord | sova-backend/app/Http/Controllers/PostController.php:60-70 | an update keeps id, owner and creation time; every sent field takes the validated value (a date as its timestamp); the slug follows the title exactly when a title was sent; unsent fields keep their values; `updated_at` moves to `now` when some other attribute changed and stays as it was when none did |
| PostController.EmptyUpdateIsNoOp | sova-backend/app/Http/Controllers/PostController.php:60-70 | an update that sends nothing leaves the row unchanged, `updated_at` included |
| CommentController.CheckComment | sova-backend/app/Http/Controllers/CommentController.php:20-29 | 422 iff the body is not non-blank text of at most 2000 characters; otherwise 401 iff a guest sent it; on success the body is stored as sent |
| CommentController.ValidationBeforeSignIn | sova-backend/app/Http/Controllers/CommentController.php:23-29 | inside the handler the body is validated before the handler's own sign-in check: given no requester and a bad body, it answers 422 on the body (the token guard answers a guest 401 before the handler runs) |
| UserController.Index | sova-backend/app/Http/Controllers/UserController.php:14-25 | an editor gets 403; an administrator gets every user, in order, as id, name, e-mail, role and creation time |
| UserController.IndexIgnoresPasswords | sova-backend/app/Http/Controllers/UserController.php:22 | the answer does not depend on any stored password hash |
| AuthController.ValidateRegistration | sova-backend/app/Http/Controllers/AuthController.php:13-27 | registration succeeds iff no field fails; on success the name, e-mail and password are as sent, the e-mail is unused, the password has at least 6 characters, and the role is administrator exactly when `admin` was sent (editor by default) |
| AuthController.RegistrationErrorsExact | sova-backend/app/Http/Controllers/AuthController.php:15-20 | for each of the four fields, the exact raw inputs it is reported for; the role fails unless missing, `admin` or `editor` |
| AuthController.EmailPasses | sova-backend/app/Http/Controllers/AuthController.php:17 | the e-mail rules pass exactly non-blank, well-formed, unused text of at most 255 characters |
| AuthController.PasswordPasses | sova-backend/app/Http/Controllers/AuthController.php:18 | the password rules pass exactly non-blank text of at least 6 characters |
| AuthController.RolePasses | sova-backend/app/Http/Controllers/AuthController.php:19 | the role rules pass a missing role or exactly `admin` or `editor` |
| AuthController.LoginErrorsExact | sova-backend/app/Http/Controllers/AuthController.php:34-37 | sign-in reports the e-mail unless it is well-formed text, and the password exactly when it is missing, null, blank or an empty array (numbers, booleans and non-empty arrays pass `required`) |
| AuthController.FindByEmail | sova-backend/app/Http/Controllers/AuthController.php:39 | the lookup finds a stored user with that address, and finds none iff no user has it |
| AuthController.Login | sova-backend/app/Http/Controllers/AuthController.php:32-46 | sign-in succeeds only with valid fields, a stored user with that address, and a password (text, or a number or boolean as its string form) whose hash is the stored one; invalid fields give 422 on those fields; valid fields with an unknown address give the bad-credentials 422 whatever the password; 500 exactly when a non-empty array is sent as password for a known address |
| AuthController.UnknownEmailLooksLikeWrongPassword | sova-backend/app/Http/Controllers/AuthController.php:39-46 | for a text, number or boolean password, an unknown address and a wrong password give the same answer, and every failure of a well-formed sign-in is that answer |
| AuthController.ScalarPasswordAsText | sova-backend/app/Http/Controllers/AuthController.php:36-41 | a number or boolean password gets the same answer as its string form sent as text |
| AuthController.LoginAfterRegister | sova-backend/app/Http/Controllers/AuthController.php:22-41 | after registering with an unused address, signing in with the same password succeeds and yields the new user |
| Blog.StoreDecision | sova-backend/app/Http/Controllers/PostController.php:38-51 | creating a post: 401 for a guest, 422 naming the failing fields; for a valid request from a signed-in user, success exactly when the title's slug is not taken and otherwise 500; a new post has the next id, is owned by the requester, has the sent title (no post's yet) with its slug, the sent body, the sent image path and the timestamp of the sent date, each of the last two null exactly when missing, null or blank, and creation and update times `now` |
| Blog.UpdateDecision | sova-backend/app/Http/Controllers/PostController.php:60-70 | updating a post: 401, 404, 403 unless owner or administrator, 422; for a valid request the owner or an administrator may make, success exactly when the resulting slug (the sent title's, or the kept one) is no other post's and otherwise 500; the result keeps id, owner and creation time; each field not sent keeps its value; a sent title (no other post's) and body are taken as sent, the slug following the title; a sent image path is taken as sent and a sent date as its timestamp, each null exactly when sent null or blank; `updated_at` becomes `now` when any other attribute changed and stays when none did |
| Blog.UpdateKeepsTitlesUnique | sova-backend/app/Http/Requests/UpdatePostRequest.php:33-38 | an accepted update leaves every other post with a different title |
| Blog.SlugIdentifiesPost | sova-backend/database/migrations/2025_05_27_131535_create_posts_table.php:18 | a slug names at most one post |
| Blog.Blog.constructor | sova-backend/database/migrations/2025_05_27_131535_create_posts_table.php:13-22 | an empty store satisfies every table invariant |
| Blog.Blog.Holder | sova-backend/routes/api.php:27 | a token resolves only if it was issued, and then to the stored user it was issued to |
| Blog.Blog.Requester | sova-backend/routes/api.php:27 | the requester is signed in iff the token resolves, with that user's id and role |
| Blog.Blog.CurrentUser | sova-backend/routes/api.php:29-36 | `/user` returns the token's holder, or 401 |
| Blog.Blog.ListUsers | sova-backend/routes/api.php:38 | 401 for a guest, 403 for an editor, and every user's summary for an administrator |
| Blog.Blog.Rows | sova-backend/app/Http/Controllers/PostController.php:22 | reading the table yields every stored post exactly once |
| Blog.Blog.ListPosts | sova-backend/app/Http/Controllers/PostController.php:19-36 | the answer is `PostController.Index` over the table read once, each post exactly once: page p of the listed posts sorted by latest update; `total` is the number of stored posts the requester may list, the whole table for a signed-in requester |
| Blog.ListedTotal | sova-backend/app/Http/Controllers/PostController.php:24-36 | read from a table keyed by id, each row once, the listing has one row per stored post the requester may list |
| Blog.Blog.ShowPost | sova-backend/app/Http/Controllers/PostController.php:53-58 | 404 iff no post has the slug; otherwise that one post if the requester may view it, else 403 |
| Blog.Blog.StorePost | sova-backend/app/Http/Controllers/PostController.php:38-51 | answers as `StoreDecision`; on success the post is added under an unused id and the next post id advances by one; nothing else changes, and unique slugs and titles are kept |
| Blog.Blog.UpdatePost | sova-backend/app/Http/Controllers/PostController.php:60-70 | answers as `UpdateDecision`; on success only that post is replaced, no id counter moves, and unique slugs and titles are kept |
| Blog.Blog.DestroyPost | sova-backend/app/Http/Controllers/PostController.php:72-78 | 401, 404, or 403 unless the policy allows deleting; on success exactly that post is removed; no id counter moves |
| Blog.Blog.StoreComment | sova-backend/app/Http/Controllers/CommentController.php:20-47 | 401 for a guest, 404 for an unknown post, then `CheckComment`; a failing insert gives 500 and stores nothing; a failing load of the author after the insert gives 500 with the comment kept; on success one comment by the requester on that post is appended under the next comment id, which advances by one |
| Blog.Blog.Register | sova-backend/app/Http/Controllers/AuthController.php:13-30 | answers as `ValidateRegistration`; on success one user is appended under the next user id, which advances by one, with the password stored hashed, and e-mail addresses stay unique |
| Blog.Blog.Login | sova-backend/app/Http/Controllers/AuthController.php:32-56 | answers as `AuthController.Login`; on success a new token is issued under the next token id, which advances by one, and resolves to that user |
| Blog.Blog.Logout | sova-backend/app/Http/Controllers/AuthController.php:58-66 | 401 when the token does not resolve; otherwise exactly that token is revoked and no longer resolves, and every other token is kept; no id counter moves |

## Left out

- Array fields: only their number of entries is modelled, which is all `required`, `max` and `min` look at. An array never passes `string`, `email`, `in` or `date_format`. `unique` is modelled as passing an array; in every rule list here it follows `string`, which refuses one.
- Input trimming: the framework's middleware trims every non-password string. The model only turns blank strings into null, so text with surrounding blanks is kept as sent.
- Database collation: `unique` and the sign-in lookup `where('email', …)` (`AuthController.php` line 39) compare strings exactly. Under a case-insensitive database collation both would ignore case.
- The e-mail validator, `Str::slug` and the password hasher are given functions. Hashing is modelled as deterministic, without bcrypt's salt.
- Tokens: a token is an id mapped to its user. Plain-text token values, token hashing, abilities and expiry are not modelled.
- Responses: JSON bodies and messages, and the relations loaded into them (`user:id,name`, `comments.user`), are not modelled. The model returns the rows.
- Pagination metadata beyond the page, the total, the page size and the last page (links, `from`, `to`) is not modelled. A page parameter that is not an integer is treated as missing.
- Logging, the time zone, and the frontend are not modelled.
- The default authentication guard is not part of this model. On the public routes `GET /posts` and `GET /posts/{slug}` the model takes the requester to be the bearer token's holder, or a guest when no token resolves. If the default guard does not read bearer tokens, every requester there is a guest. The listing then shows everyone only published posts, and `GET /posts/{slug}` refuses a draft even to its owner.
- The `admin` route middleware is not part of this model. It is taken to refuse anyone but an administrator with 403.
- The `Post` and `User` models (fillable attributes, casts) and the comments migration are not part of this model.
- Blog.Blog.DestroyPost: leaves the deleted post's comments in place, because whether the database cascades that deletion is not shown.
- Column limits: the model assumes the database stores every value the rules accept, as SQLite does. On a database that enforces the column types, four accepted requests would instead fail with 500. (1) An image path of 256 to 2048 characters: the `image_path` column is `string` (255), while the rule allows `max:2048`. (2) A very long body: the `body` column is `text`, and no `max` rule bounds it. (3) A slug over 255 characters: `Str::slug` of a 255-character title can be longer than the `slug` column (255). (4) A publication date outside the `timestamp` column's range (1970 to 2038 on MySQL), while `date_format:Y-m-d H:i:s` accepts years 0000 to 9999.
- Response rendering is not part of this model. Every status code assumes the request expects JSON, as a request with `Accept: application/json` does. Without that header the framework redirects back on a validation failure instead of answering 422, and it sends a guest to a `login` route the routes file does not define instead of answering 401.
- PostController.SortByLatest: fixes one order among posts with equal `updated_at` (the earlier-stored post first). The database leaves that order unspecified, so tied posts may fall on different pages between two requests.
- Concurrency: each request is handled atomically. The races between a `unique` check and the insert are not modelled.
- Users are never deleted, and roles other than `admin` and `editor` never occur.
