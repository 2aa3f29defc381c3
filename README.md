# Blog content and identity lifecycle, modelled in Dafny

This project models the server-side core of two small PHP blog applications:

- `final-project`: a multi-user blog with an admin area and a public site;
- `mini-blog-admin`: a single-table post manager.

The model covers how these page scripts create, edit and delete users, posts
and comments, and how they store and remove uploaded images. It also covers
what each script checks first and what it leaves behind when a step fails.

## How the model is built

- **Database.** The database is a value: tables as sequences of rows in
  storage order, AUTO_INCREMENT counters, and the set of file names in the
  upload directory (`Blog.Store`, `MiniBlog.MiniStore`).
  - A `SELECT ... WHERE` is a filter over a table (`Query.Where`).
  - `fetch()` is the first matching row (`Query.First`).
  - An `ORDER BY` is a sorted permutation (`Query.SortBy`).
  - `Blog.Valid` states what the tables promise: positive, distinct ids below
    their counters, and unique usernames, emails and post slugs.
- **Requests.** Each page request is a pure specification function from the
  old store and session to the new store, session and response, for example
  `AddPost.AddPostSpec`.
- **Handlers.** Each request handler is also a method on a `Blog.Site` or
  `MiniBlog.MiniSite` object. The object holds the same tables, file set and
  session as fields. The method changes them step by step in the order the
  script does. Its `ensures` states that the new state and the response are
  exactly those of the specification function.
- **Stand-ins for foreign code.** Calls into code outside the model are
  parameters: password hashing and verification, `filter_var`, `strip_tags`,
  `uniqid`, `time`, `move_uploaded_file`, `htmlspecialchars`, `urlencode`
  and the URL sanitizer.
  - The success or failure of each database statement is a parameter too.
  - `final-project/config.php:13` sets `ERRMODE_EXCEPTION`, so a failing
    statement there throws. The model's error is `Db("")`, whose text is the
    driver's message.
- **PHP semantics.** `empty()` on a string is `Php.Empty`: "" and "0" are
  both empty. `trim` strips PHP's default whitespace set. `strtolower` is
  ASCII lower-casing. Strings are sequences of bytes.

The model follows the code as written:
- `createSlug` has no placeholder fallback for a title that leaves nothing:
  the slug is then "".
- Slug allocation does not retry when the INSERT violates a uniqueness
  constraint.
- `makeSlug` in the add and edit pages does not trim `-`: "Hello!" gives the
  base "hello-".
- The edit-post and profile image replacement unlinks the old file before
  moving the new one. A failed move therefore leaves the row naming a file
  that no longer exists.
- No request is transactional with the file writes. Three cases leave a
  stored file that no row names: a failed post insert
  (AddPost.FailedInsertOrphansImage), a failed mini-blog insert
  (MiniCreate.FailedInsertOrphansFile) and the deletion of a user, whose
  posts' images stay on disk (AdminUsers.DeleteUserOrphansImages). A failed
  registration insert does unlink its upload again
  (Register.FailedInsertRemovesUpload).

## Model

| member | source | states |
|---|---|---|
| Php.Trim | final-project/config.php:47-48 | the result is no longer than the input, has no trimmed character at either end, and an input already bare at both ends is returned unchanged |
| Php.Empty | final-project/admin/add_post.php:69 | `empty()` of a string is true exactly for "" and "0" |
| Php.TrimIsInfix | final-project/config.php:47-48 | `trim` keeps one contiguous run of the input, and every character it drops before or after that run is in the trimmed set |
| Php.Lower | final-project/config.php:47 | `strtolower` keeps the length and lower-cases each byte independently |
| Php.LowerConcat | final-project/config.php:47 | lower-casing distributes over concatenation |
| Php.Prefix | final-project/config.php:75 | `substr($s, 0, n)` is the first min(n, strlen) bytes |
| Php.Decimal | final-project/admin/add_post.php:54 | the decimal text of a counter is a non-empty string of digits, one digit long exactly below 10 |
| Php.DecimalInjective | final-project/admin/add_post.php:54 | different counters print differently |
| Php.Extension | final-project/admin/add_post.php:30 | `pathinfo(..., PATHINFO_EXTENSION)` contains no dot and no slash |
| Php.ExtensionAfterLastDot | final-project/admin/add_post.php:30 | a non-empty extension is the end of the name directly after its last dot, with no `/` after that dot; it is empty only when the name ends in a dot or every dot has a `/` after it |
| Query.First | final-project/public/login.php:23-28 | `fetch()` is None exactly when no row matches, and otherwise the earliest matching row |
| Query.FirstUnique | final-project/admin/posts.php:15-18 | under a unique key, the row fetched by that key is the only one with it |
| Query.Where | final-project/admin/posts.php:66-71 | a WHERE keeps exactly the rows of the table that pass, and no more rows than the table has |
| Query.WhereCongruent | final-project/admin/posts.php:47-69 | two filters that agree on every row select the same rows |
| Query.WhereDisjointCount | final-project/admin/posts.php:82-98 | rows passing one of two exclusive filters, both within a third, are no more than those passing the third |
| Query.SortBy | final-project/public/post.php:35 | ORDER BY gives a sorted permutation of the rows |
| Query.WhereKeepsDistinct | final-project/admin/posts.php:27-28 | deleting rows keeps a UNIQUE column unique |
| Query.AppendKeepsDistinct | final-project/admin/add_post.php:91-96 | inserting a row whose key no row has keeps the column unique |
| Config.Guard | final-project/config.php:23-44 | access is granted iff `user_id` is set and, for admin pages, the role is exactly "admin"; otherwise the redirect goes to the login page or to the index with "Admin access required." |
| Config.IsLoggedIn | final-project/config.php:23-25 | signed in iff `user_id` is set in the session |
| Config.IsAdmin | final-project/config.php:27-29 | admin only when `role` is set and is exactly "admin"; an unset or any other role is not |
| Config.ReplaceRuns | final-project/config.php:47 | the replacement leaves only characters of `[A-Za-z0-9-]` |
| Config.ReplaceRunsKeeps | final-project/config.php:47 | text made only of kept characters passes through unchanged, so existing hyphens are not collapsed |
| Config.ReplaceRunsLetters | final-project/config.php:47 | the replacement contains a letter or digit iff the title does |
| Config.SlugBase | final-project/admin/add_post.php:43 | the untrimmed slug base contains only `[a-z0-9-]` |
| Config.CreateSlug | final-project/config.php:46-49 | the slug contains only `[a-z0-9-]` and never starts or ends with `-` |
| Config.HyphenTrimEmpty | final-project/config.php:48 | trimming `-` leaves nothing iff the text is all hyphens |
| Config.CreateSlugEmpty | final-project/config.php:46-49 | the slug is empty iff the title has no ASCII letter or digit; there is no fallback |
| Config.CreateSlugFixes | final-project/config.php:46-49 | a string that is already a slug is its own slug |
| Config.CreateSlugIdempotent | final-project/config.php:46-49 | applying createSlug twice gives the same slug as once |
| Config.CreateSlugKeepsHyphens | final-project/config.php:47 | "a - b" gives "a---b" |
| Config.ReplaceThreeWords | final-project/config.php:47 | three words separated by runs of other characters become the words joined by single hyphens |
| Config.CreateSlugThreeWords | final-project/config.php:46-49 | three words with separator runs between them give the lower-cased words joined by `-`, both before and after trimming |
| Config.TrailingSeparator | final-project/admin/add_post.php:43 | a word followed by a separator run keeps a trailing `-` in makeSlug's base but not in createSlug |
| Config.CreateSlugHelloWorld | final-project/config.php:46-49 | "Hello, World! 2024" gives "hello-world-2024" |
| Config.Truncate | final-project/config.php:71-76 | a text no longer than the limit is returned unchanged; otherwise the result is its first n bytes and "...", n+3 long |
| Config.TruncateIdempotent | final-project/config.php:71-76 | truncating a truncated text changes nothing |
| Uploads.Unlink | final-project/admin/edit_post.php:49-51 | a truthy file name is removed from the directory; null, "" and "0" leave it as it is |
| Uploads.ReplaceImage | final-project/admin/edit_post.php:32-63 | no file keeps the old image and writes nothing; a type or size rejection throws its message and changes no file; once the checks pass, success is exactly a working move: the old file is unlinked and the new name `prefix` + token + "." + extension is added and returned, while a failed move throws "Failed to upload image." with the old file already unlinked (also `uploadProfileImage`, profile.php:20-56) |
| Uploads.AddImage | final-project/admin/add_post.php:9-39 | no received file gives null and writes nothing; a type or size rejection throws its message and writes nothing; a stored file is named `post_` + token + "." + extension and added to the directory; a failed move writes nothing; once the checks pass, success is exactly a working move |
| Uploads.Received | final-project/admin/add_post.php:10 | a file counts as received exactly when the entry is set and its error code is `UPLOAD_ERR_OK` |
| Uploads.CheckImage | final-project/admin/add_post.php:14-23 | the type check runs first and gives the page's type message; an allowed type above 5 MB gives "Image file is too large. Maximum size is 5MB."; the file passes iff its type is allowed and its size is at most 5 MB (the same checks are at edit_post.php:37-46, profile.php:25-34 and, on the sniffed type with WebP allowed, register.php:69-83) |
| Uploads.StoredName | final-project/admin/add_post.php:31 | the stored name is the prefix, then the `uniqid()` token, then ".", then the original name's extension, and nothing else |
| Uploads.ChooseImage | final-project/admin/edit_post.php:107-118 | removal wins over any upload: the field becomes null and the old file is unlinked; otherwise the upload step decides |
| Uploads.ReplaceLosesOldFile | final-project/admin/edit_post.php:49-60 | when the move fails after the checks passed, the old file is already gone and the error is "Failed to upload image." |
| Uploads.TypeCheckedFirst | final-project/admin/add_post.php:17-23 | a disallowed type is reported whatever the size |
| Uploads.SizeBoundInclusive | final-project/admin/add_post.php:15-23 | exactly 5 MiB is accepted and one byte more is refused |
| Uploads.RegisterUpload | final-project/public/register.php:64-95 | no file gives null and writes nothing; a type or size rejection of the sniffed type (JPEG, PNG, GIF or WebP, at most 5 MiB, type first) gives that check's error and writes nothing; once the checks pass the upload succeeds iff the move works, a failed move giving the move error; a stored file is `profile_` + token + "." + the lower-cased extension, added to the directory |
| Uploads.RegisterIgnoresDeclaredType | final-project/public/register.php:69-74 | registration judges the sniffed type, never the client-declared one |
| Blog.Site.UploadImage | final-project/admin/add_post.php:9-39 | the method's new file set and result are those of the upload specification; nothing else changes |
| Blog.Site.ChangeImage | final-project/admin/edit_post.php:107-118 | the remove-or-replace step on the site follows its specification and touches only the file set |
| AddPost.Candidate | final-project/admin/add_post.php:54 | probe 0 is the base itself and every later probe is longer |
| AddPost.CandidateInjective | final-project/admin/add_post.php:54 | different probe numbers give different candidates |
| AddPost.ProbeBound | final-project/admin/add_post.php:48-55 | if the first k probes are all taken, at least k slugs are taken, which bounds the loop |
| AddPost.FirstFree | final-project/admin/add_post.php:48-55 | the probe stops at the first free candidate, after at most one probe more than there are taken slugs |
| AddPost.FirstFreeIsLeast | final-project/admin/add_post.php:48-55 | any n whose candidate is free while all earlier ones are taken is the probe's result |
| AddPost.SlugFor | final-project/admin/add_post.php:42-58 | the allocated slug is not in use (excluding the edited post) and is one of the first `taken+1` candidates |
| AddPost.MakeSlug | final-project/admin/add_post.php:42-58 | the probing loop returns the slug the specification allocates, which no other post uses |
| AddPost.MakeSlugKeepsTrailingHyphen | final-project/admin/add_post.php:43 | "Hello!" gives the base "hello-", while createSlug gives "hello" |
| AddPost.SecondPostGetsSuffix | final-project/admin/add_post.php:48-55 | when only the base is taken the slug is base + "-1" |
| AddPost.SecondHelloWorld | final-project/admin/add_post.php:42-58 | a second "Hello, World! 2024" post gets "hello-world-2024-1" |
| AddPost.AutoExcerpt | final-project/admin/add_post.php:86-88 | a non-empty excerpt is kept; an empty one becomes the first 200 bytes of the tag-stripped content plus "...", even for shorter content |
| AddPost.ValidatePost | final-project/admin/add_post.php:69-74 | validation passes iff title and content are non-empty; an empty title gives "Title is required.", otherwise an empty content gives "Content is required." |
| AddPost.AddPostSpec | final-project/admin/add_post.php:61-107 | the session, users and comments never change; without a login nothing changes and the page redirects to the login form; the store changes only for a valid form; posts change only by one appended row after a working insert; ids and slugs stay unique |
| AddPost.InsertPost | final-project/admin/add_post.php:80-102 | the file set is the upload step's; on success exactly one row is appended (next id, title, slug, content, the excerpt rule's excerpt, the stored image name or null, the author, status, the request time), the counter advances and the page redirects with the saved message; on any failure the posts and counter are unchanged; validity is kept when the slug is free |
| AddPost.AddPostNeedsLogin | final-project/admin/add_post.php:3 | without a login the page only redirects |
| AddPost.AddPostValidatesFirst | final-project/admin/add_post.php:69-83 | a validation error is shown before the slug, the upload or the insert touch anything |
| AddPost.AddPostAppends | final-project/admin/add_post.php:61-102 | a post is added only for a logged-in author, a valid form, an accepted upload and a working insert; the appended row is the whole row the INSERT writes from the trimmed fields, the allocated slug, the excerpt rule and the stored image |
| AddPost.AddPostWithoutFile | final-project/admin/add_post.php:80-96 | with no received file the new row has no featured image and no file is written |
| AddPost.AddPostStoresUpload | final-project/admin/add_post.php:30-96 | an accepted, moved file is added to the directory as `post_` + token + "." + extension and named by the new row |
| AddPost.AddPostRejectsBadImage | final-project/admin/add_post.php:14-23 | a received file of the wrong declared type or over 5 MB shows its message and leaves the posts and the upload directory unchanged |
| AddPost.FailedInsertOrphansImage | final-project/admin/add_post.php:80-105 | when the insert fails after a stored upload, the file stays in the directory and no row names it |
| AddPost.HandleAddPost | final-project/admin/add_post.php:61-107 | the handler's new state and response are exactly the add-post specification's |
| AddPost.StorePost | final-project/admin/add_post.php:80-102 | the upload, excerpt and insert steps on the site are exactly those of InsertPost |
| EditPost.EditablePost | final-project/admin/edit_post.php:14-29 | the fetched post has the id and belongs to the user unless the user is an admin; none is found iff no such row exists |
| EditPost.SetPost | final-project/admin/edit_post.php:126-129 | the UPDATE rewrites exactly the rows with the id and keeps the row count |
| EditPost.EditPostSpec | final-project/admin/edit_post.php:6-142 | an edit never changes users, comments, the session or the post counter |
| EditPost.UpdatePost | final-project/admin/edit_post.php:107-138 | the file set follows the remove-or-replace step; the update succeeds iff that step succeeds and the query works; success rewrites exactly the post's row with the title, slug, content, the excerpt rule's excerpt, the chosen image and the status, keeping id, author and creation time, and redirects with the updated message; any failure leaves the posts unchanged; validity is kept when the slug is free |
| EditPost.SetPostKeepsValid | final-project/admin/edit_post.php:126-129 | rewriting a post with a slug no other post has keeps the tables valid |
| EditPost.OwnSlugFree | final-project/admin/edit_post.php:66-82 | excluding its own id, a post's stored slug is free |
| EditPost.EditNeedsOwnership | final-project/admin/edit_post.php:14-29 | a non-admin editing a post they do not own is redirected with "Post not found or access denied." |
| EditPost.AdminFindsAnyPost | final-project/admin/edit_post.php:14-22 | an admin can load any existing post |
| EditPost.EditKeepsSlug | final-project/admin/edit_post.php:101-104 | an unchanged title keeps the stored slug whatever else changes |
| EditPost.EditReslugs | final-project/admin/edit_post.php:66-82 | a changed title gets a fresh slug that no other post uses |
| EditPost.EditKeepsValid | final-project/admin/edit_post.php:85-142 | editing keeps ids and slugs unique |
| EditPost.EditRemoveWins | final-project/admin/edit_post.php:109-118 | with remove_image, the old file is unlinked and the row's image becomes null even when a file was uploaded |
| EditPost.EditNoFileKeepsImage | final-project/admin/edit_post.php:33-35 | without removal or a received file, the row keeps its current image and no file is touched |
| EditPost.EditStoresNewImage | final-project/admin/edit_post.php:48-62 | an accepted, moved file replaces the old one: the old name is unlinked, `post_` + token + "." + extension is added, and the row names the new file |
| EditPost.EditMoveFailureLosesImage | final-project/admin/edit_post.php:49-60 | a failed move shows the error and keeps the row, whose image file has already been unlinked |
| EditPost.HandleEditPost | final-project/admin/edit_post.php:6-142 | the handler's new state and response are exactly the edit specification's |
| EditPost.ApplyEdit | final-project/admin/edit_post.php:107-138 | the image, excerpt and update steps on the site are exactly those of UpdatePost |
| AdminPosts.PostsWithout | final-project/admin/posts.php:27-28 | the delete removes exactly the rows with the id |
| AdminPosts.CommentsWithoutPost | final-project/admin/posts.php:27-28 | the cascade removes exactly the comments of the post |
| AdminPosts.DeletePostSpec | final-project/admin/posts.php:9-31 | a non-admin gets "Unauthorized action." and an unknown id "Post not found.", both changing nothing; success removes the post and its comments and unlinks its image |
| AdminPosts.DeletePostRemovesAll | final-project/admin/posts.php:24-30 | after a successful delete no row and no comment of the post remains, and nothing else is removed |
| AdminPosts.DeletePostUnlinksFirst | final-project/admin/posts.php:24-26 | the post's image is gone even when the row delete then fails |
| AdminPosts.DeletePostKeepsValid | final-project/admin/posts.php:9-31 | deleting a post keeps the tables valid |
| AdminPosts.PostsPageSpec | final-project/admin/posts.php:104-121 | the page needs a login; only an admin's delete request changes anything |
| AdminPosts.PostsPageNeverUnauthorized | final-project/admin/posts.php:104-115 | the page never reports "Unauthorized action.", because it only calls deletePost for admins |
| AdminPosts.DeletePost | final-project/admin/posts.php:9-31 | the method's new state and error are exactly the delete specification's |
| AdminPosts.HandlePostsPage | final-project/admin/posts.php:104-121 | the handler's new state and response are exactly the page specification's |
| AdminPosts.PlaceholdersConcat | final-project/admin/posts.php:71 | placeholder counts add up over concatenated query text |
| AdminPosts.Conditions | final-project/admin/posts.php:47-64 | the author filter is present iff the viewer is not an admin, and is then first; the status and search filters are present iff their inputs are non-empty; nothing else is added, at most three conditions |
| AdminPosts.ClauseBindsParams | final-project/admin/posts.php:47-64 | each appended condition has as many `?` as the parameters it appends |
| AdminPosts.QueryBindsParams | final-project/admin/posts.php:66-71 | the WHERE text has exactly as many placeholders as bound parameters |
| AdminPosts.ParamCount | final-project/admin/posts.php:47-64 | there are (non-admin ? 1 : 0) + (status ? 1 : 0) + (search ? 2 : 0) parameters, matching the placeholders |
| AdminPosts.ParamsAppend | final-project/admin/posts.php:47-64 | parameters accumulate in condition order |
| AdminPosts.Rows | final-project/admin/posts.php:37-45 | each selected post gets exactly one joined row, in order |
| AdminPosts.GetPosts | final-project/admin/posts.php:34-76 | the listing is ordered by creation time descending and has one row per selected post |
| AdminPosts.GetPostsMembers | final-project/admin/posts.php:34-76 | a row is listed iff its post exists with an author, is the user's own unless the user is an admin, has the status when one is given, and contains the search text in title or content when one is given |
| AdminPosts.ConditionsMeaning | final-project/admin/posts.php:47-69 | the appended conditions all hold iff the scope, status and search filters, each applied only when present, all hold |
| AdminPosts.GetPostsScope | final-project/admin/posts.php:47-50 | a non-admin sees only their own posts; an admin with no filters sees every post that has an author |
| AdminPosts.GetPostStats | final-project/admin/posts.php:79-101 | the published and draft counts never exceed the total |
| AdminPosts.StatsMatchListing | final-project/admin/posts.php:79-101 | the total, published and draft counts equal the lengths of the listing with no filter, the "published" filter and the "draft" filter |
| AdminUsers.WithoutUser | final-project/admin/users.php:25-31 | deleting a user removes them, their posts, their comments and the comments on their posts, and nothing else |
| AdminUsers.DeleteUserSpec | final-project/admin/users.php:10-32 | self-deletion is refused before any lookup; an unknown id gives "User not found."; success unlinks the profile image and applies the cascade |
| AdminUsers.DeleteUserKeepsValid | final-project/admin/users.php:10-32 | deleting a user keeps the tables valid |
| AdminUsers.DeleteUserOrphansImages | final-project/admin/users.php:25-31 | the cascade removes the user's posts but leaves their image files in the directory |
| AdminUsers.SetRole | final-project/admin/users.php:43-45 | only the target user's role changes |
| AdminUsers.UpdateRoleSpec | final-project/admin/users.php:35-46 | a self role change is refused before the role is checked; only "user" and "admin" are accepted; failure changes nothing |
| AdminUsers.UpdateRoleKeepsValid | final-project/admin/users.php:35-46 | changing a role keeps the tables valid |
| AdminUsers.UpdateRoleKeepsRolesAllowed | final-project/admin/users.php:40-45 | if every stored role is allowed, it stays so |
| AdminUsers.UsersPageSpec | final-project/admin/users.php:3-4 | every action on the page needs an admin session |
| AdminUsers.AdminCannotDemoteOrDeleteSelf | final-project/admin/users.php:11-13 | the signed-in admin's own row survives every request to the page |
| AdminUsers.DeleteUser | final-project/admin/users.php:10-32 | the method's new state and error are exactly the delete specification's |
| AdminUsers.UpdateUserRole | final-project/admin/users.php:35-46 | the method's new state and error are exactly the role specification's |
| AdminUsers.HandleUsersPage | final-project/admin/users.php:74-100 | the handler's new state and response are exactly the page specification's |
| Profile.ValidateProfile | final-project/admin/profile.php:97-103 | validation passes iff both fields are non-empty and the email is valid; a missing field gives the both-required message, otherwise an invalid email gives the invalid-email message |
| Profile.Taken | final-project/admin/profile.php:106-110 | a name or email counts as taken iff a row other than the user's own has it |
| Profile.OwnNamesNotTaken | final-project/admin/profile.php:106-110 | keeping one's own username and email is never a clash |
| Profile.PasswordChange | final-project/admin/profile.php:113-132 | an empty new password keeps the stored hash; otherwise the change succeeds iff the current password is given and verifies, the new one is at least 6 long and equals the confirmation, and stores its hash |
| Profile.ChangePassword | final-project/admin/profile.php:113-132 | the handler's password block returns exactly what PasswordChange specifies |
| Profile.PasswordChecksInOrder | final-project/admin/profile.php:115-131 | the password errors come in the order: current missing, current wrong, new too short, mismatch |
| Profile.SetUser | final-project/admin/profile.php:149-154 | the UPDATE rewrites exactly the user's row |
| Profile.ProfileSpec | final-project/admin/profile.php:88-167 | a profile update touches only the users table and files, and changes the session only by its username, on success |
| Profile.SaveProfile | final-project/admin/profile.php:135-162 | the file set follows the remove-or-replace step; success rewrites the user's row and sets the session username; failure keeps the row and the session |
| Profile.SetUserKeepsValid | final-project/admin/profile.php:149-154 | rewriting a user with names no other row has keeps the users table valid |
| Profile.ProfileChecksBeforeFiles | final-project/admin/profile.php:97-146 | any validation, uniqueness or password error is shown before any file is removed or written |
| Profile.ProfileKeepsOwnNames | final-project/admin/profile.php:106-110 | resubmitting one's own username and email passes the uniqueness check |
| Profile.ProfileKeepsPassword | final-project/admin/profile.php:113-114 | with no new password the stored hash is written back unchanged |
| Profile.ProfileRemoveWins | final-project/admin/profile.php:137-146 | with remove_image the old file is unlinked and the image column becomes null |
| Profile.ProfileKeepsValid | final-project/admin/profile.php:88-167 | a profile update keeps the tables valid |
| Profile.HandleProfile | final-project/admin/profile.php:88-167 | the handler's new state and response are exactly the profile specification's |
| Profile.StoreProfile | final-project/admin/profile.php:135-162 | the image and update steps on the site are exactly those of SaveProfile |
| Register.Messages | final-project/public/register.php:25-51 | each problem is shown by its own message, in order |
| Register.UsernameProblems | final-project/public/register.php:28-32 | at most one username error: empty (including "0"), else shorter than 3 |
| Register.EmailProblems | final-project/public/register.php:34-38 | at most one email error: empty, else invalid |
| Register.PasswordProblems | final-project/public/register.php:40-44 | at most one password error: empty, else shorter than 6 |
| Register.Problems | final-project/public/register.php:25-50 | each error is reported iff its condition holds, at most four, and none iff the form is acceptable |
| Register.ValidateInput | final-project/public/register.php:25-51 | validateInput on the trimmed fields reports each error iff its condition holds, in field order (username, email, password, then the mismatch) with at most one per field; the mismatch is independent of the password checks |
| Register.ProblemsInFieldOrder | final-project/public/register.php:25-50 | the problems come strictly in field order, so no field is reported twice and the mismatch is last |
| Register.EmptyFormReportsAll | final-project/public/register.php:25-51 | an empty form gets the username, email and password errors together |
| Register.ZeroUsernameIsEmpty | final-project/public/register.php:28-29 | the username "0" counts as missing |
| Register.CheckUniqueFields | final-project/public/register.php:53-62 | unique iff the query runs and no row has the username or the email; a database error reads as not unique |
| Register.CreateUserSpec | final-project/public/register.php:97-135 | a clash is refused before any upload; success appends one user with the next id and the chosen image; failure leaves the users table as it was |
| Register.SaveUser | final-project/public/register.php:115-134 | the insert appends the new user only when the upload succeeded and the insert works; a failed insert unlinks the upload and gives the generic message |
| Register.InsertUserKeepsValid | final-project/public/register.php:115-124 | appending a user that passed the uniqueness check keeps the users table valid |
| Register.TakenBeforeUpload | final-project/public/register.php:102-107 | a taken email stops registration with nothing written |
| Register.FailedInsertRemovesUpload | final-project/public/register.php:126-134 | when the insert fails the uploaded file is removed again |
| Register.RegisterSpec | final-project/public/register.php:5-8 | a signed-in visitor is redirected; registration touches no post or comment and keeps the tables valid |
| Register.RegisterAddsOnlyValid | final-project/public/register.php:141-157 | a user is added only for a valid, unique form and a working insert, and the page then redirects to sign-in |
| Register.RegisterImage | final-project/public/register.php:64-95 | the method's file set and result are exactly the registration upload's |
| Register.StoreUser | final-project/public/register.php:115-134 | the insert on the site is exactly SaveUser |
| Register.CreateUser | final-project/public/register.php:97-135 | the method's new state and error are exactly createUser's specification |
| Register.HandleRegister | final-project/public/register.php:141-157 | the handler's new state and response are exactly the page specification's |
| Login.SessionOf | final-project/public/login.php:36-38 | the session gets the user's id, username and role, so it is signed in, and admin iff the role is "admin" |
| Login.Authenticate | final-project/public/login.php:17-46 | empty fields fail before the lookup; a failed query gives the "temporarily unavailable" message; success iff the first row matching the input as username or email verifies the password, and the session is that row's |
| Login.UnknownAndWrongPasswordAlike | final-project/public/login.php:31-33 | an unknown login and a wrong password give the same message |
| Login.SignInByEmail | final-project/public/login.php:23-28 | a user can sign in with their email |
| Login.RegisteredUserCanSignIn | final-project/public/register.php:115-124 | a newly registered user signs in with their username and password, provided no earlier email equals that username |
| Login.EmailShadowsNewUsername | final-project/public/login.php:23-28 | an earlier row whose email equals the entered username is the one signed in |
| Login.LoginSpec | final-project/public/login.php:52-70 | a signed-in visitor is redirected; a submitted form signs in iff authentication succeeds; the store never changes |
| Login.AuthenticateUser | final-project/public/login.php:17-46 | only the session changes, and only on success, to the authenticated session |
| Login.HandleLogin | final-project/public/login.php:52-70 | the handler's new state and response are exactly the page specification's |
| PostPage.GetPost | final-project/public/post.php:11-25 | a post is returned only if its slug matches, it is published and its author exists, joined with the author; none iff no such row exists or the query fails |
| PostPage.DraftNeverShown | final-project/public/post.php:13-20 | a post that is not published is never shown by its slug |
| PostPage.PublishedFoundBySlug | final-project/public/post.php:13-20 | a published post with an author is found by its slug |
| PostPage.CommentRows | final-project/public/post.php:29-34 | each listed comment gets exactly one joined row |
| PostPage.GetComments | final-project/public/post.php:27-42 | the comments are in ascending creation order, one per approved comment of the post whose author exists; none when the query fails |
| PostPage.GetCommentsMembers | final-project/public/post.php:29-37 | a comment is listed iff it belongs to the post, is approved and has an author |
| PostPage.AddComment | final-project/public/post.php:44-59 | empty content after trimming is refused; otherwise the trimmed content is appended with the next id, and a failed insert changes nothing |
| PostPage.InsertCommentKeepsValid | final-project/public/post.php:50-54 | appending a comment with the next id keeps the comments table valid |
| PostPage.BlankCommentRefused | final-project/public/post.php:45-48 | whitespace-only content, or "0", gets "Please enter a comment." |
| PostPage.PostPageSpec | final-project/public/post.php:62-91 | an unknown slug redirects home; only a signed-in user's comment changes the store, and then exactly as addComment does |
| PostPage.PostedCommentListedIff | final-project/public/post.php:81-91 | a posted comment redirects back to the post, and it appears in the list iff the column default status is "approved" |
| PostPage.InsertComment | final-project/public/post.php:44-59 | the method's new state and error are exactly addComment's specification |
| PostPage.HandlePostPage | final-project/public/post.php:62-91 | the handler's new state and response are exactly the page specification's |
| MiniBlog.Messages | mini-blog-admin/create_post.php:13-15 | each problem is shown by its own message, in order |
| MiniBlog.FieldProblems | mini-blog-admin/create_post.php:14-15 | the title and content errors are each reported iff the field is empty, title first |
| MiniBlog.ImageProblems | mini-blog-admin/create_post.php:18-28 | for a received file, type and size errors are each reported iff the check fails, both together when both fail |
| MiniBlog.Validate | mini-blog-admin/edit_post.php:32-47 | title, content, type and size errors all accumulate, each iff its condition holds |
| MiniBlog.ListPosts | mini-blog-admin/posts.php:33-35 | the list holds every post, newest first |
| MiniCreate.CreateUpload | mini-blog-admin/create_post.php:30-42 | a file is moved only when there is no error so far, under `time()_name`; a failed move adds the error and writes nothing |
| MiniCreate.CreateSpec | mini-blog-admin/create_post.php:7-62 | a login is required; a post is inserted only for a valid form and a working insert; a file is written only for a valid form with a received file |
| MiniCreate.Insert | mini-blog-admin/create_post.php:46-61 | the insert runs only with no errors, appends one row with the next id and redirects; its failure adds its message |
| MiniCreate.InsertKeepsValid | mini-blog-admin/create_post.php:46-52 | appending a post with the next id keeps the ids distinct |
| MiniCreate.ProblemsBlockUploadAndInsert | mini-blog-admin/create_post.php:13-46 | with any validation error, nothing is written and the errors are shown |
| MiniCreate.StoredImageName | mini-blog-admin/create_post.php:10-36 | the image column is '' with no upload and `time()_name` otherwise |
| MiniCreate.FailedInsertOrphansFile | mini-blog-admin/create_post.php:36-61 | a failing insert after a successful move leaves the file with no row naming it |
| MiniCreate.MoveUpload | mini-blog-admin/create_post.php:18-43 | the upload step on the site is exactly CreateUpload |
| MiniCreate.HandleCreate | mini-blog-admin/create_post.php:7-62 | the handler's new state and response are exactly the create specification's |
| MiniEdit.ReplaceUpload | mini-blog-admin/edit_post.php:49-66 | a file is moved only when there is no error; the old file is unlinked only after a successful move; a failed move keeps the old image name |
| MiniEdit.SetMiniPost | mini-blog-admin/edit_post.php:73-74 | the UPDATE rewrites exactly the rows with the id |
| MiniEdit.SetMiniPostKeepsValid | mini-blog-admin/edit_post.php:73-74 | rewriting a row keeps the ids distinct |
| MiniEdit.EditSpec | mini-blog-admin/edit_post.php:7-84 | a missing id or post goes back to the list; posts change only for a valid form and a working update |
| MiniEdit.Update | mini-blog-admin/edit_post.php:71-83 | the update runs only with no errors, rewriting the row; otherwise the store is as it was |
| MiniEdit.FailedMoveKeepsOldImage | mini-blog-admin/edit_post.php:58-66 | a failed move keeps the old file and the old name |
| MiniEdit.ReplaceMovesThenUnlinks | mini-blog-admin/edit_post.php:58-63 | after a successful move the new file is present and the old one gone |
| MiniEdit.SameNameReplaceLosesFile | mini-blog-admin/edit_post.php:55-63 | a new file arriving under the stored name is unlinked right after its move, so the row names a missing file |
| MiniEdit.NoFileKeepsImage | mini-blog-admin/edit_post.php:29 | without a new upload the stored image name is written back |
| MiniEdit.FailedUpdateAfterReplace | mini-blog-admin/edit_post.php:58-83 | an update failing after a replace keeps the row, whose old file is already unlinked |
| MiniEdit.MoveReplacement | mini-blog-admin/edit_post.php:49-67 | the upload step on the site is exactly ReplaceUpload |
| MiniEdit.HandleEdit | mini-blog-admin/edit_post.php:7-84 | the handler's new state and response are exactly the edit specification's |
| MiniPosts.ImageOf | mini-blog-admin/posts.php:14-17 | the image read before the delete is the post's, or '' for a missing row |
| MiniPosts.PostsSpec | mini-blog-admin/posts.php:5-30 | any signed-in user may delete; a successful DELETE removes the rows and then unlinks the image read before; otherwise nothing changes |
| MiniPosts.DeleteKeepsValid | mini-blog-admin/posts.php:20-21 | deleting rows keeps the ids distinct |
| MiniPosts.DeleteRemovesRowAndFile | mini-blog-admin/posts.php:15-25 | after the delete no row has the id and its image file is gone |
| MiniPosts.FailedDeleteKeepsFile | mini-blog-admin/posts.php:21-28 | a DELETE that does not succeed leaves the files alone |
| MiniPosts.DeleteMissingReportsSuccess | mini-blog-admin/posts.php:19-26 | deleting an unknown id reports success and changes nothing |
| MiniPosts.HandlePosts | mini-blog-admin/posts.php:5-30 | the handler's new state and response are exactly the page specification's |
| MiniLogin.MiniLoginSpec | mini-blog-admin/login.php:6-29 | empty fields stop before the lookup; sign-in succeeds iff the first row with the username verifies the password, setting user id and username and nothing else |
| MiniLogin.UnknownAndWrongPasswordAlike | mini-blog-admin/login.php:18-24 | an unknown user and a wrong password give the same message |
| MiniLogin.LookupByUsernameOnly | mini-blog-admin/login.php:14 | no row with the username means no sign-in, whatever the emails |
| MiniLogin.SignInKeepsRole | mini-blog-admin/login.php:19-20 | signing in never sets the role |
| MiniLogin.HandleMiniLogin | mini-blog-admin/login.php:6-29 | the handler's new state and response are exactly the page specification's |

## Left out

- HTML rendering, flash display and client-side scripts are not modelled. These are presentation only.
- `timeAgo` (final-project/config.php:51-69) is not modelled. It depends on the wall clock.
- The dashboard, index, about and logout pages, and mini-blog-admin/header.php, are not part of this model. They only display counts or plumb sessions.
- `getAllUsers`, `getUserStats` and `getUserActivity` are not modelled. They are read-only display queries.
- mini-blog-admin/config.php's `isLoggedIn` is final-project's `Config.IsLoggedIn`. db.php, which it loads, is not part of this model.
- Concurrency is not modelled. Each request runs alone on the store, so the race between a uniqueness check and the insert is out of scope.
- The foreign calls listed below are parameters of the model:
  - `password_hash`, `password_verify` and `filter_var`;
  - `strip_tags` and `finfo_file`;
  - `uniqid`, `time` and `move_uploaded_file`;
  - `htmlspecialchars`, `urlencode` and `FILTER_SANITIZE_URL`.
- `mkdir` and the `file_exists` test are not modelled. The upload directory is assumed to exist. Removing a name from the file set stands for `unlink`.
- `error_log` is not modelled.
- The database driver's own error text is not spelled out: `Db("")` stands for "prefix + driver message".
- AdminUsers.WithoutUser, AdminPosts.CommentsWithoutPost: the ON DELETE CASCADE from users to posts and comments, and from posts to comments, is a schema assumption, relied on by AdminUsers.DeleteUserSpec and AdminPosts.DeletePostSpec (final-project/admin/posts.php:28 deletes only the post row). The schema is not part of this model.
- AdminPosts.GetPostsMembers: `LIKE` wildcards inside the search term are not interpreted. The search is a plain substring test.
- Register.CreateUserSpec: the new row's role is the column default "user", which is not visible in the code.
- PostPage.AddComment: the comment's status is the column default, a parameter, because the schema is not part of this model.
- The `created_at` values written by `NOW()` come from a clock parameter. Rows with equal times may be ordered either way.
- EditPost.UpdatePost, Profile.SetUser: the `updated_at = NOW()` column (final-project/admin/edit_post.php:128, final-project/admin/profile.php:151) is not modelled. Post and user rows carry no update time, and nothing in the core reads `updated_at`.
- String comparison in SQL is modelled as exact, case-sensitive equality. This covers `=`, `LIKE` and the UNIQUE keys. The connection uses utf8mb4 (final-project/config.php:12), whose default collation compares case-insensitively and ignores trailing spaces. So a login, slug or uniqueness match that differs only in letter case is not modelled. This affects Login.Authenticate, Register.CheckUniqueFields, Profile.Taken, PostPage.GetPost, AddPost.SlugFor and AdminPosts.GetPostsMembers.
- Failures of the read queries are not modelled in several places:
  - mini-blog-admin posts.php, login.php and edit_post.php;
  - the final-project fetches outside login, the public post page and registration's `checkUniqueFields`.
  
  Those queries are taken to succeed. The three exceptions take a `queryOk` parameter: Login.Authenticate, PostPage.PostPageSpec and Register.CheckUniqueFields.
- EditPost.UpdatePost, Profile.SaveProfile: `remove_image == '1'` (a loose comparison, edit_post.php:109 and profile.php:137) is a boolean input.
- MiniEdit.EditSpec: `$_GET['id']` is compared loosely with 0 and bound as text. The model takes an integer id and treats 0 as missing.
- MiniPosts.PostsSpec: `$_GET['delete']` (mini-blog-admin/posts.php:12, 16, 20) is bound as text. The model takes an integer id, so a non-numeric or padded value is not modelled.
- MiniPosts.PostsSpec: a DELETE that throws aborts the page, because posts.php has no try/catch there. The model's response is `Aborted`.
