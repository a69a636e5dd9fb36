# Blog domain rules, modelled in Dafny

This project models the domain-rule layer of a Django blog platform. Everything
around it — HTTP views, forms, templates, the ORM and the admin scaffolding — is
framework plumbing and is not modelled. The project covers five pieces.

- **Comments** (`Comments`). `Comment.clean` checks content length, then the
  parent's article, then nesting depth. The module also has the approved-replies
  query `get_replies`, `is_reply`, and the moderation permission
  `can_be_moderated_by`. It proves that inserting only new comments that pass
  `clean` keeps every thread at most two levels deep, and shows that moving a
  stored comment under a new parent can break that
  (`Comments.EditedParentCanDeepenThread`).
- **Announcements** (`Announcements`). This covers `clean`, `is_expired`,
  `is_visible`, the auto-deactivating `save`, the active and pinned queries,
  the badge lookup and the default `pinned first, newest first` ordering. The
  clock is an integer parameter `now`.
- **Profiles** (`Users`). Covers the role checks `is_author` and `is_admin`,
  the default role, and the post-save hooks that give each account exactly one
  profile.
- **Articles and taxonomy** (`Articles`). Covers slug-on-first-save for
  categories, tags and articles, `is_published`, the field defaults and
  `increment_views`. The framework's `slugify` is a function parameter and is
  left uninterpreted.
- **Admin actions** (`CommentsAdmin`, `AnnouncementsAdmin`). Covers the comment
  preview column, the bulk approve/disapprove/activate/deactivate/pin actions
  and `save_model`, which sets the creator on creation.

Shared pieces:
- `Text.Strip` is Python's `str.strip()` over the `str.isspace` white-space set.
- `Rows.Filter` and `Rows.UpdateWhere` are a queryset's `.filter` and `.update`.
  A table is a sequence of rows, and a row carries its id.
- `Results` holds the `Option`/`Outcome`/`Result` values. Validation errors
  become `Fail(...)` values instead of exceptions.

Behaviour of the code worth knowing, all stated as contracts or lemmas:
- `Comment.clean` has an "empty content" branch that can never be reached,
  because the length check before it already rejects every content that strips
  to nothing (`Comments.Clean`).
- At `expires_at == now`, `is_expired` reports "not expired", so the record is
  visible. `get_active_announcements` leaves it out, and `clean` rejects it
  (`Announcements.VisibleButNotActiveAtExpiryInstant`).
- The bulk activate action is one UPDATE and bypasses `save`. So an expired row
  can be active, though it stays invisible and out of the active query
  (`AnnouncementsAdmin.ActivatedExpiredStaysHidden`).
- A slug is not guaranteed to be non-empty after a save: if `slugify` returns
  the empty string, the slug stays empty (`Articles.SaveArticle`).
- `increment_views` goes through `Article.save`, so an in-memory instance with
  an empty slug gets one filled in. Only the `views_count` column is written,
  so the stored row changes in that column alone, and not even the
  modification stamp is refreshed (`Articles.IncrementViewsStoresOneColumn`).
- `Comment.clean` checks the new parent but not the comment's own replies. A
  top-level comment that has replies can be given a parent and still pass, which
  leaves a thread three levels deep (`Comments.EditedParentCanDeepenThread`).
- The profile hook `save_user_profile` writes the profile held in memory back
  over the stored row, so edits to it reach the table; if the row has been
  deleted meanwhile, the save inserts it again (`Users.OnAccountSaved`).

## Model

| member | source | states |
|---|---|---|
| Text.Strip | blog_project/comments/models.py:63 | the stripped text is no longer than the input, is empty exactly when every character is white space, and otherwise begins and ends with a non-space character |
| Text.StripKeepsMiddle | blog_project/comments/models.py:63 | the stripped text is a contiguous piece of the input with only white space before it and after it |
| Text.StripIdempotent | blog_project/announcements/models.py:75-79 | stripping the result of a strip returns it unchanged |
| Rows.Filter | blog_project/announcements/models.py:111-115 | a filtered queryset holds exactly the rows of the table that satisfy the condition, and never more rows than the table |
| Rows.FilterAppend | blog_project/announcements/models.py:111-115 | filtering a table made of two consecutive parts gives the filtered first part followed by the filtered second part, and a single row is kept exactly when it satisfies the condition, so a filter keeps table order |
| Rows.FilterFilter | blog_project/announcements/models.py:117-120 | chaining a second `.filter` onto a queryset is the same as filtering once by both conditions |
| Rows.CountIsFilterLength | blog_project/comments/admin.py:35 | the number an `.update` reports is the number of rows the same selection would return |
| Rows.StampOnInsert | blog_project/articles/models.py:145-148 | a creation stamp is set to the current time by the save that inserts the row and kept unchanged by every later save |
| Rows.StampFixedOnceSet | blog_project/announcements/models.py:46-49 | saving a stored row again at any later time keeps the creation stamp of its inserting save |
| Rows.UpdateWhere | blog_project/comments/admin.py:35 | an `.update` rewrites every selected row, leaves every other row unchanged, keeps the table's length and order, and reports the number of selected rows |
| Users.IsAuthor | blog_project/users/models.py:53-55 | a profile is an author exactly when its role is above plain user on the role ladder, i.e. author or admin |
| Users.IsAdmin | blog_project/users/models.py:57-59 | a profile is an admin exactly when its role is the top of the ladder; every admin is also an author |
| Users.NewProfile | blog_project/users/models.py:23-39 | a new profile belongs to its account, has empty bio, no avatar and the default role, so it is neither author nor admin |
| Users.StoreProfile | blog_project/users/models.py:69-71 | saving a loaded profile overwrites its account's row with it, or appends it when that row is gone; every other row and every other account's profile count stays the same, and the account ends with one row when it had none |
| Users.OnAccountSaved | blog_project/users/models.py:61-71 | creating an account adds one default profile and succeeds only if it had none, otherwise the one-to-one constraint fails; a later save writes the profile held in memory over the account's row, or appends it when the row is gone; with no profile in memory it changes nothing and fails exactly when the account has no profile |
| Users.CreateGivesOneProfile | blog_project/users/models.py:61-71 | after creating an account it has exactly one profile, every other account keeps its profile count, and a later save of the account, with or without the created profile in memory, changes nothing |
| Users.LaterSaveWritesLoadedProfile | blog_project/users/models.py:68-71 | a later save of an account with one profile and an edited profile in memory succeeds, leaves the account one row, stores the edited profile, and keeps every row of other accounts |
| Users.HooksKeepOneProfileEach | blog_project/users/models.py:17-22 | every successful run of the hooks keeps "no account has two profiles" and leaves the saved account with exactly one |
| Articles.SaveCategory | blog_project/articles/models.py:26-43 | saving a category fills an empty slug from its name and keeps a non-empty slug; the save that inserts it stamps the creation time with the current time, and later saves keep the stamp; id, name and description do not change |
| Articles.SaveTag | blog_project/articles/models.py:65-82 | saving a tag fills an empty slug from its name and keeps a non-empty slug; the inserting save stamps the creation time with the current time, and later saves keep the stamp; id and name do not change |
| Articles.SaveArticle | blog_project/articles/models.py:145-171 | saving an article sets the modification stamp to the current time, sets the creation stamp to it too when the save inserts the row, and changes the slug only when it was empty, then to the slug of the title; no other field changes |
| Articles.SlugFixedOnceSet | blog_project/articles/models.py:39-43 | once the slug rule has produced a non-empty slug, a save with any other name keeps it |
| Articles.CategorySlugSurvivesRename | blog_project/articles/models.py:26-43 | renaming a saved category and saving again later keeps its non-empty slug and its creation stamp |
| Articles.SaveTagIdempotent | blog_project/articles/models.py:65-82 | saving a saved tag again, at any later time, gives the same record |
| Articles.SaveArticleIdempotent | blog_project/articles/models.py:145-171 | saving an article twice at one instant gives the same record as saving it once, a later save changes only the modification stamp, so the creation stamp stays that of the first save, and a retitled article keeps its non-empty slug |
| Articles.NewArticle | blog_project/articles/models.py:135-157 | a new article is a draft, so not published, with zero views, no slug yet, no creation or modification stamp and no publication date |
| Articles.IsPublished | blog_project/articles/models.py:177-179 | an article is published exactly when its status is 'published', that is, when it is not a draft |
| Articles.SavesKeepPublication | blog_project/articles/models.py:167-184 | neither a save nor a view changes whether an article is published; only setting the status does |
| Articles.IncrementViews | blog_project/articles/models.py:181-184 | the view counter of the instance grows by exactly one; the only other possible change is an empty slug filled from the title, and the modification stamp is left alone |
| Articles.WriteViewsColumn | blog_project/articles/models.py:184 | a save restricted to `views_count` stores the instance's counter and keeps every other column of the row |
| Articles.IncrementViewsStoresOneColumn | blog_project/articles/models.py:181-184 | in storage, incrementing the views of a row changes only its counter, by exactly one |
| Articles.IncrementTimesAddsN | blog_project/articles/models.py:141-144 | n increments raise the counter by exactly n, so it never decreases |
| Comments.Clean | blog_project/comments/models.py:60-78 | too-short stripped content is reported first, then a parent on another article, then a parent that is itself a reply; a comment passes exactly when none applies; the empty-content error is never raised |
| Comments.TopLevelAcceptedOnContent | blog_project/comments/models.py:60-78 | a top-level comment is accepted exactly when its stripped content has at least 3 characters |
| Comments.CleanKeepsThreaded | blog_project/comments/models.py:70-78 | adding a new comment with a fresh id that `clean` accepts to a table where every reply's parent is a top-level comment on the same article keeps that so: depth never exceeds two |
| Comments.EditedParentCanDeepenThread | blog_project/comments/models.py:70-78 | giving a top-level comment that has a reply a top-level parent on the same article passes `clean`, yet the table is no longer threaded |
| Comments.IsReply | blog_project/comments/models.py:84-86 | a comment is a reply exactly when it has some parent |
| Comments.GetReplies | blog_project/comments/models.py:80-82 | the replies of a comment are exactly the approved rows whose parent is that comment: no unapproved child, no non-child |
| Comments.ReplyHasNoReplies | blog_project/comments/models.py:76-82 | in a threaded table with unique ids, the replies query of a reply is empty |
| Comments.CanBeModeratedBy | blog_project/comments/models.py:88-96 | a user may moderate exactly when staff, or an admin, or the article's author with author or admin role; an article author with the plain user role who is not staff may not |
| Comments.ModerationMonotone | blog_project/comments/models.py:88-96 | raising a user's role or granting staff never removes a moderation permission |
| CommentsAdmin.ContentPreview | blog_project/comments/admin.py:28-30 | the preview is the content itself up to 50 characters, otherwise its first 50 characters and "..."; it never exceeds 53 characters |
| CommentsAdmin.ContentPreviewIdempotent | blog_project/comments/admin.py:30 | previewing a preview gives the same preview |
| CommentsAdmin.ApproveComments | blog_project/comments/admin.py:33-37 | every selected comment becomes approved with nothing else changed, unselected comments are untouched, and the count is the number of selected rows |
| CommentsAdmin.DisapproveComments | blog_project/comments/admin.py:39-43 | every selected comment becomes unapproved with nothing else changed, unselected comments are untouched, and the count is the number of selected rows |
| CommentsAdmin.ModerationActionsIdempotent | blog_project/comments/admin.py:33-43 | repeating either action on the same selection changes nothing more |
| CommentsAdmin.LastModerationWins | blog_project/comments/admin.py:33-43 | approving then disapproving a selection is the same as disapproving it, and the other way round |
| CommentsAdmin.ApprovedReplyIsListed | blog_project/comments/admin.py:33-37 | an approved reply appears in its parent's replies |
| CommentsAdmin.DisapprovedRepliesHidden | blog_project/comments/admin.py:39-43 | after disapproval, no selected comment appears in any replies list |
| Announcements.NewAnnouncement | blog_project/announcements/models.py:25-49 | a new announcement has type info, is active, is not pinned, and has no creator and no creation stamp yet |
| Announcements.Clean | blog_project/announcements/models.py:68-80 | an expiry date not strictly in the future is reported first, then a stripped title under 5 characters, then stripped content under 10; it passes exactly when none applies |
| Announcements.IsExpired | blog_project/announcements/models.py:82-86 | an announcement is expired exactly when it has an expiry date and now is strictly past it: never without one, and not yet at the expiry instant itself |
| Announcements.ExpiryIsPermanent | blog_project/announcements/models.py:82-86 | an expired announcement stays expired at every later time |
| Announcements.IsVisible | blog_project/announcements/models.py:88-90 | visible exactly when active and the expiry date is absent or not yet passed |
| Announcements.CleanMeansNotExpired | blog_project/announcements/models.py:68-90 | an announcement that passes validation is not expired, so it is visible exactly when active |
| Announcements.BadgeClass | blog_project/announcements/models.py:92-100 | each of info, warning, success, danger maps to badge-<type>; any other type maps to badge-secondary |
| Announcements.BadgeClassInjectiveOnKnownTypes | blog_project/announcements/models.py:92-100 | distinct known types get distinct badges, none of them the fallback |
| Announcements.Save | blog_project/announcements/models.py:102-106 | after a save the record is active exactly when it was active and not expired; the save that inserts it stamps the creation time with the current time, and later saves keep the stamp; no other field changes; visibility is unchanged; a saved active record is never expired |
| Announcements.SaveIdempotent | blog_project/announcements/models.py:102-106 | saving twice at one instant is saving once, and a record deactivated for expiry stays inactive at later saves |
| Announcements.GetActive | blog_project/announcements/models.py:108-115 | the active query holds exactly the table's active rows with no expiry date or one strictly after now |
| Announcements.GetPinned | blog_project/announcements/models.py:117-120 | the pinned query holds exactly the pinned rows of the active query, which is the table filtered by both conditions at once |
| Announcements.ActiveVersusVisible | blog_project/announcements/models.py:82-115 | every row of the active query is visible, and a visible row is missing from it only when it expires exactly now |
| Announcements.VisibleButNotActiveAtExpiryInstant | blog_project/announcements/models.py:71-115 | an active announcement expiring exactly now is visible and not expired, yet the active query omits it and validation rejects it |
| Announcements.InsertInOrder | blog_project/announcements/models.py:59 | placing a row into a sequence in default order keeps the order and adds exactly that row |
| Announcements.DisplayOrder | blog_project/announcements/models.py:59 | the default ordering is a permutation of the table in which every pair of rows is in pinned-first, newest-first order |
| Announcements.DisplayOrderPinnedThenNewest | blog_project/announcements/models.py:59 | in the default ordering every pinned row precedes every unpinned one, and within a group rows with a later creation stamp come first |
| AnnouncementsAdmin.SaveModel | blog_project/announcements/admin.py:28-32 | on creation the requester becomes the creator and the creation time is stamped with the current time; on a change the creator and an existing stamp are kept; the save then deactivates an expired record and changes nothing else |
| AnnouncementsAdmin.CreatorSurvivesEdits | blog_project/announcements/admin.py:28-32 | a record created by one user keeps that creator and its creation time when another user edits it later |
| AnnouncementsAdmin.ActivateAnnouncements | blog_project/announcements/admin.py:34-37 | every selected row becomes active, expired or not, with nothing else changed; unselected rows are untouched; the count is the number of selected rows |
| AnnouncementsAdmin.DeactivateAnnouncements | blog_project/announcements/admin.py:40-43 | every selected row becomes inactive with nothing else changed; unselected rows are untouched; the count is the number of selected rows |
| AnnouncementsAdmin.PinAnnouncements | blog_project/announcements/admin.py:46-49 | every selected row becomes pinned with nothing else changed; unselected rows are untouched; the count is the number of selected rows |
| AnnouncementsAdmin.BulkActionsIdempotent | blog_project/announcements/admin.py:34-49 | repeating any of the three actions on the same selection changes nothing more |
| AnnouncementsAdmin.PinningIsMonotone | blog_project/announcements/admin.py:46-49 | pinning never unpins a row |
| AnnouncementsAdmin.ActivatedExpiredStaysHidden | blog_project/announcements/admin.py:34-37 | activating an expired row makes it active without going through `save`, yet it stays invisible and out of the active query, and a later `save` would deactivate it |
| AnnouncementsAdmin.DeactivatedRowsHidden | blog_project/announcements/admin.py:40-43 | deactivated rows appear in neither the active nor the pinned query |

## Left out

- Ratings, media attachments and subscriptions are not part of this model. Their source files are not part of it either.
- HTTP views, forms, templates, sessions, login/logout, password reset and redirects are framework I/O. The same goes for `message_user` flash messages: the actions return the count the message would show.
- The `slugify` algorithm, slug and name uniqueness constraints, indexes, `get_absolute_url` and `__str__` belong to the framework or the database. `slugify` is a parameter.
- `timezone.now()` is replaced by the explicit parameter `now`, and date-times are integers. Every check in one call sees the same instant.
- Cascade and set-null deletion are left out, as are avatar and file storage, and the lost-update race on `views_count` under concurrent requests.
- Field length limits (`max_length` on titles, bio and comment content) are form- and database-level checks. They are not modelled.
- The author-on-create line of the article admin is left out.
- `clean` and `save` are separate operations, as in the source: `save` does not call `clean`. Validation happens only when a form or caller invokes it.
- Articles.IncrementViews: the counter is an unbounded `nat`. The upper bound of the database's positive-integer column is not modelled.
- Comments.GetReplies: returns replies in table order. The comment model's default newest-first ordering is not applied.
- Announcements.GetActive: returns rows in table order. The default ordering is modelled separately by `Announcements.DisplayOrder`, and ties in `created_at` are left in any order.
- Comments.CanBeModeratedBy: takes the user's profile as given. The exception the source raises for a non-staff user with no profile is not modelled. The one-profile rule in `Users` is what guarantees the profile exists.
- Comments.Clean: takes the record the `parent` field refers to as an argument. The foreign-key constraint guarantees that this record exists.
- Announcements.BadgeClass: the `type` column is free text. Choices are checked only by forms, so any string is accepted and unknown ones fall back.
- Users.IsAuthor: the role is one of the three choices. The column is free text whose choices only forms enforce; a stored value outside them, for which the source's checks all return false, cannot be represented.
- Users.IsAdmin: the same closed set of roles as `Users.IsAuthor`.
- Articles.IsPublished: the status is one of the two choices. The column is free text whose choices only forms enforce; a stored value outside them, which the source treats as not published, cannot be represented, and the "not a draft" reading relies on the closed set.
- Users.OnAccountSaved: a profile held in memory is taken to belong to the saved account. Which instance the account caches is decided by the caller; for a just-created account it is the profile the first hook created.
- Comments.CleanKeepsThreaded: covers inserting a new comment only. The comment admin form can change `parent` of a stored comment, and `clean` does not look at that comment's own replies, so such an edit can build a deeper thread (`Comments.EditedParentCanDeepenThread`).
- The comment's `updated_at` stamp is not modelled, and its `created_at` is carried as a plain value of a stored row: no modelled operation saves a comment through `save`, and the bulk actions are UPDATE statements, which refresh neither stamp.
- Articles.SaveArticle: a record counts as not yet inserted exactly while it has no creation stamp. An unsaved instance built with an explicit stamp would have it overwritten by its first save; the model keeps it. The same holds for `Articles.SaveCategory`, `Articles.SaveTag` and `Announcements.Save`; `AnnouncementsAdmin.SaveModel` stamps every creating save.
- Announcements.DisplayOrder: a record with no creation stamp, which the table never holds since the column is not nullable, is placed after every stamped one; where a database puts such a value is not modelled.
- Articles.IncrementViews: on an article never stored, the source's column-restricted save raises an error; the model does not represent that error and applies the increment in memory.
