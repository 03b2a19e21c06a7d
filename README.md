# Blog front-end core in Dafny

A model of the sequential logic underneath an Angular blog front-end
(Yashraval366/BlogApp-Frontend). It covers five pieces:

- **Page navigation.** The list of page numbers, the five-page window shown
  when there are more than seven pages, and the `goTo`/`next`/`prev` guards of
  the shared pagination component (`pagination.dfy`).
- **The public blog list.** Its own copy of the window arithmetic, proved equal
  to the shared one. Its values derived from the load state. Its page number,
  changed by `loadPage`/`next`/`prev`, each change pushing a request onto the
  page stream (`blog_list.dfy`).
- **The user's own blogs and their reactions.** This is the optimistic
  reaction step. It toggles among Liked, Disliked and Null, recounts the likes
  and dislikes, writes them into the page, and saves a snapshot. The server's
  answer then either overwrites the blog or restores the snapshot. Around it
  is the gate deciding which server emissions may replace the page
  (`my_blogs.dfy`).
- **Comments.** The split into top-level comments and replies. Replies grouped
  by parent. Optimistic comments with negative temporary ids, prepended or
  appended, then replaced or removed by id. The comment tree built by linking
  each comment to its parent (`comments.dfy`).
- **Registration.** The password-match check. The five password-strength
  criteria and the percentage, label and colour derived from them. The
  show/hide toggles. Submission with the full name (`register.dfy`).

`models.dfy` holds the shared records: the blog, the comment, the paginated
result, the reaction type and the `LoadState` union (loading, success with
data, error). `lists.dfy` holds one order-preserving `Filter` and its lemmas.
The comment component's `filter` calls (top-level comments, replies and the
removal of an optimistic entry) are modelled with it. The register form's
`criteria.filter(c => c).length` only counts the criteria met, and is modelled
by `MetCount` as a sum of indicators.

Pure computations in the source (the window, derived values, the
percentage/label/colour chain, the list filters) are functions. Code that
updates component state is a class with fields and methods: `BlogPager`,
`MyBlogsView`, `CommentBox` and `RegisterForm`. The two loops that fill a
`Map` (`repliesByParent`, `commentTree`) are methods with loops. They are
proved equal to reference functions (`Filter`, `TreeOf`).

Server answers, `Date.now()` and `new Date().toISOString()` are parameters.
A successful or failed request is a separate method call
(`ConfirmReaction`/`RollbackReaction`, `ConfirmPost`/`RollbackPost`,
`OnRegisterSuccess`/`OnRegisterError`). Each request sent is appended to a
log field (`requests`, `sent`, `posts`, `registrations`).

Points where the model follows the code closely:

- In `my-blogs.component.ts`, `reacting` is declared and read but never set
  to true. So the "hold back while reacting" branch of `syncFromServer` can
  never fire. The model keeps the field and the branch, and no method changes
  the field.
- `commentTree` tests `parentCommentId` for truthiness. A comment whose parent
  id is 0 is therefore a root there (`IsTreeRoot`). The `comments`/`replies`
  split tests against `null` and counts it as a reply.
- `commentTree` keys a JavaScript `Map` by id. When ids repeat, the node keeps
  the position of the first occurrence and the value of the last (`SetEntry`,
  `Nodes`). A comment whose parent is not in the list appears nowhere in the
  tree.
- The password percentage is `met / 5 * 100` in floating point. For 0 to 5
  met criteria this is exactly 0, 20, 40, 60, 80 or 100, so it is modelled as
  the integer `20 * met`.

## Model

| member | source | states |
|---|---|---|
| Pagination.Range | src/app/shared/component/pagination/pagination.component.ts:33 | the array `start..end` built from its length: length `end-start+1` (0 when empty), element i is `start+i` |
| Pagination.Pages | src/app/shared/component/pagination/pagination.component.ts:19-21 | `pages` has `max(0,totalPages)` entries and entry i is i+1 |
| Pagination.Window | src/app/shared/component/pagination/pagination.component.ts:23-34 | with at most 7 pages the window is all pages; with more it is the 5 consecutive pages starting at max(1, min(page - 2, totalPages - 4)), so it is centred on the page and pulled back only at either end; entries are consecutive, increasing and within [1, totalPages]; a page in range is always in its window |
| Pagination.WindowExamples | src/app/shared/component/pagination/pagination.component.ts:28-33 | with 20 pages: page 1 → 1..5, page 10 → 8..12, page 20 → 16..20; with 5 pages: all five |
| Pagination.GoTo | src/app/shared/component/pagination/pagination.component.ts:37-41 | emits the target exactly when it differs from the current page, and nothing otherwise |
| Pagination.Next | src/app/shared/component/pagination/pagination.component.ts:43-47 | emits page+1 exactly when page < totalPages; the emitted page never exceeds totalPages |
| Pagination.Prev | src/app/shared/component/pagination/pagination.component.ts:49-53 | emits page-1 exactly when page > 1; the emitted page is at least 1 |
| Pagination.NavigationStaysInRange | src/app/shared/component/pagination/pagination.component.ts:43-53 | from an in-range page, next and prev stay in [1, totalPages], and prev undoes next and next undoes prev |
| BlogList.BlogsOf | src/app/components/blog/blog.component.ts:49-52 | the items of a loaded page, and no blogs while loading or after an error |
| BlogList.TotalCountOf | src/app/components/blog/blog.component.ts:54-57 | the page's total count once loaded, 0 otherwise |
| BlogList.TotalPagesOf | src/app/components/blog/blog.component.ts:59-62 | the page's total pages once loaded, 0 otherwise |
| BlogList.BlogWindow | src/app/components/blog/blog.component.ts:67-80 | with at most 7 pages the window is all pages; with more it is the 5 consecutive pages starting at max(1, min(current - 2, totalPages - 4)); a current page in range is always in its window |
| BlogList.WindowsAgree | src/app/components/blog/blog.component.ts:67-80 | for every current page and total, this component's window equals the shared pagination window; so above 7 pages it has 5 consecutive entries within [1, total] |
| BlogList.BlogPager.constructor | src/app/components/blog/blog.component.ts:26-33 | page 1 of size 6, with that request already on the page stream, and the response still loading |
| BlogList.BlogPager.TotalPages | src/app/components/blog/blog.component.ts:59-62 | the pager's total pages: the loaded page's count, 0 while loading or after an error |
| BlogList.BlogPager.Receive | src/app/components/blog/blog.component.ts:37-46 | the response state becomes the emitted load state |
| BlogList.BlogPager.LoadPage | src/app/components/blog/blog.component.ts:83-88 | asking for the current page changes nothing; any other page becomes current and its request is pushed; the last request always names the current page |
| BlogList.BlogPager.Next | src/app/components/blog/blog.component.ts:90-96 | below the last page: page+1 becomes current and is requested; otherwise page and request stream are unchanged |
| BlogList.BlogPager.Prev | src/app/components/blog/blog.component.ts:98-104 | above page 1: page-1 becomes current and is requested; otherwise nothing changes |
| MyBlogs.Toggle | src/app/components/blog/my-blogs/my-blogs.component.ts:135-136 | the new reaction is Null exactly when the requested one equals the previous one (or is Null); otherwise it is the requested one |
| MyBlogs.Recount | src/app/components/blog/my-blogs/my-blogs.component.ts:138-145 | counters covering the old reaction still cover the new one; the total moves by the change in "has a reaction"; an unchanged reaction keeps both counters |
| MyBlogs.AdjustCounters | src/app/components/blog/my-blogs/my-blogs.component.ts:138-145 | the counters after the four step-by-step adjustments equal the reference recount |
| MyBlogs.ToggleTwiceRestores | src/app/components/blog/my-blogs/my-blogs.component.ts:135-145 | from no reaction or from the requested one, pressing the same button twice restores the reaction and both counters |
| MyBlogs.Find | src/app/components/blog/my-blogs/my-blogs.component.ts:128-129 | none exactly when no blog has the id; otherwise the first blog with that id |
| MyBlogs.SetReaction | src/app/components/blog/my-blogs/my-blogs.component.ts:155-164 | same length and order; every blog with the id gets the three new fields, every other blog is untouched |
| MyBlogs.WithReaction | src/app/components/blog/my-blogs/my-blogs.component.ts:148-167 | a state that is not loaded is returned unchanged; a loaded page has only its items rewritten |
| MyBlogs.LastWriteWins | src/app/components/blog/my-blogs/my-blogs.component.ts:172-191 | writing server values over optimistic ones leaves exactly the server values |
| MyBlogs.RestoreOwnValues | src/app/components/blog/my-blogs/my-blogs.component.ts:131-133 | writing a blog's own three fields back, when its id is unique, gives the list unchanged |
| MyBlogs.RollbackIsExact | src/app/components/blog/my-blogs/my-blogs.component.ts:195-214 | optimistic step followed by rollback to the snapshot gives back exactly the original state, for a blog whose id is unique |
| MyBlogs.OptimisticKeepsCovered | src/app/components/blog/my-blogs/my-blogs.component.ts:138-167 | if every blog's counters cover its reaction, they still do after the optimistic step, and the new counters are never negative |
| MyBlogs.FoundIsCovered | src/app/components/blog/my-blogs/my-blogs.component.ts:128-133 | the blog found on a page whose counters all cover their reactions has covering counters itself |
| MyBlogs.MyBlogsView.constructor | src/app/components/blog/my-blogs/my-blogs.component.ts:28-49 | loading, page 1 of size 6 requested, not reacting, no initial load, no reaction sent |
| MyBlogs.MyBlogsView.Blogs | src/app/components/blog/my-blogs/my-blogs.component.ts:111-116 | the loaded page's items, none otherwise |
| MyBlogs.MyBlogsView.TotalPages | src/app/components/blog/my-blogs/my-blogs.component.ts:34-37 | the loaded page's total pages, 0 otherwise |
| MyBlogs.MyBlogsView.LoadPage | src/app/components/blog/my-blogs/my-blogs.component.ts:51-60 | the current page changes nothing; any other page becomes current and is requested |
| MyBlogs.MyBlogsView.SyncFromServer | src/app/components/blog/my-blogs/my-blogs.component.ts:81-107 | an error always replaces the state; loading replaces it only before the first successful load; a success is ignored while reacting, and otherwise replaces the state and records the initial load |
| MyBlogs.MyBlogsView.ReactOptimistic | src/app/components/blog/my-blogs/my-blogs.component.ts:122-170 | nothing changes unless a page is loaded and holds the id; then the first such blog is snapshotted, its new reaction and counters are written (length and order kept, other blogs untouched), the request is sent, and counters stay covering their reactions |
| MyBlogs.MyBlogsView.ConfirmReaction | src/app/components/blog/my-blogs/my-blogs.component.ts:171-192 | the blog's three fields become the server's values; nothing else changes |
| MyBlogs.MyBlogsView.RollbackReaction | src/app/components/blog/my-blogs/my-blogs.component.ts:193-215 | the blog's three fields become the snapshot's values; nothing else changes |
| Lists.Filter | src/app/shared/component/comment/comment.component.ts:50 | keeps exactly the elements satisfying the predicate, never more than the input |
| Lists.FilterConcat | src/app/shared/component/comment/comment.component.ts:49-55 | filtering a concatenation concatenates the filtered parts (list order is kept) |
| Lists.FilterSnoc | src/app/shared/component/comment/comment.component.ts:61-67 | filtering one more element appends it exactly when it passes |
| Lists.FilterCount | src/app/shared/component/comment/comment.component.ts:49-55 | a passing element keeps its multiplicity, a failing one has none |
| Lists.FilterSplit | src/app/shared/component/comment/comment.component.ts:49-55 | a filter and its complement together hold each element exactly as often as the input |
| Lists.FilterKeepsAll | src/app/shared/component/comment/comment.component.ts:126-129 | a filter every element passes is the identity |
| Lists.FilterNarrower | src/app/shared/component/comment/comment.component.ts:57-66 | filtering by a wider then a narrower test is filtering by the narrower one |
| Comments.LeadingSpaces | src/app/shared/component/comment/comment.component.ts:106 | the count of whitespace characters at the start of the text |
| Comments.TrailingSpaces | src/app/shared/component/comment/comment.component.ts:106 | the count of whitespace characters at the end of the text |
| Comments.Trim | src/app/shared/component/comment/comment.component.ts:106-107 | a contiguous slice of the text starting after its leading whitespace, with only whitespace after it; empty exactly when the text is all whitespace; otherwise starts and ends with non-whitespace |
| Comments.TrimIdempotent | src/app/shared/component/comment/comment.component.ts:137-138 | trimming twice is trimming once |
| Comments.TopLevel | src/app/shared/component/comment/comment.component.ts:49-51 | exactly the comments with no parent, in list order |
| Comments.Replies | src/app/shared/component/comment/comment.component.ts:53-55 | exactly the comments with a parent, in list order |
| Comments.TopLevelAndRepliesPartition | src/app/shared/component/comment/comment.component.ts:49-55 | top-level comments and replies together are the list (as a multiset and in length), and both splits distribute over concatenation |
| Comments.ParentIds | src/app/shared/component/comment/comment.component.ts:61-65 | the set of parent ids named by some comment |
| Comments.ParentIdsSnoc | src/app/shared/component/comment/comment.component.ts:61-65 | one more reply adds its parent id to the set |
| Comments.BucketsOfReplies | src/app/shared/component/comment/comment.component.ts:57-71 | grouping the replies equals grouping the whole list by parent; a named parent's group is never empty |
| Comments.GroupedStep | src/app/shared/component/comment/comment.component.ts:61-67 | one loop step (create the bucket if missing, push the reply) keeps the map equal to the grouping of the prefix |
| Comments.BucketStep | src/app/shared/component/comment/comment.component.ts:63-66 | after one loop step, each bucket holds exactly the replies to its parent seen so far, a new bucket only the new reply |
| Comments.GroupedReplies | src/app/shared/component/comment/comment.component.ts:61-69 | grouping the replies alone gives one non-empty bucket per parent id in use, holding that parent's replies from the whole list in order |
| Comments.RepliesByParent | src/app/shared/component/comment/comment.component.ts:57-71 | keys are exactly the parent ids in use; each bucket is the replies to that parent in list order; no bucket is empty |
| Comments.ReplaceById | src/app/shared/component/comment/comment.component.ts:119-123 | same length; every entry with the id becomes the server comment, every other entry is unchanged |
| Comments.SameIdsPointwise | src/app/shared/component/comment/comment.component.ts:121-123 | lists whose ids agree position by position have the same set of ids |
| Comments.RemoveById | src/app/shared/component/comment/comment.component.ts:126-129 | exactly the entries whose id differs; the id no longer occurs |
| Comments.InsertThenRemove | src/app/shared/component/comment/comment.component.ts:105-129 | prepending or appending a comment with a fresh id and then rolling back gives the original list |
| Comments.InsertThenReplace | src/app/shared/component/comment/comment.component.ts:146-155 | prepending or appending a comment with a fresh id and then confirming puts the server comment in its place, the rest unchanged |
| Comments.UniqueIdsOnce | src/app/shared/component/comment/comment.component.ts:169-174 | in a list with distinct ids each comment occurs once |
| Comments.ReplacePresentId | src/app/shared/component/comment/comment.component.ts:173 | overwriting a present key keeps the key set and stores the new value |
| Comments.SetEntry | src/app/shared/component/comment/comment.component.ts:173 | `Map.set`: keys stay distinct, the key set gains the id, the entry is stored; a new id is appended at the end with everything before it unchanged; an existing id keeps its position and takes the new value, every other entry unchanged |
| Comments.Nodes | src/app/shared/component/comment/comment.component.ts:169-174 | the map's values: distinct ids, exactly the ids of the list |
| Comments.NodeIsLastWithId | src/app/shared/component/comment/comment.component.ts:172-174 | every node is a comment of the list with no later comment of the same id: the last write for a key wins |
| Comments.NodesInFirstOccurrenceOrder | src/app/shared/component/comment/comment.component.ts:172-174 | of two nodes, the earlier one's id first occurs in the list before the later one's id: map entries keep the order in which keys were first written |
| Comments.NodesOfUniqueIds | src/app/shared/component/comment/comment.component.ts:172-174 | with distinct ids the map's values are the list itself, in order |
| Comments.NodesStep | src/app/shared/component/comment/comment.component.ts:172-174 | one more comment performs one more map write |
| Comments.EmptyRepliesStep | src/app/shared/component/comment/comment.component.ts:173 | each write keeps one empty reply list per key |
| Comments.LinkedAtStart | src/app/shared/component/comment/comment.component.ts:173-176 | empty reply lists for every key link nothing yet |
| Comments.LinkStep | src/app/shared/component/comment/comment.component.ts:179-185 | one linking step keeps the reply lists equal to the reference grouping of the prefix |
| Comments.PlaceStep | src/app/shared/component/comment/comment.component.ts:179-185 | placing one more node keeps the roots and reply lists equal to the reference ones for the nodes placed so far |
| Comments.LinkedAll | src/app/shared/component/comment/comment.component.ts:187 | once every node is placed, the reply lists are the reference replies of every node |
| Comments.InitNodes | src/app/shared/component/comment/comment.component.ts:169-174 | the first loop yields the map's values and an empty reply list per key |
| Comments.LinkParents | src/app/shared/component/comment/comment.component.ts:176-187 | the second loop yields the nodes with a falsy parent as roots, and per key the nodes naming it, in map order |
| Comments.CommentTree | src/app/shared/component/comment/comment.component.ts:166-189 | the built forest equals the reference forest `TreeOf` |
| Comments.TreePlacement | src/app/shared/component/comment/comment.component.ts:179-185 | a root appears once among roots and in no reply list; a reply with a present parent appears once in its parent's list and nowhere else; a reply with an absent parent appears nowhere |
| Comments.TreeOfUniqueIds | src/app/shared/component/comment/comment.component.ts:166-189 | with distinct ids the roots are the list's falsy-parent comments in order and each comment's replies are its children in order |
| Comments.FreshIdKeepsUnique | src/app/shared/component/comment/comment.component.ts:109-112 | adding a comment with a fresh id keeps ids distinct and adds that id |
| Comments.FreshInsertNodes | src/app/shared/component/comment/comment.component.ts:169-174 | with distinct ids, inserting a fresh comment at either end inserts it in the map's values |
| Comments.PrependedRoot | src/app/shared/component/comment/comment.component.ts:112 | a top-level node put in front heads the roots and leaves every reply list unchanged |
| Comments.PrependedNonChild | src/app/shared/component/comment/comment.component.ts:180-181 | a top-level node is nobody's reply |
| Comments.PrependRoot | src/app/shared/component/comment/comment.component.ts:105-112 | prepending a new top-level comment puts it first among roots and leaves every reply list unchanged |
| Comments.AppendedChild | src/app/shared/component/comment/comment.component.ts:181 | an appended child of a parent goes to the end of that parent's replies |
| Comments.AppendReply | src/app/shared/component/comment/comment.component.ts:140-146 | appending a reply to a present parent leaves the roots unchanged and adds it last among that parent's replies |
| Comments.OptimisticPostInTree | src/app/shared/component/comment/comment.component.ts:105-133 | an optimistic post is the first root; after confirmation the server comment is; after rollback the tree is the original one |
| Comments.CommentBox.constructor | src/app/shared/component/comment/comment.component.ts:42 | empty comment state, empty input, nothing posted |
| Comments.CommentBox.SyncComments | src/app/shared/component/comment/comment.component.ts:44-47 | the state becomes the server's list |
| Comments.CommentBox.OptimisticComment | src/app/shared/component/comment/comment.component.ts:87-103 | negative id (minus the clock), marked optimistic, no update time, the given parent and text, the component's blog and user |
| Comments.CommentBox.OnPost | src/app/shared/component/comment/comment.component.ts:105-117 | whitespace-only input changes nothing; otherwise the trimmed comment is prepended (the old list is the tail), the input is cleared and the post sent |
| Comments.CommentBox.OnReply | src/app/shared/component/comment/comment.component.ts:135-150 | whitespace-only text changes nothing; otherwise the trimmed reply is appended and sent |
| Comments.CommentBox.OnNestedReply | src/app/shared/component/comment/comment.component.ts:191-202 | the reply is appended and sent, untrimmed and with no blank check |
| Comments.CommentBox.ConfirmPost | src/app/shared/component/comment/comment.component.ts:119-123 | entries with the temporary id become the server comment; everything else is unchanged |
| Comments.CommentBox.RollbackPost | src/app/shared/component/comment/comment.component.ts:125-129 | every entry with the temporary id is removed; everything else stays in order |
| Register.PasswordMatchValidator | src/app/components/register/register.component.ts:49-58 | a mismatch exactly when both fields are non-empty and differ; no error otherwise |
| Register.PasswordMatchSymmetric | src/app/components/register/register.component.ts:49-58 | the check does not depend on the order of the two fields, and a password matches itself |
| Register.ContainsClass | src/app/components/register/register.component.ts:72-75 | true exactly when some character of the password is in the class |
| Register.StrengthOf | src/app/components/register/register.component.ts:68-76 | minLength exactly when the length is at least 8; each other flag exactly when some character is upper-case, lower-case, a digit, or one of the twenty special characters of `SpecialChars` |
| Register.MetCount | src/app/components/register/register.component.ts:79-80 | between 0 and 5; 0 exactly when no flag is set, 5 exactly when all are |
| Register.Percentage | src/app/components/register/register.component.ts:78-81 | 20 times the number of criteria met, so one of 0, 20, 40, 60, 80, 100 |
| Register.Label | src/app/components/register/register.component.ts:83-89 | always one of Weak, Fair, Good, Strong |
| Register.Color | src/app/components/register/register.component.ts:91-100 | anything but the four labels gets grey `#6c757d` |
| Register.LabelByCount | src/app/components/register/register.component.ts:78-100 | Weak for at most one criterion, Fair for two, Good for three, Strong for four or five; a computed label never gets the grey fallback |
| Register.StrongPasswordExample | src/app/components/register/register.component.ts:68-76 | `Aa1!aaaa` meets all five criteria |
| Register.LabelExamples | src/app/components/register/register.component.ts:78-100 | two criteria give 40; labels Weak/Fair/Good/Strong for 1/2/3/5 criteria; the colour of each label and of an unknown one |
| Register.FullName | src/app/components/register/register.component.ts:119 | first name, one space, last name, in that order |
| Register.FullNameSplits | src/app/components/register/register.component.ts:119 | a first name without spaces is recovered by cutting the full name at its first space, and the last name is the rest |
| Register.RegisterForm.constructor | src/app/components/register/register.component.ts:16-30 | both passwords hidden, not loading, no messages, no criteria met, nothing sent |
| Register.RegisterForm.TogglePasswordVisibility | src/app/components/register/register.component.ts:60-62 | the flag is negated, so pressing twice restores it |
| Register.RegisterForm.ToggleConfirmPasswordVisibility | src/app/components/register/register.component.ts:64-66 | the flag is negated, so pressing twice restores it |
| Register.RegisterForm.UpdatePasswordStrength | src/app/components/register/register.component.ts:68-76 | the five flags become the password's criteria (`StrengthOf`) |
| Register.RegisterForm.OnSubmit | src/app/components/register/register.component.ts:102-146 | an invalid form only shows the fixed error and sends nothing; a valid one clears messages and either sends one request with the full name, email and password (still loading) or shows the failure message and stops loading |
| Register.RegisterForm.OnRegisterSuccess | src/app/components/register/register.component.ts:125-129 | loading stops and the success message is shown |
| Register.RegisterForm.OnRegisterError | src/app/components/register/register.component.ts:135-140 | loading stops; the server's message is shown if non-empty, the generic failure message otherwise |

## Left out

- HTTP services and stores (blog, comment, reaction, auth, category): network and `localStorage` I/O. Their answers are method parameters.
- The `loadState` pipeline of `src/app/shared/state/load-state.ts`, with its `startWith`, `catchError` and success delay timer: library operators and timers. Only its union type is modelled. Emissions reach `BlogPager.Receive` and `MyBlogsView.SyncFromServer` as calls.
- `switchMap` cancelling an older page request when a newer one is pushed: the model logs requests and accepts whatever state is delivered.
- JWT decoding, routing, guards, templates, toasts, `alert`, `console.log`, `window.location.reload` and the redirect after registration: framework and UI glue.
- `setTimeout` in `onSubmit`: the delayed block runs within `OnSubmit`, and the server's answer is a later call.
- Angular validators (`required`, `minLength`, `email`, `requiredTrue`): form validity is the boolean `formValid` passed to `OnSubmit`.
- Register.PasswordMatchValidator: the `setErrors` side effect on the confirmation control is not modelled, only the returned error.
- Register.StrengthOf: length counts characters, where JavaScript counts UTF-16 code units; the two differ only for characters outside the Basic Multilingual Plane.
- Comments.Trim: whitespace is a fixed set of characters (ASCII whitespace, no-break space, the Unicode space separators, line and paragraph separators, byte-order mark), standing in for the ECMAScript definition.
- Pagination.Window: in `pagination.component.ts`, `pages` and `paginationWindow` are `computed` signals that read the plain `@Input` fields `page` and `totalPages`, which are not signals. Angular therefore tracks no dependency and keeps the first value, so the bar would not follow later input changes. The model computes the window from the current inputs on every call, which is the evidently intended behaviour; the memoisation is not modelled.
- Overlapping in-flight reactions or comment posts: each confirmation or rollback is a separate sequential call carrying its snapshot or temporary id.
- `Date.now()` and `new Date().toISOString()`: parameters, the clock required to be positive so the temporary id is negative.
- The floating-point percentage: modelled as the integer `20 * met`, which equals the float value for every count from 0 to 5.
- Run-time type guards in `blog.component.ts` (`Array.isArray`, `typeof ... === 'number'`) and the `if (!res) return` guard in `syncFromServer`: the typed model always passes them.
- The `comment-item` component's `measure` (DOM layout and floating point) and its reply UI toggles, `openReply`/`cancelReply`/`replyingTo`/`replyText` of the comment component, `deleteBlog` and the delete modal, `like`/`dislike` wrappers that only log and forward, and the `trackBy` helpers: UI state with nothing to prove.
- Login, blog details, create/edit blog components: form glue around service calls.
