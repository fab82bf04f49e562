# Forum content engine in Dafny

This project models the core of a small Flask forum:

- **Posts.** Users write posts. Hashtags are extracted from the title and the content. Posts are ranked on the index page by a popularity score.
- **Comments.** Users comment on posts, and comments are threaded.
- **Reactions.** Users react with `plus` or `minus`. There is at most one reaction per user and post.
- **Deletion.** Administrators delete posts, together with their comments, replies, reactions and hashtag links.
- **Accounts.** Users register and sign in.
- **Mentions.** `@name` mentions are rendered as profile links.

The database is one `Store` object (module `Tables`). It has one sequence of rows per table, kept in id order. The store keeps no id counters. The tables are SQLite tables declared without `AUTOINCREMENT`, so a new row gets one more than the largest id in its table, or 1 in an empty table (`Tables.NextPostId` and its siblings). After the newest post is deleted, its id is given to the next post. The declarations of the model classes become the store's invariant `Valid()`:

- unique logins and hashtag names;
- one reaction per (post, user);
- foreign keys to existing rows;
- a reply's parent precedes the reply.

The delete cascades become the set `DoomedIds` of comments that go with a post.

Every route that writes is a method on the store. It states what each of the six tables becomes and keeps `Valid()`:

- `Posts.CreatePost`
- `Posts.React`
- `Posts.AddComment`
- `Posts.DeletePost`
- `Auth.Register`
- `App.EnsureAdmin`

The pages that only read are functions:

- `Views.FeedOrder`, with the loop of `Views.Feed` proved against it
- `Views.PostDetail`
- `Views.PostsByHashtag`

Their properties are proved as lemmas, together with those of the score (`Scoring`), the reaction ledger (`Ledger`), hashtag parsing (`Hashtags`), the credential rules (`Auth`) and mention rewriting (`App`).

The session key `user_id` is passed in as an `Option<nat>`. The signed-in test is Python truthiness: the key is present and not `0`.

Modules and files:

| file | module | content |
|---|---|---|
| `common.dfy` | `Common` | option type, filter |
| `text.dfy` | `Text` | ASCII classes, `lower`, `strip` |
| `sorting.dfy` | `Sorting` | stable descending sort |
| `tables.dfy` | `Tables` | rows, invariants, store, lookups, cascade |
| `hashtags.dfy` | `Hashtags` | `parse_hashtags` |
| `ledger.dfy` | `Ledger` | reaction counts and `react`'s table update |
| `scoring.dfy` | `Scoring` | popularity score, top five hashtags |
| `posts.dfy` | `Posts` | routes that write |
| `views.dfy` | `Views` | routes that read |
| `auth.dfy` | `Auth` | registration, login, logout |
| `app.dfy` | `App` | mentions, admin bootstrap |

Where the code and its documentation differ, the model follows the code:

- **Replies across posts.** A reply's parent is looked up by id alone, so it may be a comment on another post. Such a reply stays on its own post.
- **The hashtag page is not ranked.** It lists the hashtag's posts in association order.
- **Future timestamps.** The code's comment says the recency boost is "up to 7 points". A post whose timestamp lies in the future gets more than 7, because the age in days is negative (`Scoring.RecencyBonusBounds` proves both facts). This can happen when the database clock and the application clock disagree. The model keeps the code's behaviour.

## Model

| member | source | states |
|---|---|---|
| Hashtags.ParseHashtagsSpec | app/routes/posts.py:12-15 | the names are duplicate-free, non-empty word-character runs, and a name is returned exactly when it is the whole `\w+` run after some `#` |
| Hashtags.TagMatchesExactly | app/routes/posts.py:15 | `re.findall(r"#\w+")` yields exactly the runs that follow a `#`, in both directions |
| Hashtags.MatchHasStart | app/routes/posts.py:15 | every match is the maximal run after some `#` |
| Hashtags.StartHasMatch | app/routes/posts.py:15 | the run after every `#` is matched, because a match never swallows a `#` |
| Hashtags.Dedup | app/routes/posts.py:15 | `set()` keeps each name once and loses none |
| Hashtags.NoTagNoHashtags | app/routes/posts.py:12-15 | text with no `#` followed by a word character has no hashtags |
| Text.Lower | app/routes/posts.py:103-105 | `lower()` keeps the length, leaves no upper-case letter, and changes exactly the upper-case letters |
| Text.Strip | app/routes/auth.py:35 | `strip()` returns a slice with only whitespace cut off, and neither end of it is whitespace; the result is empty exactly for blank text |
| Scoring.RecencyBonusBounds | app/routes/posts.py:56-70 | no boost without a usable timestamp; 0..7 points for a past post; none once 7 days have passed; more than 7 for a future timestamp; never more for an older post |
| Scoring.DaysOld | app/routes/posts.py:60 | `timedelta.days` is the age in whole days, rounded down |
| Scoring.ScoreAfterRecord | app/routes/posts.py:34-54 | a first plus adds 3 to the score, a first minus 1, a repeat nothing, a switch ±2; other posts are unaffected |
| Scoring.ScoreAfterComment | app/routes/posts.py:46-48 | a comment adds 5 to its own post's score and nothing to others |
| Scoring.TopHashtagsSpec | app/routes/posts.py:114-125 | at most five hashtags, all in use, ordered by use and then by id; a hashtag in use that is left out implies the list is full and it is used no more than any listed hashtag |
| Scoring.RankedSpec | app/routes/posts.py:114-124 | the grouped join, sorted, holds every hashtag in use once with its count, in (count desc, id asc) order |
| Scoring.CandidateMember | app/routes/posts.py:115-120 | the inner join yields a row for a hashtag exactly when it is used, with its number of uses |
| Scoring.CandidatesAscending | app/routes/posts.py:119-120 | the grouped rows come in increasing id order |
| Sorting.SortDescSorted | app/routes/posts.py:137 | the sort yields nonincreasing keys |
| Sorting.SortDescPerm | app/routes/posts.py:137 | the sort is a permutation of its input |
| Sorting.SortDescItemsPerm | app/routes/posts.py:137-138 | dropping the keys after sorting gives a permutation of the items |
| Sorting.SortDescStable | app/routes/posts.py:137 | `list.sort` is stable: entries with equal keys keep their order |
| Sorting.SortDescTieBreak | app/routes/posts.py:121 | a stable sort of id-ordered rows orders ties by increasing id |
| Views.Feed | app/routes/posts.py:127-138 | the scoring loop followed by the sort computes `FeedOrder` |
| Views.FeedIsPermutation | app/routes/posts.py:128-138 | the index page shows every post exactly once |
| Views.FeedIsRanked | app/routes/posts.py:130-138 | index posts come by nonincreasing popularity score |
| Views.FeedIsStable | app/routes/posts.py:137 | posts with equal scores keep table order |
| Views.RankedScores | app/routes/posts.py:134-137 | sorting keeps each post paired with its own score |
| Views.PostDetailSpec | app/routes/posts.py:164-207 | 404 exactly for a missing post; the listed comments are exactly its thread roots; plus and minus add up to all its reactions; an anonymous visitor has no reaction |
| Views.TaggedPostsMember | app/routes/posts.py:257 | `tag.posts` holds exactly the posts linked to the hashtag |
| Views.PostsByHashtagSpec | app/routes/posts.py:254-257 | 404 exactly when no hashtag has the lower-cased name; otherwise exactly the posts linked to it; the name's case does not matter |
| Views.PostByIdFinds | app/routes/posts.py:166 | with unique ids, `get` finds every stored post |
| Ledger.RecordSetsKind | app/routes/posts.py:232-247 | after `react` the user has a reaction on the post, and every such row has the requested kind |
| Ledger.RecordKeepsOnePerUser | app/models/post.py:21 | `react` keeps the unique constraint on (post_id, user_id) |
| Ledger.RecordFrame | app/routes/posts.py:232-247 | rows of other (post, user) pairs are unaffected |
| Ledger.RecordIdempotent | app/routes/posts.py:237-239 | reacting twice the same way equals reacting once |
| Ledger.RecordCounts | app/routes/posts.py:237-247 | the previous kind loses one, the new kind gains one, and the total grows only for a first reaction |
| Ledger.RecordKeepsReactionsOk | app/models/post.py:15-21 | the reaction table stays well formed with the next id for a new row |
| Ledger.PlusMinusTotal | app/models/post.py:20 | every reaction is a plus or a minus, so the two counts sum to `len(post.reactions)` |
| Ledger.SummarizeSpec | app/routes/posts.py:140-153 | plus + minus is the total; the reported reaction is `Some(k)` exactly when the user has a row of kind k |
| Ledger.SummaryAfterRecord | app/routes/posts.py:200-207 | after reacting, the post page shows the user's new reaction |
| Posts.CreatePost | app/routes/posts.py:77-110 | not signed in: nothing changes. Otherwise the post is appended with one more than the largest post id, and the post is linked to exactly the hashtags named by its lower-cased tags; missing ones are created; other tables are unchanged; the invariants hold |
| Posts.InsertPostOk | app/routes/posts.py:86-94 | appending a post with the next id keeps every table rule, and no link yet mentions the new post |
| Posts.NewPost | app/routes/posts.py:86-109 | the tables after a post is added: the post is appended, it is attached to exactly the named hashtags, and every table rule still holds |
| Posts.AttachAll | app/routes/posts.py:101-107 | the loop over the parsed names: old hashtags and links stay, every name has a hashtag, new hashtags carry parsed names, new links belong to the post, the post is linked to exactly the hashtags of those names, and hashtag names and association rows stay unique |
| Posts.AttachTag | app/routes/posts.py:102-108 | one loop turn: find or create the hashtag by name, and link it once |
| Posts.LowerAllSpec | app/routes/posts.py:103 | the lower-cased names hold no upper-case letter, and lower-casing them again changes nothing |
| Posts.AttachKeepsOk | app/models/post.py:4-13 | attaching keeps unique hashtag names and duplicate-free association rows |
| Posts.React | app/routes/posts.py:219-250 | checks sign-in, then the kind, then the post; only on success the reaction table becomes `Record` of the old one, where a new row gets one more than the largest reaction id; the other tables stay |
| Posts.ParentOfSpec | app/routes/posts.py:174-183 | a reply gets the named parent exactly when that comment exists; otherwise it becomes a thread root |
| Posts.AddComment | app/routes/posts.py:164-193 | 404 before the sign-in check; the comment is appended with one more than the largest comment id, on this post, with `ParentOf`'s parent |
| Posts.AddCommentKeepsOk | app/models/comment.py:11-21 | the comment table stays well formed |
| Posts.CascadeIds | app/models/comment.py:25-30 | a one-pass loop computes exactly the comments removed with the post |
| Posts.DeletePost | app/routes/posts.py:315-338 | not signed in, not an admin, or missing post: nothing changes. Otherwise the post goes, and with it exactly its cascaded comments, reactions and links; each of the four tables is the old one filtered, so the survivors keep their order; users and hashtags stay |
| Posts.RemovePost | app/models/post.py:33-49 | removing the post and its dependants filters each table in order and keeps every table invariant |
| Posts.DeletePostsOk | app/routes/posts.py:337 | the post table loses exactly the deleted id |
| Posts.DeleteCommentsOk | app/models/comment.py:25-30 | without the doomed comments, no survivor refers to a removed post or parent |
| Posts.DeleteReactionsOk | app/models/post.py:43-48 | the remaining reactions are well formed |
| Posts.DeleteLinksOk | app/models/post.py:4-7 | the remaining association rows are well formed |
| Tables.DoomedIsLeastClosure | app/models/comment.py:25-30 | the removed comments are the least set holding the post's comments that is closed under replies |
| Tables.DoomedClosedUnderReplies | app/models/comment.py:25-30 | no reply survives its parent |
| Tables.DoomedOnPost | app/models/post.py:33-38 | every comment of the post is removed |
| Tables.TablesAtNext | app/models/post.py:26 | every id in use is below the id SQLite gives the next row, so the table rules hold with those ids, which are never above any other valid bound |
| Tables.Store.constructor | app/models/post.py:4-49 | an empty database satisfies every invariant |
| Tables.PostById | app/routes/posts.py:166 | `get` returns a post with that id, or none exists |
| Tables.CommentById | app/routes/posts.py:177 | `get` returns a comment with that id, or none exists |
| Tables.UserByLogin | app/routes/auth.py:37 | `filter_by(login).first()` returns a user with that login, or none exists |
| Tables.HashtagByName | app/routes/posts.py:103 | `filter_by(name).first()` returns a hashtag with that name, or none exists |
| Tables.FindReaction | app/routes/posts.py:232-235 | the first reaction of the user on the post, or none exists |
| Auth.ValidatePasswordSpec | app/routes/auth.py:10-26 | accepted exactly with ≥ 10 characters, an upper-case letter, a lower-case letter and a digit; a rejection names a broken rule, and no earlier rule is broken |
| Auth.AnyChar | app/routes/auth.py:20-25 | `re.search` of a character class finds a match exactly when some character is in the class |
| Auth.ValidateLoginSpec | app/routes/auth.py:29-39 | accepted exactly when not blank and no user has the login; blank is reported as blank, and a taken login as taken |
| Auth.RegisterCheckSpec | app/routes/auth.py:45-74 | success exactly for a non-blank unused stripped login, matching confirmation and a valid password; password rules only apply to a confirmed password; login rules only apply to a non-blank login after the password passed; the blank-login refusal of `validate_login` cannot fire |
| Auth.RegisterCheckOrder | app/routes/auth.py:49-74 | each error is reported exactly when its check fails and every earlier check passed: blank login, empty password, empty confirmation, mismatch, a broken password rule, a taken login |
| Auth.Register | app/routes/auth.py:42-87 | the first failing check is reported and nothing changes; otherwise exactly one non-admin user with the stripped login and the password's hash is added |
| Auth.AddUser | app/routes/auth.py:78-81 | a user row with one more than the largest user id; logins stay unique; the other tables stay |
| Auth.AuthenticateSpec | app/routes/auth.py:95-110 | sign-in succeeds exactly for the user whose login equals the stripped field and whose stored hash accepts the password; a filled form that fails gets one message for both causes |
| Auth.RegisterThenLogin | app/routes/auth.py:77-115 | a freshly registered user can sign in with the same login and password |
| Auth.UserByLoginAppend | app/routes/auth.py:107 | a new user with an unused login is the one the query finds |
| Auth.SameLoginSameUser | app/models/user.py:8 | with unique logins, a login identifies one user |
| Auth.Session.Login | app/routes/auth.py:92-115 | on success `user_id` and `user_login` are set from the user's row; on refusal the session is unchanged |
| Auth.Session.Logout | app/routes/auth.py:120-124 | both keys are absent afterwards, whether or not they were present |
| App.ParseMentionsSpec | app/__init__.py:11-22 | falsy input is returned unchanged; otherwise the result renders a well-formed scan that spells the input |
| App.ScanSpec | app/__init__.py:21-22 | scanning loses nothing: the pieces give back the text in order; mentions are non-empty maximal word runs |
| App.NoMentionUnchanged | app/__init__.py:21-22 | text with no `@` followed by a word character is returned unchanged |
| App.OneMention | app/__init__.py:16-21 | `@NAME` followed by a non-word character or the end becomes exactly `<a href="/users/NAME">@NAME</a>`, and the rest is rewritten separately |
| App.ScanAppend | app/__init__.py:22 | a cut before a non-word character is a cut in the scan: no mention spans it, and replacement text is not rescanned |
| App.RenderAppend | app/__init__.py:19-22 | rendering distributes over concatenation |
| App.EnsureAdmin | app/__init__.py:42-49 | afterwards a user `admin` exists; if one existed nothing changes; otherwise exactly one admin is added with the hash of `ADMIN_PASSWORD`, or of `admin123` when unset |

## Left out

- Image upload, image storage and image deletion: these are filesystem I/O.
- Flask plumbing is not modelled: routing, redirects, flashes, templates, `g.current_user` and the context processor. Routes return an `Outcome` or an error value instead. The message texts are kept as constants (`Auth.PasswordMessage`, `Auth.RegisterMessage`, `Auth.SignInMessage`).
- The legacy `image_url` column patch: it has no behaviour.
- Clocks and `datetime` parsing: the current time is a parameter in seconds. `createdAt` is `None` for a timestamp the scorer cannot use (missing, unparsable, or mixing aware and naive values). A new post's time is that parameter; the comment timestamp is not kept.
- Password hashing: `hashOf` stands for the salted hash stored on registration, and `check` for werkzeug's verification. Both are parameters.
- Transactions: a failing commit and its rollback, and concurrent requests racing on the unique constraint. Writes are sequential, and uniqueness is an invariant.
- Unicode: `\w`, `\d`, `lower()` and `strip()` are modelled on ASCII only.
- Column length limits (`String(64)`, `String(200)`, `String(10)`).
- The foreign keys to users (`author_id`, `user_id`) are not part of the invariant, because no modelled route deletes users.
- `int(parent_id)` on a non-numeric field raises an error page. The model takes the already-parsed field as `Option<int>`.
- Hashtags.ParseHashtags: `list(set(...))` has an arbitrary order. The model keeps first occurrences in text order, and its contract promises only the set of names.
- Scoring.TopHashtags: the SQL query leaves the order of hashtags with equal counts unspecified. The model orders them by increasing id.
- Views.TaggedPosts: `tag.posts` is listed in association-row order.
- Posts.CreatePost: the new hashtags and links are stated by what they hold, not by their order or the ids of new hashtags (each is one more than the largest hashtag id when it is added).
- The reaction summaries on the hashtag page: the model gives the posts only. Each post's summary is `Ledger.Summarize`, as on the index page.
- app/routes/users.py and app/config.py are not part of this model: they are a profile query, an upload form and environment loading.
