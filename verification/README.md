# forum-api domain layer in Dafny

This project models the domain layer of forum-api, a discussion-forum backend.
Users create threads, comment on them, reply to comments and like comments.
The model covers four parts.

- **The entity validators** (`AddThread`, `AddComment`, `DeleteComment`, `AddReply`, `DeleteReply`).
  Each turns a loosely typed payload into a value object, or throws one of two signals.
  The first signal is for a missing (falsy) property; the second is for a present property that is not a string.
- **`DomainErrorTranslator`**. This is the fixed directory from signal to client error (Invariant, NotFound or Authorization, with a message).
  `translate` is directory lookup or the error itself.
- **The four Postgres repositories** as operations on in-memory tables: threads, comments, replies and likes.
  - Each table is a sequence of rows in insertion order. A per-table counter stands in for `created_at`.
  - Each repository class owns its table. Its methods insert, soft-delete, or delete rows.
  - Every query is a pure function over the table.
  - The methods preserve these invariants:
    - the primary key, from the migrations;
    - `UNIQUE(comment_id, owner)` on likes, from the migrations;
    - rows in `created_at` order. This is a property of the model, not a table constraint: each insert takes the counter's current value and then advances it.
- **The use cases** that add and delete comments and replies, toggle a like, and assemble a thread view.
  - The five use cases that change a table are classes holding their repositories: `AddThreadCommentUseCase`, `DeleteThreadCommentUseCase`, `AddThreadCommentReplyUseCase`, `DeleteThreadCommentReplyUseCase` and `LikeCommentUseCase`.
  - Each one's `Execute` method runs the checks in the source's order. The first failure ends the call with that check's signal and leaves every table as it was.
  - `GetThreadUseCase` only reads, so it is the function `UseCases.GetThread` over the table values.

The use cases throw errors; the model returns them as values.
A call returns `Result`/`Outcome` values, and their `signal` is the thrown `Error`'s message.
The store's own rejections are also signals: `NOT_NULL_VIOLATION` for a NULL in a NOT NULL column, and `UNIQUE_VIOLATION` for a duplicate key.
`Field` models a JavaScript property value, and `Bind` models how node-postgres sends it as a query parameter.
`undefined` and `null` both become SQL NULL.

Some inputs are parameters, not state:
- the id generator's output is the `suffix` argument;
- the `users` table is a map from user id to username. The model reads it only where the LEFT JOINs do; the foreign keys on `owner` are not modelled (see "## Left out").

In three places the code does less than the API around it suggests. The model follows the code.
- `GetThreadUseCase` returns the thread and its comments only, with no replies and no like counts (src/Applications/use_case/GetThreadUseCase.js:7-19). The HTTP test that expects a comment's `likeCount` runs only when `CI` is set (src/Infrastructures/http/_test/likes.test.js:11,22,98).
- No use case checks that a comment belongs to the thread in the request (src/Applications/use_case/DeleteThreadCommentUseCase.js:15-18). `UseCases.CommentThreadNotChecked` exhibits this.
  Likewise, no use case checks that a reply belongs to the comment in the request, or that the comment belongs to the thread (src/Applications/use_case/DeleteThreadCommentReplyUseCase.js:16-22); `UseCases.ReplyLinksNotChecked` exhibits this.
- When the like toggle's insert is rejected by a constraint, the call fails with the store's signal rather than passing as a no-op (src/Applications/use_case/LikeCommentUseCase.js:13-19).

`AddReply` and `DeleteComment` are not part of this model's sources. Their validators are reconstructed from their tests.
`AddReply` checks `content` only, like `AddComment`. `DeleteComment` checks its three properties, like `DeleteReply`.

## Model

| member | source | states |
|---|---|---|
| Values.TruthyStringIsNonEmpty | src/Domains/threads/entities/AddThread.js:13-21 | a property passes both entity checks (truthy, then `typeof` string) exactly when it holds a non-empty string |
| Values.Bind | src/Infrastructures/repository/CommentRepositoryPostgres.js:14-17 | a bound parameter is NULL exactly when the property is undefined or null; a string is sent as itself |
| Entities.NewAddThread | src/Domains/threads/entities/AddThread.js:1-22 | succeeds iff title and body are non-empty strings; a falsy title or body gives `ADD_THREAD.NOT_CONTAIN_NEEDED_PROPERTY` (checked first); otherwise a non-string gives `ADD_THREAD.NOT_MEET_DATA_TYPE_SPECIFICATION`; on success title, body and owner equal the payload's, and owner is never checked |
| Entities.NewAddComment | src/Domains/comments/entities/AddComment.js:1-20 | succeeds iff content is a non-empty string; missing before wrong type; content, threadId and owner copied unchanged, with threadId and owner unchecked |
| Entities.NewDeleteComment | src/Domains/comments/entities/_test/DeleteComment.test.js:4-35 | succeeds iff threadId, commentId and owner are all non-empty strings; any falsy one gives `DELETE_COMMENT.NOT_CONTAIN_NEEDED_PROPERTY` before the type check; fields copied on success |
| Entities.NewAddReply | src/Domains/replies/entities/_test/AddReply.test.js:4-39 | succeeds iff content is a non-empty string; `ADD_REPLY.*` signals in presence-then-type order; all four fields copied on success |
| Entities.NewDeleteReply | src/Domains/replies/entities/DeleteReply.js:1-21 | succeeds iff the four ids and owner are non-empty strings; any falsy one gives `DELETE_REPLY.NOT_CONTAIN_NEEDED_PROPERTY`, else any non-string gives `DELETE_REPLY.NOT_MEET_DATA_TYPE_SPECIFICATION`; fields copied on success |
| ErrorTranslator.EveryEntryIsAClientError | src/Commons/exceptions/DomainErrorTranslator.js:11-31 | every directory entry is a client error whose message is one of the directory's user-facing messages |
| ErrorTranslator.RegistrationMessagesAreNotKeys | src/Commons/exceptions/DomainErrorTranslator.js:12-15 | no user-registration message is a directory key |
| ErrorTranslator.CreationMessagesAreNotKeys | src/Commons/exceptions/DomainErrorTranslator.js:16-19 | no thread- or comment-creation message is a directory key |
| ErrorTranslator.DeletionMessagesAreNotKeys | src/Commons/exceptions/DomainErrorTranslator.js:20-24 | no not-found, not-owner or comment-deletion message is a directory key |
| ErrorTranslator.AuthenticationMessagesAreNotKeys | src/Commons/exceptions/DomainErrorTranslator.js:25-30 | no login or refresh-token message is a directory key |
| ErrorTranslator.MessagesAreNotKeys | src/Commons/exceptions/DomainErrorTranslator.js:11-31 | no message an entry carries is itself a key of the directory |
| ErrorTranslator.Translate | src/Commons/exceptions/DomainErrorTranslator.js:6-8 | an error whose message is a key becomes that key's directory entry, any other error is returned unchanged; a changed error is a client error whose message is not a key |
| ErrorTranslator.TranslateIdempotent | src/Commons/exceptions/DomainErrorTranslator.js:6-31 | translating twice equals translating once |
| ErrorTranslator.NotFoundEntries | src/Commons/exceptions/DomainErrorTranslator.js:20-21 | an entry is NotFound exactly when its key is `THREAD_NOT_FOUND` or `COMMENT_NOT_FOUND` |
| ErrorTranslator.AuthorizationEntries | src/Commons/exceptions/DomainErrorTranslator.js:22 | an entry is Authorization exactly when its key is `NOT_OWNER` |
| ErrorTranslator.InvariantEntries | src/Commons/exceptions/DomainErrorTranslator.js:11-31 | every other entry (the `NOT_CONTAIN_*` / `NOT_MEET_*` keys) is Invariant |
| ErrorTranslator.ReplySignalsPassThrough | src/Commons/exceptions/DomainErrorTranslator.js:11-31 | `REPLY_NOT_FOUND`, `ADD_REPLY.*` and `DELETE_REPLY.*` errors come out of `translate` unchanged |
| ErrorTranslator.UseCaseSignals | src/Commons/exceptions/DomainErrorTranslator.js:18-24 | the signals the comment use cases throw become the NotFound, Authorization and Invariant errors the directory lists |
| Threads.InsertThread | src/Infrastructures/repository/ThreadRepositoryPostgres.js:11-27 | inserts `thread-<suffix>` with the payload's title, body and owner and returns {id, title, owner}; a taken id is rejected and the table is unchanged |
| Threads.InsertThreadKeepsInvariant | src/Infrastructures/repository/ThreadRepositoryPostgres.js:11-27 | an insert keeps ids unique and rows in `created_at` order |
| Threads.GetThreadById | src/Infrastructures/repository/ThreadRepositoryPostgres.js:29-44 | `THREAD_NOT_FOUND` exactly when no row has the id; otherwise a row with that id, joined with its owner's username |
| Threads.GetThreadByIdFindsRow | src/Infrastructures/repository/ThreadRepositoryPostgres.js:29-44 | with ids unique, the lookup returns exactly the row carrying the id |
| Threads.AddedThreadIsFound | src/Infrastructures/repository/ThreadRepositoryPostgres.js:11-44 | reading back a just-added thread yields the inserted title, body, owner and date |
| Threads.ThreadRepository.AddThread | src/Infrastructures/repository/ThreadRepositoryPostgres.js:11-27 | the table becomes the insertion's table and the counter advances on success; the table invariant is kept |
| Comments.InsertComment | src/Infrastructures/repository/CommentRepositoryPostgres.js:10-22 | appends (`comment-<suffix>`, content, thread, owner, counter, not deleted) and returns {id, content, owner}; a NULL thread or owner fails NOT NULL; otherwise a taken id fails UNIQUE; it succeeds exactly when neither applies, and a failure changes nothing |
| Comments.InsertCommentKeepsInvariant | src/Infrastructures/repository/CommentRepositoryPostgres.js:10-22 | an insert keeps ids unique and rows in `created_at` order |
| Comments.VerifyCommentOwner | src/Infrastructures/repository/CommentRepositoryPostgres.js:24-44 | `COMMENT_NOT_FOUND` exactly when the id is absent, reported before `NOT_OWNER`; `NOT_OWNER` only when a row with the id has another owner; passes only for a row with the id and owner |
| Comments.VerifyCommentOwnerExact | src/Infrastructures/repository/CommentRepositoryPostgres.js:24-44 | with ids unique, the check passes exactly when the comment exists and belongs to the owner |
| Comments.VerifyCommentExist | src/Infrastructures/repository/CommentRepositoryPostgres.js:46-59 | passes exactly when a row has the id, otherwise `COMMENT_NOT_FOUND` |
| Comments.MarkDeleted | src/Infrastructures/repository/CommentRepositoryPostgres.js:61-68 | no row is removed or reordered, only `is_delete` can change, and it is set exactly on the rows with the id |
| Comments.MarkDeletedIdempotent | src/Infrastructures/repository/CommentRepositoryPostgres.js:61-68 | deleting twice equals deleting once |
| Comments.MarkDeletedAbsent | src/Infrastructures/repository/CommentRepositoryPostgres.js:61-68 | deleting an absent id leaves the table as it was |
| Comments.MarkDeletedKeepsInvariant | src/Infrastructures/repository/CommentRepositoryPostgres.js:61-68 | a soft delete keeps the table invariant and every comment id present |
| Comments.GetCommentsByThreadId | src/Infrastructures/repository/CommentRepositoryPostgres.js:70-87 | lists exactly the thread's comments, deleted ones included, each with its owner's username, `created_at` as date, and content or the marker |
| Comments.CommentsInCreationOrder | src/Infrastructures/repository/CommentRepositoryPostgres.js:72-76 | the listing is in strictly ascending `created_at` order |
| Comments.CommentsListedOnce | src/Infrastructures/repository/CommentRepositoryPostgres.js:70-87 | no comment appears twice in the listing |
| Comments.AddedCommentIsListedLast | src/Infrastructures/repository/CommentRepositoryPostgres.js:70-87 | after an insert, the thread's listing is the old listing plus the new comment at the end |
| Comments.DeletedCommentIsRedacted | src/Infrastructures/repository/CommentRepositoryPostgres.js:81-86 | after a delete, every listing keeps length and order; the deleted comment shows `**komentar telah dihapus**` and all other entries are unchanged |
| Comments.CommentRepository.AddComment | src/Infrastructures/repository/CommentRepositoryPostgres.js:10-22 | the table becomes the insertion's table, the counter advances on success, and the invariant is kept |
| Comments.CommentRepository.DeleteComment | src/Infrastructures/repository/CommentRepositoryPostgres.js:61-68 | the table becomes its soft-deleted form and the invariant is kept |
| Replies.InsertReply | src/Infrastructures/repository/ReplyRepositoryPostgres.js:10-22 | appends (`reply-<suffix>`, content, comment, thread, owner, counter, not deleted) and returns {id, content, owner}; a NULL comment, thread or owner fails NOT NULL; otherwise a taken id fails UNIQUE; it succeeds exactly when neither applies, and a failure changes nothing |
| Replies.InsertReplyKeepsInvariant | src/Infrastructures/repository/ReplyRepositoryPostgres.js:10-22 | an insert keeps ids unique and rows in `created_at` order |
| Replies.GetReplyByCommentId | src/Infrastructures/repository/ReplyRepositoryPostgres.js:24-41 | lists exactly the comment's replies (empty if none), each with username (None when there is no such user), `created_at` as date, and content or the marker |
| Replies.RepliesInCreationOrder | src/Infrastructures/repository/ReplyRepositoryPostgres.js:26-30 | the listing is in strictly ascending `created_at` order |
| Replies.RepliesListedOnce | src/Infrastructures/repository/ReplyRepositoryPostgres.js:24-41 | no reply appears twice in the listing |
| Replies.AddedReplyIsListedLast | src/Infrastructures/repository/ReplyRepositoryPostgres.js:24-41 | after an insert, the comment's listing is the old listing plus the new reply at the end |
| Replies.DeletedReplyIsRedacted | src/Infrastructures/repository/ReplyRepositoryPostgres.js:35-40 | after a delete, the deleted reply shows `**balasan telah dihapus**` in place; everything else is unchanged |
| Replies.VerifyReplyOwner | src/Infrastructures/repository/ReplyRepositoryPostgres.js:43-63 | `REPLY_NOT_FOUND` exactly when the id is absent, before `NOT_OWNER`; passes only for a row with the id and owner |
| Replies.VerifyReplyOwnerExact | src/Infrastructures/repository/ReplyRepositoryPostgres.js:43-63 | with ids unique, passes exactly when the reply exists and belongs to the owner |
| Replies.VerifyReplyExist | src/Infrastructures/repository/ReplyRepositoryPostgres.js:65-78 | passes exactly when a row has the id, otherwise `REPLY_NOT_FOUND` |
| Replies.MarkDeleted | src/Infrastructures/repository/ReplyRepositoryPostgres.js:80-87 | no row is removed or reordered, only `is_delete` changes, set exactly on the rows with the id |
| Replies.MarkDeletedIdempotent | src/Infrastructures/repository/ReplyRepositoryPostgres.js:80-87 | deleting twice equals deleting once |
| Replies.MarkDeletedAbsent | src/Infrastructures/repository/ReplyRepositoryPostgres.js:80-87 | deleting an absent id changes nothing |
| Replies.MarkDeletedKeepsInvariant | src/Infrastructures/repository/ReplyRepositoryPostgres.js:80-87 | a soft delete keeps the invariant and every reply id present |
| Replies.ReplyRepository.AddReply | src/Infrastructures/repository/ReplyRepositoryPostgres.js:10-22 | the table becomes the insertion's table, the counter advances on success, and the invariant is kept |
| Replies.ReplyRepository.DeleteReply | src/Infrastructures/repository/ReplyRepositoryPostgres.js:80-87 | the table becomes its soft-deleted form and the invariant is kept |
| Likes.InsertLike | src/Infrastructures/repository/LikeRepositoryPostgres.js:10-21 | inserts (`like-<suffix>`, comment, owner) and returns the id exactly when both are non-NULL, the id is free and the pair is not yet liked; otherwise NOT NULL or unique violation, with the table unchanged |
| Likes.InsertLikeKeepsInvariant | migrations/1762622836187_create-table-likes.js:22 | an insert keeps both the id key and `UNIQUE(comment_id, owner)` |
| Likes.AfterDeleteLike | src/Infrastructures/repository/LikeRepositoryPostgres.js:23-30 | exactly the pair's rows are removed, every other row stays, and the pair is no longer liked |
| Likes.DeleteLikeKeepsInvariant | src/Infrastructures/repository/LikeRepositoryPostgres.js:23-30 | a delete keeps both unique constraints |
| Likes.DeleteLikeAbsent | src/Infrastructures/repository/LikeRepositoryPostgres.js:23-30 | deleting a pair nobody liked leaves the table as it was |
| Likes.FindLike | src/Infrastructures/repository/LikeRepositoryPostgres.js:32-40 | returns an id exactly when the pair is liked, and that id belongs to a row of the pair |
| Likes.FindLikeAfterAddAndDelete | src/Infrastructures/repository/LikeRepositoryPostgres.js:10-40 | after `deleteLike` the pair is not found; after a successful `addLike` it is found with the new id |
| Likes.LikeCount | src/Infrastructures/repository/LikeRepositoryPostgres.js:42-50 | the count is at most the table size, and zero exactly when no row has the comment |
| Likes.LikeCountIsLikers | migrations/1762622836187_create-table-likes.js:22 | under the pair constraint, a comment's count is the number of distinct users who like it |
| Likes.InsertLikeCount | src/Infrastructures/repository/LikeRepositoryPostgres.js:10-50 | a successful add raises its comment's count by one and leaves every other comment's count |
| Likes.DeleteLikeCount | src/Infrastructures/repository/LikeRepositoryPostgres.js:23-50 | a delete removes exactly that user from the comment's likers, and lowers the count by one iff they liked it |
| Likes.LikeRepository.AddLike | src/Infrastructures/repository/LikeRepositoryPostgres.js:10-21 | the table becomes the insertion's table and the invariant is kept |
| Likes.LikeRepository.DeleteLike | src/Infrastructures/repository/LikeRepositoryPostgres.js:23-30 | the table becomes the pair-less table and the invariant is kept |
| UseCases.AddThreadCommentUseCase.constructor | src/Applications/use_case/AddThreadCommentUseCase.js:4-7 | holds the given thread and comment repositories |
| UseCases.AddThreadCommentUseCase.Execute | src/Applications/use_case/AddThreadCommentUseCase.js:9-18 | a missing thread gives `THREAD_NOT_FOUND` even for an invalid payload; then an invalid payload gives its `ADD_COMMENT.*` signal; in both cases comments are unchanged; otherwise the result, table and counter are exactly `addComment`'s |
| UseCases.DeleteThreadCommentUseCase.constructor | src/Applications/use_case/DeleteThreadCommentUseCase.js:4-7 | holds the given repositories |
| UseCases.DeleteThreadCommentUseCase.Execute | src/Applications/use_case/DeleteThreadCommentUseCase.js:9-22 | validation, then thread, then owner check, each failure leaving comments unchanged with its signal; on success only the named comment is soft-deleted, and it existed with the caller as owner |
| UseCases.AddThreadCommentReplyUseCase.constructor | src/Applications/use_case/AddThreadCommentReplyUseCase.js:4-8 | holds the given repositories |
| UseCases.AddThreadCommentReplyUseCase.Execute | src/Applications/use_case/AddThreadCommentReplyUseCase.js:10-25 | validation, then thread, then comment existence, each failure leaving replies unchanged; otherwise result, table and counter are exactly `addReply`'s |
| UseCases.DeleteThreadCommentReplyUseCase.constructor | src/Applications/use_case/DeleteThreadCommentReplyUseCase.js:4-8 | holds the given repositories |
| UseCases.DeleteThreadCommentReplyUseCase.Execute | src/Applications/use_case/DeleteThreadCommentReplyUseCase.js:10-26 | validation, thread, comment, then reply owner check in that order, each failure leaving replies unchanged; on success only the named reply is soft-deleted, and it existed with the caller as owner |
| UseCases.Toggle | src/Applications/use_case/LikeCommentUseCase.js:13-19 | the toggle passes exactly when the pair was liked, or both ids are non-NULL and the new like id is free; a pass flips exactly the (comment, owner) pair and no other; a failure changes nothing; a NULL parameter fails NOT NULL |
| UseCases.ToggleCount | src/Applications/use_case/LikeCommentUseCase.js:13-19 | a successful toggle moves the comment's like count by exactly one, down if it was liked and up otherwise |
| UseCases.ToggleKeepsInvariant | src/Applications/use_case/LikeCommentUseCase.js:13-19 | a toggle keeps both unique constraints of the likes table |
| UseCases.ToggleTwiceRestores | src/Applications/use_case/LikeCommentUseCase.js:13-19 | two successful toggles of one pair restore every pair's like and every comment's count |
| UseCases.LikeThenUnlikeRestoresTable | src/Applications/use_case/LikeCommentUseCase.js:13-19 | liking then unliking a comment one had not liked leaves the likes table exactly as it was |
| UseCases.LikeCommentUseCase.constructor | src/Applications/use_case/LikeCommentUseCase.js:2-6 | holds the given repositories |
| UseCases.LikeCommentUseCase.Execute | src/Applications/use_case/LikeCommentUseCase.js:8-20 | thread, then comment existence, with the likes table unchanged on failure; then the toggle, with no validation of the properties |
| UseCases.GetThread | src/Applications/use_case/GetThreadUseCase.js:7-19 | `THREAD_NOT_FOUND` exactly when the thread is absent; otherwise the thread's id, title, body, date and username, and exactly its comment listing |
| UseCases.GetThreadCommentsInOrder | src/Applications/use_case/GetThreadUseCase.js:7-19 | the thread view lists comments oldest first |
| UseCases.AddedCommentAppearsInThread | src/Applications/use_case/GetThreadUseCase.js:7-19 | after a comment is added, the thread view lists it last with its content, author and date |
| UseCases.DeletedCommentRedactedInThread | src/Applications/use_case/GetThreadUseCase.js:7-19 | after a delete, the thread view shows that comment redacted in the same place and the rest unchanged |
| UseCases.CommentThreadNotChecked | src/Applications/use_case/DeleteThreadCommentUseCase.js:15-18 | a comment of one thread passes the thread and owner checks when addressed through another thread |
| UseCases.ReplyLinksNotChecked | src/Applications/use_case/DeleteThreadCommentReplyUseCase.js:16-22 | a reply passes the thread, comment and reply-owner checks when addressed through a comment it does not belong to, in a thread that comment does not belong to |

## Left out

- HTTP handlers, routing, authentication and the `statusCode` fields on errors: these are request plumbing, not domain state.
- The `pg` pool, SQL text and network I/O: these are replaced by in-memory tables and pure queries over them.
- Foreign keys are not modelled, at insert time or as cascades.
  - The store would reject an INSERT whose `thread_id`, `comment_id` or `owner` names no row. The model accepts it: `InsertComment`, `InsertReply` and `InsertLike` need only a non-NULL value and a free key.
  - The use cases check that the thread and comment exist before inserting. So within the use cases, only an `owner` with no `users` row is affected: such a comment, reply or like is stored where the store would fail with a foreign-key violation.
  - Cascading deletes are not modelled because no modelled operation deletes a thread, comment or user.
- Column lengths (`VARCHAR(50)`/`VARCHAR(60)`): an over-long id or owner is not rejected.
- Object and array payload values: these are opaque text (`Obj`), and Number only covers integers. NaN, fractions and `-0` are not modelled.
- The threads table's definition is not part of this model, so a thread's `owner` is stored as given, NULL included, and only the id is a key.
- Threads.InsertThread: the `rowCount == 0` branch of `addThread` is not modelled, because an INSERT without ON CONFLICT either stores its row or raises.
- `created_at` is an insertion counter that strictly increases. Two rows stamped in the same instant, which would make `ORDER BY created_at` ambiguous, cannot occur in the model.
- The id generator is the `suffix` argument. A repeated suffix is the store's primary-key rejection, not a precondition.
- `translate` looks up any own key of the directory only. JavaScript's inherited `Object.prototype` keys (such as `constructor`) are not modelled.
- A payload that is itself `undefined` (destructuring throws a `TypeError`) is not modelled; every payload is an object.
- Concurrent requests and the race between `findLike` and `addLike`: the model runs one call at a time.
- The `LikeComment` entity and the abstract repository classes: the use cases never call them.
- UseCases.GetThread does not attach replies or like counts to comments, because `GetThreadUseCase` does not fetch them.
