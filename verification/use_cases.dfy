/**
 * The application use cases. Each one receives its repositories when it is
 * built and runs its checks in a fixed order; the first check that fails
 * ends the call with that check's signal, before anything is written.
 */
module UseCases {
  import opened Values
  import opened Signals
  import Entities
  import Threads
  import Comments
  import Replies
  import Likes
  import Seqs

  // ---------------------------------------------------------- AddThreadComment

  /** `AddThreadCommentUseCase`: thread check, then payload validation, then insert. */
  class AddThreadCommentUseCase {
    const threads: Threads.ThreadRepository
    const comments: Comments.CommentRepository

    constructor (threads: Threads.ThreadRepository, comments: Comments.CommentRepository)
      ensures this.threads == threads && this.comments == comments
    {
      this.threads := threads;
      this.comments := comments;
    }

    /**
     * `execute(useCasePayload)`. `users` is the users table the thread
     * lookup joins with; `suffix` is what the id generator returns.
     */
    method Execute(payload: Entities.CommentPayload, users: map<string, string>, suffix: string)
      returns (r: Result<Comments.AddedComment>)
      requires comments.Valid()
      modifies comments
      ensures comments.Valid()
      ensures !Threads.HasThread(threads.rows, Bind(payload.threadId)) ==>
        r == Err(ThreadNotFound) && unchanged(comments)
      ensures Threads.HasThread(threads.rows, Bind(payload.threadId)) && Entities.NewAddComment(payload).Err? ==>
        r == Err(Entities.NewAddComment(payload).signal) && unchanged(comments)
      ensures Threads.HasThread(threads.rows, Bind(payload.threadId)) && Entities.NewAddComment(payload).Ok? ==>
        var ins := Comments.InsertComment(old(comments.rows), old(comments.clock),
                                          Entities.NewAddComment(payload).value, suffix);
        && r == ins.result && comments.rows == ins.rows
        && comments.clock == if r.Ok? then old(comments.clock) + 1 else old(comments.clock)
    {
      var thread := Threads.GetThreadById(threads.rows, Bind(payload.threadId), users);
      if thread.Err? {
        return Err(thread.signal);
      }
      var addComment := Entities.NewAddComment(payload);
      if addComment.Err? {
        return Err(addComment.signal);
      }
      r := comments.AddComment(addComment.value, suffix);
    }
  }

  // ------------------------------------------------------- DeleteThreadComment

  /** `DeleteThreadCommentUseCase`: validation, thread check, owner check, then soft delete. */
  class DeleteThreadCommentUseCase {
    const threads: Threads.ThreadRepository
    const comments: Comments.CommentRepository

    constructor (threads: Threads.ThreadRepository, comments: Comments.CommentRepository)
      ensures this.threads == threads && this.comments == comments
    {
      this.threads := threads;
      this.comments := comments;
    }

    /** `execute(useCasePayload)` */
    method Execute(payload: Entities.DeleteCommentPayload, users: map<string, string>) returns (o: Outcome)
      requires comments.Valid()
      modifies comments
      ensures comments.Valid()
      ensures Entities.NewDeleteComment(payload).Err? ==>
        o == Fail(Entities.NewDeleteComment(payload).signal) && unchanged(comments)
      ensures Entities.NewDeleteComment(payload).Ok? ==>
        var d := Entities.NewDeleteComment(payload).value;
        if !Threads.HasThread(threads.rows, Some(d.threadId)) then
          o == Fail(ThreadNotFound) && unchanged(comments)
        else if Comments.VerifyCommentOwner(old(comments.rows), d.commentId, d.owner).Fail? then
          o == Comments.VerifyCommentOwner(old(comments.rows), d.commentId, d.owner) && unchanged(comments)
        else
          o == Pass && comments.rows == Comments.MarkDeleted(old(comments.rows), d.commentId)
          && comments.clock == old(comments.clock)
      ensures o.Pass? ==> exists c :: c in old(comments.rows) && Some(c.id) == Bind(payload.commentId)
                                      && Some(c.owner) == Bind(payload.owner)
    {
      var deleteComment := Entities.NewDeleteComment(payload);
      if deleteComment.Err? {
        return Fail(deleteComment.signal);
      }
      var d := deleteComment.value;
      var thread := Threads.GetThreadById(threads.rows, Some(d.threadId), users);
      if thread.Err? {
        return Fail(thread.signal);
      }
      o := Comments.VerifyCommentOwner(comments.rows, d.commentId, d.owner);
      if o.Fail? {
        return;
      }
      comments.DeleteComment(d.commentId);
    }
  }

  // -------------------------------------------------- AddThreadCommentReply

  /** `AddThreadCommentReplyUseCase`: validation, thread check, comment check, then insert. */
  class AddThreadCommentReplyUseCase {
    const threads: Threads.ThreadRepository
    const comments: Comments.CommentRepository
    const replies: Replies.ReplyRepository

    constructor (threads: Threads.ThreadRepository, comments: Comments.CommentRepository,
                 replies: Replies.ReplyRepository)
      ensures this.threads == threads && this.comments == comments && this.replies == replies
    {
      this.threads := threads;
      this.comments := comments;
      this.replies := replies;
    }

    /** `execute(useCasePayload)` */
    method Execute(payload: Entities.ReplyPayload, users: map<string, string>, suffix: string)
      returns (r: Result<Replies.AddedReply>)
      requires replies.Valid()
      modifies replies
      ensures replies.Valid()
      ensures Entities.NewAddReply(payload).Err? ==>
        r == Err(Entities.NewAddReply(payload).signal) && unchanged(replies)
      ensures Entities.NewAddReply(payload).Ok? ==>
        var a := Entities.NewAddReply(payload).value;
        if !Threads.HasThread(threads.rows, Bind(a.threadId)) then
          r == Err(ThreadNotFound) && unchanged(replies)
        else if !Comments.HasComment(comments.rows, Bind(a.commentId)) then
          r == Err(CommentNotFound) && unchanged(replies)
        else
          var ins := Replies.InsertReply(old(replies.rows), old(replies.clock), a, suffix);
          && r == ins.result && replies.rows == ins.rows
          && replies.clock == if r.Ok? then old(replies.clock) + 1 else old(replies.clock)
    {
      var addReply := Entities.NewAddReply(payload);
      if addReply.Err? {
        return Err(addReply.signal);
      }
      var a := addReply.value;
      var thread := Threads.GetThreadById(threads.rows, Bind(a.threadId), users);
      if thread.Err? {
        return Err(thread.signal);
      }
      var comment := Comments.VerifyCommentExist(comments.rows, Bind(a.commentId));
      if comment.Fail? {
        return Err(comment.signal);
      }
      r := replies.AddReply(a, suffix);
    }
  }

  // ------------------------------------------------ DeleteThreadCommentReply

  /** `DeleteThreadCommentReplyUseCase`: validation, thread, comment, reply-owner check, then soft delete. */
  class DeleteThreadCommentReplyUseCase {
    const threads: Threads.ThreadRepository
    const comments: Comments.CommentRepository
    const replies: Replies.ReplyRepository

    constructor (threads: Threads.ThreadRepository, comments: Comments.CommentRepository,
                 replies: Replies.ReplyRepository)
      ensures this.threads == threads && this.comments == comments && this.replies == replies
    {
      this.threads := threads;
      this.comments := comments;
      this.replies := replies;
    }

    /** `execute(useCasePayload)` */
    method Execute(payload: Entities.DeleteReplyPayload, users: map<string, string>) returns (o: Outcome)
      requires replies.Valid()
      modifies replies
      ensures replies.Valid()
      ensures Entities.NewDeleteReply(payload).Err? ==>
        o == Fail(Entities.NewDeleteReply(payload).signal) && unchanged(replies)
      ensures Entities.NewDeleteReply(payload).Ok? ==>
        var d := Entities.NewDeleteReply(payload).value;
        if !Threads.HasThread(threads.rows, Some(d.threadId)) then
          o == Fail(ThreadNotFound) && unchanged(replies)
        else if !Comments.HasComment(comments.rows, Some(d.commentId)) then
          o == Fail(CommentNotFound) && unchanged(replies)
        else if Replies.VerifyReplyOwner(old(replies.rows), d.replyId, d.owner).Fail? then
          o == Replies.VerifyReplyOwner(old(replies.rows), d.replyId, d.owner) && unchanged(replies)
        else
          o == Pass && replies.rows == Replies.MarkDeleted(old(replies.rows), d.replyId)
          && replies.clock == old(replies.clock)
      ensures o.Pass? ==> exists x :: x in old(replies.rows) && Some(x.id) == Bind(payload.replyId)
                                      && Some(x.owner) == Bind(payload.owner)
    {
      var deleteReply := Entities.NewDeleteReply(payload);
      if deleteReply.Err? {
        return Fail(deleteReply.signal);
      }
      var d := deleteReply.value;
      var thread := Threads.GetThreadById(threads.rows, Some(d.threadId), users);
      if thread.Err? {
        return Fail(thread.signal);
      }
      o := Comments.VerifyCommentExist(comments.rows, Some(d.commentId));
      if o.Fail? {
        return;
      }
      o := Replies.VerifyReplyOwner(replies.rows, d.replyId, d.owner);
      if o.Fail? {
        return;
      }
      replies.DeleteReply(d.replyId);
    }
  }

  // -------------------------------------------------------------- LikeComment

  /** The outcome of the find-then-toggle step and the likes table it leaves. */
  datatype Toggled = Toggled(outcome: Outcome, rows: seq<Likes.LikeRow>)

  /**
   * The like toggle of `LikeCommentUseCase`: delete the pair's like when
   * `findLike` finds one, otherwise add one (which fails, changing nothing,
   * when a parameter is NULL or the id is taken).
   */
  function Toggle(rows: seq<Likes.LikeRow>, commentId: Param, owner: Param, suffix: string): (t: Toggled)
    ensures t.outcome.Fail? ==> t.rows == rows && !Likes.Liked(rows, commentId, owner)
    ensures commentId.None? || owner.None? ==> t.outcome == Fail(NotNullViolation)
    ensures t.outcome.Pass? <==>
      || Likes.Liked(rows, commentId, owner)
      || (commentId.Some? && owner.Some? && !Likes.HasId(rows, Likes.IdPrefix + suffix))
    ensures t.outcome.Pass? ==> forall c, o ::
      Likes.Liked(t.rows, Some(c), Some(o)) <==>
        if (Some(c), Some(o)) == (commentId, owner) then !Likes.Liked(rows, Some(c), Some(o))
        else Likes.Liked(rows, Some(c), Some(o))
  {
    if Likes.FindLike(rows, commentId, owner).Some? then
      Toggled(Pass, Likes.AfterDeleteLike(rows, commentId, owner))
    else
      var ins := Likes.InsertLike(rows, commentId, owner, suffix);
      Toggled(if ins.result.Ok? then Pass else Fail(ins.result.signal), ins.rows)
  }

  /** A toggle that passes moves the comment's like count by exactly one. */
  lemma ToggleCount(rows: seq<Likes.LikeRow>, commentId: string, owner: string, suffix: string)
    requires Likes.TableInvariant(rows)
    requires Toggle(rows, Some(commentId), Some(owner), suffix).outcome.Pass?
    ensures var after := Toggle(rows, Some(commentId), Some(owner), suffix).rows;
      Likes.LikeCount(after, Some(commentId))
        == if Likes.Liked(rows, Some(commentId), Some(owner)) then Likes.LikeCount(rows, Some(commentId)) - 1
           else Likes.LikeCount(rows, Some(commentId)) + 1
  {
    if Likes.Liked(rows, Some(commentId), Some(owner)) {
      Likes.DeleteLikeCount(rows, commentId, owner);
    } else {
      Likes.InsertLikeCount(rows, Some(commentId), Some(owner), suffix, Some(commentId));
    }
  }

  /** Toggles keep the likes table's constraints. */
  lemma ToggleKeepsInvariant(rows: seq<Likes.LikeRow>, commentId: Param, owner: Param, suffix: string)
    requires Likes.TableInvariant(rows)
    ensures Likes.TableInvariant(Toggle(rows, commentId, owner, suffix).rows)
  {
    if Likes.FindLike(rows, commentId, owner).Some? {
      Likes.DeleteLikeKeepsInvariant(rows, commentId, owner);
    } else {
      Likes.InsertLikeKeepsInvariant(rows, commentId, owner, suffix);
    }
  }

  /** One pair's like, as one toggle that passes leaves it. */
  lemma ToggleFlips(rows: seq<Likes.LikeRow>, commentId: Param, owner: Param, suffix: string, c: string, o: string)
    requires Toggle(rows, commentId, owner, suffix).outcome.Pass?
    ensures Likes.Liked(Toggle(rows, commentId, owner, suffix).rows, Some(c), Some(o)) <==>
      if (Some(c), Some(o)) == (commentId, owner) then !Likes.Liked(rows, Some(c), Some(o))
      else Likes.Liked(rows, Some(c), Some(o))
  {
  }

  /** Two toggles of the same pair that both pass restore every pair's like and every comment's count. */
  lemma ToggleTwiceRestores(rows: seq<Likes.LikeRow>, commentId: Param, owner: Param, s1: string, s2: string)
    requires Likes.TableInvariant(rows)
    requires Toggle(rows, commentId, owner, s1).outcome.Pass?
    requires Toggle(Toggle(rows, commentId, owner, s1).rows, commentId, owner, s2).outcome.Pass?
    ensures var twice := Toggle(Toggle(rows, commentId, owner, s1).rows, commentId, owner, s2).rows;
      && (forall c, o :: Likes.Liked(twice, Some(c), Some(o)) <==> Likes.Liked(rows, Some(c), Some(o)))
      && (forall c :: Likes.LikeCount(twice, Some(c)) == Likes.LikeCount(rows, Some(c)))
  {
    var once := Toggle(rows, commentId, owner, s1).rows;
    var twice := Toggle(once, commentId, owner, s2).rows;
    ToggleKeepsInvariant(rows, commentId, owner, s1);
    ToggleKeepsInvariant(once, commentId, owner, s2);
    forall c, o ensures Likes.Liked(twice, Some(c), Some(o)) <==> Likes.Liked(rows, Some(c), Some(o)) {
      ToggleFlips(rows, commentId, owner, s1, c, o);
      ToggleFlips(once, commentId, owner, s2, c, o);
    }
    forall c ensures Likes.LikeCount(twice, Some(c)) == Likes.LikeCount(rows, Some(c)) {
      Likes.SameLikersSameCount(twice, rows, c);
    }
  }

  /** Liking then unliking a comment one did not like leaves the likes table exactly as it was. */
  lemma LikeThenUnlikeRestoresTable(rows: seq<Likes.LikeRow>, commentId: Param, owner: Param, s1: string, s2: string)
    requires !Likes.Liked(rows, commentId, owner)
    requires Toggle(rows, commentId, owner, s1).outcome.Pass?
    ensures Toggle(Toggle(rows, commentId, owner, s1).rows, commentId, owner, s2).rows == rows
  {
    var ins := Likes.InsertLike(rows, commentId, owner, s1);
    var added := ins.rows[|rows|];
    Seqs.FilterAppend(rows, added, Likes.Unmatched(commentId, owner));
    Likes.DeleteLikeAbsent(rows, commentId, owner);
  }

  /** `LikeCommentUseCase`: thread check, comment check, then the toggle. No validator runs. */
  class LikeCommentUseCase {
    const threads: Threads.ThreadRepository
    const comments: Comments.CommentRepository
    const likes: Likes.LikeRepository

    constructor (threads: Threads.ThreadRepository, comments: Comments.CommentRepository,
                 likes: Likes.LikeRepository)
      ensures this.threads == threads && this.comments == comments && this.likes == likes
    {
      this.threads := threads;
      this.comments := comments;
      this.likes := likes;
    }

    /** `execute({ threadId, commentId, owner })`, each property used as given. */
    method Execute(threadId: Field, commentId: Field, owner: Field, users: map<string, string>, suffix: string)
      returns (o: Outcome)
      requires likes.Valid()
      modifies likes
      ensures likes.Valid()
      ensures !Threads.HasThread(threads.rows, Bind(threadId)) ==> o == Fail(ThreadNotFound) && unchanged(likes)
      ensures Threads.HasThread(threads.rows, Bind(threadId)) && !Comments.HasComment(comments.rows, Bind(commentId))
              ==> o == Fail(CommentNotFound) && unchanged(likes)
      ensures Threads.HasThread(threads.rows, Bind(threadId)) && Comments.HasComment(comments.rows, Bind(commentId))
              ==> var t := Toggle(old(likes.rows), Bind(commentId), Bind(owner), suffix);
                  o == t.outcome && likes.rows == t.rows
    {
      var thread := Threads.GetThreadById(threads.rows, Bind(threadId), users);
      if thread.Err? {
        return Fail(thread.signal);
      }
      o := Comments.VerifyCommentExist(comments.rows, Bind(commentId));
      if o.Fail? {
        return;
      }
      var existing := Likes.FindLike(likes.rows, Bind(commentId), Bind(owner));
      if existing.Some? {
        likes.DeleteLike(Bind(commentId), Bind(owner));
      } else {
        var added := likes.AddLike(Bind(commentId), Bind(owner), suffix);
        if added.Err? {
          o := Fail(added.signal);
        }
      }
    }
  }

  // ---------------------------------------------------------------- GetThread

  /** The object `GetThreadUseCase` assembles. */
  datatype ThreadView = ThreadView(id: string, title: string, body: string, date: nat, username: Option<string>,
                                   comments: seq<Comments.CommentView>)

  /**
   * `GetThreadUseCase.execute(threadId)`: the thread, then its comments;
   * replies and like counts are not part of the result.
   */
  function GetThread(threads: seq<Threads.ThreadRow>, comments: seq<Comments.CommentRow>, threadId: Field,
                     users: map<string, string>): (r: Result<ThreadView>)
    ensures r.Err? <==> !Threads.HasThread(threads, Bind(threadId))
    ensures r.Err? ==> r.signal == ThreadNotFound
    ensures r.Ok? ==> exists t :: t in threads && Bind(threadId) == Some(t.id) &&
                        r.value == ThreadView(t.id, t.title, t.body, t.createdAt, Username(users, t.owner),
                                              r.value.comments)
    ensures r.Ok? ==> r.value.comments == Comments.GetCommentsByThreadId(comments, Bind(threadId), users)
  {
    var thread := Threads.GetThreadById(threads, Bind(threadId), users);
    if thread.Err? then
      Err(thread.signal)
    else
      var list := Comments.GetCommentsByThreadId(comments, Bind(threadId), users);
      var t := thread.value;
      Ok(ThreadView(t.id, t.title, t.body, t.createdAt, t.username, list))
  }

  /** The thread's comments are listed oldest first. */
  lemma GetThreadCommentsInOrder(threads: seq<Threads.ThreadRow>, comments: seq<Comments.CommentRow>, clock: nat,
                                 threadId: Field, users: map<string, string>)
    requires Comments.TableInvariant(comments, clock)
    requires GetThread(threads, comments, threadId, users).Ok?
    ensures var list := GetThread(threads, comments, threadId, users).value.comments;
      forall i, j :: 0 <= i < j < |list| ==> list[i].date < list[j].date
  {
    Comments.CommentsInCreationOrder(comments, clock, Bind(threadId), users);
  }

  /** After a comment is added to a thread, the thread's view lists it last. */
  lemma AddedCommentAppearsInThread(threads: seq<Threads.ThreadRow>, comments: seq<Comments.CommentRow>, clock: nat,
                                    payload: Entities.CommentPayload, users: map<string, string>, suffix: string)
    requires Threads.HasThread(threads, Bind(payload.threadId))
    requires Entities.NewAddComment(payload).Ok?
    requires Comments.InsertComment(comments, clock, Entities.NewAddComment(payload).value, suffix).result.Ok?
    ensures var after := Comments.InsertComment(comments, clock, Entities.NewAddComment(payload).value, suffix).rows;
      GetThread(threads, after, payload.threadId, users).value.comments
        == GetThread(threads, comments, payload.threadId, users).value.comments
           + [Comments.CommentView(Comments.IdPrefix + suffix, Username(users, Bind(payload.owner)), clock,
                                   payload.content.s)]
  {
    Comments.AddedCommentIsListedLast(comments, clock, Entities.NewAddComment(payload).value, suffix, users);
  }

  /** After a comment is deleted, the thread's view shows it redacted, in the same place. */
  lemma DeletedCommentRedactedInThread(threads: seq<Threads.ThreadRow>, comments: seq<Comments.CommentRow>,
                                       threadId: Field, commentId: string, users: map<string, string>)
    requires Threads.HasThread(threads, Bind(threadId))
    ensures var before := GetThread(threads, comments, threadId, users).value.comments;
      var after := GetThread(threads, Comments.MarkDeleted(comments, commentId), threadId, users).value.comments;
      && |after| == |before|
      && forall i :: 0 <= i < |before| ==>
           after[i] == if before[i].id == commentId then before[i].(content := Comments.DeletedMarker) else before[i]
  {
    Comments.DeletedCommentIsRedacted(comments, commentId, Bind(threadId), users);
  }

  /**
   * The delete checks do not tie a comment to the thread in the request: a
   * comment of one thread passes every check when addressed through another.
   * This holds for every input, since the `ensures` of
   * `DeleteThreadCommentUseCase.Execute` never mention a comment's
   * `threadId`; the lemma gives one instance.
   */
  lemma CommentThreadNotChecked()
    ensures var threads := [Threads.ThreadRow("thread-a", "t", "b", Some("user-1"), 0),
                            Threads.ThreadRow("thread-b", "t", "b", Some("user-1"), 1)];
      var comments := [Comments.CommentRow("comment-1", "c", "thread-b", "user-1", 0, false)];
      && Threads.HasThread(threads, Some("thread-a"))
      && Comments.VerifyCommentOwner(comments, "comment-1", "user-1") == Pass
      && comments[0].threadId != "thread-a"
  {
    var threads := [Threads.ThreadRow("thread-a", "t", "b", Some("user-1"), 0),
                    Threads.ThreadRow("thread-b", "t", "b", Some("user-1"), 1)];
    assert threads[0] in threads;
  }

  /**
   * Likewise the reply delete checks tie neither the reply to the comment
   * nor the comment to the thread in the request (the `ensures` of
   * `DeleteThreadCommentReplyUseCase.Execute` never mention a reply's
   * `commentId` or `threadId`, nor a comment's `threadId`): a reply of
   * comment-2 in thread-b passes every check when addressed through
   * comment-1 of thread-b and thread-a.
   */
  lemma ReplyLinksNotChecked()
    ensures var threads := [Threads.ThreadRow("thread-a", "t", "b", Some("user-1"), 0),
                            Threads.ThreadRow("thread-b", "t", "b", Some("user-1"), 1)];
      var comments := [Comments.CommentRow("comment-1", "c", "thread-b", "user-1", 0, false),
                       Comments.CommentRow("comment-2", "c", "thread-b", "user-1", 1, false)];
      var replies := [Replies.ReplyRow("reply-1", "r", "comment-2", "thread-b", "user-1", 0, false)];
      && Threads.HasThread(threads, Some("thread-a"))
      && Comments.HasComment(comments, Some("comment-1"))
      && Replies.VerifyReplyOwner(replies, "reply-1", "user-1") == Pass
      && replies[0].commentId != "comment-1"
      && replies[0].threadId != "thread-a"
      && comments[0].threadId != "thread-a"
  {
    var threads := [Threads.ThreadRow("thread-a", "t", "b", Some("user-1"), 0),
                    Threads.ThreadRow("thread-b", "t", "b", Some("user-1"), 1)];
    var comments := [Comments.CommentRow("comment-1", "c", "thread-b", "user-1", 0, false),
                     Comments.CommentRow("comment-2", "c", "thread-b", "user-1", 1, false)];
    assert threads[0] in threads;
    assert comments[0] in comments;
  }
}
