/**
 * The domain entities that validate a use case's payload before any
 * repository is touched. Each constructor either yields the entity or
 * throws one of two signals: a needed property is missing (falsy), or a
 * present property is not a string. The presence check always runs first.
 */
module Entities {
  import opened Values
  import opened Signals

  // ---------------------------------------------------------------- AddThread

  datatype ThreadPayload = ThreadPayload(title: Field, body: Field, owner: Field)

  /** A validated new thread; `owner` is copied without any check. */
  datatype AddThread = AddThread(title: string, body: string, owner: Field)

  /** `new AddThread(payload)` */
  function NewAddThread(p: ThreadPayload): (r: Result<AddThread>)
    ensures r.Ok? <==> NonEmptyString(p.title) && NonEmptyString(p.body)
    ensures !Truthy(p.title) || !Truthy(p.body) ==> r == Err(AddThreadMissingProperty)
    ensures Truthy(p.title) && Truthy(p.body) && !(IsString(p.title) && IsString(p.body))
            ==> r == Err(AddThreadWrongType)
    ensures r.Ok? ==> Str(r.value.title) == p.title && Str(r.value.body) == p.body && r.value.owner == p.owner
  {
    if !Truthy(p.title) || !Truthy(p.body) then Err(AddThreadMissingProperty)
    else if !IsString(p.title) || !IsString(p.body) then Err(AddThreadWrongType)
    else Ok(AddThread(p.title.s, p.body.s, p.owner))
  }

  // --------------------------------------------------------------- AddComment

  datatype CommentPayload = CommentPayload(content: Field, threadId: Field, owner: Field)

  /** A validated new comment; only `content` is checked, `threadId` and `owner` are copied as given. */
  datatype AddComment = AddComment(content: string, threadId: Field, owner: Field)

  /** `new AddComment(payload)` */
  function NewAddComment(p: CommentPayload): (r: Result<AddComment>)
    ensures r.Ok? <==> NonEmptyString(p.content)
    ensures !Truthy(p.content) ==> r == Err(AddCommentMissingProperty)
    ensures Truthy(p.content) && !IsString(p.content) ==> r == Err(AddCommentWrongType)
    ensures r.Ok? ==> Str(r.value.content) == p.content && r.value.threadId == p.threadId && r.value.owner == p.owner
  {
    if !Truthy(p.content) then Err(AddCommentMissingProperty)
    else if !IsString(p.content) then Err(AddCommentWrongType)
    else Ok(AddComment(p.content.s, p.threadId, p.owner))
  }

  // ------------------------------------------------------------ DeleteComment

  datatype DeleteCommentPayload = DeleteCommentPayload(threadId: Field, commentId: Field, owner: Field)

  datatype DeleteComment = DeleteComment(threadId: string, commentId: string, owner: string)

  /** `new DeleteComment(payload)`: every one of the three properties is checked. */
  function NewDeleteComment(p: DeleteCommentPayload): (r: Result<DeleteComment>)
    ensures r.Ok? <==> NonEmptyString(p.threadId) && NonEmptyString(p.commentId) && NonEmptyString(p.owner)
    ensures !Truthy(p.threadId) || !Truthy(p.commentId) || !Truthy(p.owner)
            ==> r == Err(DeleteCommentMissingProperty)
    ensures Truthy(p.threadId) && Truthy(p.commentId) && Truthy(p.owner)
            && !(IsString(p.threadId) && IsString(p.commentId) && IsString(p.owner))
            ==> r == Err(DeleteCommentWrongType)
    ensures r.Ok? ==> Str(r.value.threadId) == p.threadId && Str(r.value.commentId) == p.commentId
                      && Str(r.value.owner) == p.owner
  {
    if !Truthy(p.threadId) || !Truthy(p.commentId) || !Truthy(p.owner) then
      Err(DeleteCommentMissingProperty)
    else if !IsString(p.threadId) || !IsString(p.commentId) || !IsString(p.owner) then
      Err(DeleteCommentWrongType)
    else
      Ok(DeleteComment(p.threadId.s, p.commentId.s, p.owner.s))
  }

  // ----------------------------------------------------------------- AddReply

  datatype ReplyPayload = ReplyPayload(content: Field, commentId: Field, threadId: Field, owner: Field)

  /** A validated new reply; as for a comment, only `content` is checked. */
  datatype AddReply = AddReply(content: string, commentId: Field, threadId: Field, owner: Field)

  /** `new AddReply(payload)` */
  function NewAddReply(p: ReplyPayload): (r: Result<AddReply>)
    ensures r.Ok? <==> NonEmptyString(p.content)
    ensures !Truthy(p.content) ==> r == Err(AddReplyMissingProperty)
    ensures Truthy(p.content) && !IsString(p.content) ==> r == Err(AddReplyWrongType)
    ensures r.Ok? ==> Str(r.value.content) == p.content && r.value.commentId == p.commentId
                      && r.value.threadId == p.threadId && r.value.owner == p.owner
  {
    if !Truthy(p.content) then Err(AddReplyMissingProperty)
    else if !IsString(p.content) then Err(AddReplyWrongType)
    else Ok(AddReply(p.content.s, p.commentId, p.threadId, p.owner))
  }

  // -------------------------------------------------------------- DeleteReply

  datatype DeleteReplyPayload = DeleteReplyPayload(threadId: Field, commentId: Field, replyId: Field, owner: Field)

  datatype DeleteReply = DeleteReply(threadId: string, commentId: string, replyId: string, owner: string)

  /** `new DeleteReply(payload)`: every one of the four properties is checked. */
  function NewDeleteReply(p: DeleteReplyPayload): (r: Result<DeleteReply>)
    ensures r.Ok? <==> NonEmptyString(p.threadId) && NonEmptyString(p.commentId)
                       && NonEmptyString(p.replyId) && NonEmptyString(p.owner)
    ensures !Truthy(p.threadId) || !Truthy(p.commentId) || !Truthy(p.replyId) || !Truthy(p.owner)
            ==> r == Err(DeleteReplyMissingProperty)
    ensures Truthy(p.threadId) && Truthy(p.commentId) && Truthy(p.replyId) && Truthy(p.owner)
            && !(IsString(p.threadId) && IsString(p.commentId) && IsString(p.replyId) && IsString(p.owner))
            ==> r == Err(DeleteReplyWrongType)
    ensures r.Ok? ==> Str(r.value.threadId) == p.threadId && Str(r.value.commentId) == p.commentId
                      && Str(r.value.replyId) == p.replyId && Str(r.value.owner) == p.owner
  {
    if !Truthy(p.threadId) || !Truthy(p.commentId) || !Truthy(p.replyId) || !Truthy(p.owner) then
      Err(DeleteReplyMissingProperty)
    else if !IsString(p.threadId) || !IsString(p.commentId) || !IsString(p.replyId) || !IsString(p.owner) then
      Err(DeleteReplyWrongType)
    else
      Ok(DeleteReply(p.threadId.s, p.commentId.s, p.replyId.s, p.owner.s))
  }
}
