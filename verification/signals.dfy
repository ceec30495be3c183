/**
 * The messages of the `Error`s the domain layer throws. They are stable
 * identifiers that the error translator maps to user-facing errors.
 */
module Signals {

  const ThreadNotFound := "THREAD_NOT_FOUND"
  const CommentNotFound := "COMMENT_NOT_FOUND"
  const ReplyNotFound := "REPLY_NOT_FOUND"
  const NotOwner := "NOT_OWNER"

  const AddThreadMissingProperty := "ADD_THREAD.NOT_CONTAIN_NEEDED_PROPERTY"
  const AddThreadWrongType := "ADD_THREAD.NOT_MEET_DATA_TYPE_SPECIFICATION"
  const AddCommentMissingProperty := "ADD_COMMENT.NOT_CONTAIN_NEEDED_PROPERTY"
  const AddCommentWrongType := "ADD_COMMENT.NOT_MEET_DATA_TYPE_SPECIFICATION"
  const DeleteCommentMissingProperty := "DELETE_COMMENT.NOT_CONTAIN_NEEDED_PROPERTY"
  const DeleteCommentWrongType := "DELETE_COMMENT.NOT_MEET_DATA_TYPE_SPECIFICATION"
  const AddReplyMissingProperty := "ADD_REPLY.NOT_CONTAIN_NEEDED_PROPERTY"
  const AddReplyWrongType := "ADD_REPLY.NOT_MEET_DATA_TYPE_SPECIFICATION"
  const DeleteReplyMissingProperty := "DELETE_REPLY.NOT_CONTAIN_NEEDED_PROPERTY"
  const DeleteReplyWrongType := "DELETE_REPLY.NOT_MEET_DATA_TYPE_SPECIFICATION"

  /** PostgreSQL error 23502: a NULL value bound to a NOT NULL column. */
  const NotNullViolation := "NOT_NULL_VIOLATION"
  /** PostgreSQL error 23505: an INSERT that would duplicate a primary or unique key. */
  const UniqueViolation := "UNIQUE_VIOLATION"
}
