/**
 * The comment repository over the `comments` table. Deleting a comment is a
 * soft delete: the row stays and only its `is_delete` flag is set; readers
 * see a fixed marker in place of a deleted comment's content.
 */
module Comments {
  import opened Values
  import opened Signals
  import Entities
  import Seqs

  /** A row of `comments`; `thread_id` and `owner` are NOT NULL, `is_delete` defaults to false. */
  datatype CommentRow =
    CommentRow(id: string, content: string, threadId: string, owner: string, createdAt: nat, isDelete: bool)

  /** `RETURNING id, content, owner` */
  datatype AddedComment = AddedComment(id: string, content: string, owner: string)

  /** One entry of `getCommentsByThreadId`. */
  datatype CommentView = CommentView(id: string, username: Option<string>, date: nat, content: string)

  const IdPrefix := "comment-"

  /** What readers see in place of a deleted comment's content. */
  const DeletedMarker := "**komentar telah dihapus**"

  predicate DistinctIds(a: CommentRow, b: CommentRow) { a.id != b.id }

  predicate Earlier(a: CommentRow, b: CommentRow) { a.createdAt < b.createdAt }

  /** `id` is the primary key; rows are in `created_at` order, every one below the counter. */
  ghost predicate TableInvariant(rows: seq<CommentRow>, clock: nat)
  {
    && Seqs.Pairwise(rows, DistinctIds)
    && Seqs.Pairwise(rows, Earlier)
    && forall c :: c in rows ==> c.createdAt < clock
  }

  predicate HasComment(rows: seq<CommentRow>, commentId: Param)
  {
    exists c :: c in rows && commentId == Some(c.id)
  }

  /** `WHERE id = $1` */
  function WithId(commentId: Param): CommentRow -> bool
  {
    (c: CommentRow) => commentId == Some(c.id)
  }

  /** `WHERE comments.thread_id = $1` */
  function OfThread(threadId: Param): CommentRow -> bool
  {
    (c: CommentRow) => threadId == Some(c.threadId)
  }

  /** `SET is_delete = true` */
  function SoftDeleted(c: CommentRow): CommentRow
  {
    c.(isDelete := true)
  }

  /** A row as `getCommentsByThreadId` maps it: the owner's username, `created_at` as date, redacted content. */
  function View(c: CommentRow, users: map<string, string>): CommentView
  {
    CommentView(c.id, Username(users, Some(c.owner)), c.createdAt, if c.isDelete then DeletedMarker else c.content)
  }

  /**
   * `addComment`: insert a row with id `comment-<suffix>`. A NULL
   * `thread_id` or `owner` violates NOT NULL; an id already taken violates
   * the primary key; either way nothing is inserted.
   */
  function InsertComment(rows: seq<CommentRow>, clock: nat, c: Entities.AddComment, suffix: string)
    : (ins: Insertion<CommentRow, AddedComment>)
    ensures ins.result.Ok? <==>
      Bind(c.threadId).Some? && Bind(c.owner).Some? && !HasComment(rows, Some(IdPrefix + suffix))
    ensures Bind(c.threadId).None? || Bind(c.owner).None? ==> ins.result == Err(NotNullViolation)
    ensures Bind(c.threadId).Some? && Bind(c.owner).Some? && HasComment(rows, Some(IdPrefix + suffix))
            ==> ins.result == Err(UniqueViolation)
    ensures ins.result.Err? ==> ins.rows == rows && ins.result.signal in {NotNullViolation, UniqueViolation}
    ensures ins.result.Ok? ==>
      && ins.rows == rows + [CommentRow(IdPrefix + suffix, c.content, Bind(c.threadId).value, Bind(c.owner).value,
                                        clock, false)]
      && ins.result.value == AddedComment(IdPrefix + suffix, c.content, Bind(c.owner).value)
  {
    var id := IdPrefix + suffix;
    var threadId := Bind(c.threadId);
    var owner := Bind(c.owner);
    if threadId.None? || owner.None? then
      Insertion(Err(NotNullViolation), rows)
    else if HasComment(rows, Some(id)) then
      Insertion(Err(UniqueViolation), rows)
    else
      var row := CommentRow(id, c.content, threadId.value, owner.value, clock, false);
      Insertion(Ok(AddedComment(row.id, row.content, row.owner)), rows + [row])
  }

  lemma InsertCommentKeepsInvariant(rows: seq<CommentRow>, clock: nat, c: Entities.AddComment, suffix: string)
    requires TableInvariant(rows, clock)
    ensures var ins := InsertComment(rows, clock, c, suffix);
      TableInvariant(ins.rows, if ins.result.Ok? then clock + 1 else clock)
  {
  }

  /**
   * `verifyCommentOwner`: COMMENT_NOT_FOUND when no row has the id, checked
   * before NOT_OWNER when the (first) row with the id has another owner.
   */
  function VerifyCommentOwner(rows: seq<CommentRow>, commentId: string, owner: string): (o: Outcome)
    ensures o == Fail(CommentNotFound) <==> !HasComment(rows, Some(commentId))
    ensures o.Fail? ==> o.signal in {CommentNotFound, NotOwner}
    ensures o.Pass? ==> exists c :: c in rows && c.id == commentId && c.owner == owner
    ensures o == Fail(NotOwner) ==> exists c :: c in rows && c.id == commentId && c.owner != owner
  {
    var found := Seqs.Filter(rows, WithId(Some(commentId)));
    if |found| == 0 then
      Fail(CommentNotFound)
    else
      assert found[0] in found;
      if found[0].owner != owner then Fail(NotOwner) else Pass
  }

  /** With ids unique, the owner check passes exactly for the owner of the comment. */
  lemma VerifyCommentOwnerExact(rows: seq<CommentRow>, clock: nat, commentId: string, owner: string)
    requires TableInvariant(rows, clock)
    ensures VerifyCommentOwner(rows, commentId, owner).Pass? <==>
      exists c :: c in rows && c.id == commentId && c.owner == owner
  {
    if o :| o in rows && o.id == commentId && o.owner == owner {
      forall c | c in rows && c.id == commentId ensures c == o {
        var i :| 0 <= i < |rows| && rows[i] == o;
        var j :| 0 <= j < |rows| && rows[j] == c;
        assert i == j;
      }
    }
  }

  /** `verifyCommentExist`: COMMENT_NOT_FOUND exactly when no row has the id. */
  function VerifyCommentExist(rows: seq<CommentRow>, commentId: Param): (o: Outcome)
    ensures o.Pass? <==> HasComment(rows, commentId)
    ensures o.Fail? ==> o.signal == CommentNotFound
  {
    var found := Seqs.Filter(rows, WithId(commentId));
    if |found| == 0 then Fail(CommentNotFound)
    else
      assert found[0] in found;
      Pass
  }

  /** `deleteComment`: `UPDATE comments SET is_delete = true WHERE id = $1`. */
  function MarkDeleted(rows: seq<CommentRow>, commentId: string): (r: seq<CommentRow>)
    ensures |r| == |rows|
    ensures forall i :: 0 <= i < |rows| ==>
      && r[i].id == rows[i].id && r[i].content == rows[i].content && r[i].threadId == rows[i].threadId
      && r[i].owner == rows[i].owner && r[i].createdAt == rows[i].createdAt
      && (r[i].isDelete <==> rows[i].isDelete || rows[i].id == commentId)
  {
    Seqs.UpdateWhere(rows, WithId(Some(commentId)), SoftDeleted)
  }

  /** Deleting the same comment twice is the same as deleting it once. */
  lemma MarkDeletedIdempotent(rows: seq<CommentRow>, commentId: string)
    ensures MarkDeleted(MarkDeleted(rows, commentId), commentId) == MarkDeleted(rows, commentId)
  {
    Seqs.UpdateWhereTwice(rows, WithId(Some(commentId)), SoftDeleted);
  }

  /** Deleting an id that no row has changes nothing. */
  lemma MarkDeletedAbsent(rows: seq<CommentRow>, commentId: string)
    requires !HasComment(rows, Some(commentId))
    ensures MarkDeleted(rows, commentId) == rows
  {
    var r := MarkDeleted(rows, commentId);
    forall i | 0 <= i < |rows| ensures r[i] == rows[i] {
      assert rows[i] in rows;
    }
  }

  /** A soft delete keeps the table's constraints, and every comment still exists afterwards. */
  lemma MarkDeletedKeepsInvariant(rows: seq<CommentRow>, clock: nat, commentId: string)
    requires TableInvariant(rows, clock)
    ensures TableInvariant(MarkDeleted(rows, commentId), clock)
    ensures forall id :: HasComment(rows, id) <==> HasComment(MarkDeleted(rows, commentId), id)
  {
    var r := MarkDeleted(rows, commentId);
    forall id | HasComment(rows, id) ensures HasComment(r, id) {
      var c :| c in rows && id == Some(c.id);
      var i :| 0 <= i < |rows| && rows[i] == c;
      assert r[i] in r;
    }
    forall id | HasComment(r, id) ensures HasComment(rows, id) {
      var c :| c in r && id == Some(c.id);
      var i :| 0 <= i < |r| && r[i] == c;
      assert rows[i] in rows;
    }
    forall c | c in r ensures c.createdAt < clock {
      var i :| 0 <= i < |r| && r[i] == c;
      assert rows[i] in rows;
    }
  }

  /**
   * `getCommentsByThreadId`: the thread's comments, deleted ones included,
   * each mapped by `View`, in ascending `created_at` order (the order of the
   * table, by `TableInvariant`).
   */
  function GetCommentsByThreadId(rows: seq<CommentRow>, threadId: Param, users: map<string, string>)
    : (r: seq<CommentView>)
    ensures forall i :: 0 <= i < |r| ==> exists c :: c in rows && threadId == Some(c.threadId) && r[i] == View(c, users)
    ensures forall c :: c in rows && threadId == Some(c.threadId) ==> View(c, users) in r
  {
    var found := Seqs.Filter(rows, OfThread(threadId));
    var r := seq(|found|, i requires 0 <= i < |found| => View(found[i], users));
    assert forall i :: 0 <= i < |r| ==> found[i] in found;
    assert forall c :: c in found ==> exists i :: 0 <= i < |found| && found[i] == c && r[i] == View(c, users);
    r
  }

  /** The comments come out in strictly ascending date order. */
  lemma CommentsInCreationOrder(rows: seq<CommentRow>, clock: nat, threadId: Param, users: map<string, string>)
    requires TableInvariant(rows, clock)
    ensures var r := GetCommentsByThreadId(rows, threadId, users);
      forall i, j :: 0 <= i < j < |r| ==> r[i].date < r[j].date
  {
    Seqs.FilterPairwise(rows, OfThread(threadId), Earlier);
  }

  /** No comment is listed twice. */
  lemma CommentsListedOnce(rows: seq<CommentRow>, clock: nat, threadId: Param, users: map<string, string>)
    requires TableInvariant(rows, clock)
    ensures var r := GetCommentsByThreadId(rows, threadId, users);
      forall i, j :: 0 <= i < j < |r| ==> r[i].id != r[j].id
  {
    Seqs.FilterPairwise(rows, OfThread(threadId), DistinctIds);
  }

  /** Appending a row of the thread appends its view to the thread's listing. */
  lemma ListingAppend(rows: seq<CommentRow>, row: CommentRow, threadId: Param, users: map<string, string>)
    requires threadId == Some(row.threadId)
    ensures GetCommentsByThreadId(rows + [row], threadId, users)
            == GetCommentsByThreadId(rows, threadId, users) + [View(row, users)]
  {
    Seqs.FilterAppend(rows, row, OfThread(threadId));
    var f0 := Seqs.Filter(rows, OfThread(threadId));
    var f1 := Seqs.Filter(rows + [row], OfThread(threadId));
    var v0 := GetCommentsByThreadId(rows, threadId, users);
    var v1 := GetCommentsByThreadId(rows + [row], threadId, users);
    assert |v1| == |f1| == |f0| + 1 == |v0| + 1;
    forall i | 0 <= i < |v1|
      ensures v1[i] == (v0 + [View(row, users)])[i]
    {
      if i < |v0| {
        assert f1[i] == f0[i];
      }
    }
  }

  /** A comment just added is listed last for its thread, after the comments listed before. */
  lemma AddedCommentIsListedLast(rows: seq<CommentRow>, clock: nat, c: Entities.AddComment, suffix: string,
                                 users: map<string, string>)
    requires InsertComment(rows, clock, c, suffix).result.Ok?
    ensures var ins := InsertComment(rows, clock, c, suffix);
      GetCommentsByThreadId(ins.rows, Bind(c.threadId), users)
        == GetCommentsByThreadId(rows, Bind(c.threadId), users)
           + [CommentView(IdPrefix + suffix, Username(users, Bind(c.owner)), clock, c.content)]
  {
    var ins := InsertComment(rows, clock, c, suffix);
    var row := CommentRow(IdPrefix + suffix, c.content, Bind(c.threadId).value, Bind(c.owner).value, clock, false);
    assert ins.rows == rows + [row];
    ListingAppend(rows, row, Bind(c.threadId), users);
  }

  /**
   * Deleting a comment redacts exactly that comment in every thread's
   * listing: the listing keeps its length and order, and every other entry
   * is unchanged.
   */
  lemma DeletedCommentIsRedacted(rows: seq<CommentRow>, commentId: string, threadId: Param,
                                 users: map<string, string>)
    ensures var before := GetCommentsByThreadId(rows, threadId, users);
      var after := GetCommentsByThreadId(MarkDeleted(rows, commentId), threadId, users);
      && |after| == |before|
      && forall i :: 0 <= i < |before| ==>
           after[i] == if before[i].id == commentId then before[i].(content := DeletedMarker) else before[i]
  {
    Seqs.FilterUpdateWhere(rows, OfThread(threadId), WithId(Some(commentId)), SoftDeleted);
  }

  /** The repository: the `comments` table and the counter that stamps `created_at`. */
  class CommentRepository {
    var rows: seq<CommentRow>
    var clock: nat

    ghost predicate Valid()
      reads this
    {
      TableInvariant(rows, clock)
    }

    constructor ()
      ensures Valid() && rows == [] && clock == 0
    {
      rows := [];
      clock := 0;
    }

    /** `addComment(addComment)` */
    method AddComment(c: Entities.AddComment, suffix: string) returns (r: Result<AddedComment>)
      requires Valid()
      modifies this
      ensures Valid()
      ensures var ins := InsertComment(old(rows), old(clock), c, suffix); r == ins.result && rows == ins.rows
      ensures clock == if r.Ok? then old(clock) + 1 else old(clock)
    {
      InsertCommentKeepsInvariant(rows, clock, c, suffix);
      var ins := InsertComment(rows, clock, c, suffix);
      r := ins.result;
      rows := ins.rows;
      if r.Ok? {
        clock := clock + 1;
      }
    }

    /** `deleteComment(commentId)` */
    method DeleteComment(commentId: string)
      requires Valid()
      modifies this
      ensures Valid()
      ensures rows == MarkDeleted(old(rows), commentId) && clock == old(clock)
    {
      MarkDeletedKeepsInvariant(rows, clock, commentId);
      rows := MarkDeleted(rows, commentId);
    }
  }
}
