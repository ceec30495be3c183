/**
 * The reply repository over the `replies` table. Like a comment, a reply is
 * soft-deleted: the row stays, its `is_delete` flag is set, and readers see
 * a fixed marker in place of its content.
 */
module Replies {
  import opened Values
  import opened Signals
  import Entities
  import Seqs

  /** A row of `replies`; `comment_id`, `thread_id` and `owner` are NOT NULL, `is_delete` defaults to false. */
  datatype ReplyRow = ReplyRow(id: string, content: string, commentId: string, threadId: string, owner: string,
                               createdAt: nat, isDelete: bool)

  /** `RETURNING id, content, owner` */
  datatype AddedReply = AddedReply(id: string, content: string, owner: string)

  /** One entry of `getReplyByCommentId`. */
  datatype ReplyView = ReplyView(id: string, username: Option<string>, date: nat, content: string)

  const IdPrefix := "reply-"

  /** What readers see in place of a deleted reply's content. */
  const DeletedMarker := "**balasan telah dihapus**"

  predicate DistinctIds(a: ReplyRow, b: ReplyRow) { a.id != b.id }

  predicate Earlier(a: ReplyRow, b: ReplyRow) { a.createdAt < b.createdAt }

  /** `id` is the primary key; rows are in `created_at` order, every one below the counter. */
  ghost predicate TableInvariant(rows: seq<ReplyRow>, clock: nat)
  {
    && Seqs.Pairwise(rows, DistinctIds)
    && Seqs.Pairwise(rows, Earlier)
    && forall r :: r in rows ==> r.createdAt < clock
  }

  predicate HasReply(rows: seq<ReplyRow>, replyId: Param)
  {
    exists r :: r in rows && replyId == Some(r.id)
  }

  /** `WHERE id = $1` */
  function WithId(replyId: Param): ReplyRow -> bool
  {
    (r: ReplyRow) => replyId == Some(r.id)
  }

  /** `WHERE replies.comment_id = $1` */
  function OfComment(commentId: Param): ReplyRow -> bool
  {
    (r: ReplyRow) => commentId == Some(r.commentId)
  }

  /** `SET is_delete = true` */
  function SoftDeleted(r: ReplyRow): ReplyRow
  {
    r.(isDelete := true)
  }

  /** A row as `getReplyByCommentId` maps it: the owner's username, `created_at` as date, redacted content. */
  function View(r: ReplyRow, users: map<string, string>): ReplyView
  {
    ReplyView(r.id, Username(users, Some(r.owner)), r.createdAt, if r.isDelete then DeletedMarker else r.content)
  }

  /**
   * `addReply`: insert a row with id `reply-<suffix>`. A NULL `comment_id`,
   * `thread_id` or `owner` violates NOT NULL; an id already taken violates
   * the primary key; either way nothing is inserted.
   */
  function InsertReply(rows: seq<ReplyRow>, clock: nat, a: Entities.AddReply, suffix: string)
    : (ins: Insertion<ReplyRow, AddedReply>)
    ensures ins.result.Ok? <==>
      && Bind(a.commentId).Some? && Bind(a.threadId).Some? && Bind(a.owner).Some?
      && !HasReply(rows, Some(IdPrefix + suffix))
    ensures Bind(a.commentId).None? || Bind(a.threadId).None? || Bind(a.owner).None?
            ==> ins.result == Err(NotNullViolation)
    ensures && Bind(a.commentId).Some? && Bind(a.threadId).Some? && Bind(a.owner).Some?
            && HasReply(rows, Some(IdPrefix + suffix))
            ==> ins.result == Err(UniqueViolation)
    ensures ins.result.Err? ==> ins.rows == rows && ins.result.signal in {NotNullViolation, UniqueViolation}
    ensures ins.result.Ok? ==>
      && ins.rows == rows + [ReplyRow(IdPrefix + suffix, a.content, Bind(a.commentId).value, Bind(a.threadId).value,
                                      Bind(a.owner).value, clock, false)]
      && ins.result.value == AddedReply(IdPrefix + suffix, a.content, Bind(a.owner).value)
  {
    var id := IdPrefix + suffix;
    var commentId := Bind(a.commentId);
    var threadId := Bind(a.threadId);
    var owner := Bind(a.owner);
    if commentId.None? || threadId.None? || owner.None? then
      Insertion(Err(NotNullViolation), rows)
    else if HasReply(rows, Some(id)) then
      Insertion(Err(UniqueViolation), rows)
    else
      var row := ReplyRow(id, a.content, commentId.value, threadId.value, owner.value, clock, false);
      Insertion(Ok(AddedReply(row.id, row.content, row.owner)), rows + [row])
  }

  lemma InsertReplyKeepsInvariant(rows: seq<ReplyRow>, clock: nat, a: Entities.AddReply, suffix: string)
    requires TableInvariant(rows, clock)
    ensures var ins := InsertReply(rows, clock, a, suffix);
      TableInvariant(ins.rows, if ins.result.Ok? then clock + 1 else clock)
  {
  }

  /**
   * `verifyReplyOwner`: REPLY_NOT_FOUND when no row has the id, checked
   * before NOT_OWNER when the (first) row with the id has another owner.
   */
  function VerifyReplyOwner(rows: seq<ReplyRow>, replyId: string, owner: string): (o: Outcome)
    ensures o == Fail(ReplyNotFound) <==> !HasReply(rows, Some(replyId))
    ensures o.Fail? ==> o.signal in {ReplyNotFound, NotOwner}
    ensures o.Pass? ==> exists r :: r in rows && r.id == replyId && r.owner == owner
    ensures o == Fail(NotOwner) ==> exists r :: r in rows && r.id == replyId && r.owner != owner
  {
    var found := Seqs.Filter(rows, WithId(Some(replyId)));
    if |found| == 0 then
      Fail(ReplyNotFound)
    else
      assert found[0] in found;
      if found[0].owner != owner then Fail(NotOwner) else Pass
  }

  /** With ids unique, the owner check passes exactly for the owner of the reply. */
  lemma VerifyReplyOwnerExact(rows: seq<ReplyRow>, clock: nat, replyId: string, owner: string)
    requires TableInvariant(rows, clock)
    ensures VerifyReplyOwner(rows, replyId, owner).Pass? <==>
      exists r :: r in rows && r.id == replyId && r.owner == owner
  {
    if o :| o in rows && o.id == replyId && o.owner == owner {
      forall r | r in rows && r.id == replyId ensures r == o {
        var i :| 0 <= i < |rows| && rows[i] == o;
        var j :| 0 <= j < |rows| && rows[j] == r;
        assert i == j;
      }
    }
  }

  /** `verifyReplyExist`: REPLY_NOT_FOUND exactly when no row has the id. */
  function VerifyReplyExist(rows: seq<ReplyRow>, replyId: Param): (o: Outcome)
    ensures o.Pass? <==> HasReply(rows, replyId)
    ensures o.Fail? ==> o.signal == ReplyNotFound
  {
    var found := Seqs.Filter(rows, WithId(replyId));
    if |found| == 0 then Fail(ReplyNotFound)
    else
      assert found[0] in found;
      Pass
  }

  /** `deleteReply`: `UPDATE replies SET is_delete = true WHERE id = $1`. */
  function MarkDeleted(rows: seq<ReplyRow>, replyId: string): (r: seq<ReplyRow>)
    ensures |r| == |rows|
    ensures forall i :: 0 <= i < |rows| ==>
      && r[i].id == rows[i].id && r[i].content == rows[i].content && r[i].commentId == rows[i].commentId
      && r[i].threadId == rows[i].threadId && r[i].owner == rows[i].owner && r[i].createdAt == rows[i].createdAt
      && (r[i].isDelete <==> rows[i].isDelete || rows[i].id == replyId)
  {
    Seqs.UpdateWhere(rows, WithId(Some(replyId)), SoftDeleted)
  }

  /** Deleting the same reply twice is the same as deleting it once. */
  lemma MarkDeletedIdempotent(rows: seq<ReplyRow>, replyId: string)
    ensures MarkDeleted(MarkDeleted(rows, replyId), replyId) == MarkDeleted(rows, replyId)
  {
    Seqs.UpdateWhereTwice(rows, WithId(Some(replyId)), SoftDeleted);
  }

  /** Deleting an id that no row has changes nothing. */
  lemma MarkDeletedAbsent(rows: seq<ReplyRow>, replyId: string)
    requires !HasReply(rows, Some(replyId))
    ensures MarkDeleted(rows, replyId) == rows
  {
    var r := MarkDeleted(rows, replyId);
    forall i | 0 <= i < |rows| ensures r[i] == rows[i] {
      assert rows[i] in rows;
    }
  }

  /** A soft delete keeps the table's constraints, and every reply still exists afterwards. */
  lemma MarkDeletedKeepsInvariant(rows: seq<ReplyRow>, clock: nat, replyId: string)
    requires TableInvariant(rows, clock)
    ensures TableInvariant(MarkDeleted(rows, replyId), clock)
    ensures forall id :: HasReply(rows, id) <==> HasReply(MarkDeleted(rows, replyId), id)
  {
    var r := MarkDeleted(rows, replyId);
    forall id | HasReply(rows, id) ensures HasReply(r, id) {
      var x :| x in rows && id == Some(x.id);
      var i :| 0 <= i < |rows| && rows[i] == x;
      assert r[i] in r;
    }
    forall id | HasReply(r, id) ensures HasReply(rows, id) {
      var x :| x in r && id == Some(x.id);
      var i :| 0 <= i < |r| && r[i] == x;
      assert rows[i] in rows;
    }
    forall x | x in r ensures x.createdAt < clock {
      var i :| 0 <= i < |r| && r[i] == x;
      assert rows[i] in rows;
    }
  }

  /**
   * `getReplyByCommentId`: the comment's replies, deleted ones included,
   * each mapped by `View`, in ascending `created_at` order (the order of the
   * table, by `TableInvariant`); empty when the comment has none.
   */
  function GetReplyByCommentId(rows: seq<ReplyRow>, commentId: Param, users: map<string, string>)
    : (v: seq<ReplyView>)
    ensures forall i :: 0 <= i < |v| ==> exists r :: r in rows && commentId == Some(r.commentId) && v[i] == View(r, users)
    ensures forall r :: r in rows && commentId == Some(r.commentId) ==> View(r, users) in v
  {
    var found := Seqs.Filter(rows, OfComment(commentId));
    var v := seq(|found|, i requires 0 <= i < |found| => View(found[i], users));
    assert forall i :: 0 <= i < |v| ==> found[i] in found;
    assert forall r :: r in found ==> exists i :: 0 <= i < |found| && found[i] == r && v[i] == View(r, users);
    v
  }

  /** The replies come out in strictly ascending date order. */
  lemma RepliesInCreationOrder(rows: seq<ReplyRow>, clock: nat, commentId: Param, users: map<string, string>)
    requires TableInvariant(rows, clock)
    ensures var v := GetReplyByCommentId(rows, commentId, users);
      forall i, j :: 0 <= i < j < |v| ==> v[i].date < v[j].date
  {
    Seqs.FilterPairwise(rows, OfComment(commentId), Earlier);
  }

  /** No reply is listed twice. */
  lemma RepliesListedOnce(rows: seq<ReplyRow>, clock: nat, commentId: Param, users: map<string, string>)
    requires TableInvariant(rows, clock)
    ensures var v := GetReplyByCommentId(rows, commentId, users);
      forall i, j :: 0 <= i < j < |v| ==> v[i].id != v[j].id
  {
    Seqs.FilterPairwise(rows, OfComment(commentId), DistinctIds);
  }

  /** Appending a reply of the comment appends its view to the comment's listing. */
  lemma ListingAppend(rows: seq<ReplyRow>, row: ReplyRow, commentId: Param, users: map<string, string>)
    requires commentId == Some(row.commentId)
    ensures GetReplyByCommentId(rows + [row], commentId, users)
            == GetReplyByCommentId(rows, commentId, users) + [View(row, users)]
  {
    Seqs.FilterAppend(rows, row, OfComment(commentId));
    var f0 := Seqs.Filter(rows, OfComment(commentId));
    var f1 := Seqs.Filter(rows + [row], OfComment(commentId));
    var v0 := GetReplyByCommentId(rows, commentId, users);
    var v1 := GetReplyByCommentId(rows + [row], commentId, users);
    assert |v1| == |f1| == |f0| + 1 == |v0| + 1;
    forall i | 0 <= i < |v1|
      ensures v1[i] == (v0 + [View(row, users)])[i]
    {
      if i < |v0| {
        assert f1[i] == f0[i];
      }
    }
  }

  /** A reply just added is listed last for its comment, after the replies listed before. */
  lemma AddedReplyIsListedLast(rows: seq<ReplyRow>, clock: nat, a: Entities.AddReply, suffix: string,
                               users: map<string, string>)
    requires InsertReply(rows, clock, a, suffix).result.Ok?
    ensures var ins := InsertReply(rows, clock, a, suffix);
      GetReplyByCommentId(ins.rows, Bind(a.commentId), users)
        == GetReplyByCommentId(rows, Bind(a.commentId), users)
           + [ReplyView(IdPrefix + suffix, Username(users, Bind(a.owner)), clock, a.content)]
  {
    var ins := InsertReply(rows, clock, a, suffix);
    var row := ReplyRow(IdPrefix + suffix, a.content, Bind(a.commentId).value, Bind(a.threadId).value,
                        Bind(a.owner).value, clock, false);
    assert ins.rows == rows + [row];
    ListingAppend(rows, row, Bind(a.commentId), users);
  }

  /**
   * Deleting a reply redacts exactly that reply in every comment's listing:
   * the listing keeps its length and order, and every other entry is
   * unchanged.
   */
  lemma DeletedReplyIsRedacted(rows: seq<ReplyRow>, replyId: string, commentId: Param, users: map<string, string>)
    ensures var before := GetReplyByCommentId(rows, commentId, users);
      var after := GetReplyByCommentId(MarkDeleted(rows, replyId), commentId, users);
      && |after| == |before|
      && forall i :: 0 <= i < |before| ==>
           after[i] == if before[i].id == replyId then before[i].(content := DeletedMarker) else before[i]
  {
    Seqs.FilterUpdateWhere(rows, OfComment(commentId), WithId(Some(replyId)), SoftDeleted);
  }

  /** The repository: the `replies` table and the counter that stamps `created_at`. */
  class ReplyRepository {
    var rows: seq<ReplyRow>
    var clock: nat

    ghost predicate Valid()
      reads this
    {
      TableInvariant(rows, clock)
    }

    constructor ()
      ensures Valid() && rows == [] && clock == 0
    {
      rows := [];
      clock := 0;
    }

    /** `addReply(addReply)` */
    method AddReply(a: Entities.AddReply, suffix: string) returns (r: Result<AddedReply>)
      requires Valid()
      modifies this
      ensures Valid()
      ensures var ins := InsertReply(old(rows), old(clock), a, suffix); r == ins.result && rows == ins.rows
      ensures clock == if r.Ok? then old(clock) + 1 else old(clock)
    {
      InsertReplyKeepsInvariant(rows, clock, a, suffix);
      var ins := InsertReply(rows, clock, a, suffix);
      r := ins.result;
      rows := ins.rows;
      if r.Ok? {
        clock := clock + 1;
      }
    }

    /** `deleteReply(replyId)` */
    method DeleteReply(replyId: string)
      requires Valid()
      modifies this
      ensures Valid()
      ensures rows == MarkDeleted(old(rows), replyId) && clock == old(clock)
    {
      MarkDeletedKeepsInvariant(rows, clock, replyId);
      rows := MarkDeleted(rows, replyId);
    }
  }
}
