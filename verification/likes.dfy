/**
 * The like repository over the `likes` table. Besides its primary key the
 * table carries the constraint UNIQUE(comment_id, owner): a user likes a
 * comment at most once. Unlike comments and replies, a like is removed by a
 * real DELETE.
 */
module Likes {
  import opened Values
  import opened Signals
  import Seqs

  /** A row of `likes`; `comment_id` and `owner` are NOT NULL. */
  datatype LikeRow = LikeRow(id: string, commentId: string, owner: string)

  const IdPrefix := "like-"

  predicate DistinctIds(a: LikeRow, b: LikeRow) { a.id != b.id }

  predicate DistinctPairs(a: LikeRow, b: LikeRow) { (a.commentId, a.owner) != (b.commentId, b.owner) }

  /** The primary key on `id` and `unique_like_per_user_per_comment`. */
  ghost predicate TableInvariant(rows: seq<LikeRow>)
  {
    Seqs.Pairwise(rows, DistinctIds) && Seqs.Pairwise(rows, DistinctPairs)
  }

  predicate HasId(rows: seq<LikeRow>, id: string)
  {
    exists l :: l in rows && l.id == id
  }

  /** Some row matches `comment_id = $1 AND owner = $2` (a NULL parameter matches no row). */
  predicate Liked(rows: seq<LikeRow>, commentId: Param, owner: Param)
  {
    exists l :: l in rows && commentId == Some(l.commentId) && owner == Some(l.owner)
  }

  /** `WHERE comment_id = $1 AND owner = $2` */
  function Matches(commentId: Param, owner: Param): LikeRow -> bool
  {
    (l: LikeRow) => commentId == Some(l.commentId) && owner == Some(l.owner)
  }

  /** The rows a `DELETE ... WHERE comment_id = $1 AND owner = $2` keeps. */
  function Unmatched(commentId: Param, owner: Param): LikeRow -> bool
  {
    (l: LikeRow) => !(commentId == Some(l.commentId) && owner == Some(l.owner))
  }

  /** `WHERE comment_id = $1` */
  function OfComment(commentId: Param): LikeRow -> bool
  {
    (l: LikeRow) => commentId == Some(l.commentId)
  }

  /** The owners who like the comment. */
  ghost function Likers(rows: seq<LikeRow>, commentId: string): set<string>
  {
    set l | l in rows && l.commentId == commentId :: l.owner
  }

  /**
   * `addLike({ commentId, owner })`: insert (`like-<suffix>`, commentId,
   * owner) and return the id. A NULL parameter violates NOT NULL; a taken
   * id or an existing (commentId, owner) pair violates a unique constraint.
   */
  function InsertLike(rows: seq<LikeRow>, commentId: Param, owner: Param, suffix: string)
    : (ins: Insertion<LikeRow, string>)
    ensures ins.result.Ok? <==>
      commentId.Some? && owner.Some? && !HasId(rows, IdPrefix + suffix) && !Liked(rows, commentId, owner)
    ensures commentId.None? || owner.None? ==> ins.result == Err(NotNullViolation)
    ensures ins.result.Err? ==> ins.rows == rows && ins.result.signal in {NotNullViolation, UniqueViolation}
    ensures ins.result.Ok? ==>
      && ins.rows == rows + [LikeRow(IdPrefix + suffix, commentId.value, owner.value)]
      && ins.result.value == IdPrefix + suffix
  {
    var id := IdPrefix + suffix;
    if commentId.None? || owner.None? then
      Insertion(Err(NotNullViolation), rows)
    else if HasId(rows, id) || Liked(rows, commentId, owner) then
      Insertion(Err(UniqueViolation), rows)
    else
      Insertion(Ok(id), rows + [LikeRow(id, commentId.value, owner.value)])
  }

  /** Inserting keeps both unique constraints. */
  lemma InsertLikeKeepsInvariant(rows: seq<LikeRow>, commentId: Param, owner: Param, suffix: string)
    requires TableInvariant(rows)
    ensures TableInvariant(InsertLike(rows, commentId, owner, suffix).rows)
  {
  }

  /** `deleteLike(commentId, owner)`: every row of the pair goes, every other row stays, in order. */
  function AfterDeleteLike(rows: seq<LikeRow>, commentId: Param, owner: Param): (r: seq<LikeRow>)
    ensures forall l :: l in r <==> l in rows && !(commentId == Some(l.commentId) && owner == Some(l.owner))
    ensures !Liked(r, commentId, owner)
    ensures |r| <= |rows|
  {
    Seqs.Filter(rows, Unmatched(commentId, owner))
  }

  lemma DeleteLikeKeepsInvariant(rows: seq<LikeRow>, commentId: Param, owner: Param)
    requires TableInvariant(rows)
    ensures TableInvariant(AfterDeleteLike(rows, commentId, owner))
  {
    Seqs.FilterPairwise(rows, Unmatched(commentId, owner), DistinctIds);
    Seqs.FilterPairwise(rows, Unmatched(commentId, owner), DistinctPairs);
  }

  /** Deleting a pair nobody has liked leaves the table exactly as it was. */
  lemma DeleteLikeAbsent(rows: seq<LikeRow>, commentId: Param, owner: Param)
    requires !Liked(rows, commentId, owner)
    ensures AfterDeleteLike(rows, commentId, owner) == rows
  {
    Seqs.FilterKeepsAll(rows, Unmatched(commentId, owner));
  }

  /** `findLike(commentId, owner)`: the id of the first row of the pair, or nothing. */
  function FindLike(rows: seq<LikeRow>, commentId: Param, owner: Param): (r: Option<string>)
    ensures r.Some? <==> Liked(rows, commentId, owner)
    ensures r.Some? ==> exists l :: l in rows && commentId == Some(l.commentId) && owner == Some(l.owner)
                                    && l.id == r.value
  {
    var found := Seqs.Filter(rows, Matches(commentId, owner));
    if |found| == 0 then None
    else
      assert found[0] in found;
      Some(found[0].id)
  }

  /** After `deleteLike` nothing is found for the pair; after a successful `addLike` the new like is found. */
  lemma FindLikeAfterAddAndDelete(rows: seq<LikeRow>, commentId: Param, owner: Param, suffix: string)
    ensures FindLike(AfterDeleteLike(rows, commentId, owner), commentId, owner) == None
    ensures var ins := InsertLike(rows, commentId, owner, suffix);
      ins.result.Ok? ==> FindLike(ins.rows, commentId, owner) == Some(IdPrefix + suffix)
  {
    var ins := InsertLike(rows, commentId, owner, suffix);
    if ins.result.Ok? {
      Seqs.FilterAppend(rows, ins.rows[|rows|], Matches(commentId, owner));
      assert FindLike(rows, commentId, owner) == None;
    }
  }

  /** `getLikeCountByCommentId(commentId)`: `COUNT(*)` of the comment's rows. */
  function LikeCount(rows: seq<LikeRow>, commentId: Param): (n: nat)
    ensures n <= |rows|
    ensures n == 0 <==> forall l :: l in rows ==> commentId != Some(l.commentId)
  {
    var found := Seqs.Filter(rows, OfComment(commentId));
    assert |found| > 0 ==> found[0] in found;
    |found|
  }

  /** Whether an owner is among a comment's likers is whether the pair is liked. */
  lemma LikersAreLiked(rows: seq<LikeRow>, commentId: string, owner: string)
    ensures owner in Likers(rows, commentId) <==> Liked(rows, Some(commentId), Some(owner))
  {
    if Liked(rows, Some(commentId), Some(owner)) {
      var l :| l in rows && Some(commentId) == Some(l.commentId) && Some(owner) == Some(l.owner);
      assert l.owner in Likers(rows, commentId);
    }
  }

  /** A comment's likers in a table with one more row at the end. */
  lemma LikersAppend(init: seq<LikeRow>, last: LikeRow, commentId: string)
    ensures Likers(init + [last], commentId)
            == Likers(init, commentId) + (if last.commentId == commentId then {last.owner} else {})
  {
    var rows := init + [last];
    forall o | o in Likers(rows, commentId) ensures o in Likers(init, commentId) || o == last.owner {
      var l :| l in rows && l.commentId == commentId && l.owner == o;
      if l != last {
        assert l in init;
      }
    }
  }

  /** Under the pair constraint, the last row's owner is not already among its comment's likers. */
  lemma LastOwnerIsNew(rows: seq<LikeRow>)
    requires Seqs.Pairwise(rows, DistinctPairs)
    requires |rows| > 0
    ensures rows[|rows| - 1].owner !in Likers(rows[..|rows| - 1], rows[|rows| - 1].commentId)
  {
    var init := rows[..|rows| - 1];
    var last := rows[|rows| - 1];
    forall l | l in init && l.commentId == last.commentId ensures l.owner != last.owner {
      var i :| 0 <= i < |init| && init[i] == l;
      assert DistinctPairs(rows[i], rows[|rows| - 1]);
    }
  }

  /** Because a pair occurs at most once, a comment's like count is the number of distinct users who like it. */
  lemma {:induction false} LikeCountIsLikers(rows: seq<LikeRow>, commentId: string)
    requires Seqs.Pairwise(rows, DistinctPairs)
    ensures LikeCount(rows, Some(commentId)) == |Likers(rows, commentId)|
    decreases |rows|
  {
    if |rows| == 0 {
      assert Likers(rows, commentId) == {};
    } else {
      var init := rows[..|rows| - 1];
      var last := rows[|rows| - 1];
      assert rows == init + [last];
      Seqs.PairwisePrefix(rows, DistinctPairs);
      LikeCountIsLikers(init, commentId);
      Seqs.FilterAppend(init, last, OfComment(Some(commentId)));
      LikersAppend(init, last, commentId);
      LastOwnerIsNew(rows);
    }
  }

  /** Two tables in which the same users like a comment give it the same count. */
  lemma SameLikersSameCount(a: seq<LikeRow>, b: seq<LikeRow>, commentId: string)
    requires Seqs.Pairwise(a, DistinctPairs) && Seqs.Pairwise(b, DistinctPairs)
    requires forall o :: Liked(a, Some(commentId), Some(o)) <==> Liked(b, Some(commentId), Some(o))
    ensures LikeCount(a, Some(commentId)) == LikeCount(b, Some(commentId))
  {
    LikeCountIsLikers(a, commentId);
    LikeCountIsLikers(b, commentId);
    forall o ensures o in Likers(a, commentId) <==> o in Likers(b, commentId) {
      LikersAreLiked(a, commentId, o);
      LikersAreLiked(b, commentId, o);
    }
    assert Likers(a, commentId) == Likers(b, commentId);
  }

  /** A successful insert adds one like to its comment and none to any other. */
  lemma InsertLikeCount(rows: seq<LikeRow>, commentId: Param, owner: Param, suffix: string, other: Param)
    requires InsertLike(rows, commentId, owner, suffix).result.Ok?
    ensures LikeCount(InsertLike(rows, commentId, owner, suffix).rows, other)
            == LikeCount(rows, other) + (if other == commentId then 1 else 0)
  {
    var ins := InsertLike(rows, commentId, owner, suffix);
    Seqs.FilterAppend(rows, ins.rows[|rows|], OfComment(other));
  }

  /** Deleting a pair takes that user out of the comment's likers, and its count down by one if they liked it. */
  lemma DeleteLikeCount(rows: seq<LikeRow>, commentId: string, owner: string)
    requires TableInvariant(rows)
    ensures Likers(AfterDeleteLike(rows, Some(commentId), Some(owner)), commentId) == Likers(rows, commentId) - {owner}
    ensures LikeCount(AfterDeleteLike(rows, Some(commentId), Some(owner)), Some(commentId))
            == LikeCount(rows, Some(commentId)) - (if Liked(rows, Some(commentId), Some(owner)) then 1 else 0)
  {
    var r := AfterDeleteLike(rows, Some(commentId), Some(owner));
    DeleteLikeKeepsInvariant(rows, Some(commentId), Some(owner));
    LikeCountIsLikers(rows, commentId);
    LikeCountIsLikers(r, commentId);
    assert Likers(r, commentId) == Likers(rows, commentId) - {owner} by {
      forall o ensures o in Likers(r, commentId) <==> o in Likers(rows, commentId) - {owner} {
        LikersAreLiked(r, commentId, o);
        LikersAreLiked(rows, commentId, o);
      }
    }
    LikersAreLiked(rows, commentId, owner);
  }

  /** The repository: the `likes` table. */
  class LikeRepository {
    var rows: seq<LikeRow>

    ghost predicate Valid()
      reads this
    {
      TableInvariant(rows)
    }

    constructor ()
      ensures Valid() && rows == []
    {
      rows := [];
    }

    /** `addLike({ commentId, owner })` */
    method AddLike(commentId: Param, owner: Param, suffix: string) returns (r: Result<string>)
      requires Valid()
      modifies this
      ensures Valid()
      ensures var ins := InsertLike(old(rows), commentId, owner, suffix); r == ins.result && rows == ins.rows
    {
      InsertLikeKeepsInvariant(rows, commentId, owner, suffix);
      var ins := InsertLike(rows, commentId, owner, suffix);
      r := ins.result;
      rows := ins.rows;
    }

    /** `deleteLike(commentId, owner)` */
    method DeleteLike(commentId: Param, owner: Param)
      requires Valid()
      modifies this
      ensures Valid()
      ensures rows == AfterDeleteLike(old(rows), commentId, owner)
    {
      DeleteLikeKeepsInvariant(rows, commentId, owner);
      rows := AfterDeleteLike(rows, commentId, owner);
    }
  }
}
