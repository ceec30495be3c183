/**
 * The thread repository over the `threads` table. A row's `created_at` is
 * the value of the table's insertion counter when the row was added.
 */
module Threads {
  import opened Values
  import opened Signals
  import Entities
  import Seqs

  /** A row of `threads`. The table's definition is not part of this model, so `owner` may be NULL. */
  datatype ThreadRow = ThreadRow(id: string, title: string, body: string, owner: Param, createdAt: nat)

  /** `RETURNING id, title, owner` */
  datatype AddedThread = AddedThread(id: string, title: string, owner: Param)

  /** The row `getThreadById` returns: the thread's columns and its owner's username. */
  datatype ThreadDetail =
    ThreadDetail(id: string, title: string, body: string, owner: Param, createdAt: nat, username: Option<string>)

  const IdPrefix := "thread-"

  predicate DistinctIds(a: ThreadRow, b: ThreadRow) { a.id != b.id }

  predicate Earlier(a: ThreadRow, b: ThreadRow) { a.createdAt < b.createdAt }

  /**
   * The table's constraints: `id` is the primary key, and rows are kept in
   * the order of their `created_at`, every one below the counter.
   */
  ghost predicate TableInvariant(rows: seq<ThreadRow>, clock: nat)
  {
    && Seqs.Pairwise(rows, DistinctIds)
    && Seqs.Pairwise(rows, Earlier)
    && forall t :: t in rows ==> t.createdAt < clock
  }

  /** Some row has the given id (a NULL id matches no row). */
  predicate HasThread(rows: seq<ThreadRow>, threadId: Param)
  {
    exists t :: t in rows && threadId == Some(t.id)
  }

  /** `WHERE threads.id = $1` */
  function WithId(threadId: Param): ThreadRow -> bool
  {
    (t: ThreadRow) => threadId == Some(t.id)
  }

  function Detail(t: ThreadRow, users: map<string, string>): ThreadDetail
  {
    ThreadDetail(t.id, t.title, t.body, t.owner, t.createdAt, Username(users, t.owner))
  }

  /**
   * `addThread`: insert a row with id `thread-<suffix>`, where `suffix` is
   * what the id generator returned, and `created_at` the counter's value.
   */
  function InsertThread(rows: seq<ThreadRow>, clock: nat, t: Entities.AddThread, suffix: string)
    : (ins: Insertion<ThreadRow, AddedThread>)
    ensures ins.result.Ok? <==> !HasThread(rows, Some(IdPrefix + suffix))
    ensures ins.result.Err? ==> ins.result.signal == UniqueViolation && ins.rows == rows
    ensures ins.result.Ok? ==>
      && ins.rows == rows + [ThreadRow(IdPrefix + suffix, t.title, t.body, Bind(t.owner), clock)]
      && ins.result.value == AddedThread(IdPrefix + suffix, t.title, Bind(t.owner))
  {
    var id := IdPrefix + suffix;
    if HasThread(rows, Some(id)) then
      Insertion(Err(UniqueViolation), rows)
    else
      var row := ThreadRow(id, t.title, t.body, Bind(t.owner), clock);
      Insertion(Ok(AddedThread(row.id, row.title, row.owner)), rows + [row])
  }

  /** A successful insert keeps the table's constraints and advances the counter. */
  lemma InsertThreadKeepsInvariant(rows: seq<ThreadRow>, clock: nat, t: Entities.AddThread, suffix: string)
    requires TableInvariant(rows, clock)
    ensures var ins := InsertThread(rows, clock, t, suffix);
      TableInvariant(ins.rows, if ins.result.Ok? then clock + 1 else clock)
  {
  }

  /** `getThreadById`: the first row with the id, joined with its owner's username. */
  function GetThreadById(rows: seq<ThreadRow>, threadId: Param, users: map<string, string>)
    : (r: Result<ThreadDetail>)
    ensures r.Err? <==> !HasThread(rows, threadId)
    ensures r.Err? ==> r.signal == ThreadNotFound
    ensures r.Ok? ==> exists t :: t in rows && threadId == Some(t.id) && r.value == Detail(t, users)
  {
    var found := Seqs.Filter(rows, WithId(threadId));
    if |found| == 0 then
      Err(ThreadNotFound)
    else
      assert found[0] in found;
      Ok(Detail(found[0], users))
  }

  /** With ids unique, `getThreadById` returns exactly the row that has the id. */
  lemma GetThreadByIdFindsRow(rows: seq<ThreadRow>, clock: nat, i: nat, users: map<string, string>)
    requires TableInvariant(rows, clock)
    requires i < |rows|
    ensures GetThreadById(rows, Some(rows[i].id), users) == Ok(Detail(rows[i], users))
  {
    var r := GetThreadById(rows, Some(rows[i].id), users);
    assert rows[i] in rows;
    var t :| t in rows && Some(rows[i].id) == Some(t.id) && r.value == Detail(t, users);
    var j :| 0 <= j < |rows| && rows[j] == t;
    assert j == i;
  }

  /** Reading back a thread that `addThread` just inserted yields the inserted values. */
  lemma AddedThreadIsFound(rows: seq<ThreadRow>, clock: nat, t: Entities.AddThread, suffix: string,
                           users: map<string, string>)
    requires TableInvariant(rows, clock)
    requires InsertThread(rows, clock, t, suffix).result.Ok?
    ensures var ins := InsertThread(rows, clock, t, suffix);
      GetThreadById(ins.rows, Some(IdPrefix + suffix), users)
        == Ok(ThreadDetail(IdPrefix + suffix, t.title, t.body, Bind(t.owner), clock, Username(users, Bind(t.owner))))
  {
    var ins := InsertThread(rows, clock, t, suffix);
    InsertThreadKeepsInvariant(rows, clock, t, suffix);
    GetThreadByIdFindsRow(ins.rows, clock + 1, |rows|, users);
  }

  /** The repository: the `threads` table and the counter that stamps `created_at`. */
  class ThreadRepository {
    var rows: seq<ThreadRow>
    var clock: nat

    ghost predicate Valid()
      reads this
    {
      TableInvariant(rows, clock)
    }

    constructor ()
      ensures Valid() && rows == [] && clock == 0
    {
      rows := [];
      clock := 0;
    }

    /** `addThread(addThread)` */
    method AddThread(t: Entities.AddThread, suffix: string) returns (r: Result<AddedThread>)
      requires Valid()
      modifies this
      ensures Valid()
      ensures var ins := InsertThread(old(rows), old(clock), t, suffix); r == ins.result && rows == ins.rows
      ensures clock == if r.Ok? then old(clock) + 1 else old(clock)
    {
      InsertThreadKeepsInvariant(rows, clock, t, suffix);
      var ins := InsertThread(rows, clock, t, suffix);
      r := ins.result;
      rows := ins.rows;
      if r.Ok? {
        clock := clock + 1;
      }
    }
  }
}
