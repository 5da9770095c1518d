/** The task repository: the `tasks` table and the queries the backend runs
    against it. The table is a sequence of rows in primary-key order, and a
    counter plays the auto-increment. */
module Repository {
  import opened Wrappers
  import opened Domain

  /** Primary keys grow strictly along the table, so no two rows share an id. */
  ghost predicate IdsIncreasing(rows: seq<Task>) {
    forall i, j :: 0 <= i < j < |rows| ==> rows[i].id < rows[j].id
  }

  /** The message raised when an insert leaves a NOT NULL column
      (`user_id` or `title`) without a value. */
  const NotNullViolation := "Integrity constraint violation: column cannot be null"

  /** The row a fresh insert starts from before the request's attributes are
      filled in: the column defaults (null description, pending status). */
  function Blank(id: int): Task {
    Task(id, 0, "", None, Pending)
  }

  /** The table after `UPDATE ... WHERE id = t.id` writes `t`. */
  function ReplaceRow(rows: seq<Task>, t: Task): (r: seq<Task>)
    ensures |r| == |rows|
    ensures forall i :: 0 <= i < |rows| ==> r[i] == (if rows[i].id == t.id then t else rows[i])
  {
    if rows == [] then []
    else [if rows[0].id == t.id then t else rows[0]] + ReplaceRow(rows[1..], t)
  }

  /** Two stored rows with the same primary key are the same row. */
  lemma UniqueIds(rows: seq<Task>, a: Task, b: Task)
    requires IdsIncreasing(rows)
    requires a in rows && b in rows && a.id == b.id
    ensures a == b
  {
  }

  /** Looking a task up by id and owner in one predicate gives the row found
      by id alone when its owner is `userId`, and null otherwise. */
  lemma FirstOwnedIsOwnedFirstWithId(rows: seq<Task>, id: int, userId: int)
    requires IdsIncreasing(rows)
    ensures FirstOwned(rows, id, userId) ==
      if FirstWithId(rows, id).Some? && FirstWithId(rows, id).value.userId == userId
      then FirstWithId(rows, id) else None
  {
  }

  /** A task that exists but belongs to another user is looked up exactly as
      an id that does not exist at all: both give null. */
  lemma ForeignTaskLooksMissing(rows: seq<Task>, t: Task, userId: int)
    requires IdsIncreasing(rows)
    requires t in rows && t.userId != userId
    ensures FirstOwned(rows, t.id, userId) == None
  {
  }

  /** The first row's id is below every later row's. */
  lemma HeadBelowTail(rows: seq<Task>)
    requires rows != [] && IdsIncreasing(rows)
    ensures forall t :: t in rows[1..] ==> rows[0].id < t.id
  {
    forall t | t in rows[1..] ensures rows[0].id < t.id {
      var m :| 0 <= m < |rows[1..]| && rows[1..][m] == t;
      assert rows[m + 1] == t;
    }
  }

  /** Putting a row with a smaller id in front of an ordered table keeps it
      ordered. */
  lemma ConsIncreasing(head: Task, rest: seq<Task>)
    requires IdsIncreasing(rest)
    requires forall t :: t in rest ==> head.id < t.id
    ensures IdsIncreasing([head] + rest)
  {
    var r := [head] + rest;
    forall i, j | 0 <= i < j < |r| ensures r[i].id < r[j].id {
      assert r[j] == rest[j - 1];
      if i > 0 {
        assert r[i] == rest[i - 1];
      } else {
        assert rest[j - 1] in rest;
      }
    }
  }

  /** Deleting by id keeps the rest of the table in primary-key order. */
  lemma {:induction false} WithoutIdKeepsIdsIncreasing(rows: seq<Task>, id: int)
    requires IdsIncreasing(rows)
    ensures IdsIncreasing(WithoutId(rows, id))
  {
    if rows != [] {
      var tail := rows[1..];
      assert IdsIncreasing(tail);
      WithoutIdKeepsIdsIncreasing(tail, id);
      if rows[0].id != id {
        HeadBelowTail(rows);
        ConsIncreasing(rows[0], WithoutId(tail, id));
      }
    }
  }

  /** A user's listing of an ordered table is itself in primary-key order,
      so no task is listed twice. */
  lemma {:induction false} OwnedByKeepsIdsIncreasing(rows: seq<Task>, userId: int)
    ensures IdsIncreasing(rows) ==> IdsIncreasing(OwnedBy(rows, userId))
  {
    if rows != [] && IdsIncreasing(rows) {
      var tail := rows[1..];
      assert IdsIncreasing(tail);
      OwnedByKeepsIdsIncreasing(tail, userId);
      if rows[0].userId == userId {
        HeadBelowTail(rows);
        ConsIncreasing(rows[0], OwnedBy(tail, userId));
      }
    }
  }

  /** Deleting a row whose id is not one of `userId`'s tasks leaves that
      user's listing exactly as it was. */
  lemma {:induction false} DeleteKeepsOtherListing(rows: seq<Task>, id: int, userId: int)
    requires forall t :: t in rows && t.id == id ==> t.userId != userId
    ensures OwnedBy(WithoutId(rows, id), userId) == OwnedBy(rows, userId)
  {
    if rows != [] {
      assert rows[0] in rows;
      assert forall t :: t in rows[1..] ==> t in rows;
      DeleteKeepsOtherListing(rows[1..], id, userId);
    }
  }

  /** Appending a row adds it at the end of its owner's listing and leaves
      every other user's listing unchanged. */
  lemma InsertListing(rows: seq<Task>, t: Task, userId: int)
    ensures OwnedBy(rows + [t], userId) ==
      OwnedBy(rows, userId) + (if t.userId == userId then [t] else [])
  {
    OwnedByAppend(rows, [t], userId);
    assert [t][1..] == [];
  }

  class TaskRepository {
    /** The `tasks` table, in primary-key order. */
    var rows: seq<Task>
    /** The next value of the auto-increment primary key. */
    var nextId: int

    ghost predicate Valid()
      reads this
    {
      && 1 <= nextId
      && IdsIncreasing(rows)
      && forall t :: t in rows ==> 1 <= t.id < nextId
    }

    constructor ()
      ensures Valid() && rows == [] && nextId == 1
    {
      rows := [];
      nextId := 1;
    }

    /** `Task::where('user_id', $user->id)->get()`. */
    function AllByUser(user: User): (r: seq<Task>)
      reads this
      ensures forall t :: t in r <==> t in rows && t.userId == user.id
      ensures r == OwnedBy(rows, user.id)
      ensures IdsIncreasing(rows) ==> IdsIncreasing(r)
    {
      OwnedByKeepsIdsIncreasing(rows, user.id);
      OwnedBy(rows, user.id)
    }

    /** `Task::create($data)`: fills a fresh row from the fillable keys and
        inserts it under a new primary key. An insert that leaves `user_id`
        or `title` null is refused by the table and changes nothing. */
    method Create(data: TaskFields) returns (r: Result<Task>)
      requires Valid()
      modifies this
      ensures Valid()
      ensures r.Failure? <==> data.userId.None? || data.title.None?
      ensures r.Failure? ==>
        r.error == NotNullViolation && unchanged(this)
      ensures r.Success? ==>
        && r.value.id == old(nextId)
        && (forall t :: t in old(rows) ==> t.id < r.value.id)
        && r.value.userId == data.userId.value
        && r.value.title == data.title.value
        && r.value.description == data.description.GetOr(None)
        && r.value.status == data.status.GetOr(Pending)
        && rows == old(rows) + [r.value]
        && nextId == old(nextId) + 1
    {
      if data.userId.None? || data.title.None? {
        return Failure(NotNullViolation);
      }
      var t := Fill(Blank(nextId), data);
      rows := rows + [t];
      nextId := nextId + 1;
      r := Success(t);
    }

    /** `$task->update($data)`: the instance receives the keys present in
        `data` and the row with its id is written back. */
    method Update(task: Task, data: TaskFields) returns (r: Task)
      requires Valid()
      modifies this
      ensures Valid()
      ensures r == Fill(task, data)
      ensures rows == ReplaceRow(old(rows), r) && nextId == old(nextId)
    {
      r := Fill(task, data);
      rows := ReplaceRow(rows, r);
    }

    /** `$task->delete()`: removes the row with the task's id and reports
        success. */
    method Delete(task: Task) returns (ok: bool)
      requires Valid()
      modifies this
      ensures Valid()
      ensures ok
      ensures rows == WithoutId(old(rows), task.id) && nextId == old(nextId)
    {
      WithoutIdKeepsIdsIncreasing(rows, task.id);
      rows := WithoutId(rows, task.id);
      ok := true;
    }

    /** `Task::find($id)`. */
    function FindById(id: int): (r: Option<Task>)
      reads this
      ensures r.None? <==> forall t :: t in rows ==> t.id != id
      ensures r.Some? ==> r.value in rows && r.value.id == id
    {
      FirstWithId(rows, id)
    }

    /** `Task::where('id', $id)->where('user_id', $user->id)->first()`: the
        row found by id when `user` owns it, null when the id is missing and
        null when the row belongs to someone else. */
    function FindByIdAndUser(id: int, user: User): (r: Option<Task>)
      reads this
      requires Valid()
      ensures r.Some? ==> r.value in rows && r.value.id == id && r.value.userId == user.id
      ensures r.Some? <==> exists t :: t in rows && t.id == id && t.userId == user.id
      ensures r == if FindById(id).Some? && FindById(id).value.userId == user.id
                   then FindById(id) else None
    {
      FirstOwnedIsOwnedFirstWithId(rows, id, user.id);
      FirstOwned(rows, id, user.id)
    }
  }
}
