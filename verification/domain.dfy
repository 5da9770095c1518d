/** The records shared by the backend and the frontend: users, tasks, the
    partial attribute record a validated request carries, and the list
    operations over tasks that both sides use. */
module Domain {
  import opened Wrappers

  /** The three values of a task's `status` column. */
  datatype Status = Pending | InProgress | Done

  /** An authenticated user; only `id` takes part in ownership. */
  datatype User = User(id: int, name: string, email: string)

  /** A row of the `tasks` table (timestamps are not modelled). */
  datatype Task = Task(
    id: int,
    userId: int,
    title: string,
    description: Option<string>,
    status: Status)

  /** The fillable attributes a validated request may carry. A key the
      request did not carry is `None`; `description` may be present with
      the value null, hence the nested option. */
  datatype TaskFields = TaskFields(
    userId: Option<int>,
    title: Option<string>,
    description: Option<Option<string>>,
    status: Option<Status>)

  const NoFields := TaskFields(None, None, None, None)

  /** Mass assignment of `data` onto `t`: every key present in `data`
      overwrites that attribute, every omitted key keeps its value, and the
      primary key is not fillable. */
  function Fill(t: Task, data: TaskFields): (r: Task)
    ensures r.id == t.id
    ensures data.userId.None? ==> r.userId == t.userId
    ensures data.userId.Some? ==> r.userId == data.userId.value
    ensures data.title.None? ==> r.title == t.title
    ensures data.title.Some? ==> r.title == data.title.value
    ensures data.description.None? ==> r.description == t.description
    ensures data.description.Some? ==> r.description == data.description.value
    ensures data.status.None? ==> r.status == t.status
    ensures data.status.Some? ==> r.status == data.status.value
  {
    Task(
      t.id,
      data.userId.GetOr(t.userId),
      data.title.GetOr(t.title),
      data.description.GetOr(t.description),
      data.status.GetOr(t.status))
  }

  /** The record that results from two successive fills: keys of `later`
      win over keys of `earlier`. */
  function Merge(earlier: TaskFields, later: TaskFields): TaskFields {
    TaskFields(
      if later.userId.Some? then later.userId else earlier.userId,
      if later.title.Some? then later.title else earlier.title,
      if later.description.Some? then later.description else earlier.description,
      if later.status.Some? then later.status else earlier.status)
  }

  /** An update that carries no key leaves the task as it was. */
  lemma FillNothing(t: Task)
    ensures Fill(t, NoFields) == t
  {
  }

  /** Applying the same update twice is the same as applying it once. */
  lemma FillIdempotent(t: Task, data: TaskFields)
    ensures Fill(Fill(t, data), data) == Fill(t, data)
  {
  }

  /** Two successive partial updates equal one update with the merged keys. */
  lemma FillTwice(t: Task, earlier: TaskFields, later: TaskFields)
    ensures Fill(Fill(t, earlier), later) == Fill(t, Merge(earlier, later))
  {
  }

  /** The tasks of `tasks` owned by `userId`, in their original order. */
  function OwnedBy(tasks: seq<Task>, userId: int): (r: seq<Task>)
    ensures |r| <= |tasks|
    ensures forall t :: t in r <==> t in tasks && t.userId == userId
  {
    if tasks == [] then []
    else if tasks[0].userId == userId then [tasks[0]] + OwnedBy(tasks[1..], userId)
    else OwnedBy(tasks[1..], userId)
  }

  /** The tasks of `tasks` whose id differs from `id`, in their original order. */
  function WithoutId(tasks: seq<Task>, id: int): (r: seq<Task>)
    ensures |r| <= |tasks|
    ensures forall t :: t in r <==> t in tasks && t.id != id
  {
    if tasks == [] then []
    else if tasks[0].id != id then [tasks[0]] + WithoutId(tasks[1..], id)
    else WithoutId(tasks[1..], id)
  }

  /** The first task with the given id, or null. */
  function FirstWithId(tasks: seq<Task>, id: int): (r: Option<Task>)
    ensures r.None? <==> forall t :: t in tasks ==> t.id != id
    ensures r.Some? ==> r.value in tasks && r.value.id == id
  {
    if tasks == [] then None
    else if tasks[0].id == id then Some(tasks[0])
    else FirstWithId(tasks[1..], id)
  }

  /** The first task with the given id and owner, or null: one predicate
      over both columns. */
  function FirstOwned(tasks: seq<Task>, id: int, userId: int): (r: Option<Task>)
    ensures r.None? <==> forall t :: t in tasks ==> t.id != id || t.userId != userId
    ensures r.Some? ==> r.value in tasks && r.value.id == id && r.value.userId == userId
  {
    if tasks == [] then None
    else if tasks[0].id == id && tasks[0].userId == userId then Some(tasks[0])
    else FirstOwned(tasks[1..], id, userId)
  }

  /** Filtering distributes over concatenation, so it keeps the relative
      order of the tasks it retains. */
  lemma {:induction false} WithoutIdAppend(a: seq<Task>, b: seq<Task>, id: int)
    ensures WithoutId(a + b, id) == WithoutId(a, id) + WithoutId(b, id)
  {
    if a == [] {
      assert a + b == b;
    } else {
      assert (a + b)[1..] == a[1..] + b;
      WithoutIdAppend(a[1..], b, id);
    }
  }

  /** Removing an id that no task carries changes nothing. */
  lemma {:induction false} WithoutAbsentId(tasks: seq<Task>, id: int)
    requires forall t :: t in tasks ==> t.id != id
    ensures WithoutId(tasks, id) == tasks
  {
    if tasks != [] {
      assert tasks[0] in tasks;
      assert forall t :: t in tasks[1..] ==> t in tasks;
      WithoutAbsentId(tasks[1..], id);
    }
  }

  /** Ownership filtering distributes over concatenation. */
  lemma {:induction false} OwnedByAppend(a: seq<Task>, b: seq<Task>, userId: int)
    ensures OwnedBy(a + b, userId) == OwnedBy(a, userId) + OwnedBy(b, userId)
  {
    if a == [] {
      assert a + b == b;
    } else {
      assert (a + b)[1..] == a[1..] + b;
      OwnedByAppend(a[1..], b, userId);
    }
  }
}
