/** The task service: delegates to the repository, and on creation forces the
    owner to the caller. */
module Service {
  import opened Wrappers
  import opened Domain
  import opened Repository

  class TaskService {
    const repository: TaskRepository

    ghost predicate Valid()
      reads repository
    {
      repository.Valid()
    }

    constructor (repository: TaskRepository)
      ensures this.repository == repository
    {
      this.repository := repository;
    }

    /** `listar`: the caller's tasks and no one else's. */
    function Listar(user: User): (r: seq<Task>)
      reads repository
      ensures forall t :: t in r <==> t in repository.rows && t.userId == user.id
      ensures r == repository.AllByUser(user)
      ensures Valid() ==> IdsIncreasing(r)
    {
      repository.AllByUser(user)
    }

    /** `crear`: the validated attributes with `user_id` overwritten by the
        caller's id, inserted as a new row. Whatever owner the request
        named, the new task belongs to the caller. */
    method Crear(data: TaskFields, user: User) returns (r: Result<Task>)
      requires Valid()
      modifies repository
      ensures Valid()
      ensures r.Failure? <==> data.title.None?
      ensures r.Failure? ==>
        r.error == NotNullViolation && unchanged(repository)
      ensures r.Success? ==>
        && r.value.userId == user.id
        && r.value.title == data.title.value
        && r.value.description == data.description.GetOr(None)
        && r.value.status == data.status.GetOr(Pending)
        && (forall t :: t in old(repository.rows) ==> t.id != r.value.id)
        && repository.rows == old(repository.rows) + [r.value]
        && repository.nextId == old(repository.nextId) + 1
    {
      var owned := data.(userId := Some(user.id));
      r := repository.Create(owned);
    }

    /** `actualizar`: a partial update of the task with the validated keys. */
    method Actualizar(data: TaskFields, task: Task) returns (r: Task)
      requires Valid()
      modifies repository
      ensures Valid()
      ensures r == Fill(task, data)
      ensures repository.rows == ReplaceRow(old(repository.rows), r)
      ensures repository.nextId == old(repository.nextId)
    {
      r := repository.Update(task, data);
    }

    /** `eliminar`: deletes the task's row and reports success. */
    method Eliminar(task: Task) returns (ok: bool)
      requires Valid()
      modifies repository
      ensures Valid()
      ensures ok
      ensures forall t :: t in repository.rows <==> t in old(repository.rows) && t.id != task.id
      ensures repository.rows == WithoutId(old(repository.rows), task.id)
      ensures repository.nextId == old(repository.nextId)
    {
      ok := repository.Delete(task);
    }

    /** `findByIdAndUser`: the owned lookup, null for a missing id and for
        another user's task alike. */
    function FindByIdAndUser(id: int, user: User): (r: Option<Task>)
      reads repository
      requires Valid()
      ensures r.Some? ==> r.value in repository.rows && r.value.id == id && r.value.userId == user.id
      ensures r.None? <==> forall t :: t in repository.rows && t.id == id ==> t.userId != user.id
    {
      repository.FindByIdAndUser(id, user)
    }
  }
}
