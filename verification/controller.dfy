/** The task controller: each action turns a service call into a JSON
    envelope `{success, message, data | errors}` with an HTTP status. The
    caller is the already authenticated user, passed explicitly; a failure
    raised by the storage layer is the parameter `fault` (the message of the
    exception, or `None` when the storage layer does not fail). */
module Controller {
  import opened Wrappers
  import opened Domain
  import opened Repository
  import opened Service

  /** The `data` member of the envelope. */
  datatype Payload = NoData | EmptyData | TasksData(tasks: seq<Task>) | TaskData(task: Task)

  /** The `errors` member of the envelope: absent, `[]`, or
      `{general: [message]}`. */
  datatype Errors = NoErrors | EmptyErrors | GeneralErrors(general: seq<string>)

  datatype Response = Response(
    status: int,
    success: bool,
    message: string,
    data: Payload,
    errors: Errors)

  const NotFoundMessage := "Task not found or does not belong to user"

  /** The single outcome for an id the caller does not own, whether it is
      missing or someone else's. */
  const NotFound := Response(404, false, NotFoundMessage, NoData, EmptyErrors)

  /** The envelope every `catch (\Exception $e)` builds. */
  function ServerError(message: string, failure: string): (r: Response)
    ensures r.status == 500 && !r.success && r.message == message
    ensures r.errors == GeneralErrors([failure])
  {
    Response(500, false, message, NoData, GeneralErrors([failure]))
  }

  class TaskController {
    const service: TaskService

    ghost predicate Valid()
      reads service.repository
    {
      service.Valid()
    }

    constructor (service: TaskService)
      ensures this.service == service
    {
      this.service := service;
    }

    /** `index`: 200 with exactly the caller's tasks. */
    method Index(user: User, fault: Option<string>) returns (resp: Response)
      requires Valid()
      ensures fault.Some? ==> resp == ServerError("Failed to retrieve tasks", fault.value)
      ensures fault.None? ==>
        && resp.status == 200 && resp.success
        && resp.message == "Tasks retrieved successfully"
        && resp.errors == NoErrors && resp.data.TasksData?
        && (forall t :: t in resp.data.tasks <==>
              t in service.repository.rows && t.userId == user.id)
        && resp.data.tasks == service.Listar(user)
        && IdsIncreasing(resp.data.tasks)
    {
      if fault.Some? {
        return ServerError("Failed to retrieve tasks", fault.value);
      }
      var tasks := service.Listar(user);
      resp := Response(200, true, "Tasks retrieved successfully", TasksData(tasks), NoErrors);
    }

    /** `store`: 201 with a new task owned by the caller; any failure of the
        insert is the 500 envelope and nothing is stored. */
    method Store(data: TaskFields, user: User, fault: Option<string>) returns (resp: Response)
      requires Valid()
      modifies service.repository
      ensures Valid()
      ensures fault.Some? ==>
        resp == ServerError("Failed to create task", fault.value) && unchanged(service.repository)
      ensures fault.None? && data.title.None? ==>
        resp == ServerError("Failed to create task", NotNullViolation) && unchanged(service.repository)
      ensures fault.None? && data.title.Some? ==>
        && resp.status == 201 && resp.success
        && resp.message == "Task created successfully"
        && resp.errors == NoErrors && resp.data.TaskData?
        && resp.data.task.userId == user.id
        && resp.data.task.title == data.title.value
        && resp.data.task.description == data.description.GetOr(None)
        && resp.data.task.status == data.status.GetOr(Pending)
        && service.repository.rows == old(service.repository.rows) + [resp.data.task]
        && service.repository.nextId == old(service.repository.nextId) + 1
    {
      if fault.Some? {
        return ServerError("Failed to create task", fault.value);
      }
      var created := service.Crear(data, user);
      if created.Failure? {
        return ServerError("Failed to create task", created.error);
      }
      resp := Response(201, true, "Task created successfully", TaskData(created.value), NoErrors);
    }

    /** `update`: the owned lookup first; a miss is the 404 outcome and
        changes nothing; only an owned task is updated. */
    method Update(data: TaskFields, id: int, user: User, fault: Option<string>) returns (resp: Response)
      requires Valid()
      modifies service.repository
      ensures Valid()
      ensures fault.Some? ==>
        resp == ServerError("Failed to update task", fault.value) && unchanged(service.repository)
      ensures fault.None? && (forall t :: t in old(service.repository.rows) ==> t.id != id) ==>
        resp == NotFound && unchanged(service.repository)
      ensures fault.None? &&
              (exists t :: t in old(service.repository.rows) && t.id == id && t.userId != user.id) ==>
        resp == NotFound && unchanged(service.repository)
      ensures fault.None? && old(service.FindByIdAndUser(id, user)).Some? ==>
        var updated := Fill(old(service.FindByIdAndUser(id, user)).value, data);
        && resp == Response(200, true, "Task updated successfully", TaskData(updated), NoErrors)
        && service.repository.rows == ReplaceRow(old(service.repository.rows), updated)
        && service.repository.nextId == old(service.repository.nextId)
      ensures !unchanged(service.repository) ==>
        fault.None? && old(service.FindByIdAndUser(id, user)).Some?
      ensures |service.repository.rows| == |old(service.repository.rows)|
      ensures forall i :: 0 <= i < |old(service.repository.rows)| &&
                          old(service.repository.rows)[i].userId != user.id ==>
        service.repository.rows[i] == old(service.repository.rows)[i]
    {
      if fault.Some? {
        return ServerError("Failed to update task", fault.value);
      }
      var task := service.FindByIdAndUser(id, user);
      if task.None? {
        return NotFound;
      }
      var updated := service.Actualizar(data, task.value);
      resp := Response(200, true, "Task updated successfully", TaskData(updated), NoErrors);
    }

    /** `destroy`: the owned lookup first; a miss is the 404 outcome and the
        row stays; only an owned task is deleted. */
    method Destroy(id: int, user: User, fault: Option<string>) returns (resp: Response)
      requires Valid()
      modifies service.repository
      ensures Valid()
      ensures fault.Some? ==>
        resp == ServerError("Failed to delete task", fault.value) && unchanged(service.repository)
      ensures fault.None? && (forall t :: t in old(service.repository.rows) ==> t.id != id) ==>
        resp == NotFound && unchanged(service.repository)
      ensures fault.None? &&
              (exists t :: t in old(service.repository.rows) && t.id == id && t.userId != user.id) ==>
        resp == NotFound && unchanged(service.repository)
      ensures fault.None? && old(service.FindByIdAndUser(id, user)).Some? ==>
        && resp == Response(200, true, "Task deleted successfully", EmptyData, NoErrors)
        && service.repository.rows == WithoutId(old(service.repository.rows), id)
        && (forall t :: t in service.repository.rows ==> t.id != id)
        && service.repository.nextId == old(service.repository.nextId)
      ensures !unchanged(service.repository) ==>
        fault.None? && old(service.FindByIdAndUser(id, user)).Some?
      ensures forall t :: t in old(service.repository.rows) && t.userId != user.id ==>
        t in service.repository.rows
    {
      if fault.Some? {
        return ServerError("Failed to delete task", fault.value);
      }
      var task := service.FindByIdAndUser(id, user);
      if task.None? {
        return NotFound;
      }
      var _ := service.Eliminar(task.value);
      resp := Response(200, true, "Task deleted successfully", EmptyData, NoErrors);
    }
  }
}
