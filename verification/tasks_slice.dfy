/** The frontend's task store: the reducer of the `tasks` slice. Each case
    of the reducer assigns fields of the state in place, so the state is a
    class and the reducer is a method on it. */
module TasksSlice {
  import opened Wrappers
  import opened Domain

  /** The four asynchronous thunks whose lifecycle actions the slice handles. */
  datatype Thunk = FetchTasks | CreateTask | UpdateTask | DeleteTask

  /** The actions the reducer has a case for. */
  datatype TasksAction =
    | ClearError
    | SetSelectedTask(selected: Option<Task>)
    | Pending(thunk: Thunk)
    | FetchTasksFulfilled(fetched: seq<Task>)
    | CreateTaskFulfilled(created: Task)
    | UpdateTaskFulfilled(updated: Task)
    | DeleteTaskFulfilled(deletedId: int)
    | Rejected(thunk: Thunk, message: string)

  /** `tasks.findIndex(task => task.id === id)`: the index of the first task
      carrying `id`, or -1 when there is none. */
  function FindIndex(tasks: seq<Task>, id: int): (r: int)
    ensures -1 <= r < |tasks|
    ensures r == -1 <==> forall i :: 0 <= i < |tasks| ==> tasks[i].id != id
    ensures r != -1 ==> tasks[r].id == id && forall i :: 0 <= i < r ==> tasks[i].id != id
  {
    if tasks == [] then -1
    else if tasks[0].id == id then 0
    else
      var k := FindIndex(tasks[1..], id);
      if k == -1 then -1 else k + 1
  }

  class TasksState {
    var tasks: seq<Task>
    var selectedTask: Option<Task>
    var loading: bool
    var error: Option<string>

    /** The initial state: no tasks, nothing selected, idle, no error. */
    constructor ()
      ensures tasks == [] && selectedTask == None && !loading && error == None
    {
      tasks := [];
      selectedTask := None;
      loading := false;
      error := None;
    }

    /** The slice reducer applied to one action. */
    method Dispatch(action: TasksAction)
      modifies this
      ensures action.ClearError? ==>
        && error == None
        && tasks == old(tasks) && selectedTask == old(selectedTask) && loading == old(loading)
      ensures action.SetSelectedTask? ==>
        && selectedTask == action.selected
        && tasks == old(tasks) && loading == old(loading) && error == old(error)
      ensures action.Pending? ==>
        && loading && error == None
        && tasks == old(tasks) && selectedTask == old(selectedTask)
      ensures action.Rejected? ==>
        && !loading && error == Some(action.message)
        && tasks == old(tasks) && selectedTask == old(selectedTask)
      ensures action.FetchTasksFulfilled? ==>
        && tasks == action.fetched
        && !loading && error == None && selectedTask == old(selectedTask)
      ensures action.CreateTaskFulfilled? ==>
        && |tasks| == |old(tasks)| + 1
        && tasks[..|old(tasks)|] == old(tasks)
        && tasks[|old(tasks)|] == action.created
        && !loading && error == None && selectedTask == old(selectedTask)
      ensures action.UpdateTaskFulfilled? ==>
        && |tasks| == |old(tasks)|
        && ((forall i :: 0 <= i < |old(tasks)| ==> old(tasks)[i].id != action.updated.id) ==>
              tasks == old(tasks))
        && (forall i :: 0 <= i < |tasks| ==>
              tasks[i] == if i == FindIndex(old(tasks), action.updated.id)
                          then action.updated else old(tasks)[i])
        && !loading && error == None && selectedTask == old(selectedTask)
      ensures action.DeleteTaskFulfilled? ==>
        && tasks == WithoutId(old(tasks), action.deletedId)
        && (forall t :: t in tasks <==> t in old(tasks) && t.id != action.deletedId)
        && !loading && error == None && selectedTask == old(selectedTask)
    {
      match action
      case ClearError =>
        error := None;
      case SetSelectedTask(selected) =>
        selectedTask := selected;
      case Pending(_) =>
        loading := true;
        error := None;
      case FetchTasksFulfilled(fetched) =>
        loading := false;
        tasks := fetched;
        error := None;
      case CreateTaskFulfilled(created) =>
        loading := false;
        tasks := tasks + [created];
        error := None;
      case UpdateTaskFulfilled(updated) =>
        loading := false;
        var index := FindIndex(tasks, updated.id);
        if index != -1 {
          tasks := tasks[index := updated];
        }
        error := None;
      case DeleteTaskFulfilled(deletedId) =>
        loading := false;
        tasks := WithoutId(tasks, deletedId);
        error := None;
      case Rejected(_, message) =>
        loading := false;
        error := Some(message);
    }
  }
}
