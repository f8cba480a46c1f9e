/** The façade through which the routes reach the store. */
module Service {
  import opened Wrappers
  import opened Todos
  import opened StoreSpec
  import opened Repository

  class TodoService {
    const repository: TodoRepository

    constructor ()
      ensures fresh(repository) && repository.list == []
    {
      repository := new TodoRepository();
    }

    /** Adds `t` to the store; reports success whatever happens. */
    method Create(t: Todo) returns (ok: bool)
      modifies repository
      ensures ok
      ensures repository.list == Appended(old(repository.list), t)
    {
      var _ := repository.Add(t);
      ok := true;
    }

    /**
     * Looks `id` up by value and, if a record has it, stores `values` with
     * that id at POSITION `id`; otherwise reports `false` without touching
     * the store.
     */
    method Update(id: int, values: Todo) returns (ok: bool)
      modifies repository
      ensures Outcome(ok, repository.list) == UpdateById(old(repository.list), id, values)
    {
      var todo := FindById(id);
      ok := false;
      if todo.Some? {
        var stored := values.(id := todo.value.id);
        ok := repository.Update(stored);
      }
    }

    /** Removes the element at POSITION `id`, with no lookup first. */
    method Delete(id: int) returns (ok: bool)
      modifies repository
      ensures ok <==> InRange(old(repository.list), id)
      ensures repository.list == if ok then RemovedAt(old(repository.list), id) else old(repository.list)
    {
      ok := repository.DeleteById(id);
    }

    function GetAll(): (r: seq<Todo>)
      reads repository
      ensures |r| == |repository.list| && forall i :: 0 <= i < |r| ==> r[i] == repository.list[i]
    {
      repository.GetAll()
    }

    function FindById(id: int): (r: Option<Todo>)
      reads repository
      ensures r.None? <==> forall j :: 0 <= j < |repository.list| ==> repository.list[j].id != id
      ensures r.Some? ==> r.value.id == id
      ensures r.Some? ==> exists i :: 0 <= i < |repository.list| && repository.list[i] == r.value && forall j :: 0 <= j < i ==> repository.list[j].id != id
    {
      repository.FindById(id)
    }
  }
}
