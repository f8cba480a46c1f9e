/** The in-memory store: one growable list of records. */
module Repository {
  import opened Wrappers
  import opened Todos
  import opened StoreSpec

  class TodoRepository {
    /** The backing list, in insertion order. */
    var list: seq<Todo>

    constructor ()
      ensures list == []
    {
      list := [];
    }

    /** Appends `t` with id one more than the current length; always succeeds. */
    method Add(t: Todo) returns (ok: bool)
      modifies this
      ensures ok
      ensures list == Appended(old(list), t)
    {
      list := list + [t.(id := |list| + 1)];
      ok := true;
    }

    /**
     * Overwrites the slot at POSITION `t.id`; an index outside the list is
     * reported as `false` and changes nothing.
     */
    method Update(t: Todo) returns (ok: bool)
      modifies this
      ensures ok <==> InRange(old(list), t.id)
      ensures list == if ok then Replaced(old(list), t) else old(list)
    {
      ok := false;
      if 0 <= t.id < |list| {
        list := list[t.id := t];
        ok := true;
      }
    }

    /**
     * Removes the element at POSITION `id`; an index outside the list is
     * reported as `false` and changes nothing.
     */
    method DeleteById(id: int) returns (ok: bool)
      modifies this
      ensures ok <==> InRange(old(list), id)
      ensures list == if ok then RemovedAt(old(list), id) else old(list)
    {
      ok := false;
      if 0 <= id < |list| {
        list := list[..id] + list[id + 1..];
        ok := true;
      }
    }

    /** The current contents, in order; a value, so callers cannot change the store through it. */
    function GetAll(): (r: seq<Todo>)
      reads this
      ensures |r| == |list| && forall i :: 0 <= i < |r| ==> r[i] == list[i]
    {
      list
    }

    /** The first record in list order whose id field equals `id`. */
    function FindById(id: int): (r: Option<Todo>)
      reads this
      ensures r.None? <==> forall j :: 0 <= j < |list| ==> list[j].id != id
      ensures r.Some? ==> r.value.id == id
      ensures r.Some? ==> exists i :: 0 <= i < |list| && list[i] == r.value && forall j :: 0 <= j < i ==> list[j].id != id
    {
      match IndexOfId(list, id)
      case None => None
      case Some(i) => Some(list[i])
    }
  }
}
