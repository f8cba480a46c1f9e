/**
 * What each operation of the in-memory store does to the backing list,
 * stated on values. The repository's methods are proved to change their
 * list exactly as these functions say.
 */
module StoreSpec {
  import opened Wrappers
  import opened Todos

  /** An operation's boolean result together with the list it leaves. */
  datatype Outcome = Outcome(ok: bool, list: seq<Todo>)

  /** `i` addresses an existing slot, i.e. `list.set(i, _)` and `list.remove(i)` do not throw. */
  predicate InRange(s: seq<Todo>, i: int)
  {
    0 <= i < |s|
  }

  /** The list after `add(t)`: `t` gets id `|s| + 1` and goes to the end. */
  function Appended(s: seq<Todo>, t: Todo): (r: seq<Todo>)
    ensures |r| == |s| + 1
    ensures r[..|s|] == s
    ensures r[|s|].id == |s| + 1
    ensures r[|s|].title == t.title && r[|s|].description == t.description && r[|s|].done == t.done
  {
    s + [t.(id := |s| + 1)]
  }

  /** The list after a successful `update(t)`: the slot at position `t.id` becomes `t`. */
  function Replaced(s: seq<Todo>, t: Todo): (r: seq<Todo>)
    requires InRange(s, t.id)
    ensures |r| == |s|
    ensures r[t.id] == t
    ensures forall j :: 0 <= j < |s| && j != t.id ==> r[j] == s[j]
  {
    s[t.id := t]
  }

  /** The list after a successful `deleteById(i)`: the element at position `i` is gone. */
  function RemovedAt(s: seq<Todo>, i: int): (r: seq<Todo>)
    requires InRange(s, i)
    ensures |r| == |s| - 1
    ensures forall j :: 0 <= j < i ==> r[j] == s[j]
    ensures forall j :: i <= j < |r| ==> r[j] == s[j + 1]
    ensures multiset(r) + multiset{s[i]} == multiset(s)
  {
    assert s == s[..i] + [s[i]] + s[i + 1..];
    s[..i] + s[i + 1..]
  }

  /** The position of the first record whose id field equals `id`, if any. */
  function IndexOfId(s: seq<Todo>, id: int): (r: Option<nat>)
    ensures r.Some? ==> r.value < |s| && s[r.value].id == id
    ensures r.Some? ==> forall j :: 0 <= j < r.value ==> s[j].id != id
    ensures r.None? <==> forall j :: 0 <= j < |s| ==> s[j].id != id
  {
    if s == [] then None
    else if s[0].id == id then Some(0)
    else match IndexOfId(s[1..], id)
      case None => None
      case Some(i) => Some(i + 1)
  }

  /**
   * The service's `update(id, values)`: look `id` up by value; if found,
   * give `values` the found record's id and write it to position `id`.
   */
  function UpdateById(s: seq<Todo>, id: int, values: Todo): (r: Outcome)
    ensures r.ok <==> (exists j :: 0 <= j < |s| && s[j].id == id) && InRange(s, id)
    ensures r.ok ==> r.list == Replaced(s, values.(id := id))
    ensures !r.ok ==> r.list == s
  {
    match IndexOfId(s, id)
    case None => Outcome(false, s)
    case Some(i) =>
      var stored := values.(id := s[i].id);
      if InRange(s, stored.id) then Outcome(true, Replaced(s, stored)) else Outcome(false, s)
  }

  /** Every record sits at the position one below its id, as after adds from empty with no other change. */
  ghost predicate SequentialIds(s: seq<Todo>)
  {
    forall i :: 0 <= i < |s| ==> s[i].id == i + 1
  }
}
