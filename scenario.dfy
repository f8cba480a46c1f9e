/** The store driven through the service: three creates, a lookup, a positional delete. */
module Scenario {
  import opened Wrappers
  import opened Todos
  import opened StoreSpec
  import opened Service

  /**
   * Creating "A", "B", "C" numbers them 1, 2, 3; `findById(2)` gives "B";
   * `delete(1)` then removes "B", the element at position 1, and not "A",
   * the record whose id is 1.
   */
  method CreateFindDelete() returns (ids: seq<int>, found: Option<string>, deleted: bool, remaining: seq<string>)
    ensures ids == [1, 2, 3]
    ensures found == Some("B")
    ensures deleted
    ensures remaining == ["A", "C"]
  {
    var service := new TodoService();
    var _ := service.Create(Todo(0, "A", "first", false));
    var _ := service.Create(Todo(0, "B", "second", false));
    var _ := service.Create(Todo(0, "C", "third", true));
    var all := service.GetAll();
    ids := seq(|all|, i requires 0 <= i < |all| => all[i].id);
    var hit := service.FindById(2);
    found := if hit.Some? then Some(hit.value.title) else None;
    deleted := service.Delete(1);
    all := service.GetAll();
    remaining := seq(|all|, i requires 0 <= i < |all| => all[i].title);
  }

  /**
   * After creating "A", "B", "C", `update(3, _)` finds "C" by id but
   * position 3 is past the end, so it fails and changes nothing; `update(2, Z)`
   * finds "B" by id but writes Z over "C", the element at position 2, so two
   * records then carry id 2.
   */
  method CreateUpdate() returns (newest: bool, middle: bool, titles: seq<string>, ids: seq<int>)
    ensures !newest && middle
    ensures titles == ["A", "B", "Z"]
    ensures ids == [1, 2, 2]
  {
    var service := new TodoService();
    var _ := service.Create(Todo(0, "A", "first", false));
    var _ := service.Create(Todo(0, "B", "second", false));
    var _ := service.Create(Todo(0, "C", "third", false));
    newest := service.Update(3, Todo(0, "Y", "changed", true));
    middle := service.Update(2, Todo(7, "Z", "changed", true));
    var all := service.GetAll();
    titles := seq(|all|, i requires 0 <= i < |all| => all[i].title);
    ids := seq(|all|, i requires 0 <= i < |all| => all[i].id);
  }
}
