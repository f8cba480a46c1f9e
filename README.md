# Todo store model

A Dafny model of the in-memory Todo store of the showcase's `todo-service`:
the `Todo` record, the `TodoRepository` that keeps records in one
`ArrayList`, the `TodoService` façade over it, and the create endpoint of
the publishing route, which stores a record only when its done flag is set.

The three nested classes appear verbatim in both route files
(`TodoRestRoute.java` lines 58-330 and `TodoKafkaRoute.java` lines 61-333; the
only difference is the logger's class). They are modelled once, and the table
below cites the copy in `TodoRestRoute.java`; the same lines in
`TodoKafkaRoute.java` are three further down (`add` 260-264, `update`
274-286, `deleteById` 296-308, `findById` 328-332, service `update` 191-202).

Layout:

- `wrappers.dfy` (`Wrappers`): `Option`, for `Optional<Todo>`.
- `todo.dfy` (`Todos`): the `Todo` record (`TodoRestRoute.java` lines 58-160) as an immutable datatype.
- `store_spec.dfy` (`StoreSpec`): what each store operation does to the
  list, as functions on `seq<Todo>`.
- `repository.dfy` (`Repository`): class `TodoRepository` with the list as
  a `seq<Todo>` field; `add`, `update` and `deleteById` are methods that
  reassign it, `getAll` and `findById` are functions that read it.
- `service.dfy` (`Service`): class `TodoService` delegating to one repository.
- `kafka_route.dfy` (`KafkaRoute`): the `done == true` guard in front of `create`.
- `store_properties.dfy` (`StoreProperties`): lemmas over several operations.
- `scenario.dfy` (`Scenario`): two client methods that drive the classes.

The id behaviour is kept literally. `add` numbers records from 1 (id =
length + 1). `update` and `deleteById` use an id as a 0-based position.
`findById` compares the id field. So after adds only, `deleteById(k)` and
a successful service `update(k, v)` hit the record whose id is `k + 1`.
After adds only, the service `update` of the newest record always fails,
and a successful update leaves two records with the same id. In any state,
an update of an id at or past the end of the list fails. The lemmas in
`StoreProperties` and the two `Scenario` methods state these effects.

One design change: the source builds one service, and so one store, per
route class. Here `TodoKafkaRoute` is given a `TodoService` in its
constructor, so one store can be shared.

## Model

| member | source | states |
|---|---|---|
| StoreSpec.Appended | todo-service/src/main/java/dev/unexist/showcase/route/TodoRestRoute.java:257-261 | after `add` the list is one longer, the old elements are the prefix, and the new last element has id = old length + 1 and the caller's title, description and done flag |
| StoreSpec.Replaced | todo-service/src/main/java/dev/unexist/showcase/route/TodoRestRoute.java:275 | a positional `set` at `t.id` keeps the length, puts `t` in slot `t.id` and leaves every other slot unchanged |
| StoreSpec.RemovedAt | todo-service/src/main/java/dev/unexist/showcase/route/TodoRestRoute.java:297 | a positional `remove` at `i` shortens the list by one, keeps the elements before `i`, shifts those after it down by one in order, and removes exactly the one element `s[i]` (multiset) |
| StoreSpec.IndexOfId | todo-service/src/main/java/dev/unexist/showcase/route/TodoRestRoute.java:325-329 | the scan yields the position of the FIRST element whose id field equals `id`, and none exactly when no element has that id |
| StoreSpec.UpdateById | todo-service/src/main/java/dev/unexist/showcase/route/TodoRestRoute.java:188-199 | the service update succeeds iff some record has id `id` AND `id` is a valid position; on success the list is the old one with `values` (its id set to `id`) written at position `id`; on failure the list is unchanged |
| Repository.TodoRepository.constructor | todo-service/src/main/java/dev/unexist/showcase/route/TodoRestRoute.java:245-247 | a new repository holds the empty list |
| Repository.TodoRepository.Add | todo-service/src/main/java/dev/unexist/showcase/route/TodoRestRoute.java:257-261 | returns true and the new list is `Appended(old list, t)` |
| Repository.TodoRepository.Update | todo-service/src/main/java/dev/unexist/showcase/route/TodoRestRoute.java:271-283 | returns true iff `0 <= t.id < length`; then the list is `Replaced(old list, t)`, otherwise it is unchanged (the out-of-range exception becomes `false`) |
| Repository.TodoRepository.DeleteById | todo-service/src/main/java/dev/unexist/showcase/route/TodoRestRoute.java:293-305 | returns true iff `0 <= id < length`; then the list is `RemovedAt(old list, id)`, otherwise it is unchanged |
| Repository.TodoRepository.GetAll | todo-service/src/main/java/dev/unexist/showcase/route/TodoRestRoute.java:313-315 | returns the current contents in order; being a value it cannot be used to change the store |
| Repository.TodoRepository.FindById | todo-service/src/main/java/dev/unexist/showcase/route/TodoRestRoute.java:325-329 | returns none iff no stored record has id field `id`; otherwise a record with that id that is the first such in list order; reading only, it changes nothing |
| Service.TodoService.constructor | todo-service/src/main/java/dev/unexist/showcase/route/TodoRestRoute.java:163 | a new service owns a fresh, empty repository |
| Service.TodoService.Create | todo-service/src/main/java/dev/unexist/showcase/route/TodoRestRoute.java:173-177 | always returns true; the repository's list becomes `Appended(old list, t)` |
| Service.TodoService.Update | todo-service/src/main/java/dev/unexist/showcase/route/TodoRestRoute.java:188-199 | result and new list are exactly `UpdateById(old list, id, values)`: no record with that id means false and no change |
| Service.TodoService.Delete | todo-service/src/main/java/dev/unexist/showcase/route/TodoRestRoute.java:209-211 | delegates with no lookup: true iff `id` is a valid position, then the element at that position is removed, else nothing changes |
| Service.TodoService.GetAll | todo-service/src/main/java/dev/unexist/showcase/route/TodoRestRoute.java:219-221 | returns the repository's current contents in order |
| Service.TodoService.FindById | todo-service/src/main/java/dev/unexist/showcase/route/TodoRestRoute.java:231-233 | delegates to the repository: none iff no stored record has id field `id`; otherwise a record with that id that is the first such in list order |
| KafkaRoute.TodoKafkaRoute.constructor | todo-service/src/main/java/dev/unexist/showcase/route/TodoKafkaRoute.java:32 | the route works on the service it is given |
| KafkaRoute.TodoKafkaRoute.CreateEndpoint | todo-service/src/main/java/dev/unexist/showcase/route/TodoKafkaRoute.java:45-48 | a record reaches `create` iff its done flag is true: then it is appended with the next id, otherwise the store is unchanged |
| StoreProperties.AddAllShape | todo-service/src/main/java/dev/unexist/showcase/route/TodoRestRoute.java:257-261 | a run of adds keeps the earlier records and gives the i-th added record id = starting length + i + 1 |
| StoreProperties.AddsFromEmptyNumberOneToN | todo-service/src/main/java/dev/unexist/showcase/route/TodoKafkaRoute.java:176-180 | from an empty store, N creates with no deletes yield exactly the N records in insertion order with ids 1..N |
| StoreProperties.AppendedKeepsSequentialIds | todo-service/src/main/java/dev/unexist/showcase/route/TodoRestRoute.java:258 | an add keeps the invariant that every record's id is its position + 1 |
| StoreProperties.FindOnSequentialIds | todo-service/src/main/java/dev/unexist/showcase/route/TodoKafkaRoute.java:328-332 | while ids equal position + 1, `findById(k)` finds position `k - 1` for `1 <= k <= N` and nothing otherwise |
| StoreProperties.UpdateOnSequentialIds | todo-service/src/main/java/dev/unexist/showcase/route/TodoRestRoute.java:192-195 | after adds only, the service update succeeds iff `1 <= k < N` |
| StoreProperties.UpdatePastEndFails | todo-service/src/main/java/dev/unexist/showcase/route/TodoRestRoute.java:188-199 | for any list, a service update of an id at or past the end fails and leaves the list unchanged, whether or not a record has that id |
| StoreProperties.UpdateNewestFails | todo-service/src/main/java/dev/unexist/showcase/route/TodoKafkaRoute.java:191-202 | after N adds, `findById(N)` finds the newest record, yet `update(N, v)` returns false and leaves the store unchanged |
| StoreProperties.UpdateOverwritesNextRecord | todo-service/src/main/java/dev/unexist/showcase/route/TodoRestRoute.java:275 | after adds only, a successful `update(k, v)` overwrites the record with id `k + 1`, keeps the one with id `k`, leaves two records with id `k`, and `findById(k)` still returns the old record |
| StoreProperties.DeleteRemovesByPosition | todo-service/src/main/java/dev/unexist/showcase/route/TodoKafkaRoute.java:296-308 | after adds only, `deleteById(k)` removes the record with id `k + 1` and the record with id `k` is still found by id |
| Scenario.CreateFindDelete | todo-service/src/main/java/dev/unexist/showcase/route/TodoRestRoute.java:209-211 | after creating A, B, C: ids are 1, 2, 3, `findById(2)` gives B, `delete(1)` succeeds and leaves [A, C] |
| Scenario.CreateUpdate | todo-service/src/main/java/dev/unexist/showcase/route/TodoRestRoute.java:188-199 | after creating A, B, C: `update(3, _)` fails; `update(2, Z)` succeeds and leaves titles [A, B, Z] with ids [1, 2, 2] |

## Left out

- The Camel route definitions in both `configure()` methods (REST bindings, HTTP status codes, bean dispatch, JSON unmarshalling): framework wiring. Only the `done == true` choice in front of `create` is modelled.
- The timer that publishes a random `Todo` to Kafka every ten seconds: randomness, I/O and a foreign library, and it never touches the store.
- The warning logged when `update` or `deleteById` catches an out-of-range index: a side effect with no bearing on the result.
- Concurrency: the `ArrayList` is unsynchronised; the model is sequential.
- Java aliasing: `add` and `update` call `setId` on the caller's object, and callers may change the records they get from `getAll`. The record is a value here, so neither effect exists.
- Repository.TodoRepository.Add: ids are unbounded integers; the wrap-around of the 32-bit `size() + 1` beyond 2^31 - 1 records is not modelled.
- `getAll` returns a live read-only view of the list in the source, so a caller holding it sees later adds and deletes; here it returns the contents at the time of the call.
- Null fields: `done` is a `Boolean` and the strings may be null in the source; here they are a `bool` and strings.
- The per-route duplication of the service and store: one store is modelled.
