/** The create endpoint of the publishing surface, which stores only finished records. */
module KafkaRoute {
  import opened Todos
  import opened StoreSpec
  import opened Service

  class TodoKafkaRoute {
    const service: TodoService

    /** The surface works on the one shared service rather than owning a store of its own. */
    constructor (service: TodoService)
      ensures this.service == service
    {
      this.service := service;
    }

    /** Passes `t` on to `create` only when its done flag is set; otherwise stores nothing. */
    method CreateEndpoint(t: Todo) returns (created: bool)
      modifies service.repository
      ensures created == t.done
      ensures service.repository.list == if t.done then Appended(old(service.repository.list), t) else old(service.repository.list)
    {
      created := false;
      if t.done {
        created := service.Create(t);
      }
    }
  }
}
