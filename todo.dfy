/** The Todo record: an identifier, a title, a description and a done flag. */
module Todos {
  /**
   * The source's record is a mutable bean with a setter per field; here it
   * is a value, and `t.(id := n)` plays the part of `setId(n)`.
   */
  datatype Todo = Todo(id: int, title: string, description: string, done: bool)
}
