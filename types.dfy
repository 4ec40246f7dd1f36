/**
 * The task record and its closed priority enumeration
 * (src/types/index.ts).
 */
module Types {

  /** The three priorities a task can have. */
  datatype Priority = HIGH | MEDIUM | LOW

  /**
   * One to-do entry. `id` and `dueDate` are strings as in the source;
   * `createdAt` is the millisecond clock reading taken when the task was added.
   */
  datatype TodoItem = TodoItem(
    id: string,
    title: string,
    dueDate: string,
    priority: Priority,
    createdAt: int,
    completed: bool
  )
}
