/** The application component's state: a single cell holding the current
    task list. Each handler computes the next list from the current one and
    replaces the stored list with it wholesale. */
module App {
  import opened TaskList
  import opened Heading

  class TaskStore {
    /** The current task list. */
    var tasks: seq<Task>

    /** Starts with the seed list handed in by the caller, unchecked. */
    constructor (seed: seq<Task>)
      ensures tasks == seed
    {
      tasks := seed;
    }

    /** The form's submit handler. `suffix` stands for the value the random
        id generator returns; it must not collide with a current id. */
    method AddTask(name: string, suffix: string)
      requires IdPrefix + suffix !in Ids(tasks)
      modifies this
      ensures tasks == Add(old(tasks), suffix, name)
      ensures |tasks| == |old(tasks)| + 1 && tasks[..|old(tasks)|] == old(tasks)
      ensures tasks[|old(tasks)|] == Task(IdPrefix + suffix, name, false)
      ensures DistinctIds(old(tasks)) ==> DistinctIds(tasks)
    {
      if DistinctIds(tasks) {
        AddPreservesDistinct(tasks, suffix, name);
      }
      tasks := Add(tasks, suffix, name);
    }

    /** The checkbox handler. */
    method ToggleTaskCompleted(id: string)
      modifies this
      ensures tasks == Toggle(old(tasks), id)
      ensures Ids(tasks) == Ids(old(tasks))
      ensures id !in Ids(old(tasks)) ==> tasks == old(tasks)
      ensures DistinctIds(old(tasks)) ==> DistinctIds(tasks)
    {
      ToggleKeepsIds(tasks, id);
      if id !in Ids(tasks) {
        ToggleAbsent(tasks, id);
      }
      tasks := Toggle(tasks, id);
    }

    /** The delete-button handler. */
    method DeleteTask(id: string)
      modifies this
      ensures tasks == Delete(old(tasks), id)
      ensures id !in Ids(tasks)
      ensures id !in Ids(old(tasks)) ==> tasks == old(tasks)
      ensures DistinctIds(old(tasks)) ==> DistinctIds(tasks)
    {
      DeleteRemovesId(tasks, id);
      if id !in Ids(tasks) {
        DeleteAbsent(tasks, id);
      }
      if DistinctIds(tasks) {
        DeleteKeepsDistinct(tasks, id);
      }
      tasks := Delete(tasks, id);
    }

    /** The heading the component renders for the current list. */
    method CurrentHeading() returns (h: ListHeading)
      ensures h == HeadingOf(tasks)
      ensures h.count == |tasks|
    {
      h := HeadingOf(tasks);
    }
  }
}
