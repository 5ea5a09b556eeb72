/** The three tasks the entry point seeds the application with, and a
    session over them. */
module Seed {
  import opened TaskList
  import opened Heading
  import opened App

  /** The seed list of the entry point. */
  function Data(): (ts: seq<Task>)
    ensures |ts| == 3 && DistinctIds(ts)
  {
    [Task("todo-0", "Eat", true), Task("todo-1", "Sleep", false), Task("todo-2", "Repeat", false)]
  }

  /** The seed's heading counts all three tasks, the completed one too. */
  lemma SeedHeading()
    ensures Data()[0].completed
    ensures HeadingText(Data()) == "3 tasks remaining"
  {
    assert NatToString(3) == "3";
  }

  /** Toggling "todo-1" marks "Sleep" completed and touches nothing else. */
  lemma SeedToggle()
    ensures Toggle(Data(), "todo-1") ==
      [Task("todo-0", "Eat", true), Task("todo-1", "Sleep", true), Task("todo-2", "Repeat", false)]
  {
    var d := Data();
    assert d[0].id != "todo-1" by { assert d[0].id[5] != "todo-1"[5]; }
    assert d[2].id != "todo-1" by { assert d[2].id[5] != "todo-1"[5]; }
  }

  /** Then deleting "todo-0" leaves the other two in order. */
  lemma SeedDelete()
    ensures Delete(Toggle(Data(), "todo-1"), "todo-0") ==
      [Task("todo-1", "Sleep", true), Task("todo-2", "Repeat", false)]
  {
    var t := Toggle(Data(), "todo-1");
    SeedToggle();
    ToggleKeepsIds(Data(), "todo-1");
    DeleteUnique(t, "todo-0", 0);
    assert t[1..] == [t[1], t[2]];
  }

  /** Then adding "Code" appends it as the third, incomplete task. */
  lemma SeedAdd(suffix: string)
    requires IdPrefix + suffix !in ["todo-1", "todo-2"]
    ensures var ts := Add(Delete(Toggle(Data(), "todo-1"), "todo-0"), suffix, "Code");
      |ts| == 3 && ts[2] == Task(IdPrefix + suffix, "Code", false) && DistinctIds(ts)
  {
    var r := Delete(Toggle(Data(), "todo-1"), "todo-0");
    SeedDelete();
    assert Ids(r) == ["todo-1", "todo-2"];
    AddPreservesDistinct(r, suffix, "Code");
  }

  /** The same session driven through the store's handlers. */
  method Session(suffix: string)
    requires IdPrefix + suffix !in ["todo-1", "todo-2"]
  {
    var store := new TaskStore(Data());
    var h := store.CurrentHeading();
    assert h.count == 3;
    store.ToggleTaskCompleted("todo-1");
    store.DeleteTask("todo-0");
    SeedDelete();
    SeedAdd(suffix);
    assert Ids(store.tasks) == ["todo-1", "todo-2"];
    store.AddTask("Code", suffix);
    h := store.CurrentHeading();
    assert h.count == 3 && store.tasks[2].name == "Code";
  }
}
