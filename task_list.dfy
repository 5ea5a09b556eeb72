/** The task list of the to-do application: an ordered sequence of task
    records and the three transformations that produce the next list from
    the current one (add, toggle, delete). Every operation builds a new
    sequence; none changes its argument. */
module TaskList {

  /** One to-do item. `id` identifies the task, `name` is its display text. */
  datatype Task = Task(id: string, name: string, completed: bool)

  /** Prefix the application puts in front of every generated id. */
  const IdPrefix: string := "todo-"

  /** The ids of the tasks, in list order. */
  function Ids(ts: seq<Task>): (r: seq<string>)
    ensures |r| == |ts|
    ensures forall i :: 0 <= i < |ts| ==> r[i] == ts[i].id
  {
    if ts == [] then [] else [ts[0].id] + Ids(ts[1..])
  }

  /** No two positions of the list carry the same id. */
  predicate DistinctIds(ts: seq<Task>)
  {
    forall i, j :: 0 <= i < j < |ts| ==> ts[i].id != ts[j].id
  }

  // ---------------------------------------------------------------------
  // addTask
  // ---------------------------------------------------------------------

  /** The task `addTask` creates: id "todo-" followed by the generated
      suffix, the given name, not completed. */
  function NewTask(suffix: string, name: string): (t: Task)
    ensures |t.id| == |IdPrefix| + |suffix|
    ensures t.id[..|IdPrefix|] == IdPrefix && t.id[|IdPrefix|..] == suffix
    ensures t.name == name && !t.completed
  {
    Task(IdPrefix + suffix, name, false)
  }

  /** The list after `addTask(name)` when the id generator yields `suffix`:
      the old list with the new task appended at the end. */
  function Add(ts: seq<Task>, suffix: string, name: string): (r: seq<Task>)
    ensures |r| == |ts| + 1
    ensures forall i :: 0 <= i < |ts| ==> r[i] == ts[i]
    ensures r[|ts|].name == name && !r[|ts|].completed
    ensures r[|ts|].id == IdPrefix + suffix
  {
    ts + [NewTask(suffix, name)]
  }

  /** Adding a task whose id is not among the current ids keeps the ids
      pairwise distinct. */
  lemma AddPreservesDistinct(ts: seq<Task>, suffix: string, name: string)
    requires DistinctIds(ts)
    requires IdPrefix + suffix !in Ids(ts)
    ensures DistinctIds(Add(ts, suffix, name))
  {
    var r := Add(ts, suffix, name);
    forall i, j | 0 <= i < j < |r| ensures r[i].id != r[j].id {
      if j == |ts| {
        assert Ids(ts)[i] == r[i].id;
      }
    }
  }

  // ---------------------------------------------------------------------
  // toggleTaskCompleted
  // ---------------------------------------------------------------------

  /** The list after `toggleTaskCompleted(id)`: every task whose id equals
      `id` has its completion flag inverted, the others are kept as they
      are, each at its own position. */
  function Toggle(ts: seq<Task>, id: string): (r: seq<Task>)
    ensures |r| == |ts|
    ensures forall i :: 0 <= i < |ts| ==>
      r[i].id == ts[i].id && r[i].name == ts[i].name &&
      r[i].completed == (if ts[i].id == id then !ts[i].completed else ts[i].completed)
  {
    if ts == [] then []
    else
      var t := ts[0];
      var t' := if id == t.id then t.(completed := !t.completed) else t;
      [t'] + Toggle(ts[1..], id)
  }

  /** Toggling leaves the id sequence, hence id distinctness, untouched. */
  lemma ToggleKeepsIds(ts: seq<Task>, id: string)
    ensures Ids(Toggle(ts, id)) == Ids(ts)
    ensures DistinctIds(ts) ==> DistinctIds(Toggle(ts, id))
  {
    var a, b := Ids(Toggle(ts, id)), Ids(ts);
    assert forall i :: 0 <= i < |a| ==> a[i] == b[i];
  }

  /** Toggling an id that no task carries returns the list unchanged. */
  lemma ToggleAbsent(ts: seq<Task>, id: string)
    requires id !in Ids(ts)
    ensures Toggle(ts, id) == ts
  {
    var r := Toggle(ts, id);
    forall i | 0 <= i < |ts| ensures r[i] == ts[i] {
      assert Ids(ts)[i] == ts[i].id;
    }
  }

  /** Toggling a present id changes the list: the matching task's flag flips. */
  lemma TogglePresent(ts: seq<Task>, id: string, k: nat)
    requires k < |ts| && ts[k].id == id
    ensures Toggle(ts, id) != ts
    ensures Toggle(ts, id)[k].completed == !ts[k].completed
  {
  }

  /** With pairwise distinct ids, toggling the id of the task at `k`
      inverts that task's flag and changes no other position. */
  lemma ToggleUnique(ts: seq<Task>, k: nat)
    requires DistinctIds(ts) && k < |ts|
    ensures Toggle(ts, ts[k].id) == ts[k := ts[k].(completed := !ts[k].completed)]
  {
    var r, e := Toggle(ts, ts[k].id), ts[k := ts[k].(completed := !ts[k].completed)];
    forall i | 0 <= i < |ts| ensures r[i] == e[i] {
    }
  }

  /** Toggling the same id twice restores the original list. */
  lemma ToggleTwice(ts: seq<Task>, id: string)
    ensures Toggle(Toggle(ts, id), id) == ts
  {
    var r := Toggle(Toggle(ts, id), id);
    forall i | 0 <= i < |ts| ensures r[i] == ts[i] {
    }
  }

  // ---------------------------------------------------------------------
  // deleteTask
  // ---------------------------------------------------------------------

  /** The list after `deleteTask(id)`: the tasks whose id differs from
      `id`, in their original relative order. */
  function Delete(ts: seq<Task>, id: string): (r: seq<Task>)
    ensures |r| <= |ts|
  {
    if ts == [] then []
    else (if id != ts[0].id then [ts[0]] else []) + Delete(ts[1..], id)
  }

  /** A task is kept by a delete exactly when it was in the list and its id
      differs from the deleted one. */
  lemma {:induction false} DeleteMembers(ts: seq<Task>, id: string)
    ensures forall t :: t in Delete(ts, id) <==> t in ts && t.id != id
  {
    if ts != [] {
      DeleteMembers(ts[1..], id);
      assert forall t :: t in ts <==> t == ts[0] || t in ts[1..];
    }
  }

  /** Deleting distributes over concatenation: the kept tasks of the first
      part come before those of the second, so relative order is preserved. */
  lemma {:induction false} DeleteAppend(a: seq<Task>, b: seq<Task>, id: string)
    ensures Delete(a + b, id) == Delete(a, id) + Delete(b, id)
  {
    if a == [] {
      assert a + b == b;
    } else {
      assert (a + b)[0] == a[0];
      assert (a + b)[1..] == a[1..] + b;
      DeleteAppend(a[1..], b, id);
    }
  }

  /** Deleting an id that no task carries is the identity. */
  lemma {:induction false} DeleteAbsent(ts: seq<Task>, id: string)
    requires id !in Ids(ts)
    ensures Delete(ts, id) == ts
  {
    if ts != [] {
      assert Ids(ts)[0] == ts[0].id;
      assert Ids(ts[1..]) == Ids(ts)[1..];
      DeleteAbsent(ts[1..], id);
      assert ts == [ts[0]] + ts[1..];
    }
  }

  /** Deleting the same id a second time changes nothing. */
  lemma {:induction false} DeleteTwice(ts: seq<Task>, id: string)
    ensures Delete(Delete(ts, id), id) == Delete(ts, id)
  {
    var r := Delete(ts, id);
    DeleteRemovesId(ts, id);
    DeleteAbsent(r, id);
  }

  /** Deleting the id of a task that sits between two parts free of that id
      removes exactly that task. */
  lemma DeleteSplice(pre: seq<Task>, t: Task, post: seq<Task>)
    requires t.id !in Ids(pre) && t.id !in Ids(post)
    ensures Delete(pre + [t] + post, t.id) == pre + post
  {
    DeleteAbsent(pre, t.id);
    DeleteAbsent(post, t.id);
    assert Delete([t], t.id) == [] by {
      assert [t][1..] == [];
    }
    DeleteAppend(pre, [t], t.id);
    assert Delete(pre + [t], t.id) == pre;
    DeleteAppend(pre + [t], post, t.id);
    assert Delete(pre + [t] + post, t.id) == Delete(pre + [t], t.id) + Delete(post, t.id);
  }

  /** When the task at position `k` is the only one with the id, deleting
      the id removes exactly that position: the tasks before and after `k`
      stay in order and the list is one shorter. */
  lemma DeleteOnly(ts: seq<Task>, id: string, k: nat)
    requires k < |ts| && ts[k].id == id
    requires id !in Ids(ts[..k]) && id !in Ids(ts[k + 1..])
    ensures Delete(ts, id) == ts[..k] + ts[k + 1..]
    ensures |Delete(ts, id)| == |ts| - 1
  {
    var pre, t, post := ts[..k], ts[k], ts[k + 1..];
    assert ts == pre + [t] + post;
    DeleteSplice(pre, t, post);
  }

  /** With pairwise distinct ids, deleting the id of the task at `k`
      removes that task and no other. */
  lemma DeleteUnique(ts: seq<Task>, id: string, k: nat)
    requires DistinctIds(ts)
    requires k < |ts| && ts[k].id == id
    ensures Delete(ts, id) == ts[..k] + ts[k + 1..]
    ensures |Delete(ts, id)| == |ts| - 1
  {
    AbsentOutside(ts, k, 0, k);
    AbsentOutside(ts, k, k + 1, |ts|);
    assert ts[0..k] == ts[..k];
    DeleteOnly(ts, id, k);
  }

  /** With distinct ids, the id at position `k` occurs in no slice that
      leaves `k` out. */
  lemma AbsentOutside(ts: seq<Task>, k: nat, lo: nat, hi: nat)
    requires DistinctIds(ts)
    requires k < |ts| && lo <= hi <= |ts| && (hi <= k || k < lo)
    ensures ts[k].id !in Ids(ts[lo..hi])
  {
    var s := ts[lo..hi];
    forall i | 0 <= i < |s| ensures Ids(s)[i] != ts[k].id {
      assert s[i] == ts[lo + i];
    }
  }

  /** Deleting keeps pairwise distinct ids pairwise distinct. */
  lemma {:induction false} DeleteKeepsDistinct(ts: seq<Task>, id: string)
    requires DistinctIds(ts)
    ensures DistinctIds(Delete(ts, id))
  {
    if ts != [] {
      var rest := ts[1..];
      assert DistinctIds(rest) by {
        forall i, j | 0 <= i < j < |rest| ensures rest[i].id != rest[j].id {
          assert rest[i] == ts[i + 1] && rest[j] == ts[j + 1];
        }
      }
      DeleteKeepsDistinct(rest, id);
      DeleteMembers(rest, id);
      var d := Delete(rest, id);
      if id != ts[0].id {
        var r := [ts[0]] + d;
        forall i, j | 0 <= i < j < |r| ensures r[i].id != r[j].id {
          if i == 0 {
            assert r[j] == d[j - 1] && d[j - 1] in d;
            var m :| 0 <= m < |rest| && rest[m] == d[j - 1];
            assert ts[m + 1] == rest[m];
          } else {
            assert r[i] == d[i - 1] && r[j] == d[j - 1];
          }
        }
      } else {
        assert Delete(ts, id) == d;
      }
    }
  }

  /** No task with the deleted id remains. */
  lemma DeleteRemovesId(ts: seq<Task>, id: string)
    ensures id !in Ids(Delete(ts, id))
  {
    var r := Delete(ts, id);
    DeleteMembers(ts, id);
    forall i | 0 <= i < |r| ensures Ids(r)[i] != id {
      assert r[i] in r;
    }
  }
}
