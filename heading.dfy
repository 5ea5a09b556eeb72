/** The derived part of the view: one rendered row per task and the list
    heading "<count> <noun> remaining". */
module Heading {
  import opened TaskList

  /** The properties one rendered row of the list receives; `key` is the
      value the view layer uses to tell rows apart. */
  datatype TodoItem = TodoItem(id: string, name: string, completed: bool, key: string)

  /** The rendered rows: one per task, in list order, each carrying the
      task's fields and keyed by its id. */
  function Rows(ts: seq<Task>): (rows: seq<TodoItem>)
    ensures |rows| == |ts|
    ensures forall i :: 0 <= i < |ts| ==>
      rows[i].id == ts[i].id && rows[i].name == ts[i].name &&
      rows[i].completed == ts[i].completed && rows[i].key == ts[i].id
  {
    if ts == [] then []
    else [TodoItem(ts[0].id, ts[0].name, ts[0].completed, ts[0].id)] + Rows(ts[1..])
  }

  /** Distinct task ids give distinct row keys. */
  lemma DistinctKeys(ts: seq<Task>)
    requires DistinctIds(ts)
    ensures forall i, j :: 0 <= i < j < |Rows(ts)| ==> Rows(ts)[i].key != Rows(ts)[j].key
  {
  }

  /** The noun that follows the count. */
  function Noun(n: nat): (s: string)
    ensures s == "task" <==> n == 1
    ensures s == "tasks" <==> n != 1
  {
    if n != 1 then "tasks" else "task"
  }

  /** What the heading shows: a count and the noun that goes with it. */
  datatype ListHeading = ListHeading(count: nat, noun: string)

  /** The heading of a list. The count is the length of the whole list,
      completed tasks included; the noun is chosen from the number of
      rendered rows. */
  function HeadingOf(ts: seq<Task>): (h: ListHeading)
    ensures h.count == |ts|
    ensures h.noun == "task" <==> |ts| == 1
    ensures h.noun == "tasks" <==> |ts| != 1
  {
    ListHeading(|ts|, Noun(|Rows(ts)|))
  }

  /** The heading does not depend on the completion flags: toggling a task
      never changes it. */
  lemma HeadingIgnoresCompletion(ts: seq<Task>, id: string)
    ensures HeadingOf(Toggle(ts, id)) == HeadingOf(ts)
  {
  }

  /** After an add the count goes up by one, whatever the list. */
  lemma HeadingCountAfterAdd(ts: seq<Task>, suffix: string, name: string)
    ensures HeadingOf(Add(ts, suffix, name)).count == HeadingOf(ts).count + 1
  {
  }

  /** After deleting a present id from a list with distinct ids the count
      goes down by one. */
  lemma HeadingCountAfterDelete(ts: seq<Task>, id: string, k: nat)
    requires DistinctIds(ts) && k < |ts| && ts[k].id == id
    ensures HeadingOf(Delete(ts, id)).count == HeadingOf(ts).count - 1
  {
    DeleteUnique(ts, id, k);
  }

  // ---------------------------------------------------------------------
  // Decimal text of the count
  // ---------------------------------------------------------------------

  predicate IsDigit(c: char)
  {
    '0' <= c <= '9'
  }

  function DigitChar(d: nat): (c: char)
    requires d < 10
    ensures IsDigit(c)
  {
    ('0' as int + d) as char
  }

  function DigitValue(c: char): (d: nat)
    requires IsDigit(c)
    ensures d < 10
  {
    c as int - '0' as int
  }

  /** The decimal text of `n`, as a template string shows a non-negative
      integer: at least one digit, no leading zero. */
  function NatToString(n: nat): (s: string)
    decreases n
    ensures |s| >= 1
    ensures forall i :: 0 <= i < |s| ==> IsDigit(s[i])
    ensures s[0] == '0' <==> n == 0
    ensures n == 0 ==> s == "0"
  {
    if n < 10 then [DigitChar(n)] else NatToString(n / 10) + [DigitChar(n % 10)]
  }

  /** Reads a string of decimal digits back as a number. */
  function ParseNat(s: string): (n: nat)
    requires forall i :: 0 <= i < |s| ==> IsDigit(s[i])
  {
    if s == [] then 0 else 10 * ParseNat(s[..|s| - 1]) + DigitValue(s[|s| - 1])
  }

  /** The decimal text reads back as the number it was made from. */
  lemma {:induction false} ParseNatToString(n: nat)
    ensures ParseNat(NatToString(n)) == n
    decreases n
  {
    var s := NatToString(n);
    if n < 10 {
      assert s[..0] == [];
    } else {
      ParseNatToString(n / 10);
      assert s[..|s| - 1] == NatToString(n / 10);
    }
  }

  /** The text of the heading: the decimal count of all tasks, a space,
      the noun and " remaining". */
  function HeadingText(ts: seq<Task>): (s: string)
    ensures var k := |NatToString(|ts|)|;
      k < |s| &&
      (forall i :: 0 <= i < k ==> IsDigit(s[i])) &&
      ParseNat(s[..k]) == |ts| &&
      s[k..] == " " + (if |ts| == 1 then "task" else "tasks") + " remaining"
  {
    var h := HeadingOf(ts);
    var d := NatToString(h.count);
    var r := d + " " + h.noun + " remaining";
    ParseNatToString(h.count);
    assert r[..|d|] == d;
    r
  }
}
