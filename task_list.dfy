/**
 * The dashboard's task table: the status filter, the badge variant for a status,
 * and the rows the table body renders. Date formatting (`toLocaleDateString`)
 * is left to the caller: `createdAt` is the text already shown.
 */
module TaskList {

  /** A task as the table receives it. */
  datatype ListedTask = ListedTask(id: int, title: string, description: string, totalDuration: string,
                                   createdAt: string, status: string)

  /** `a` is `b` with some elements left out, the rest in their order. */
  predicate IsSubsequence<T(==)>(a: seq<T>, b: seq<T>)
    decreases |b|
  {
    a == [] || (b != [] && ((a[0] == b[0] && IsSubsequence(a[1..], b[1..])) || IsSubsequence(a, b[1..])))
  }

  /** `tasks.filter(task => task.status === status)`. */
  function WithStatus(tasks: seq<ListedTask>, status: string): (r: seq<ListedTask>)
    ensures forall i :: 0 <= i < |r| ==> r[i].status == status
    ensures forall t :: multiset(r)[t] == (if t.status == status then multiset(tasks)[t] else 0)
    ensures IsSubsequence(r, tasks)
  {
    if tasks == [] then []
    else
      var rest := WithStatus(tasks[1..], status);
      assert tasks == [tasks[0]] + tasks[1..];
      if tasks[0].status == status then
        var r := [tasks[0]] + rest;
        assert r[1..] == rest;
        r
      else
        assert rest == [] || IsSubsequence(rest, tasks[1..]);
        rest
  }

  /** A list whose tasks all have the status is its own filter. */
  lemma {:induction false} WithStatusOfUniform(tasks: seq<ListedTask>, status: string)
    requires forall i :: 0 <= i < |tasks| ==> tasks[i].status == status
    ensures WithStatus(tasks, status) == tasks
  {
    if tasks != [] {
      WithStatusOfUniform(tasks[1..], status);
      assert [tasks[0]] + tasks[1..] == tasks;
    }
  }

  /** The memoised `filteredTasks`: no filter, or "all", shows every task. */
  function Filtered(tasks: seq<ListedTask>, statusFilter: string): (r: seq<ListedTask>)
    ensures statusFilter == "" || statusFilter == "all" ==> r == tasks
    ensures statusFilter != "" && statusFilter != "all" ==> r == WithStatus(tasks, statusFilter)
  {
    if statusFilter == "" || statusFilter == "all" then tasks else WithStatus(tasks, statusFilter)
  }

  /** Filtering what is already filtered by the same choice changes nothing. */
  lemma FilterIdempotent(tasks: seq<ListedTask>, statusFilter: string)
    ensures Filtered(Filtered(tasks, statusFilter), statusFilter) == Filtered(tasks, statusFilter)
  {
    if statusFilter != "" && statusFilter != "all" {
      WithStatusOfUniform(WithStatus(tasks, statusFilter), statusFilter);
    }
  }

  /** A filtered list never holds a task the full list does not, and a task of the chosen status is kept. */
  lemma FilterKeepsExactlyMatching(tasks: seq<ListedTask>, statusFilter: string, t: ListedTask)
    requires statusFilter != "" && statusFilter != "all"
    ensures t in Filtered(tasks, statusFilter) <==> t in tasks && t.status == statusFilter
  {
    var r := WithStatus(tasks, statusFilter);
    assert t in r <==> multiset(r)[t] > 0;
    assert t in tasks <==> multiset(tasks)[t] > 0;
  }

  /** The `variants` object of `getStatusBadge`. */
  const Variants: map<string, string> := map["done" := "success", "in-progress" := "warning", "to-do" := "secondary"]

  /** `variants[status] || 'primary'`: the Bootstrap variant of a status badge. */
  function BadgeVariant(status: string): (v: string)
    ensures status == "done" ==> v == "success"
    ensures status == "in-progress" ==> v == "warning"
    ensures status == "to-do" ==> v == "secondary"
    ensures status !in {"done", "in-progress", "to-do"} ==> v == "primary"
  {
    if status in Variants && Variants[status] != "" then Variants[status] else "primary"
  }

  /** Labels the backend does not use fall back to the primary variant. */
  lemma UnknownStatusIsPrimary()
    ensures BadgeVariant("in progress") == "primary"
    ensures BadgeVariant("Done") == "primary"
    ensures BadgeVariant("") == "primary"
  {
  }

  /** A badge: its variant and the status text it shows. */
  datatype Badge = Badge(variant: string, text: string)

  /** A row of the table body. */
  datatype Row =
    | TaskRow(key: int, title: string, description: string, totalDuration: string, createdAt: string, badge: Badge)
    | EmptyRow(colSpan: nat, message: string)

  const NoTasks := "No tasks found."

  /** The row one task renders as. */
  function RowOf(t: ListedTask): Row
  {
    TaskRow(t.id, t.title, t.description, t.totalDuration, t.createdAt, Badge(BadgeVariant(t.status), t.status))
  }

  /** The table body: one row per task in order, or the single "No tasks found." row. */
  function Rows(filtered: seq<ListedTask>): (rows: seq<Row>)
    ensures filtered == [] ==> rows == [EmptyRow(5, NoTasks)]
    ensures filtered != [] ==> |rows| == |filtered| && forall i :: 0 <= i < |rows| ==>
      rows[i].TaskRow? && rows[i].key == filtered[i].id && rows[i].title == filtered[i].title
      && rows[i].description == filtered[i].description && rows[i].totalDuration == filtered[i].totalDuration
      && rows[i].createdAt == filtered[i].createdAt
      && rows[i].badge == Badge(BadgeVariant(filtered[i].status), filtered[i].status)
  {
    if |filtered| > 0 then seq(|filtered|, i requires 0 <= i < |filtered| => RowOf(filtered[i]))
    else [EmptyRow(5, NoTasks)]
  }

  /** Under a status filter, every task row's badge shows that status. */
  lemma FilteredRowsShowStatus(tasks: seq<ListedTask>, statusFilter: string)
    requires statusFilter != "" && statusFilter != "all"
    ensures var rows := Rows(Filtered(tasks, statusFilter));
      forall i :: 0 <= i < |rows| && rows[i].TaskRow? ==> rows[i].badge.text == statusFilter
  {
  }
}
