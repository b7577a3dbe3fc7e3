/**
 * The list logic of the frontend's main screen: the order the tasks are shown
 * in (by priority label, then by due date, keeping the server's order among
 * ties), the request a completion checkbox sends, and where a submitted form
 * goes.
 *
 * A listed task is the part of the server's JSON the screen reads: its id,
 * its label (any string, or missing) and its due date as milliseconds
 * (`None` for a missing, `null` or empty date).
 */
module App {
  import opened Wrappers
  import opened TaskDoc
  import TaskController
  import TaskForm
  import Sorting

  datatype Listed = Listed(id: string, priorityLabel: Option<string>, dueDate: Option<int>, completed: bool)

  const PriorityOrder: seq<string> := ["critical", "urgent", "important", "normal", "low"]

  /** `xs.indexOf(x)`: the first position holding `x`, -1 when there is none
      or `x` is missing. */
  function IndexOf(xs: seq<string>, x: Option<string>): (i: int)
    ensures -1 <= i < |xs|
    ensures i == -1 <==> x.None? || x.value !in xs
    ensures 0 <= i ==> x == Some(xs[i]) && forall j | 0 <= j < i :: xs[j] != x.value
  {
    if x.None? || |xs| == 0 then -1
    else if xs[0] == x.value then 0
    else
      var i := IndexOf(xs[1..], x);
      assert x.value in xs <==> x.value in xs[1..] by {
        assert xs == [xs[0]] + xs[1..];
      }
      if i == -1 then -1 else i + 1
  }

  /** Position of a task's label in the display order. */
  function DisplayRank(t: Listed): int {
    IndexOf(PriorityOrder, t.priorityLabel)
  }

  /** The five labels a scorer writes are ranked as `TaskDoc.Rank` orders
      them. */
  lemma DisplayRankOfLabel(t: Listed, l: Label)
    requires t.priorityLabel == Some(LabelName(l))
    ensures DisplayRank(t) == Rank(l)
  {
    var o := PriorityOrder;
    assert o[0] == "critical" && o[1] == "urgent" && o[2] == "important" && o[3] == "normal" && o[4] == "low";
  }

  /** Any other label, and a missing one, ranks -1. */
  lemma DisplayRankOfOther(t: Listed)
    requires forall l: Label :: t.priorityLabel != Some(LabelName(l))
    ensures DisplayRank(t) == -1
  {
    assert PriorityOrder == [LabelName(Critical), LabelName(Urgent), LabelName(Important), LabelName(Normal), LabelName(Low)];
  }

  /** `new Date(t.dueDate || 0)` in milliseconds. */
  function DueKey(t: Listed): int {
    t.dueDate.GetOr(0)
  }

  /** The comparator of `sortedTasks`: negative when `a` goes first. */
  function Compare(a: Listed, b: Listed): int {
    var ra, rb := DisplayRank(a), DisplayRank(b);
    if ra != rb then ra - rb else DueKey(a) - DueKey(b)
  }

  /** The comparator orders by rank, then by due time, both ascending. */
  lemma CompareMeaning(a: Listed, b: Listed)
    ensures Compare(a, b) < 0 <==>
      DisplayRank(a) < DisplayRank(b) || (DisplayRank(a) == DisplayRank(b) && DueKey(a) < DueKey(b))
    ensures Compare(a, b) == 0 <==> DisplayRank(a) == DisplayRank(b) && DueKey(a) == DueKey(b)
    ensures Compare(b, a) == -Compare(a, b)
  {
  }

  /** `a` may stay before `b`: the comparator does not return a positive
      number. */
  predicate Precedes(a: Listed, b: Listed) {
    Compare(a, b) <= 0
  }

  /** The comparator is consistent, so the sort is well defined; two tasks
      tie exactly when they have the same rank and due time. */
  lemma PrecedesIsConsistent()
    ensures Sorting.TotalPreorder(Precedes)
    ensures forall a, b :: Precedes(a, b) && Precedes(b, a) <==> DisplayRank(a) == DisplayRank(b) && DueKey(a) == DueKey(b)
  {
  }

  /** `[...tasks].sort(comparator)`: a copy of the list in display order,
      holding the same tasks. */
  function SortTasks(tasks: seq<Listed>): (r: seq<Listed>)
    ensures forall i, j | 0 <= i < j < |r| :: Compare(r[i], r[j]) <= 0
    ensures multiset(r) == multiset(tasks)
  {
    PrecedesIsConsistent();
    var r := Sorting.Sort(tasks, Precedes);
    assert forall i, j | 0 <= i < j < |r| :: Precedes(r[i], r[j]);
    r
  }

  /** Stability: tasks with the same rank and due time keep the order the
      server sent them in. */
  lemma SortTasksStable(tasks: seq<Listed>, x: Listed)
    ensures Sorting.Ties(SortTasks(tasks), x, Precedes) == Sorting.Ties(tasks, x, Precedes)
  {
    PrecedesIsConsistent();
    Sorting.SortKeepsTies(tasks, x, Precedes);
  }

  /** A task whose label is not one of the five is shown before every task
      that has one of them. */
  lemma UnknownLabelFirst(tasks: seq<Listed>, i: nat, j: nat)
    requires i < |SortTasks(tasks)| && j < |SortTasks(tasks)|
    requires DisplayRank(SortTasks(tasks)[i]) == -1 && DisplayRank(SortTasks(tasks)[j]) != -1
    ensures i < j
  {
  }

  /** Among tasks with the same label the earlier due time is shown first,
      a missing due time counting as the epoch. */
  lemma SameLabelByDueDate(tasks: seq<Listed>, i: nat, j: nat)
    requires i < |SortTasks(tasks)| && j < |SortTasks(tasks)|
    requires SortTasks(tasks)[i].priorityLabel == SortTasks(tasks)[j].priorityLabel
    requires DueKey(SortTasks(tasks)[i]) < DueKey(SortTasks(tasks)[j])
    ensures i < j
  {
  }

  // ---------------------------------------------------------------------
  // Requests

  /** `handleToggleComplete(task)`: the id of the task and a body that only
      sets `completed` to the opposite of what is shown. */
  function ToggleRequest(task: Listed): (req: (string, Doc))
    ensures req.0 == task.id
    ensures req.1.completed == Val(!task.completed)
    ensures req.1 == EmptyDoc.(completed := req.1.completed)
  {
    (task.id, EmptyDoc.(completed := Val(!task.completed)))
  }

  /** Toggling is never refused for a stored task, never scores it again,
      and flips `completed` with the `completedAt` rules of the update. */
  lemma ToggleKeepsScores(task: Listed, stored: Doc, now: int, classify: Doc -> Classification)
    ensures var body := ToggleRequest(task).1;
      var r := TaskController.UpdateTask(Some(stored), body, now, classify);
      && !TaskController.ShouldReclassify(body)
      && r.Ok?
      && var after := TaskController.Stored(stored, r.value);
      && after.completed == Val(!task.completed)
      && after.urgency == stored.urgency
      && after.importance == stored.importance
      && after.priorityLabel == stored.priorityLabel
      && (task.completed ==> after.completedAt == Null)
      && (!task.completed && !stored.completedAt.Val? ==> after.completedAt == Val(now))
  {
    TaskController.CompletionOnlyUpdateKeepsScores(stored, !task.completed, now, classify);
  }

  /** Where `handleCreateOrUpdate` sends a submitted payload. */
  datatype Request = CreateRequest(body: Doc) | UpdateRequest(id: string, body: Doc)

  /** An update while a task is being edited, a creation otherwise. */
  function SubmitRoute(editingId: Option<string>, payload: Doc): (req: Request)
    ensures req.body == payload
    ensures req.UpdateRequest? <==> editingId.Some?
    ensures req.UpdateRequest? ==> req.id == editingId.value
  {
    match editingId
    case Some(id) => UpdateRequest(id, payload)
    case None => CreateRequest(payload)
  }

  /** A new task submitted from the form is accepted exactly when its title
      is not empty; it is created completed with `completedAt` set exactly
      when the box was ticked. */
  lemma SubmittedFormCreates(form: TaskForm.FormValues, tagsInput: string, parseLocal: string -> DateValue,
                             now: int, classify: Doc -> Classification)
    requires TaskForm.SubmitPayload(form, tagsInput, parseLocal).Some?
    ensures var p := TaskForm.SubmitPayload(form, tagsInput, parseLocal).value;
      var r := TaskController.CreateTask(SubmitRoute(None, p).body, now, classify);
      && (r.Ok? <==> form.title != "")
      && (r.Ok? ==> (r.value.completedAt == Val(now) <==> form.completed))
      && (r.Ok? ==> r.value.tags == Val(TaskForm.NormalizeTags(tagsInput)))
  {
  }
}
