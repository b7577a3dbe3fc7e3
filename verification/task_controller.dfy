/**
 * The decisions of the backend's task handlers for creating and updating a
 * task: what is rejected and with which status, when the task is scored
 * again, how `completedAt` follows `completed`, and in which order request
 * body, classification and stored task are merged.
 *
 * The store is not modelled: the task found by id is a parameter, and the
 * result of a handler is the object it hands to the store (the new task for
 * a create, the patch given to `existing.set` for an update). The scorer is
 * the parameter `classify` and the clock the parameter `now`.
 */
module TaskController {
  import opened Wrappers
  import opened TaskDoc

  /** Why a request is refused. */
  datatype Rejection = TitleRequired | TitleEmpty | TaskNotFound

  function Status(r: Rejection): (code: int)
    ensures code == 404 <==> r == TaskNotFound
    ensures code == 400 <==> r != TaskNotFound
  {
    match r
    case TitleRequired => 400
    case TitleEmpty => 400
    case TaskNotFound => 404
  }

  /** A non-empty string title, as creation demands. */
  predicate HasTextTitle(payload: Doc) {
    payload.title.Val? && payload.title.value.Text? && payload.title.value.s != ""
  }

  /** `completedAt` of a new task: now when the body says it is completed,
      `undefined` otherwise. */
  function CreatedCompletedAt(payload: Doc, now: int): Field<int> {
    if payload.completed == Val(true) then Val(now) else Undef
  }

  /** Creating a task from a request body: refused without a non-empty
      string title; otherwise `{...payload, ...classification, completedAt}`. */
  function CreateTask(payload: Doc, now: int, classify: Doc -> Classification): (r: Result<Doc, Rejection>)
    ensures r.Err? <==> !HasTextTitle(payload)
    ensures r.Err? ==> r.error == TitleRequired
    ensures r.Ok? ==>
      var task := r.value;
      var c := classify(payload);
      && task.title == payload.title && task.description == payload.description
      && task.dueDate == payload.dueDate && task.estimatedMinutes == payload.estimatedMinutes
      && task.tags == payload.tags && task.completed == payload.completed
      && task.createdAt == payload.createdAt
      && task.urgency == OptionField(c.urgency)
      && task.importance == OptionField(c.importance)
      && task.priorityLabel == OptionField(c.priorityLabel)
      && task.completedAt == (if payload.completed == Val(true) then Val(now) else Undef)
  {
    if !HasTextTitle(payload) then Err(TitleRequired)
    else
      var classification := ClassificationDoc(classify(payload));
      Ok(Spread(Spread(payload, classification), EmptyDoc.(completedAt := CreatedCompletedAt(payload, now))))
  }

  /** The body defines (possibly as `null`) one of the five properties the
      score depends on. */
  predicate ShouldReclassify(payload: Doc) {
    || payload.title.Defined()
    || payload.description.Defined()
    || payload.dueDate.Defined()
    || payload.estimatedMinutes.Defined()
    || payload.tags.Defined()
  }

  /** A title that is present but falsy: the update refuses it. */
  predicate EmptyTitle(payload: Doc) {
    payload.title.Defined() && !TitleTruthy(payload.title)
  }

  /** `completedAt` in the update's patch: set to now when the body marks
      the task completed and it has no completion time yet, cleared to `null`
      when the body marks it not completed, otherwise as the body gave it. */
  function UpdatedCompletedAt(existing: Doc, payload: Doc, now: int): (f: Field<int>)
    ensures payload.completed == Val(true) && !existing.completedAt.Val? ==> f == Val(now)
    ensures payload.completed == Val(true) && existing.completedAt.Val? ==> f == payload.completedAt
    ensures payload.completed == Val(false) ==> f == Null
    ensures !payload.completed.Val? ==> f == payload.completedAt
  {
    if payload.completed == Val(true) && !existing.completedAt.Val? then Val(now)
    else if payload.completed == Val(false) then Null
    else payload.completedAt
  }

  /** Updating the task `existing` (None when no task has the id): the empty
      title check comes before the lookup; the patch is
      `{...payload, ...classification}`, where the classification is of
      `{...existing, ...payload}` and only taken when `ShouldReclassify`. */
  function UpdateTask(existing: Option<Doc>, payload: Doc, now: int, classify: Doc -> Classification)
    : (r: Result<Doc, Rejection>)
    ensures EmptyTitle(payload) ==> r == Err(TitleEmpty)
    ensures !EmptyTitle(payload) && existing.None? ==> r == Err(TaskNotFound)
    ensures r.Ok? <==> !EmptyTitle(payload) && existing.Some?
    ensures r.Ok? ==>
      var patch := r.value;
      && patch.title == payload.title && patch.description == payload.description
      && patch.dueDate == payload.dueDate && patch.estimatedMinutes == payload.estimatedMinutes
      && patch.tags == payload.tags && patch.completed == payload.completed
      && patch.createdAt == payload.createdAt
      && patch.completedAt == UpdatedCompletedAt(existing.value, payload, now)
    ensures r.Ok? && ShouldReclassify(payload) ==>
      var c := classify(Spread(existing.value, payload));
      && r.value.urgency == OptionField(c.urgency)
      && r.value.importance == OptionField(c.importance)
      && r.value.priorityLabel == OptionField(c.priorityLabel)
    ensures r.Ok? && !ShouldReclassify(payload) ==>
      && r.value.urgency == payload.urgency
      && r.value.importance == payload.importance
      && r.value.priorityLabel == payload.priorityLabel
  {
    if EmptyTitle(payload) then Err(TitleEmpty)
    else match existing
      case None => Err(TaskNotFound)
      case Some(task) =>
        var classification :=
          if ShouldReclassify(payload) then ClassificationDoc(classify(Spread(task, payload))) else EmptyDoc;
        var body := payload.(completedAt := UpdatedCompletedAt(task, payload, now));
        Ok(Spread(body, classification))
  }

  /** What `existing.set(patch)` leaves in the task: each key of the patch
      replaces the stored one, every other key is kept. */
  function Stored(existing: Doc, patch: Doc): Doc {
    Spread(existing, patch)
  }

  /** An update that only flips `completed` keeps the stored scores and every
      other stored property apart from `completed` and `completedAt`. */
  lemma CompletionOnlyUpdateKeepsScores(existing: Doc, done: bool, now: int, classify: Doc -> Classification)
    ensures var r := UpdateTask(Some(existing), EmptyDoc.(completed := Val(done)), now, classify);
      && r.Ok?
      && var task := Stored(existing, r.value);
      && task.urgency == existing.urgency
      && task.importance == existing.importance
      && task.priorityLabel == existing.priorityLabel
      && task == existing.(completed := Val(done), completedAt := task.completedAt)
      && (done && existing.completedAt.Val? ==> task.completedAt == existing.completedAt)
      && (done && !existing.completedAt.Val? ==> task.completedAt == Val(now))
      && (!done ==> task.completedAt == Null)
  {
  }

  /** What the body does not send stays as stored: the five scored
      properties, `completed` and `createdAt` when absent from the body, the
      scores when nothing triggers a new scoring, and `completedAt` unless
      the body marks the task not completed or completes it for the first
      time. */
  lemma UpdateKeepsUnsentFields(existing: Doc, payload: Doc, now: int, classify: Doc -> Classification)
    requires !EmptyTitle(payload)
    ensures var r := UpdateTask(Some(existing), payload, now, classify);
      && r.Ok?
      && var task := Stored(existing, r.value);
      && (payload.title.Absent? ==> task.title == existing.title)
      && (payload.description.Absent? ==> task.description == existing.description)
      && (payload.dueDate.Absent? ==> task.dueDate == existing.dueDate)
      && (payload.estimatedMinutes.Absent? ==> task.estimatedMinutes == existing.estimatedMinutes)
      && (payload.tags.Absent? ==> task.tags == existing.tags)
      && (payload.completed.Absent? ==> task.completed == existing.completed)
      && (payload.createdAt.Absent? ==> task.createdAt == existing.createdAt)
      && (!ShouldReclassify(payload) && payload.urgency.Absent? ==> task.urgency == existing.urgency)
      && (!ShouldReclassify(payload) && payload.importance.Absent? ==> task.importance == existing.importance)
      && (!ShouldReclassify(payload) && payload.priorityLabel.Absent? ==> task.priorityLabel == existing.priorityLabel)
      && (payload.completedAt.Absent? && !payload.completed.Val? ==> task.completedAt == existing.completedAt)
      && (payload.completedAt.Absent? && payload.completed == Val(true) && existing.completedAt.Val? ==>
            task.completedAt == existing.completedAt)
  {
  }

  /** An empty title is refused with 400 even when no task has the id. */
  lemma EmptyTitleBeforeLookup(payload: Doc, now: int, classify: Doc -> Classification)
    requires payload.title == Val(Text(""))
    ensures Status(UpdateTask(None, payload, now, classify).error) == 400
  {
  }
}
