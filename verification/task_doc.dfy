/**
 * The task document as the backend and the frontend see it: a JavaScript
 * object whose properties may be missing, `undefined`, `null` or set, the
 * object spread `{...base, ...top}` that every merge of the controller uses,
 * the five priority labels, and the classification a scorer hands back.
 */
module TaskDoc {
  import opened Wrappers

  /** One property of a JavaScript object. `Absent`: the key is not there.
      `Undef`: the key is there and holds `undefined` (reading it gives the
      same as `Absent`, but a spread copies it). `Null`: JSON `null`. */
  datatype Field<+T> = Absent | Undef | Null | Val(value: T) {

    /** `obj.key !== undefined` */
    predicate Defined() {
      Null? || Val?
    }

    /** `obj.key ?? fallback` */
    function Or(fallback: T): T {
      if Val? then value else fallback
    }
  }

  /** One key of `{...base, ...top}`: a key present in `top` wins, even when
      it holds `undefined`. */
  function Over<T>(base: Field<T>, top: Field<T>): Field<T> {
    if top.Absent? then base else top
  }

  /** `new Date(x)` for a value that is set: a time in milliseconds since
      the epoch, or the invalid date (`getTime()` is NaN) of an unparseable
      string. An empty-string date is represented by `Null`: both are falsy
      and both end up as "no due date". */
  datatype DateValue = Date(ms: int) | InvalidDate

  /** A title as the request body carries it: a string, or a JSON value of
      another type of which only its truthiness matters here. */
  datatype Title = Text(s: string) | NonText(truthy: bool)

  /** JavaScript truthiness of a title property. */
  predicate TitleTruthy(t: Field<Title>) {
    match t
    case Val(Text(s)) => s != ""
    case Val(NonText(truthy)) => truthy
    case _ => false
  }

  /** The properties of a task that the core reads or writes; used alike for
      request bodies, stored tasks and the patches applied to them. Times are
      milliseconds since the epoch. */
  datatype Doc = Doc(
    title: Field<Title>,
    description: Field<string>,
    dueDate: Field<DateValue>,
    estimatedMinutes: Field<real>,
    tags: Field<seq<string>>,
    completed: Field<bool>,
    completedAt: Field<int>,
    urgency: Field<real>,
    importance: Field<real>,
    priorityLabel: Field<string>,
    createdAt: Field<int>)

  /** `{}` */
  const EmptyDoc := Doc(Absent, Absent, Absent, Absent, Absent, Absent, Absent, Absent, Absent, Absent, Absent)

  /** `{...base, ...top}` */
  function Spread(base: Doc, top: Doc): Doc {
    Doc(
      Over(base.title, top.title),
      Over(base.description, top.description),
      Over(base.dueDate, top.dueDate),
      Over(base.estimatedMinutes, top.estimatedMinutes),
      Over(base.tags, top.tags),
      Over(base.completed, top.completed),
      Over(base.completedAt, top.completedAt),
      Over(base.urgency, top.urgency),
      Over(base.importance, top.importance),
      Over(base.priorityLabel, top.priorityLabel),
      Over(base.createdAt, top.createdAt))
  }

  /** The spread is a monoid with `{}` as unit, and spreading an object over
      itself changes nothing. */
  lemma SpreadAlgebra(a: Doc, b: Doc, c: Doc)
    ensures Spread(a, EmptyDoc) == a && Spread(EmptyDoc, a) == a
    ensures Spread(Spread(a, b), c) == Spread(a, Spread(b, c))
    ensures Spread(a, a) == a
  {
  }

  /** The priority labels, in the order the task list displays them. */
  datatype Label = Critical | Urgent | Important | Normal | Low

  /** The string stored in `priorityLabel`. */
  function LabelName(l: Label): string {
    match l
    case Critical => "critical"
    case Urgent => "urgent"
    case Important => "important"
    case Normal => "normal"
    case Low => "low"
  }

  /** Position of a label in the display order: critical first, low last. */
  function Rank(l: Label): nat {
    match l
    case Critical => 0
    case Urgent => 1
    case Important => 2
    case Normal => 3
    case Low => 4
  }

  /** The object `{ urgency, importance, priorityLabel }` a scorer returns;
      `None` stands for a property that holds `undefined`. */
  datatype Classification = Classification(urgency: Option<real>, importance: Option<real>, priorityLabel: Option<string>)

  function OptionField<T>(o: Option<T>): (f: Field<T>)
    ensures f.Defined() <==> o.Some?
  {
    match o
    case Some(v) => Val(v)
    case None => Undef
  }

  /** The classification as an object to spread: its three keys are always
      present, holding `undefined` where the scorer gave no value. */
  function ClassificationDoc(c: Classification): (d: Doc)
    ensures d.urgency.Val? <==> c.urgency.Some?
    ensures d.priorityLabel.Val? <==> c.priorityLabel.Some?
    ensures !d.urgency.Absent? && !d.importance.Absent? && !d.priorityLabel.Absent?
    ensures d == EmptyDoc.(urgency := d.urgency, importance := d.importance, priorityLabel := d.priorityLabel)
  {
    EmptyDoc.(urgency := OptionField(c.urgency), importance := OptionField(c.importance),
              priorityLabel := OptionField(c.priorityLabel))
  }
}
