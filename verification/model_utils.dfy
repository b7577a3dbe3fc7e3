/**
 * The pure helpers of the Python scorer: the label it derives from the two
 * predicted probabilities, and the three features it builds from a task
 * (feature text, hours until due, estimated minutes), with their defaults
 * and clamps.
 *
 * Parsing the due date is outside the model: `sanitize_datetime` is taken as
 * already applied, giving an optional time in milliseconds, and the clock is
 * the parameter `now`.
 */
module ModelUtils {
  import opened Wrappers
  import opened Text
  import opened TaskDoc
  import Prioritizer

  const HIGH: real := 0.75
  const LOW: real := 0.35

  /** `priority_label(urgency, importance)`, first matching rule wins; the
      five outcomes as disjoint conditions. */
  function PriorityLabel(urgency: real, importance: real): (l: Label)
    ensures l == Critical <==> urgency >= HIGH && importance >= HIGH
    ensures l == Urgent <==> urgency >= HIGH && importance < HIGH
    ensures l == Important <==> urgency < HIGH && importance >= HIGH
    ensures l == Low <==> urgency <= LOW && importance <= LOW
    ensures l == Normal <==> urgency < HIGH && importance < HIGH && (urgency > LOW || importance > LOW)
  {
    if urgency >= HIGH && importance >= HIGH then Critical
    else if urgency >= HIGH then Urgent
    else if importance >= HIGH then Important
    else if urgency <= LOW && importance <= LOW then Low
    else Normal
  }

  /** Raising either probability never moves a task down the list. */
  lemma PriorityLabelMonotone(u1: real, i1: real, u2: real, i2: real)
    requires u1 <= u2 && i1 <= i2
    ensures Rank(PriorityLabel(u2, i2)) <= Rank(PriorityLabel(u1, i1))
  {
  }

  const DEFAULT_HOURS: real := 72.0
  const MIN_HOURS: real := -240.0
  const MAX_HOURS: real := 720.0
  const MS_PER_HOUR: int := 3_600_000

  function Clamp(lo: real, x: real, hi: real): (r: real)
    requires lo <= hi
    ensures lo <= r <= hi
    ensures lo <= x <= hi ==> r == x
    ensures x < lo ==> r == lo
    ensures x > hi ==> r == hi
  {
    if x < lo then lo else if x > hi then hi else x
  }

  /** `hours_until_due`: 72 without a (parseable) due date, otherwise the
      hours from `now` to the due time, clamped to [-240, 720]. */
  function HoursUntilDue(due: Option<int>, now: int): (h: real)
    ensures due.None? ==> h == DEFAULT_HOURS
    ensures MIN_HOURS <= h <= MAX_HOURS
    ensures due.Some? && MIN_HOURS <= (due.value - now) as real / MS_PER_HOUR as real <= MAX_HOURS ==>
              h == (due.value - now) as real / MS_PER_HOUR as real
  {
    match due
    case None => DEFAULT_HOURS
    case Some(d) => Clamp(MIN_HOURS, (d - now) as real / MS_PER_HOUR as real, MAX_HOURS)
  }

  /** A later due time never gives fewer hours. */
  lemma HoursUntilDueMonotone(d1: int, d2: int, now: int)
    requires d1 <= d2
    ensures HoursUntilDue(Some(d1), now) <= HoursUntilDue(Some(d2), now)
  {
    assert (d1 - now) as real / MS_PER_HOUR as real <= (d2 - now) as real / MS_PER_HOUR as real;
  }

  /** Three days before the due time the feature is exactly the default, and
      a due time a year away reads as 720. */
  lemma HoursUntilDueExamples(now: int)
    ensures HoursUntilDue(Some(now + 72 * MS_PER_HOUR), now) == DEFAULT_HOURS
    ensures HoursUntilDue(Some(now + 365 * 24 * MS_PER_HOUR), now) == MAX_HOURS
    ensures HoursUntilDue(Some(now - 365 * 24 * MS_PER_HOUR), now) == MIN_HOURS
  {
    assert (now + 72 * MS_PER_HOUR - now) as real / MS_PER_HOUR as real == 72.0;
    assert (now + 365 * 24 * MS_PER_HOUR - now) as real / MS_PER_HOUR as real == 8760.0;
    assert (now - 365 * 24 * MS_PER_HOUR - now) as real / MS_PER_HOUR as real == -8760.0;
  }

  const DEFAULT_MINUTES: real := 30.0
  const MIN_MINUTES: real := 5.0
  const MAX_MINUTES: real := 720.0

  /** `float(payload.get("estimatedMinutes") or 30.0)` clamped to [5, 720];
      `None` stands for a missing or `null` value. */
  function MinutesFeature(estimatedMinutes: Option<real>): (m: real)
    ensures MIN_MINUTES <= m <= MAX_MINUTES
    ensures estimatedMinutes.None? || estimatedMinutes == Some(0.0) ==> m == DEFAULT_MINUTES
    ensures estimatedMinutes.Some? && MIN_MINUTES <= estimatedMinutes.value <= MAX_MINUTES ==>
              m == estimatedMinutes.value
    ensures estimatedMinutes.Some? && estimatedMinutes.value != 0.0 && estimatedMinutes.value < MIN_MINUTES ==>
              m == MIN_MINUTES
    ensures estimatedMinutes.Some? && estimatedMinutes.value > MAX_MINUTES ==> m == MAX_MINUTES
  {
    var raw := match estimatedMinutes
      case None => DEFAULT_MINUTES
      case Some(v) => if v == 0.0 then DEFAULT_MINUTES else v;
    Clamp(MIN_MINUTES, raw, MAX_MINUTES)
  }

  /** The `tags` value of the payload: a list of strings, or some other
      truthy value, of which only `str(tags)` matters. A missing or falsy
      value is the empty list. */
  datatype TagsValue = TagList(items: seq<string>) | TagOther(text: string)

  function TagsText(tags: TagsValue): string {
    match tags
    case TagList(items) => Join(items, " ")
    case TagOther(text) => text
  }

  /** The part of the scorer's input that `prepare_input` reads; `None`
      stands for a missing or `null` value, and `due` is the result of
      `sanitize_datetime`. */
  datatype PyPayload = PyPayload(
    title: Option<string>, description: Option<string>, tags: TagsValue,
    due: Option<int>, estimatedMinutes: Option<real>)

  /** The single row the models predict on. */
  datatype Features = Features(text: string, dueHours: real, estimatedMinutes: real)

  /** `" ".join([title, description, tags_text])`, before stripping. */
  function JoinedText(payload: PyPayload): string {
    Join([payload.title.GetOr(""), payload.description.GetOr(""), TagsText(payload.tags)], " ")
  }

  /** `" ".join([title, description, tags_text]).strip()`: the joined text
      with only Python whitespace removed, and only at its two ends. */
  function FeatureText(payload: PyPayload): (text: string)
    ensures Trimmed(text, IsPySpace)
    ensures var joined := JoinedText(payload);
      exists i, j | 0 <= i <= j <= |joined| ::
        text == joined[i..j] && AllSpace(joined[..i], IsPySpace) && AllSpace(joined[j..], IsPySpace)
  {
    TrimIsInfix(JoinedText(payload), IsPySpace);
    Trim(JoinedText(payload), IsPySpace)
  }

  /** `prepare_input(payload)` */
  function PrepareInput(payload: PyPayload, now: int): (f: Features)
    ensures Trimmed(f.text, IsPySpace)
    ensures MIN_HOURS <= f.dueHours <= MAX_HOURS
    ensures payload.due.None? ==> f.dueHours == DEFAULT_HOURS
    ensures MIN_MINUTES <= f.estimatedMinutes <= MAX_MINUTES
    ensures payload.estimatedMinutes.None? ==> f.estimatedMinutes == DEFAULT_MINUTES
    ensures f.text == FeatureText(payload)
    ensures f.dueHours == HoursUntilDue(payload.due, now)
    ensures f.estimatedMinutes == MinutesFeature(payload.estimatedMinutes)
  {
    Features(FeatureText(payload), HoursUntilDue(payload.due, now), MinutesFeature(payload.estimatedMinutes))
  }

  /** A task with only a (trimmed) title has that title as its text: the
      two separating spaces are stripped. */
  lemma TitleOnlyText(title: string, due: Option<int>, minutes: Option<real>)
    requires Trimmed(title, IsPySpace)
    ensures FeatureText(PyPayload(Some(title), None, TagList([]), due, minutes)) == title
  {
    var joined := Join([title, "", ""], " ");
    assert joined == title + "  " by {
      JoinCons(title, ["", ""], " ");
      JoinCons("", [""], " ");
    }
    assert AllSpace("  ", IsPySpace);
    TrimBeforeSpace(title, "  ", IsPySpace);
  }

  /** With a trimmed, non-empty title and tag text, the text is the three
      parts joined by single spaces: nothing inside is stripped. */
  lemma InnerSpacingKept(title: string, description: string, tags: seq<string>, due: Option<int>, minutes: Option<real>)
    requires title != "" && Trimmed(title, IsPySpace)
    requires Join(tags, " ") != "" && Trimmed(Join(tags, " "), IsPySpace)
    ensures FeatureText(PyPayload(Some(title), Some(description), TagList(tags), due, minutes)) ==
              title + " " + description + " " + Join(tags, " ")
  {
    var tagsText := Join(tags, " ");
    var joined := Join([title, description, tagsText], " ");
    assert joined == title + " " + description + " " + tagsText by {
      JoinCons(title, [description, tagsText], " ");
      JoinCons(description, [tagsText], " ");
    }
    assert joined[0] == title[0];
    assert joined[|joined| - 1] == tagsText[|tagsText| - 1];
    TrimOfTrimmed(joined, IsPySpace);
  }

  /** The two scorers label differently: the heuristic never says `low`
      and uses 0.8/0.7, the model says `low` below 0.35 and uses 0.75. */
  lemma LabelSchemesDiffer()
    ensures PriorityLabel(0.3, 0.3) == Low && Prioritizer.FallbackLabel(0.3, 0.3) == Normal
    ensures PriorityLabel(0.8, 0.7) == Urgent && Prioritizer.FallbackLabel(0.8, 0.7) == Critical
    ensures PriorityLabel(0.76, 0.76) == Critical && Prioritizer.FallbackLabel(0.76, 0.76) == Urgent
  {
  }
}
