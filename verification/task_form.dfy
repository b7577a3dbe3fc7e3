/**
 * The data handling of the task form: the tags typed as comma-separated
 * text, the due date shown in a `datetime-local` input, and the payload the
 * form submits.
 *
 * The browser's date handling is a parameter: `local` gives the local
 * calendar fields of a time, and `parseLocal` is `new Date(s)` of the text in
 * the date input.
 */
module TaskForm {
  import opened Wrappers
  import opened Text
  import opened Decimal
  import opened TaskDoc

  // ---------------------------------------------------------------------
  // Tags

  /** `.map((tag) => tag.trim()).filter(Boolean)`: each piece trimmed, the
      empty results dropped, the order kept. */
  function Tidy(pieces: seq<string>): (tags: seq<string>)
    ensures |tags| <= |pieces|
    ensures forall k | 0 <= k < |tags| :: tags[k] != "" && Trimmed(tags[k], IsJsSpace)
  {
    if |pieces| == 0 then []
    else
      var t := Trim(pieces[0], IsJsSpace);
      (if t == "" then [] else [t]) + Tidy(pieces[1..])
  }

  /** Trimming adds no character, so comma-free pieces give comma-free
      tags. */
  lemma {:induction false} TidyNoComma(pieces: seq<string>)
    requires forall k | 0 <= k < |pieces| :: ',' !in pieces[k]
    ensures forall k | 0 <= k < |Tidy(pieces)| :: ',' !in Tidy(pieces)[k]
  {
    if |pieces| > 0 {
      TrimKeepsOnlyInputChars(pieces[0], IsJsSpace, ',');
      assert forall k | 0 <= k < |pieces[1..]| :: pieces[1..][k] == pieces[k + 1];
      TidyNoComma(pieces[1..]);
    }
  }

  /** `normalizeTags(value)`: the comma-separated pieces, trimmed, without
      the empty ones. */
  function NormalizeTags(value: string): (tags: seq<string>)
    ensures forall k | 0 <= k < |tags| :: tags[k] != "" && Trimmed(tags[k], IsJsSpace) && ',' !in tags[k]
    ensures |tags| <= Occurrences(value, ',') + 1
  {
    var pieces := Split(value, ',');
    TidyNoComma(pieces);
    Tidy(pieces)
  }

  /** The text the tags field starts with when a task is edited:
      `tags.join(', ')`. */
  function TagsInputOf(tags: seq<string>): string {
    Join(tags, ", ")
  }

  /** A tag that survives normalisation unchanged. */
  predicate CleanTag(tag: string) {
    tag != "" && Trimmed(tag, IsJsSpace) && ',' !in tag
  }

  /** Every tag is clean, stated first-and-rest for the inductions below. */
  predicate AllClean(tags: seq<string>) {
    |tags| == 0 || (CleanTag(tags[0]) && AllClean(tags[1..]))
  }

  lemma {:induction false} AllCleanFromIndex(tags: seq<string>)
    requires forall k | 0 <= k < |tags| :: CleanTag(tags[k])
    ensures AllClean(tags)
  {
    if |tags| > 0 {
      assert forall k | 0 <= k < |tags[1..]| :: tags[1..][k] == tags[k + 1];
      AllCleanFromIndex(tags[1..]);
    }
  }

  /** The pieces `split(',')` cuts from `pre + tags.join(', ')`: the first
      tag after `pre`, every other after the space of the separator. */
  function Padded(pre: string, tags: seq<string>): seq<string>
    decreases |tags|
  {
    if |tags| == 0 then [] else [pre + tags[0]] + Padded(" ", tags[1..])
  }

  lemma JoinedShape(pre: string, tags: seq<string>)
    requires |tags| > 1
    ensures pre + TagsInputOf(tags) == (pre + tags[0]) + [','] + (" " + TagsInputOf(tags[1..]))
  {
    assert tags == [tags[0]] + tags[1..];
    JoinCons(tags[0], tags[1..], ", ");
  }

  lemma {:induction false} SplitJoined(pre: string, tags: seq<string>)
    requires |tags| > 0 && ',' !in pre && AllClean(tags)
    ensures Split(pre + TagsInputOf(tags), ',') == Padded(pre, tags)
    decreases |tags|
  {
    var first := pre + tags[0];
    assert ',' !in first;
    if |tags| == 1 {
      assert pre + TagsInputOf(tags) == first;
      SplitNoSeparator(first, ',');
      assert Padded(" ", tags[1..]) == [];
    } else {
      JoinedShape(pre, tags);
      SplitAfterSeparator(first, " " + TagsInputOf(tags[1..]), ',');
      SplitJoined(" ", tags[1..]);
    }
  }

  lemma {:induction false} TidyPadded(pre: string, tags: seq<string>)
    requires AllSpace(pre, IsJsSpace) && AllClean(tags)
    ensures Tidy(Padded(pre, tags)) == tags
    decreases |tags|
  {
    if |tags| > 0 {
      var pieces := Padded(pre, tags);
      TrimAfterSpace(pre, tags[0], IsJsSpace);
      assert pieces[1..] == Padded(" ", tags[1..]);
      assert AllSpace(" ", IsJsSpace);
      TidyPadded(" ", tags[1..]);
      assert tags == [tags[0]] + tags[1..];
    }
  }

  /** Editing a task and submitting its tags unchanged gives the same tags,
      for tags that are non-empty, trimmed and free of commas. */
  lemma TagsRoundTrip(tags: seq<string>)
    requires forall k | 0 <= k < |tags| :: tags[k] != "" && Trimmed(tags[k], IsJsSpace) && ',' !in tags[k]
    ensures NormalizeTags(TagsInputOf(tags)) == tags
  {
    if |tags| == 0 {
      SplitNoSeparator("", ',');
      assert Trim("", IsJsSpace) == "";
    } else {
      AllCleanFromIndex(tags);
      assert "" + TagsInputOf(tags) == TagsInputOf(tags);
      SplitJoined("", tags);
      assert AllSpace("", IsJsSpace);
      TidyPadded("", tags);
    }
  }

  /** Splitting at one separator splits the two sides independently. */
  lemma {:induction false} SplitConcat(a: string, b: string, sep: char)
    ensures Split(a + [sep] + b, sep) == Split(a, sep) + Split(b, sep)
    decreases |a|
  {
    if |a| == 0 {
      assert a + [sep] + b == "" + [sep] + b;
      SplitAfterSeparator("", b, sep);
    } else {
      var s := a + [sep] + b;
      assert s[0] == a[0];
      assert s[1..] == a[1..] + [sep] + b;
      SplitConcat(a[1..], b, sep);
    }
  }

  /** Trimming and dropping blanks piece by piece. */
  lemma {:induction false} TidyConcat(x: seq<string>, y: seq<string>)
    ensures Tidy(x + y) == Tidy(x) + Tidy(y)
    decreases |x|
  {
    if |x| == 0 {
      assert x + y == y;
    } else {
      assert (x + y)[0] == x[0];
      assert (x + y)[1..] == x[1..] + y;
      TidyConcat(x[1..], y);
    }
  }

  /** The tags of text joined by a comma are the tags of each side, in
      order: nothing is merged, reordered or deduplicated. */
  lemma NormalizeConcat(a: string, b: string)
    ensures NormalizeTags(a + "," + b) == NormalizeTags(a) + NormalizeTags(b)
  {
    assert a + "," + b == a + [','] + b;
    SplitConcat(a, b, ',');
    TidyConcat(Split(a, ','), Split(b, ','));
  }

  /** Text without a comma gives its trimmed self as the one tag, or no tag
      when it is blank. */
  lemma NormalizePiece(s: string)
    requires ',' !in s
    ensures Trim(s, IsJsSpace) == "" ==> NormalizeTags(s) == []
    ensures Trim(s, IsJsSpace) != "" ==> NormalizeTags(s) == [Trim(s, IsJsSpace)]
  {
    SplitNoSeparator(s, ',');
    assert [s][1..] == [];
  }

  // ---------------------------------------------------------------------
  // Due date shown in the date input

  /** The local calendar fields of a time: `getFullYear()`, `getMonth()`
      (0 for January), `getDate()`, `getHours()`, `getMinutes()`. */
  datatype LocalTime = LocalTime(year: int, month: int, day: int, hours: int, minutes: int)

  predicate ValidLocal(t: LocalTime) {
    0 <= t.month < 12 && 1 <= t.day <= 31 && 0 <= t.hours < 24 && 0 <= t.minutes < 60
  }

  /** `-${month}-${day}T${hours}:${minutes}`, each field zero-padded to two
      digits and the month counted from 1. */
  function ClockText(t: LocalTime): string {
    "-" + (Pad2(t.month + 1) + ("-" + (Pad2(t.day) + ("T" + (Pad2(t.hours) + (":" + Pad2(t.minutes)))))))
  }

  /** `${year}-${month}-${day}T${hours}:${minutes}` */
  function FormatLocal(t: LocalTime): string {
    IntToString(t.year) + ClockText(t)
  }

  /** `toLocalInputValue(value)`: '' for a falsy value or an invalid date,
      otherwise the local time in the format of a `datetime-local` input. */
  function ToLocalInputValue(value: Field<DateValue>, local: int -> LocalTime): (s: string)
    ensures s == "" <==> !(value.Val? && value.value.Date?)
    ensures value.Val? && value.value.Date? && ValidLocal(local(value.value.ms)) ==>
      |s| == |IntToString(local(value.value.ms).year)| + 12
  {
    match value
    case Val(Date(ms)) =>
      var t := local(ms);
      var r := FormatLocal(t);
      assert |r| >= |IntToString(t.year)| + 1 > 0;
      assert ValidLocal(t) ==> |r| == |IntToString(t.year)| + 12 by {
        if ValidLocal(t) {
          ClockRoundTrip(t);
        }
      }
      r
    case _ => ""
  }

  /** Reading `-MM-DDTHH:mm` back; the year of the result is 0. */
  function ParseClock(c: string): Option<LocalTime> {
    if |c| != 12 || c[0] != '-' || c[3] != '-' || c[6] != 'T' || c[9] != ':' then None
    else
      match (ParseNat(c[1..3]), ParseNat(c[4..6]), ParseNat(c[7..9]), ParseNat(c[10..]))
      case (Some(mo), Some(d), Some(h), Some(mi)) => Some(LocalTime(0, mo as int - 1, d, h, mi))
      case _ => None
  }

  /** Reading a `datetime-local` value back: the last twelve characters
      have fixed positions, the year is everything before them. */
  function ParseLocal(s: string): Option<LocalTime> {
    if |s| < 13 then None
    else
      match (ParseInt(s[..|s| - 12]), ParseClock(s[|s| - 12..]))
      case (Some(y), Some(c)) => Some(c.(year := y))
      case _ => None
  }

  /** Where the four two-character fields sit in the clock text. */
  lemma ClockShape(mo: string, d: string, h: string, mi: string)
    requires |mo| == 2 && |d| == 2 && |h| == 2 && |mi| == 2
    ensures var c := "-" + (mo + ("-" + (d + ("T" + (h + (":" + mi))))));
      && |c| == 12 && c[0] == '-' && c[3] == '-' && c[6] == 'T' && c[9] == ':'
      && c[1..3] == mo && c[4..6] == d && c[7..9] == h && c[10..] == mi
  {
    var afterHours := ":" + mi;
    var afterT := h + afterHours;
    var afterDay := "T" + afterT;
    var afterDash := d + afterDay;
    var afterMonth := "-" + afterDash;
    var c := "-" + (mo + afterMonth);
    assert c[1..3] == mo;
    assert c[3..] == afterMonth;
    assert c[4..6] == d by { assert c[4..] == afterDash; }
    assert c[6..] == afterDay;
    assert c[7..9] == h by { assert c[7..] == afterT; }
    assert c[9..] == afterHours;
    assert c[10..] == mi;
  }

  lemma ClockRoundTrip(t: LocalTime)
    requires ValidLocal(t)
    ensures |ClockText(t)| == 12
    ensures ParseClock(ClockText(t)) == Some(t.(year := 0))
  {
    Pad2Exact(t.month + 1);
    Pad2Exact(t.day);
    Pad2Exact(t.hours);
    Pad2Exact(t.minutes);
    ClockShape(Pad2(t.month + 1), Pad2(t.day), Pad2(t.hours), Pad2(t.minutes));
  }

  /** The text shown in the date input determines the local time: every
      valid local time is read back from it. */
  lemma LocalInputRoundTrip(ms: int, local: int -> LocalTime)
    requires ValidLocal(local(ms))
    ensures ParseLocal(ToLocalInputValue(Val(Date(ms)), local)) == Some(local(ms))
  {
    var t := local(ms);
    var y := IntToString(t.year);
    var s := ToLocalInputValue(Val(Date(ms)), local);
    ClockRoundTrip(t);
    IntToStringRoundTrip(t.year);
    assert s == y + ClockText(t);
    assert s[..|s| - 12] == y;
    assert s[|s| - 12..] == ClockText(t);
  }

  /** Single-digit fields get their leading zero. */
  lemma FormatExample()
    ensures FormatLocal(LocalTime(2024, 0, 5, 9, 7)) == "2024-01-05T09:07"
  {
    YearText();
    var t := LocalTime(2024, 0, 5, 9, 7);
    assert ClockText(t) == "-01-05T09:07" by {
      PaddedFields();
    }
  }

  lemma YearText()
    ensures IntToString(2024) == "2024"
  {
    assert NatToString(2024) == NatToString(202) + "4";
    assert NatToString(202) == NatToString(20) + "2";
    assert NatToString(20) == NatToString(2) + "0";
  }

  lemma PaddedFields()
    ensures Pad2(1) == "01" && Pad2(5) == "05" && Pad2(9) == "09" && Pad2(7) == "07"
  {
  }

  // ---------------------------------------------------------------------
  // Submitted payload

  /** The form state: the text of each input. `minutes` is
      `Number(formValues.estimatedMinutes)`, `None` for NaN. */
  datatype FormValues = FormValues(
    title: string, description: string, dueDate: string,
    minutes: Option<real>, completed: bool)

  /** `Number(x) || 60` */
  function SubmittedMinutes(minutes: Option<real>): (m: real)
    ensures m != 0.0
    ensures minutes.None? || minutes == Some(0.0) ==> m == 60.0
    ensures minutes.Some? && minutes.value != 0.0 ==> m == minutes.value
  {
    match minutes
    case Some(v) => if v == 0.0 then 60.0 else v
    case None => 60.0
  }

  /** `handleSubmit`: the form values with the normalised tags, the minutes
      defaulted, and the due date as an instant or `null`. `None` when
      `toISOString` throws on an unparseable date. */
  function SubmitPayload(form: FormValues, tagsInput: string, parseLocal: string -> DateValue): (p: Option<Doc>)
    ensures p.None? <==> form.dueDate != "" && parseLocal(form.dueDate).InvalidDate?
    ensures p.Some? ==>
      && p.value.title == Val(Text(form.title))
      && p.value.description == Val(form.description)
      && p.value.completed == Val(form.completed)
      && p.value.tags == Val(NormalizeTags(tagsInput))
      && p.value.estimatedMinutes == Val(SubmittedMinutes(form.minutes))
      && (form.dueDate == "" ==> p.value.dueDate == Null)
      && (form.dueDate != "" ==> p.value.dueDate == Val(parseLocal(form.dueDate)))
      && p.value.urgency.Absent? && p.value.importance.Absent? && p.value.priorityLabel.Absent?
      && p.value.completedAt.Absent? && p.value.createdAt.Absent?
  {
    var due: Option<Field<DateValue>> :=
      if form.dueDate == "" then Some(Null)
      else match parseLocal(form.dueDate)
        case Date(ms) => Some(Val(Date(ms)))
        case InvalidDate => None;
    match due
    case None => None
    case Some(d) =>
      Some(EmptyDoc.(
        title := Val(Text(form.title)),
        description := Val(form.description),
        dueDate := d,
        estimatedMinutes := Val(SubmittedMinutes(form.minutes)),
        tags := Val(NormalizeTags(tagsInput)),
        completed := Val(form.completed)))
  }
}
