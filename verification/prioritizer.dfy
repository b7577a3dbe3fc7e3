/**
 * Task scoring of the backend: the heuristic fallback scorer, the walk over
 * the candidate interpreters that may run the external scorer, and the
 * entry point that always ends in a classification.
 *
 * The external process is not modelled: each candidate command is reduced to
 * the single `Outcome` it produces, and `JSON.parse` of its output to an
 * oracle. The clock is the parameter `now` (milliseconds).
 */
module Prioritizer {
  import opened Wrappers
  import opened Text
  import opened TaskDoc

  const MS_PER_HOUR: int := 3_600_000

  /** Minutes assumed when a task gives no usable estimate. */
  const DEFAULT_MINUTES: real := 30.0

  /** Tags that make a task important, and tags that make it unimportant. */
  const HIGH_TAGS: set<string> := {"client", "livraison", "deadline"}
  const LOW_TAGS: set<string> := {"maintenance", "low"}

  /** Urgency from the due date: 0.4 without one; otherwise by hours until
      due, 1 when overdue, 0.8 within 24 hours, 0.6 within 72 hours (both
      bounds inclusive), else 0.3. An unparseable date compares false with
      everything and so lands on 0.3. */
  function Urgency(dueDate: Field<DateValue>, now: int): (u: real)
    ensures !dueDate.Val? ==> u == 0.4
    ensures dueDate == Val(InvalidDate) ==> u == 0.3
    ensures dueDate.Val? && dueDate.value.Date? ==>
      var d := dueDate.value.ms;
      && (d < now <==> u == 1.0)
      && (now <= d <= now + 24 * MS_PER_HOUR <==> u == 0.8)
      && (now + 24 * MS_PER_HOUR < d <= now + 72 * MS_PER_HOUR <==> u == 0.6)
      && (now + 72 * MS_PER_HOUR < d <==> u == 0.3)
  {
    match dueDate
    case Val(Date(ms)) =>
      var diffHours := (ms - now) as real / MS_PER_HOUR as real;
      if diffHours < 0.0 then 1.0
      else if diffHours <= 24.0 then 0.8
      else if diffHours <= 72.0 then 0.6
      else 0.3
    case Val(InvalidDate) => 0.3
    case _ => 0.4
  }

  /** A later due date is never more urgent. */
  lemma UrgencyMonotone(d1: int, d2: int, now: int)
    requires d1 <= d2
    ensures Urgency(Val(Date(d1)), now) >= Urgency(Val(Date(d2)), now)
  {
  }

  /** `Number(estimatedMinutes ?? 30) || 30`: a missing or zero estimate
      becomes 30 minutes. */
  function Minutes(estimatedMinutes: Field<real>): (m: real)
    ensures m != 0.0
    ensures estimatedMinutes.Val? && estimatedMinutes.value != 0.0 ==> m == estimatedMinutes.value
    ensures !(estimatedMinutes.Val? && estimatedMinutes.value != 0.0) ==> m == DEFAULT_MINUTES
  {
    var m := estimatedMinutes.Or(DEFAULT_MINUTES);
    if m != 0.0 then m else DEFAULT_MINUTES
  }

  /** Some tag, lower-cased, is one of `names`. */
  predicate HasTagIn(tags: Field<seq<string>>, names: set<string>) {
    tags.Val? && exists k | 0 <= k < |tags.value| :: AsciiLower(tags.value[k]) in names
  }

  /** Importance before the effort adjustment: 0.9 for a high tag, otherwise
      0.3 for a low tag, otherwise 0.5 (also without tags). */
  function TagImportance(tags: Field<seq<string>>): real {
    if tags.Val? && |tags.value| > 0 then
      if HasTagIn(tags, HIGH_TAGS) then 0.9
      else if HasTagIn(tags, LOW_TAGS) then 0.3
      else 0.5
    else 0.5
  }

  function Min(a: real, b: real): real {
    if a <= b then a else b
  }

  /** Importance from tags and effort: tasks of 240 minutes or more gain 0.2,
      capped at 1. */
  function Importance(tags: Field<seq<string>>, minutes: real): (i: real)
    ensures 0.3 <= i <= 1.0
    ensures i >= 0.9 <==> HasTagIn(tags, HIGH_TAGS)
    ensures i >= 0.7 <==> HasTagIn(tags, HIGH_TAGS) || (!HasTagIn(tags, LOW_TAGS) && minutes >= 240.0)
    ensures i == 0.3 <==> !HasTagIn(tags, HIGH_TAGS) && HasTagIn(tags, LOW_TAGS) && minutes < 240.0
    ensures HasTagIn(tags, HIGH_TAGS) ==> i == (if minutes >= 240.0 then 1.0 else 0.9)
    ensures !HasTagIn(tags, HIGH_TAGS) && HasTagIn(tags, LOW_TAGS) ==> i == (if minutes >= 240.0 then 0.5 else 0.3)
    ensures !HasTagIn(tags, HIGH_TAGS) && !HasTagIn(tags, LOW_TAGS) ==> i == (if minutes >= 240.0 then 0.7 else 0.5)
  {
    var base := TagImportance(tags);
    if minutes >= 240.0 then Min(1.0, base + 0.2) else base
  }

  /** More effort never lowers importance. */
  lemma ImportanceMonotone(tags: Field<seq<string>>, m1: real, m2: real)
    requires m1 <= m2
    ensures Importance(tags, m1) <= Importance(tags, m2)
  {
  }

  /** Label of the fallback scorer, first matching rule wins; the four
      outcomes, restated as disjoint conditions. `Low` never comes out. */
  function FallbackLabel(u: real, i: real): (l: Label)
    ensures l == Critical <==> u >= 0.8 && i >= 0.7
    ensures l == Urgent <==> u >= 0.7 && !(u >= 0.8 && i >= 0.7)
    ensures l == Important <==> u < 0.7 && i >= 0.7
    ensures l == Normal <==> u < 0.7 && i < 0.7
    ensures l != Low
  {
    if u >= 0.8 && i >= 0.7 then Critical
    else if u >= 0.7 then Urgent
    else if i >= 0.7 then Important
    else Normal
  }

  /** Raising urgency or importance never moves a task down the list. */
  lemma FallbackLabelMonotone(u1: real, i1: real, u2: real, i2: real)
    requires u1 <= u2 && i1 <= i2
    ensures Rank(FallbackLabel(u2, i2)) <= Rank(FallbackLabel(u1, i1))
  {
  }

  datatype Score = Score(urgency: real, importance: real, priority: Label)

  /** The heuristic scorer, read off the task's own properties. */
  function Fallback(task: Doc, now: int): (s: Score)
    ensures s.urgency == Urgency(task.dueDate, now)
    ensures s.importance == Importance(task.tags, Minutes(task.estimatedMinutes))
    ensures s.priority == FallbackLabel(s.urgency, s.importance)
    ensures 0.0 <= s.urgency <= 1.0 && 0.0 <= s.importance <= 1.0
    ensures !task.dueDate.Val? ==> s.urgency == 0.4
    ensures s.importance >= 0.9 <==> HasTagIn(task.tags, HIGH_TAGS)
    ensures s.priority != Low
    ensures s.priority == Critical <==> s.urgency >= 0.8 && s.importance >= 0.7
  {
    var u := Urgency(task.dueDate, now);
    var i := Importance(task.tags, Minutes(task.estimatedMinutes));
    Score(u, i, FallbackLabel(u, i))
  }

  /** The scores as the plain object the caller spreads into the task. */
  function FromScore(s: Score): (c: Classification)
    ensures c.urgency == Some(s.urgency) && c.importance == Some(s.importance)
    ensures c.priorityLabel == Some(LabelName(s.priority))
  {
    Classification(Some(s.urgency), Some(s.importance), Some(LabelName(s.priority)))
  }

  // ---------------------------------------------------------------------
  // Candidate interpreters

  predicate NoDuplicates<T(==)>(xs: seq<T>) {
    forall i, j | 0 <= i < j < |xs| :: xs[i] != xs[j]
  }

  /** `Array.from(new Set(xs))`: the distinct elements in order of first
      occurrence. */
  function Dedupe<T(==)>(xs: seq<T>): (r: seq<T>)
    ensures NoDuplicates(r)
    ensures |r| <= |xs|
  {
    if |xs| == 0 then []
    else
      var r := Dedupe(xs[..|xs| - 1]);
      var x := xs[|xs| - 1];
      if x in r then r else r + [x]
  }

  /** The set keeps every element and adds none. */
  lemma {:induction false} DedupeMembers<T(!new)>(xs: seq<T>)
    ensures forall x :: x in Dedupe(xs) <==> x in xs
  {
    if |xs| > 0 {
      var init := xs[..|xs| - 1];
      DedupeMembers(init);
      assert xs == init + [xs[|xs| - 1]];
    }
  }

  /** A list without repeats is left as it is. */
  lemma {:induction false} DedupeDistinct<T(!new)>(xs: seq<T>)
    requires NoDuplicates(xs)
    ensures Dedupe(xs) == xs
  {
    if |xs| > 0 {
      var init := xs[..|xs| - 1];
      DedupeDistinct(init);
      assert xs[|xs| - 1] !in init;
      assert xs == init + [xs[|xs| - 1]];
    }
  }

  /** Position of the first occurrence of `x` in `xs`. */
  function FirstIndex<T(==)>(xs: seq<T>, x: T): (i: nat)
    requires x in xs
    ensures i < |xs| && xs[i] == x
    ensures forall j | 0 <= j < i :: xs[j] != x
  {
    if xs[0] == x then 0 else 1 + FirstIndex(xs[1..], x)
  }

  /** Only one position is the first occurrence. */
  lemma FirstIndexUnique<T>(xs: seq<T>, x: T, i: nat)
    requires i < |xs| && xs[i] == x && forall j | 0 <= j < i :: xs[j] != x
    ensures FirstIndex(xs, x) == i
  {
    var f := FirstIndex(xs, x);
    assert !(f < i) && !(i < f);
  }

  /** The set keeps the order of first occurrence: of two elements of the
      result, the one that occurs first in `xs` comes first. */
  lemma {:induction false} DedupeOrder<T(!new)>(xs: seq<T>)
    ensures forall i, j | 0 <= i < j < |Dedupe(xs)| ::
      Dedupe(xs)[i] in xs && Dedupe(xs)[j] in xs && FirstIndex(xs, Dedupe(xs)[i]) < FirstIndex(xs, Dedupe(xs)[j])
  {
    if |xs| > 0 {
      var init := xs[..|xs| - 1];
      var x := xs[|xs| - 1];
      var r0 := Dedupe(init);
      DedupeOrder(init);
      DedupeMembers(init);
      assert xs == init + [x];
      forall y | y in init
        ensures y in xs && FirstIndex(xs, y) == FirstIndex(init, y)
      {
        FirstIndexUnique(xs, y, FirstIndex(init, y));
      }
      if x !in r0 {
        FirstIndexUnique(xs, x, |xs| - 1);
        var r := Dedupe(xs);
        assert r == r0 + [x];
        forall i, j | 0 <= i < j < |r|
          ensures r[i] in xs && r[j] in xs && FirstIndex(xs, r[i]) < FirstIndex(xs, r[j])
        {
          assert r[i] == r0[i] && r0[i] in init;
          if j < |r0| {
            assert r[j] == r0[j] && r0[j] in init;
          }
        }
      } else {
        var r := Dedupe(xs);
        assert r == r0;
        forall i, j | 0 <= i < j < |r|
          ensures r[i] in xs && r[j] in xs && FirstIndex(xs, r[i]) < FirstIndex(xs, r[j])
        {
          assert r0[i] in init && r0[j] in init;
        }
      }
    }
  }

  /** `[PYTHON_PATH, 'python', 'python3'].filter(Boolean)`, deduplicated; an
      unset or empty setting is dropped. */
  function Candidates(pythonPath: Option<string>): (cs: seq<string>)
    ensures (pythonPath.None? || pythonPath.value in {"", "python"}) ==> cs == ["python", "python3"]
    ensures pythonPath == Some("python3") ==> cs == ["python3", "python"]
    ensures pythonPath.Some? && pythonPath.value !in {"", "python", "python3"} ==>
              cs == [pythonPath.value, "python", "python3"]
  {
    var configured := match pythonPath
      case Some(p) => if p != "" then [p] else []
      case None => [];
    var all := configured + ["python", "python3"];
    if configured == [] then
      assert all == ["python", "python3"];
      DedupeDistinct(all);
      Dedupe(all)
    else if configured == ["python"] then
      DedupeRepeatedFirst("python", "python3");
      Dedupe(all)
    else if configured == ["python3"] then
      DedupeRepeatedLast("python3", "python");
      Dedupe(all)
    else
      assert all == [configured[0], "python", "python3"];
      DedupeDistinct(all);
      Dedupe(all)
  }

  /** `[a, a, b]` deduplicates to `[a, b]`. */
  lemma DedupeRepeatedFirst<T(!new)>(a: T, b: T)
    requires a != b
    ensures Dedupe([a] + [a, b]) == [a, b]
  {
    var xs := [a] + [a, b];
    assert xs[..2] == [a, a] && [a, a][..1] == [a] && [a][..0] == [];
    assert Dedupe([a]) == [a];
    assert Dedupe([a, a]) == [a];
  }

  /** `[a, b, a]` deduplicates to `[a, b]`. */
  lemma DedupeRepeatedLast<T(!new)>(a: T, b: T)
    requires a != b
    ensures Dedupe([a] + [b, a]) == [a, b]
  {
    var xs := [a] + [b, a];
    assert xs[..2] == [a, b] && [a, b][..1] == [a] && [a][..0] == [];
    assert Dedupe([a]) == [a];
    assert Dedupe([a, b]) == [a, b];
  }

  /** What launching one candidate produced: a launch error (ENOENT or
      another one), or an exit code (`None` when killed by a signal) with
      everything written to standard output. */
  datatype Outcome = LaunchError(enoent: bool) | Exited(code: Option<int>, stdout: string)

  datatype Failure = NoExecutable | LaunchFailed | NonZeroExit(code: Option<int>)

  datatype Execution = Output(stdout: string) | Failed(reason: Failure)

  /** Walks the candidates in order: ENOENT moves on while candidates
      remain, any other launch error or a non-zero exit stops, exit 0 yields
      the output. */
  function Run(commands: seq<string>, launch: string -> Outcome): (e: Execution)
    ensures |commands| == 0 ==> e == Failed(NoExecutable)
    ensures |commands| > 0 && launch(commands[0]) == LaunchError(false) ==> e == Failed(LaunchFailed)
    ensures |commands| > 0 && launch(commands[0]).Exited? && launch(commands[0]).code != Some(0) ==>
              e == Failed(NonZeroExit(launch(commands[0]).code))
  {
    if |commands| == 0 then Failed(NoExecutable)
    else
      match launch(commands[0])
      case LaunchError(enoent) =>
        if enoent && |commands| > 1 then Run(commands[1..], launch) else Failed(LaunchFailed)
      case Exited(code, stdout) =>
        if code == Some(0) then Output(stdout) else Failed(NonZeroExit(code))
  }

  /** Candidate `k` is the one that ran: every earlier candidate was not
      found and `k` exited 0 with `out`. */
  ghost predicate SucceedsAt(commands: seq<string>, launch: string -> Outcome, k: int, out: string) {
    && 0 <= k < |commands|
    && (forall m | 0 <= m < k :: launch(commands[m]) == LaunchError(true))
    && launch(commands[k]) == Exited(Some(0), out)
  }

  /** The walk yields `out` exactly when some candidate succeeds after only
      ENOENT failures before it. */
  lemma {:induction false} RunSucceedsIff(commands: seq<string>, launch: string -> Outcome, out: string)
    ensures Run(commands, launch) == Output(out) <==> exists k :: SucceedsAt(commands, launch, k, out)
    decreases |commands|
  {
    if |commands| > 0 {
      var rest := commands[1..];
      if launch(commands[0]) == LaunchError(true) && |commands| > 1 {
        RunSucceedsIff(rest, launch, out);
        if exists k :: SucceedsAt(rest, launch, k, out) {
          var k :| SucceedsAt(rest, launch, k, out);
          assert SucceedsAt(commands, launch, k + 1, out);
        }
        if exists k :: SucceedsAt(commands, launch, k, out) {
          var k :| SucceedsAt(commands, launch, k, out);
          assert k > 0;
          assert SucceedsAt(rest, launch, k - 1, out);
        }
      } else {
        if exists k :: SucceedsAt(commands, launch, k, out) {
          var k :| SucceedsAt(commands, launch, k, out);
          assert k == 0 || launch(commands[0]) == LaunchError(true);
        }
        if Run(commands, launch) == Output(out) {
          assert SucceedsAt(commands, launch, 0, out);
        }
      }
    }
  }

  /** When no candidate can be found at all, the walk fails. */
  lemma {:induction false} RunAllMissing(commands: seq<string>, launch: string -> Outcome)
    requires forall m | 0 <= m < |commands| :: launch(commands[m]) == LaunchError(true)
    ensures Run(commands, launch).Failed?
    decreases |commands|
  {
    if |commands| > 1 {
      RunAllMissing(commands[1..], launch);
    }
  }

  /** The same walk as an explicit loop that returns at the first candidate
      that does not end in ENOENT. */
  method RunCandidates(commands: seq<string>, launch: string -> Outcome) returns (e: Execution)
    ensures e == Run(commands, launch)
  {
    if |commands| == 0 {
      return Failed(NoExecutable);
    }
    var i := 0;
    while true
      invariant 0 <= i < |commands|
      invariant Run(commands[i..], launch) == Run(commands, launch)
      decreases |commands| - i
    {
      match launch(commands[i])
      case LaunchError(enoent) =>
        if enoent && i + 1 < |commands| {
          assert commands[i..][1..] == commands[i + 1..];
          i := i + 1;
        } else {
          return Failed(LaunchFailed);
        }
      case Exited(code, stdout) =>
        return if code == Some(0) then Output(stdout) else Failed(NonZeroExit(code));
    }
  }

  // ---------------------------------------------------------------------
  // Entry point

  /** The object written to the scorer's standard input: missing title and
      description become "", a missing due date `null`, a missing estimate
      30, missing tags []. */
  datatype ScriptPayload = ScriptPayload(
    title: Title, description: string, dueDate: Option<DateValue>,
    estimatedMinutes: real, tags: seq<string>)

  function PayloadOf(task: Doc): (p: ScriptPayload)
    ensures task.title.Val? ==> p.title == task.title.value
    ensures !task.title.Val? ==> p.title == Text("")
    ensures task.description.Val? ==> p.description == task.description.value
    ensures !task.description.Val? ==> p.description == ""
    ensures task.dueDate.Val? ==> p.dueDate == Some(task.dueDate.value)
    ensures !task.dueDate.Val? ==> p.dueDate == None
    ensures task.estimatedMinutes.Val? ==> p.estimatedMinutes == task.estimatedMinutes.value
    ensures !task.estimatedMinutes.Val? ==> p.estimatedMinutes == DEFAULT_MINUTES
    ensures task.tags.Val? ==> p.tags == task.tags.value
    ensures !task.tags.Val? ==> p.tags == []
  {
    ScriptPayload(
      task.title.Or(Text("")),
      task.description.Or(""),
      if task.dueDate.Val? then Some(task.dueDate.value) else None,
      task.estimatedMinutes.Or(DEFAULT_MINUTES),
      task.tags.Or([]))
  }

  /** The fields `JSON.parse` found in the scorer's output, unvalidated;
      `None` for a field that is missing or `null`. */
  datatype Parsed = Parsed(urgency: Option<real>, importance: Option<real>, priorityLabel: Option<string>)

  /** Everything outside the process: whether the scorer script exists, the
      configured interpreter, what launching a command with a payload
      produces, and `JSON.parse` of the output (`None` when it throws, or
      when the value is `null` so that reading a property throws). */
  datatype Environment = Environment(
    scriptExists: bool,
    pythonPath: Option<string>,
    launch: (string, ScriptPayload) -> Outcome,
    parse: string -> Option<Parsed>)

  /** Launching a command with the payload of this task. */
  function LaunchWith(env: Environment, task: Doc): string -> Outcome {
    var payload := PayloadOf(task);
    cmd => env.launch(cmd, payload)
  }

  function ExecutionFor(task: Doc, env: Environment): Execution {
    Run(Candidates(env.pythonPath), LaunchWith(env, task))
  }

  /** Some candidate ran, after only ENOENT failures, and printed `out`. */
  ghost predicate ScorerPrinted(task: Doc, env: Environment, out: string) {
    exists k :: SucceedsAt(Candidates(env.pythonPath), LaunchWith(env, task), k, out)
  }

  /** Scores a task: the external scorer's fields when it ran and printed
      something parseable, the heuristic otherwise. Never fails. */
  function Prioritize(task: Doc, env: Environment, now: int): (c: Classification)
    ensures !env.scriptExists ==> c == FromScore(Fallback(task, now))
    ensures env.scriptExists && ExecutionFor(task, env).Failed? ==> c == FromScore(Fallback(task, now))
    ensures env.scriptExists && ExecutionFor(task, env) == Output("") ==> c == FromScore(Fallback(task, now))
    ensures env.scriptExists && ExecutionFor(task, env).Output? && env.parse(ExecutionFor(task, env).stdout).None? ==>
              c == FromScore(Fallback(task, now))
    ensures env.scriptExists && ExecutionFor(task, env).Output? && ExecutionFor(task, env).stdout != "" &&
            env.parse(ExecutionFor(task, env).stdout).Some? ==>
              var p := env.parse(ExecutionFor(task, env).stdout).value;
              c == Classification(p.urgency, p.importance, p.priorityLabel)
  {
    var fallback := FromScore(Fallback(task, now));
    if !env.scriptExists then fallback
    else
      match ExecutionFor(task, env)
      case Failed(_) => fallback
      case Output(out) =>
        if out == "" then fallback
        else
          match env.parse(out)
          case None => fallback
          case Some(p) => Classification(p.urgency, p.importance, p.priorityLabel)
  }

  /** A result that is not the heuristic's comes from the parsed output of a
      candidate that ran after only ENOENT failures before it. */
  lemma PrioritizeProvenance(task: Doc, env: Environment, now: int)
    ensures var c := Prioritize(task, env, now);
      || c == FromScore(Fallback(task, now))
      || exists out :: ScorerPrinted(task, env, out) && out != "" && env.parse(out).Some?
           && c == Classification(env.parse(out).value.urgency, env.parse(out).value.importance,
                                  env.parse(out).value.priorityLabel)
  {
    var e := ExecutionFor(task, env);
    if env.scriptExists && e.Output? && e.stdout != "" && env.parse(e.stdout).Some? {
      RunSucceedsIff(Candidates(env.pythonPath), LaunchWith(env, task), e.stdout);
    }
  }

  /** With no interpreter to be found, the result is the heuristic's. */
  lemma NoInterpreterFallsBack(task: Doc, env: Environment, now: int)
    requires forall cmd :: env.launch(cmd, PayloadOf(task)) == LaunchError(true)
    ensures Prioritize(task, env, now) == FromScore(Fallback(task, now))
  {
    RunAllMissing(Candidates(env.pythonPath), LaunchWith(env, task));
  }
}
