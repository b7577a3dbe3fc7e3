/**
 * Extraction of `[[link]]` titles from a note, as the global regular
 * expression `/\[\[(.*?)\]\]/g` finds them: scanning left to right, each
 * match starts at the leftmost `[[` that has a closing `]]` on the same line,
 * its content is everything up to the FIRST such `]]`, and the scan resumes
 * after that `]]`. Every content is trimmed; empty links are kept.
 *
 * Positions are indexes into the text; the regular expression needs no
 * look-behind, so every definition looks only at and after its position.
 */
module WikiLinks {
  import opened Wrappers
  import opened Text

  /** The characters `.` does not match in a JavaScript regular expression
      without the `s` flag. */
  predicate IsLineTerminator(c: char) {
    c == '\n' || c == '\r' || c == '\U{2028}' || c == '\U{2029}'
  }

  predicate NoLineTerminator(s: string) {
    forall k | 0 <= k < |s| :: !IsLineTerminator(s[k])
  }

  /** `]]` at position `k` of `t`. */
  predicate ClosingAt(t: string, k: int) {
    0 <= k && k + 1 < |t| && t[k] == ']' && t[k + 1] == ']'
  }

  /** `(.*?)\]\]` matched from position `q` with the `]]` at `k`: the first
      `]]` from `q` on, with no line terminator before it. */
  predicate LazyClose(t: string, q: int, k: int) {
    && 0 <= q <= k
    && ClosingAt(t, k)
    && (forall i | q <= i < k :: !IsLineTerminator(t[i]))
    && (forall j | q <= j < k :: !ClosingAt(t, j))
  }

  /** Position of the `]]` that ends the lazy content `(.*?)` started at
      `q`, or None when a line terminator or the end of the text comes
      first. */
  function CloseFrom(t: string, q: nat): (r: Option<nat>)
    ensures r.Some? ==> q <= r.value && ClosingAt(t, r.value)
    decreases |t| - q
  {
    if q + 1 >= |t| then None
    else if ClosingAt(t, q) then Some(q)
    else if IsLineTerminator(t[q]) then None
    else CloseFrom(t, q + 1)
  }

  /** `CloseFrom` finds the lazy match's `]]` exactly when there is one. */
  lemma {:induction false} CloseFromIsLazy(t: string, q: nat)
    ensures var r := CloseFrom(t, q);
      && (r.Some? ==> LazyClose(t, q, r.value))
      && (r.None? ==> forall k :: !LazyClose(t, q, k))
    decreases |t| - q
  {
    if q + 1 < |t| && !ClosingAt(t, q) && !IsLineTerminator(t[q]) {
      CloseFromIsLazy(t, q + 1);
      assert forall k :: LazyClose(t, q, k) ==> LazyClose(t, q + 1, k);
    }
  }

  /** A match of the whole expression starting at position `p`. */
  predicate MatchStart(t: string, p: int) {
    0 <= p && p + 1 < |t| && t[p] == '[' && t[p + 1] == '[' && CloseFrom(t, p + 2).Some?
  }

  /** The contents `match[1]` of the successive matches from position `p`
      on, untrimmed. */
  function ContentsFrom(t: string, p: nat): seq<string>
    decreases |t| - p
  {
    if p + 1 >= |t| then []
    else if MatchStart(t, p) then
      var k := CloseFrom(t, p + 2).value;
      [t[p + 2..k]] + ContentsFrom(t, k + 2)
    else ContentsFrom(t, p + 1)
  }

  /** `match[1].trim()` for every content. */
  function TrimAll(contents: seq<string>): (links: seq<string>)
    ensures |links| == |contents|
  {
    seq(|contents|, i requires 0 <= i < |contents| => Trim(contents[i], IsJsSpace))
  }

  lemma TrimAllAppend(a: seq<string>, b: seq<string>)
    ensures TrimAll(a + b) == TrimAll(a) + TrimAll(b)
  {
    var l, r := TrimAll(a + b), TrimAll(a) + TrimAll(b);
    forall i | 0 <= i < |l| ensures l[i] == r[i] {
      if i < |a| {
        assert (a + b)[i] == a[i];
      } else {
        assert (a + b)[i] == b[i - |a|];
      }
    }
  }

  /** `extractWikiLinks(text)`; `None` stands for `null` or `undefined`. */
  function ExtractWikiLinks(text: Option<string>): (links: seq<string>)
    ensures text.None? || text == Some("") ==> links == []
    ensures forall i | 0 <= i < |links| :: Trimmed(links[i], IsJsSpace)
  {
    match text
    case None => []
    case Some(t) => if t == "" then [] else TrimAll(ContentsFrom(t, 0))
  }

  /** A successful `regex.exec`: the match starts at `start` and its `]]`
      is at `close`. */
  datatype Match = Match(start: nat, close: nat)

  /** `regex.exec(t)` with `regex.lastIndex == last`: the leftmost match
      starting at or after `last`. */
  function Exec(t: string, last: nat): (m: Option<Match>)
    ensures m.Some? ==> last <= m.value.start && m.value.start + 2 <= m.value.close && m.value.close + 1 < |t|
    decreases |t| - last
  {
    if last + 1 >= |t| then None
    else if MatchStart(t, last) then Some(Match(last, CloseFrom(t, last + 2).value))
    else Exec(t, last + 1)
  }

  /** `exec` finds the leftmost match at or after `last`, and none when
      there is none. */
  lemma {:induction false} ExecLeftmost(t: string, last: nat)
    ensures var m := Exec(t, last);
      && (m.None? ==> forall p | last <= p :: !MatchStart(t, p))
      && (m.Some? ==>
        && MatchStart(t, m.value.start)
        && CloseFrom(t, m.value.start + 2) == Some(m.value.close)
        && forall p | last <= p < m.value.start :: !MatchStart(t, p))
    decreases |t| - last
  {
    if last + 1 < |t| && !MatchStart(t, last) {
      ExecLeftmost(t, last + 1);
    }
  }

  /** The contents from the match `exec` finds on: its content, then the
      contents after its `]]`. */
  function AfterExec(t: string, last: nat): seq<string> {
    AfterMatch(t, Exec(t, last))
  }

  function AfterMatch(t: string, m: Option<Match>): seq<string>
    requires m.Some? ==> m.value.start + 2 <= m.value.close && m.value.close + 1 < |t|
  {
    match m
    case None => []
    case Some(m) => [t[m.start + 2..m.close]] + ContentsFrom(t, m.close + 2)
  }

  /** One `exec` call: the contents from `last` on are those `AfterExec`
      lists. */
  lemma {:induction false} ExecContents(t: string, last: nat)
    ensures ContentsFrom(t, last) == AfterExec(t, last)
    decreases |t| - last
  {
    if last + 1 < |t| {
      if MatchStart(t, last) {
        ExecAtMatch(t, last);
      } else {
        ExecSkips(t, last);
        ExecContents(t, last + 1);
      }
    }
  }

  lemma ExecAtMatch(t: string, last: nat)
    requires MatchStart(t, last)
    ensures ContentsFrom(t, last) == AfterExec(t, last)
  {
    assert Exec(t, last) == Some(Match(last, CloseFrom(t, last + 2).value));
  }

  lemma ExecSkips(t: string, last: nat)
    requires last + 1 < |t| && !MatchStart(t, last)
    ensures ContentsFrom(t, last) == ContentsFrom(t, last + 1)
    ensures AfterExec(t, last) == AfterExec(t, last + 1)
  {
    var m := Exec(t, last);
    assert m == Exec(t, last + 1);
    assert AfterExec(t, last) == AfterMatch(t, m);
  }

  /** The loop of `extractWikiLinks`: call `exec` until it fails, pushing the
      trimmed content of each match and resuming after its `]]`. */
  method ExtractWikiLinksLoop(text: Option<string>) returns (links: seq<string>)
    ensures links == ExtractWikiLinks(text)
  {
    if text.None? || text.value == "" {
      return [];
    }
    var t := text.value;
    links := [];
    ghost var found: seq<string> := [];
    var last := 0;
    while true
      invariant last <= |t|
      invariant found + ContentsFrom(t, last) == ContentsFrom(t, 0)
      invariant links == TrimAll(found)
      decreases |t| - last
    {
      var m := Exec(t, last);
      ExecContents(t, last);
      if m.None? {
        break;
      }
      var content := t[m.value.start + 2..m.value.close];
      var next := m.value.close + 2;
      assert ContentsFrom(t, last) == [content] + ContentsFrom(t, next);
      assert (found + [content]) + ContentsFrom(t, next) == found + ([content] + ContentsFrom(t, next));
      TrimAllAppend(found, [content]);
      assert TrimAll([content]) == [Trim(content, IsJsSpace)];
      links := links + [Trim(content, IsJsSpace)];
      found := found + [content];
      last := next;
    }
    assert found == ContentsFrom(t, 0);
  }

  /** A text without `[[` from `p` on has no links there. */
  lemma {:induction false} NoOpeningNoLinks(t: string, p: nat)
    requires forall k | p <= k < |t| - 1 :: !(t[k] == '[' && t[k + 1] == '[')
    ensures ContentsFrom(t, p) == []
    decreases |t| - p
  {
    if p + 1 < |t| {
      NoOpeningNoLinks(t, p + 1);
    }
  }

  /** Number of positions from `p` on holding `]]` (overlapping ones
      counted). */
  function ClosingCount(t: string, p: nat): nat
    decreases |t| - p
  {
    if p + 1 >= |t| then 0
    else (if ClosingAt(t, p) then 1 else 0) + ClosingCount(t, p + 1)
  }

  lemma {:induction false} ClosingCountMonotone(t: string, p: nat, q: nat)
    requires p <= q
    ensures ClosingCount(t, q) <= ClosingCount(t, p)
    decreases q - p
  {
    if p < q {
      ClosingCountMonotone(t, p + 1, q);
    }
  }

  lemma {:induction false} ContentCountBound(t: string, p: nat)
    ensures |ContentsFrom(t, p)| <= ClosingCount(t, p)
    decreases |t| - p
  {
    if p + 1 < |t| {
      if MatchStart(t, p) {
        var k := CloseFrom(t, p + 2).value;
        ContentCountBound(t, k + 2);
        ClosingCountMonotone(t, p, k);
        ClosingCountMonotone(t, k + 1, k + 2);
      } else {
        ContentCountBound(t, p + 1);
      }
    }
  }

  /** Every link consumes its own `]]`, so there are no more links than
      `]]` in the text. */
  lemma LinkCountBound(text: string)
    ensures |ExtractWikiLinks(Some(text))| <= ClosingCount(text, 0)
  {
    ContentCountBound(text, 0);
  }

  /** No two consecutive `]` in `l`. */
  predicate NoClosing(l: string) {
    forall j | 0 <= j < |l| :: !ClosingAt(l, j)
  }

  /** Every content is on one line and has no `]]`. */
  lemma {:induction false} ContentsShape(t: string, p: nat)
    ensures forall i | 0 <= i < |ContentsFrom(t, p)| ::
      NoLineTerminator(ContentsFrom(t, p)[i]) && NoClosing(ContentsFrom(t, p)[i])
    decreases |t| - p
  {
    if p + 1 < |t| {
      if MatchStart(t, p) {
        var k := CloseFrom(t, p + 2).value;
        CloseFromIsLazy(t, p + 2);
        var c := t[p + 2..k];
        forall j | 0 <= j < |c| ensures !ClosingAt(c, j) {
          assert !ClosingAt(t, p + 2 + j);
        }
        ContentsShape(t, k + 2);
      } else {
        ContentsShape(t, p + 1);
      }
    }
  }

  /** Trimming keeps a content on one line and free of `]]`. */
  lemma TrimKeepsShape(c: string)
    requires NoLineTerminator(c) && NoClosing(c)
    ensures NoLineTerminator(Trim(c, IsJsSpace)) && NoClosing(Trim(c, IsJsSpace))
  {
    TrimIsInfix(c, IsJsSpace);
    var i, j :| 0 <= i <= j <= |c| && Trim(c, IsJsSpace) == c[i..j];
    var l := c[i..j];
    forall m | 0 <= m < |l| ensures !ClosingAt(l, m) {
      assert !ClosingAt(c, i + m);
    }
  }

  /** Every extracted link is trimmed, on one line, and has no `]]`. */
  lemma LinkContents(text: Option<string>)
    ensures var links := ExtractWikiLinks(text);
      forall i | 0 <= i < |links| ::
        Trimmed(links[i], IsJsSpace) && NoLineTerminator(links[i]) && NoClosing(links[i])
  {
    if text.Some? && text.value != "" {
      var c := ContentsFrom(text.value, 0);
      ContentsShape(text.value, 0);
      forall i | 0 <= i < |c|
        ensures NoLineTerminator(Trim(c[i], IsJsSpace)) && NoClosing(Trim(c[i], IsJsSpace))
      {
        TrimKeepsShape(c[i]);
      }
    }
  }

  /** Text in front does not change what is found after it. */
  lemma {:induction false} CloseShift(a: string, b: string, q: nat)
    ensures CloseFrom(a + b, |a| + q) ==
      match CloseFrom(b, q) case None => None case Some(k) => Some(|a| + k)
    decreases |b| - q
  {
    var t := a + b;
    if q + 1 < |b| {
      assert t[|a| + q] == b[q] && t[|a| + q + 1] == b[q + 1];
      CloseShift(a, b, q + 1);
    }
  }

  lemma {:induction false} ContentsShift(a: string, b: string, p: nat)
    ensures ContentsFrom(a + b, |a| + p) == ContentsFrom(b, p)
    decreases |b| - p
  {
    var t := a + b;
    if p + 1 < |b| {
      assert t[|a| + p] == b[p] && t[|a| + p + 1] == b[p + 1];
      CloseShift(a, b, p + 2);
      if MatchStart(b, p) {
        var k := CloseFrom(b, p + 2).value;
        assert t[|a| + p + 2..|a| + k] == b[p + 2..k];
        ContentsShift(a, b, k + 2);
      } else {
        ContentsShift(a, b, p + 1);
      }
    }
  }

  /** The inverse direction: links written as `[[l]]` one after the other. */
  function Render(links: seq<string>): string {
    if |links| == 0 then "" else "[[" + links[0] + "]]" + Render(links[1..])
  }

  /** Content without `]` and on one line closes at the `]]` right after
      it. */
  lemma {:induction false} CloseAfter(l: string, rest: string, q: nat)
    requires ']' !in l && NoLineTerminator(l)
    requires 2 <= q <= |l| + 2
    ensures CloseFrom("[[" + l + "]]" + rest, q) == Some(|l| + 2)
    decreases |l| + 2 - q
  {
    var t := "[[" + l + "]]" + rest;
    if q < |l| + 2 {
      assert t[q] == l[q - 2];
      CloseAfter(l, rest, q + 1);
    } else {
      assert t[q] == ']' && t[q + 1] == ']';
    }
  }

  lemma {:induction false} RenderContents(links: seq<string>)
    requires forall i | 0 <= i < |links| :: ']' !in links[i] && NoLineTerminator(links[i])
    ensures ContentsFrom(Render(links), 0) == links
  {
    if |links| > 0 {
      var l := links[0];
      var rest := Render(links[1..]);
      var head := "[[" + l + "]]";
      var t := Render(links);
      assert t == head + rest;
      CloseAfter(l, rest, 2);
      assert MatchStart(t, 0);
      assert t[2..|l| + 2] == l;
      ContentsShift(head, rest, 0);
      RenderContents(links[1..]);
    }
  }

  /** Extraction recovers every list of trimmed, one-line links without `]`
      from its rendering. */
  lemma {:induction false} RenderRoundTrip(links: seq<string>)
    requires forall i | 0 <= i < |links| ::
      ']' !in links[i] && NoLineTerminator(links[i]) && Trimmed(links[i], IsJsSpace)
    ensures ExtractWikiLinks(Some(Render(links))) == links
  {
    if |links| > 0 {
      var t := Render(links);
      assert t[..2] == "[[" by {
        assert t == "[[" + links[0] + "]]" + Render(links[1..]);
      }
      assert ExtractWikiLinks(Some(t)) == TrimAll(ContentsFrom(t, 0));
      RenderContents(links);
      TrimAllOfTrimmed(links);
    }
  }

  /** Trimming links that are already trimmed changes nothing. */
  lemma TrimAllOfTrimmed(links: seq<string>)
    requires forall i | 0 <= i < |links| :: Trimmed(links[i], IsJsSpace)
    ensures TrimAll(links) == links
  {
    var r := TrimAll(links);
    forall i | 0 <= i < |links| ensures r[i] == links[i] {
      TrimOfTrimmed(links[i], IsJsSpace);
    }
  }

  /** Spaces around a link are trimmed away. */
  lemma ExampleTrimmed()
    ensures ExtractWikiLinks(Some("[[ Alpha ]]")) == ["Alpha"]
  {
    var t := "[[ Alpha ]]";
    PaddedLinkContents();
    TrimPaddedAlpha();
    assert TrimAll([" Alpha "]) == ["Alpha"];
    assert ExtractWikiLinks(Some(t)) == TrimAll(ContentsFrom(t, 0));
  }

  lemma PaddedLinkContents()
    ensures ContentsFrom("[[ Alpha ]]", 0) == [" Alpha "]
  {
    var t := "[[ Alpha ]]";
    assert ClosingAt(t, 9);
    assert CloseFrom(t, 9) == Some(9);
    assert CloseFrom(t, 7) == Some(9);
    assert CloseFrom(t, 5) == Some(9);
    assert CloseFrom(t, 3) == Some(9);
    assert CloseFrom(t, 2) == Some(9);
    assert MatchStart(t, 0);
    assert t[2..9] == " Alpha ";
    assert ContentsFrom(t, 11) == [];
  }

  lemma TrimPaddedAlpha()
    ensures Trim(" Alpha ", IsJsSpace) == "Alpha"
  {
    assert IsJsSpace(' ') && !IsJsSpace('A') && !IsJsSpace('a');
    assert " Alpha "[1..] == "Alpha ";
    assert TrimStart(" Alpha ", IsJsSpace) == "Alpha ";
    assert "Alpha "[..5] == "Alpha";
    assert TrimEnd("Alpha ", IsJsSpace) == "Alpha";
  }

  /** An empty link is kept. */
  lemma ExampleEmpty()
    ensures ExtractWikiLinks(Some("[[]]")) == [""]
  {
    var t := "[[]]";
    assert ClosingAt(t, 2);
    assert CloseFrom(t, 2) == Some(2);
    assert MatchStart(t, 0);
    assert t[2..2] == "";
    assert ContentsFrom(t, 4) == [];
    assert ContentsFrom(t, 0) == [""];
    assert TrimAll([""]) == [Trim("", IsJsSpace)];
  }

  /** A line break inside the brackets prevents the match. */
  lemma ExampleLineBreak()
    ensures ExtractWikiLinks(Some("[[a\nb]]")) == []
  {
    var t := "[[a\nb]]";
    assert CloseFrom(t, 2) == None;
    NoOpeningNoLinks(t, 1);
  }

  /** The match starts at the leftmost `[[` and runs to the first `]]`. */
  lemma ExampleLeftmost()
    ensures ExtractWikiLinks(Some("[[a [[b]]")) == ["a [[b"]
  {
    var t := "[[a [[b]]";
    assert ClosingAt(t, 7);
    assert CloseFrom(t, 7) == Some(7);
    assert CloseFrom(t, 5) == Some(7);
    assert CloseFrom(t, 3) == Some(7);
    assert CloseFrom(t, 2) == Some(7);
    assert MatchStart(t, 0);
    assert t[2..7] == "a [[b";
    assert ContentsFrom(t, 9) == [];
    assert ContentsFrom(t, 0) == ["a [[b"];
    assert TrimAll(["a [[b"]) == [Trim("a [[b", IsJsSpace)];
    assert !IsJsSpace('a') && !IsJsSpace('b');
    TrimOfTrimmed("a [[b", IsJsSpace);
  }
}
