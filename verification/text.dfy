/**
 * String helpers shared by the backend, the ML side and the frontend:
 * whitespace trimming (for two whitespace sets), ASCII lower-casing,
 * splitting on a separator and joining with one.
 */
module Text {

  /** Whitespace removed by JavaScript's `String.prototype.trim`: the
      ECMAScript WhiteSpace and LineTerminator code points. */
  predicate IsJsSpace(c: char) {
    var n := c as int;
    (9 <= n <= 13) || n == 0x20 || n == 0xA0 || n == 0x1680
    || (0x2000 <= n <= 0x200A) || n == 0x2028 || n == 0x2029
    || n == 0x202F || n == 0x205F || n == 0x3000 || n == 0xFEFF
  }

  /** Whitespace removed by Python's `str.strip()` with no argument
      (the characters for which `str.isspace` holds). */
  predicate IsPySpace(c: char) {
    var n := c as int;
    (9 <= n <= 13) || (0x1C <= n <= 0x1F) || n == 0x20 || n == 0x85
    || n == 0xA0 || n == 0x1680 || (0x2000 <= n <= 0x200A)
    || n == 0x2028 || n == 0x2029 || n == 0x202F || n == 0x205F || n == 0x3000
  }

  /** `s` neither starts nor ends with a character of `ws`. */
  predicate Trimmed(s: string, ws: char -> bool) {
    |s| == 0 || (!ws(s[0]) && !ws(s[|s| - 1]))
  }

  /** Every character of `s` belongs to `ws`. */
  predicate AllSpace(s: string, ws: char -> bool) {
    forall k | 0 <= k < |s| :: ws(s[k])
  }

  /** `s` without its leading `ws` characters. */
  function TrimStart(s: string, ws: char -> bool): (r: string)
    ensures |r| <= |s|
  {
    if |s| > 0 && ws(s[0]) then TrimStart(s[1..], ws) else s
  }

  /** `s` without its trailing `ws` characters. */
  function TrimEnd(s: string, ws: char -> bool): (r: string)
    ensures |r| <= |s|
  {
    if |s| > 0 && ws(s[|s| - 1]) then TrimEnd(s[..|s| - 1], ws) else s
  }

  /** `TrimStart` removes a whitespace prefix, and all of it. */
  lemma {:induction false} TrimStartFacts(s: string, ws: char -> bool)
    ensures var r := TrimStart(s, ws);
      && r == s[|s| - |r|..]
      && (|r| == 0 || !ws(r[0]))
      && AllSpace(s[..|s| - |r|], ws)
  {
    if |s| > 0 && ws(s[0]) {
      TrimStartFacts(s[1..], ws);
      var r := TrimStart(s, ws);
      assert s[1..][|s| - 1 - |r|..] == s[|s| - |r|..];
      forall k | 0 <= k < |s| - |r| ensures ws(s[k]) {
        if k > 0 {
          assert s[1..][..|s| - 1 - |r|][k - 1] == s[k];
        }
      }
    }
  }

  /** `TrimEnd` removes a whitespace suffix, and all of it. */
  lemma {:induction false} TrimEndFacts(s: string, ws: char -> bool)
    ensures var r := TrimEnd(s, ws);
      && r == s[..|r|]
      && (|r| == 0 || !ws(r[|r| - 1]))
      && AllSpace(s[|r|..], ws)
  {
    if |s| > 0 && ws(s[|s| - 1]) {
      var p := s[..|s| - 1];
      TrimEndFacts(p, ws);
      var r := TrimEnd(s, ws);
      assert p[..|r|] == s[..|r|];
      forall k | |r| <= k < |s| ensures ws(s[k]) {
        if k < |s| - 1 {
          assert p[|r|..][k - |r|] == s[k];
        }
      }
    }
  }

  /** `s` without its leading and trailing `ws` characters. */
  function Trim(s: string, ws: char -> bool): (r: string)
    ensures Trimmed(r, ws)
    ensures |r| <= |s|
  {
    var a := TrimStart(s, ws);
    TrimStartFacts(s, ws);
    TrimEndFacts(a, ws);
    TrimEnd(a, ws)
  }

  /** `Trim` keeps the unique infix of `s` that is `Trimmed` and is
      surrounded only by whitespace. */
  lemma TrimIsInfix(s: string, ws: char -> bool)
    ensures exists i, j | 0 <= i <= j <= |s| ::
              Trim(s, ws) == s[i..j] && AllSpace(s[..i], ws) && AllSpace(s[j..], ws)
  {
    var a := TrimStart(s, ws);
    var r := TrimEnd(a, ws);
    TrimStartFacts(s, ws);
    TrimEndFacts(a, ws);
    var i := |s| - |a|;
    var j := i + |r|;
    assert r == s[i..j];
    assert AllSpace(s[..i], ws);
    assert s[j..] == a[|r|..];
    assert AllSpace(s[j..], ws);
  }

  lemma TrimOfTrimmed(s: string, ws: char -> bool)
    requires Trimmed(s, ws)
    ensures Trim(s, ws) == s
  {
  }

  /** Characters that `Trim` keeps come from the input. */
  lemma TrimKeepsOnlyInputChars(s: string, ws: char -> bool, c: char)
    requires c !in s
    ensures c !in Trim(s, ws)
  {
    var r := Trim(s, ws);
    TrimIsInfix(s, ws);
    var i, j :| 0 <= i <= j <= |s| && r == s[i..j] && AllSpace(s[..i], ws) && AllSpace(s[j..], ws);
    forall k | 0 <= k < |r| ensures r[k] != c {
      assert r[k] == s[i + k];
    }
  }

  /** Whitespace before an already trimmed string is removed by `Trim`. */
  lemma {:induction false} TrimAfterSpace(pre: string, t: string, ws: char -> bool)
    requires AllSpace(pre, ws) && Trimmed(t, ws)
    ensures Trim(pre + t, ws) == t
    decreases |pre|
  {
    if |pre| == 0 {
      assert pre + t == t;
    } else {
      assert (pre + t)[1..] == pre[1..] + t;
      TrimAfterSpace(pre[1..], t, ws);
    }
  }

  lemma {:induction false} TrimEndSpace(t: string, post: string, ws: char -> bool)
    requires AllSpace(post, ws) && (|t| == 0 || !ws(t[|t| - 1]))
    ensures TrimEnd(t + post, ws) == t
    decreases |post|
  {
    if |post| == 0 {
      assert t + post == t;
    } else {
      assert (t + post)[..|t + post| - 1] == t + post[..|post| - 1];
      TrimEndSpace(t, post[..|post| - 1], ws);
    }
  }

  /** Whitespace after a trimmed string is all that trimming removes. */
  lemma TrimBeforeSpace(t: string, post: string, ws: char -> bool)
    requires Trimmed(t, ws) && AllSpace(post, ws)
    ensures Trim(t + post, ws) == t
  {
    if |t| == 0 {
      assert t + post == post;
      TrimAfterSpace(post, "", ws);
      assert post + "" == post;
    } else {
      assert TrimStart(t + post, ws) == t + post;
      TrimEndSpace(t, post, ws);
    }
  }

  /** ASCII lower-casing of one character; other characters are unchanged. */
  function LowerChar(c: char): (d: char)
    ensures 'A' <= c <= 'Z' ==> 'a' <= d <= 'z' && d as int - c as int == 32
    ensures !('A' <= c <= 'Z') ==> d == c
  {
    if 'A' <= c <= 'Z' then (c as int + 32) as char else c
  }

  function AsciiLower(s: string): (r: string)
    ensures |r| == |s|
    ensures forall k | 0 <= k < |s| :: r[k] == LowerChar(s[k])
  {
    seq(|s|, k requires 0 <= k < |s| => LowerChar(s[k]))
  }

  /** Number of occurrences of `c` in `s`. */
  function Occurrences(s: string, c: char): nat {
    if |s| == 0 then 0 else (if s[0] == c then 1 else 0) + Occurrences(s[1..], c)
  }

  /** `parts` joined with `sep` between consecutive elements, like the
      `join` of JavaScript arrays and of Python strings. */
  function Join(parts: seq<string>, sep: string): string {
    if |parts| == 0 then ""
    else if |parts| == 1 then parts[0]
    else parts[0] + sep + Join(parts[1..], sep)
  }

  lemma JoinCons(p: string, parts: seq<string>, sep: string)
    requires |parts| > 0
    ensures Join([p] + parts, sep) == p + sep + Join(parts, sep)
  {
    assert ([p] + parts)[1..] == parts;
  }

  /** JavaScript's `s.split(sep)` for a one-character separator: the pieces
      between separators, so the empty string splits into one empty piece. */
  function Split(s: string, sep: char): (parts: seq<string>)
    ensures |parts| == Occurrences(s, sep) + 1
    ensures forall k | 0 <= k < |parts| :: sep !in parts[k]
    ensures Join(parts, [sep]) == s
  {
    if |s| == 0 then [""]
    else
      var rest := Split(s[1..], sep);
      if s[0] == sep then
        JoinCons("", rest, [sep]);
        assert s == [sep] + s[1..];
        [""] + rest
      else
        JoinExtendFirst(s[0], rest, [sep]);
        assert s == [s[0]] + s[1..];
        [[s[0]] + rest[0]] + rest[1..]
  }

  /** Prepending a character to the first part prepends it to the join. */
  lemma JoinExtendFirst(c: char, parts: seq<string>, sep: string)
    requires |parts| > 0
    ensures Join([[c] + parts[0]] + parts[1..], sep) == [c] + Join(parts, sep)
  {
    if |parts| > 1 {
      JoinCons([c] + parts[0], parts[1..], sep);
      JoinCons(parts[0], parts[1..], sep);
      assert parts == [parts[0]] + parts[1..];
    }
  }

  /** A piece without the separator splits into itself. */
  lemma SplitNoSeparator(s: string, sep: char)
    requires sep !in s
    ensures Split(s, sep) == [s]
  {
    var parts := Split(s, sep);
    OccurrencesZero(s, sep);
    assert |parts| == 1;
  }

  lemma {:induction false} OccurrencesZero(s: string, c: char)
    requires c !in s
    ensures Occurrences(s, c) == 0
  {
    if |s| > 0 {
      assert s[0] != c;
      assert c !in s[1..];
      OccurrencesZero(s[1..], c);
    }
  }

  /** Splitting after a separator-free prefix and one separator. */
  lemma {:induction false} SplitAfterSeparator(a: string, b: string, sep: char)
    requires sep !in a
    ensures Split(a + [sep] + b, sep) == [a] + Split(b, sep)
    decreases |a|
  {
    var s := a + [sep] + b;
    if |a| == 0 {
      assert s == [sep] + b;
      assert s[1..] == b;
    } else {
      assert s[0] == a[0];
      assert s[1..] == a[1..] + [sep] + b;
      SplitAfterSeparator(a[1..], b, sep);
      assert [a[0]] + a[1..] == a;
    }
  }
}
