/**
 * A stable sort by a comparator, as `Array.prototype.sort` is: the result is
 * ordered, is a permutation of the input, and keeps the input order among
 * elements the comparator does not separate. `le(a, b)` means the comparator
 * lets `a` stay before `b`.
 */
module Sorting {

  /** `le` is total and transitive: a consistent comparator. */
  ghost predicate TotalPreorder<T(!new)>(le: (T, T) -> bool) {
    && (forall a, b :: le(a, b) || le(b, a))
    && (forall a, b, c :: le(a, b) && le(b, c) ==> le(a, c))
  }

  predicate SortedBy<T>(s: seq<T>, le: (T, T) -> bool) {
    forall i, j | 0 <= i < j < |s| :: le(s[i], s[j])
  }

  /** Every element of `s` may follow `h`. */
  predicate Heads<T>(h: T, s: seq<T>, le: (T, T) -> bool) {
    forall k | 0 <= k < |s| :: le(h, s[k])
  }

  /** `x` placed before the first element it may precede. */
  function Insert<T>(x: T, s: seq<T>, le: (T, T) -> bool): (r: seq<T>)
    ensures multiset(r) == multiset(s) + multiset{x}
  {
    if |s| == 0 || le(x, s[0]) then
      [x] + s
    else
      assert s == [s[0]] + s[1..];
      [s[0]] + Insert(x, s[1..], le)
  }

  lemma SortedCons<T>(h: T, rest: seq<T>, le: (T, T) -> bool)
    requires SortedBy(rest, le) && Heads(h, rest, le)
    ensures SortedBy([h] + rest, le)
  {
    var r := [h] + rest;
    forall i, j | 0 <= i < j < |r| ensures le(r[i], r[j]) {
      assert r[j] == rest[j - 1];
      if i > 0 {
        assert r[i] == rest[i - 1];
      }
    }
  }

  lemma InsertHeads<T>(h: T, x: T, s: seq<T>, le: (T, T) -> bool)
    requires Heads(h, s, le) && le(h, x)
    ensures Heads(h, Insert(x, s, le), le)
  {
    var r := Insert(x, s, le);
    forall k | 0 <= k < |r| ensures le(h, r[k]) {
      assert r[k] in multiset(r);
      assert r[k] == x || r[k] in multiset(s);
    }
  }

  lemma {:induction false} InsertSorted<T(!new)>(x: T, s: seq<T>, le: (T, T) -> bool)
    requires TotalPreorder(le) && SortedBy(s, le)
    ensures SortedBy(Insert(x, s, le), le)
  {
    if |s| == 0 || le(x, s[0]) {
      assert Heads(x, s, le) by {
        forall k | 0 <= k < |s| ensures le(x, s[k]) {
          if k > 0 {
            assert le(s[0], s[k]);
          }
        }
      }
      SortedCons(x, s, le);
    } else {
      var tail := s[1..];
      assert SortedBy(tail, le) && Heads(s[0], tail, le) by {
        forall i, j | 0 <= i < j < |tail| ensures le(tail[i], tail[j]) {
          assert tail[i] == s[i + 1] && tail[j] == s[j + 1];
        }
        forall k | 0 <= k < |tail| ensures le(s[0], tail[k]) {
          assert tail[k] == s[k + 1];
        }
      }
      InsertSorted(x, tail, le);
      InsertHeads(s[0], x, tail, le);
      SortedCons(s[0], Insert(x, tail, le), le);
    }
  }

  /** Insertion sort: each element inserted into the sorted rest. */
  function Sort<T(!new)>(s: seq<T>, le: (T, T) -> bool): (r: seq<T>)
    requires TotalPreorder(le)
    ensures SortedBy(r, le)
    ensures multiset(r) == multiset(s)
  {
    if |s| == 0 then []
    else
      assert s == [s[0]] + s[1..];
      var rest := Sort(s[1..], le);
      InsertSorted(s[0], rest, le);
      Insert(s[0], rest, le)
  }

  /** The elements of `s` the comparator cannot separate from `x`, in their
      order in `s`. */
  function Ties<T>(s: seq<T>, x: T, le: (T, T) -> bool): seq<T> {
    if |s| == 0 then []
    else (if le(s[0], x) && le(x, s[0]) then [s[0]] else []) + Ties(s[1..], x, le)
  }

  lemma {:induction false} InsertTies<T(!new)>(y: T, s: seq<T>, x: T, le: (T, T) -> bool)
    requires TotalPreorder(le)
    ensures Ties(Insert(y, s, le), x, le) == (if le(y, x) && le(x, y) then [y] else []) + Ties(s, x, le)
  {
    if |s| == 0 || le(y, s[0]) {
      TiesCons(y, s, x, le);
    } else {
      var rest := Insert(y, s[1..], le);
      assert Insert(y, s, le) == [s[0]] + rest;
      InsertTies(y, s[1..], x, le);
      TiesCons(s[0], rest, x, le);
      var first := if le(s[0], x) && le(x, s[0]) then [s[0]] else [];
      var added := if le(y, x) && le(x, y) then [y] else [];
      assert first == [] || added == [];
      SwapDisjoint(first, added, Ties(s[1..], x, le));
    }
  }

  lemma TiesCons<T>(h: T, rest: seq<T>, x: T, le: (T, T) -> bool)
    ensures Ties([h] + rest, x, le) == (if le(h, x) && le(x, h) then [h] else []) + Ties(rest, x, le)
  {
    assert ([h] + rest)[1..] == rest;
  }

  /** Two prefixes of which one is empty commute. */
  lemma SwapDisjoint<T>(first: seq<T>, added: seq<T>, others: seq<T>)
    requires first == [] || added == []
    ensures first + (added + others) == added + (first + others)
  {
  }

  /** Stability: elements that tie keep the order they had. */
  lemma {:induction false} SortKeepsTies<T(!new)>(s: seq<T>, x: T, le: (T, T) -> bool)
    requires TotalPreorder(le)
    ensures Ties(Sort(s, le), x, le) == Ties(s, x, le)
  {
    if |s| > 0 {
      SortKeepsTies(s[1..], x, le);
      InsertTies(s[0], Sort(s[1..], le), x, le);
    }
  }
}
