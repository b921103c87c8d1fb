/** The order in which the store lists project names.  SQLite compares text
    with its BINARY collation: byte by byte on the UTF-8 encoding, a proper
    prefix first.  On UTF-8 that is the same as comparing code points, which
    is what `<` on Dafny's `char` does. */
module LexOrder {

  /** `a` sorts no later than `b`. */
  predicate LexLe(a: string, b: string)
    decreases |a|
  {
    |a| == 0 || (|b| != 0 && (a[0] < b[0] || (a[0] == b[0] && LexLe(a[1..], b[1..]))))
  }

  lemma {:induction false} LexLeTotal(a: string, b: string)
    ensures LexLe(a, b) || LexLe(b, a)
    decreases |a|
  {
    if |a| != 0 && |b| != 0 && a[0] == b[0] {
      LexLeTotal(a[1..], b[1..]);
    }
  }

  lemma {:induction false} LexLeTransitive(a: string, b: string, c: string)
    requires LexLe(a, b) && LexLe(b, c)
    ensures LexLe(a, c)
    decreases |a|
  {
    if |a| != 0 && a[0] == b[0] && b[0] == c[0] {
      LexLeTransitive(a[1..], b[1..], c[1..]);
    }
  }

  lemma {:induction false} LexLeAntisymmetric(a: string, b: string)
    requires LexLe(a, b) && LexLe(b, a)
    ensures a == b
    decreases |a|
  {
    if |a| != 0 {
      LexLeAntisymmetric(a[1..], b[1..]);
      assert a == [a[0]] + a[1..] && b == [b[0]] + b[1..];
    }
  }

  predicate Sorted(s: seq<string>) {
    forall i, j :: 0 <= i < j < |s| ==> LexLe(s[i], s[j])
  }

  /** Puts `x` into the sorted sequence `s`, before the first element it does
      not sort after. */
  function Insert(x: string, s: seq<string>): (r: seq<string>)
    requires Sorted(s)
    ensures Sorted(r)
    ensures multiset(r) == multiset(s) + multiset{x}
  {
    if s == [] then [x]
    else if LexLe(x, s[0]) then
      assert forall j :: 0 < j < |s| ==> LexLe(x, s[j]) by {
        forall j | 0 < j < |s| ensures LexLe(x, s[j]) { LexLeTransitive(x, s[0], s[j]); }
      }
      assert s == [s[0]] + s[1..];
      [x] + s
    else
      var rest := Insert(x, s[1..]);
      assert s == [s[0]] + s[1..];
      LexLeTotal(x, s[0]);
      BoundStaysBelow(s[0], x, s[1..], rest);
      [s[0]] + rest
  }

  /** The first element of a sorted sequence is below every later one. */
  lemma HeadIsLeast(s: seq<string>)
    requires Sorted(s) && s != []
    ensures forall y :: y in s[1..] ==> LexLe(s[0], y)
  {
    forall y | y in s[1..] ensures LexLe(s[0], y) {
      var j :| 0 <= j < |s[1..]| && s[1..][j] == y;
      assert s[j + 1] == y;
    }
  }

  /** A lower bound of `x` and of `tail` bounds anything holding the same
      elements as `tail` plus `x`. */
  lemma BoundStaysBelow(a: string, x: string, tail: seq<string>, r: seq<string>)
    requires LexLe(a, x)
    requires Sorted([a] + tail)
    requires multiset(r) == multiset(tail) + multiset{x}
    ensures forall y :: y in r ==> LexLe(a, y)
  {
    HeadIsLeast([a] + tail);
    assert ([a] + tail)[1..] == tail;
    forall y | y in r ensures LexLe(a, y) {
      assert y in multiset(r);
      if y != x {
        assert y in multiset(tail);
        assert y in ([a] + tail)[1..];
      }
    }
  }

  /** Insertion sort: the ORDER BY of the store's name listing. */
  function Sort(s: seq<string>): (r: seq<string>)
    ensures Sorted(r)
    ensures multiset(r) == multiset(s)
  {
    if s == [] then []
    else
      assert s == [s[0]] + s[1..];
      Insert(s[0], Sort(s[1..]))
  }

  /** A sorted sequence without repeats is in strictly increasing order. */
  lemma SortedDistinctIsStrict(s: seq<string>, i: int, j: int)
    requires Sorted(s)
    requires forall k, l :: 0 <= k < l < |s| ==> s[k] != s[l]
    requires 0 <= i < j < |s|
    ensures LexLe(s[i], s[j]) && !LexLe(s[j], s[i])
  {
    if LexLe(s[j], s[i]) { LexLeAntisymmetric(s[i], s[j]); }
  }
}
