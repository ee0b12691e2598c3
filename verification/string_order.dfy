/**
  The order JavaScript's default `Array.prototype.sort` puts strings in:
  lexicographic, character by character, a proper prefix first.
*/
module StringOrder {

  /** `a` sorts at or before `b`. */
  predicate LexLessEq(a: string, b: string)
    decreases |a|
  {
    |a| == 0 || (|b| > 0 && (a[0] < b[0] || (a[0] == b[0] && LexLessEq(a[1..], b[1..]))))
  }

  /** `LexLessEq` is a total order: reflexive, total, antisymmetric and transitive. */
  lemma LexReflexive(a: string)
    ensures LexLessEq(a, a)
  {
  }

  lemma LexTotal(a: string, b: string)
    ensures LexLessEq(a, b) || LexLessEq(b, a)
  {
  }

  lemma LexAntisymmetric(a: string, b: string)
    requires LexLessEq(a, b) && LexLessEq(b, a)
    ensures a == b
  {
    if |a| > 0 && |b| > 0 {
      LexAntisymmetric(a[1..], b[1..]);
      assert a == [a[0]] + a[1..] && b == [b[0]] + b[1..];
    }
  }

  lemma LexTransitive(a: string, b: string, c: string)
    requires LexLessEq(a, b) && LexLessEq(b, c)
    ensures LexLessEq(a, c)
  {
    if |a| > 0 && |b| > 0 && |c| > 0 && a[0] == b[0] == c[0] {
      LexTransitive(a[1..], b[1..], c[1..]);
    }
  }

  /** Every pair of elements is in order. */
  ghost predicate Sorted(s: seq<string>) {
    forall i, j :: 0 <= i < j < |s| ==> LexLessEq(s[i], s[j])
  }

  /** Placing a string before the first element it sorts at or before keeps the order. */
  lemma InsertFirstSorted(x: string, s: seq<string>)
    requires Sorted(s) && s != [] && LexLessEq(x, s[0])
    ensures Sorted([x] + s)
  {
    forall j | 0 <= j < |s| ensures LexLessEq(x, s[j]) {
      if j > 0 { LexTransitive(x, s[0], s[j]); }
    }
  }

  /**
    When `x` sorts after the first element, that element stays in front of
    the sorted rest with `x` placed into it.
  */
  lemma InsertLaterSorted(x: string, s: seq<string>, rest: seq<string>)
    requires Sorted(s) && s != [] && !LexLessEq(x, s[0])
    requires Sorted(rest) && multiset(rest) == multiset(s[1..]) + multiset{x}
    ensures Sorted([s[0]] + rest)
    ensures multiset([s[0]] + rest) == multiset(s) + multiset{x}
  {
    LexTotal(x, s[0]);
    forall k | 0 <= k < |rest| ensures LexLessEq(s[0], rest[k]) {
      assert rest[k] in multiset(rest);
      if rest[k] != x {
        assert rest[k] in multiset(s[1..]);
        var j :| 0 <= j < |s[1..]| && s[1..][j] == rest[k];
        assert s[j + 1] == rest[k];
      }
    }
    assert s == [s[0]] + s[1..];
  }

  /** Places `x` into the sorted `s`, before the first element it sorts at or before. */
  function Insert(x: string, s: seq<string>): (r: seq<string>)
    requires Sorted(s)
    ensures Sorted(r)
    ensures multiset(r) == multiset(s) + multiset{x}
  {
    if s == [] then [x]
    else if LexLessEq(x, s[0]) then
      InsertFirstSorted(x, s);
      assert s == [s[0]] + s[1..];
      [x] + s
    else
      var rest := Insert(x, s[1..]);
      InsertLaterSorted(x, s, rest);
      [s[0]] + rest
  }

  /** Insertion sort: the sorted rearrangement of `s`. */
  function SortStrings(s: seq<string>): (r: seq<string>)
    ensures Sorted(r)
    ensures multiset(r) == multiset(s)
  {
    if s == [] then []
    else
      assert s == [s[0]] + s[1..];
      Insert(s[0], SortStrings(s[1..]))
  }

  /** Two sorted arrangements of the same strings start with the same string. */
  lemma SameHead(a: seq<string>, b: seq<string>)
    requires Sorted(a) && Sorted(b) && multiset(a) == multiset(b) && a != []
    ensures b != [] && a[0] == b[0]
  {
    assert a[0] in multiset(b);
    var j :| 0 <= j < |b| && b[j] == a[0];
    assert b[0] in multiset(a);
    var i :| 0 <= i < |a| && a[i] == b[0];
    if j == 0 { LexReflexive(a[0]); }
    assert LexLessEq(b[0], a[0]);
    if i == 0 { LexReflexive(b[0]); }
    assert LexLessEq(a[0], b[0]);
    LexAntisymmetric(a[0], b[0]);
  }

  /** Removing the same first string from two equal multisets leaves equal multisets. */
  lemma SameTail(a: seq<string>, b: seq<string>)
    requires a != [] && b != [] && a[0] == b[0] && multiset(a) == multiset(b)
    ensures multiset(a[1..]) == multiset(b[1..])
  {
    assert a == [a[0]] + a[1..];
    assert b == [b[0]] + b[1..];
    var x, ta, tb := a[0], multiset(a[1..]), multiset(b[1..]);
    assert multiset{x} + ta == multiset{x} + tb;
    forall y
      ensures ta[y] == tb[y]
    {
      assert (multiset{x} + ta)[y] == (multiset{x} + tb)[y];
    }
  }

  /**
    A multiset has exactly one sorted arrangement, so any correct sort of
    the same strings (the engine's own included) yields this same sequence.
  */
  lemma {:induction false} SortedUnique(a: seq<string>, b: seq<string>)
    requires Sorted(a) && Sorted(b) && multiset(a) == multiset(b)
    ensures a == b
    decreases |a|
  {
    if a == [] {
      assert |b| == |multiset(b)| == 0;
    } else {
      SameHead(a, b);
      SameTail(a, b);
      SortedUnique(a[1..], b[1..]);
      assert a == [a[0]] + a[1..] && b == [b[0]] + b[1..];
    }
  }
}
