/**
  The random helpers (lib/random.js). Each call of `nextInt` is modelled as
  one draw read from a tape supplied by the caller, so the functions here
  are deterministic in their inputs and their contracts hold for every
  possible sequence of draws.
*/
module Random {

  /**
    `nextInt(lo, hi)` as an oracle: the draw `d` is the value the random
    source proposes, and the only promise is the range [lo, hi]. The
    floating-point formula behind the proposal, and hence the distribution,
    is not modelled; every value of the range is reachable (`NextIntCovers`).
  */
  function NextInt(lo: int, hi: int, d: int): (x: int)
    requires lo <= hi
    ensures lo <= x <= hi
  {
    if d < lo then lo else if hi < d then hi else d
  }

  /** Each value of the range is the outcome of some draw. */
  lemma NextIntCovers(lo: int, hi: int, x: int)
    requires lo <= x <= hi
    ensures exists d :: NextInt(lo, hi, d) == x
  {
    assert NextInt(lo, hi, x) == x;
  }

  /** `swap(array, i, j)`: exchanges the elements at two valid positions. */
  function Swap<T>(a: seq<T>, i: int, j: int): (r: seq<T>)
    requires 0 <= i < |a| && 0 <= j < |a|
    ensures |r| == |a|
  {
    a[i := a[j]][j := a[i]]
  }

  /**
    The two positions trade their elements, every other position keeps its
    own, and swapping a position with itself changes nothing.
  */
  lemma SwapExchanges<T>(a: seq<T>, i: int, j: int)
    requires 0 <= i < |a| && 0 <= j < |a|
    ensures Swap(a, i, j)[i] == a[j] && Swap(a, i, j)[j] == a[i]
    ensures forall k :: 0 <= k < |a| && k != i && k != j ==> Swap(a, i, j)[k] == a[k]
    ensures i == j ==> Swap(a, i, j) == a
  {
  }

  /** Swapping rearranges the elements without adding or losing any. */
  lemma SwapPermutes<T>(a: seq<T>, i: int, j: int)
    requires 0 <= i < |a| && 0 <= j < |a|
    ensures multiset(Swap(a, i, j)) == multiset(a)
  {
  }

  /**
    Iteration `i` of the Fisher-Yates loop: swap position `i` with a position
    `j` drawn from [i, |s| - 1].
  */
  function Step<T>(s: seq<T>, tape: seq<int>, i: nat): (r: seq<T>)
    requires i < |s| && i < |tape|
    ensures |r| == |s|
  {
    var j := NextInt(i, |s| - 1, tape[i]);
    Swap(s, i, j)
  }

  /** Since `j >= i`, iteration `i` never writes a position before `i`. */
  lemma StepKeepsPrefix<T>(s: seq<T>, tape: seq<int>, i: nat, k: nat)
    requires k < i < |s| && i < |tape|
    ensures Step(s, tape, i)[k] == s[k]
  {
    SwapExchanges(s, i, NextInt(i, |s| - 1, tape[i]));
  }

  /** Iterations `i`, `i + 1`, ..., `|s| - 1` of the Fisher-Yates loop, run on `s`. */
  function ShuffleFrom<T>(s: seq<T>, tape: seq<int>, i: nat): (r: seq<T>)
    requires i <= |s| <= |tape|
    ensures |r| == |s|
    decreases |s| - i
  {
    if i == |s| then s else ShuffleFrom(Step(s, tape, i), tape, i + 1)
  }

  /**
    Once the loop reaches iteration `i`, positions before `i` are final: the
    remaining iterations leave them as they are.
  */
  lemma {:induction false} PrefixFinal<T>(s: seq<T>, tape: seq<int>, i: nat, k: nat)
    requires k < i <= |s| <= |tape|
    ensures ShuffleFrom(s, tape, i)[k] == s[k]
    decreases |s| - i
  {
    if i < |s| {
      StepKeepsPrefix(s, tape, i, k);
      PrefixFinal(Step(s, tape, i), tape, i + 1, k);
    }
  }

  /** The remaining iterations only rearrange the elements. */
  lemma {:induction false} ShuffleFromPermutes<T>(s: seq<T>, tape: seq<int>, i: nat)
    requires i <= |s| <= |tape|
    ensures multiset(ShuffleFrom(s, tape, i)) == multiset(s)
    decreases |s| - i
  {
    if i < |s| {
      var t := Step(s, tape, i);
      assert ShuffleFrom(s, tape, i) == ShuffleFrom(t, tape, i + 1);
      SwapPermutes(s, i, NextInt(i, |s| - 1, tape[i]));
      assert multiset(t) == multiset(s);
      ShuffleFromPermutes(t, tape, i + 1);
    }
  }

  /** With at most one element the only draw is from [0, 0], so nothing moves. */
  lemma ShortShuffleIdentity<T>(a: seq<T>, tape: seq<int>)
    requires |a| <= 1 && |a| <= |tape|
    ensures ShuffleFrom(a, tape, 0) == a
  {
    if |a| == 1 {
      SwapExchanges(a, 0, 0);
      assert ShuffleFrom(a, tape, 0) == ShuffleFrom(Step(a, tape, 0), tape, 1);
    }
  }

  /**
    `shuffle(array)`: the in-place Fisher-Yates shuffle, drawing one value
    from `tape` per position; the result is a permutation of `a`.
  */
  method Shuffle<T>(a: seq<T>, tape: seq<int>) returns (r: seq<T>)
    requires |tape| >= |a|
    ensures r == ShuffleFrom(a, tape, 0)
    ensures multiset(r) == multiset(a) && |r| == |a|
    ensures |a| <= 1 ==> r == a
  {
    r := a;
    var i := 0;
    while i < |r|
      invariant 0 <= i <= |a| && |r| == |a|
      invariant ShuffleFrom(r, tape, i) == ShuffleFrom(a, tape, 0)
    {
      var j := NextInt(i, |r| - 1, tape[i]);
      r := Swap(r, i, j);
      i := i + 1;
    }
    ShuffleFromPermutes(a, tape, 0);
    if |a| <= 1 {
      ShortShuffleIdentity(a, tape);
    }
  }
}
