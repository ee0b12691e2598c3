/**
  The pure part of start-up (lib/initialize.js): turning the provider's
  language table `{code: name, ...}` into the sorted list of supported
  language names and the name-to-code table, and creating the empty
  recent-translations buffer. The table is given as its entries in the
  order `for ... in` visits them; an object's keys are distinct, so the
  lemmas that need it assume `DistinctCodes`.
*/
module Initialize {
  import opened Wrappers
  import opened Types
  import opened StringOrder
  import CircularQueue

  /** One entry of the provider's table: a language code and its name. */
  datatype LangPair = LangPair(code: string, name: string)

  /** No code occurs twice, as with the keys of an object. */
  predicate DistinctCodes(data: seq<LangPair>) {
    forall i, j :: 0 <= i < j < |data| ==> data[i].code != data[j].code
  }

  /** No name occurs twice. */
  predicate DistinctNames(data: seq<LangPair>) {
    forall i, j :: 0 <= i < j < |data| ==> data[i].name != data[j].name
  }

  /** The names of the entries, in visiting order. */
  function NamesOf(data: seq<LangPair>): (r: seq<string>)
    ensures |r| == |data|
    ensures forall i :: 0 <= i < |data| ==> r[i] == data[i].name
  {
    if data == [] then [] else NamesOf(data[..|data| - 1]) + [data[|data| - 1].name]
  }

  /** Looking a code up in the table, as `data[code]` does: the name of its entry, if any. */
  function NameOf(data: seq<LangPair>, code: string): (r: Option<string>)
    ensures r.None? <==> forall i :: 0 <= i < |data| ==> data[i].code != code
    ensures r.Some? ==> exists i :: 0 <= i < |data| && data[i] == LangPair(code, r.value)
  {
    if data == [] then None
    else if data[0].code == code then Some(data[0].name)
    else NameOf(data[1..], code)
  }

  /** With distinct codes the lookup finds exactly the entry holding the code. */
  lemma {:induction false} NameOfEntry(data: seq<LangPair>, i: int)
    requires DistinctCodes(data) && 0 <= i < |data|
    ensures NameOf(data, data[i].code) == Some(data[i].name)
  {
    if i > 0 {
      assert data[0].code != data[i].code;
      NameOfEntry(data[1..], i - 1);
    }
  }

  /** `langNames`: every name in the table, sorted in ascending string order. */
  function LangNames(data: seq<LangPair>): (r: seq<string>)
    ensures |r| == |data|
    ensures Sorted(r)
    ensures multiset(r) == multiset(NamesOf(data))
  {
    var r := SortStrings(NamesOf(data));
    assert |r| == |multiset(r)| == |multiset(NamesOf(data))| == |NamesOf(data)|;
    r
  }

  /**
    The result of `langNames` does not depend on how the names are sorted:
    it is the one sorted arrangement of the table's names.
  */
  lemma LangNamesUnique(data: seq<LangPair>, s: seq<string>)
    requires Sorted(s) && multiset(s) == multiset(NamesOf(data))
    ensures LangNames(data) == s
  {
    SortedUnique(LangNames(data), s);
  }

  /** No later entry carries the same name as entry `i`. */
  predicate LastWithName(data: seq<LangPair>, i: int)
    requires 0 <= i < |data|
  {
    forall k :: i < k < |data| ==> data[k].name != data[i].name
  }

  /**
    `langCodes`: visits the entries in order and sets `result[name] = code`
    for each, so a later entry overwrites an earlier one with the same name.
    Its keys are exactly the names in the table.
  */
  function LangCodes(data: seq<LangPair>): (r: map<string, string>)
    ensures forall n :: n in r <==> n in NamesOf(data)
  {
    if data == [] then map[]
    else
      var last := data[|data| - 1];
      LangCodes(data[..|data| - 1])[last.name := last.code]
  }

  /** The code kept for a name is the one of the last entry with that name. */
  lemma {:induction false} LangCodesLastWins(data: seq<LangPair>, i: int)
    requires 0 <= i < |data| && LastWithName(data, i)
    ensures data[i].name in LangCodes(data)
    ensures LangCodes(data)[data[i].name] == data[i].code
  {
    var init, last := data[..|data| - 1], data[|data| - 1];
    if i < |data| - 1 {
      assert last.name != data[i].name;
      assert init[i] == data[i];
      assert LastWithName(init, i) by {
        forall k | i < k < |init| ensures init[k].name != init[i].name {
          assert init[k] == data[k];
        }
      }
      LangCodesLastWins(init, i);
    }
  }

  /** Every name-code pair of the result is an entry of the table. */
  lemma {:induction false} LangCodesFromEntry(data: seq<LangPair>, n: string)
    requires n in LangCodes(data)
    ensures exists i :: 0 <= i < |data| && data[i] == LangPair(LangCodes(data)[n], n)
  {
    var init, last := data[..|data| - 1], data[|data| - 1];
    if last.name == n {
      assert data[|data| - 1] == LangPair(LangCodes(data)[n], n);
    } else {
      LangCodesFromEntry(init, n);
      var i :| 0 <= i < |init| && init[i] == LangPair(LangCodes(init)[n], n);
      assert data[i] == init[i];
    }
  }

  /**
    Looking up the kept code in the table gives back the name:
    `data[langCodes(data)[n]] == n` for every key `n`.
  */
  lemma LangCodesInverse(data: seq<LangPair>, n: string)
    requires DistinctCodes(data) && n in LangCodes(data)
    ensures NameOf(data, LangCodes(data)[n]) == Some(n)
  {
    LangCodesFromEntry(data, n);
    var i :| 0 <= i < |data| && data[i] == LangPair(LangCodes(data)[n], n);
    NameOfEntry(data, i);
  }

  /**
    With distinct names nothing is overwritten and the result is the exact
    inverse of the table: `langCodes(data)[data[c]] == c` for every code `c`.
  */
  lemma LangCodesExactInverse(data: seq<LangPair>, code: string)
    requires DistinctNames(data) && NameOf(data, code).Some?
    ensures NameOf(data, code).value in LangCodes(data)
    ensures LangCodes(data)[NameOf(data, code).value] == code
  {
    var i :| 0 <= i < |data| && data[i] == LangPair(code, NameOf(data, code).value);
    LangCodesLastWins(data, i);
  }

  /**
    Every supported name resolves to a code: the lookup of a name taken from
    `langNames` in `langCodes` never comes back empty.
  */
  lemma CatalogNamesResolve(data: seq<LangPair>, n: string)
    requires n in LangNames(data)
    ensures n in LangCodes(data)
  {
    assert n in multiset(LangNames(data));
  }

  /** `Queue(32)`: the capacity of the recent-translations buffer. */
  const RecentTranslationsSize: int := 32

  /**
    `initRecentTranslations`: an empty buffer of 32 slots; the slots start
    out holding a blank translation that is never observed.
  */
  function InitRecentTranslations(): (q: CircularQueue.Queue<Translation>)
    ensures CircularQueue.Valid(q) && q.maxSize == RecentTranslationsSize
    ensures CircularQueue.Items(q) == []
  {
    CircularQueue.Create(RecentTranslationsSize, Translation([], None))
  }

  /** Saves each of `xs` in turn into a fresh buffer, which then holds the 31 most recent. */
  method RecentTranslationsKeepNewest(xs: seq<Translation>) returns (q: CircularQueue.Queue<Translation>)
    ensures CircularQueue.Valid(q) && q.maxSize == RecentTranslationsSize
    ensures CircularQueue.Items(q) == CircularQueue.Newest(xs, RecentTranslationsSize - 1)
  {
    var init := InitRecentTranslations();
    q := CircularQueue.PushAll(init, xs);
    assert CircularQueue.Items(init) + xs == xs;
  }

}
