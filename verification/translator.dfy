/**
  The translation-chain orchestrator (lib/translator.js). `translate` carries
  a text from English through a list of languages and back to English,
  recording one entry per hop; `customNumber`, `randomPermutation` and
  `customSequence` only build the list of languages. The translation
  service is an abstract `Provider` and random draws come from a tape.
*/
module Translator {
  import opened Wrappers
  import opened Types
  import Random
  import Initialize

  const English: string := "English"

  /**
    A language code as `translate` hands it to the provider. A name that is
    not a key of the code table yields JavaScript's `undefined`, which is
    passed on as is. Names of inherited object members ("toString" and the
    like) are treated the same way here.
  */
  datatype LangCode = Code(code: string) | Undefined

  const EnglishCode: LangCode := Code("en")

  /** `supportedLangCodes[name]`. */
  function CodeOf(codes: map<string, string>, name: string): LangCode {
    if name in codes then Code(codes[name]) else Undefined
  }

  /** The translation service: text, source code, target code to translated text. */
  type Provider = (string, LangCode, LangCode) -> string

  /** The language hop `k` goes to; hop `|names|` is the last one, back to English. */
  function Target(names: seq<string>, k: int): string
    requires 0 <= k <= |names|
  {
    if k < |names| then names[k] else English
  }

  /** The code hop `k` translates from: English first, then the previous hop's target. */
  function FromCode(codes: map<string, string>, names: seq<string>, k: int): LangCode
    requires 0 <= k <= |names|
  {
    if k == 0 then EnglishCode else CodeOf(codes, names[k - 1])
  }

  /** The code hop `k` translates to. */
  function ToCode(codes: map<string, string>, names: seq<string>, k: int): LangCode
    requires 0 <= k <= |names|
  {
    if k < |names| then CodeOf(codes, names[k]) else EnglishCode
  }

  /**
    `r` is the trace of translating `src` through `names`: it starts with the
    English source, and entry `k + 1` holds the target of hop `k` and the
    provider's translation of entry `k`'s text.
  */
  predicate IsChain(r: seq<Entry>, src: string, names: seq<string>,
                    codes: map<string, string>, provider: Provider)
  {
    && |r| == |names| + 2
    && r[0] == Entry(English, src)
    && forall k :: 0 <= k <= |names| ==>
         r[k + 1] == Entry(Target(names, k),
                           provider(r[k].text, FromCode(codes, names, k), ToCode(codes, names, k)))
  }

  /** The languages a trace passes through, without the English ends. */
  function Interior(r: seq<Entry>): seq<string>
    requires |r| >= 2
  {
    seq(|r| - 2, i requires 0 <= i < |r| - 2 => r[i + 1].langName)
  }

  /**
    `translate(srcText, langNames)`: folds over the names, threading the
    current text and code from the source text and "en", appending one entry
    per hop, and finishes with a hop back to "en".
  */
  method Translate(src: string, names: seq<string>, codes: map<string, string>, provider: Provider)
    returns (results: seq<Entry>)
    ensures IsChain(results, src, names, codes, provider)
    ensures Interior(results) == names
    ensures results[|results| - 1].langName == English
  {
    results := [Entry(English, src)];
    var currText := src;
    var currCode := EnglishCode;
    var i := 0;
    while i < |names|
      invariant 0 <= i <= |names| && |results| == i + 1
      invariant results[0] == Entry(English, src)
      invariant currText == results[i].text && currCode == FromCode(codes, names, i)
      invariant forall k :: 0 <= k < i ==>
        results[k + 1] == Entry(names[k],
                                provider(results[k].text, FromCode(codes, names, k), ToCode(codes, names, k)))
    {
      var nextCode := CodeOf(codes, names[i]);
      var nextText := provider(currText, currCode, nextCode);
      results := results + [Entry(names[i], nextText)];
      currText := nextText;
      currCode := nextCode;
      i := i + 1;
    }
    var nextText := provider(currText, currCode, EnglishCode);
    results := results + [Entry(English, nextText)];
  }

  /** Two traces that both satisfy `IsChain` agree up to entry `k`. */
  lemma {:induction false} ChainsAgree(r1: seq<Entry>, r2: seq<Entry>, src: string, names: seq<string>,
                                       codes: map<string, string>, provider: Provider, k: int)
    requires IsChain(r1, src, names, codes, provider) && IsChain(r2, src, names, codes, provider)
    requires 0 <= k < |r1|
    ensures r1[k] == r2[k]
    decreases k
  {
    if k > 0 {
      ChainsAgree(r1, r2, src, names, codes, provider, k - 1);
    }
  }

  /** `IsChain` pins the trace down: `translate` has exactly one possible result. */
  lemma ChainDeterministic(r1: seq<Entry>, r2: seq<Entry>, src: string, names: seq<string>,
                           codes: map<string, string>, provider: Provider)
    requires IsChain(r1, src, names, codes, provider) && IsChain(r2, src, names, codes, provider)
    ensures r1 == r2
  {
    forall k | 0 <= k < |r1| ensures r1[k] == r2[k] {
      ChainsAgree(r1, r2, src, names, codes, provider, k);
    }
  }

  /** A provider that appends the target code to the text. */
  function AppendCode(text: string, from: LangCode, to: LangCode): string {
    text + "-" + (if to.Code? then to.code else "undefined")
  }

  /**
    Through French and German with `AppendCode`, "hello" has exactly one
    trace: hello, hello-fr, hello-fr-de, hello-fr-de-en.
  */
  lemma HelloExample(r: seq<Entry>)
    ensures IsChain(r, "hello", ["French", "German"], map["French" := "fr", "German" := "de"], AppendCode)
        <==> r == [Entry(English, "hello"), Entry("French", "hello-fr"),
                   Entry("German", "hello-fr-de"), Entry(English, "hello-fr-de-en")]
  {
    var names := ["French", "German"];
    var codes := map["French" := "fr", "German" := "de"];
    var expected := [Entry(English, "hello"), Entry("French", "hello-fr"),
                     Entry("German", "hello-fr-de"), Entry(English, "hello-fr-de-en")];
    assert IsChain(expected, "hello", names, codes, AppendCode) by {
      assert ToCode(codes, names, 0) == Code("fr");
      assert ToCode(codes, names, 1) == Code("de");
      assert ToCode(codes, names, 2) == Code("en");
      assert "hello" + "-" + "fr" == "hello-fr";
      assert "hello-fr" + "-" + "de" == "hello-fr-de";
      assert "hello-fr-de" + "-" + "en" == "hello-fr-de-en";
    }
    if IsChain(r, "hello", names, codes, AppendCode) {
      ChainDeterministic(r, expected, "hello", names, codes, AppendCode);
    }
  }

  /** `customSequence(srcText, langNames)`: translates through the caller's list as given. */
  method CustomSequence(src: string, names: seq<string>, codes: map<string, string>, provider: Provider)
    returns (results: seq<Entry>)
    ensures IsChain(results, src, names, codes, provider)
    ensures Interior(results) == names
  {
    results := Translate(src, names, codes, provider);
  }

  /** The loop condition of `getRandomForeignLangName`: English and the previous name are redrawn. */
  predicate Rejected(name: string, prev: Option<string>) {
    name == English || prev == Some(name)
  }

  /** The name picked by draw `j`: `supportedLangNames[nextInt(0, length - 1)]`. */
  function Draw(names: seq<string>, tape: seq<int>, j: int): string
    requires |names| >= 1 && 0 <= j < |tape|
  {
    names[Random.NextInt(0, |names| - 1, tape[j])]
  }

  /** Every draw at a position in `[lo, hi)` is rejected. */
  predicate AllRejected(names: seq<string>, prev: Option<string>, tape: seq<int>, lo: int, hi: int)
    requires |names| >= 1 && 0 <= lo && hi <= |tape|
  {
    forall j :: lo <= j < hi ==> Rejected(Draw(names, tape, j), prev)
  }

  /**
    `getRandomForeignLangName(prev)`: draws names until one is neither
    English nor `prev`. The draws are read from `tape` starting at position
    `from`; the result is the accepted name with the position of the draw
    that produced it, or `None` when every remaining draw is rejected.
  */
  function RandomForeignLangName(names: seq<string>, prev: Option<string>, tape: seq<int>, from: nat)
    : (r: Option<(string, nat)>)
    requires |names| >= 1
    ensures r.Some? ==> from <= r.value.1 < |tape| && r.value.0 == Draw(names, tape, r.value.1)
    ensures r.Some? ==> r.value.0 in names && !Rejected(r.value.0, prev)
    ensures r.Some? ==> AllRejected(names, prev, tape, from, r.value.1)
    ensures r.None? <==> AllRejected(names, prev, tape, from, |tape|)
    decreases |tape| - from
  {
    if from >= |tape| then None
    else if !Rejected(Draw(names, tape, from), prev) then Some((Draw(names, tape, from), from))
    else RandomForeignLangName(names, prev, tape, from + 1)
  }

  /** Every acceptable name is the outcome of some single draw. */
  lemma ForeignNameReachable(names: seq<string>, prev: Option<string>, i: int)
    requires 0 <= i < |names| && !Rejected(names[i], prev)
    ensures RandomForeignLangName(names, prev, [i], 0) == Some((names[i], 0))
  {
    assert Random.NextInt(0, |names| - 1, i) == i;
  }

  /** A hop list with no English and no language twice in a row, drawn from `names`. */
  predicate ForeignHops(hops: seq<string>, names: seq<string>) {
    && (forall i :: 0 <= i < |hops| ==> hops[i] in names && hops[i] != English)
    && (forall i :: 0 < i < |hops| ==> hops[i - 1] != hops[i])
  }

  /** The number of iterations of `for (i = 0; i < n; i++)`. */
  function HopCount(n: int): nat {
    if n <= 0 then 0 else n
  }

  /** The name the `k`-th draw must differ from: `prev` for the first, then the hop before. */
  function PrevName(prev: Option<string>, hops: seq<string>, k: int): Option<string>
    requires 0 <= k <= |hops|
  {
    if k == 0 then prev else Some(hops[k - 1])
  }

  /** Where drawing for the `k`-th hop starts: `from`, then just after the previous accepted draw. */
  function StartOf(from: nat, at: seq<nat>, k: int): nat
    requires 0 <= k <= |at|
  {
    if k == 0 then from else at[k - 1] + 1
  }

  /**
    Hop `k` is what `getRandomForeignLangName` returns when it starts drawing
    just after the previous accepted draw and must avoid the previous hop.
  */
  predicate HopAccepted(names: seq<string>, prev: Option<string>, tape: seq<int>, from: nat,
                        hops: seq<string>, at: seq<nat>, k: int)
    requires |names| >= 1 && |hops| == |at| && 0 <= k < |hops|
  {
    RandomForeignLangName(names, PrevName(prev, hops, k), tape, StartOf(from, at, k)) == Some((hops[k], at[k]))
  }

  /** `hops` were accepted, in order, at the tape positions `at`. */
  predicate GreedyRun(names: seq<string>, prev: Option<string>, tape: seq<int>, from: nat,
                      hops: seq<string>, at: seq<nat>)
    requires |names| >= 1
  {
    && |hops| == |at|
    && forall k :: 0 <= k < |hops| ==> HopAccepted(names, prev, tape, from, hops, at, k)
  }

  /** After the accepted hops no acceptable draw is left: the tape has run out. */
  predicate Exhausted(names: seq<string>, prev: Option<string>, tape: seq<int>, from: nat,
                      hops: seq<string>, at: seq<nat>)
    requires |names| >= 1 && |hops| == |at|
  {
    RandomForeignLangName(names, PrevName(prev, hops, |hops|), tape, StartOf(from, at, |at|)).None?
  }

  /**
    The loop of `customNumber`: up to `count` calls of
    `getRandomForeignLangName`, each excluding the name drawn before it
    (`prev` for the first), reading the tape from `from`. Returns the
    accepted names and the positions of the draws that produced them; it
    stops early only when a call finds no acceptable draw left.
  */
  function Picks(names: seq<string>, count: nat, prev: Option<string>, tape: seq<int>, from: nat)
    : (r: (seq<string>, seq<nat>))
    requires |names| >= 1
    ensures |r.0| == |r.1| <= count
    decreases count
  {
    if count == 0 then ([], [])
    else match RandomForeignLangName(names, prev, tape, from)
      case None => ([], [])
      case Some((name, p)) =>
        var rest := Picks(names, count - 1, Some(name), tape, p + 1);
        ([name] + rest.0, [p] + rest.1)
  }

  /** A first accepted draw followed by a greedy run from just after it is a greedy run. */
  lemma GreedyRunCons(names: seq<string>, prev: Option<string>, tape: seq<int>, from: nat,
                      name: string, p: nat, hops: seq<string>, at: seq<nat>)
    requires |names| >= 1 && RandomForeignLangName(names, prev, tape, from) == Some((name, p))
    requires GreedyRun(names, Some(name), tape, p + 1, hops, at)
    ensures GreedyRun(names, prev, tape, from, [name] + hops, [p] + at)
  {
    forall k | 1 <= k <= |hops| ensures HopAccepted(names, prev, tape, from, [name] + hops, [p] + at, k) {
      assert HopAccepted(names, Some(name), tape, p + 1, hops, at, k - 1);
      HopAcceptedShift(names, prev, tape, from, name, p, hops, at, k);
    }
  }

  /** Hop `k - 1` of the rest of a run is hop `k` of the whole run. */
  lemma HopAcceptedShift(names: seq<string>, prev: Option<string>, tape: seq<int>, from: nat,
                         name: string, p: nat, hops: seq<string>, at: seq<nat>, k: int)
    requires |names| >= 1 && |hops| == |at| && 1 <= k <= |hops|
    requires HopAccepted(names, Some(name), tape, p + 1, hops, at, k - 1)
    ensures HopAccepted(names, prev, tape, from, [name] + hops, [p] + at, k)
  {
    var hs, ps := [name] + hops, [p] + at;
    assert hs[k] == hops[k - 1] && ps[k] == at[k - 1];
    assert PrevName(prev, hs, k) == PrevName(Some(name), hops, k - 1);
    assert StartOf(from, ps, k) == StartOf(p + 1, at, k - 1);
  }

  /** Running out after the rest of the run is running out after the whole run. */
  lemma ExhaustedCons(names: seq<string>, prev: Option<string>, tape: seq<int>, from: nat,
                      name: string, p: nat, hops: seq<string>, at: seq<nat>)
    requires |names| >= 1 && |hops| == |at|
    requires Exhausted(names, Some(name), tape, p + 1, hops, at)
    ensures Exhausted(names, prev, tape, from, [name] + hops, [p] + at)
  {
    var hs, ps := [name] + hops, [p] + at;
    assert PrevName(prev, hs, |hs|) == PrevName(Some(name), hops, |hops|);
    assert StartOf(from, ps, |ps|) == StartOf(p + 1, at, |at|);
  }

  /** The picks are a greedy run: each is the first acceptable draw after the one before. */
  lemma {:induction false} PicksGreedy(names: seq<string>, count: nat, prev: Option<string>,
                                       tape: seq<int>, from: nat)
    requires |names| >= 1
    ensures GreedyRun(names, prev, tape, from, Picks(names, count, prev, tape, from).0,
                      Picks(names, count, prev, tape, from).1)
    decreases count
  {
    if count > 0 {
      match RandomForeignLangName(names, prev, tape, from)
      case None =>
      case Some((name, p)) =>
        PicksGreedy(names, count - 1, Some(name), tape, p + 1);
        PicksConsGreedy(names, count, prev, tape, from, name, p);
    }
  }

  /** One step of `PicksGreedy`: an accepted draw in front of a greedy run of picks. */
  lemma PicksConsGreedy(names: seq<string>, count: nat, prev: Option<string>, tape: seq<int>,
                        from: nat, name: string, p: nat)
    requires |names| >= 1 && count > 0
    requires RandomForeignLangName(names, prev, tape, from) == Some((name, p))
    requires GreedyRun(names, Some(name), tape, p + 1, Picks(names, count - 1, Some(name), tape, p + 1).0,
                       Picks(names, count - 1, Some(name), tape, p + 1).1)
    ensures GreedyRun(names, prev, tape, from, Picks(names, count, prev, tape, from).0,
                      Picks(names, count, prev, tape, from).1)
  {
    var rest := Picks(names, count - 1, Some(name), tape, p + 1);
    assert Picks(names, count, prev, tape, from) == ([name] + rest.0, [p] + rest.1);
    GreedyRunCons(names, prev, tape, from, name, p, rest.0, rest.1);
  }

  /** The picks fall short of `count` only when no acceptable draw is left on the tape. */
  lemma {:induction false} PicksShortExhausted(names: seq<string>, count: nat, prev: Option<string>,
                                               tape: seq<int>, from: nat)
    requires |names| >= 1
    ensures var r := Picks(names, count, prev, tape, from);
      |r.0| < count ==> Exhausted(names, prev, tape, from, r.0, r.1)
    decreases count
  {
    if count > 0 {
      match RandomForeignLangName(names, prev, tape, from)
      case None =>
        PicksStopExhausted(names, count, prev, tape, from);
      case Some((name, p)) =>
        PicksShortExhausted(names, count - 1, Some(name), tape, p + 1);
        PicksConsShort(names, count, prev, tape, from, name, p);
    }
  }

  /** When the first call finds nothing, there are no picks and the tape is exhausted. */
  lemma PicksStopExhausted(names: seq<string>, count: nat, prev: Option<string>, tape: seq<int>, from: nat)
    requires |names| >= 1 && count > 0 && RandomForeignLangName(names, prev, tape, from).None?
    ensures Picks(names, count, prev, tape, from) == ([], [])
    ensures Exhausted(names, prev, tape, from, [], [])
  {
  }

  /** One step of `PicksShortExhausted`: an accepted draw in front of picks that ran out. */
  lemma PicksConsShort(names: seq<string>, count: nat, prev: Option<string>, tape: seq<int>,
                       from: nat, name: string, p: nat)
    requires |names| >= 1 && count > 0
    requires RandomForeignLangName(names, prev, tape, from) == Some((name, p))
    requires var rest := Picks(names, count - 1, Some(name), tape, p + 1);
      |rest.0| < count - 1 ==> Exhausted(names, Some(name), tape, p + 1, rest.0, rest.1)
    ensures var r := Picks(names, count, prev, tape, from);
      |r.0| < count ==> Exhausted(names, prev, tape, from, r.0, r.1)
  {
    var rest := Picks(names, count - 1, Some(name), tape, p + 1);
    assert Picks(names, count, prev, tape, from) == ([name] + rest.0, [p] + rest.1);
    if |rest.0| < count - 1 {
      ExhaustedCons(names, prev, tape, from, name, p, rest.0, rest.1);
    }
  }

  /** A name `getRandomForeignLangName` accepts is supported and acceptable. */
  lemma AcceptedName(names: seq<string>, prev: Option<string>, tape: seq<int>, from: nat, name: string, p: nat)
    requires |names| >= 1 && RandomForeignLangName(names, prev, tape, from) == Some((name, p))
    ensures name in names && !Rejected(name, prev)
  {
  }

  /** A greedy run has no English and no name twice in a row. */
  lemma GreedyRunForeign(names: seq<string>, prev: Option<string>, tape: seq<int>, from: nat,
                         hops: seq<string>, at: seq<nat>)
    requires |names| >= 1 && GreedyRun(names, prev, tape, from, hops, at)
    ensures ForeignHops(hops, names)
  {
    forall k | 0 <= k < |hops|
      ensures hops[k] in names && hops[k] != English && (k > 0 ==> hops[k - 1] != hops[k])
    {
      HopForeign(names, prev, tape, from, hops, at, k);
    }
  }

  /** Hop `k` of a greedy run is a supported name, not English, and not the hop before it. */
  lemma HopForeign(names: seq<string>, prev: Option<string>, tape: seq<int>, from: nat,
                   hops: seq<string>, at: seq<nat>, k: int)
    requires |names| >= 1 && GreedyRun(names, prev, tape, from, hops, at) && 0 <= k < |hops|
    ensures hops[k] in names && hops[k] != English && (k > 0 ==> hops[k - 1] != hops[k])
  {
    assert HopAccepted(names, prev, tape, from, hops, at, k);
    AcceptedName(names, PrevName(prev, hops, k), tape, StartOf(from, at, k), hops[k], at[k]);
  }

  /**
    The hop list of `customNumber`: `n` names, each drawn with the previous
    one excluded (no exclusion for the first). `None` exactly when the
    greedy picks stop short because every remaining draw is rejected.
  */
  function RandomForeignNames(names: seq<string>, n: int, tape: seq<int>): (r: Option<seq<string>>)
    requires |names| >= 1
    ensures n <= 0 ==> r == Some([])
    ensures r.Some? ==> |r.value| == HopCount(n) && ForeignHops(r.value, names)
    ensures
      var p := Picks(names, HopCount(n), None, tape, 0);
      && GreedyRun(names, None, tape, 0, p.0, p.1)
      && (r.Some? ==> r.value == p.0)
      && (r.None? ==> |p.0| < HopCount(n) && Exhausted(names, None, tape, 0, p.0, p.1))
  {
    var p := Picks(names, HopCount(n), None, tape, 0);
    PicksGreedy(names, HopCount(n), None, tape, 0);
    PicksShortExhausted(names, HopCount(n), None, tape, 0);
    GreedyRunForeign(names, None, tape, 0, p.0, p.1);
    if |p.0| == HopCount(n) then Some(p.0) else None
  }

  /** The names picked by the `count` draws from position `from` on, rejected or not. */
  function Draws(names: seq<string>, tape: seq<int>, from: nat, count: nat): (r: seq<string>)
    requires |names| >= 1 && from + count <= |tape|
    ensures |r| == count
    ensures forall k :: 0 <= k < count ==> r[k] == Draw(names, tape, from + k)
    decreases count
  {
    if count == 0 then [] else [Draw(names, tape, from)] + Draws(names, tape, from + 1, count - 1)
  }

  /** Draw `from + k` is acceptable given the draw before it (`prev` for the first). */
  predicate AcceptableAt(names: seq<string>, prev: Option<string>, tape: seq<int>, from: nat, k: int)
    requires |names| >= 1 && 0 <= k && from + k < |tape|
  {
    !Rejected(Draw(names, tape, from + k), if k == 0 then prev else Some(Draw(names, tape, from + k - 1)))
  }

  /** Draw `k + 1` from `from` is draw `k` from `from + 1`, with the draw at `from` before it. */
  lemma AcceptableAtShift(names: seq<string>, prev: Option<string>, tape: seq<int>, from: nat, k: nat)
    requires |names| >= 1 && from + k + 1 < |tape|
    requires AcceptableAt(names, prev, tape, from, k + 1)
    ensures AcceptableAt(names, Some(Draw(names, tape, from)), tape, from + 1, k)
  {
    assert from + (k + 1) == (from + 1) + k;
  }

  /**
    A tape whose `count` draws from `from` are each acceptable, given the
    draw before, yields exactly those names.
  */
  lemma {:induction false} AcceptableDrawsPicked(names: seq<string>, count: nat, prev: Option<string>,
                                                 tape: seq<int>, from: nat)
    requires |names| >= 1 && from + count <= |tape|
    requires forall k :: 0 <= k < count ==> AcceptableAt(names, prev, tape, from, k)
    ensures Picks(names, count, prev, tape, from).0 == Draws(names, tape, from, count)
    decreases count
  {
    if count > 0 {
      var name, next := Draw(names, tape, from), from + 1;
      assert AcceptableAt(names, prev, tape, from, 0);
      PicksFirstAccepted(names, count, prev, tape, from);
      forall k | 0 <= k < count - 1 ensures AcceptableAt(names, Some(name), tape, next, k) {
        AcceptableAtShift(names, prev, tape, from, k);
      }
      AcceptableDrawsPicked(names, count - 1, Some(name), tape, next);
    }
  }

  /** When the draw at `from` is acceptable, it is the first pick and the rest start after it. */
  lemma PicksFirstAccepted(names: seq<string>, count: nat, prev: Option<string>, tape: seq<int>, from: nat)
    requires |names| >= 1 && count > 0 && from < |tape|
    requires !Rejected(Draw(names, tape, from), prev)
    ensures Picks(names, count, prev, tape, from).0
         == [Draw(names, tape, from)] + Picks(names, count - 1, Some(Draw(names, tape, from)), tape, from + 1).0
  {
    assert RandomForeignLangName(names, prev, tape, from) == Some((Draw(names, tape, from), from));
  }

  /**
    `customNumber` yields its `n` hops whenever the tape's first `n` draws
    are acceptable one after another, and the hops are exactly those draws.
  */
  lemma AcceptableDrawsSucceed(names: seq<string>, n: int, tape: seq<int>)
    requires |names| >= 1 && HopCount(n) <= |tape|
    requires forall k :: 0 <= k < HopCount(n) ==> AcceptableAt(names, None, tape, 0, k)
    ensures RandomForeignNames(names, n, tape) == Some(Draws(names, tape, 0, HopCount(n)))
  {
    AcceptableDrawsPicked(names, HopCount(n), None, tape, 0);
  }

  /**
    `customNumber(srcText, n)`: translates through `n` randomly drawn foreign
    languages, consecutive ones distinct; for `n <= 0` straight back to
    English.
  */
  method CustomNumber(src: string, n: int, names: seq<string>, codes: map<string, string>,
                      provider: Provider, tape: seq<int>)
    returns (r: Option<seq<Entry>>)
    requires |names| >= 1
    ensures r.None? <==> RandomForeignNames(names, n, tape).None?
    ensures r.Some? ==> |r.value| >= 2 && IsChain(r.value, src, Interior(r.value), codes, provider)
    ensures r.Some? ==> Interior(r.value) == RandomForeignNames(names, n, tape).value
    ensures r.Some? ==> |Interior(r.value)| == HopCount(n) && ForeignHops(Interior(r.value), names)
    ensures n <= 0 ==> r.Some? && |r.value| == 2
  {
    var hops := RandomForeignNames(names, n, tape);
    if hops.None? {
      return None;
    }
    var results := Translate(src, hops.value, codes, provider);
    r := Some(results);
  }

  /** The names other than English. */
  function ForeignNames(names: seq<string>): (r: seq<string>)
    ensures multiset(r) == multiset(names)[English := 0]
    ensures |r| <= |names|
  {
    if names == [] then []
    else
      var init, last := names[..|names| - 1], names[|names| - 1];
      assert names == init + [last];
      if last == English then ForeignNames(init) else ForeignNames(init) + [last]
  }

  /**
    `randomPermutation(srcText)`: translates through every supported foreign
    language once, in shuffled order. One draw per language is read from
    `tape`.
  */
  method RandomPermutation(src: string, names: seq<string>, codes: map<string, string>,
                           provider: Provider, tape: seq<int>)
    returns (results: seq<Entry>)
    requires |tape| >= |names|
    ensures |results| >= 2 && IsChain(results, src, Interior(results), codes, provider)
    ensures multiset(Interior(results)) == multiset(names)[English := 0]
    ensures Interior(results) == Random.ShuffleFrom(ForeignNames(names), tape, 0)
  {
    var foreign := ForeignNames(names);
    var shuffled := Random.Shuffle(foreign, tape);
    results := Translate(src, shuffled, codes, provider);
  }

  /**
    With the tables built at start-up, every hop of a list drawn from the
    supported names translates between defined codes: the provider is never
    handed `undefined`.
  */
  lemma CatalogHopsDefined(data: seq<Initialize.LangPair>, hops: seq<string>)
    requires forall i :: 0 <= i < |hops| ==> hops[i] in Initialize.LangNames(data)
    ensures forall k :: 0 <= k <= |hops| ==>
      FromCode(Initialize.LangCodes(data), hops, k).Code? && ToCode(Initialize.LangCodes(data), hops, k).Code?
  {
    forall i | 0 <= i < |hops| ensures hops[i] in Initialize.LangCodes(data) {
      Initialize.CatalogNamesResolve(data, hops[i]);
    }
  }
}
