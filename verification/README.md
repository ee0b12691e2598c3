# SillyTranslate-Express core, modelled in Dafny

SillyTranslate-Express passes a text from English through a chain of
other languages and back to English. It records the text after every hop.
Four pieces of the server hold its logic, and this project models them and
proves their properties.

- **The recent-translations buffer** (`lib/queue.js`, module `CircularQueue`).
  It is a circular queue over an array of `max_size` slots with `front` and
  `back` indices. It holds at most `max_size - 1` items and evicts the oldest
  item when a push arrives while it is full. The queue is an immutable
  datatype. Each operation returns the new queue, or a `Failure` where the
  source throws "Queue is empty". `Items` reads the held items out of the
  array, oldest first, and every contract is stated against it. The index
  step `(i + 1) % max_size` is `NextSlot`, which is proved equal to it.
- **The random helpers** (`lib/random.js`, module `Random`).
  - `nextInt` is an oracle. A draw read from a tape is clamped into `[lo, hi]`.
  - `swap` and the Fisher–Yates `shuffle` loop are modelled on sequences.
- **Catalog construction** (`lib/initialize.js`, modules `Initialize` and `StringOrder`).
  - `langNames` gives the sorted list of names.
  - `langCodes` gives the name-to-code table.
  - `Queue(32)` is the empty recent-translations buffer.
  - The provider's `{code: name}` object is a sequence of `LangPair`s, in
    the order `for ... in` visits them.
- **The translation chain** (`lib/translator.js`, module `Translator`).
  - `translate` is a loop over the hop list.
  - The three front ends build that list: `customNumber`,
    `randomPermutation` and `customSequence`.
  - `getRandomForeignLangName` is the rejection loop.
  - The translation service is a `Provider` function parameter. Random
    draws come from a tape parameter.

`Wrappers` holds `Option` and `Result`. `Types` holds `Entry` and
`Translation` (`types.js`).

In three places where a reader might expect an error, the model follows the code:

- An unknown language name is not an error. For a name that is not a key of
  `supportedLangCodes`, the lookup gives `undefined`, and that value goes to
  the provider. It is modelled as `LangCode.Undefined`. Names of members
  that every object inherits, such as "toString" or "constructor", are the
  exception: see `Translator.Translate` under "Left out".
- A negative hop count is not an error. `customNumber` with `n <= 0`
  translates straight back to English.
- `nextInt` does not check its range. Its documented demand `lo <= hi` is a
  precondition.

## Model

| member | source | states |
|---|---|---|
| CircularQueue.Create | lib/queue.js:1-6 | A new queue is valid, has both indices at 0 and holds no items |
| CircularQueue.IsEmpty | lib/queue.js:67-69 | `front == back` holds exactly when the queue holds no items |
| CircularQueue.IsFull | lib/queue.js:76-78 | The index-collision test holds exactly when the queue holds `max_size - 1` items |
| CircularQueue.Size | lib/queue.js:54-60 | The two-branch formula equals the number of held items, which never exceeds `max_size - 1` |
| CircularQueue.Pop | lib/queue.js:27-35 | Fails with "Queue is empty" exactly when no items are held; otherwise returns the oldest item and a valid queue holding the remaining items in order |
| CircularQueue.Peek | lib/queue.js:42-48 | Fails with "Queue is empty" exactly when empty; otherwise returns the oldest item |
| CircularQueue.Push | lib/queue.js:13-20 | The held items become the old items plus `d`, with the oldest dropped when the queue was full; it fails exactly when `max_size == 1` |
| CircularQueue.Store | lib/queue.js:18-19 | Writing the back slot and advancing `back` appends the item to the held items |
| CircularQueue.ToList | lib/queue.js:86-92 | The wrapping walk from `front` to `back` returns exactly the held items, oldest first |
| CircularQueue.SingleSlotFullAndEmpty | lib/queue.js:13-16 | With one slot the queue is both full and empty, so `push` throws "Queue is empty" |
| CircularQueue.NextSlotIsModulo | lib/queue.js:19 | The wrapping index step equals `(i + 1) % max_size` |
| CircularQueue.PushKeepsNewest | lib/queue.js:13-20 | If the queue holds the newest `max_size - 1` of the items seen so far, one more push keeps that true |
| CircularQueue.PushAll | lib/queue.js:13-20 | After any run of pushes the queue holds the newest `max_size - 1` items seen, oldest first |
| Random.NextInt | lib/random.js:12-14 | The result lies in `[lo, hi]` |
| Random.NextIntCovers | lib/random.js:12-14 | Every integer in `[lo, hi]` is the outcome of some draw |
| Random.Swap | lib/random.js:36-40 | Swapping keeps the length (its effect on the elements is stated by `Random.SwapExchanges`) |
| Random.SwapExchanges | lib/random.js:36-40 | The two positions trade elements, all others are unchanged, and swapping a position with itself is the identity |
| Random.SwapPermutes | lib/random.js:36-40 | A swap preserves the multiset of elements |
| Random.Step | lib/random.js:22-24 | One loop iteration, a swap of `i` with a drawn `j` in `[i, length - 1]`, keeps the length |
| Random.ShuffleFrom | lib/random.js:22-25 | The iterations from `i` to the end keep the length; they are the reference the `Random.Shuffle` loop is proved against |
| Random.StepKeepsPrefix | lib/random.js:22-24 | Iteration `i` draws `j` in `[i, length - 1]`, so it never writes a position before `i` |
| Random.PrefixFinal | lib/random.js:22-25 | Positions before `i` are final once iteration `i` starts |
| Random.ShuffleFromPermutes | lib/random.js:21-26 | The remaining iterations of the loop preserve the multiset of elements |
| Random.ShortShuffleIdentity | lib/random.js:22-25 | Shuffling an empty or one-element array leaves it unchanged |
| Random.Shuffle | lib/random.js:21-26 | The loop computes the Fisher–Yates result; it is a permutation of the input of the same length, and the identity on short inputs |
| StringOrder.SortStrings | lib/initialize.js:94 | Sorting yields a sorted rearrangement of the input |
| StringOrder.SortedUnique | lib/initialize.js:94 | Two sorted sequences with the same elements are equal, so every correct sort gives the same list |
| Initialize.NamesOf | lib/initialize.js:87-92 | One name per entry, entry `i`'s name at position `i`, in visiting order |
| Initialize.LangNames | lib/initialize.js:86-96 | The result is sorted and is a permutation of the table's names, duplicates kept, one per entry |
| Initialize.LangNamesUnique | lib/initialize.js:94 | The result is the one sorted arrangement of the table's names |
| Initialize.LangCodes | lib/initialize.js:108-116 | The keys are exactly the names occurring in the table |
| Initialize.LangCodesLastWins | lib/initialize.js:110-114 | A name maps to the code of the last entry carrying it |
| Initialize.LangCodesFromEntry | lib/initialize.js:110-114 | Every name-code pair of the result is an entry of the table |
| Initialize.LangCodesInverse | lib/initialize.js:108-116 | With distinct codes, `data[langCodes(data)[n]] == n` for every key `n` |
| Initialize.LangCodesExactInverse | lib/initialize.js:101-116 | With distinct names, `langCodes(data)[data[c]] == c` for every code `c` |
| Initialize.CatalogNamesResolve | lib/initialize.js:86-116 | Every element of `langNames(data)` is a key of `langCodes(data)` |
| Initialize.InitRecentTranslations | lib/initialize.js:38-40 | The recent-translations buffer starts valid, with 32 slots, and empty |
| Initialize.RecentTranslationsKeepNewest | routes/translateRouter.js:144-148 | Saving any run of translations, one push each, into the fresh buffer of lib/initialize.js:38-40 leaves it holding the 31 most recent |
| Translator.Translate | lib/translator.js:75-105 | The trace is the chain: `{English, src}` first; entry `k + 1` holds the k-th name and the provider's translation of entry `k`, from "en" or the previous code to the name's code; then a final hop to "en" under "English"; `|names| + 2` entries |
| Translator.ChainDeterministic | lib/translator.js:83-102 | The chain description determines the trace uniquely |
| Translator.HelloExample | lib/translator.js:75-105 | With a provider appending the target code, "hello" through French and German gives exactly hello, hello-fr, hello-fr-de, hello-fr-de-en |
| Translator.CustomSequence | lib/translator.js:63-65 | The caller's list is translated through unchanged |
| Translator.RandomForeignLangName | lib/translator.js:137-146 | The result is the first draw that is neither "English" nor the previous name; it is a supported name; every earlier draw was rejected; there is no result exactly when every draw is rejected |
| Translator.ForeignNameReachable | lib/translator.js:141-144 | Every acceptable supported name can be the result |
| Translator.PicksGreedy | lib/translator.js:19-27 | Each pick is what `getRandomForeignLangName` returns on the rest of the tape, given the pick before it (no exclusion for the first) |
| Translator.PicksShortExhausted | lib/translator.js:19-27 | The picks stop short of the requested count only when the next call would find no acceptable draw |
| Translator.GreedyRunForeign | lib/translator.js:19-27 | Picks made that way are supported names, none "English", no two consecutive equal |
| Translator.Picks | lib/translator.js:19-28 | At most `count` picks, each paired with the tape position of its draw; what they are is stated by `Translator.PicksGreedy` and `Translator.PicksShortExhausted` |
| Translator.RandomForeignNames | lib/translator.js:18-28 | No hops when `n <= 0`. Otherwise it gives the successive picks when there are `n` of them, all foreign with no two consecutive equal. It fails exactly when the picks stop short, and then the next call finds no acceptable draw left |
| Translator.AcceptableDrawsPicked | lib/translator.js:137-145 | When each draw is acceptable given the one before it, each call of `getRandomForeignLangName` accepts its first draw, so the picks are exactly those draws |
| Translator.AcceptableDrawsSucceed | lib/translator.js:18-28 | A tape whose first `n` draws are acceptable one after another gives exactly those `n` names |
| Translator.CustomNumber | lib/translator.js:17-31 | It fails exactly when the hop list does; otherwise it returns the chain through that hop list, which is 2 entries long when `n <= 0` |
| Translator.ForeignNames | lib/translator.js:44-49 | The filtered list holds every supported name except "English", with multiplicity |
| Translator.RandomPermutation | lib/translator.js:41-53 | The result is the chain through the shuffled filtered list, which is a permutation of the supported names with every "English" removed |
| Translator.CatalogHopsDefined | lib/translator.js:85-98 | With the start-up tables, every hop over supported names translates between defined codes |

## Left out

- `translateHelper` (lib/translator.js:117-128) is an HTTP request to the translation service. It is the `Provider` parameter. Rejected promises and failed requests are not modelled, so a provider failure never aborts a chain here.
- `asyncForEach` and all `async`/`await` sequencing are subsumed by the sequential loop in `Translate`.
- Random.NextInt: only the range is stated. The `Math.random` formula and the uniform distribution of `nextInt` and `shuffle` are not modelled.
- Random.Swap: states only the length. The exchange is stated in `Random.SwapExchanges` and `Random.SwapPermutes`.
- Random.Step: states only the length. Its effect is stated in `Random.StepKeepsPrefix`.
- Random.ShuffleFrom: states only the length. Its effect is stated in `Random.PrefixFinal` and `Random.ShuffleFromPermutes`.
- `generateTranslationId` (random bytes) is not part of this model.
- Translator.RandomForeignLangName: the source loop is unbounded. The model draws only from a finite tape and returns `None` when the tape runs out. Whether the loop terminates is not modelled.
- Translator.RandomForeignNames: returns `None` when some call of `getRandomForeignLangName` finds no acceptable draw left on the tape. The source would keep drawing instead.
- Translator.CustomNumber: returns `None` exactly when `Translator.RandomForeignNames` does. The source never gives up.
- Translator.CustomNumber: `n` is an integer. The route passes `Number(req.body.options)` (routes/translateRouter.js:126), and three other values are not modelled. A fractional number runs `ceil(n)` iterations. NaN (from "abc", say) runs none. Infinity (from "Infinity" or "1e400") never ends the loop at lib/translator.js:19, so such a request hangs.
- Translator.RandomPermutation requires one draw per supported name on the tape.
- An empty `supportedLangNames` is excluded by `|names| >= 1`. This is the range demand of `nextInt(0, length - 1)`.
- StringOrder.SortStrings compares strings character by character. JavaScript's default sort compares UTF-16 code units, which orders characters outside the Basic Multilingual Plane differently.
- The order in which `for ... in` visits an object's keys is taken to be the order of the `LangPair` sequence. JavaScript visits integer-like keys first, and language codes are not integer-like.
- Inherited enumerable properties (the `hasOwnProperty` test) are not modelled.
- Translator.Translate: names of properties inherited from `Object.prototype`, such as "toString", "constructor" or "__proto__", are treated as `Undefined`. In JavaScript, `supportedLangCodes` is a plain `{}` (lib/initialize.js:109), so looking up such a name gives the inherited function or object (lib/translator.js:86), and that value goes into the request.
- The queue's backing array is filled with one shared `{}`, which is never observed. Here it is a blank translation.
- A `max_size` of 0 makes the first push set `back` to `(0 + 1) % 0`, which is NaN (lib/queue.js:19). A negative `max_size` makes `Array(max_size)` throw a `RangeError` (lib/queue.js:4). The requirement `maxSize >= 1` excludes both.
- Queue mutation is modelled as returning a new queue. Concurrent pushes into the shared buffer are not modelled.
- Start-up I/O is not modelled: reading the API key, fetching the language table, and creating the mail transporter.
- Routers, persistence, e-mail and `app.js` are not modelled.
