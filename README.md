# Pokémon quiz: guess matching and reveal state

This project is a Dafny model of the engine behind the Pokémon quiz page (`script.js`). It models the whole engine, over any catalogue of entries, and proves properties about it.

The player types the name of a hidden catalogue entry. The name is normalised:
- the ♀ and ♂ glyphs become `f` and `m`;
- the text is lower-cased;
- everything outside `[a-z0-9]` is dropped.

The normalised name is looked up in an index from keys to catalogue positions. The guess then reveals the first position under that key that is not yet revealed. If every position under the key is revealed already, the guess shows the first one again. Two catalogue entries share the key `nidoran`, and guessing it reveals both as a batch.

The page keeps three pieces of state:
- `revealed`: the ordered list of revealed positions;
- `userRevealed`: the set of positions the player found, as opposed to positions shown by giving up;
- `currentIndex`: the cursor of the card viewer.

Giving up reveals every remaining position without crediting the player. Reset hides everything again. Prev/next move the cursor. At start-up the saved progress is loaded, either from the current `{ all, user }` record or from the legacy list of normalised names.

The modules follow the script's parts:

- `Seqs` holds sequence helpers: JavaScript's `indexOf`, the order-preserving filters, and the cardinality facts.
- `Text` holds `normalizeText` and `String.prototype.trim`.
- `Catalog` holds the catalogue entries and `buildNormalizedIndexMap`, a loop that fills a map.
- `Lookup` holds `findIndexByInput`, in both its corrected and its as-written form, and the auto-submit test.
- `Reveal` holds the state transitions of `handleSubmit`, `handleGiveUp`, `handlePrev` and `handleNext` as functions of the state, together with their laws.
- `Storage` holds loading and saving. The legacy conversion is a loop over a `used` array. The current-format filter and `save` are also here.
- `Quiz` holds the class `Game`. Its fields are the ones the script updates in place. Each handler is a method proved to make exactly the transition that `Reveal` describes.

The state invariant has two layers:
- `Reveal.Valid` holds of every state, however it was loaded. Positions are in range, and the cursor is -1 exactly when nothing is revealed; otherwise it points at an entry.
- `Reveal.Consistent` adds that no position is revealed twice and that `userRevealed` is contained in `revealed`. Every transition preserves it. A legacy or empty load establishes it. A current-format record can break it, because the loader neither removes duplicates nor checks that `user` is contained in `all`.

## Where the code decides

Some descriptions of the game differ from what `script.js` does. The model follows the code:

- `normalizeText("Nidoran♀")` is `"nidoranf"`, not `"nidoran"`, because the glyph becomes `f` before the strip. Both Nidoran catalogue entries are spelled plainly (`script.js:37`, `script.js:40`), so a guess typed with the glyph is "not a secret word". See `Text.NidoranGlyphExample`.
- The code has no separate "invalid input" rejection. A guess whose key is empty (for example `"!!!"`) gets the same "not a secret word" answer as an unknown name (`script.js:421`, `script.js:450-454`).
- Some code paths do not fit the "no exceptions" description. The index is a plain object, so the guess `constructor` reaches an inherited function and throws (see Findings).
- When the Nidoran batch reveals something, it credits only the newly revealed positions. A Nidoran position shown earlier by giving up is credited only by a later Nidoran guess that finds both revealed (`Reveal.ResubmitNidoran`).

## Model

| member | source | states |
|---|---|---|
| `Text.Normalize` | script.js:223-228 | a key holds only lower-case ASCII letters and digits |
| `Text.NormalizeLength` | script.js:223-228 | a key is never longer than the text it came from |
| `Text.NormalizeFixesKeys` | script.js:223-228 | a string is its own key exactly when it holds only `[a-z0-9]` characters |
| `Text.NormalizeIdempotent` | script.js:223-228 | normalising a key again leaves it unchanged |
| `Text.NormalizeIgnoresAsciiCase` | script.js:223-228 | two texts that differ only in the case of ASCII letters have the same key |
| `Text.GlyphsAreLetters` | script.js:223-228 | ♀ and ♂ are replaced before the strip, so they count exactly as `f` and `m` wherever they occur |
| `Text.NormalizeAppend` | script.js:223-228 | the key of a concatenation is the concatenation of the keys |
| `Text.NidoranGlyphExample` | script.js:223-228 | "Nidoran♀" normalises to "nidoranf", which is not the catalogue's key "nidoran" |
| `Text.TrimStart` | script.js:443 | the result is a suffix of the input; what was dropped is white space; the result does not start with white space |
| `Text.TrimEnd` | script.js:443 | the result is a prefix of the input; what was dropped is white space; the result does not end with white space |
| `Text.Trim` | script.js:443 | the result is an infix of the input, everything dropped at either end is white space, and the result neither starts nor ends with white space |
| `Text.TrimEmpty` | script.js:443-447 | the trimmed guess is empty exactly when the input is all white space |
| `Text.TrimKeepsKey` | script.js:443 | trimming never changes a guess's key, so the untrimmed key used by auto-submit agrees with the trimmed one used by submit |
| `Seqs.IndexOf` | script.js:247-249 | -1 exactly when the position is absent; otherwise its first occurrence |
| `Seqs.Without` | script.js:461 | keeps exactly the elements not in the second list, and is no longer than its input |
| `Seqs.FullIffCovers` | script.js:533-546 | a duplicate-free list of positions below n has n elements exactly when it contains every position below n |
| `Catalog.Matches` | script.js:230-238 | the positions with a given key: every such position, only such positions, strictly ascending |
| `Catalog.BuildIndexMap` | script.js:230-238 | the index maps exactly the occurring keys to their positions; every position is in the list of its own key and in no other; lists are non-empty and strictly ascending |
| `Catalog.IndexStep` | script.js:233-236 | one push keeps the index correct for the positions seen so far |
| `Catalog.IndexOkPartitions` | script.js:230-238 | a correct index partitions the positions by key into non-empty ascending lists |
| `Lookup.FirstUnrevealed` | script.js:424-426 | the first position in the list that is not revealed, with every earlier one revealed |
| `Lookup.FindIndexByInput` | script.js:419-428 | no match exactly for an empty key, an unknown key or an empty list; otherwise the first unrevealed position of the key, or the key's first position flagged already-revealed exactly when all are revealed |
| `Lookup.FindIndexByInputAsWritten` | script.js:419-428 | the lookup as written on a plain object throws exactly for a guess whose key is an inherited property name the catalogue does not define |
| `Lookup.AsWrittenAgrees` | script.js:419-428 | the lookup as written and the corrected lookup agree on every guess whose key is not an inherited property name |
| `Lookup.ConstructorGuessThrows` | script.js:419-428 | the guess "constructor" makes the lookup as written throw, where the corrected lookup answers no match |
| `Reveal.RevealNew` | script.js:503-512 | a new reveal appends the position, credits it to the user, puts the cursor on it, keeps validity and consistency, and reports completeness |
| `Reveal.ShowAgain` | script.js:489-500 | an already revealed position leaves `revealed` unchanged; it is credited to the user, reported as promoted exactly when it was not credited before, and the cursor moves to its first occurrence |
| `Reveal.BatchShowAgain` | script.js:462-473 | with all Nidoran positions revealed: `revealed` is unchanged, all of them are credited, the cursor moves to the first occurrence of the first one, and the count is the number newly credited |
| `Reveal.BatchReveal` | script.js:475-486 | the unrevealed Nidoran positions are appended and credited, the cursor goes to the last one, and the count is their number |
| `Reveal.SubmitBatch` | script.js:459-487 | after a Nidoran guess every Nidoran position is revealed; the state only grows and stays valid and consistent |
| `Reveal.Submit` | script.js:437-513 | a blank guess or a guess without a match is rejected and changes nothing; every submission only appends to `revealed`, only adds to `userRevealed`, and keeps validity and consistency |
| `Reveal.Accept` | script.js:456-512 | a guess with a match is never rejected, and it keeps validity and consistency |
| `Reveal.GiveUp` | script.js:533-546 | no-op when as many positions as the catalogue has are revealed, or when not confirmed; otherwise it appends the unrevealed positions in ascending order, leaves every position revealed, credits nobody, and puts the cursor on the last entry |
| `Reveal.Prev` | script.js:548 | the cursor moves back by one when it is past the first entry, and otherwise nothing changes; it stays on an entry, and the revealed and found positions are unchanged |
| `Reveal.Next` | script.js:549 | the cursor moves on by one when it is before the last entry, and otherwise nothing changes; it stays on an entry, and the revealed and found positions are unchanged |
| `Reveal.IndexOkFits` | script.js:230-238 | the built index has ascending, in-range lists, as the transitions need |
| `Reveal.Complete` | script.js:485 | on a valid, consistent state the celebration test holds exactly when the user has found every position |
| `Reveal.CompleteIff` | script.js:485 | on a consistent state the celebration test holds exactly when the user has found every position |
| `Reveal.CelebrationIffAllFound` | script.js:512 | a submission reports completion exactly when, afterwards, the user has found every position |
| `Reveal.GuessRevealsFirstUnrevealed` | script.js:503-508 | a non-Nidoran guess with an unrevealed position reveals the smallest such position and changes nothing else |
| `Reveal.GuessAllRevealedShowsFirst` | script.js:489-500 | a non-Nidoran guess whose positions are all revealed shows the key's first position and credits only it |
| `Reveal.NidoranRevealsAll` | script.js:459-487 | a Nidoran guess appends exactly the unrevealed Nidoran positions in index order, reports their number, and reports the batch as already revealed exactly when none was missing |
| `Reveal.ResubmitSinglePosition` | script.js:489-500 | submitting a guess whose key has at most one position a second time changes nothing and promotes nothing |
| `Reveal.ResubmitNidoran` | script.js:462-473 | a second Nidoran guess reveals nothing more and credits every Nidoran position; a third changes nothing and converts none |
| `Lookup.AutoSubmitEligible` | script.js:395-409 | an eligible guess is non-blank after trimming, and its trimmed key, the one `handleSubmit` will look up, has a position the user has not found |
| `Reveal.SkippedGuessChangesNothing` | script.js:403-409 | on a consistent state, a guess that auto-submit passes over would reveal and credit nothing if submitted by hand |
| `Reveal.EligibleGuessAccepted` | script.js:395-409 | a guess that auto-submit submits is never rejected |
| `Reveal.GiveUpCoversAll` | script.js:533-546 | on a consistent state, giving up leaves each position revealed exactly once; the "all already revealed" report comes exactly when every position was revealed |
| `Reveal.PrevNextInverse` | script.js:548-549 | a step back followed by a step on, or the reverse, returns to the same entry whenever the first step moves |
| `Storage.FirstUnusedFrom` | script.js:195 | the lowest position with the name's key that no earlier name took, or -1 when there is none |
| `Storage.LegacyPositions` | script.js:190-202 | the converted positions are distinct and in range, no more than the names, and each has the key of some stored name |
| `Storage.FindUnused` | script.js:195 | the `findIndex` scan over the `used` flags finds the lowest unused position with the key |
| `Storage.ConvertLegacy` | script.js:190-202 | the conversion loop yields the positions above, distinct and in range, with the user's set equal to them as a set |
| `Storage.LegacyRoundTrip` | script.js:190-202 | writing a reveal order in the legacy format (the key of each revealed position, in order) and converting it back restores that order whenever positions that share a key were revealed lowest first |
| `Storage.InRange` | script.js:206-208 | the result holds exactly the stored `all` entries that are catalogue positions, and is no longer than the stored list |
| `Storage.InRangeAppend` | script.js:206-208 | the filter distributes over concatenation, so the kept entries keep their stored order and their repetitions |
| `Storage.InRangeKeeps` | script.js:206-208 | the range filter leaves an in-range list unchanged |
| `Storage.LoadKeepsStoredOrder` | script.js:203-220 | loading a current-format record whose entries are all positions restores `revealed` as stored, order and duplicates included |
| `Storage.CollectUser` | script.js:209-214 | the `forEach` loop collects exactly the stored `user` entries that are catalogue positions, as a set |
| `Storage.Load` | script.js:185-220 | a loaded state is valid, with the cursor on the last entry; a legacy load is consistent and credits every loaded position; a current load keeps exactly the in-range entries; nothing stored gives the empty state |
| `Storage.Save` | script.js:242-245 | the record holds `revealed` as it is, and exactly the user's positions |
| `Storage.SaveLoadRoundTrip` | script.js:242-245 | loading what `save` wrote restores the state, with the cursor on the last entry |
| `Quiz.Game.constructor` | script.js:185-238 | start-up builds the index and loads the stored progress into the fields; the guess input is enabled |
| `Quiz.Game.Submit` | script.js:437-513 | the handler makes exactly the `Reveal.Submit` transition and reports its outcome |
| `Quiz.Game.SubmitNidoran` | script.js:459-487 | the Nidoran branch makes exactly the `Reveal.SubmitBatch` transition |
| `Quiz.Game.NidoranAgain` | script.js:462-473 | the all-revealed Nidoran branch makes exactly the `Reveal.BatchShowAgain` transition |
| `Quiz.Game.NidoranReveal` | script.js:475-486 | the revealing Nidoran branch makes exactly the `Reveal.BatchReveal` transition |
| `Quiz.Game.Promote` | script.js:466-469 | the loop credits every given position and counts the ones not credited before |
| `Quiz.Game.PushAll` | script.js:475-478 | the loop appends the positions in order and credits them |
| `Quiz.Game.ShowRevealed` | script.js:489-500 | the already-revealed branch makes exactly the `Reveal.ShowAgain` transition |
| `Quiz.Game.RevealOne` | script.js:503-512 | the new-reveal branch makes exactly the `Reveal.RevealNew` transition |
| `Quiz.Game.GiveUp` | script.js:533-546 | the handler makes exactly the `Reveal.GiveUp` transition, and disables the input exactly when it gave up |
| `Quiz.Game.AppendUnrevealed` | script.js:537 | the loop appends every position not yet revealed, in ascending order |
| `Quiz.Game.Reset` | script.js:516-531 | when confirmed: nothing revealed, nothing credited, cursor -1, input enabled; when cancelled: nothing changes |
| `Quiz.Game.Prev` | script.js:548 | the handler makes exactly the `Reveal.Prev` step |
| `Quiz.Game.Next` | script.js:549 | the handler makes exactly the `Reveal.Next` step |

## Left out

- The page: rendering (`renderWordList`, `renderRevealed`, `acceptFeedback`), messages and element lookups. `Outcome` reports which message is shown. The cursor clamping in `renderRevealed` (`script.js:292-293`) does nothing on a valid state, so it is not modelled.
- Storage I/O. `localStorage`, `JSON.parse` and `JSON.stringify` are outside the model. The parsed value is the `Stored` parameter, and `save` is the `Storage.Save` function rather than an effect of each handler.
- Value coercion on load. Stored numbers are taken to be integers, so `Number()` coercion, `NaN`, and fractional numbers that pass the range filter are not modelled. Legacy names are taken to be strings.
- The early return of `normalizeText` for a non-string argument. Every call site passes a string, and its empty-string case coincides with what the passes give.
- Full Unicode `toLowerCase`. Only the characters whose lower case contains an ASCII letter or digit are modelled: ASCII capitals, the Kelvin sign and capital I with dot above. Every other character's lower case is removed by the strip either way.
- `Storage.Save`: the user's list is written in ascending order, not in `Set` insertion order. Loading turns it back into a set, so the order has no effect.
- Timers and the auto-submit plumbing: the debounce, the `setTimeout` chains and `isAutoSubmitting`. Only the eligibility test of `attemptAutoSubmit` is modelled.
- `Lookup.AutoSubmitEligible`: for the guess `constructor`, the test as written throws at `matching.some` inside its timer callback (`script.js:405`). The model treats that guess as not eligible. Either way nothing is submitted; the uncaught error is not modelled.
- The confirmation dialogs of reset and give-up are a `confirmed` parameter.
- `triggerCelebration` and all of `confetti.js` are animation. Only the completion flag in `Outcome` is kept.
- The literal 151-entry catalogue. The model is stated for any catalogue of entries.
- `Catalog.BuildIndexMap`: builds each key's list as an own entry of a map. As written, `buildNormalizedIndexMap` keeps the same plain-object lookup as the Findings row. A catalogue word whose key is `constructor` would therefore find the inherited `Object`, skip the `[]` initialisation and throw at `push` during start-up. No word in the shipped catalogue has that key, so the model leaves that start-up failure out.

## Findings

| source | as written | input that shows it | evidently intended | confidence | as-written member | corrected member |
|---|---|---|---|---|---|---|
| script.js:419-428 | the index is a plain object literal, so `normalizedIndexMap[key]` also finds properties inherited from `Object.prototype`; for the key `constructor` it yields a function (length 1), which passes both emptiness tests and then makes `for...of` throw a TypeError; the same lookup makes `attemptAutoSubmit` throw at `matching.some` (script.js:405) | typing `constructor` (in any ASCII case) and pressing Enter | the answer "not a secret word", by looking up own keys only | not executed | `Lookup.FindIndexByInputAsWritten`, `Lookup.ConstructorGuessThrows` | `Lookup.FindIndexByInput` |
