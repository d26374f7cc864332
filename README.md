# Evil hangman decision engine in Dafny

This project models `HangmanManager`, the decision engine of an "evil"
hangman game, and proves properties of the model. The engine never commits
to a secret word. It keeps a live pool of candidate words that agree with
everything revealed so far. On every guess it works in four steps:

- it computes, for each live word, the pattern the guess would reveal;
- it groups the words into families by that pattern;
- it ranks the families with a three-key comparator;
- it keeps the hardest family, except on a "mercy" guess, where it keeps
  the second-hardest.

The modules follow the structure of the program:

- `Patterns` holds the reveal pattern of one word (`createPattern`) and the
  agreement between a word and a pattern.
- `Ranking` holds the `HardestList` entry and its `compareTo` and
  `getTotalRevealed`, Java's `String.compareTo` (on text of Basic
  Multilingual Plane characters, see "## Left out"), the ascending order of
  `Collections.sort`, and the hardest and second-hardest family of a
  frequency map.
- `Partition` holds the specification functions of `findPattern`,
  `sortFamilies` and `setFrequency`, with the exact-partition and
  counting lemmas.
- `Scheduler` holds the mercy counter of `getNewPattern`, what it chooses,
  and its cadence over a whole round.
- `Guesses` holds the ascending letters of the guessed-letter registry and
  their rendering as `"[a, c, e]"`.
- `Hangman` holds the class `HangmanManager`. Its fields are those of the
  Java class, and its methods are the Java methods, written as loops and
  proved against the functions above. `Commit` and `CollectFamily` are not
  Java methods: `Commit` is the tail of `makeGuess`
  (HangmanManager.java:227-234), and `CollectFamily` is the inner loop of
  `sortFamilies` (HangmanManager.java:280-289). Each was split off so that
  its proof stays small.

The class invariant `Valid()` holds after `prepForRound` and after every
`makeGuess`. It says:

- the pattern has the round's length;
- every live word is an origin word that agrees with the pattern;
- no word is live twice;
- every revealed letter was guessed;
- the mercy counter has not passed the tier's limit.

`hardestMax` is a value of `Scheduler.Limit`:

- `After(m)` means a mercy pick when the counter equals `m`;
- `Never` stands for the hard tier, whose `Integer.MIN_VALUE` limit the
  counter never reaches.

The tier-to-limit mapping is a parameter of `PrepForRound` (see
"## Left out"). `Scheduler.Cadence` follows the code: with limit `m` the
mercy picks fall on every (m+1)-th guess, and after n guesses there have
been n / (m+1) of them. The counter starts at 0 and grows by one per
hardest pick, so it reaches m only after m hardest picks
(HangmanManager.java:303, 315). The mercy pick therefore falls on the
(m+1)-th guess, not the m-th.

The queries `numWordsCurrent`, `getGuessesLeft`, `alreadyGuessed` and
`getPattern` are the class functions `NumWordsCurrent`, `GetGuessesLeft`,
`AlreadyGuessed` and `GetPattern`. Each reads one field, so they carry no
contract of their own. `AlreadyGuessed` tests membership in the guessed
set. This matches the Java `containsValue` test, because the registry
maps each letter's string to that letter.

## Model

| member | source | states |
|---|---|---|
| Patterns.AllBlank | HangmanManager.java:113-119 | the blank pattern of length n has length n and only blanks |
| Patterns.RevealKeepsRevealed | HangmanManager.java:257-271 | a word that agrees with the pattern gets a new pattern that extends the old one: a revealed position never becomes blank again |
| Patterns.WordAgreesWithReveal | HangmanManager.java:257-271 | the word agrees with the pattern it produces, so it stays live in its family |
| Patterns.RevealWithoutGuess | HangmanManager.java:244-250 | a word without the letter reproduces the current pattern, which is why findPattern seeds the keys with curPattern |
| Patterns.RevealShowsGuess | HangmanManager.java:232-233 | the letter occurs in the new pattern exactly when it occurs in the word (both directions) |
| Patterns.RevealedLettersOfReveal | HangmanManager.java:262-267 | each position of the new pattern is the guess, the word's revealed letter, or blank |
| Hangman.HangmanManager.CreatePattern | HangmanManager.java:257-271 | the pattern has length wordLen; position x holds the guess where the word has it, the word's letter where the pattern is revealed, and blank otherwise |
| Ranking.TotalRevealed | HangmanManager.java:435-443 | the revealed count never exceeds the pattern's length |
| Ranking.TotalRevealedCountsPositions | HangmanManager.java:435-443 | the count equals the number of non-blank positions |
| Ranking.GetTotalRevealed | HangmanManager.java:435-443 | the counting loop returns the number of non-blank positions |
| Ranking.StringCompareAntisymmetric | HangmanManager.java:424 | swapping the arguments of String.compareTo negates the result |
| Ranking.StringCompareZero | HangmanManager.java:424 | String.compareTo is 0 exactly for equal strings |
| Ranking.StringCompareIsLex | HangmanManager.java:424 | String.compareTo is negative exactly when the first string is lexicographically smaller by character code |
| Ranking.StringCompareTransitive | HangmanManager.java:424 | String.compareTo's order is transitive |
| Ranking.CompareToAntisymmetric | HangmanManager.java:419-432 | b.compareTo(a) is exactly -(a.compareTo(b)) |
| Ranking.CompareToZero | HangmanManager.java:419-432 | compareTo is 0 only for equal count and equal pattern |
| Ranking.EasierByKeys | HangmanManager.java:419-432 | a sorts below b exactly when it has fewer words; or on equal count more revealed characters; or on a further tie the lexicographically larger pattern |
| Ranking.EasierTransitive | HangmanManager.java:419-432 | the comparator's strict order is transitive |
| Ranking.EasierTotal | HangmanManager.java:419-432 | two different entries are ordered one way or the other, never both |
| Ranking.Insert | HangmanManager.java:334 | inserting into an ascending list keeps it ascending, adds one entry and keeps all others |
| Ranking.HardestUnique | HangmanManager.java:318-319 | a frequency map has at most one hardest family |
| Ranking.DistinctPatterns | HangmanManager.java:323-335 | different positions of the sorted list hold different patterns |
| Ranking.LastIsHardest | HangmanManager.java:318-319 | the last entry of the ascending list is the hardest family |
| Ranking.SecondToLastIsSecondHardest | HangmanManager.java:312-313 | with two or more families, the second-to-last entry is the hardest once the hardest is removed |
| Hangman.HangmanManager.SortPattern | HangmanManager.java:323-335 | the list is strictly ascending under compareTo and holds exactly the (pattern, count) entries of the map |
| Partition.FamilyOfMembers | HangmanManager.java:280-289 | a family holds exactly the live words that produce its key, and is no larger than the pool |
| Partition.FindPatternCovers | HangmanManager.java:241-254 | the keys start with curPattern and include the pattern of every word that contains the guess |
| Partition.SortFamiliesEntries | HangmanManager.java:274-297 | the family map has a key exactly for each candidate key with a non-empty family, and maps it to that family |
| Partition.FamiliesPartition | HangmanManager.java:241-297 | on a live pool the families are non-empty, each word of a family produces its key, two families share no word, and every live word is filed under the pattern it produces |
| Partition.FamilyPattern | HangmanManager.java:257-297 | a family's pattern extends curPattern, adds nothing but the guess, and every word of the family agrees with it |
| Partition.FamilyOfNoDuplicates | HangmanManager.java:280-289 | a family of a pool without duplicates has none either |
| Partition.FamiliesNonEmpty | HangmanManager.java:241-297 | a non-empty live pool yields at least one family |
| Partition.ChosenFamily | HangmanManager.java:227-228 | any family can become the new pool: non-empty, no larger than the old pool, a sub-pool without duplicates, live for its pattern |
| Partition.FamilyOfSize | HangmanManager.java:339-349 | a family's size is the number of words that produce its key |
| Partition.TotalIsMatching | HangmanManager.java:339-349 | the sum of per-pattern counts is the number of words whose pattern is a key |
| Partition.FrequencySum | HangmanManager.java:221-224 | the counts of the returned frequency map add up to the live pool size before the guess |
| Hangman.HangmanManager.FindPattern | HangmanManager.java:241-254 | the loop builds the candidate-key list of the pool, in pool order |
| Hangman.HangmanManager.CollectFamily | HangmanManager.java:280-289 | the inner loop collects, in pool order, the words whose pattern is the key |
| Hangman.HangmanManager.SortFamilies | HangmanManager.java:274-297 | the nested loops build exactly the family map of the pool |
| Hangman.HangmanManager.SetFrequency | HangmanManager.java:339-349 | each family is mapped to its size, and no other key appears |
| Scheduler.Cadence | HangmanManager.java:303-315 | with limit m, after n guesses the counter is at most m and n = (mercy picks so far) * (m+1) + counter |
| Scheduler.CadenceDivMod | HangmanManager.java:303-315 | with limit m, after n guesses the counter is n % (m+1) and there have been n / (m+1) mercy picks |
| Scheduler.MercyOnMultiples | HangmanManager.java:303-315 | with limit m, the k-th guess is a mercy pick exactly when k is a multiple of m+1 |
| Scheduler.NeverMerciful | HangmanManager.java:106-109 | the hard tier never grants mercy; its counter just counts the guesses |
| Hangman.HangmanManager.GetNewPattern | HangmanManager.java:300-320 | on a mercy guess the counter resets and the second-hardest family is chosen, or the sole one; otherwise the counter increments and the hardest family is chosen |
| Hangman.CommitConsistent | HangmanManager.java:227-229 | committing to any family of the guess keeps the round state consistent, with the guess added to the guessed set |
| Hangman.HangmanManager.Commit | HangmanManager.java:227-234 | installs the pattern and pool and records the letter; costs one wrong guess exactly when the new pattern lacks the letter |
| Hangman.HangmanManager.MakeGuess | HangmanManager.java:215-238 | a repeated letter is an error with the state unchanged; otherwise it returns the full frequency map, commits the scheduler's family as pattern and pool (non-empty, no larger, a sub-pool), records the letter, applies the budget rule and keeps Valid |
| Hangman.HangmanManager.constructor | HangmanManager.java:44-50 | a non-empty origin set is stored with the debug flag, and the state is valid |
| Hangman.HangmanManager.WithoutDebug | HangmanManager.java:59-61 | the same, with debugging off |
| Hangman.HangmanManager.NumWords | HangmanManager.java:71-80 | returns the number of origin words of the given length |
| Hangman.HangmanManager.PrepForRound | HangmanManager.java:92-110 | the pattern is all blank, the pool is exactly the origin words of that length (so its size is numWords), nothing is guessed, the counter is 0 and the budget is the given number |
| Hangman.HangmanManager.SetDefaultPattern | HangmanManager.java:113-119 | the loop builds wordLen blanks |
| Hangman.HangmanManager.SetWordBank | HangmanManager.java:122-134 | the pool holds each origin word of the length exactly once |
| Guesses.Least | HangmanManager.java:171 | the least letter is in the set and below all others |
| Guesses.AscendingMembers | HangmanManager.java:171 | the ascending enumeration holds exactly the guessed letters |
| Guesses.AscendingSorted | HangmanManager.java:171 | the ascending enumeration is strictly increasing, so each letter appears once |
| Guesses.AscendingHead | HangmanManager.java:171 | the enumeration starts with the least letter |
| Guesses.AscendingLetters | HangmanManager.java:171-177 | taking the least remaining letter each time yields the ascending enumeration |
| Guesses.RenderLetters | HangmanManager.java:169-181 | the fencepost loop builds "[]" or "[" + the letters joined by ", " + "]" |
| Guesses.JoinedLayout | HangmanManager.java:174-177 | letter i sits at position 3i, with ", " between neighbours |
| Guesses.RenderLayout | HangmanManager.java:169-181 | the rendering has length 3n, brackets at both ends, letter i at 3i+1 and ", " between letters |
| Guesses.RenderRoundTrip | HangmanManager.java:169-181 | the letters can be read back from the rendering |
| Hangman.HangmanManager.GetGuessesMade | HangmanManager.java:168-182 | returns the distinct guessed letters in ascending order as "[a, c, e]", and "[]" when nothing was guessed |
| Hangman.HangmanManager.GetSecretWord | HangmanManager.java:382-392 | an error exactly when the pool is empty; otherwise a live word, and the sole word when one remains |

## Left out

- Debug output (`debugFamilyResult`, HangmanManager.java:352-372) is console output only. The `hardest` flag it reads is kept as a field, and `GetNewPattern` and `MakeGuess` state its value.
- `Math.random` in `getSecretWord` is floating-point randomness. The model picks an arbitrary in-range index instead.
- The `HangmanDifficulty` enum is not part of this model, and neither is the ordinal arithmetic of HangmanManager.java:101-109. The tier's limit is passed to `PrepForRound` as a `Limit`. A finite tier passes `After(m)`, and the hard tier passes `Never` in place of the `Integer.MIN_VALUE` sentinel.
- Java `int` widths are not modelled. Sizes and counters are unbounded, so the model assumes `curHardCount` never wraps after 2^31 increments, and that `maxGuessLeft` never underflows.
- `PrepForRound` takes a `nat` word length. A negative Java `wordLen` would yield an empty pattern and an empty pool.
- The constructor's null check is not modelled. Only the non-empty precondition on the word set is kept.
- Calls made before `prepForRound` behave differently. In Java, five calls fail with a null pointer: `numWordsCurrent`, `getGuessesMade`, `alreadyGuessed`, `makeGuess` and `getSecretWord`. The other three calls work in Java: `numWords` reads only `originBank`, `getGuessesLeft` returns 0 and `getPattern` returns null. In the model the constructor starts with an empty pool, an empty guessed set and an empty pattern. So `NumWordsCurrent`, `GetGuessesMade`, `AlreadyGuessed` and `GetSecretWord` return the results for an empty round. `MakeGuess` cannot be called on a fresh object at all, because it requires a non-empty pool. The constructors state every field, so `GetGuessesLeft` returns 0, and `GetPattern` returns "" where Java returns null.
- MakeGuess: requires a non-empty pool. On an empty pool the Java code fails with an index error inside `getNewPattern`, and what it has already changed depends on the branch. On a mercy guess it has set `hardest` to false and reset the counter before `patterns.get(-2)` fails (HangmanManager.java:303-313). On any other guess it has incremented the counter and set `hardest` to true before `patterns.get(-1)` fails (HangmanManager.java:315-319). `prepForRound`'s documented precondition `numWords(wordLen) > 0` gives a non-empty pool at the start of a round. After that, `MakeGuess`'s `ensures r.Ok? ==> 0 < |curBank| <= |old(curBank)| ...` (hangman_manager.dfy) keeps it non-empty after a successful guess, and its `unchanged(this)` on the error path keeps it non-empty after a repeated letter. `Valid()` itself does not say the pool is non-empty.
- Strings and characters are modelled as sequences of Unicode scalar values. Java's `length()`, `charAt`, `contains` and `String.compareTo` (HangmanManager.java:75, 129, 247, 262, 424) work on UTF-16 code units. The two agree only on text without supplementary characters (those outside the Basic Multilingual Plane). On other text they differ in three ways. A supplementary character counts as one position in the model and as two in Java, so `OfLength` and `NumWords` can disagree with `numWords`. `StringCompare` compares scalar values where Java compares code units, so the comparator's last tie-break can flip, for example between "\uFFFF" and "\U{1F600}". A lone surrogate, which Java accepts as a `char` guess, has no Dafny `char`.
- The origin word set is copied. The constructor stores the set's value, where Java keeps a reference to the caller's set (`originBank = words`, HangmanManager.java:49). Changes the caller makes to that set later reach Java's `numWords` and `prepForRound`, but not the model.
- The iteration orders of `HashSet` and `TreeMap` are not modelled. The pool comes out of `SetWordBank` in some order (each word once), and `SortPattern` and `SetFrequency` visit the map keys in some order. The results do not depend on that order. The one exception is the order of words inside the pool, which the model fixes by the pool order.
- `Collections.sort` is modelled as insertion into an ascending list (`Ranking.Insert`). The sorted result is the same, because the comparator is a strict total order on distinct entries.
- `getGuessesMade` reads the registry's `TreeMap` keys, which are one-letter strings. The model iterates over the guessed letters in character order, which is the same order for one-letter strings.
