# slight-misspeller: a verified model of the misspelling core

The misspeller takes a text and adds realistic typing mistakes to it.

- The text is cut into lines, and each line into words and whitespace runs.
- Every word goes through `_misspell_word`. Each character may be deleted, doubled with a neighbouring key, or replaced by a neighbouring key. The neighbour is chosen by `_mistype_key` from a weighted dictionary and sampled with `_dictionary_sample`.
- Compatible neighbouring characters of the new line may trade places (`_can_swap`).
- The text produced so far is cleared of blacklisted words.
- A phonological stage is planned: `_word_blocks` cuts a word into syllable-like blocks, and `_misspell_syllable` would rewrite them. That rewriting is not carried out: the blocks are computed and then unused.

This project models that core in Dafny and proves what it promises. There is one module per concern:

| module | models |
|---|---|
| `Chars` (chars.dfy) | character classes: ASCII case, digits, vowels and consonants, whitespace, the punctuation set |
| `Seqs` (seqs.dfy) | `str.find`, `str.split`/`str.join`, `"".join`, subsequences |
| `Config` (config.dfy) | the parameters as one immutable record, the probability rules of `_read_config`, the random source |
| `Sample` (sample.dfy) | `_dictionary_sample` |
| `Keyboard` (keyboard.dfy) | the keyboard grid and `_mistype_key` |
| `Segment` (segment.dfy) | `_word_blocks` |
| `Swap` (swap.dfy) | `_can_swap` |
| `Word` (word.dfy) | `_misspell_word` and `_misspell_syllable` |
| `Blacklist` (blacklist.dfy) | the blacklist loop of `misspell_string` |
| `Text` (text.dfy) | `misspell_string`: lines, pieces, the swap loop, the blacklist pass, the output |

How the source's features are represented:

- **Random numbers.** Every call to `random.random()` reads the next value of a caller-supplied stream `rnd: nat -> Draw`, where a `Draw` is a real in [0, 1). Each operation takes the index `n` of its first draw and returns the index of the first draw it did not use. Its result is therefore a function of its inputs and the stream, and every property holds for every stream.
- **Process-wide globals.** The parameters become the record `Config.Params`.
- **Loops.** Each loop of the source is a `method` with a `while` or `for` loop. Its `ensures` ties the result to a recursive specification function, and the properties are lemmas about that function:

| method | specification function |
|---|---|
| `Segment.ReadRuns` | `Segment.TagFrom` |
| `Keyboard.MistypeKey` | `Keyboard.Mistype` |
| `Sample.DictionarySample` | `Sample.Pick` |
| `Word.TypeWord` | `Word.Typos` |
| `Text.SwapPass` | `Text.Swapped` |
| `Blacklist.ScrubWord` | `Blacklist.ScrubEntry` |
| `Text.MisspellString` | `Text.Misspelled` |

Where the code and its documentation disagree, the model follows the code:

- **Swaps cascade.** The swap loop compares characters of the line it is rewriting. A character moved one place to the right is compared again at its new place (`Text.SwapsCascade`).
- **Layers.** The boundary flags use `row % 4`, so the keyboard is two layers of four rows. For example, 'q' (row 1) has the number row above it, including the diagonal '2' (`Keyboard.ChoicesOfQ`).
- **Unused categories.** The categories `c` and `v` named in `_BLOCKS` are never produced. `Segment.Category` has only the six categories the code produces.
- **Mode.** `misspell_string` does not pass its mode to `_misspell_word`, so every piece goes through mode 0. The mode only switches the swap loop.
- **Empty strings and `_can_swap`.** The empty string passes the punctuation test, because `"" in p` is true (`Swap.CanSwapLengths`). The swap loop only ever passes single characters.

## Model

| member | source | states |
|---|---|---|
| Chars.LowerString | misspell.py:933 | `str.lower` keeps the length and lowers each character in place |
| Chars.KindOf | misspell.py:369-370 | a character is a vowel, a consonant or other, exactly as the vowel set, the consonant set or neither matches it case-insensitively |
| Chars.MarkIsPunctuation | misspell.py:451 | the code-point test used for the punctuation set accepts exactly the characters of `p` |
| Seqs.FindFrom | misspell.py:933 | a position found by the search is at or after the start and `pat` occurs there |
| Seqs.FindFromMeaning | misspell.py:933 | the search finds the lowest such position, and finds nothing exactly when `pat` occurs at no position from the start on |
| Seqs.FindMeaning | misspell.py:933 | `str.find` gives the lowest index of an occurrence, and -1 exactly when there is none |
| Seqs.Split | misspell.py:911 | `split('\n')` gives at least one part, and no part holds the separator |
| Seqs.JoinSplit | misspell.py:911 | joining the parts of a split with the separator gives the text back |
| Seqs.ConcatAppend | misspell.py:914-916 | concatenating two lists of pieces is concatenating their concatenations |
| Seqs.SubsequenceLength | misspell.py:936 | a subsequence is never longer, and one of equal length is the sequence itself |
| Config.Load | misspell.py:612-673 | the parameters in force always satisfy the probability rules; a configuration that satisfies them is taken as read, and one that is incomplete or breaks them gives the defaults |
| Sample.Pick | misspell.py:842-858 | the value of `_dictionary_sample` for one draw: no key exactly when the dictionary is empty, and otherwise one of its keys (the first key whose running total reaches `total*r`, as `Sample.FirstReachingInterval` states) |
| Sample.FirstReaching | misspell.py:851-855 | the index found is the first whose running total reaches the target; when none is found, no running total reaches it |
| Sample.DictionarySample | misspell.py:842-858 | the two loops use exactly one draw r and return the first key whose running total reaches `total*r`, or the first key when none does |
| Sample.RunningMonotone | misspell.py:843-845 | with non-negative weights the running totals never decrease |
| Sample.PickFound | misspell.py:842-858 | with a non-empty dictionary of non-negative weights a key is always reached, so the fallback is never taken and the result is one of the keys |
| Sample.FirstReachingInterval | misspell.py:848-855 | key j is chosen exactly when the scaled draw lies above the running total before j and at most the running total through j |
| Keyboard.RowFrom | misspell.py:480-482 | the row scan stops at the first row holding the character, and runs past the last row exactly when no row holds it |
| Keyboard.IndexOf | misspell.py:489 | `find` gives the first column holding the character |
| Keyboard.PositionOfKeys | misspell.py:130-131 | every key of the grid is found at its own row and column |
| Keyboard.LocateIsPosition | misspell.py:480-489 | the scan finds every key at its position and finds nothing for a character off the keyboard |
| Keyboard.KeysDistinct | misspell.py:130-131 | the 80 keys are distinct |
| Keyboard.SlotMeaning | misspell.py:491-520 | the boundary flags allow a place exactly when it holds a different key at most one row and column away, in the same layer of four rows |
| Keyboard.NeighbourHasSlot | misspell.py:504-520 | every such neighbour lies in one of the eight places tried |
| Keyboard.GatherMeaning | misspell.py:504-520 | the candidates are the allowed places, each once |
| Keyboard.CandidatesAreNeighbours | misspell.py:504-520 | every candidate is a neighbour; it has weight 1 when it shares a row or column with the key, and cos 45 otherwise |
| Keyboard.NeighboursAreCandidates | misspell.py:504-520 | every neighbour is a candidate |
| Keyboard.DiagonalNeedsStraight | misspell.py:504-516 | a diagonal key is offered only when the horizontal and the vertical neighbour next to it are offered too |
| Keyboard.CandidatesShape | misspell.py:504-520 | every key has a candidate, and no position is offered twice |
| Keyboard.PutFresh | misspell.py:506 | assigning to a new dictionary key appends it |
| Keyboard.PutPresent | misspell.py:506 | assigning to a present key changes its value in place and nothing else |
| Keyboard.PutDistinct | misspell.py:506 | a dictionary never holds a key twice |
| Keyboard.OfferAllEntries | misspell.py:504-520 | no assignment overwrites another: the dictionary holds each candidate's key and weight, in candidate order |
| Keyboard.ChoicesAreCandidates | misspell.py:504-520 | the `choices` dictionary is the list of candidates' keys and weights |
| Keyboard.ChoicesUsable | misspell.py:504-523 | the dictionary handed to the sampler is non-empty, with no negative weight |
| Keyboard.Mistype | misspell.py:460-523 | the value of `_mistype_key`: the result has the argument's length and uses at most one draw; `Keyboard.MistypeDraws` and `Keyboard.MistypeNeighbour` state which draw and which key |
| Keyboard.MistypeKey | misspell.py:476-523 | the row scan, the boundary flags, the dictionary and the sample give `Mistype` |
| Keyboard.CollectChoices | misspell.py:491-520 | the boundary flags and the eight conditional assignments give the `choices` dictionary |
| Keyboard.OfferSide | misspell.py:504-516 | one side block assigns the key beside, the diagonal above and the diagonal below, each when the flags allow it |
| Keyboard.OfferTaken | misspell.py:504-520 | an allowed place assigns its key with its weight |
| Keyboard.OfferSkipped | misspell.py:504-520 | a place the flags rule out leaves the dictionary as it is |
| Keyboard.LayerEdges | misspell.py:496-501 | when the top flag is off there is a row above, and when the bottom flag is off there is a row below, so the lookups the flags guard stay on the grid |
| Keyboard.MistypeDraws | misspell.py:476-523 | a draw is used exactly when the argument is one keyboard character; otherwise the argument comes back as it is |
| Keyboard.MistypeNeighbour | misspell.py:476-523 | a keyboard character is replaced by the key of one of its neighbours, never by itself |
| Keyboard.CandidatesOfQ | misspell.py:504-520 | the candidates of 'q', in order: right, up-right, down-right, up, down |
| Keyboard.EntriesOfQ | misspell.py:130-131 | the keys at those places are 'w', '2', 's', '1' and 'a' |
| Keyboard.ChoicesOfQ | misspell.py:476-520 | 'q' is offered 'w', '1' and 'a' at weight 1 and '2' and 's' at cos 45 |
| Segment.Runs | misspell.py:369-370 | the clusters are non-empty, and the first starts with the word's first character |
| Segment.RunsConcat | misspell.py:369-370 | the clusters, concatenated, give the word back |
| Segment.RunsWellFormed | misspell.py:369-370 | each cluster is of one kind, and neighbouring clusters differ in kind, so the clusters are maximal runs |
| Segment.RunsOfRun | misspell.py:369-370 | a word of one kind is one cluster |
| Segment.RunsPrepend | misspell.py:369-370 | a run followed by a word starting with another kind gives that run, then the word's clusters |
| Segment.Step | misspell.py:389-416 | one turn of the reading loop always moves on, and never past the last cluster, so the loop ends |
| Segment.StepMeaning | misspell.py:389-416 | the block a turn appends fits its category (`c_b` with no letter before it, `v_e` with none after, `vc` a vowel run then a consonant run, `n` non-letters), and the next cluster starts a new kind |
| Segment.TagFrom | misspell.py:383-416 | the reading loop gives one category per block |
| Segment.TagFromConcat | misspell.py:383-416 | the blocks, concatenated, are the clusters read |
| Segment.TagFromShape | misspell.py:383-416 | the loop gives no block exactly when no cluster is left; blocks are non-empty, never `v_w` or `cv_w`, and no boundary falls inside a run |
| Segment.TagFromMeaning | misspell.py:383-416 | every block the loop gives fits its category, given the character in front of the first |
| Segment.ReadStep | misspell.py:389-416 | one turn moves a block and its category from what is still to come to what was produced |
| Segment.Segmentation | misspell.py:337-419 | the value of `_word_blocks`: one category per block; `Segment.SegmentationPartition`, `Segment.SegmentationFits` and the two whole-word lemmas state what the blocks are |
| Segment.SegmentationPartition | misspell.py:369-419 | the blocks, concatenated in order, give the word back, none is empty, and there is one category per block |
| Segment.VowelWordIff | misspell.py:377-378 | the result is `v_w` exactly when the word is a non-empty run of vowels |
| Segment.ConsonantVowelRuns | misspell.py:369-370 | a consonant run followed by a vowel run is read as those two clusters |
| Segment.ConsonantVowelWordIff | misspell.py:379-381 | the result is `cv_w` exactly when the word is a consonant run followed by a vowel run |
| Segment.SegmentationFits | misspell.py:377-416 | every block fits its category, and neighbouring blocks meet where the kind of character changes |
| Segment.WordBlocks | misspell.py:368-419 | the two whole-word checks and the reading loop give `Segmentation` |
| Segment.ReadRuns | misspell.py:383-416 | the reading loop appends exactly the blocks and categories of `TagFrom` |
| Swap.CanSwap | misspell.py:423-456 | the value of `_can_swap` on two strings; its meaning is stated by `Swap.CanSwapOnChars`, `Swap.CanSwapSameClass` and `Swap.CanSwapLengths` |
| Swap.ClassOfMeaning | misspell.py:445-453 | each swap class holds exactly the characters of one test of `_can_swap`, so no punctuation mark is a letter or a digit |
| Swap.CanSwapSameClass | misspell.py:445-456 | two characters may swap exactly when they have the same class |
| Swap.CanSwapTransitive | misspell.py:445-456 | compatibility is transitive |
| Swap.CanSwapSymmetric | misspell.py:440-456 | compatibility is symmetric |
| Swap.CanSwapOnChars | misspell.py:440-456 | on single characters, two lowercase letters, two uppercase letters, two digits or two marks of `p` may swap, and nothing else |
| Swap.CanSwapLengths | misspell.py:440-453 | an argument longer than one character never swaps; the empty string swaps with the empty string and with each mark |
| Swap.CanSwapExamples | misspell.py:445-456 | ('a','b') and ('7','0') swap; ('a','1') and ('A','a') do not |
| Swap.CanSwapMarks | misspell.py:440-453 | ('!','?') and ('','!') swap; ('ab','c') does not |
| Word.Mode | misspell.py:190-191 | a mode other than 0, 1 or 2 is read as 0, and the others are kept |
| Word.MisspellSyllable | misspell.py:265-333 | a syllable comes back unchanged, whatever its category and flags |
| Word.Misspelt | misspell.py:164-262 | the value of `_misspell_word` as written; its properties are `Word.MisspeltLength`, `Word.MisspeltUnchanged` and `Word.PhonologicalModeEmpties` |
| Word.MisspellWord | misspell.py:187-262 | mode normalisation, the whitespace branch, the block split and the typing loop give `Misspelt` |
| Word.DeleteSpaces | misspell.py:196-203 | the whitespace loop keeps a character when its draw is below 1 - delete_space |
| Word.TypeWord | misspell.py:239-260 | the typing loop applies one band per character, in order |
| Word.MistypeNear | misspell.py:252-257 | `_mistype_key` on one character gives one character, a neighbour's key or the character itself off the keyboard, with one draw exactly for a key |
| Word.TypoCharOutcomes | misspell.py:243-260 | by band of its draw, a character becomes nothing, a near key on the side the second draw picks and the character, a near key, or itself |
| Word.TypoChar | misspell.py:243-260 | one turn of the typing loop: a character gives at most two characters and uses one to three draws; `Word.TypoCharOutcomes` states the outcome of each band |
| Word.SpaceKeptSubsequence | misspell.py:197-203 | a whitespace word comes back as a subsequence of itself, using one draw per character |
| Word.SpaceKeptAll | misspell.py:197-203 | with delete_space 0 a whitespace word comes back unchanged |
| Word.TyposBounds | misspell.py:243-260 | the typing loop at most doubles the word, with one to three draws per character |
| Word.TyposNone | misspell.py:243-260 | with delete_char, insert and replace at 0 the word is copied, one draw per character |
| Word.MisspeltUnchanged | misspell.py:195-262 | in modes 0 and 2, with every typographical probability at 0, a word comes back unchanged |
| Word.MisspeltLength | misspell.py:195-262 | a misspelt word is at most twice as long as the word |
| Word.PhonologicalModeEmpties | misspell.py:195-262 | as written, mode 1 turns every word into the empty string without a draw |
| Word.IntendedPhonologicalMode | misspell.py:195-262 | as intended, mode 1 gives every word back; modes 0 and 2 agree with the code, and mode 1 differs on every non-empty word |
| Blacklist.Delete | misspell.py:936 | removing one character shortens the text by one |
| Blacklist.LastOfFirst | misspell.py:935 | the deletion position, the last character of the first occurrence, lies inside the text |
| Blacklist.ScrubWord | misspell.py:933-936 | the `while` loop for one entry gives `ScrubEntry` |
| Blacklist.DeletionTurn | misspell.py:933-936 | one turn shortens the text and leaves the loop's outcome as it was, so the loop ends |
| Blacklist.ScrubAll | misspell.py:931-936 | the value of the blacklist loop, each entry once, in order; `Blacklist.ScrubAllMeaning` states what it removes |
| Blacklist.ScrubText | misspell.py:931-936 | the loop over the blacklist gives `ScrubAll` |
| Blacklist.DeleteSubsequence | misspell.py:936 | deleting a character leaves a subsequence |
| Blacklist.SubsequenceTransitive | misspell.py:931-936 | deletions after deletions are deletions |
| Blacklist.ScrubEntryMeaning | misspell.py:933-936 | afterwards the entry does not occur, ignoring case; only characters were deleted, at least one exactly when the entry occurred |
| Blacklist.ScrubAllMeaning | misspell.py:931-936 | after the pass the last entry does not occur; the text only lost characters, and kept its length only if nothing changed |
| Blacklist.ScrubAllPrefixKeeps | misspell.py:931-936 | a pass that deletes nothing found no entry |
| Blacklist.ScrubCleanMeaning | misspell.py:931-936 | the repeated pass leaves no entry anywhere, and only deletes characters |
| Blacklist.OnePassRecreates | misspell.py:931-936 | with ("ab", "ad") on "adb" one pass gives "ab", which holds the first entry |
| Blacklist.CleanRemovesRecreated | misspell.py:931-936 | on the same input the repeated pass leaves neither entry |
| Text.Tokens | misspell.py:913 | `re.split(r'(\s+)')` gives an odd number of pieces whose concatenation is the line |
| Text.TokensAlternate | misspell.py:913 | the pieces alternate between pieces without whitespace and maximal whitespace runs, and only the first and last may be empty |
| Text.SwapTurn | misspell.py:922-929 | one turn of the swap loop keeps the line's length; what it does is stated by `Text.SwapTurnCases` |
| Text.SwapSteps | misspell.py:920-929 | the first turns of the swap loop keep the line's length; `Text.SwapStepsKeepClasses`, `Text.SwapStepsKeepUnclassed` and `Text.SwapStepsDraws` state what they do |
| Text.Exchange | misspell.py:928-929 | the rebuilt line has the same length; `Text.ExchangeKeeps` states that it keeps the characters and the classes |
| Text.Swapped | misspell.py:918-929 | the value of the swap loop on a line; it keeps the line's length, and `Text.SwappedKeepsClasses` states what moves |
| Text.SwapPass | misspell.py:918-929 | the loop over places, the compatibility test, the draw and the rebuilt line give `Swapped` |
| Text.MisspellLine | misspell.py:912-929 | the piece loop in mode 0, then the swap loop in modes 0 and 2, give `MisspelledLine` |
| Text.Misspelled | misspell.py:864-940 | the value of `misspell_string` as written; its properties are `Text.MisspelledQuiet`, `Text.LastLineUnchecked` and `Text.BlacklistedWordSurvives` |
| Text.MisspellString | misspell.py:887-940 | mode normalisation, the line loop, the blacklist pass before each append, and the dropped final newline give `Misspelled` |
| Text.Drive | misspell.py:910-938 | after any line the output so far ends in a newline |
| Text.DriveMode | misspell.py:888-891 | only the normalised mode matters |
| Text.ExchangeKeeps | misspell.py:927-929 | exchanging two compatible neighbours keeps the characters and the class of every place |
| Text.SwapTurnCases | misspell.py:922-929 | a turn leaves the line alone, or exchanges two compatible neighbours, and uses at most one draw |
| Text.SwapTurnKeeps | misspell.py:922-929 | a turn keeps the line's characters and every place's class |
| Text.SwapStepsKeepClasses | misspell.py:920-929 | the swap loop keeps the line's characters and every place's class |
| Text.SwapStepsDraws | misspell.py:920-929 | the swap loop uses at most one draw per place |
| Text.SwappedKeepsClasses | misspell.py:918-929 | a swapped line is a rearrangement of the line in which every place keeps its class, so the case pattern stays, and every space or other character outside the swap classes stays in its place |
| Text.ExchangeKeepsUnclassed | misspell.py:927-929 | exchanging two compatible neighbours moves no character outside the swap classes |
| Text.SwapStepsKeepUnclassed | misspell.py:920-929 | the swap loop never moves a character outside the swap classes |
| Text.SwapStepsNone | misspell.py:920-929 | with swap 0 the line stays as it is |
| Text.SwapsCascade | misspell.py:920-929 | with swap 1, "abc" becomes "bca": the moved 'a' is compared and swapped again, using two draws |
| Text.WordsOutQuiet | misspell.py:914-916 | with every typographical probability at 0 the pieces are concatenated unchanged |
| Text.LineQuiet | misspell.py:912-929 | with every typographical probability at 0 a line comes back unchanged in every mode |
| Text.DriveStep | misspell.py:930-938 | one more line appends the misspelt line and a newline to the scrubbed text so far |
| Text.DriveQuiet | misspell.py:910-938 | with quiet parameters and an empty blacklist the output so far is the lines joined, each followed by a newline |
| Text.MisspelledQuiet | misspell.py:909-940 | with quiet parameters and an empty blacklist the text comes back unchanged |
| Text.ScrubAllEmpty | misspell.py:931-936 | the pass on the empty text deletes nothing |
| Text.LastLineUnchecked | misspell.py:930-940 | a one-line text comes back as its misspelt line, whatever the blacklist |
| Text.BlacklistedWordSurvives | misspell.py:930-940 | with quiet parameters and blacklist ("ab",), the text "ab" comes back as "ab" |
| Text.IntendedLeavesNoEntry | misspell.py:930-940 | as intended, no blacklisted word is left anywhere in the output, and the output is the written output with characters deleted |

## Left out

- File reading and writing in `_read_config` and `_default_config`, `configparser`, and all screen output. `Config.Load` takes the parsed file as an `Option`, where `None` stands for a missing key or a value that is not a number.
- `_read_rules` and the `rules` parameter: the rules would only feed the phonological stage, which is not carried out.
- `misspell_file` and the command-line block: file I/O and argument parsing.
- The phonological algorithm described only in comments: there is no code to model.
- The pseudo-random generator: draws come from a caller-supplied stream.
- IEEE floating point: probabilities and weights are reals. `_COS45` is the constant 0.7071067811865476, and rounding of the running totals is not modelled.
- Unicode: letters, case, digits and `str.lower` are ASCII only. Whitespace is Python's full `str.isspace` set. The one effect inside the core is in `_word_blocks`: Python's `isalpha` accepts non-ASCII letters such as 'é', so a vowel run followed by one falls through to `n` at misspell.py:398-416. For "aé" the source gives `n` and then `n`, while the model gives `v_e` and then `n`. The model cannot produce that letter-run fallthrough.
- The `type(...)` checks and `sys.exit` paths: Dafny's types rule them out.
- Blacklist.ScrubWord: requires a non-empty entry. With an empty entry `find` always succeeds and the source loop never ends.
- Text.MisspellString: requires non-empty blacklist entries, for the same reason.
- Segment.ReadRuns: the loop index names the next cluster to read, instead of the source's pre-incremented `i = -1`. The clusters read and the blocks appended are the same.
- Sample.DictionarySample: an empty dictionary gives `None`, where the source raises `IndexError` at `list(dic)[0]`. `_mistype_key` never passes an empty one (`Keyboard.ChoicesUsable`).
- Word.TypoCharOutcomes: requires valid typographical probabilities, which `Config.Load` guarantees. With negative probabilities the bands of the source overlap.
- The blocks that `_word_blocks` computes inside `_misspell_word` are discarded, as in the source. `Word.MisspellWord` computes them and ignores them.

## Findings

| source | as written | input that shows it | evidently intended | confidence | as-written member | corrected member |
|---|---|---|---|---|---|---|
| misspell.py:930-938 | The blacklist pass runs on the text before the current line is appended, so the last line is never checked | blacklist ("ab",), every typographical probability 0, text "ab": the output is "ab" | No blacklisted word in the output | not executed | Text.BlacklistedWordSurvives | Text.IntendedLeavesNoEntry |
| misspell.py:931-936 | Each entry is scrubbed once, in blacklist order, so a deletion for a later entry can recreate an earlier one | blacklist ("ab", "ad") on the text "adb": the pass gives "ab" | The pass is repeated until no entry occurs | not executed | Blacklist.OnePassRecreates | Blacklist.ScrubCleanMeaning |
| misspell.py:195-262 | In mode 1 `w0` or `w2` stays empty and is returned | `_misspell_word("cat", mode=1)` returns "" | A skipped stage passes its input on, so mode 1 returns the word | not executed | Word.PhonologicalModeEmpties | Word.IntendedPhonologicalMode |
