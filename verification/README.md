# FuturePath dice engine — a Dafny model

This project models the dice engine of the FuturePath API and the two JSON
helpers that feed it:

- **DiePicker** (`die_picker.dfy`). `getDie`, `rerollOnes` and
  `rerollNumber` turn a die size into its faces. A rerolled face is removed
  and every face is shifted by `subAll`/`addAll`.
- **Notation** (`notation.dfy`). `_determineNumbers` finds the first
  `d<digits>` token and the leading multiplier. `_determineModifier`
  peels the trailing signed groups off a die string and folds them into
  one signed numeral. The regular expressions are written out as scanners;
  the `$` of the modifier pattern also matches right before a final
  newline, as Python's does.
- **Probability** (`probability.dfy`). `RollProbabilityGenerator` is the
  exact distribution of the sum of `n` dice. It is kept as integer counts
  per sum, in ascending order of the sum, together with the weighted draw
  that `numpy.random.choice` makes from it.
- **Roller** (`roller.dfy`):
  - `reducer`, the chunking of the multiplier into fives;
  - `_getMaxRoll`;
  - `_roller`;
  - `_dropLowest`;
  - `_rerollTotal`, with its eleven attempts;
  - the `rollDie` dispatch;
  - `rollTotal`, which adds the folded modifier.
- **DieRoller** (`die_roller.dfy`). `rollDice` and `_checkConnectors`
  cover the batch options `repeatRoll`, `dropLowest`, `subAll` and
  `addAll`, and the fold of the rolls with their `+`/`-` connectors.
- **DieAnalyzer** (`die_analyzer.dfy`):
  - `dieStrAnylizer`: normalising the notation string, the `([\+|-])`
    split, and the buffer scan into die strings and connectors;
  - `dieJSONAnylizer`: loading the request, sorting the dice by `id`,
    falling back to the top-level object, and collecting the connectors.
- **JsonHook** (`json_hook.dfy`) and **JsonMerge** (`json_merge.dfy`).
  `jsonHook` and `mergeJson` work over a small JSON datatype
  (`json_value.dfy`). A Python dict is an insertion-ordered list of key/value
  pairs with pairwise distinct keys. `libs/jsonTools.py` holds copies of
  `libs/jsonHook.py` and `libs/jsonMerge.py`. The copies match line for line,
  so each function is modelled once and the table cites both files.

Randomness is an input: `src: nat -> nat` is a stream of tickets, and the
draw at position `at` picks the sum whose slice of the `|F|^n` outcomes holds
`src(at) % total`. Every rolling function returns the next unread position
along with its value.

A Python exception is a `Failure` (`wrappers.dfy`), carried in a `Result`.
`seqs.dfy` holds `Keep`, an order-keeping filter over sequences, which states
that `sorted` is stable.

The face table has the sizes 2, 4, 6, 8, 10, 12, 20, 24, 30 and 100. The
batch `dropLowest` of `rollDice` fails only when it takes `min()` of a list
it has already emptied.
The batch options of `dieJSONAnylizer` are passed through unfiltered.

## Model

| member | source | states |
|---|---|---|
| DiePicker.IndexOf | FuturePathAPI/Rolling.py:291 | `list.index` finds a value exactly when it is present, at its first occurrence |
| DiePicker.RemoveAt | FuturePathAPI/Rolling.py:291 | popping a position removes exactly that one value: the length drops by one, the other values keep their order and the multiset loses one copy |
| DiePicker.RemoveFirst | FuturePathAPI/Rolling.py:289-292 | `_removeNumber` succeeds exactly when the value is a face, removes one copy of it and keeps the faces ascending |
| DiePicker.RemoveEach | FuturePathAPI/Rolling.py:294-296 | removing a list of values succeeds exactly when they form a sub-multiset of the faces; the result is the multiset difference and stays ascending |
| DiePicker.RemoveEachMembers | FuturePathAPI/Rolling.py:289-296 | on ascending faces, a value survives the removals exactly when it is a face and is not listed |
| DiePicker.Shift | FuturePathAPI/Rolling.py:272-275 | `subAll`/`addAll` move every face by `add - sub`, keeping length and order |
| DiePicker.ShiftMembers | FuturePathAPI/Rolling.py:272-275 | a value is a shifted face exactly when shifting it back gives a face |
| DiePicker.GetDie | FuturePathAPI/Rolling.py:258-277 | a face list is only produced for a supported size and is ascending; with no reroll the call never raises and gives `None` exactly for an unsupported size |
| DiePicker.FaceTable | FuturePathAPI/Rolling.py:238-252 | `diceDict`: a table exactly for the ten supported sizes; what each entry holds is stated by `DiePicker.FaceTableFacts` |
| DiePicker.FaceTableFacts | FuturePathAPI/Rolling.py:238-252 | each supported size has the faces `1..size`, ascending |
| DiePicker.GetDiePlain | FuturePathAPI/Rolling.py:258-277 | with no reroll the faces are `i + 1 - subAll + addAll` for a supported size, and `None` otherwise |
| DiePicker.GetDieRerollOnes | FuturePathAPI/Rolling.py:279-281 | `rerollDie == 1` drops the first face only; on an unsupported size slicing `None` raises |
| DiePicker.GetDieRerollValue | FuturePathAPI/Rolling.py:283-299 | a single rerolled value other than 1 succeeds exactly when it is a face, and the shifted faces are all faces except that one; an unsupported size gives `None` |
| DiePicker.GetDieRerollValuesOk | FuturePathAPI/Rolling.py:283-299 | a list of rerolled values succeeds exactly when no value is listed more often than it occurs among the faces |
| DiePicker.GetDieRerollValues | FuturePathAPI/Rolling.py:294-299 | after a list reroll, one face goes per listed value, and the shifted faces are exactly the faces not listed |
| Notation.FindDie | FuturePathAPI/Rolling.py:25 | the search for `d\d{1,3}` returns the leftmost position where a token starts, and no earlier one |
| Notation.FindDieAt | FuturePathAPI/Rolling.py:25 | a token at `p` with none before it is the one found |
| Notation.DigitRun | FuturePathAPI/Rolling.py:25-26 | the greedy `\d{0,3}` run takes only digits and stops at the cap or at a non-digit |
| Notation.DetermineNumbers | FuturePathAPI/Rolling.py:200-211 | it raises "cannot determine die" exactly when no `d<digits>` token exists, and fails on a first token spelled `D`; otherwise the size written after the first token decides: the faces are what `getDie` gives for that size, an unknown size raises (with no reroll, exactly when the size is not in the face table, and the faces are then the table's, shifted), and the multiplier is the leading number |
| Notation.LeadNumber | FuturePathAPI/Rolling.py:208-211 | the multiplier is at most 999, and it is 1 when the string does not start with a digit |
| Notation.DetermineNumbersToken | FuturePathAPI/Rolling.py:200-211 | for `<a>d<b>` with a supported size `b`, the faces are those of `b` and the multiplier is `a`, or 1 when `a` is empty |
| Notation.DetermineNumbersCanonical | FuturePathAPI/Rolling.py:200-211 | writing a multiplier below 1000 and a supported size as notation and reading them back returns both |
| Notation.TrailingGroup | FuturePathAPI/Rolling.py:27 | a group found at the very end of a string is a real match of `(\+|-)\d{0,2}` |
| Notation.GroupAtPosition | FuturePathAPI/Rolling.py:27 | a group can match only right before the trailing digits, and only when there are at most two of them |
| Notation.TrailingGroupComplete | FuturePathAPI/Rolling.py:27 | whenever a group ends the string, the scan at the end finds it |
| Notation.Search | FuturePathAPI/Rolling.py:215 | the search returns a signed group that ends the string, or that ends right before a final newline |
| Notation.SearchFinds | FuturePathAPI/Rolling.py:215 | whenever a group ends the string, or ends right before a final newline, the search returns that group |
| Notation.Peel | FuturePathAPI/Rolling.py:218-227 | the loop collects only well-formed signed groups |
| Notation.PeelSplits | FuturePathAPI/Rolling.py:218-227 | in a string without newlines the peeled groups are exactly its tail: the unpeeled front followed by the groups in reading order gives back the input |
| Notation.PeelMaximal | FuturePathAPI/Rolling.py:220-227 | the loop stops only when the search finds no group in the prefix it has reached |
| Notation.NewlinePeel | FuturePathAPI/Rolling.py:215-227 | after a group `g` and a final newline, the loop takes `g`, then the sign of `g` alone, because the next prefix is cut by the length of `g` and keeps that sign |
| Notation.NewlineModifier | FuturePathAPI/Rolling.py:214-228 | a lone group followed by a final newline folds to an expression ending in a sign, which `eval` refuses |
| Notation.NewlineExample | FuturePathAPI/Rolling.py:214-233 | `1d6+2` folds to `+2`, while `1d6+2` followed by a newline raises, and so does a bare modifier `+2` followed by a newline |
| Notation.EvalPlain | FuturePathAPI/Rolling.py:228 | when every group carries a numeral without a leading zero, `eval` is the net signed sum of the groups |
| Notation.ModifierValue | FuturePathAPI/Rolling.py:214-217 | a string in which the search finds no group has modifier 0 |
| Notation.ShowSigned | FuturePathAPI/Rolling.py:228-233 | the signed numeral is `''` exactly for zero |
| Notation.ReadShowSigned | FuturePathAPI/Rolling.py:228-233 | reading back the signed numeral gives the value |
| Notation.DetermineModifier | FuturePathAPI/Rolling.py:214-233 | `_determineModifier` succeeds exactly when the fold can be evaluated, and the string it returns reads back as the net value of the trailing groups |
| Notation.DetermineModifierNet | FuturePathAPI/Rolling.py:214-233 | groups with plain numerals fold to the signed numeral of their net sum, e.g. `+2+3` to `+5` |
| Notation.RefoldSmall | FuturePathAPI/Rolling.py:214-233 | folding an already folded modifier between -99 and 99 changes nothing |
| Notation.RefoldLarge | FuturePathAPI/Rolling.py:214-233 | folding a folded modifier of 100 or more in size gives `''`, because three digits do not match `\d{0,2}` |
| Text.ParseShowNat | FuturePathAPI/Rolling.py:228 | `int(str(n)) == n` for the numerals the fold writes |
| Text.ShowNatShort | FuturePathAPI/Rolling.py:27 | a numeral has at most two digits exactly when its value is below 100 |
| Text.Lower | FuturePathAPI/libs/jsonHook.py:22 | `lower()` lowers each ASCII upper-case letter and keeps every other character, so the length is kept |
| Text.TrimStart | FuturePathAPI/Rolling.py:615 | `strip` drops exactly a leading run of the given characters |
| Text.TrimEnd | FuturePathAPI/Rolling.py:615 | `strip` drops exactly a trailing run of the given characters |
| Text.Trim | FuturePathAPI/Rolling.py:615 | `strip()` drops the leading and the trailing run of the given characters, as `Text.TrimStart` and `Text.TrimEnd` state |
| Probability.Product | FuturePathAPI/Rolling.py:190 | `product(faces, repeat=n)` yields `|faces|^n` outcomes |
| Probability.ProductMembers | FuturePathAPI/Rolling.py:190 | the outcomes of `product(faces, repeat=n)` are exactly the sequences of length `n` whose every element is a face |
| Probability.ProductOnce | FuturePathAPI/Rolling.py:190 | with distinct faces every `n`-tuple of faces is produced exactly once, and nothing else is produced |
| Probability.Sums | FuturePathAPI/Rolling.py:175 | each outcome is replaced by the sum of its faces |
| Probability.Insert | FuturePathAPI/Rolling.py:173-179 | `_saveNumbers` keeps the table strictly ascending by sum with positive counts and adds exactly one outcome |
| Probability.InsertCounts | FuturePathAPI/Rolling.py:173-179 | `_saveNumbers` raises the count of the new sum by one and leaves every other count alone |
| Probability.Tally | FuturePathAPI/Rolling.py:187-192 | the sorted `numberDict` is well formed and counts every outcome once |
| Probability.TallyCounts | FuturePathAPI/Rolling.py:187-192 | each sum is counted as often as it occurs among the outcomes |
| Probability.Table | FuturePathAPI/Rolling.py:164-192 | `RollProbabilityGenerator` tallies the sums of all outcomes of `product`; its totals and counts are stated by `Probability.TableTotal` and `Probability.TableCounts` |
| Probability.TableTotal | FuturePathAPI/Rolling.py:164-192 | the counts of the table of `n` dice add up to `|faces|^n` |
| Probability.TableCounts | FuturePathAPI/Rolling.py:164-192 | each count is the number of outcomes whose faces add up to that sum |
| Probability.TableSingle | FuturePathAPI/Rolling.py:164-192 | for one die with distinct faces, every face has count 1 and nothing else appears |
| Probability.TableRange | FuturePathAPI/Rolling.py:164-192 | only sums between `n * lo` and `n * hi` appear |
| Probability.TotalZero | FuturePathAPI/Rolling.py:174-179 | a table counts no outcome exactly when it has no rows |
| Probability.PickIndex | FuturePathAPI/Rolling.py:316-319 | the weighted choice picks the row whose slice of the cumulative counts holds the ticket, so a sum with count `c` takes `c` of the `total` tickets |
| Probability.Pick | FuturePathAPI/Rolling.py:316-319 | `choice` fails only on an empty table, and it always returns a sum that has a row |
| Probability.Probabilities | FuturePathAPI/Rolling.py:181-185 | every probability is its count divided by the total |
| Probability.ProbabilitiesOne | FuturePathAPI/Rolling.py:181-192 | for a die with faces, the probabilities of the table add up to 1 |
| Roller.Reduce | FuturePathAPI/Rolling.py:364-382 | `None` gives 1, a multiplier up to 5 is kept, and a larger one becomes a list |
| Roller.ChunkListShape | FuturePathAPI/Rolling.py:374-382 | the list is `m / 5` fives followed by `m % 5` when that is not zero, e.g. 13 to `[5, 5, 3]` and 10 to `[5, 5]` |
| Roller.ReduceChunks | FuturePathAPI/Rolling.py:364-382 | the chunks of a multiplier above 5 add up to it, lie in 1..5 and are 5 except possibly the last |
| Roller.ReduceTotal | FuturePathAPI/Rolling.py:364-382 | chunking never changes the number of dice |
| Roller.MaxRoll | FuturePathAPI/Rolling.py:307-311 | the maximum roll is the last face times the total multiplier; with no faces `die[-1]` raises |
| Roller.Draw | FuturePathAPI/Rolling.py:318-319 | a draw from the table of `n` dice returns a possible sum; it fails exactly when there are no faces and at least one die |
| Roller.RollChunks | FuturePathAPI/Rolling.py:315-317 | the list branch reads one ticket per chunk |
| Roller.Roll | FuturePathAPI/Rolling.py:313-319 | for a single multiplier, `_roller` returns a possible sum of that many dice and reads one ticket |
| Roller.RollRange | FuturePathAPI/Rolling.py:313-319 | a roll of `n` dice lies between `n * lo` and `n * hi` |
| Roller.Min | FuturePathAPI/Rolling.py:334 | `min` is a member of the list and at most every member |
| Roller.RemoveMin | FuturePathAPI/Rolling.py:334 | `pop(index(min))` removes exactly one copy of the minimum |
| Roller.RemoveMinsSplit | FuturePathAPI/Rolling.py:336-338 | after `k` pops the kept and popped values together are the draws, the kept sum is the total minus the popped sum, and every popped value is at most every kept one |
| Roller.SumMultiset | FuturePathAPI/Rolling.py:335 | `sum` depends only on the values, not on their order |
| Roller.Draws | FuturePathAPI/Rolling.py:330-332 | `_dropLowest` draws one face per die, each a face; this fails exactly when there are no faces and at least one die |
| Roller.DropLowest | FuturePathAPI/Rolling.py:321-338 | a non-numeric drop count raises, a drop count of at least the number of dice raises, and on success one ticket is read per die |
| Roller.DropLowestIs | FuturePathAPI/Rolling.py:330-338 | the result is the sum left after popping the minimum `k` times, with `k = 1` for `True` |
| Roller.DropLowestValue | FuturePathAPI/Rolling.py:321-338 | the result is the sum of the draws minus the `k` popped smallest, and lies between `(m - k) * lo` and `(m - k) * hi` |
| Roller.Attempts | FuturePathAPI/Rolling.py:350-357 | the attempt loop returns only a total above the threshold, and raises once the attempts are spent |
| Roller.AttemptsFirst | FuturePathAPI/Rolling.py:351-355 | the first attempt that beats the threshold is returned; otherwise the next attempt starts after the tickets it used |
| Roller.AttemptsExhaust | FuturePathAPI/Rolling.py:350-357 | when no attempt can beat the threshold, the loop raises "reroll attempts exceeded" |
| Roller.RerollTotal | FuturePathAPI/Rolling.py:340-357 | no faces, a non-numeric threshold, or a threshold at or above the maximum roll each raise; a result always beats the threshold |
| Roller.RerollTotalRuns | FuturePathAPI/Rolling.py:341-357 | below the maximum roll, `_rerollTotal` is exactly eleven attempts with the chosen roll function |
| Roller.RerollDropGap | FuturePathAPI/Rolling.py:341-357 | with `dropLowest = k`, a threshold between `(m - k) * hi` and `m * hi` passes the guard, yet every attempt fails |
| Roller.RollDie | FuturePathAPI/Rolling.py:393-408 | a die rolled with `rerollTotal` only succeeds above that threshold, and raises when an option is named `die` or `multipler`, like the positional parameters of `_rerollTotal` |
| Roller.RollDieDispatch | FuturePathAPI/Rolling.py:403-408 | `rerollTotal` takes precedence over a truthy `dropLowest`, which takes precedence over a plain roll; the multiplier is chunked first; with `rerollTotal` and no option named `die` or `multipler`, the result is that of `_rerollTotal` |
| Roller.AddModifier | FuturePathAPI/Rolling.py:416-424 | adding the folded modifier adds its value to the roll and reads no ticket |
| Roller.RollTotal | FuturePathAPI/Rolling.py:410-424 | option keys that are not strings raise; otherwise the call succeeds exactly when the roll and the modifier fold do, and the total is the roll plus the modifier's net value |
| Roller.ModifierApplied | FuturePathAPI/Rolling.py:416-424 | through the fold, the roll gains exactly the net value of the trailing groups |
| Roller.RollTotalRefold | FuturePathAPI/Rolling.py:411-424 | a die string's already folded modifier is folded again: values up to 99 in size are added, larger ones are lost |
| DieRoller.CheckConnectors | FuturePathAPI/Rolling.py:470-479 | a non-list raises; a list is accepted exactly when every entry is `"+"` or `"-"`, and each entry maps to its sign |
| DieRoller.CheckItemsFirstBad | FuturePathAPI/Rolling.py:474-478 | the error raised is the one for the first bad entry: not a string, or not a sign |
| DieRoller.Repeat | FuturePathAPI/Rolling.py:437-438 | `dice * n` has `n` times the entries, and position `i` holds entry `i mod |dice|` |
| DieRoller.Expand | FuturePathAPI/Rolling.py:432-438 | the list is replicated only for an `int` `repeatRoll` above zero, and is kept as it is otherwise |
| DieRoller.RollAll | FuturePathAPI/Rolling.py:440 | one total per entry; which total each is, is stated by `DieRoller.RollAllAt` |
| DieRoller.RollEach | FuturePathAPI/Rolling.py:440 | the comprehension for any per-entry roll: one result per entry |
| DieRoller.RollAllAt | FuturePathAPI/Rolling.py:440 | total `i` is the `rollTotal` of entry `i`, rolled from the ticket where entry `i - 1` stopped, and the list ends on the ticket after the last entry |
| DieRoller.RollAllFails | FuturePathAPI/Rolling.py:440 | the comprehension raises exactly when some entry is reached and its `rollTotal` raises, and it raises that failure |
| DieRoller.RollAllConcat | FuturePathAPI/Rolling.py:440 | rolling two lists in turn is rolling their concatenation: the first failure wins and otherwise the totals concatenate |
| DieRoller.BatchDrop | FuturePathAPI/Rolling.py:442-446 | `dropLowest` pops `k` totals (`True` counts 1), raises exactly when `min()` meets an emptied list, and the kept totals are a subsequence of the rolls in their order |
| Roller.RemoveMinsInOrder | FuturePathAPI/Rolling.py:442-446 | the values left after `k` pops of the minimum are a subsequence of the list, in its order |
| DieRoller.BatchDropKeepsLargest | FuturePathAPI/Rolling.py:442-446 | the kept and dropped totals together are the original ones, and no dropped total exceeds a kept one |
| DieRoller.Positive | FuturePathAPI/Rolling.py:448-452 | `subAll`/`addAll` count only as an `int` above zero |
| DieRoller.Adjust | FuturePathAPI/Rolling.py:448-452 | every total becomes `total - subAll + addAll` |
| DieRoller.Combine | FuturePathAPI/Rolling.py:459-468 | `eval` of the rolls joined by their connectors; `DieRoller.CombineIsSignedSum` states that it is the signed sum |
| DieRoller.CombineIsSignedSum | FuturePathAPI/Rolling.py:459-468 | the evaluated connector string is the sum of the totals, the first counted `+` and each later one with its connector's sign |
| DieRoller.AllPlusIsSum | FuturePathAPI/Rolling.py:459-468 | with only `+` connectors, `DiceTotal` is the plain sum |
| DieRoller.RollDice | FuturePathAPI/Rolling.py:427-468 | a connector error is raised before anything is rolled; `DiceTotal` is present exactly when there is one more total than connectors |
| DieRoller.RollDiceCount | FuturePathAPI/Rolling.py:437-457 | `rollDice` succeeds exactly when the drop count does not exceed the number of rolled entries, and then returns that many fewer totals |
| DieRoller.RollDiceTotal | FuturePathAPI/Rolling.py:456-468 | `DiceTotal` is the signed sum of the returned totals |
| DieRoller.RollDiceValues | FuturePathAPI/Rolling.py:436-452 | with no batch pops, returned total `i` is the `rollTotal` of entry `i` of the repeated list at its own start ticket, less `subAll` plus `addAll` |
| DieAnalyzer.MapAll | FuturePathAPI/Rolling.py:626-640 | converting each die string succeeds exactly when each conversion does, in order and element by element |
| DieAnalyzer.MapAllFirstFailure | FuturePathAPI/Rolling.py:626-640 | the exception is the one of the first die string that raises |
| DieAnalyzer.Normalize | FuturePathAPI/Rolling.py:615 | the normalised string has no upper-case letter |
| DieAnalyzer.Split | FuturePathAPI/Rolling.py:618 | `re.split` with one capture group yields an odd number of items |
| DieAnalyzer.SplitConcat | FuturePathAPI/Rolling.py:618 | splitting loses nothing: the items concatenate back to the string |
| DieAnalyzer.SplitAlternates | FuturePathAPI/Rolling.py:618 | the items alternate between runs without `+`, `-` or `|` and single split characters |
| DieAnalyzer.Step | FuturePathAPI/Rolling.py:627-639 | one pass of the loop: a splitter is appended to the pending text, a run with `d` closes the pending die, any other run is appended; the connectors it emits are stated by `DieAnalyzer.ScanConnectors` |
| DieAnalyzer.ScanAll | FuturePathAPI/Rolling.py:626-639 | the loop over the split items closes exactly one connector per die it emits |
| DieAnalyzer.Pieces | FuturePathAPI/Rolling.py:620-640 | the die strings are one more than the connectors; what they hold is stated by `DieAnalyzer.PiecesFacts` |
| DieAnalyzer.ScanJoin | FuturePathAPI/Rolling.py:620-640 | the die strings, joined by their connectors, give back the scanned items |
| DieAnalyzer.PiecesFacts | FuturePathAPI/Rolling.py:620-640 | every connector is a split character, every die string after the first contains `d`, and joining them restores the input; the connectors are exactly the split characters followed by a run with a `d`, so a run without `d` stays in the group before it |
| DieAnalyzer.ScanConnectors | FuturePathAPI/Rolling.py:627-638 | the loop takes a split character as a connector exactly when the run after it contains `d` |
| DieAnalyzer.DieStrAnalyze | FuturePathAPI/Rolling.py:606-645 | input without `d` raises; success means every die string converts; there is always one more die than connectors |
| DieAnalyzer.DieStrOptions | FuturePathAPI/Rolling.py:642-645 | a single die carries the options inline and the batch options are `()`; with several dice the options come back separately and each die carries `()` |
| DieAnalyzer.DieStrConnectors | FuturePathAPI/Rolling.py:626-640 | the connectors are the split characters that closed each group, and the groups joined by them give the normalised string |
| DieAnalyzer.ReadDie | FuturePathAPI/Rolling.py:634-640 | a die string is read by `_determineNumbers` and then `_determineModifier`, the first failure raising; `DieAnalyzer.DieStrDice` states the dice it gives |
| DieAnalyzer.DieStrDice | FuturePathAPI/Rolling.py:626-640 | die `i` has the numbers and the folded modifier of die string `i` |
| DieAnalyzer.Load | FuturePathAPI/Rolling.py:656-657 | a non-string request is used as it is; a string one loads exactly when the parser accepts its stripped text |
| DieAnalyzer.Request | FuturePathAPI/Rolling.py:656-658 | the hooked request is a dict; a loaded value that is not a dict raises |
| DieAnalyzer.DiceItems | FuturePathAPI/Rolling.py:659 | `dice` can be iterated exactly when it is absent, a list or an empty container, and only a list gives entries |
| DieAnalyzer.IdLessAsym | FuturePathAPI/Rolling.py:650-659 | Python's `<` on ids of one kind is asymmetric |
| DieAnalyzer.InsertOrdered | FuturePathAPI/Rolling.py:659 | inserting an entry into entries ordered by `id` keeps them ordered |
| DieAnalyzer.SortOrdered | FuturePathAPI/Rolling.py:659 | the sort leaves the entries ordered by `id` |
| DieAnalyzer.SortById | FuturePathAPI/Rolling.py:650-659 | `sorted(key=get('id'))` succeeds exactly when every entry is a dict and the ids can be compared, and then it returns a permutation ordered by `id` in which entries with tied ids keep their input order, as Python's stable sort does |
| DieAnalyzer.SortStable | FuturePathAPI/Rolling.py:659 | the insertion sort is stable: for every id, the entries whose id ties with it keep their input order |
| DieAnalyzer.UnsortableWithoutIds | FuturePathAPI/Rolling.py:650-659 | two or more dice without ids cannot be sorted, because `None < None` raises |
| DieAnalyzer.OptionsOf | FuturePathAPI/Rolling.py:660 | `.items()` works exactly on a dict, and an absent value means `{}` |
| DieAnalyzer.Plan | FuturePathAPI/Rolling.py:659-663 | the planned dice are dicts ordered by `id`; when `dice` is empty and `dString` truthy they are the top-level object, and otherwise a permutation of `dice`; the batch options are those of `diceOptions` |
| DieAnalyzer.PlanFallback | FuturePathAPI/Rolling.py:659-663 | with no `dice` and a truthy `dString`, the top-level object is the one die |
| DieAnalyzer.EntryOf | FuturePathAPI/Rolling.py:665-667 | the triple `str(dString)`, `str(modifier)`, `dieOptions.items()` of one entry; its defaults are stated by `DieAnalyzer.EntryOfDefaults` |
| DieAnalyzer.EntryOfDefaults | FuturePathAPI/Rolling.py:666-667 | a missing `dString` becomes the string `None`, a missing modifier `''`, missing options `()` |
| DieAnalyzer.IndexOf | FuturePathAPI/Rolling.py:668 | `dice.index(item)` lands at or before the entry's own position, on an equal entry |
| DieAnalyzer.IndexOfAtMost | FuturePathAPI/Rolling.py:668 | it stops at the first equal entry or earlier |
| DieAnalyzer.KeepTruthy | FuturePathAPI/Rolling.py:678 | `filter(None, ...)` keeps exactly the truthy connectors, in their order and with their repeats (`Seqs.Keep` with `Truthy`) |
| DieAnalyzer.RawConnectors | FuturePathAPI/Rolling.py:665-669 | the `connectorString` of every entry whose first equal entry is not the last one, so never more connectors than entries |
| DieAnalyzer.RawConnectorsDistinct | FuturePathAPI/Rolling.py:665-669 | with pairwise different entries, every die but the last contributes its `connectorString`, in order |
| DieAnalyzer.RepeatedLastEntry | FuturePathAPI/Rolling.py:665-669 | a last entry equal to an earlier one also contributes a connector |
| DieAnalyzer.AnalyzePlan | FuturePathAPI/Rolling.py:665-678 | one result per planned die, the batch options passed through, at most as many connectors as dice, and all of them truthy |
| DieAnalyzer.DieJsonDice | FuturePathAPI/Rolling.py:665-676 | die `i` has the numbers of entry `i`'s `dString`, its modifier string and its options |
| DieAnalyzer.DieJsonCount | FuturePathAPI/Rolling.py:659-678 | a successful analysis has one die per entry of `dice`; with no entries it has one die, the request itself, when `dString` is truthy, and none otherwise; its batch options are the request's `diceOptions` |
| DieAnalyzer.DieJsonResult | FuturePathAPI/Rolling.py:653-678 | the body of the `try`: never more connectors than dice, and every connector kept is truthy |
| DieAnalyzer.DieJsonAnalyze | FuturePathAPI/Rolling.py:648-681 | every exception becomes `None`, and nothing else does |
| JsonHook.DecodeStr | FuturePathAPI/libs/jsonHook.py:21-29 | `true`, `false`, `none` and `null`, in any case, become `True`, `False`, `None`, `None`; any other string is returned unchanged |
| JsonHook.DecodeBytes | FuturePathAPI/libs/jsonHook.py:51-55 | a byte string always becomes a bool, `None` or a `str` |
| JsonHook.DecodeKey | FuturePathAPI/libs/jsonHook.py:49-50 | a `str` key is kept; a decoded key is always a `str` |
| JsonHook.HookValue | FuturePathAPI/libs/jsonHook.py:51-59 | non-bytes scalars pass unchanged, bytes are decoded, lists keep their length and dicts stay dicts |
| JsonHook.HookList | FuturePathAPI/libs/jsonHook.py:31-44 | `_decode_list` keeps the length |
| JsonHook.HookListElements | FuturePathAPI/libs/jsonTools.py:31-44 | a list is hooked element by element, and succeeds exactly when each element does |
| JsonHook.HookDict | FuturePathAPI/libs/jsonHook.py:46-61 | `_decode_dict` gives a dict with distinct `str` keys and no more entries than its input |
| JsonHook.HookDictKeepsKeys | FuturePathAPI/libs/jsonHook.py:46-61 | every input key, decoded, is a key of the result |
| JsonHook.HookDictAddsNoKeys | FuturePathAPI/libs/jsonTools.py:46-61 | every key of the result is the decoded form of an input key |
| JsonHook.HookDictEntries | FuturePathAPI/libs/jsonHook.py:46-61 | when the decoded keys are distinct, entry `i` of the result is input entry `i` with its key decoded and its value hooked |
| JsonHook.Hook | FuturePathAPI/libs/jsonHook.py:13-63 | a non-dict input raises, and a result is always a dict |
| JsonHook.HookValueNative | FuturePathAPI/libs/jsonHook.py:31-61 | after the hook no bytes remain anywhere and every dict has distinct `str` keys |
| JsonHook.NativeFixed | FuturePathAPI/libs/jsonHook.py:33-43 | the hook returns a value that holds no bytes unchanged |
| JsonHook.NativeFieldsFixed | FuturePathAPI/libs/jsonHook.py:51-60 | a dict of native values under distinct `str` keys is returned unchanged |
| JsonHook.HookIdempotent | FuturePathAPI/libs/jsonTools.py:13-63 | a second application of `jsonHook` is the identity on its own output |
| JsonValue.Assign | FuturePathAPI/libs/jsonHook.py:60 | `rv[key] = value` overwrites an existing key in place and appends a new one at the end; the dict keeps distinct keys and the key now maps to the value |
| JsonValue.Lookup | FuturePathAPI/libs/jsonMerge.py:56 | `d[k]` finds a value exactly when `k` is a key, and that value is stored under `k` |
| JsonValue.PyStr | FuturePathAPI/Rolling.py:666-667 | `str()` renders every scalar a request carries, and a string as itself; lists, dicts and byte strings are refused |
| JsonMerge.Matches | FuturePathAPI/libs/jsonMerge.py:30-42 | `compareItem` as a truth value: two dicts sharing a key, two lists with a matching pair of elements, or anything else equal under `==` |
| JsonMerge.MatchesSymmetric | FuturePathAPI/libs/jsonMerge.py:30-42 | `compareItem` is symmetric: two values match whichever of them comes first |
| JsonMerge.FirstMatchIn | FuturePathAPI/libs/jsonMerge.py:36-39 | the first element of `list2` that matches, and no earlier one |
| JsonMerge.FirstPair | FuturePathAPI/libs/jsonMerge.py:30-42 | `compareItem` on two lists returns the first matching pair in loop order, and returns nothing exactly when no pair matches |
| JsonMerge.Merge | FuturePathAPI/libs/jsonMerge.py:52-61 | when the two values are not both dicts or both lists the second one wins; dicts merge to a dict and lists to a list |
| JsonMerge.MergeShared | FuturePathAPI/libs/jsonMerge.py:55-56 | the shared-key loop keeps the first dict's keys, in order |
| JsonMerge.OnlyIn | FuturePathAPI/libs/jsonMerge.py:48-50 | the difference iterator yields exactly the keys of the second dict the first lacks, with their entries |
| JsonMerge.MergeFields | FuturePathAPI/libs/jsonMerge.py:54-59 | `mergeJson` on two dicts; its keys, values and distinctness are stated by the three `JsonMerge.MergeFields…` lemmas |
| JsonMerge.MergeFieldsKeys | FuturePathAPI/libs/jsonMerge.py:54-59 | the merged dict has the union of the keys |
| JsonMerge.MergeFieldsLookup | FuturePathAPI/libs/jsonMerge.py:54-59 | a shared key holds the recursive merge, a key only in the first dict keeps its value, and a key only in the second is copied |
| JsonMerge.MergeFieldsDistinct | FuturePathAPI/libs/jsonMerge.py:54-59 | merging two dicts gives a dict |
| JsonMerge.MergeDicts | FuturePathAPI/libs/jsonTools.py:110-115 | the dict merge as one statement: distinct keys, the union of the keys, recursive merge on shared keys, first-only and second-only values kept |
| JsonMerge.MergeLists | FuturePathAPI/libs/jsonMerge.py:12-28 | `listParser`; its result is stated by `JsonMerge.MergeListsShape` and `JsonMerge.MergeListsNoMatch` |
| JsonMerge.ListLoop | FuturePathAPI/libs/jsonMerge.py:15-27 | the `while` loop: it merges the first matching pair and drops both from the pending lists until none matches, then appends what is left of the second list |
| JsonMerge.ListLoopPairs | FuturePathAPI/libs/jsonMerge.py:15-27 | from any loop state whose partners so far are consistent, the loop ends with every slot paired or kept, each partner used once, and the unmatched second-list elements appended in order |
| JsonMerge.MergeListsShape | FuturePathAPI/libs/jsonMerge.py:12-28 | each slot of the first list keeps its element or holds its merge with a matching partner from the second list, and no element of the second list is the partner of two slots; the elements of the second list that are nobody's partner follow, in their order; no slot left unmerged matches any of them |
| JsonMerge.MergeListsNoMatch | FuturePathAPI/libs/jsonTools.py:68-84 | when no pair matches, the result is the first list followed by the second, so an empty first list gives the second |

## Left out

- Flask routes, authentication, the database, the read-write lock, the
  `Memorizer` caches, `FrozenDict`, the `Rolling` convenience methods and
  `_OlddieStrAnylizer`. They are I/O, configuration, caching or dead code;
  the cached functions are modelled as plain functions.
- `print` and `getStackTrace` are diagnostics with no effect on results.
- `numpy.random.choice` is not modelled as a random process. Each draw
  takes a ticket from the input stream `src`, and the ticket's residue
  modulo the outcome count picks the sum by inverse cumulative weight
  (`Probability.PickIndex`). The floating-point probabilities are shown to
  equal count over total as reals (`Probability.Probabilities`), but the
  draw uses the integer counts.
- `json.loads` and UTF-8 decoding are external codecs. They are parameters:
  `parse` for loading request text, and `JsonHook.Codec` for
  `bytes.decode()` and `bytes.decode(errors='ignore')`.
- `eval` is modelled only for what reaches it: sums of signed integer groups
  in `_determineModifier` and `rollDice`, and the addition in `rollTotal`.
  A group with a leading zero (`+08`) is a syntax error.
- Regular expressions are hand-written scanners for the four patterns used:
  `d\d{1,3}`, `^\d{1,3}`, `(\+|-)\d{0,2}$` and `([\+|-])`. Case-insensitive
  matching of `D` is modelled as a failure of `int('D6')`.
- Notation.FindDie: `\d` is read as an ASCII digit. Python's `\d` and
  `int()` also accept the other Unicode decimal digits, such as `٣`; the
  model finds no token there.
- Notation.DigitRun: the same; a run stops at the first character that is
  not an ASCII digit.
- Text.Lower: lowers ASCII letters only. Python's `lower()` follows the
  Unicode tables, which can change other letters and, for a few, the
  length.
- Python floats are not modelled. Option values are `int`, `bool`, `None`,
  `str`, bytes, lists and dicts.
- JsonValue.PyStr: `str()` of a list, a dict or a byte string, which
  `dieJSONAnylizer` applies to a `dString` or `modifier`, is refused
  (`NotRenderable`). Python renders it: `str(["2d6"])` is `['2d6']`, which
  holds the token `d6` and reads as one six-sided die. Rendering Python's
  `repr` with its quoting and escaping is not modelled.
- Ids that are lists or dicts are treated as not comparable by `<`.
  Python compares lists lexicographically.
- JsonMerge.MergeListsShape: the model is position based. It replaces the
  matched slot of the first list and removes the matched element of the
  second. The source finds both with `list.index`, which compares by
  equality, and it does so after the nested `mergeJson` has run. That
  nested merge mutates its arguments: for two lists it pops their matched
  elements. A matched element of the second list can therefore come to
  equal an earlier element, and `list2.pop(list2.index(item2))` then
  removes the earlier one. For `[[1]]` merged with `[[], 5, [1]]` the
  source gives `[[1], 5, []]` and the model gives `[[1], [], 5]`. The two
  also differ when a list holds equal elements, or when a merge result
  equals a later element of the first list. Modelling this would need
  Python's object identity and aliasing.
- JsonMerge.MergeLists: `listParser` pops every matched element out of the
  caller's two lists, so after the call the second list holds only its
  unmatched elements. The model returns the merged list and changes no
  argument.
- JsonMerge.OnlyIn: the source appends the keys only the second dict has
  in the iteration order of a Python `set`, which depends on string
  hashing. The model appends them in the second dict's order. The set of
  appended keys and their values are the same.
- `rollDie` called with no arguments or with a string first argument, and
  `rollTotal` with a non-string modifier, are never reached from the
  analysers. `getDie` with `subAll`/`addAll` returns a list, not a tuple,
  which `rollDie` would not accept. Neither analyser passes those options
  to `getDie`, so the model rolls the face tuple.
- Roller.Roll: the list branch of `_roller` is stated only through
  `RollChunks`, one ticket per chunk. The bound on its sum is not stated.
- Roller.RollDie: only the `rerollTotal` path has a contract of its own.
  The other paths are given by `Roller.RollDieDispatch`.
- DieAnalyzer.Normalize: states only that no upper-case letter remains.
  That `strip` removed exactly the edge characters is stated in
  `Text.TrimStart` and `Text.TrimEnd`.
- `_rerollTotal` with `dropLowest`: the guard compares the threshold with
  the maximum of all dice, including those that are dropped. A threshold in
  the gap between `(m - k) * hi` and `m * hi` passes the guard, but no
  attempt can beat it. The model keeps this behaviour (`Roller.RerollDropGap`).
- `dieStrAnylizer` folds a group's modifier once, and `rollTotal` folds it
  again. A net modifier of 100 or more in size is lost on the second fold
  (`Notation.RefoldLarge`, `Roller.RollTotalRefold`). The model keeps this.
- `_determineModifier` cuts each prefix by the length of what it has
  collected, not at the match. After a final newline the cut is one
  character off, so `1d6+2` followed by a newline folds `+2+` and raises
  (`Notation.NewlineExample`). The model keeps this.
- Notation.PeelSplits: stated only for strings without a newline. After a
  final newline the length cut leaves the sign behind, so the front and
  the groups no longer give back the input; `Notation.NewlinePeel` states
  what happens instead.
- The split pattern `([\+|-])` also splits on `|`, which then becomes a
  connector that `rollDice` rejects. The model keeps this.
