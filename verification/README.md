# Balanced recipe book — a Dafny model of its matching and ranking core

`balanced_recipe_book.py` suggests recipes for what is in the fridge. The
ingredients on hand come as free text. They are split on commas, normalised into
canonical phrases and collected into a pantry. Every recipe of the collection is
then checked against the 40/30/30 carbohydrate/protein/fat energy target. The
recipes that pass this balance gate are scored by how much of their ingredient
list the pantry covers, together with how close they are to the target. The best
`max(1, top)` of them are shown, best first.

The model is split into seven modules, one file each:

- `normalize.dfy` (`Normalize`): `normalize_token`. It covers the ASCII character class, lower-casing, deletion of non-word characters, `str.split()`, `" ".join` and `strip`.
- `pantry.dfy` (`Pantry`): `parse_ingredients`. It covers `str.split(",")` and the set of non-empty normal forms.
- `matching.dfy` (`Matching`): `tokenize` and `ingredient_matches`. It covers token overlap against the smaller token set, with the 0.6 threshold.
- `recipes.dfy` (`Recipes`): the `Recipe` record and `norm_list` from `Recipe.from_dict`. It also covers `ingredient_score`, `missing`, `macro_ratios`, `balance_score` and `is_balanced`.
- `sorting.dfy` (`Sorting`): the stable descending sort that `list.sort(key=..., reverse=True)` performs, over any scored item.
- `selection.dfy` (`Selection`): the filter-then-score loop of `score_recipes`, over any kind of entry.
- `ranking.dfy` (`Ranking`): `score_recipes`, the `max(1, top)` limit and slice, and the decisions `main` takes once its inputs are read.

Ratios and weights are Dafny `real`s, so they are exact rationals. The 0.6
threshold is exactly 3/5, and `Matching.CoversIffByCount` restates it as the
whole-number test 5·overlap ≥ 3·min.

Three behaviours of the code are easy to misread; the model follows them:

- `normalize_token` deletes every character that is neither alphanumeric nor whitespace. It does not replace such a character with a space, so "sea-salt" becomes "seasalt" (line 20; `Normalize.NormalizeDeletesPunctuation`).
- `score_recipes` keeps balanced recipes whose coverage is zero. They are ranked on the balance part of the score alone (`Ranking.ZeroCoverageIsKept`).
- The number of results shown is `max(1, top)`, with no upper cap (line 265; `Ranking.Limit`).

## Model

All source paths are `balanced_recipe_book.py`.

| member | source | states |
|---|---|---|
| Normalize.IsSpace | balanced_recipe_book.py:20-21 | the characters `str.isspace` accepts and `str.split()` splits on, over ASCII: space, tab to carriage return and the separators 28-31 (a definition; used by `Words` and `Strip`) |
| Normalize.IsAlnum | balanced_recipe_book.py:20 | the characters `str.isalnum` accepts, over ASCII: letters and digits (a definition; `KeepWordCharsAlnum` and `NormalizeEmptyIff` state what the normal form keeps of them) |
| Normalize.Lower | balanced_recipe_book.py:20 | lower-casing leaves no upper-case letter, never changes whether a character is a letter/digit or whitespace, and leaves every other character alone (which small letter each capital becomes is `LowerAlphabet`) |
| Normalize.LowerAlphabet | balanced_recipe_book.py:20 | `lower()` sends each capital letter A-Z to its own small letter a-z, position for position in the alphabet |
| Normalize.LowerAll | balanced_recipe_book.py:20 | `value.lower()` keeps the length and lower-cases each character in place |
| Normalize.KeepWordChars | balanced_recipe_book.py:20 | only alphanumeric or whitespace characters survive, each one taken from the input; a text made only of such characters is unchanged |
| Normalize.KeepWordCharsAppend | balanced_recipe_book.py:20 | the character filter works character by character: filtering a concatenation is concatenating the filtered parts |
| Normalize.Clean | balanced_recipe_book.py:20 | the `cleaned` text holds only lower-case ASCII letters, digits and whitespace |
| Normalize.CleanDeletesPunctuation | balanced_recipe_book.py:20 | a character that is neither alphanumeric nor whitespace is removed from `cleaned` with nothing put in its place |
| Normalize.KeepWordCharsAlnum | balanced_recipe_book.py:20 | the filter keeps a letter or digit exactly when the input has one |
| Normalize.Words | balanced_recipe_book.py:21 | every word `split()` yields is a non-empty run without whitespace (which words they are is fixed by `WordsAtSpace` and `WordsOfRun`) |
| Normalize.WordsAtSpace | balanced_recipe_book.py:21 | `split()` cuts at every whitespace character: the words of a text with whitespace inside are the words before it followed by the words after it |
| Normalize.WordsOfRun | balanced_recipe_book.py:21 | a text without whitespace splits into itself, or into nothing when empty; with `WordsAtSpace` this fixes `split()` on every input |
| Normalize.WordsFromEmptyIff | balanced_recipe_book.py:21 | `split()` yields no words exactly when the text is all whitespace |
| Normalize.JoinWords | balanced_recipe_book.py:21 | joining lower-case tokens with single spaces gives a canonical phrase, and that phrase is empty only when there are no tokens |
| Normalize.WordsOfJoin | balanced_recipe_book.py:21 | `split()` of the space-join of tokens gives the same tokens back |
| Normalize.JoinOfWordsFrom | balanced_recipe_book.py:21 | joining the words of a canonical text restores the text (the other direction of the split/join round trip) |
| Normalize.Strip | balanced_recipe_book.py:21 | `strip()` leaves no whitespace at either end and changes nothing when there is none |
| Normalize.NormalizeToken | balanced_recipe_book.py:18-21 | the output has only lower-case letters, digits and single inner spaces, with no space at either end |
| Normalize.CanonicalIsFixedPoint | balanced_recipe_book.py:18-21 | every canonical phrase is returned unchanged |
| Normalize.FixedPointIff | balanced_recipe_book.py:18-21 | `normalize_token` fixes a text exactly when the text is canonical |
| Normalize.NormalizeIdempotent | balanced_recipe_book.py:18-21 | normalising twice gives the same as normalising once |
| Normalize.NormalizeDeletesPunctuation | balanced_recipe_book.py:18-21 | deleting a non-word character before normalising changes nothing, so its two sides are joined ("sea-salt" reads "seasalt") |
| Normalize.NormalizeWords | balanced_recipe_book.py:18-21 | the words of the normal form are the words of the cleaned input, in order; with the canonical shape and `JoinOfWordsFrom` this fixes the output as the input's own words, lower-cased and joined by single spaces |
| Normalize.NormalizeIgnoresCase | balanced_recipe_book.py:18-21 | lower-casing the input first does not change its normal form |
| Normalize.NormalizeEmptyIff | balanced_recipe_book.py:18-21 | the result is empty exactly when the input holds no ASCII letter or digit |
| Pantry.SplitOn | balanced_recipe_book.py:28 | `split(",")` gives at least one piece and no piece contains a comma |
| Pantry.SplitOnThenJoin | balanced_recipe_book.py:28 | joining the pieces again with commas restores the argument |
| Pantry.JoinThenSplitOn | balanced_recipe_book.py:28 | splitting a comma-join of comma-free pieces gives the pieces back |
| Pantry.PiecePhrases | balanced_recipe_book.py:28-31 | every phrase the pieces contribute is non-empty and canonical |
| Pantry.ChunkPhrases | balanced_recipe_book.py:28-31 | every phrase one argument contributes is non-empty and canonical |
| Pantry.PantryOf | balanced_recipe_book.py:24-32 | every pantry phrase is non-empty and canonical |
| Pantry.ParseIngredients | balanced_recipe_book.py:24-32 | the loop builds the pantry of all arguments; it never contains the empty string, and every element is canonical and a fixed point of `normalize_token` |
| Pantry.AllPiecesMembership | balanced_recipe_book.py:27-28 | a piece is among all the pieces exactly when some argument's `split(",")` yields it |
| Pantry.PantryOfAllPieces | balanced_recipe_book.py:24-32 | the pantry is the set of non-empty normal forms of all comma-separated pieces, whatever argument they come from |
| Pantry.PantryMembership | balanced_recipe_book.py:24-32 | a phrase is in the pantry exactly when some piece has an ASCII letter or digit and normalises to it |
| Matching.Tokenize | balanced_recipe_book.py:46-47 | tokens are non-empty and whitespace-free, so the empty string is never a token |
| Matching.Covers | balanced_recipe_book.py:55-62 | the test one pantry item passes: it has tokens, shares at least one with the ingredient, and the shared tokens make up at least 0.6 of the smaller token set (a definition; `CoversIffByCount`, `CoversSymmetric` and `CoversSelf` are about it) |
| Matching.Matches | balanced_recipe_book.py:50-64 | the value `ingredient_matches` returns: the ingredient has tokens and some pantry item passes `Covers` (a definition; `IngredientMatches` computes it by the source's loop, and `MatchesMonotone` and `MatchesWhenPresent` are about it) |
| Matching.TokenizeEmptyIff | balanced_recipe_book.py:46-47 | a phrase has no tokens exactly when it is all whitespace |
| Matching.CanonicalTokensEmptyIff | balanced_recipe_book.py:46-47 | of the canonical phrases, only the empty one has no tokens |
| Matching.TokenizeJoin | balanced_recipe_book.py:46-47 | the tokens of a space-join of tokens are exactly those tokens |
| Matching.RatioAtLeastThreshold | balanced_recipe_book.py:61-62 | overlap / smaller ≥ 0.6 holds exactly when 5·overlap ≥ 3·smaller |
| Matching.CoversIffByCount | balanced_recipe_book.py:55-62 | the per-item test (non-empty item tokens, overlap > 0, ratio ≥ 0.6) equals its whole-number form |
| Matching.IngredientMatches | balanced_recipe_book.py:50-64 | without ingredient tokens the answer is false; otherwise it is true exactly when some pantry item has tokens, shares one, and the overlap reaches 3/5 of the smaller token set |
| Matching.CoversSymmetric | balanced_recipe_book.py:58-62 | the overlap test does not depend on which side is the ingredient |
| Matching.CoversSelf | balanced_recipe_book.py:58-62 | any non-empty token set passes the test against itself |
| Matching.MatchesMonotone | balanced_recipe_book.py:54-64 | adding items to the pantry never loses a match |
| Matching.MatchesWhenPresent | balanced_recipe_book.py:50-64 | an ingredient that has tokens and is itself in the pantry matches |
| Matching.SaltMatchesSeaSalt | balanced_recipe_book.py:50-64 | "salt" satisfies "sea salt" (one token shared out of a smaller set of one) |
| Matching.OliveOilNotVegetableOil | balanced_recipe_book.py:50-64 | "vegetable oil" does not satisfy "olive oil" (one token shared out of two) |
| Matching.ThresholdIsInclusive | balanced_recipe_book.py:61-62 | an overlap of exactly 0.6 (three shared tokens out of five) passes |
| Recipes.NormalizeEach | balanced_recipe_book.py:81 | the `normalized` list has one entry per item: that item's normal form |
| Recipes.NormList | balanced_recipe_book.py:80-82 | the result has no empty phrase, only canonical ones, and is no longer than the input |
| Recipes.NormListMembership | balanced_recipe_book.py:80-82 | a phrase is kept exactly when it is non-empty and the normal form of some item |
| Recipes.NormListOfPhraseList | balanced_recipe_book.py:80-82 | a list that is already normalised passes through unchanged |
| Recipes.NormListIdempotent | balanced_recipe_book.py:80-82 | applying `norm_list` twice gives the same as applying it once |
| Recipes.FromEntry | balanced_recipe_book.py:79-95 | loading leaves both ingredient lists free of empty and non-canonical phrases, no longer than the entry's lists, and keeps every other field |
| Recipes.FromEntryOfLoaded | balanced_recipe_book.py:79-95 | loading a recipe that is already loaded changes nothing |
| Recipes.Hits | balanced_recipe_book.py:101-103 | the hit count never exceeds the list length |
| Recipes.MissingFrom | balanced_recipe_book.py:148-157 | the missing phrases are those that fail `ingredient_matches`, in list order; missing count plus hit count equals the list length |
| Recipes.Missing | balanced_recipe_book.py:146-158 | each returned list is the failing ingredients of its list, in recipe order and with repeats kept: an order-preserving sub-list containing exactly the failing phrases, whose length is the list length minus the hit count |
| Recipes.Fraction | balanced_recipe_book.py:104-111 | a share lies in [0, 1]; it is 1 exactly when the list is non-empty and every item hits, and 0 exactly when nothing hits (an empty list gives 0) |
| Recipes.IngredientScore | balanced_recipe_book.py:97-114 | the score is in [0, 1]; it is 0 without core ingredients, and otherwise 0.75 of the core share plus 0.25 of the supporting share, the latter being 0 for an empty list |
| Recipes.IngredientScoreFromMissing | balanced_recipe_book.py:97-114 | the same score is determined by `missing`: each list's share is (length − missing)/length |
| Recipes.HitsAllIff | balanced_recipe_book.py:101-103 | the hit count is the full length exactly when every ingredient matches |
| Recipes.HitsZeroIff | balanced_recipe_book.py:101-103 | the hit count is 0 exactly when no ingredient matches |
| Recipes.HitsMonotone | balanced_recipe_book.py:101-103 | a larger pantry never lowers the hit count |
| Recipes.FractionMonotone | balanced_recipe_book.py:104-111 | more hits of the same total never give a smaller share |
| Recipes.CoverageFullIff | balanced_recipe_book.py:97-114 | the coverage score is 1 exactly when both lists are non-empty and nothing is missing |
| Recipes.CoverageZeroIff | balanced_recipe_book.py:97-114 | the coverage score is 0 exactly when there are no core ingredients or no ingredient matches |
| Recipes.FullCoreWithoutSupportingIsThreeQuarters | balanced_recipe_book.py:105-114 | all core ingredients on hand with no supporting list scores 0.75, not 1 |
| Recipes.CoverageMonotone | balanced_recipe_book.py:97-114 | a larger pantry never lowers the coverage score |
| Recipes.Calories | balanced_recipe_book.py:118-120 | the energy is 4·carbohydrate + 4·protein + 9·fat, with fiber not counted (a definition; `MacroRatios` divides by it) |
| Recipes.MacroRatios | balanced_recipe_book.py:116-126 | zero energy or less gives three zero shares; otherwise each share times the energy is that macro's energy, the shares sum to 1, and each lies in [0, 1] when no macro is negative |
| Recipes.SharesOfTotal | balanced_recipe_book.py:123-126 | three parts divided by their positive sum add up to 1 and give the parts back, and each is in [0, 1] when none is negative |
| Recipes.DeviationSum | balanced_recipe_book.py:130-134 | the summed deviations in tolerance units are never negative, and are 0 exactly at the 40/30/30 target |
| Recipes.BalanceScore | balanced_recipe_book.py:128-136 | the clamped score lies in [0, 1] and is 1 exactly when the shares hit the 40/30/30 target |
| Recipes.IsBalanced | balanced_recipe_book.py:138-144 | the gate: each of the three energy shares lies within 0.1 of its 40/30/30 target, bounds included (a definition; `BalancedHasEnergy`, `PerfectScoreIsBalanced` and `BalancedScoreIsUnclamped` are about it) |
| Recipes.BalancedHasEnergy | balanced_recipe_book.py:121-122 | a recipe without positive energy never passes the balance gate (its carbohydrate share reads 0, which is 0.4 off target) |
| Recipes.PerfectScoreIsBalanced | balanced_recipe_book.py:128-144 | a balance score of 1 implies the recipe passes the gate |
| Recipes.BalancedScoreIsUnclamped | balanced_recipe_book.py:128-144 | for a recipe that passes the gate, the lower clamp of the balance score never applies |
| Recipes.OnTargetRecipe | balanced_recipe_book.py:13-15 | with factors 4/4/9, 50 g carbohydrate, 37.5 g protein and 50/3 g fat hit the target exactly, score 1 and pass the gate |
| Sorting.Insert | balanced_recipe_book.py:176 | puts an entry before the first entry whose score is not above its own (a definition; `InsertAddsOne`, `InsertKeepsSorted` and `InsertKeepsTiesInOrder` are about it) |
| Sorting.InsertAddsOne | balanced_recipe_book.py:176 | inserting adds the new entry and nothing else (as multisets) |
| Sorting.InsertKeepsSorted | balanced_recipe_book.py:176 | inserting into a descending sequence keeps it descending |
| Sorting.SortDescending | balanced_recipe_book.py:176 | the sorted list has non-increasing scores and is a permutation of the input |
| Sorting.ItemsOfPermutation | balanced_recipe_book.py:176 | permuting the scored entries permutes their items in the same way |
| Sorting.InsertKeepsTiesInOrder | balanced_recipe_book.py:176 | an inserted entry lands before the entries of equal score already placed |
| Sorting.SortIsStable | balanced_recipe_book.py:176 | for every score, the entries with that score keep their input order (`sort` is stable even with `reverse=True`) |
| Selection.Filter | balanced_recipe_book.py:169-171 | every kept entry passes the test, and the result is no longer than the input |
| Selection.FilterCounts | balanced_recipe_book.py:169-171 | each passing entry is kept as often as it occurs and every failing one is dropped |
| Selection.FilterIsSubsequence | balanced_recipe_book.py:169-171 | the filter keeps input order |
| Selection.FilterKeepsAll | balanced_recipe_book.py:82 | when every entry passes, the filter changes nothing |
| Selection.ScoreEach | balanced_recipe_book.py:172-175 | each entry is paired with its own score, in input order |
| Selection.ScoreEachTies | balanced_recipe_book.py:169-175 | the scored entries that tie at a value are the passing entries with that score, in input order |
| Selection.RankedSelection | balanced_recipe_book.py:167-177 | after sorting, the result has every passing entry as often as it occurs, with its own score, and nothing else |
| Ranking.CompositeScore | balanced_recipe_book.py:172-174 | 0.8·coverage + 0.2·balance lies in [0, 1] and is 1 exactly when both parts are 1 |
| Ranking.Balanced | balanced_recipe_book.py:169-171 | the recipes that pass `is_balanced`, in input order (a definition; `Selection.Filter`, `FilterCounts` and `FilterIsSubsequence` are about it) |
| Ranking.ScoreBalanced | balanced_recipe_book.py:169-175 | the list `scored` before sorting: each balanced recipe paired with its composite score, in input order (a definition; `Selection.ScoreEach` and `ScoreEachTies` are about it) |
| Ranking.ScoreRecipes | balanced_recipe_book.py:167-177 | the ranking is non-increasing in score; every entry is balanced and carries its composite score in [0, 1]; each balanced input recipe appears as often as in the input, and no other recipe appears |
| Ranking.TiesKeepInputOrder | balanced_recipe_book.py:167-177 | recipes of equal score appear in the ranking in their input order |
| Ranking.ZeroCoverageIsKept | balanced_recipe_book.py:169-175 | a balanced recipe that the pantry does not cover at all is still ranked, with score 0.2·balance |
| Ranking.RankingEmptyIff | balanced_recipe_book.py:167-177 | the ranking is empty exactly when no recipe passes the balance gate |
| Ranking.Limit | balanced_recipe_book.py:265 | the limit is at least 1, is `top` when `top` ≥ 1 and is 1 otherwise, with no upper cap |
| Ranking.TopResults | balanced_recipe_book.py:266 | the results shown are a prefix of the ranking of length min(|matches|, limit), so at least one when any match exists |
| Ranking.ShownBeatOmitted | balanced_recipe_book.py:260-266 | every result shown scores at least as high as every match left out |
| Ranking.Recommend | balanced_recipe_book.py:249-266 | an empty pantry is refused; "no balanced recipes" is reported exactly when none passes the gate; otherwise between 1 and `max(1, top)` results are shown, a sorted prefix of the ranking of length min(|ranking|, limit) |

## Left out

- Argument parsing, the interactive prompt and file handling are I/O. This covers `build_arg_parser`, `ensure_ingredients`, `input()`, the path check, `load_recipes` and JSON decoding. `Ranking.Recommend` starts from the pantry and the loaded recipes. The prompt `ensure_ingredients` shows when the arguments give no ingredient is not modelled (`--interactive` has no effect once they give one, lines 37-38).
- `describe_recipe`, `format_macros` and every `print` are output formatting with float rendering.
- The `int()`, `float()` and `str()` coercions of `Recipe.from_dict` over untyped dictionaries are replaced by a typed `Recipe` record whose defaults are already applied. In particular, a macro the entry leaves out reads 0, as `macros.get(macro, 0.0)` does. Only the `norm_list` filtering of the two ingredient lists is modelled (`Recipes.FromEntry`).
- Unicode: `str.isalnum`, `str.isspace` and `str.lower` are modelled over ASCII only. Python keeps non-ASCII letters and digits (for example "é") and lower-cases them; the model deletes them. Non-ASCII whitespace such as U+00A0 separates words in Python but is deleted by the model, so the two words are joined: "sea\u00a0salt" normalises to "sea salt" in Python and to "seasalt" in the model.
- IEEE floating point: ratios, weights and scores are exact reals. Near a boundary the float program can decide differently. For example, a carbohydrate share of 0.3 is exactly 0.1 from 0.4, but in floats `abs(0.3 - 0.4)` is slightly more than 0.1.
- Fiber is carried in `Macros` but takes no part in any score, as in the source.
- Matching.IngredientMatches: the order in which Python iterates over the pantry set is not modelled. Each step picks an arbitrary remaining item. The contract shows that the answer does not depend on that order.
- Sorting.SortDescending: Python's sort (Timsort) is modelled by a stable insertion sort. The contract pins the result down completely: it is descending, it is a permutation and it is stable (`Sorting.SortIsStable`). Any two sorts with these three properties give the same list, so the model returns the same list as the source.
