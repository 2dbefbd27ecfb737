# QuizSouls boss-guessing core, in Dafny

QuizSouls is a bot for a daily "guess the boss" quiz. After each guess the
quiz site shows one feedback row per attribute: HP, number of weapons,
resistances, weaknesses and immunities, and the required/optional flag. The
bot folds that row into a set of clues about the secret boss, scores every
catalog boss against the clues, and guesses the best-ranked one. The
repository has two independent versions of this logic, modelled here as two
separate modules:

- `QuizSoulsLol` (`quiz_souls_lol.dfy`) is the GUI application
  `QuizSoulsLOL.py`. It keeps a fixed restriction record:
  - HP min/max;
  - Weapons exact;
  - Resistance/Weakness/Immunity exact, sorted "not" list and close target;
  - Optional exact.

  Feedback symbols are MAIOR, MENOR, IGUAL, PERTO, DIFERENTE and "—". The
  scorer is a Gaussian; the score is a weighted sum scaled to 15. The module
  also covers the whitelist-filtered stable ranking, the attempt counter of
  the application (at most 7 guesses), and the CSS-class classifier of the
  site's feedback row.
- `QuizSoulsV1` (`quiz_souls_v1.dfy`) is the script `QuizSoulsV1.py`. It
  covers:
  - catalog normalisation;
  - a per-attribute rules map (`exact/min/max/close/not`) driven by the icons
    ✅ ⚠️ ⬆️ ⬇️ ❌;
  - a piecewise-linear score with a 0.05 floor;
  - a composite score with two 5% bonuses;
  - the ranking and the choice among the site's suggestions;
  - the icon classifier.

Shared pieces:
- `Options`: an option type.
- `Numbers`: `max`, `min` and `abs`.
- `Text`: Python's substring test and ASCII `lower()`, with the fact that a
  search splits at any character the needle lacks (a space between the words
  of a class attribute, say).
- `SiteClasses`: the class name the site gives every feedback cell, in the
  two spellings the programs select by, and proofs that it holds none of the
  colour or arrow words.
- `SortedLists`: `sorted(set(xs))`, with its uniqueness lemma.
- `StableSort`: `list.sort(key=…, reverse=True)` as a stable insertion sort,
  with a proof that equal keys keep their order.
- `Bell`: the Gaussian `exp(-z²)`.

How the model is set up:
- Everything is an immutable datatype and a pure function. The global
  `constraints` dictionary of the script and the mutable fields of the GUI
  `App` are explicit values.
- Python floats are exact reals.
- `exp(-z²)` is a parameter `g`, assumed positive, at most 1, and equal to 1
  exactly at 0 (`Bell.IsBell`). One lemma also assumes it falls as `|z|`
  grows (`Bell.Unimodal`). `Bell.Surrogate` meets both assumptions, which
  shows they are consistent.

Where the code does something a reader might not expect, the model follows
the code:
- **There is no exact lock.** IGUAL replaces an earlier exact value or HP
  range. Weapons DIFERENTE on a weaponless guess clears a known exact count
  (`WeaponsDifferentClearsExact`, `EqualOverwritesHp`).
- **HP `min <= max` is not enforced.** MAIOR past the upper bound leaves an
  inverted range (`GreaterCanInvertRange`), and `score_hp` then returns 0.5.
- **Whitelists.** An empty suggestion list filters nothing, the same as no
  list at all.
- **One-sided ranges in the script favour the bound itself.** The range is
  taken to end at the scored value. So a value on the bound gets the full
  range weight, and every value beyond it gets 0.7 of it
  (`OneSidedFavoursBound`).
- **The GUI's combo-box normalisation has no effect.** Every symbol it drops
  is one the interpreter ignores for that attribute
  (`NormalizationIsInvisible`).
- **The GUI's Weapons score never exceeds 0.85.** Weapons is always scored
  without a "not" list or close target, so no boss reaches the nominal
  maximum of 15 (`ScoreBoss`: at most 14.64).
- **Weapons IGUAL and DIFERENTE read the count in two ways.** IGUAL pins the
  guess's weapon count. DIFERENTE on an armed guess concludes "no weapons".
  The interpreter never rules out the hidden boss only under that reading
  (`ApplyFeedbackKeepsSecret`).
- **Ties go to catalog order.** Both bots sort stably, so among equal scores
  the boss listed first in the catalog is guessed (`RankHeadIsFirstBest`,
  `PickBestIsFirstBest`).
- **Fresh restrictions give every boss the same score, 9.3.** The first
  ranking is therefore the catalog order (`FreshRankingIsCatalogOrder`).

## Model

| member | source | states |
|---|---|---|
| QuizSoulsLol.OptionalToInt | QuizSoulsLOL.py:89-91 | the flag is 0 or 1, and 1 exactly when the lower-cased text is "optional" |
| QuizSoulsLol.OptionalIgnoresCase | QuizSoulsLOL.py:89-91 | lower-casing the text before reading the flag changes nothing |
| QuizSoulsLol.BuildRestrictions | QuizSoulsLOL.py:137-145 | the initial record admits every HP value and has no exact, close or forbidden count |
| QuizSoulsLol.ApplyHp | QuizSoulsLOL.py:156-171 | MAIOR keeps exactly the admitted HP values above the guess; MENOR keeps those below it; IGUAL admits only the guess's HP; any other symbol changes nothing; every symbol but IGUAL narrows the bounds |
| QuizSoulsLol.EqualOverwritesHp | QuizSoulsLOL.py:167-171 | IGUAL replaces a range [2000, 3000] with [1000, 1000], so it does not narrow |
| QuizSoulsLol.GreaterCanInvertRange | QuizSoulsLOL.py:158-162 | MAIOR on 1000 with max 999 leaves min 1001 > max 999 |
| QuizSoulsLol.HpBoundsMonotone | QuizSoulsLOL.py:157-171 | for any HP symbol other than IGUAL, min never falls and max never rises |
| QuizSoulsLol.ApplyFeedbackKeepsSecret | QuizSoulsLOL.py:148-203 | feedback that truthfully compares the guess with the hidden boss never rules the hidden boss out: it stays within the HP bounds, matches every exact value and has no forbidden length |
| QuizSoulsLol.ApplyWeapons | QuizSoulsLOL.py:174-182 | IGUAL pins the guess's weapon count; DIFERENTE gives 0 for an armed guess and no exact value for a weaponless one; other symbols change nothing |
| QuizSoulsLol.WeaponsDifferentClearsExact | QuizSoulsLOL.py:176-182 | IGUAL on 2 weapons followed by DIFERENTE on a weaponless guess leaves no exact count |
| QuizSoulsLol.ApplyCount | QuizSoulsLOL.py:185-195 | IGUAL sets only exact, PERTO only close; DIFERENTE leaves exact and close alone and makes "not" a strictly increasing list of the old values plus the guess's count |
| QuizSoulsLol.DifferentOnForbiddenIsNoop | QuizSoulsLOL.py:192-195 | DIFERENTE on a length already in a sorted "not" list leaves the restriction unchanged |
| QuizSoulsLol.DifferentIdempotent | QuizSoulsLOL.py:192-195 | DIFERENTE twice on the same count equals DIFERENTE once |
| QuizSoulsLol.DifferentCommutes | QuizSoulsLOL.py:192-195 | the "not" list does not depend on the order in which counts were reported |
| SortedLists.Canonical | QuizSoulsLOL.py:193-195 | `sorted(set(xs))` is strictly increasing and holds exactly the values of `xs` |
| SortedLists.Unique | QuizSoulsLOL.py:193-195 | two strictly increasing lists with the same values are equal |
| SortedLists.CanonicalFixesSorted | QuizSoulsLOL.py:193-195 | `sorted(set(xs))` of a strictly increasing list is the list itself |
| QuizSoulsLol.ApplyOptional | QuizSoulsLOL.py:198-203 | IGUAL gives the guess's flag; DIFERENTE gives the other flag, which is again 0 or 1; other symbols change nothing |
| QuizSoulsLol.ApplyFeedback | QuizSoulsLOL.py:148-203 | each attribute takes its own symbol against the guess's own value: MAIOR/MENOR keep the HP values above/below the guess's HP and IGUAL pins it; Weapons IGUAL pins the guess's weapon count and DIFERENTE gives 0 or nothing; each list attribute follows IGUAL/PERTO/DIFERENTE with the guess's own list length; Optional IGUAL gives the guess's flag and DIFERENTE the other; "—" or a missing key keeps the restriction |
| QuizSoulsLol.ApplyFeedbackIsLocal | QuizSoulsLOL.py:148-203 | each attribute's new restriction depends only on its own symbol |
| QuizSoulsLol.ScoreHp | QuizSoulsLOL.py:94-119 | the score is in (0, 1]; it is 1 exactly at the centre of a well-formed range or past a one-sided bound; it is 0.5 with no bound or with min > max |
| QuizSoulsLol.HpCloserToCentreScoresHigher | QuizSoulsLOL.py:96-103 | with a well-formed range, a boss nearer the centre never scores lower |
| QuizSoulsLol.GreaterScenario | QuizSoulsLOL.py:105-110 | after MAIOR on 1000, a 1001-HP boss scores 1 and a 999-HP boss scores less |
| QuizSoulsLol.ScoreCountExact | QuizSoulsLOL.py:122-134 | the score is in (0, 1]; it is 0.625 without restrictions, at most 0.75 for a forbidden count, at most 0.85 without a close target; it is 1 exactly when exact and close both equal the count and the count is not forbidden |
| QuizSoulsLol.ExactCountScoresHigher | QuizSoulsLOL.py:122-134 | with exact value k, length k scores at least 0.45 more than any other length that the "not" list treats alike, with no close target or close target k |
| QuizSoulsLol.ScoreBoss | QuizSoulsLOL.py:206-239 | every part is in [0, 1]; the total is 15 times the weighted sum, at most 14.64; the HP part is 1 exactly when the boss's HP is perfect for the HP bounds; the Weapons part is 0.625 with no exact count, 0.85 when the boss's weapon count is the exact one, else 0.4; each list part is 1 exactly when the boss's own length is that attribute's exact value and close target and is not forbidden; the Optional part is 0 exactly when a known flag differs from the boss's |
| QuizSoulsLol.FreshScoreIsUniform | QuizSoulsLOL.py:206-239 | with fresh restrictions every boss scores 9.3 |
| QuizSoulsLol.EqualHpScoresGuessFully | QuizSoulsLOL.py:167-171 | after IGUAL on HP, the guessed boss's HP part is 1 |
| QuizSoulsLol.EqualWeaponsScoresGuessBest | QuizSoulsLOL.py:174-239 | after IGUAL on Weapons, the guess scores 0.85 for it and any boss with another count 0.4 |
| QuizSoulsLol.EqualCountScoresGuessBest | QuizSoulsLOL.py:184-239 | after IGUAL on Resistance, Weakness or Immunity, the guess outscores every boss with another length by at least 0.45 on that attribute, when no close target and no forbidden length tells them apart |
| QuizSoulsLol.EqualOptionalScoresGuessBest | QuizSoulsLOL.py:197-239 | after IGUAL on Optional, the guess scores 1 for it and any boss with the other flag 0 |
| QuizSoulsLol.Candidates | QuizSoulsLOL.py:250-253 | a boss is a candidate exactly when it is in the catalog and admitted; no whitelist or an empty one keeps the whole catalog |
| QuizSoulsLol.KeepNamedAppend | QuizSoulsLOL.py:250-253 | filtering by name filters the two halves of a catalog separately and concatenates the results, so kept bosses stay in catalog order |
| QuizSoulsLol.CandidatesAppend | QuizSoulsLOL.py:250-253 | the candidates of a catalog are the candidates of its first part followed by those of the rest |
| QuizSoulsLol.CandidatesSingle | QuizSoulsLOL.py:250-253 | a one-boss catalog keeps its boss exactly when the whitelist admits it |
| QuizSoulsLol.RankBosses | QuizSoulsLOL.py:242-257 | the ranking is non-increasing by score, a permutation of the admitted catalog's rows, and has every row scored against the restrictions; the first row has the top score |
| StableSort.Sort | QuizSoulsLOL.py:256 | the sort yields a non-increasing permutation of its input |
| StableSort.SortKeepsTies | QuizSoulsLOL.py:256 | for every key, the entries with that key keep their input order |
| QuizSoulsLol.RankTiesKeepCatalogOrder | QuizSoulsLOL.py:250-256 | bosses with equal scores appear in catalog order |
| QuizSoulsLol.RankHeadIsFirstBest | QuizSoulsLOL.py:250-256 | the top row is the first candidate, in catalog order, with the best score; every earlier candidate scores strictly less |
| StableSort.SortHeadIsFirstBest | QuizSoulsLOL.py:256 | the head of a stable descending sort is the first input entry with the largest key |
| QuizSoulsLol.FreshRankingIsCatalogOrder | QuizSoulsLOL.py:242-257 | before any feedback the ranking is the admitted catalog in catalog order |
| QuizSoulsLol.WhitelistScenario | QuizSoulsLOL.py:251-253 | with the whitelist ["Boss2", "Boss3"], "Boss1" is never ranked |
| QuizSoulsLol.Start | QuizSoulsLOL.py:616-652 | starting sets the counter to 0 and fresh restrictions; the ranking is the filtered catalog in catalog order and the session is coherent |
| QuizSoulsLol.Reset | QuizSoulsLOL.py:679-702 | reset sets the counter to 0 and fresh restrictions, and the ranking is the whole catalog in order |
| QuizSoulsLol.DoAttempt | QuizSoulsLOL.py:704-715 | an attempt is refused exactly at 7 attempts or with an empty ranking; otherwise it counts one attempt and guesses the top row; the counter never passes 7 |
| QuizSoulsLol.GuessIsBest | QuizSoulsLOL.py:704-715 | in a coherent session, the guess is a catalog boss scored against the current restrictions, no row scores higher, and coherence is kept |
| QuizSoulsLol.NormalizeFeedback | QuizSoulsLOL.py:790-812 | every box ends up showing one of its own symbols or "—"; a symbol the box offers is kept, any other becomes "—"; feedback already offered is unchanged |
| QuizSoulsLol.NormalizeIdempotent | QuizSoulsLOL.py:790-812 | normalising twice is normalising once |
| QuizSoulsLol.NormalizationIsInvisible | QuizSoulsLOL.py:790-814 | normalising the symbols never changes the resulting restrictions |
| QuizSoulsLol.ApplyFeedbackAndUpdate | QuizSoulsLOL.py:781-842 | an empty ranking changes nothing; otherwise the raw feedback is applied against the top row's boss and the catalog is re-ranked; solved means all six IGUAL; the counter is untouched; coherence is kept |
| QuizSoulsLol.FeedbackUsesTheGuess | QuizSoulsLOL.py:787 | feedback after an attempt is applied against the boss that attempt guessed |
| QuizSoulsLol.SolvedScenario | QuizSoulsLOL.py:835-838 | guessing "Boss1" and answering all IGUAL reports it solved |
| QuizSoulsLol.Run | QuizSoulsLOL.py:616-842 | over any sequence of presses of INICIAR BOT, PARAR BOT, FAZER TENTATIVA, APLICAR FEEDBACK and RESET QUIZ the counter stays at most 7, and with no INICIAR BOT or RESET QUIZ it grows by exactly the number of guesses |
| QuizSoulsLol.GuessesBounded | QuizSoulsLOL.py:706-708 | with no INICIAR BOT or RESET QUIZ, at most 7 minus the current count more guesses are made |
| QuizSoulsLol.ClassifyHpCell | QuizSoulsLOL.py:437-448 | tested in the source's order: IGUAL exactly for a green class; for a red, non-green class MAIOR exactly with an up arrow, MENOR exactly with a down arrow and no up arrow, DIFERENTE exactly with neither; "—" exactly when neither green nor red; never PERTO |
| QuizSoulsLol.ClassifyCell | QuizSoulsLOL.py:449-458 | tested in the source's order: IGUAL exactly for a green class, PERTO exactly for an orange non-green one, DIFERENTE exactly for a red class that is neither green nor orange, "—" exactly when none of the three appears; never MAIOR or MENOR |
| QuizSoulsLol.FeedbackFromCells | QuizSoulsLOL.py:407-459 | fewer than 7 cells give nothing; otherwise cell 0 (the name) is skipped, cell 1 is read by the HP reader and cells 2 to 6 by the attribute reader, as Weapons, Resistance, Weakness, Immunity and Optional in that order |
| QuizSoulsLol.ClassifyHpCellRoundTrip | QuizSoulsLOL.py:437-448 | each HP symbol is read back from a class showing it |
| QuizSoulsLol.ClassifyCellRoundTrip | QuizSoulsLOL.py:449-458 | each other symbol is read back from a class showing it |
| QuizSoulsLol.FeedbackFromCellsRoundTrip | QuizSoulsLOL.py:424-459 | a row of such classes, after a name cell, reads back as the feedback it shows |
| QuizSoulsLol.ClassifyIgnoresOtherWords | QuizSoulsLOL.py:437-458 | a leading word without any of the colour or arrow words, separated by a space, changes neither reading of a class |
| QuizSoulsLol.CellWordIsMarkerFree | QuizSoulsLOL.py:389-390 | the class name `categories_content-cell` holds none of green, red, orange, arrow-up, arrow-down |
| QuizSoulsLol.FeedbackFromSiteCellsRoundTrip | QuizSoulsLOL.py:424-459 | a row whose classes are a marker-free word followed by the class showing each symbol reads back as the feedback it shows |
| QuizSoulsLol.SiteRowReadsBack | QuizSoulsLOL.py:389-459 | the same for classes such as `categories_content-cell red arrow-up`, the form the selectors pick |
| Text.ContainsIff | QuizSoulsLOL.py:438 | the substring test holds exactly when the needle occurs at some position |
| Text.ContainsAcross | QuizSoulsLOL.py:439 | a needle without the separator occurs in `p + sep + c` exactly when it occurs in `p` or in `c` |
| SiteClasses.LolCellWordLacksGreen | QuizSoulsLOL.py:389-390 | `green` does not occur in `categories_content-cell` |
| SiteClasses.LolCellWordLacksOrange | QuizSoulsLOL.py:389-390 | `orange` does not occur in `categories_content-cell` |
| SiteClasses.V1CellWordLacksGreen | QuizSoulsV1.py:119 | `green` does not occur in `categories__content-cell` |
| QuizSoulsV1.NormalizeBoss | QuizSoulsV1.py:64-80 | the counts are the list lengths; the flag is 0 exactly for "required"; missing lists are empty and a missing HP is 0 |
| QuizSoulsV1.NormalizeRoundTrip | QuizSoulsV1.py:64-80 | normalising a record rebuilt from a well-formed boss gives the boss back |
| QuizSoulsV1.MissingOptionalIsOptional | QuizSoulsV1.py:70 | a record without `optional` counts as optional |
| QuizSoulsV1.AddToList | QuizSoulsV1.py:153-159 | None adds nothing; otherwise the value is present afterwards; the old list is kept as a prefix, at most one element is appended, and no duplicates arise |
| QuizSoulsV1.AddToListIdempotent | QuizSoulsV1.py:153-159 | adding the same value twice equals adding it once |
| QuizSoulsV1.UpdateRule | QuizSoulsV1.py:177-187 | ✅ sets exact, ⚠️ close, ❌ lists the value; ⬆️ sets a lower bound above the guess that never falls; ⬇️ sets an upper bound below it that never rises; nothing else changes |
| QuizSoulsV1.SentinelBoundsUpArrow | QuizSoulsV1.py:180 | with no lower bound, ⬆️ on a value below -10^9 sets the bound to -10^9 |
| QuizSoulsV1.UpdateRuleKeepsSecret | QuizSoulsV1.py:177-187 | a truthful icon never excludes the secret value, for values between the sentinels |
| QuizSoulsV1.UpdateConstraints | QuizSoulsV1.py:161-187 | each attribute's rules take the clue of its own icon against the guess's own value for it: ✅ pins it, ⚠️ makes it the close value, ❌ lists it, ⬆️/⬇️ set a bound beyond it that never loosens; all other fields are kept |
| QuizSoulsV1.NameColumnIgnored | QuizSoulsV1.py:173-174 | the Boss Name icon has no effect |
| QuizSoulsV1.UpdateConstraintsIdempotent | QuizSoulsV1.py:161-187 | reading the same row twice equals reading it once |
| QuizSoulsV1.UpdateConstraintsKeepsSecret | QuizSoulsV1.py:161-187 | accumulating a truthful row keeps the secret boss consistent with every hard clue |
| QuizSoulsV1.ScoreNumeric | QuizSoulsV1.py:192-225 | with an exact value the score is the exact weight on a match and 0 otherwise; without one it lies between 0.05 and the larger of the close and range weights |
| QuizSoulsV1.ScoreHp | QuizSoulsV1.py:227-230 | HP scores are 0 or 1 with an exact value, else in [0.05, 0.8] |
| QuizSoulsV1.ScoreCount | QuizSoulsV1.py:232-234 | count scores are 0 or 1 with an exact value, else in [0.05, 0.75] |
| QuizSoulsV1.NotListEffect | QuizSoulsV1.py:221-225 | the "not" list affects only listed values, and for those it removes the penalty, never going below the 0.05 floor |
| QuizSoulsV1.RangeTerm | QuizSoulsV1.py:210-219 | the in-range term is between 0.7 and 1 times the range weight; it equals the full weight exactly for a one-point range or the centre |
| QuizSoulsV1.InRangeBand | QuizSoulsV1.py:205-225 | an in-range value with no close value or penalty scores in [0.7·wr, wr] |
| QuizSoulsV1.CentreScoresFull | QuizSoulsV1.py:210-219 | the centre of a two-sided range, or the single point of a one-point range, scores the full range weight |
| QuizSoulsV1.OneSidedFavoursBound | QuizSoulsV1.py:207-219 | with only a lower bound, the bound scores the full range weight and every value above it scores 0.7 of it |
| QuizSoulsV1.OutsideRangeScoresFloor | QuizSoulsV1.py:205-225 | outside the range and without a close bonus the score is 0.05 |
| QuizSoulsV1.CloseBonus | QuizSoulsV1.py:200-202 | within one of the close value, an unlisted value scores at least the close weight |
| QuizSoulsV1.CompositeScore | QuizSoulsV1.py:236-261 | every part is in [0, 1]; the total lies between the weighted sum and 1.1025 times it, and between 0 and 13.3 × 1.1025 |
| QuizSoulsV1.CompositeIsBonusTimesSum | QuizSoulsV1.py:254-260 | the total is the weighted sum times 1, 1.05 or 1.1025, according to the zero-immunity and zero-weapon bonuses |
| QuizSoulsV1.ExactMatchScoresBest | QuizSoulsV1.py:196-261 | once all six attributes have exact values, a boss equal to all six scores at least as much as any other boss, whatever its old bounds and "not" lists say, since the exact test returns first |
| QuizSoulsV1.RankBosses | QuizSoulsV1.py:263-269 | the ranking is non-increasing, a permutation of the scored list, of the same length, with the top score first |
| QuizSoulsV1.RankTiesKeepOrder | QuizSoulsV1.py:268 | equal scores keep list order |
| QuizSoulsV1.Pool | QuizSoulsV1.py:276-278 | the pool holds exactly the suggested catalog bosses whose names are not excluded |
| QuizSoulsV1.PoolAppend | QuizSoulsV1.py:276-278 | the pool of a catalog is the pool of its first part followed by that of the rest, so it keeps catalog order |
| QuizSoulsV1.PoolSingle | QuizSoulsV1.py:276-278 | a one-boss catalog gives that boss exactly when it is suggested and not excluded |
| QuizSoulsV1.PickBest | QuizSoulsV1.py:274-280 | a pick exists exactly when some catalog boss is suggested; the pick is a suggestion; it is an already-tried name only when every suggested boss was tried |
| QuizSoulsV1.PickBestHasTopScore | QuizSoulsV1.py:274-280 | the picked boss scores at least as much as every boss of the pool it came from |
| QuizSoulsV1.PickBestIsFirstBest | QuizSoulsV1.py:274-280 | the pick is the first boss of its pool, in catalog order, with the best score; every earlier one scores strictly less |
| QuizSoulsV1.Classify | QuizSoulsV1.py:129-141 | tested in the source's order: ✅ exactly for a green class; ⚠️ exactly for yellow without green; ⬆️ exactly for arrow-up without green or yellow; ⬇️ exactly for arrow-down without any of those; ❌ exactly when none of the four appears |
| QuizSoulsV1.FeedbackFromRows | QuizSoulsV1.py:112-144 | no row, or a last row of fewer than 8 cells, gives nothing; otherwise cells 1 to 7 of the last row, and no other row, give the name, HP, Weapons, Resistance, Weakness, Immunity and Optional icons in that order |
| QuizSoulsV1.ClassifyRoundTrip | QuizSoulsV1.py:129-141 | every icon is read back from a class showing it |
| QuizSoulsV1.FeedbackFromRowsRoundTrip | QuizSoulsV1.py:115-141 | only the last row counts, and it reads back as the icons it shows |
| QuizSoulsV1.ClassifyIgnoresOtherWords | QuizSoulsV1.py:129-141 | a leading word without green, yellow or an arrow word, separated by a space, does not change the icon |
| QuizSoulsV1.CellWordIsMarkerFree | QuizSoulsV1.py:119 | the class name `categories__content-cell` holds none of the four words the classifier tests |
| QuizSoulsV1.FeedbackFromSiteRowsRoundTrip | QuizSoulsV1.py:115-141 | with a marker-free word before every class, only the last row counts and it reads back as the icons it shows |
| QuizSoulsV1.SiteRowReadsBack | QuizSoulsV1.py:115-141 | the same for classes such as `categories__content-cell arrow-up`, the form the selector picks |

## Left out

- Browser automation: the Selenium scraper, its selector fallbacks, sleeps
  and page lookups, in both files. Class strings, cell lists and suggestion
  lists are parameters instead.
- The DearPyGui interface: logging, tables, panels, button enabling, the
  catalog filter box and `stop_automation`. Pressing buttons is modelled
  only as the `QuizSoulsLol.Action` sequence of `Run`.
- `auto_capture_feedback`: it copies the classifier's row into the combo
  boxes and calls `apply_feedback_and_update`. That is the composition of
  `FeedbackFromCells` and `ApplyFeedbackAndUpdate`.
- Loading the catalog and legend from JSON files. The model takes a
  catalog. The script's `int()` on HP is taken as already done.
- Randomness: the script's random letters, sleeps and random fallback
  choice. The whole main loop of the script is left out, including its
  tried-names bookkeeping and its stop on an all-✅ row.
- QuizSoulsV1.PickBest: returns None where the script makes a random choice
  among the suggestions (or fails on an empty list).
- Printing and pretty-printing.
- The values of `exp` and IEEE rounding. Scores are exact reals, and the
  Gaussian is the parameter described above.
- QuizSoulsLol.HpCloserToCentreScoresHigher: assumes, in addition, that the
  Gaussian falls as `|z|` grows.
- QuizSoulsLol.OptionalToInt: lower-cases ASCII letters only. Python's
  `lower()` also folds other alphabets, which cannot turn a string into
  "optional".
- QuizSoulsV1.UpdateRuleKeepsSecret: holds only for values between -10^9
  and 10^9, because the script's sentinels are real bounds
  (`SentinelBoundsUpArrow`).
- QuizSoulsV1.UpdateConstraintsKeepsSecret: holds only for a secret boss
  whose values all lie between -10^9 and 10^9, for the same reason.
- QuizSoulsLol.ApplyFeedbackKeepsSecret: reads Weapons IGUAL as "same
  weapon count" and Weapons DIFERENTE as "exactly one of the two has no
  weapons", the reading the interpreter takes. Under a plain "different
  count" reading, DIFERENTE on an armed guess can rule out an armed secret.
- QuizSoulsLol.EqualCountScoresGuessBest: assumes no close target and the
  same "not"-list status for both lengths. A close target or a forbidden
  length can outweigh the 0.45 of the exact term.
- QuizSoulsV1.CompositeScore: states the exact product with the bonus
  factor in `CompositeIsBonusTimesSum` rather than in its own contract.
- Absent keys: an absent "not" key and an empty list are both the empty
  sequence, since the code treats them alike. An absent feedback key and
  "—" are both `Unknown`.
