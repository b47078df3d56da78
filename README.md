# Lotto game model

A verified Dafny model of the console lotto game in `assignment2.c`. A player
picks six distinct numbers in 1..42. The player can show them, sort them in
place with the program's own quicksort, check them against the fixed draw
1 3 5 7 9 11 (bonus 42) for a prize, or look at how often each number has
been chosen over the session. Until a first set of numbers is entered,
options 2 to 5 are refused, and option 6 ends the session.

The model is split by component:

- `validation.dfy` (module `Validation`) covers the range and uniqueness
  check of `validate_numbers` and the retry loop of `input_numbers` over
  abstract input attempts.
- `sorting.dfy` (module `Sorting`) covers `quick_sort` on an `array<int>`.
  Its alternating-cursor partition loop is the method `Partition`, and the
  recursion on the two sides of the settled pivot is `QuickSort`.
- `frequency.dfy` (module `Frequency`) covers `update_frequency` on the
  42-cell table in place, and the selection made by `print_frequency`.
- `prize.dfy` (module `Prizes`) covers `check_numbers`: its inner scan
  (`ScanWinning`), the match count, the bonus flag and the prize tier,
  returned as a `Prize` value instead of printed text.
- `session.dfy` (module `Session`) covers `main`. The class `LottoSession`
  holds `nums_entered`, `player_numbers` and `freq`. `Step` is one pass of
  the menu switch, and `Play` is the do-while loop over the player's
  selections until option 6.

Console output is replaced by values: `Step` returns a `Report` saying what
the program would have printed about (numbers saved, numbers shown, the
prize, the frequency pairs, "enter your numbers first", goodbye).

## Model

| member | source | states |
|---|---|---|
| Validation.ValidateNumbers | assignment2.c:201-230 | accepts exactly when every value is in 1..42 and no two positions hold the same value |
| Validation.DistinctIffSingleOccurrences | assignment2.c:207-229 | the pairwise "no duplicate" test agrees with "no value occurs twice", so the verdict does not depend on the order in which pairs are compared |
| Validation.ValidEntryPermutation | assignment2.c:207-229 | whether an entry is valid depends only on its values, not their order, so a sorted valid entry stays valid |
| Validation.InputNumbers | assignment2.c:150-192 | returns the first attempt that is all integers and passes validation, so what it returns always has `size` values (six where `main` calls it) and is valid; every attempt before it was non-numeric or invalid; if no attempt is valid it reports none |
| Sorting.Partition | assignment2.c:256-310 | the alternating scan ends with the original first element settled at `pivot`: nothing larger before it, nothing smaller after it within the segment; the array is a permutation of the old one and nothing outside the segment changes |
| Sorting.QuickSort | assignment2.c:256-326 | `arr[start .. start+size)` ends sorted, the array keeps the same values (a permutation), and nothing outside the segment changes |
| Sorting.CombineSortedSides | assignment2.c:312-325 | after the partition, with each side already sorted (quick_sort recurses only on sides longer than one), the whole segment is sorted and nothing outside it has changed |
| Sorting.SegmentMultiset | assignment2.c:256-326 | a rearrangement that changes nothing outside a segment rearranges the segment itself, so the segment keeps its multiset of values |
| Sorting.SortedPermutationUnique | assignment2.c:256-326 | two sorted rearrangements of the same values are equal, so the sorted result is determined by the input's values |
| Sorting.SortedInputUnchanged | assignment2.c:256-326 | sorting is idempotent: for a segment already in order, the only state QuickSort's contract allows is the original array |
| Frequency.UpdateFrequency | assignment2.c:331-339 | each cell `v-1` rises by the number of times `v` occurs in the entry, cells of values not entered are unchanged, and the table's total rises by the entry's length |
| Frequency.SumIncrement | assignment2.c:337 | bumping one cell raises the table's total by exactly one |
| Frequency.DistinctOccursOnce | assignment2.c:335-338 | with a validated entry each touched cell rises by exactly one |
| Frequency.FrequencyReport | assignment2.c:344-355 | lists exactly the pairs (i+1, freq[i]) with a non-zero count, in strictly ascending order of value |
| Prizes.PrizeFor | assignment2.c:393-435 | the tier table of the switch; the prize is Nothing exactly when there are fewer than 3 or more than 6 matches, or 3 matches without the bonus |
| Prizes.PrizeMonotone | assignment2.c:393-435 | more matches never give a lower tier, and the bonus never lowers the tier at the same count |
| Prizes.BonusMatters | assignment2.c:400-430 | the bonus changes the prize exactly for 3, 4 and 5 matches |
| Prizes.ScanWinning | assignment2.c:369-388 | the scan of one player number finds a match exactly when the number is among the main numbers; the bonus test fires exactly when the number is the bonus number and differs from the first main number, because a hit at the first step breaks before the bonus test |
| Prizes.CheckNumbers | assignment2.c:360-437 | `matches` is the number of player positions whose value occurs among the main numbers (between 0 and size), `bonus` holds exactly when some player number is the bonus number and not the first main number, and the prize is the tier for the two |
| Prizes.MatchCountExtremes | assignment2.c:367-378 | the count is the full size exactly when every player number matches, and zero exactly when none does |
| Prizes.MatchCountPermutation | assignment2.c:367-378 | the match count depends only on which numbers the player holds, not their order |
| Prizes.CheckPermutationInvariant | assignment2.c:360-389 | a rearranged entry gets the same match count and the same bonus flag |
| Prizes.OutcomePermutation | assignment2.c:89-111 | sorting the entry (option 3) never changes the prize a later check (option 4) reports |
| Prizes.FixedDrawBonus | assignment2.c:369-387 | with the draw 1 3 5 7 9 11 + 42 the bonus flag is set exactly when the player holds 42 |
| Prizes.FixedDrawOutcome | assignment2.c:360-437 | against the fixed draw the prize is the tier for the number of entries among 1 3 5 7 9 11, with the bonus exactly when 42 is held |
| Prizes.FixedDrawExamples | assignment2.c:35 | worked entries against the fixed draw win the Jackpot, a new car, a weekend away, a cinema ticket and nothing |
| Session.LottoSession.constructor | assignment2.c:29-38 | a session starts with no numbers entered and every frequency zero |
| Session.LottoSession.Step | assignment2.c:53-124 | an option outside 1..6 is rejected and changes nothing; options 2 to 5 before any entry are refused and change nothing; option 1 stores the validated entry, sets the flag and bumps the cell of each entered value by one; option 2 shows the numbers; option 3 sorts them in place without changing their values, the flag or the table; option 4 reports the matches, bonus and prize; option 5 reports the non-zero frequencies; options 2, 4, 5 and 6 change nothing; the session invariant (flag set exactly when an entry was saved, the table totals six per entry) is kept |
| Session.LastEntryIsLatestSave | assignment2.c:68-99 | once a selection has saved numbers, the last saved entry is the one typed at a saving selection after which no selection saves again, since each option 1 overwrites `player_numbers` |
| Session.LastEntryValid | assignment2.c:68-73 | the last saved entry is six valid numbers, since option 1 only stores what `input_numbers` accepted |
| Session.ShownNumbersDetermined | assignment2.c:77-86 | option 2 has a single possible answer: the report fixes the exact sequence `print_numbers` would print |
| Session.Turn | assignment2.c:44-125 | one pass of the menu loop: the report fits the selection, the numbers shown are the last saved entry in the order it was typed, or sorted when an option 3 came after it, and a check reports that entry's matches, bonus and prize against the fixed draw; afterwards the flag says whether any selection so far saved an entry and each value's frequency is the number of saved entries containing it, and `player_numbers` holds the last saved entry, as typed or, after an option 3, sorted |
| Session.Play | assignment2.c:27-131 | the loop stops right after the first option 6; each report answers exactly its option: a save for option 1, the numbers, a sort, a check or the frequencies for options 2 to 5 once an earlier selection saved an entry and a refusal before that, goodbye for 6, a rejection outside 1..6; the numbers shown are the last saved entry in the order it was typed, or sorted when an option 3 came after it; a check reports the matches against 1 3 5 7 9 11, the bonus and the prize of that same entry, which sorting does not change; and the frequencies listed are exactly the non-zero counts of the entries saved so far, in ascending order; at the end each value's frequency is the number of saved entries containing it, and the table totals six per saved entry |

## Left out

- Console output is not modelled. `print_menu`, `print_numbers` and the `printf` text of `main`, `print_frequency` and `check_numbers` become the `Report` and `Prize` values.
- Input reading is not modelled. The `scanf` calls and `flush_buffer` (assignment2.c:442-449), with its end-of-file behaviour, are outside the model.
- `input_numbers` works on a sequence of abstract attempts rather than a character stream: an attempt is either "a non-integer token turned up" or six integers. Where the program would wait for more input forever, the model returns no entry once the attempts run out.
- A partly read attempt is not modelled. When a non-integer token stops `input_numbers`, the values already read into `player_numbers` are not tracked, because option 1 always ends with a valid entry stored.
- The menu re-prompt loop (assignment2.c:55-60) is one `Step` per rejected option. That step reports `InvalidOption` and changes nothing, and the menu is not printed again in between.
- `Session.Play` ends when the player's selections run out as well as at option 6. The program would instead keep waiting for input.
- C `int` width is not modelled. Entered values are checked to lie in 1..42, and a frequency count would need more than 2^31 entries to overflow.
- `Session.LottoSession.Step`: for option 1, the entry is passed in already validated. This is what `input_numbers` guarantees, as `Validation.InputNumbers` proves. The two are not chained inside one method.
