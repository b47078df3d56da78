/** The menu loop of main: the session state (whether numbers have been
    entered, the player's numbers, the frequency table), the dispatch on the
    menu option, and the loop that runs until option 6. */
module Session {
  import opened Validation
  import Sorting
  import Frequency
  import opened Prizes

  /** What one pass through the menu produces instead of console text. */
  datatype Report =
    | NumbersSaved                                      // option 1
    | NumbersShown(numbers: seq<int>)                   // option 2
    | NumbersSorted                                     // option 3
    | Checked(matches: int, bonus: bool, prize: Prize)  // option 4
    | Frequencies(counts: seq<(int, int)>)              // option 5
    | EnterNumbersFirst                                 // options 2 to 5 before any entry
    | InvalidOption                                     // outside 1..6: asked again
    | Goodbye                                           // option 6

  /** The report one pass through the menu gives for option, given whether an
      entry had been saved, the player's numbers and the frequency table
      before the pass. Options 2 to 5 are refused until an entry is saved;
      option 4 reports the matches, the bonus and the prize against the fixed
      draw; option 5 reports the non-zero counts, in ascending order. */
  predicate Answers(option: int, entered: bool, numbers: seq<int>, table: seq<int>, report: Report)
    requires |numbers| == Size
  {
    if !(1 <= option <= 6) then report == InvalidOption
    else if option == 1 then report == NumbersSaved
    else if option == 6 then report == Goodbye
    else if !entered then report == EnterNumbersFirst
    else if option == 2 then report == NumbersShown(numbers)
    else if option == 3 then report == NumbersSorted
    else if option == 4 then
      report == Checked(MatchCount(numbers, WinningNumbers[..Size]), BonusHit(numbers, WinningNumbers), Outcome(numbers))
    else
      report.Frequencies? && Frequency.NonZeroPairs(table, report.counts)
  }

  class LottoSession {
    var numsEntered: bool
    var playerNumbers: array<int>
    var freq: array<int>
    /** How many entries have been saved in this session. */
    ghost var entries: nat

    /** The player's numbers are a valid entry once one has been saved, the
        flag is set exactly when an entry was saved, and the frequency table
        never goes negative and totals six per saved entry. */
    ghost predicate Valid()
      reads this, playerNumbers, freq
    {
      playerNumbers.Length == Size && freq.Length == LottoMax && playerNumbers != freq &&
      (numsEntered ==> ValidEntry(playerNumbers[..])) &&
      (numsEntered <==> entries > 0) &&
      (forall k :: 0 <= k < freq.Length ==> 0 <= freq[k]) &&
      Frequency.Sum(freq[..]) == Size * entries
    }

    /** The start of main: no numbers yet, every frequency zero. */
    constructor ()
      ensures Valid() && fresh(playerNumbers) && fresh(freq)
      ensures !numsEntered && entries == 0
      ensures forall k :: 0 <= k < freq.Length ==> freq[k] == 0
    {
      numsEntered := false;
      playerNumbers := new int[Size];
      freq := new int[LottoMax](_ => 0);
      entries := 0;
      new;
      Frequency.SumZeros(freq[..]);
    }

    /** One pass through the menu with an option already read. For option 1,
        entry is what input_numbers returned, which it only returns valid. */
    method Step(option: int, entry: seq<int>) returns (report: Report)
      requires Valid()
      requires option == 1 ==> |entry| == Size && ValidEntry(entry)
      modifies this, playerNumbers, freq
      ensures Valid() && playerNumbers == old(playerNumbers) && freq == old(freq)
      ensures Answers(option, old(numsEntered), old(playerNumbers[..]), old(freq[..]), report)
      ensures option != 1 && option != 3 ==> unchanged(this, playerNumbers, freq)
      ensures option == 3 && !old(numsEntered) ==> unchanged(this, playerNumbers, freq)
      ensures option == 1 ==> numsEntered && entries == old(entries) + 1 && playerNumbers[..] == entry
      ensures option == 1 ==> forall v :: 1 <= v <= LottoMax ==>
                freq[v - 1] == old(freq[v - 1]) + (if v in entry then 1 else 0)
      ensures option == 3 && old(numsEntered) ==>
                numsEntered && entries == old(entries) && unchanged(freq) &&
                Sorting.Sorted(playerNumbers[..]) && multiset(playerNumbers[..]) == multiset(old(playerNumbers[..]))
    {
      if !(1 <= option <= 6) {
        return InvalidOption;
      }
      if option == 1 {
        forall k | 0 <= k < Size {
          playerNumbers[k] := entry[k];
        }
        assert playerNumbers[..] == entry;
        numsEntered := true;
        ghost var before := freq[..];
        assert before == old(freq[..]);
        Frequency.UpdateFrequency(freq, playerNumbers[..]);
        assert Frequency.Sum(freq[..]) == Frequency.Sum(before) + Size;
        forall v | 1 <= v <= LottoMax
          ensures freq[v - 1] == old(freq[v - 1]) + (if v in entry then 1 else 0)
        {
          Frequency.DistinctOccursOnce(entry, v);
        }
        entries := entries + 1;
        report := NumbersSaved;
      } else if option == 6 {
        report := Goodbye;
      } else if !numsEntered {
        report := EnterNumbersFirst;
      } else if option == 2 {
        report := NumbersShown(playerNumbers[..]);
      } else if option == 3 {
        Sorting.QuickSort(playerNumbers, Size, 0);
        assert playerNumbers[..] == playerNumbers[..][0..Size];
        ValidEntryPermutation(old(playerNumbers[..]), playerNumbers[..]);
        report := NumbersSorted;
      } else if option == 4 {
        var matches, bonus, prize := CheckNumbers(playerNumbers[..], WinningNumbers);
        report := Checked(matches, bonus, prize);
      } else {
        var counts := Frequency.FrequencyReport(freq);
        report := Frequencies(counts);
      }
    }
  }

  /** One menu selection: the option typed and, for option 1, the numbers
      that input_numbers finally accepted. */
  datatype Command = Command(option: int, entry: seq<int>)

  predicate WellFormed(commands: seq<Command>) {
    forall i :: 0 <= i < |commands| && commands[i].option == 1 ==>
      |commands[i].entry| == Size && ValidEntry(commands[i].entry)
  }

  /** How many of the commands save an entry. */
  function Saves(commands: seq<Command>): (n: nat)
    ensures n <= |commands|
  {
    if commands == [] then 0
    else Saves(commands[..|commands| - 1]) + (if commands[|commands| - 1].option == 1 then 1 else 0)
  }

  /** How many of the saved entries among the commands contain v. */
  function TimesChosen(commands: seq<Command>, v: int): (n: nat)
    ensures n <= Saves(commands)
  {
    if commands == [] then 0
    else
      var last := commands[|commands| - 1];
      TimesChosen(commands[..|commands| - 1], v) + (if last.option == 1 && v in last.entry then 1 else 0)
  }

  /** The entry of the last command that saves one: what player_numbers
      holds, up to the order option 3 puts it in. Empty when none saves. */
  function LastEntry(commands: seq<Command>): (entry: seq<int>)
    ensures entry == [] || exists j :: 0 <= j < |commands| && commands[j].option == 1 && commands[j].entry == entry
  {
    if commands == [] then []
    else if commands[|commands| - 1].option == 1 then commands[|commands| - 1].entry
    else LastEntry(commands[..|commands| - 1])
  }

  /** Whether an option 3 comes after the last option 1, so that
      player_numbers holds the last entry sorted rather than in the order it
      was typed. Before any entry is saved the value is never consulted. */
  function SortedSinceSave(commands: seq<Command>): (sorted: bool)
    ensures sorted ==> exists j :: 0 <= j < |commands| && commands[j].option == 3
  {
    if commands == [] then false
    else if commands[|commands| - 1].option == 1 then false
    else if commands[|commands| - 1].option == 3 then true
    else SortedSinceSave(commands[..|commands| - 1])
  }

  /** Once some command has saved an entry, LastEntry is the entry of a
      saving command after which no command saves again. */
  lemma {:induction false} LastEntryIsLatestSave(commands: seq<Command>)
    requires !NothingSavedBefore(commands, |commands|)
    ensures exists j :: 0 <= j < |commands| && commands[j].option == 1 && commands[j].entry == LastEntry(commands) &&
                        forall l :: j < l < |commands| ==> commands[l].option != 1
  {
    var n := |commands| - 1;
    if commands[n].option == 1 {
      assert commands[n].entry == LastEntry(commands);
    } else {
      var init := commands[..n];
      var s :| 0 <= s < |commands| && commands[s].option == 1;
      assert init[s].option == 1;
      LastEntryIsLatestSave(init);
      var j :| 0 <= j < n && init[j].option == 1 && init[j].entry == LastEntry(init) &&
               forall l :: j < l < n ==> init[l].option != 1;
      assert commands[j].entry == LastEntry(commands);
      forall l | j < l < |commands| ensures commands[l].option != 1 {
        if l < n {
          assert init[l] == commands[l];
        }
      }
    }
  }

  /** The last saved entry of well-formed commands is a valid six-number
      entry. */
  lemma {:induction false} LastEntryValid(commands: seq<Command>)
    requires WellFormed(commands) && !NothingSavedBefore(commands, |commands|)
    ensures |LastEntry(commands)| == Size && ValidEntry(LastEntry(commands))
  {
    LastEntryIsLatestSave(commands);
  }

  /** Extending the processed prefix by one command: whether anything was
      saved, how many entries were saved, the last entry and whether it has
      been sorted since. */
  lemma PrefixStep(commands: seq<Command>, i: int)
    requires 0 <= i < |commands|
    ensures NothingSavedBefore(commands, i + 1) <==> NothingSavedBefore(commands, i) && commands[i].option != 1
    ensures Saves(commands[..i + 1]) == Saves(commands[..i]) + (if commands[i].option == 1 then 1 else 0)
    ensures LastEntry(commands[..i + 1]) == if commands[i].option == 1 then commands[i].entry else LastEntry(commands[..i])
    ensures SortedSinceSave(commands[..i + 1]) ==
            if commands[i].option == 1 then false
            else if commands[i].option == 3 then true
            else SortedSinceSave(commands[..i])
  {
    assert commands[..i + 1][..i] == commands[..i];
  }

  /** Extending the processed prefix by one command: how many saved entries
      contain v. */
  lemma PrefixTimesChosen(commands: seq<Command>, i: int, v: int)
    requires 0 <= i < |commands|
    ensures TimesChosen(commands[..i + 1], v) ==
            TimesChosen(commands[..i], v) + (if commands[i].option == 1 && v in commands[i].entry then 1 else 0)
  {
    assert commands[..i + 1][..i] == commands[..i];
  }

  /** No command before position k saves an entry. */
  predicate NothingSavedBefore(commands: seq<Command>, k: int)
    requires 0 <= k <= |commands|
  {
    forall l :: 0 <= l < k ==> commands[l].option != 1
  }

  /** counts is what print_frequency selects after the first k commands:
      every pair is a value and how many saved entries so far contain it,
      every value chosen at least once is listed, in ascending order. */
  predicate ListsCounts(counts: seq<(int, int)>, commands: seq<Command>, k: int)
    requires 0 <= k <= |commands|
  {
    Frequency.NonZeroPairs(seq(LottoMax, j => TimesChosen(commands[..k], j + 1)), counts)
  }

  /** The report for the k-th command fits it. Each kind of report answers
      exactly one option: NumbersSaved option 1; NumbersShown, NumbersSorted,
      Checked and Frequencies options 2 to 5 once an entry has been saved,
      EnterNumbersFirst the same options before that; Goodbye option 6;
      InvalidOption anything outside 1..6. The numbers shown are the last
      saved entry, in the order typed, or sorted when an option 3 came after
      it; a check reports the matches, the bonus
      and the prize of that entry against the fixed draw; and the
      frequencies are those of the entries saved so far. */
  predicate Fits(commands: seq<Command>, k: int, report: Report)
    requires 0 <= k < |commands|
  {
    var option := commands[k].option;
    var saved := !NothingSavedBefore(commands, k);
    var last := LastEntry(commands[..k]);
    (report == NumbersSaved <==> option == 1) &&
    (report.NumbersShown? <==> option == 2 && saved) &&
    (report == NumbersSorted <==> option == 3 && saved) &&
    (report.Checked? <==> option == 4 && saved) &&
    (report.Frequencies? <==> option == 5 && saved) &&
    (report == EnterNumbersFirst <==> 2 <= option <= 5 && !saved) &&
    (report == Goodbye <==> option == 6) &&
    (report == InvalidOption <==> !(1 <= option <= 6)) &&
    (report.NumbersShown? ==>
       |report.numbers| == Size && ValidEntry(report.numbers) && multiset(report.numbers) == multiset(last) &&
       if SortedSinceSave(commands[..k]) then Sorting.Sorted(report.numbers) else report.numbers == last) &&
    (report.Checked? ==>
       |last| == Size &&
       report == Checked(MatchCount(last, WinningNumbers[..Size]), BonusHit(last, WinningNumbers), Outcome(last))) &&
    (report.Frequencies? ==> ListsCounts(report.counts, commands, k))
  }

  /** Option 2 has exactly one answer: two shown reports that fit the same
      selection show the same sequence. */
  lemma ShownNumbersDetermined(commands: seq<Command>, k: int, shown: Report, other: Report)
    requires 0 <= k < |commands| && Fits(commands, k, shown) && Fits(commands, k, other)
    requires shown.NumbersShown?
    ensures other == shown
  {
    if SortedSinceSave(commands[..k]) {
      Sorting.SortedPermutationUnique(shown.numbers, other.numbers);
    }
  }

  /** Every report fits the command at its position. */
  predicate AllFit(commands: seq<Command>, reports: seq<Report>)
    requires |reports| <= |commands|
  {
    forall k :: 0 <= k < |reports| ==> Fits(commands, k, reports[k])
  }

  lemma AllFitExtend(commands: seq<Command>, reports: seq<Report>, report: Report)
    requires |reports| < |commands| && AllFit(commands, reports) && Fits(commands, |reports|, report)
    ensures AllFit(commands, reports + [report])
  {
    forall k | 0 <= k < |reports| + 1 ensures Fits(commands, k, (reports + [report])[k]) {
      if k < |reports| {
        assert (reports + [report])[k] == reports[k];
      }
    }
  }

  /** What a pass answers fits its command, when the flag says whether an
      earlier command saved an entry, the numbers are once one was saved
      the last saved entry, as typed or sorted when an option 3 came after
      it, and the table holds for every value the number of saved entries
      containing it. */
  lemma AnswerFits(commands: seq<Command>, k: int, entered: bool, numbers: seq<int>, table: seq<int>, report: Report)
    requires 0 <= k < |commands| && |numbers| == Size && |table| == LottoMax
    requires entered <==> !NothingSavedBefore(commands, k)
    requires entered ==> ValidEntry(numbers) && multiset(numbers) == multiset(LastEntry(commands[..k]))
    requires entered ==>
      if SortedSinceSave(commands[..k]) then Sorting.Sorted(numbers) else numbers == LastEntry(commands[..k])
    requires forall v :: 1 <= v <= LottoMax ==> table[v - 1] == TimesChosen(commands[..k], v)
    requires Answers(commands[k].option, entered, numbers, table, report)
    ensures Fits(commands, k, report)
  {
    if report.Checked? {
      OutcomePermutation(numbers, LastEntry(commands[..k]));
      CheckPermutationInvariant(numbers, LastEntry(commands[..k]), WinningNumbers);
    } else if report.Frequencies? {
      assert table == seq(LottoMax, j => TimesChosen(commands[..k], j + 1));
    }
  }

  /** The relation main's loop keeps between the session and the first i
      selections: the session invariant holds, the flag says whether one of
      them saved an entry, the player's numbers are the last saved entry as
      typed or, after an option 3, sorted, and every value's frequency is the number of saved
      entries among them that contain it. */
  ghost predicate Replays(session: LottoSession, commands: seq<Command>, i: int)
    requires 0 <= i <= |commands|
    reads session, session.playerNumbers, session.freq
  {
    session.Valid() &&
    session.entries == Saves(commands[..i]) &&
    (session.numsEntered <==> !NothingSavedBefore(commands, i)) &&
    (session.numsEntered ==> multiset(session.playerNumbers[..]) == multiset(LastEntry(commands[..i]))) &&
    (session.numsEntered ==>
       if SortedSinceSave(commands[..i]) then Sorting.Sorted(session.playerNumbers[..])
       else session.playerNumbers[..] == LastEntry(commands[..i])) &&
    forall v :: 1 <= v <= LottoMax ==> session.freq[v - 1] == TimesChosen(commands[..i], v)
  }

  /** One pass of main's loop over the i-th selection: its report fits it and
      the session now replays the first i + 1 selections. */
  method Turn(session: LottoSession, commands: seq<Command>, i: int) returns (report: Report)
    requires WellFormed(commands) && 0 <= i < |commands| && Replays(session, commands, i)
    modifies session, session.playerNumbers, session.freq
    ensures session.playerNumbers == old(session.playerNumbers) && session.freq == old(session.freq)
    ensures Replays(session, commands, i + 1) && Fits(commands, i, report)
  {
    var command := commands[i];
    ghost var entered, numbers, table := session.numsEntered, session.playerNumbers[..], session.freq[..];
    report := session.Step(command.option, command.entry);
    AnswerFits(commands, i, entered, numbers, table, report);
    PrefixStep(commands, i);
    ghost var done := commands[..i + 1];
    forall v | 1 <= v <= LottoMax ensures session.freq[v - 1] == TimesChosen(done, v) {
      PrefixTimesChosen(commands, i, v);
      if command.option == 1 {
        assert session.freq[v - 1] == table[v - 1] + (if v in command.entry then 1 else 0);
      } else {
        assert session.freq[v - 1] == table[v - 1];
      }
    }
  }

  /** main: the do-while menu loop, run over the selections the player makes
      until option 6 (or until the selections run out). Each report answers
      exactly its selection, so options 2 to 5 are refused exactly while no
      entry has been saved; at the end every value's frequency is the number
      of saved entries that contain it, and the table totals six per saved
      entry. */
  method Play(commands: seq<Command>) returns (reports: seq<Report>, tally: seq<int>)
    requires WellFormed(commands)
    ensures |reports| <= |commands|
    ensures |reports| == |commands| || (0 < |reports| && commands[|reports| - 1].option == 6)
    ensures forall k :: 0 <= k < |reports| - 1 ==> commands[k].option != 6
    ensures AllFit(commands, reports)
    ensures |tally| == LottoMax
    ensures forall v :: 1 <= v <= LottoMax ==> tally[v - 1] == TimesChosen(commands[..|reports|], v)
    ensures Frequency.Sum(tally) == Size * Saves(commands[..|reports|])
  {
    var session := new LottoSession();
    reports := [];
    var i := 0;
    while i < |commands|
      invariant 0 <= i <= |commands| && |reports| == i
      invariant fresh(session.playerNumbers) && fresh(session.freq)
      invariant Replays(session, commands, i)
      invariant forall k :: 0 <= k < i ==> commands[k].option != 6
      invariant AllFit(commands, reports)
    {
      var report := Turn(session, commands, i);
      AllFitExtend(commands, reports, report);
      reports := reports + [report];
      i := i + 1;
      if commands[i - 1].option == 6 {
        break;
      }
    }
    assert commands[..|reports|] == commands[..i];
    tally := session.freq[..];
  }
}
