/** check_numbers: counting the player's matches against the main winning
    numbers, detecting the bonus number, and mapping both to a prize. */
module Prizes {

  /** The program's fixed draw: six main numbers, then the bonus number. */
  const WinningNumbers: seq<int> := [1, 3, 5, 7, 9, 11, 42]

  /** The outcomes check_numbers announces, in the order its switch lists them. */
  datatype Prize = Jackpot | NewCar | Holiday | WeekendAway | NightOut | CinemaTicket | Nothing

  /** The switch on the number of matches; the bonus only matters for 3, 4
      and 5 matches, and every other count wins nothing. */
  function PrizeFor(matches: int, bonus: bool): (prize: Prize)
    ensures prize == Nothing <==> !(3 <= matches <= 6) || (matches == 3 && !bonus)
  {
    match matches
    case 6 => Jackpot
    case 5 => if bonus then NewCar else Holiday
    case 4 => if bonus then WeekendAway else NightOut
    case 3 => if bonus then CinemaTicket else Nothing
    case _ => Nothing
  }

  /** Position of a prize in the switch, counted from the bottom. */
  function Rank(prize: Prize): (rank: nat) {
    match prize
    case Jackpot => 6
    case NewCar => 5
    case Holiday => 4
    case WeekendAway => 3
    case NightOut => 2
    case CinemaTicket => 1
    case Nothing => 0
  }

  /** The tiers are ordered: one more match is never worth less than the bonus
      at the lower count, and the bonus never makes a prize smaller. */
  lemma PrizeMonotone(m1: int, b1: bool, m2: int, b2: bool)
    requires 0 <= m1 <= m2 <= 6
    requires m1 == m2 ==> (b1 ==> b2)
    ensures Rank(PrizeFor(m1, b1)) <= Rank(PrizeFor(m2, b2))
  {
  }

  /** The bonus changes the prize exactly for 3, 4 and 5 matches. */
  lemma BonusMatters(m: int)
    ensures PrizeFor(m, true) != PrizeFor(m, false) <==> 3 <= m <= 5
  {
  }

  /** How many of the player's numbers occur among the main winning numbers.
      Each player number counts at most once, wherever in the main numbers it
      occurs. */
  function MatchCount(player: seq<int>, main: seq<int>): (n: nat)
    ensures n <= |player|
  {
    if player == [] then 0
    else MatchCount(player[..|player| - 1], main) + (if player[|player| - 1] in main then 1 else 0)
  }

  /** Every player number matches exactly when the count is the full length,
      and none matches exactly when the count is zero. */
  lemma {:induction false} MatchCountExtremes(player: seq<int>, main: seq<int>)
    ensures MatchCount(player, main) == |player| <==> forall i :: 0 <= i < |player| ==> player[i] in main
    ensures MatchCount(player, main) == 0 <==> forall i :: 0 <= i < |player| ==> player[i] !in main
  {
    if player != [] {
      var n := |player| - 1;
      MatchCountExtremes(player[..n], main);
      assert forall i :: 0 <= i < n ==> player[..n][i] == player[i];
    }
  }

  /** The bonus flag of check_numbers: some player number equals the bonus
      number winning[size] and differs from winning[0]. A player number equal
      to winning[0] ends its scan at the first comparison, before the bonus
      test is reached. */
  predicate BonusHit(player: seq<int>, winning: seq<int>)
    requires |winning| == |player| + 1
  {
    exists i :: 0 <= i < |player| && player[i] == winning[|player|] && player[i] != winning[0]
  }

  /** The inner loop of check_numbers for one player number x: scan the main
      numbers winning[0 .. size); a match ends the scan, and at every step
      that does not match, x is compared with the bonus number winning[size].
      So the bonus test fires exactly when x is the bonus number and the scan
      got past its first step. */
  method ScanWinning(x: int, winning: seq<int>, size: int) returns (matched: bool, bonusSeen: bool)
    requires 0 < size && |winning| == size + 1
    ensures matched <==> x in winning[..size]
    ensures bonusSeen <==> x == winning[size] && x != winning[0]
  {
    matched := false;
    bonusSeen := false;
    var j := 0;
    while j < size
      invariant 0 <= j <= size
      invariant forall k :: 0 <= k < j ==> x != winning[k]
      invariant bonusSeen <==> 0 < j && x == winning[size]
    {
      if x == winning[j] {
        matched := true;
        break;
      }
      if x == winning[size] {
        bonusSeen := true;
      }
      j := j + 1;
    }
    assert matched ==> winning[..size][j] == x;
  }

  /** check_numbers: every player number is scanned against the main numbers;
      the matches are counted and the bonus flag is raised if any scan hit the
      bonus test; the prize follows from both. */
  method CheckNumbers(player: seq<int>, winning: seq<int>) returns (matches: int, bonus: bool, prize: Prize)
    requires |winning| == |player| + 1
    ensures matches == MatchCount(player, winning[..|player|])
    ensures 0 <= matches <= |player|
    ensures bonus <==> BonusHit(player, winning)
    ensures prize == PrizeFor(matches, bonus)
  {
    var size := |player|;
    matches := 0;
    bonus := false;
    var i := 0;
    while i < size
      invariant 0 <= i <= size
      invariant matches == MatchCount(player[..i], winning[..size])
      invariant bonus <==> exists k :: 0 <= k < i && player[k] == winning[size] && player[k] != winning[0]
    {
      var matched, bonusSeen := ScanWinning(player[i], winning, size);
      if matched {
        matches := matches + 1;
      }
      if bonusSeen {
        bonus := true;
      }
      MatchCountExtend(player, i, winning[..size]);
      i := i + 1;
    }
    assert player[..size] == player;
    prize := PrizeFor(matches, bonus);
  }

  /** Extending the counted prefix by one player number. */
  lemma MatchCountExtend(player: seq<int>, i: int, main: seq<int>)
    requires 0 <= i < |player|
    ensures MatchCount(player[..i + 1], main) == MatchCount(player[..i], main) + (if player[i] in main then 1 else 0)
  {
    assert player[..i + 1][..i] == player[..i];
  }

  lemma {:induction false} MatchCountConcat(s: seq<int>, t: seq<int>, main: seq<int>)
    ensures MatchCount(s + t, main) == MatchCount(s, main) + MatchCount(t, main)
  {
    if t != [] {
      var n := |t| - 1;
      assert (s + t)[..|s + t| - 1] == s + t[..n];
      MatchCountConcat(s, t[..n], main);
    } else {
      assert s + t == s;
    }
  }

  /** The match count depends only on which numbers the player holds, not on
      their order. */
  lemma {:induction false} MatchCountPermutation(p: seq<int>, q: seq<int>, main: seq<int>)
    requires multiset(p) == multiset(q)
    ensures MatchCount(p, main) == MatchCount(q, main)
  {
    if p == [] {
      assert |q| == |multiset(q)| == 0;
    } else {
      var n := |p| - 1;
      var x := p[n];
      assert p == p[..n] + [x];
      assert x in multiset(q);
      var k :| 0 <= k < |q| && q[k] == x;
      var rest := q[..k] + q[k + 1..];
      assert q == q[..k] + [x] + q[k + 1..];
      assert multiset(rest) == multiset(q) - multiset{x};
      assert multiset(p[..n]) == multiset(p) - multiset{x};
      MatchCountPermutation(p[..n], rest, main);
      MatchCountConcat(q[..k] + [x], q[k + 1..], main);
      MatchCountConcat(q[..k], [x], main);
      MatchCountConcat(q[..k], q[k + 1..], main);
      assert [x][..0] == [];
    }
  }

  /** Neither the matches nor the bonus flag depend on the order of the
      player's numbers, so sorting them does not change the prize. */
  lemma CheckPermutationInvariant(p: seq<int>, q: seq<int>, winning: seq<int>)
    requires multiset(p) == multiset(q) && |winning| == |p| + 1
    ensures |q| == |p|
    ensures MatchCount(p, winning[..|p|]) == MatchCount(q, winning[..|q|])
    ensures BonusHit(p, winning) <==> BonusHit(q, winning)
  {
    assert |p| == |multiset(p)| == |multiset(q)| == |q|;
    MatchCountPermutation(p, q, winning[..|p|]);
    BonusTransfer(p, q, winning);
    BonusTransfer(q, p, winning);
  }

  lemma BonusTransfer(p: seq<int>, q: seq<int>, winning: seq<int>)
    requires multiset(p) == multiset(q) && |q| == |p| && |winning| == |p| + 1
    ensures BonusHit(p, winning) ==> BonusHit(q, winning)
  {
    if BonusHit(p, winning) {
      var i :| 0 <= i < |p| && p[i] == winning[|p|] && p[i] != winning[0];
      assert p[i] in multiset(q);
      var j :| 0 <= j < |q| && q[j] == p[i];
    }
  }

  /** With the program's fixed draw the first main number (1) is not the
      bonus (42), so the bonus flag is set exactly when the player holds 42. */
  lemma FixedDrawBonus(player: seq<int>)
    requires |player| == 6
    ensures BonusHit(player, WinningNumbers) <==> 42 in player
  {
    assert WinningNumbers[6] == 42 && WinningNumbers[0] == 1;
  }

  /** The outcome check_numbers reaches for a player's numbers against the
      fixed draw. */
  function Outcome(player: seq<int>): (prize: Prize)
    requires |player| == 6
  {
    PrizeFor(MatchCount(player, WinningNumbers[..6]), BonusHit(player, WinningNumbers))
  }

  /** Rearranging a six-number entry, as sorting it does, never changes the
      prize it wins against the fixed draw. */
  lemma OutcomePermutation(p: seq<int>, q: seq<int>)
    requires |p| == 6 && multiset(p) == multiset(q)
    ensures |q| == 6 && Outcome(p) == Outcome(q)
  {
    CheckPermutationInvariant(p, q, WinningNumbers);
  }

  /** Worked examples against the fixed draw 1 3 5 7 9 11 + 42. */
  lemma FixedDrawExamples()
    ensures Outcome([1, 3, 5, 7, 9, 11]) == Jackpot
    ensures Outcome([1, 3, 5, 7, 9, 42]) == NewCar
    ensures Outcome([1, 3, 5, 7, 42, 13]) == WeekendAway
    ensures Outcome([1, 3, 5, 42, 14, 15]) == CinemaTicket
    ensures Outcome([1, 3, 20, 21, 22, 23]) == Nothing
  {
    FixedDrawOutcome([1, 3, 5, 7, 9, 11]);
    FixedDrawOutcome([1, 3, 5, 7, 9, 42]);
    FixedDrawOutcome([1, 3, 5, 7, 42, 13]);
    FixedDrawOutcome([1, 3, 5, 42, 14, 15]);
    FixedDrawOutcome([1, 3, 20, 21, 22, 23]);
  }

  /** Against the fixed draw the outcome is decided by how many entries are
      among 1 3 5 7 9 11 and whether 42 is among them. */
  lemma FixedDrawOutcome(player: seq<int>)
    requires |player| == 6
    ensures Outcome(player) == PrizeFor(
      (if player[0] in {1, 3, 5, 7, 9, 11} then 1 else 0) + (if player[1] in {1, 3, 5, 7, 9, 11} then 1 else 0) +
      (if player[2] in {1, 3, 5, 7, 9, 11} then 1 else 0) + (if player[3] in {1, 3, 5, 7, 9, 11} then 1 else 0) +
      (if player[4] in {1, 3, 5, 7, 9, 11} then 1 else 0) + (if player[5] in {1, 3, 5, 7, 9, 11} then 1 else 0),
      42 in player)
  {
    var main := WinningNumbers[..6];
    assert main == [1, 3, 5, 7, 9, 11];
    forall x ensures x in main <==> x in {1, 3, 5, 7, 9, 11} { }
    MatchCountSteps(player, main);
    FixedDrawBonus(player);
  }

  /** Unfolds MatchCount over a six-number entry, one position at a time. */
  lemma MatchCountSteps(player: seq<int>, main: seq<int>)
    requires |player| == 6
    ensures MatchCount(player, main) ==
      (if player[0] in main then 1 else 0) + (if player[1] in main then 1 else 0) +
      (if player[2] in main then 1 else 0) + (if player[3] in main then 1 else 0) +
      (if player[4] in main then 1 else 0) + (if player[5] in main then 1 else 0)
  {
    forall n | 0 < n <= 6
      ensures MatchCount(player[..n], main) ==
              MatchCount(player[..n - 1], main) + (if player[n - 1] in main then 1 else 0)
    {
      assert player[..n][..n - 1] == player[..n - 1];
    }
    assert player[..6] == player;
  }
}
