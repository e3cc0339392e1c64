/** The two inputs on which the instant-runoff loop as written departs from
    instant runoff, each run through the loop as written and through the
    corrected rounds. */
module IrvFindings {
  import opened Text
  import opened Election
  import opened Plurality
  import opened Irv
  import opened IrvCorrected

  /** Four candidates; the fourth is nobody's first choice. */
  const Stuck: seq<seq<int>> := [[2, 0, 0, 0], [0, 2, 0, 0], [0, 0, 2, 0]]

  lemma StuckTops()
    ensures TopChoice([2, 0, 0, 0]) == 0 && TopChoice([0, 2, 0, 0]) == 1 && TopChoice([0, 0, 2, 0]) == 2
  {
    OnlyChoice([2, 0, 0, 0], 0);
    OnlyChoice([0, 2, 0, 0], 1);
    OnlyChoice([0, 0, 2, 0], 2);
  }

  lemma StuckTally()
    ensures ValidBallots(Stuck, 4) && Tally(Stuck, 4) == [1, 1, 1, 0]
  {
    StuckTops();
    assert Stuck[..2][..1] == Stuck[..1];
    assert Stuck[..3][..2] == Stuck[..2];
    assert Stuck[..1][..0] == [];
    assert Tally(Stuck[..1], 4) == [1, 0, 0, 0];
    assert Tally(Stuck[..2], 4) == [1, 1, 0, 0];
    assert Stuck[..3] == Stuck;
  }

  lemma StuckCounts()
    ensures Max([1, 1, 1, 0]) == 1 && FirstMin([1, 1, 1, 0]) == 3
  {
    FirstMinIff([1, 1, 1, 0], 3);
  }

  lemma StuckRound()
    ensures ValidBallots(Stuck, 4)
    ensures Tally(Stuck, 4) == [1, 1, 1, 0]
    ensures Max([1, 1, 1, 0]) == 1 && FirstMin([1, 1, 1, 0]) == 3
    ensures Eliminate(Stuck, 4, 3) == Stuck
  {
    StuckTally();
    StuckCounts();
    var e := Eliminate(Stuck, 4, 3);
    assert e[0] == Stuck[0] && e[1] == Stuck[1] && e[2] == Stuck[2];
  }

  /** With one vote each for three candidates out of three ballots nobody
      reaches half, and counts.index(min(counts)) picks the fourth candidate
      again every round; zeroing its column again changes nothing. */
  lemma {:induction false} StuckForever(rounds: seq<seq<int>>, fuel: nat)
    ensures IrvFrom(Stuck, 4, [1, 1, 1, 0], 3, rounds, fuel) == Unfinished(rounds + Repeat([1, 1, 1, 0], fuel))
    decreases fuel
  {
    StuckRound();
    if fuel == 0 {
      assert rounds + Repeat([1, 1, 1, 0], fuel) == rounds;
    } else {
      StuckForever(rounds + [[1, 1, 1, 0]], fuel - 1);
      assert rounds + [[1, 1, 1, 0]] + Repeat([1, 1, 1, 0], fuel - 1) == rounds + Repeat([1, 1, 1, 0], fuel);
    }
  }

  /** The loop as written never elects anyone on this input, however much
      fuel it gets. */
  lemma IrvNeverEnds(fuel: nat)
    ensures RunIrvSpec(Stuck, 4, fuel) == Unfinished(Repeat([1, 1, 1, 0], fuel + 1))
  {
    StuckRound();
    StuckForever([[1, 1, 1, 0]], fuel);
    assert [[1, 1, 1, 0]] + Repeat([1, 1, 1, 0], fuel) == Repeat([1, 1, 1, 0], fuel + 1);
  }

  /** A ballot scoring one candidate and nobody else names it first. */
  lemma OnlyChoice(b: seq<int>, i: nat)
    requires i < |b| && b[i] > 0 && forall j :: 0 <= j < |b| && j != i ==> b[j] == 0
    ensures TopChoice(b) == i
  {
    FirstMaxIff(b, i);
  }

  /** A ballot scoring nobody names the first candidate first. */
  lemma NoChoice(b: seq<int>)
    requires |b| > 0 && forall j :: 0 <= j < |b| ==> b[j] == 0
    ensures TopChoice(b) == 0
  {
    FirstMaxIff(b, 0);
  }

  /** Three candidates: three ballots for the first, four for the second,
      two that score only the third. */
  function Exhaust(a: seq<int>, b: seq<int>, c: seq<int>): seq<seq<int>> {
    Repeat(a, 3) + Repeat(b, 4) + Repeat(c, 2)
  }

  lemma ExhaustValid(a: seq<int>, b: seq<int>, c: seq<int>)
    requires Scored(a, 3) && Scored(b, 3) && Scored(c, 3)
    ensures ValidBallots(Repeat(a, 3), 3) && ValidBallots(Repeat(a, 3) + Repeat(b, 4), 3)
    ensures ValidBallots(Exhaust(a, b, c), 3)
  {
    RepeatValid([], a, 3, 3);
    EmptyPrefix(Repeat(a, 3));
    RepeatValid(Repeat(a, 3), b, 4, 3);
    RepeatValid(Repeat(a, 3) + Repeat(b, 4), c, 2, 3);
  }

  /** The tally of three copies of a followed by four copies of b. */
  lemma TallyThreeFour(a: seq<int>, b: seq<int>)
    requires Scored(a, 3) && Scored(b, 3)
    ensures ValidBallots(Repeat(a, 3) + Repeat(b, 4), 3)
    ensures var t0 := Zeros(3)[TopChoice(a) := 3];
      Tally(Repeat(a, 3) + Repeat(b, 4), 3) == t0[TopChoice(b) := t0[TopChoice(b)] + 4]
  {
    TallyCopies(a, 3, 3);
    TallyRepeat(Repeat(a, 3), b, 4, 3);
  }

  lemma ExhaustTally(a: seq<int>, b: seq<int>, c: seq<int>)
    requires Scored(a, 3) && Scored(b, 3) && Scored(c, 3)
    ensures ValidBallots(Exhaust(a, b, c), 3)
    ensures var t0 := Zeros(3)[TopChoice(a) := 3];
      var t1 := t0[TopChoice(b) := t0[TopChoice(b)] + 4];
      Tally(Exhaust(a, b, c), 3) == t1[TopChoice(c) := t1[TopChoice(c)] + 2]
  {
    TallyThreeFour(a, b);
    TallyRepeat(Repeat(a, 3) + Repeat(b, 4), c, 2, 3);
  }

  lemma ExhaustEliminate(a: seq<int>, b: seq<int>, c: seq<int>, bot: nat)
    requires Scored(a, 3) && Scored(b, 3) && Scored(c, 3) && bot < 3
    ensures ValidBallots(Exhaust(a, b, c), 3)
    ensures Eliminate(Exhaust(a, b, c), 3, bot) == Exhaust(a[bot := 0], b[bot := 0], c[bot := 0])
  {
    ExhaustValid(a, b, c);
    EliminateRepeat([], a, 3, 3, bot);
    EmptyPrefix(Repeat(a, 3));
    assert Eliminate([], 3, bot) == [];
    EliminateRepeat(Repeat(a, 3), b, 4, 3, bot);
    EliminateRepeat(Repeat(a, 3) + Repeat(b, 4), c, 2, 3, bot);
  }

  lemma ExhaustFirst(a: seq<int>, b: seq<int>, c: seq<int>)
    requires a == [2, 0, 0] && b == [0, 2, 0] && c == [0, 0, 1]
    ensures ValidBallots(Exhaust(a, b, c), 3) && Tally(Exhaust(a, b, c), 3) == [3, 4, 2]
    ensures Eliminate(Exhaust(a, b, c), 3, 2) == Exhaust(a, b, [0, 0, 0])
  {
    assert Scored(a, 3) && Scored(b, 3) && Scored(c, 3);
    OnlyChoice(a, 0);
    OnlyChoice(b, 1);
    OnlyChoice(c, 2);
    ExhaustTally(a, b, c);
    ExhaustEliminate(a, b, c, 2);
    assert a[2 := 0] == a && b[2 := 0] == b && c[2 := 0] == [0, 0, 0];
  }

  /** The second round as written: the two exhausted ballots score nobody,
      and [0, 0, 0].index(max(...)) hands them to the first candidate. */
  lemma ExhaustSecond(a: seq<int>, b: seq<int>, z: seq<int>)
    requires a == [2, 0, 0] && b == [0, 2, 0] && z == [0, 0, 0]
    ensures ValidBallots(Exhaust(a, b, z), 3) && Tally(Exhaust(a, b, z), 3) == [5, 4, 0]
  {
    assert Scored(a, 3) && Scored(b, 3) && Scored(z, 3);
    OnlyChoice(a, 0);
    OnlyChoice(b, 1);
    NoChoice(z);
    ExhaustTally(a, b, z);
  }

  /** As written, the first candidate wins the second round with five votes,
      two of them from ballots that gave it 0; the first round had no
      majority of the nine ballots. */
  lemma ExhaustedCredited(a: seq<int>, b: seq<int>, c: seq<int>, fuel: nat)
    requires a == [2, 0, 0] && b == [0, 2, 0] && c == [0, 0, 1] && fuel >= 1
    ensures ValidBallots(Exhaust(a, b, c), 3)
    ensures RunIrvSpec(Exhaust(a, b, c), 3, fuel) == Elected([[3, 4, 2], [5, 4, 0]], 0)
  {
    ExhaustFirst(a, b, c);
    ExhaustSecond(a, b, [0, 0, 0]);
    assert |Exhaust(a, b, c)| == 9;
    FirstMinIff([3, 4, 2], 2);
    FirstMaxIff([5, 4, 0], 0);
    var e := Exhaust(a, b, c);
    var later := Exhaust(a, b, [0, 0, 0]);
    assert IrvFrom(later, 3, [5, 4, 0], 9, [[3, 4, 2], [5, 4, 0]], fuel - 1) == Elected([[3, 4, 2], [5, 4, 0]], 0);
    assert IrvFrom(e, 3, [3, 4, 2], 9, [[3, 4, 2]], fuel) == IrvFrom(later, 3, [5, 4, 0], 9, [[3, 4, 2], [5, 4, 0]], fuel - 1);
  }

  lemma ExhaustActive(a: seq<int>, b: seq<int>, c: seq<int>)
    requires Scored(a, 3) && Scored(b, 3) && Scored(c, 3)
    ensures ValidBallots(Exhaust(a, b, c), 3)
    ensures Active(Exhaust(a, b, c), 3) ==
      (if Max(a) > 0 then Repeat(a, 3) else []) + (if Max(b) > 0 then Repeat(b, 4) else []) + (if Max(c) > 0 then Repeat(c, 2) else [])
  {
    ExhaustValid(a, b, c);
    ActiveRepeat([], a, 3, 3);
    EmptyPrefix(Repeat(a, 3));
    assert Active([], 3) == [];
    ActiveRepeat(Repeat(a, 3), b, 4, 3);
    ActiveRepeat(Repeat(a, 3) + Repeat(b, 4), c, 2, 3);
  }

  /** The first corrected round: every one of the nine ballots is in play,
      with the tallies of the first round. */
  lemma CorrectedExhaustCounts(a: seq<int>, b: seq<int>, c: seq<int>)
    requires a == [2, 0, 0] && b == [0, 2, 0] && c == [0, 0, 1]
    ensures ValidBallots(Exhaust(a, b, c), 3)
    ensures Active(Exhaust(a, b, c), 3) == Exhaust(a, b, c)
    ensures Tally(Exhaust(a, b, c), 3) == [3, 4, 2]
  {
    assert Scored(a, 3) && Scored(b, 3) && Scored(c, 3);
    ExhaustFirst(a, b, c);
    assert Max(a) > 0 && Max(b) > 0 && Max(c) > 0 by {
      assert Max(a) >= a[0] && Max(b) >= b[1] && Max(c) >= c[2];
    }
    ExhaustActive(a, b, c);
  }

  /** Nobody holds half of the nine ballots in play, and the third
      candidate, last with two votes, is eliminated. */
  lemma CorrectedExhaustFirst(a: seq<int>, b: seq<int>, c: seq<int>)
    requires a == [2, 0, 0] && b == [0, 2, 0] && c == [0, 0, 1]
    ensures ValidBallots(Exhaust(a, b, c), 3) && ValidBallots(Exhaust(a, b, [0, 0, 0]), 3)
    ensures CorrectedFrom(Exhaust(a, b, c), 3, AllCandidates(3)) == CorrectedFrom(Exhaust(a, b, [0, 0, 0]), 3, {0, 1})
  {
    CorrectedExhaustCounts(a, b, c);
    ExhaustFirst(a, b, c);
    CorrectedFirstRound(Exhaust(a, b, c));
  }

  /** Nine ballots in play with tallies 3, 4 and 2: the third candidate is
      eliminated and the rounds go on between the first two. */
  lemma CorrectedFirstRound(e: seq<seq<int>>)
    requires ValidBallots(e, 3) && Active(e, 3) == e && |e| == 9 && Tally(e, 3) == [3, 4, 2]
    ensures ValidBallots(Eliminate(e, 3, 2), 3)
    ensures CorrectedFrom(e, 3, AllCandidates(3)) == CorrectedFrom(Eliminate(e, 3, 2), 3, {0, 1})
  {
    ThreeCandidates();
    RoundOne({0, 1, 2}, Tally(e, 3));
    CorrectedContinue(e, 3, {0, 1, 2}, 9, Tally(e, 3), 2);
    ThirdOut();
  }

  lemma ThreeCandidates()
    ensures AllCandidates(3) == {0, 1, 2}
  {
  }

  lemma ThirdOut()
    ensures {0, 1, 2} - {2} == {0, 1}
  {
  }

  lemma RoundOne(all: set<nat>, counts: seq<int>)
    requires all == {0, 1, 2} && counts == [3, 4, 2]
    ensures Max(counts) == 4 && FirstMin(Masked(counts, all, 10)) == 2
  {
    assert Masked(counts, all, 10) == [3, 4, 2];
    FirstMinIff([3, 4, 2], 2);
  }

  /** The ballots still in play after the first corrected round: the two
      exhausted ballots are out. */
  lemma CorrectedExhaustInPlay(a: seq<int>, b: seq<int>, z: seq<int>)
    requires a == [2, 0, 0] && b == [0, 2, 0] && z == [0, 0, 0]
    ensures ValidBallots(Exhaust(a, b, z), 3)
    ensures Active(Exhaust(a, b, z), 3) == Repeat(a, 3) + Repeat(b, 4)
  {
    assert Scored(a, 3) && Scored(b, 3) && Scored(z, 3);
    assert Max(a) > 0 && Max(b) > 0 by {
      assert Max(a) >= a[0] && Max(b) >= b[1];
    }
    assert Max(z) == 0;
    ExhaustActive(a, b, z);
  }

  /** Their tallies. */
  lemma InPlayTally(a: seq<int>, b: seq<int>)
    requires a == [2, 0, 0] && b == [0, 2, 0]
    ensures ValidBallots(Repeat(a, 3) + Repeat(b, 4), 3)
    ensures Tally(Repeat(a, 3) + Repeat(b, 4), 3) == [3, 4, 0]
  {
    assert Scored(a, 3) && Scored(b, 3);
    OnlyChoice(a, 0);
    OnlyChoice(b, 1);
    TallyThreeFour(a, b);
  }

  lemma RoundTwo(alive: set<nat>, counts: seq<int>)
    requires alive == {0, 1} && counts == [3, 4, 0]
    ensures Max(counts) == 4 && FirstMax(Masked(counts, alive, -1)) == 1
  {
    assert Masked(counts, alive, -1) == [3, 4, -1];
    FirstMaxIff([3, 4, -1], 1);
  }

  /** The second candidate holds four of the seven ballots left in play. */
  lemma CorrectedExhaustLast(a: seq<int>, b: seq<int>, z: seq<int>)
    requires a == [2, 0, 0] && b == [0, 2, 0] && z == [0, 0, 0]
    ensures ValidBallots(Exhaust(a, b, z), 3)
    ensures CorrectedFrom(Exhaust(a, b, z), 3, {0, 1}).winner == 1
  {
    CorrectedExhaustInPlay(a, b, z);
    InPlayTally(a, b);
    var e := Exhaust(a, b, z);
    RoundTwo({0, 1}, Tally(Active(e, 3), 3));
    CorrectedStop(e, 3, {0, 1}, 7, Tally(Active(e, 3), 3));
  }

  /** The corrected rounds on the same input elect the second candidate. */
  lemma CorrectedExhaust(a: seq<int>, b: seq<int>, c: seq<int>)
    requires a == [2, 0, 0] && b == [0, 2, 0] && c == [0, 0, 1]
    ensures ValidBallots(Exhaust(a, b, c), 3)
    ensures CorrectedIrv(Exhaust(a, b, c), 3).winner == 1
  {
    CorrectedExhaustFirst(a, b, c);
    CorrectedExhaustLast(a, b, [0, 0, 0]);
  }

  /** Eliminating a candidate from m copies of one ballot. */
  lemma EliminateRepeat(prefix: seq<seq<int>>, b: seq<int>, m: nat, n: nat, bot: nat)
    requires ValidBallots(prefix, n) && Scored(b, n) && bot < n
    ensures ValidBallots(prefix + Repeat(b, m), n)
    ensures Eliminate(prefix + Repeat(b, m), n, bot) == Eliminate(prefix, n, bot) + Repeat(b[bot := 0], m)
  {
    var all := prefix + Repeat(b, m);
    RepeatValid(prefix, b, m, n);
    assert forall k :: 0 <= k < |all| ==> all[k] == if k < |prefix| then prefix[k] else b;
  }

  /** m copies of one ballot stay in play exactly when it scores someone. */
  lemma {:induction false} ActiveRepeat(prefix: seq<seq<int>>, b: seq<int>, m: nat, n: nat)
    requires ValidBallots(prefix, n) && Scored(b, n)
    ensures ValidBallots(prefix + Repeat(b, m), n)
    ensures Active(prefix + Repeat(b, m), n) == Active(prefix, n) + (if Max(b) > 0 then Repeat(b, m) else [])
  {
    RepeatValid(prefix, b, m, n);
    if m == 0 {
      RepeatLast(prefix, b, m);
    } else {
      ActiveRepeat(prefix, b, m - 1, n);
      ActiveOneMore(prefix, b, m, n);
      RepeatGrow(Active(prefix, n), Active(prefix + Repeat(b, m - 1), n), Active(prefix + Repeat(b, m), n), b, m, Max(b) > 0);
    }
  }

  /** The m-th copy of b stays in play exactly when b scores someone. */
  lemma ActiveOneMore(prefix: seq<seq<int>>, b: seq<int>, m: nat, n: nat)
    requires ValidBallots(prefix, n) && Scored(b, n) && m > 0
    ensures ValidBallots(prefix + Repeat(b, m - 1), n) && ValidBallots(prefix + Repeat(b, m), n)
    ensures Active(prefix + Repeat(b, m), n) == Active(prefix + Repeat(b, m - 1), n) + (if Max(b) > 0 then [b] else [])
  {
    RepeatValid(prefix, b, m, n);
    RepeatValid(prefix, b, m - 1, n);
    RepeatLast(prefix, b, m);
    ActiveLast(prefix + Repeat(b, m), n, prefix + Repeat(b, m - 1), b);
  }

  lemma ActiveLast(ballots: seq<seq<int>>, n: nat, rest: seq<seq<int>>, last: seq<int>)
    requires ValidBallots(ballots, n) && ballots != []
    requires rest == ballots[..|ballots| - 1] && last == ballots[|ballots| - 1]
    ensures ValidBallots(rest, n) && |last| == n
    ensures Active(ballots, n) == Active(rest, n) + (if Max(last) > 0 then [last] else [])
  {
    ElectionPrefix(ballots, n, |ballots| - 1);
  }
}
