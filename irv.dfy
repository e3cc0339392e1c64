/** The instant-runoff block of the tabulation script as written: recount
    first choices, and while no candidate holds half of total_votes, zero
    the column of counts.index(min(counts)) in every ballot copy and
    recount. The loop need not end, so it runs on fuel. */
module Irv {
  import opened Election
  import opened Plurality

  /** ballot[bot] = '0' on every ballot copy. */
  function Eliminate(copies: seq<seq<int>>, n: nat, bot: nat): (r: seq<seq<int>>)
    requires ValidBallots(copies, n) && bot < n
    ensures ValidBallots(r, n)
  {
    seq(|copies|, k requires 0 <= k < |copies| => copies[k][bot := 0])
  }

  /** The eliminated column is 0 on every copy and nothing else changes. */
  lemma EliminateFacts(copies: seq<seq<int>>, n: nat, bot: nat)
    requires ValidBallots(copies, n) && bot < n
    ensures var r := Eliminate(copies, n, bot);
      && |r| == |copies|
      && (forall k :: 0 <= k < |r| ==> r[k][bot] == 0)
      && (forall k, i :: 0 <= k < |r| && 0 <= i < n && i != bot ==> r[k][i] == copies[k][i])
  {
  }

  /** How the loop ends: elected (with round_counts and the winner), or
      still running when the fuel is spent. */
  datatype IrvResult =
    | Elected(rounds: seq<seq<int>>, winner: nat)
    | Unfinished(rounds: seq<seq<int>>)

  /** Every round of counts has one entry per candidate and sums to the
      number of ballots. */
  predicate RoundsSound(rounds: seq<seq<int>>, n: nat, total: int) {
    forall r :: 0 <= r < |rounds| ==> |rounds[r]| == n && Sum(rounds[r]) == total
  }

  function Last(rounds: seq<seq<int>>): seq<int>
    requires rounds != []
  {
    rounds[|rounds| - 1]
  }

  /** Appending a sound round keeps the rounds sound. */
  lemma RoundsAppend(rounds: seq<seq<int>>, recount: seq<int>, n: nat, total: int)
    requires |recount| == n && Sum(recount) == total
    ensures RoundsSound(rounds, n, total) ==> RoundsSound(rounds + [recount], n, total)
    ensures rounds != [] ==> (rounds + [recount])[0] == rounds[0]
  {
  }

  /** Appending a round makes it the last one. */
  lemma LastAppend(rounds: seq<seq<int>>, recount: seq<int>)
    ensures Last(rounds + [recount]) == recount
  {
  }

  /** The rounds of a result start with first and are all sound. */
  predicate RoundsFrom(res: IrvResult, first: seq<int>, n: nat, total: int) {
    res.rounds != [] && res.rounds[0] == first && RoundsSound(res.rounds, n, total)
  }

  /** How a result ends: elected on its last round, or unfinished after
      bound rounds without a majority in the last. */
  predicate EndsSound(res: IrvResult, n: nat, total: int, bound: int) {
    && res.rounds != [] && n >= 1 && |Last(res.rounds)| == n
    && (res.Elected? ==> |res.rounds| <= bound && 2 * Max(Last(res.rounds)) >= total && res.winner == FirstMax(Last(res.rounds)))
    && (res.Unfinished? ==> |res.rounds| == bound && 2 * Max(Last(res.rounds)) < total)
  }

  /** The while loop from the current copies and counts on. */
  function IrvFrom(copies: seq<seq<int>>, n: nat, counts: seq<int>, total: int, rounds: seq<seq<int>>, fuel: nat): (r: IrvResult)
    requires ValidBallots(copies, n) && |counts| == n
    ensures |copies| == total && rounds != [] && RoundsSound(rounds, n, total) ==> RoundsFrom(r, rounds[0], n, total)
    ensures rounds != [] && Last(rounds) == counts ==> EndsSound(r, n, total, |rounds| + fuel)
    decreases fuel
  {
    if 2 * Max(counts) >= total then Elected(rounds, FirstMax(counts))
    else if fuel == 0 then Unfinished(rounds)
    else
      var next := Eliminate(copies, n, FirstMin(counts));
      var recount := Tally(next, n);
      TallySum(next, n);
      EliminateFacts(copies, n, FirstMin(counts));
      LastAppend(rounds, recount);
      RoundsAppend(rounds, recount, n, |next|);
      IrvFrom(next, n, recount, total, rounds + [recount], fuel - 1)
  }

  /** The ballot copies once the loop has been through the given rounds:
      each round's first minimum, counts.index(min(counts)), has had its
      column cleared, on top of the earlier eliminations. */
  function Replay(ballots: seq<seq<int>>, n: nat, rounds: seq<seq<int>>): (r: seq<seq<int>>)
    requires ValidBallots(ballots, n) && forall i :: 0 <= i < |rounds| ==> |rounds[i]| == n
    ensures ValidBallots(r, n) && |r| == |ballots|
    decreases |rounds|
  {
    if rounds == [] then ballots
    else
      var front := rounds[..|rounds| - 1];
      assert forall i :: 0 <= i < |front| ==> front[i] == rounds[i];
      Eliminate(Replay(ballots, n, front), n, FirstMin(rounds[|rounds| - 1]))
  }

  /** What round_counts records, one round at a time: round 1 is the tally
      of the ballots; each later round is the tally after the eliminations
      of all earlier rounds, and the loop went on past a round only when
      nobody held half of total_votes in it. */
  predicate Replayed(ballots: seq<seq<int>>, n: nat, total: int, rounds: seq<seq<int>>)
    requires ValidBallots(ballots, n)
    decreases |rounds|
  {
    && rounds != []
    && (forall i :: 0 <= i < |rounds| ==> |rounds[i]| == n)
    && var front := rounds[..|rounds| - 1];
       if front == [] then rounds[0] == Tally(ballots, n)
       else
         && Replayed(ballots, n, total, front)
         && 2 * Max(Last(front)) < total
         && Last(rounds) == Tally(Replay(ballots, n, front), n)
  }

  /** The same, round by round. */
  lemma ReplayedRounds(ballots: seq<seq<int>>, n: nat, total: int, rounds: seq<seq<int>>)
    requires ValidBallots(ballots, n) && Replayed(ballots, n, total, rounds)
    ensures forall i :: 0 <= i < |rounds| ==> |rounds[i]| == n
    ensures forall i :: 0 <= i < |rounds| ==> rounds[i] == Tally(Replay(ballots, n, rounds[..i]), n)
    ensures forall i :: 0 <= i < |rounds| - 1 ==> 2 * Max(rounds[i]) < total
  {
    forall i | 0 <= i < |rounds|
      ensures rounds[i] == Tally(Replay(ballots, n, rounds[..i]), n)
      ensures i < |rounds| - 1 ==> 2 * Max(rounds[i]) < total
    {
      ReplayedAt(ballots, n, total, rounds, i);
    }
  }

  lemma {:induction false} ReplayedAt(ballots: seq<seq<int>>, n: nat, total: int, rounds: seq<seq<int>>, i: nat)
    requires ValidBallots(ballots, n) && Replayed(ballots, n, total, rounds) && i < |rounds|
    ensures forall j :: 0 <= j < i ==> |rounds[..i][j]| == n
    ensures rounds[i] == Tally(Replay(ballots, n, rounds[..i]), n)
    ensures i < |rounds| - 1 ==> 2 * Max(rounds[i]) < total
    decreases |rounds|
  {
    var front := rounds[..|rounds| - 1];
    if i == |rounds| - 1 {
      assert rounds[..i] == front;
      if front == [] {
        assert rounds[i] == rounds[0];
      }
    } else {
      ReplayedAt(ballots, n, total, front, i);
      assert front[..i] == rounds[..i];
      assert front[i] == rounds[i];
      if i == |front| - 1 {
        assert front[i] == Last(front);
      }
    }
  }

  /** One more round: clearing the last round's first minimum and
      recounting extends a replay, when that round had no majority. */
  lemma ReplayNext(ballots: seq<seq<int>>, n: nat, total: int, rounds: seq<seq<int>>, recount: seq<int>)
    requires ValidBallots(ballots, n) && Replayed(ballots, n, total, rounds)
    requires 2 * Max(Last(rounds)) < total
    requires recount == Tally(Eliminate(Replay(ballots, n, rounds[..|rounds| - 1]), n, FirstMin(Last(rounds))), n)
    ensures var rounds' := rounds + [recount];
      && Replayed(ballots, n, total, rounds')
      && rounds'[..|rounds'| - 1] == rounds
      && Replay(ballots, n, rounds) == Eliminate(Replay(ballots, n, rounds[..|rounds| - 1]), n, FirstMin(Last(rounds)))
  {
    var rounds' := rounds + [recount];
    assert rounds'[..|rounds'| - 1] == rounds;
    ReplayLast(ballots, n, rounds);
  }

  /** The replay of some rounds clears the last one's first minimum after
      the replay of the others. */
  lemma ReplayLast(ballots: seq<seq<int>>, n: nat, rounds: seq<seq<int>>)
    requires ValidBallots(ballots, n) && rounds != [] && forall i :: 0 <= i < |rounds| ==> |rounds[i]| == n
    ensures Replay(ballots, n, rounds) == Eliminate(Replay(ballots, n, rounds[..|rounds| - 1]), n, FirstMin(Last(rounds)))
  {
  }

  /** The block: round 1 counts the ballots themselves, total_votes being
      the number of ballots. */
  function RunIrvSpec(ballots: seq<seq<int>>, n: nat, fuel: nat): IrvResult
    requires ValidBallots(ballots, n)
  {
    var counts := Tally(ballots, n);
    IrvFrom(ballots, n, counts, |ballots|, [counts], fuel)
  }

  /** for ballot in ballot_copies: ballot[bot_candidate] = '0' */
  method ClearColumn(copies: seq<seq<int>>, n: nat, bot: nat) returns (r: seq<seq<int>>)
    requires ValidBallots(copies, n) && bot < n
    ensures r == Eliminate(copies, n, bot)
  {
    r := copies;
    var k := 0;
    while k < |r|
      invariant 0 <= k <= |r| == |copies|
      invariant forall j :: 0 <= j < k ==> r[j] == copies[j][bot := 0]
      invariant forall j :: k <= j < |r| ==> r[j] == copies[j]
    {
      r := r[k := r[k][bot := 0]];
      k := k + 1;
    }
  }

  /** One pass through the loop body, ending with the copies next and the
      recount. */
  lemma IrvStep(copies: seq<seq<int>>, n: nat, counts: seq<int>, total: int, rounds: seq<seq<int>>, fuel: nat,
                next: seq<seq<int>>, recount: seq<int>, rounds': seq<seq<int>>, fuel': nat)
    requires ValidBallots(copies, n) && |counts| == n
    requires 2 * Max(counts) < total && fuel > 0
    requires FirstMin(counts) < n && next == Eliminate(copies, n, FirstMin(counts)) && recount == Tally(next, n)
    requires rounds' == rounds + [recount] && fuel' == fuel - 1
    ensures ValidBallots(next, n) && |recount| == n
    ensures IrvFrom(copies, n, counts, total, rounds, fuel) == IrvFrom(next, n, recount, total, rounds', fuel')
  {
  }

  /** Leaving the loop. */
  lemma IrvStop(copies: seq<seq<int>>, n: nat, counts: seq<int>, total: int, rounds: seq<seq<int>>, fuel: nat)
    requires ValidBallots(copies, n) && |counts| == n
    requires 2 * Max(counts) >= total || fuel == 0
    ensures IrvFrom(copies, n, counts, total, rounds, fuel) ==
      if 2 * Max(counts) < total then Unfinished(rounds) else Elected(rounds, FirstMax(counts))
  {
  }

  /** One pass through the loop body: bot_candidate is
      counts.index(min(counts)), its column is cleared, and first choices
      are recounted. */
  method EliminationRound(copies: seq<seq<int>>, n: nat, counts: seq<int>) returns (next: seq<seq<int>>, recount: seq<int>)
    requires ValidBallots(copies, n) && |counts| == n
    ensures FirstMin(counts) < n && next == Eliminate(copies, n, FirstMin(counts))
    ensures recount == Tally(next, n)
  {
    var botCandidate := IndexOf(counts, Min(counts));
    IndexOfMin(counts);
    next := ClearColumn(copies, n, botCandidate);
    var b := CountFirstChoices(next, n);
    recount := b[..];
  }

  /** The block, with total_votes from the plurality block and at most fuel
      passes through the while loop. round_counts comes out as a replay:
      each round is the recount after clearing the first minimum of every
      earlier round, and the loop went past a round only when nobody held
      half of total_votes in it. */
  method RunIrv(ballots: seq<seq<int>>, n: nat, totalVotes: int, fuel: nat) returns (result: IrvResult)
    requires ValidBallots(ballots, n) && totalVotes == |ballots|
    ensures result == RunIrvSpec(ballots, n, fuel)
    ensures Replayed(ballots, n, totalVotes, result.rounds) && |result.rounds| <= 1 + fuel
    ensures forall r :: 0 <= r < |result.rounds| ==> result.rounds[r] == Tally(Replay(ballots, n, result.rounds[..r]), n)
    ensures forall r :: 0 <= r < |result.rounds| - 1 ==> 2 * Max(result.rounds[r]) < totalVotes
  {
    var a := CountFirstChoices(ballots, n);
    var counts := a[..];
    var roundCounts := [counts];
    assert roundCounts[..0] == [];
    var ballotCopies := ballots;
    var f := fuel;
    ghost var target := RunIrvSpec(ballots, n, fuel);
    while 2 * Max(counts) < totalVotes && f > 0
      invariant ValidBallots(ballotCopies, n) && |counts| == n
      invariant IrvFrom(ballotCopies, n, counts, totalVotes, roundCounts, f) == target
      invariant Replayed(ballots, n, totalVotes, roundCounts) && |roundCounts| == 1 + fuel - f
      invariant counts == Last(roundCounts) && ballotCopies == Replay(ballots, n, roundCounts[..|roundCounts| - 1])
      decreases f
    {
      ghost var copies0, counts0, rounds0, f0 := ballotCopies, counts, roundCounts, f;
      ballotCopies, counts := EliminationRound(ballotCopies, n, counts);
      ReplayNext(ballots, n, totalVotes, rounds0, counts);
      roundCounts := roundCounts + [counts];
      f := f - 1;
      IrvStep(copies0, n, counts0, totalVotes, rounds0, f0, ballotCopies, counts, roundCounts, f);
    }
    IrvStop(ballotCopies, n, counts, totalVotes, roundCounts, f);
    if 2 * Max(counts) < totalVotes {
      result := Unfinished(roundCounts);
    } else {
      result := Elected(roundCounts, IndexOf(counts, Max(counts)));
      IndexOfMax(counts);
    }
    ReplayedRounds(ballots, n, totalVotes, roundCounts);
  }

  /** round_counts starts with the plurality round; each round sums to
      total_votes; an election happens only once the final round's maximum
      reaches half of total_votes, and elects the first candidate holding it;
      without an election every unit of fuel added one round. */
  lemma IrvFacts(ballots: seq<seq<int>>, n: nat, fuel: nat)
    requires ValidBallots(ballots, n)
    ensures var res := RunIrvSpec(ballots, n, fuel);
      && res.rounds != [] && res.rounds[0] == Tally(ballots, n)
      && RoundsSound(res.rounds, n, |ballots|)
      && |Last(res.rounds)| == n
      && (res.Elected? ==> 2 * Max(Last(res.rounds)) >= |ballots| && res.winner == FirstMax(Last(res.rounds)) && res.winner < n)
      && (res.Elected? ==> |res.rounds| <= 1 + fuel)
      && (res.Unfinished? ==> |res.rounds| == 1 + fuel && 2 * Max(Last(res.rounds)) < |ballots|)
  {
    var counts := Tally(ballots, n);
    TallySum(ballots, n);
    assert RoundsSound([counts], n, |ballots|);
    assert Last([counts]) == counts;
  }
}
