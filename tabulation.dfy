/** The tabulation script from end to end: the CSV rows are expanded into
    ballots, then counted by plurality, by instant runoff and by STAR, in
    that order. */
module Tabulation {
  import opened Text
  import opened Election
  import opened Weights
  import opened Plurality
  import opened Irv
  import opened Star

  /** The STAR block runs only once the instant-runoff loop has ended. */
  datatype StarRun = NotReached | Reached(result: StarResult)

  /** Everything the script reports, without its formatting. */
  datatype Report = Report(
    candidates: seq<string>,
    ballots: seq<seq<int>>,
    plurality: seq<int>,
    pluralityWinner: nat,
    irv: IrvResult,
    star: StarRun)

  /** The script on a header and its data rows. The instant-runoff loop is
      run for at most fuel eliminations; when it has not ended by then, the
      STAR block is not reached. Every expanded ballot must score each
      candidate with one digit. */
  method Tabulate(header: seq<string>, rows: seq<Row>, fuel: nat) returns (report: Report)
    requires |header| >= 2 && ValidBallots(Expand(rows), |header| - 1)
    ensures report.candidates == header[1..]
    ensures report.ballots == Expand(rows) && |report.ballots| == TotalWeight(rows)
    ensures report.plurality == Tally(report.ballots, |header| - 1)
    ensures report.pluralityWinner == FirstMax(report.plurality)
    ensures report.irv == RunIrvSpec(report.ballots, |header| - 1, fuel)
    ensures report.star.Reached? <==> report.irv.Elected?
    ensures report.star.Reached? ==> StarOutcome(report.ballots, |header| - 1, report.star.result)
  {
    var candidates := Candidates(header);
    var n := |candidates|;
    var ballots := ExpandWeights(rows);
    ExpandLength(rows);
    var counts, winner, totalVotes := RunPlurality(ballots, n);
    var irv, star := RunIrvThenStar(ballots, n, totalVotes, fuel);
    report := Report(candidates, ballots, counts, winner, irv, star);
  }

  /** The instant-runoff block, then the STAR block once the loop has
      ended; STAR's total_votes is the sum of the last round's counts. */
  method RunIrvThenStar(ballots: seq<seq<int>>, n: nat, totalVotes: int, fuel: nat) returns (irv: IrvResult, star: StarRun)
    requires ValidBallots(ballots, n) && totalVotes == |ballots|
    ensures irv == RunIrvSpec(ballots, n, fuel)
    ensures star.Reached? <==> irv.Elected?
    ensures star.Reached? ==> StarOutcome(ballots, n, star.result)
  {
    irv := RunIrv(ballots, n, totalVotes, fuel);
    star := NotReached;
    if irv.Elected? {
      IrvFacts(ballots, n, fuel);
      var irvTotal := Sum(Last(irv.rounds));
      var result := RunStar(ballots, n, irvTotal);
      star := Reached(result);
    }
  }

  /** Adding m copies of ballot b adds m times each of its scores. */
  lemma {:induction false} ColumnSumsRepeat(prefix: seq<seq<int>>, b: seq<int>, m: nat, n: nat)
    requires ValidBallots(prefix, n) && Scored(b, n)
    ensures ValidBallots(prefix + Repeat(b, m), n)
    ensures forall i :: 0 <= i < n ==> ColumnSums(prefix + Repeat(b, m), n)[i] == ColumnSums(prefix, n)[i] + m * b[i]
  {
    RepeatValid(prefix, b, m, n);
    if m == 0 {
      RepeatLast(prefix, b, m);
    } else {
      ColumnSumsRepeat(prefix, b, m - 1, n);
      ColumnSumsOneMore(prefix, b, m, n);
      AddRowOneMore(ColumnSums(prefix, n), ColumnSums(prefix + Repeat(b, m - 1), n), ColumnSums(prefix + Repeat(b, m), n), b, m);
    }
  }

  /** m - 1 copies of b added to t, and one more, are m copies. */
  lemma AddRowOneMore(t: seq<int>, prev: seq<int>, next: seq<int>, b: seq<int>, m: nat)
    requires |t| == |prev| == |next| == |b| && m > 0
    requires forall i :: 0 <= i < |t| ==> prev[i] == t[i] + (m - 1) * b[i]
    requires forall i :: 0 <= i < |t| ==> next[i] == prev[i] + b[i]
    ensures forall i :: 0 <= i < |t| ==> next[i] == t[i] + m * b[i]
  {
    forall i | 0 <= i < |t| ensures next[i] == t[i] + m * b[i] {
      assert (m - 1) * b[i] + b[i] == m * b[i];
    }
  }

  /** The m-th copy of b adds its scores once more. */
  lemma ColumnSumsOneMore(prefix: seq<seq<int>>, b: seq<int>, m: nat, n: nat)
    requires ValidBallots(prefix, n) && Scored(b, n) && m > 0
    ensures ValidBallots(prefix + Repeat(b, m - 1), n) && ValidBallots(prefix + Repeat(b, m), n)
    ensures ColumnSums(prefix + Repeat(b, m), n) == AddRow(ColumnSums(prefix + Repeat(b, m - 1), n), b)
  {
    RepeatValid(prefix, b, m, n);
    RepeatValid(prefix, b, m - 1, n);
    RepeatLast(prefix, b, m);
    ColumnSumsLast(prefix + Repeat(b, m), n, prefix + Repeat(b, m - 1), b);
  }

  lemma ColumnSumsLast(ballots: seq<seq<int>>, n: nat, rest: seq<seq<int>>, last: seq<int>)
    requires ValidBallots(ballots, n) && ballots != []
    requires rest == ballots[..|ballots| - 1] && last == ballots[|ballots| - 1]
    ensures ValidBallots(rest, n) && |last| == n
    ensures ColumnSums(ballots, n) == AddRow(ColumnSums(rest, n), last)
  {
    ElectionPrefix(ballots, n, |ballots| - 1);
  }

  /** Adding m copies of ballot b adds m to the runoff count it supports. */
  lemma {:induction false} RunoffRepeat(prefix: seq<seq<int>>, b: seq<int>, m: nat, n: nat, x: nat, y: nat)
    requires ValidBallots(prefix, n) && Scored(b, n) && x < n && y < n
    ensures ValidBallots(prefix + Repeat(b, m), n)
    ensures Prefers(prefix + Repeat(b, m), n, x, y) == Prefers(prefix, n, x, y) + (if b[x] > b[y] then m else 0)
    ensures Indifferent(prefix + Repeat(b, m), n, x, y) == Indifferent(prefix, n, x, y) + (if b[x] == b[y] then m else 0)
  {
    RepeatValid(prefix, b, m, n);
    RepeatLast(prefix, b, m);
    if m > 0 {
      RunoffRepeat(prefix, b, m - 1, n, x, y);
    }
  }

  /** The rows of the sample in the script's header comment. */
  function SampleRows(x: seq<int>, y: seq<int>): seq<Row> {
    [Row(2, x), Row(3, y)]
  }

  lemma SampleExpand(x: seq<int>, y: seq<int>)
    requires x == [0, 2, 5] && y == [5, 4, 3]
    ensures Expand(SampleRows(x, y)) == Repeat(x, 2) + Repeat(y, 3)
    ensures Scored(x, 3) && Scored(y, 3) && ValidBallots(Repeat(x, 2), 3)
    ensures ValidBallots(Expand(SampleRows(x, y)), 3)
  {
    var rows := SampleRows(x, y);
    assert rows[..1] == [Row(2, x)];
    assert rows[..1][..0] == [];
    assert Expand(rows[..1]) == [] + Repeat(x, 2);
    EmptyPrefix(Repeat(x, 2));
    RepeatValid([], x, 2, 3);
    RepeatValid(Repeat(x, 2), y, 3, 3);
  }

  lemma SampleTops(x: seq<int>, y: seq<int>)
    requires x == [0, 2, 5] && y == [5, 4, 3]
    ensures TopChoice(x) == 2 && TopChoice(y) == 0
  {
    FirstMaxIff(x, 2);
    FirstMaxIff(y, 0);
  }

  /** Plurality on the sample: A 3, B 0, C 2. */
  lemma SamplePlurality(x: seq<int>, y: seq<int>)
    requires x == [0, 2, 5] && y == [5, 4, 3]
    ensures ValidBallots(Repeat(x, 2) + Repeat(y, 3), 3)
    ensures Tally(Repeat(x, 2) + Repeat(y, 3), 3) == [3, 0, 2]
  {
    SampleExpand(x, y);
    SampleTops(x, y);
    TallyRepeat([], x, 2, 3);
    EmptyPrefix(Repeat(x, 2));
    TallyNone(3);
    TallyRepeat(Repeat(x, 2), y, 3, 3);
  }

  /** A leads the plurality counts with 3 of 5. */
  lemma SampleLeader(counts: seq<int>)
    requires counts == [3, 0, 2]
    ensures Max(counts) == 3 && FirstMax(counts) == 0
  {
    FirstMaxIff(counts, 0);
  }

  /** Instant runoff on the sample: A holds three of five first choices,
      so the loop ends after round 1. */
  lemma SampleIrv(x: seq<int>, y: seq<int>, fuel: nat)
    requires x == [0, 2, 5] && y == [5, 4, 3]
    ensures ValidBallots(Repeat(x, 2) + Repeat(y, 3), 3)
    ensures RunIrvSpec(Repeat(x, 2) + Repeat(y, 3), 3, fuel) == Elected([[3, 0, 2]], 0)
  {
    SamplePlurality(x, y);
    SampleLeader(Tally(Repeat(x, 2) + Repeat(y, 3), 3));
  }

  /** The STAR sums on the sample: A 15, B 16, C 19. */
  lemma SampleSums(x: seq<int>, y: seq<int>)
    requires x == [0, 2, 5] && y == [5, 4, 3]
    ensures ValidBallots(Repeat(x, 2) + Repeat(y, 3), 3)
    ensures ColumnSums(Repeat(x, 2) + Repeat(y, 3), 3) == [15, 16, 19]
  {
    SampleExpand(x, y);
    ColumnSumsRepeat([], x, 2, 3);
    EmptyPrefix(Repeat(x, 2));
    assert ColumnSums([], 3) == Zeros(3);
    ColumnSumsRepeat(Repeat(x, 2), y, 3, 3);
  }

  /** The STAR runoff on the sample between C and B: C 2, B 3, no
      preference 0. */
  lemma SampleRunoff(x: seq<int>, y: seq<int>)
    requires x == [0, 2, 5] && y == [5, 4, 3]
    ensures ValidBallots(Repeat(x, 2) + Repeat(y, 3), 3)
    ensures Prefers(Repeat(x, 2) + Repeat(y, 3), 3, 2, 1) == 2
    ensures Prefers(Repeat(x, 2) + Repeat(y, 3), 3, 1, 2) == 3
    ensures Indifferent(Repeat(x, 2) + Repeat(y, 3), 3, 2, 1) == 0
  {
    SampleExpand(x, y);
    RunoffRepeat([], x, 2, 3, 2, 1);
    RunoffRepeat([], x, 2, 3, 1, 2);
    EmptyPrefix(Repeat(x, 2));
    RunoffRepeat(Repeat(x, 2), y, 3, 3, 2, 1);
    RunoffRepeat(Repeat(x, 2), y, 3, 3, 1, 2);
  }

  /** The sample in the script's header comment, worked through: A wins
      plurality with 3, 0 and 2 first choices; instant runoff ends after
      round 1 and elects A; the STAR sums 15, 16, 19 put C and B in the
      runoff, which B wins 3 to 2 with no ballot indifferent. */
  lemma SampleReport(x: seq<int>, y: seq<int>, fuel: nat, r: StarResult)
    requires x == [0, 2, 5] && y == [5, 4, 3]
    ensures ValidBallots(Expand(SampleRows(x, y)), 3)
    ensures var ballots := Expand(SampleRows(x, y));
      && Tally(ballots, 3) == [3, 0, 2] && FirstMax(Tally(ballots, 3)) == 0
      && RunIrvSpec(ballots, 3, fuel) == Elected([[3, 0, 2]], 0)
      && (StarOutcome(ballots, 3, r) <==> r == StarResult([15, 16, 19], 2, 1, RunoffResult(2, 3, 0, 1)))
  {
    SampleExpand(x, y);
    SamplePlurality(x, y);
    SampleLeader(Tally(Expand(SampleRows(x, y)), 3));
    SampleIrv(x, y, fuel);
    SampleSums(x, y);
    SampleRunoff(x, y);
    FirstMaxIff([15, 16, 19], 2);
    FirstMaxIff([15, 16, 0], 1);
    assert [15, 16, 19][2 := 0] == [15, 16, 0];
  }
}
