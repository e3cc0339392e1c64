/** The plurality block of the tabulation script: one vote per ballot for
    its first choice, and the first candidate with the most votes wins. */
module Plurality {
  import opened Text
  import opened Election

  lemma ElectionPrefix(ballots: seq<seq<int>>, n: nat, m: nat)
    requires ValidBallots(ballots, n) && m <= |ballots|
    ensures ValidBallots(ballots[..m], n)
  {
    assert forall k :: 0 <= k < m ==> ballots[..m][k] == ballots[k];
  }

  /** The counts list after the counting loop over ballots. */
  function Tally(ballots: seq<seq<int>>, n: nat): (r: seq<int>)
    requires ValidBallots(ballots, n)
    ensures |r| == n
  {
    if ballots == [] then Zeros(n)
    else
      ElectionPrefix(ballots, n, |ballots| - 1);
      var prev := Tally(ballots[..|ballots| - 1], n);
      var t := TopChoice(ballots[|ballots| - 1]);
      prev[t := prev[t] + 1]
  }

  /** The ballots whose first choice is candidate c. */
  function Voters(ballots: seq<seq<int>>, c: nat): set<nat> {
    set k: nat | k < |ballots| && |ballots[k]| > 0 && TopChoice(ballots[k]) == c
  }

  lemma VotersStep(ballots: seq<seq<int>>, c: nat)
    requires ballots != [] && |ballots[|ballots| - 1]| > 0
    ensures var last := |ballots| - 1;
      Voters(ballots, c) == Voters(ballots[..last], c) + (if TopChoice(ballots[last]) == c then {last} else {})
  {
    var last := |ballots| - 1;
    assert forall k :: 0 <= k < last ==> ballots[..last][k] == ballots[k];
  }

  /** A candidate's count is the number of ballots naming it first choice. */
  lemma {:induction false} TallyVoters(ballots: seq<seq<int>>, n: nat, c: nat)
    requires ValidBallots(ballots, n) && c < n
    ensures Tally(ballots, n)[c] == |Voters(ballots, c)|
  {
    if ballots == [] {
      assert Voters(ballots, c) == {};
    } else {
      var last := |ballots| - 1;
      ElectionPrefix(ballots, n, last);
      TallyVoters(ballots[..last], n, c);
      VotersStep(ballots, c);
      assert last !in Voters(ballots[..last], c);
    }
  }

  /** Each ballot adds exactly one vote: the counts sum to the number of
      ballots (total_votes). */
  lemma {:induction false} TallySum(ballots: seq<seq<int>>, n: nat)
    requires ValidBallots(ballots, n)
    ensures Sum(Tally(ballots, n)) == |ballots|
  {
    if ballots == [] {
      SumZeros(n);
    } else {
      var last := |ballots| - 1;
      ElectionPrefix(ballots, n, last);
      TallySum(ballots[..last], n);
      var prev := Tally(ballots[..last], n);
      SumUpdate(prev, TopChoice(ballots[last]), 1);
    }
  }

  lemma TallyNonNegative(ballots: seq<seq<int>>, n: nat)
    requires ValidBallots(ballots, n)
    ensures forall c :: 0 <= c < n ==> Tally(ballots, n)[c] >= 0
  {
    forall c | 0 <= c < n ensures Tally(ballots, n)[c] >= 0 {
      TallyVoters(ballots, n, c);
    }
  }

  /** The counting loop, in place on a fresh counts list. */
  method CountFirstChoices(ballots: seq<seq<int>>, n: nat) returns (counts: array<int>)
    requires ValidBallots(ballots, n)
    ensures fresh(counts) && counts[..] == Tally(ballots, n)
  {
    counts := new int[n](_ => 0);
    var k := 0;
    while k < |ballots|
      invariant 0 <= k <= |ballots|
      invariant ValidBallots(ballots[..k], n)
      invariant counts[..] == Tally(ballots[..k], n)
    {
      var topCandidate := IndexOf(ballots[k], Max(ballots[k]));
      IndexOfMax(ballots[k]);
      ElectionPrefix(ballots, n, k + 1);
      assert ballots[..k + 1][..k] == ballots[..k];
      counts[topCandidate] := counts[topCandidate] + 1;
      k := k + 1;
    }
    assert ballots[..k] == ballots;
  }

  /** The plurality block: counts, the winner counts.index(max(counts)) and
      total_votes = sum(counts). */
  method RunPlurality(ballots: seq<seq<int>>, n: nat) returns (counts: seq<int>, winner: nat, totalVotes: int)
    requires ValidBallots(ballots, n)
    ensures counts == Tally(ballots, n)
    ensures winner == FirstMax(counts) && winner < n
    ensures totalVotes == |ballots|
  {
    var a := CountFirstChoices(ballots, n);
    counts := a[..];
    winner := IndexOf(counts, Max(counts));
    IndexOfMax(counts);
    totalVotes := Sum(counts);
    TallySum(ballots, n);
  }

  /** The plurality winner has at least as many first choices as anyone and
      strictly more than every candidate listed before it. */
  lemma PluralityWinner(ballots: seq<seq<int>>, n: nat, w: nat)
    requires ValidBallots(ballots, n)
    ensures w == FirstMax(Tally(ballots, n)) <==>
      && w < n
      && (forall c :: 0 <= c < n ==> |Voters(ballots, c)| <= |Voters(ballots, w)|)
      && (forall c :: 0 <= c < w ==> |Voters(ballots, c)| < |Voters(ballots, w)|)
  {
    var t := Tally(ballots, n);
    FirstMaxIff(t, w);
    forall c | 0 <= c < n ensures t[c] == |Voters(ballots, c)| {
      TallyVoters(ballots, n, c);
    }
  }

  /** One ballot of an election with n candidates. */
  predicate Scored(b: seq<int>, n: nat) {
    n >= 1 && |b| == n && forall i :: 0 <= i < n ==> 0 <= b[i] <= 9
  }

  lemma RepeatValid(prefix: seq<seq<int>>, b: seq<int>, m: nat, n: nat)
    requires ValidBallots(prefix, n) && Scored(b, n)
    ensures ValidBallots(prefix + Repeat(b, m), n)
  {
    var all := prefix + Repeat(b, m);
    assert forall k :: 0 <= k < |all| ==> all[k] == if k < |prefix| then prefix[k] else b;
  }

  /** Counting m more copies of one ballot adds m votes to its first choice. */
  lemma {:induction false} TallyRepeat(prefix: seq<seq<int>>, b: seq<int>, m: nat, n: nat)
    requires ValidBallots(prefix, n) && Scored(b, n)
    ensures ValidBallots(prefix + Repeat(b, m), n)
    ensures var t := Tally(prefix, n); var c := TopChoice(b);
      Tally(prefix + Repeat(b, m), n) == t[c := t[c] + m]
  {
    RepeatValid(prefix, b, m, n);
    var t := Tally(prefix, n);
    var c := TopChoice(b);
    if m == 0 {
      RepeatLast(prefix, b, m);
      UpdateSame(t, c);
    } else {
      TallyRepeat(prefix, b, m - 1, n);
      var prev := Tally(prefix + Repeat(b, m - 1), n);
      assert prev == t[c := t[c] + (m - 1)];
      TallyOneMore(prefix, b, m, n);
      var next := Tally(prefix + Repeat(b, m), n);
      assert next == prev[c := prev[c] + 1];
      AddOneMore(t, prev, next, c, m);
    }
  }

  /** m copies of one ballot give all m votes to its first choice. */
  lemma TallyCopies(b: seq<int>, m: nat, n: nat)
    requires Scored(b, n)
    ensures ValidBallots(Repeat(b, m), n)
    ensures Tally(Repeat(b, m), n) == Zeros(n)[TopChoice(b) := m]
  {
    TallyRepeat([], b, m, n);
    EmptyPrefix(Repeat(b, m));
    TallyNone(n);
  }

  lemma TallyNone(n: nat)
    requires n >= 1
    ensures Tally([], n) == Zeros(n)
  {
  }

  /** m - 1 votes added to t[c], and one more, are m votes added. */
  lemma AddOneMore(t: seq<int>, prev: seq<int>, next: seq<int>, c: nat, m: nat)
    requires c < |t| && m > 0
    requires prev == t[c := t[c] + (m - 1)] && next == prev[c := prev[c] + 1]
    ensures next == t[c := t[c] + m]
  {
  }

  /** The m-th copy of b adds one vote to its first choice. */
  lemma TallyOneMore(prefix: seq<seq<int>>, b: seq<int>, m: nat, n: nat)
    requires ValidBallots(prefix, n) && Scored(b, n) && m > 0
    ensures ValidBallots(prefix + Repeat(b, m - 1), n) && ValidBallots(prefix + Repeat(b, m), n)
    ensures var prev := Tally(prefix + Repeat(b, m - 1), n); var c := TopChoice(b);
      Tally(prefix + Repeat(b, m), n) == prev[c := prev[c] + 1]
  {
    RepeatValid(prefix, b, m, n);
    RepeatValid(prefix, b, m - 1, n);
    RepeatLast(prefix, b, m);
    TallyLast(prefix + Repeat(b, m), n, prefix + Repeat(b, m - 1), b);
  }

  /** The last ballot adds one vote to its first choice. */
  lemma TallyLast(ballots: seq<seq<int>>, n: nat, rest: seq<seq<int>>, last: seq<int>)
    requires ValidBallots(ballots, n) && ballots != []
    requires rest == ballots[..|ballots| - 1] && last == ballots[|ballots| - 1]
    ensures ValidBallots(rest, n) && |last| == n
    ensures var prev := Tally(rest, n); var t := TopChoice(last);
      Tally(ballots, n) == prev[t := prev[t] + 1]
  {
    ElectionPrefix(ballots, n, |ballots| - 1);
  }
}
