/** The STAR block of the tabulation script: each candidate's score sum,
    the two candidates with the highest sums, and the automatic runoff
    between them. */
module Star {
  import opened Election
  import opened Plurality

  /** The counts list after adding each score of ballot b to its column. */
  function AddRow(sums: seq<int>, b: seq<int>): (r: seq<int>)
    requires |b| == |sums|
    ensures |r| == |sums| && forall i :: 0 <= i < |r| ==> r[i] == sums[i] + b[i]
  {
    seq(|sums|, i requires 0 <= i < |sums| => sums[i] + b[i])
  }

  /** The counts list after the summing loop over the ballots. */
  function ColumnSums(ballots: seq<seq<int>>, n: nat): (r: seq<int>)
    requires ValidBallots(ballots, n)
    ensures |r| == n
  {
    if ballots == [] then Zeros(n)
    else
      ElectionPrefix(ballots, n, |ballots| - 1);
      AddRow(ColumnSums(ballots[..|ballots| - 1], n), ballots[|ballots| - 1])
  }

  /** The scores the ballots give candidate i. */
  function Column(ballots: seq<seq<int>>, n: nat, i: nat): (r: seq<int>)
    requires ValidBallots(ballots, n) && i < n
    ensures |r| == |ballots| && forall k :: 0 <= k < |r| ==> r[k] == ballots[k][i]
  {
    seq(|ballots|, k requires 0 <= k < |ballots| => ballots[k][i])
  }

  /** Candidate i's sum is the sum of its column, between 0 and 9 per ballot. */
  lemma {:induction false} ColumnSumsColumn(ballots: seq<seq<int>>, n: nat, i: nat)
    requires ValidBallots(ballots, n) && i < n
    ensures ColumnSums(ballots, n)[i] == Sum(Column(ballots, n, i))
    ensures 0 <= ColumnSums(ballots, n)[i] <= 9 * |ballots|
  {
    if ballots == [] {
      assert Column(ballots, n, i) == [];
    } else {
      var last := |ballots| - 1;
      ElectionPrefix(ballots, n, last);
      ColumnSumsColumn(ballots[..last], n, i);
      assert Column(ballots, n, i)[..last] == Column(ballots[..last], n, i);
    }
  }

  /** The inner loop: adds each score of one ballot to its count. */
  method AddBallot(counts: array<int>, b: seq<int>)
    requires |b| == counts.Length
    modifies counts
    ensures counts[..] == AddRow(old(counts[..]), b)
  {
    ghost var before := counts[..];
    var i := 0;
    while i < |b|
      invariant 0 <= i <= |b|
      invariant forall j :: 0 <= j < i ==> counts[j] == before[j] + b[j]
      invariant forall j :: i <= j < |b| ==> counts[j] == before[j]
    {
      counts[i] := counts[i] + b[i];
      i := i + 1;
    }
  }

  /** The summing loop, on a fresh counts list. */
  method SumScores(ballots: seq<seq<int>>, n: nat) returns (counts: array<int>)
    requires ValidBallots(ballots, n)
    ensures fresh(counts) && counts[..] == ColumnSums(ballots, n)
  {
    counts := new int[n](_ => 0);
    var k := 0;
    while k < |ballots|
      invariant 0 <= k <= |ballots|
      invariant ValidBallots(ballots[..k], n)
      invariant counts[..] == ColumnSums(ballots[..k], n)
    {
      ElectionPrefix(ballots, n, k + 1);
      assert ballots[..k + 1][..k] == ballots[..k];
      AddBallot(counts, ballots[k]);
      k := k + 1;
    }
    assert ballots[..k] == ballots;
  }

  /** The top-two selection: highest is the first maximum; its entry is
      zeroed to find next_highest, then restored. */
  method TopTwo(counts: array<int>) returns (highest: nat, next: nat)
    requires counts.Length > 0
    modifies counts
    ensures counts[..] == old(counts[..])
    ensures highest == FirstMax(counts[..]) && next == FirstMax(counts[..][highest := 0])
    ensures highest < counts.Length && next < counts.Length
  {
    highest := IndexOf(counts[..], Max(counts[..]));
    IndexOfMax(counts[..]);
    var t := counts[highest];
    counts[highest] := 0;
    next := IndexOf(counts[..], Max(counts[..]));
    IndexOfMax(counts[..]);
    counts[highest] := t;
    assert counts[..] == old(counts[..]);
  }

  /** next_highest has the largest sum among the other candidates and is
      the first of them with it, unless it is highest itself; it is highest
      itself exactly when no other sum is positive and no earlier sum is 0. */
  lemma NextHighest(s: seq<int>, h: nat, x: nat)
    requires |s| > 0 && h == FirstMax(s) && x == FirstMax(s[h := 0])
    ensures h < |s| && x < |s| && forall c :: 0 <= c < |s| ==> s[c] <= s[h]
    ensures x != h ==> (forall c :: 0 <= c < |s| && c != h ==> s[c] <= s[x]) && (forall c :: 0 <= c < x && c != h ==> s[c] < s[x])
    ensures x == h <==> (forall c :: 0 <= c < |s| && c != h ==> s[c] <= 0) && (forall c :: 0 <= c < h ==> s[c] < 0)
  {
    FirstMaxIff(s, h);
    var z := s[h := 0];
    FirstMaxIff(z, x);
    FirstMaxIff(z, h);
    assert forall c :: 0 <= c < |s| && c != h ==> z[c] == s[c];
  }

  /** With nonnegative sums (every score is at least 0), next_highest is a
      different candidate whenever another candidate has a positive sum. */
  lemma NextDiffers(s: seq<int>, h: nat, x: nat, c: nat)
    requires |s| > 0 && h == FirstMax(s) && x == FirstMax(s[h := 0])
    requires forall i :: 0 <= i < |s| ==> s[i] >= 0
    requires c < |s| && c != h && s[c] > 0
    ensures x != h && s[x] >= s[c] && s[x] > 0
  {
    NextHighest(s, h, x);
  }

  /** With nonnegative sums, next_highest is the leader itself only when
      the leader is candidate 0 and every other sum is 0; when every other
      sum is 0 and the leader comes later, next_highest is candidate 0. */
  lemma NextWhenOthersZero(s: seq<int>, h: nat, x: nat)
    requires |s| > 0 && h == FirstMax(s) && x == FirstMax(s[h := 0])
    requires forall i :: 0 <= i < |s| ==> s[i] >= 0
    ensures x == h <==> h == 0 && forall c :: 0 < c < |s| ==> s[c] == 0
    ensures (forall c :: 0 <= c < |s| && c != h ==> s[c] == 0) && h != 0 ==> x == 0
  {
    NextHighest(s, h, x);
    if (forall c :: 0 <= c < |s| && c != h ==> s[c] == 0) && h != 0 {
      FirstMaxIff(s[h := 0], 0);
    }
  }

  /** The number of ballots scoring candidate x strictly above candidate y. */
  function Prefers(ballots: seq<seq<int>>, n: nat, x: nat, y: nat): (r: nat)
    requires ValidBallots(ballots, n) && x < n && y < n
    ensures r <= |ballots|
  {
    if ballots == [] then 0
    else
      var last := |ballots| - 1;
      ElectionPrefix(ballots, n, last);
      Prefers(ballots[..last], n, x, y) + (if ballots[last][x] > ballots[last][y] then 1 else 0)
  }

  /** The number of ballots scoring x and y equally. */
  function Indifferent(ballots: seq<seq<int>>, n: nat, x: nat, y: nat): (r: nat)
    requires ValidBallots(ballots, n) && x < n && y < n
    ensures r <= |ballots|
  {
    if ballots == [] then 0
    else
      var last := |ballots| - 1;
      ElectionPrefix(ballots, n, last);
      Indifferent(ballots[..last], n, x, y) + (if ballots[last][x] == ballots[last][y] then 1 else 0)
  }

  /** The ballots scoring x strictly above y. */
  function Supporters(ballots: seq<seq<int>>, x: nat, y: nat): set<nat> {
    set k: nat | k < |ballots| && x < |ballots[k]| && y < |ballots[k]| && ballots[k][x] > ballots[k][y]
  }

  /** Prefers counts exactly the ballots that score x above y. */
  lemma {:induction false} PrefersSupporters(ballots: seq<seq<int>>, n: nat, x: nat, y: nat)
    requires ValidBallots(ballots, n) && x < n && y < n
    ensures Prefers(ballots, n, x, y) == |Supporters(ballots, x, y)|
  {
    if ballots == [] {
      assert Supporters(ballots, x, y) == {};
    } else {
      var last := |ballots| - 1;
      ElectionPrefix(ballots, n, last);
      PrefersSupporters(ballots[..last], n, x, y);
      SupportersStep(ballots, n, x, y);
      assert last !in Supporters(ballots[..last], x, y);
    }
  }

  lemma SupportersStep(ballots: seq<seq<int>>, n: nat, x: nat, y: nat)
    requires ValidBallots(ballots, n) && ballots != [] && x < n && y < n
    ensures var last := |ballots| - 1;
      Supporters(ballots, x, y) == Supporters(ballots[..last], x, y) + (if ballots[last][x] > ballots[last][y] then {last} else {})
  {
    var last := |ballots| - 1;
    assert forall k :: 0 <= k < last ==> ballots[..last][k] == ballots[k];
  }

  /** Every ballot prefers one of the two or neither: the runoff counts and
      the no-preference count add up to the number of ballots. */
  lemma {:induction false} RunoffPartition(ballots: seq<seq<int>>, n: nat, x: nat, y: nat)
    requires ValidBallots(ballots, n) && x < n && y < n
    ensures Prefers(ballots, n, x, y) + Prefers(ballots, n, y, x) + Indifferent(ballots, n, x, y) == |ballots|
  {
    if ballots != [] {
      ElectionPrefix(ballots, n, |ballots| - 1);
      RunoffPartition(ballots[..|ballots| - 1], n, x, y);
    }
  }

  /** A candidate is never preferred to itself. */
  lemma {:induction false} PrefersSelf(ballots: seq<seq<int>>, n: nat, x: nat)
    requires ValidBallots(ballots, n) && x < n
    ensures Prefers(ballots, n, x, x) == 0 && Indifferent(ballots, n, x, x) == |ballots|
  {
    if ballots != [] {
      ElectionPrefix(ballots, n, |ballots| - 1);
      PrefersSelf(ballots[..|ballots| - 1], n, x);
    }
  }

  datatype RunoffResult = RunoffResult(highestCount: nat, nextCount: nat, noPreference: int, winner: nat)

  /** The automatic runoff between highest and next_highest. */
  method Runoff(ballots: seq<seq<int>>, n: nat, highest: nat, next: nat, totalVotes: int) returns (r: RunoffResult)
    requires ValidBallots(ballots, n) && highest < n && next < n
    ensures r.highestCount == |Supporters(ballots, highest, next)|
    ensures r.nextCount == |Supporters(ballots, next, highest)|
    ensures r.highestCount + r.nextCount + r.noPreference == totalVotes
    ensures r.highestCount > r.nextCount ==> r.winner == highest
    ensures r.highestCount <= r.nextCount ==> r.winner == next
  {
    var highestCount := 0;
    var nextCount := 0;
    var k := 0;
    while k < |ballots|
      invariant 0 <= k <= |ballots|
      invariant ValidBallots(ballots[..k], n)
      invariant highestCount == Prefers(ballots[..k], n, highest, next)
      invariant nextCount == Prefers(ballots[..k], n, next, highest)
    {
      ElectionPrefix(ballots, n, k + 1);
      assert ballots[..k + 1][..k] == ballots[..k];
      if ballots[k][highest] > ballots[k][next] {
        highestCount := highestCount + 1;
      }
      if ballots[k][highest] < ballots[k][next] {
        nextCount := nextCount + 1;
      }
      k := k + 1;
    }
    assert ballots[..k] == ballots;
    PrefersSupporters(ballots, n, highest, next);
    PrefersSupporters(ballots, n, next, highest);
    var noPreference := totalVotes - highestCount - nextCount;
    var winner := if highestCount > nextCount then highest else next;
    r := RunoffResult(highestCount, nextCount, noPreference, winner);
  }

  /** When total_votes is the number of ballots, the no-preference count is
      the number of ballots scoring the two equally, so it is never negative. */
  lemma NoPreference(ballots: seq<seq<int>>, n: nat, x: nat, y: nat)
    requires ValidBallots(ballots, n) && x < n && y < n
    ensures |ballots| - |Supporters(ballots, x, y)| - |Supporters(ballots, y, x)| == Indifferent(ballots, n, x, y) >= 0
  {
    RunoffPartition(ballots, n, x, y);
    PrefersSupporters(ballots, n, x, y);
    PrefersSupporters(ballots, n, y, x);
  }

  /** The STAR block's results. */
  datatype StarResult = StarResult(sums: seq<int>, highest: nat, next: nat, runoff: RunoffResult)

  /** What the STAR block computes from the ballots: the column sums, the
      first maximum as highest, the first maximum once highest's sum is
      zeroed as next_highest, the runoff counts of strict preferences, and
      the winner, which is highest only with strictly more runoff votes. */
  predicate StarOutcome(ballots: seq<seq<int>>, n: nat, r: StarResult)
    requires ValidBallots(ballots, n)
  {
    && r.sums == ColumnSums(ballots, n)
    && r.highest == FirstMax(r.sums) && r.next == FirstMax(r.sums[r.highest := 0])
    && r.highest < n && r.next < n
    && r.runoff.highestCount == Prefers(ballots, n, r.highest, r.next)
    && r.runoff.nextCount == Prefers(ballots, n, r.next, r.highest)
    && r.runoff.noPreference == Indifferent(ballots, n, r.highest, r.next)
    && r.runoff.winner == (if r.runoff.highestCount > r.runoff.nextCount then r.highest else r.next)
  }

  /** The whole STAR block: sums, top two and runoff. */
  method RunStar(ballots: seq<seq<int>>, n: nat, totalVotes: int) returns (r: StarResult)
    requires ValidBallots(ballots, n) && totalVotes == |ballots|
    ensures StarOutcome(ballots, n, r)
  {
    var counts := SumScores(ballots, n);
    var highest, next := TopTwo(counts);
    var runoff := Runoff(ballots, n, highest, next, totalVotes);
    PrefersSupporters(ballots, n, highest, next);
    PrefersSupporters(ballots, n, next, highest);
    RunoffPartition(ballots, n, highest, next);
    r := StarResult(counts[..], highest, next, runoff);
  }
}
