/** The ballots of the tabulation script: one row of integer scores per
    voter, one column per candidate, and Python's max, min and list.index
    on such rows. */
module Election {
  /** Every ballot scores each of the n >= 1 candidates with a single digit,
      so the script's comparison of score strings is numeric order. */
  predicate ValidBallots(ballots: seq<seq<int>>, n: nat) {
    && n >= 1
    && forall k :: 0 <= k < |ballots| ==> |ballots[k]| == n && forall i :: 0 <= i < n ==> 0 <= ballots[k][i] <= 9
  }

  /** The largest of s[0], ..., s[k - 1]. */
  function MaxUpTo(s: seq<int>, k: nat): (m: int)
    requires 0 < k <= |s|
    ensures (exists i :: 0 <= i < k && s[i] == m) && forall i :: 0 <= i < k ==> s[i] <= m
  {
    if k == 1 then s[0]
    else
      var m := MaxUpTo(s, k - 1);
      if s[k - 1] > m then s[k - 1] else m
  }

  /** The smallest of s[0], ..., s[k - 1]. */
  function MinUpTo(s: seq<int>, k: nat): (m: int)
    requires 0 < k <= |s|
    ensures (exists i :: 0 <= i < k && s[i] == m) && forall i :: 0 <= i < k ==> m <= s[i]
  {
    if k == 1 then s[0]
    else
      var m := MinUpTo(s, k - 1);
      if s[k - 1] < m then s[k - 1] else m
  }

  /** Python's max(s). */
  function Max(s: seq<int>): (m: int)
    requires |s| > 0
    ensures m in s && forall i :: 0 <= i < |s| ==> s[i] <= m
  {
    MaxUpTo(s, |s|)
  }

  /** Python's min(s). */
  function Min(s: seq<int>): (m: int)
    requires |s| > 0
    ensures m in s && forall i :: 0 <= i < |s| ==> m <= s[i]
  {
    MinUpTo(s, |s|)
  }

  /** The scan of s.index(x) from position i on, knowing x is not earlier. */
  function IndexFrom(s: seq<int>, x: int, i: nat): (r: nat)
    requires x in s && i <= |s| && forall j :: 0 <= j < i ==> s[j] != x
    ensures i <= r < |s| && s[r] == x && forall j :: 0 <= j < r ==> s[j] != x
    decreases |s| - i
  {
    if s[i] == x then i else IndexFrom(s, x, i + 1)
  }

  /** Python's s.index(x): the first position holding x. */
  function IndexOf(s: seq<int>, x: int): (r: nat)
    requires x in s
    ensures r < |s| && s[r] == x && forall j :: 0 <= j < r ==> s[j] != x
  {
    IndexFrom(s, x, 0)
  }

  /** The first position of the largest of s[0], ..., s[k - 1], found by
      one scan that moves only on a strictly larger entry. */
  function FirstMaxUpTo(s: seq<int>, k: nat): (r: nat)
    requires 0 < k <= |s|
    ensures r < k
  {
    if k == 1 then 0
    else
      var j := FirstMaxUpTo(s, k - 1);
      if s[k - 1] > s[j] then k - 1 else j
  }

  /** The first position of the smallest of s[0], ..., s[k - 1]. */
  function FirstMinUpTo(s: seq<int>, k: nat): (r: nat)
    requires 0 < k <= |s|
    ensures r < k
  {
    if k == 1 then 0
    else
      var j := FirstMinUpTo(s, k - 1);
      if s[k - 1] < s[j] then k - 1 else j
  }

  /** The first position of the largest entry. */
  function FirstMax(s: seq<int>): (r: nat)
    requires |s| > 0
    ensures r < |s|
  {
    FirstMaxUpTo(s, |s|)
  }

  /** The first position of the smallest entry. */
  function FirstMin(s: seq<int>): (r: nat)
    requires |s| > 0
    ensures r < |s|
  {
    FirstMinUpTo(s, |s|)
  }

  lemma {:induction false} FirstMaxUpToBest(s: seq<int>, k: nat)
    requires 0 < k <= |s|
    ensures var r := FirstMaxUpTo(s, k);
      (forall j :: 0 <= j < k ==> s[j] <= s[r]) && (forall j :: 0 <= j < r ==> s[j] < s[r])
  {
    if k > 1 {
      FirstMaxUpToBest(s, k - 1);
    }
  }

  lemma {:induction false} FirstMinUpToBest(s: seq<int>, k: nat)
    requires 0 < k <= |s|
    ensures var r := FirstMinUpTo(s, k);
      (forall j :: 0 <= j < k ==> s[r] <= s[j]) && (forall j :: 0 <= j < r ==> s[r] < s[j])
  {
    if k > 1 {
      FirstMinUpToBest(s, k - 1);
    }
  }

  /** i is the first position of the largest entry exactly when s[i] is at
      least every entry and strictly above every entry before it. */
  lemma FirstMaxIff(s: seq<int>, i: nat)
    requires |s| > 0
    ensures FirstMax(s) == i <==>
      i < |s| && (forall j :: 0 <= j < |s| ==> s[j] <= s[i]) && (forall j :: 0 <= j < i ==> s[j] < s[i])
  {
    FirstMaxUpToBest(s, |s|);
  }

  /** i is the first position of the smallest entry exactly when s[i] is at
      most every entry and strictly below every entry before it. */
  lemma FirstMinIff(s: seq<int>, i: nat)
    requires |s| > 0
    ensures FirstMin(s) == i <==>
      i < |s| && (forall j :: 0 <= j < |s| ==> s[i] <= s[j]) && (forall j :: 0 <= j < i ==> s[i] < s[j])
  {
    FirstMinUpToBest(s, |s|);
  }

  /** The script's s.index(max(s)) is the first position of the largest
      entry. */
  lemma IndexOfMax(s: seq<int>)
    requires |s| > 0
    ensures IndexOf(s, Max(s)) == FirstMax(s)
  {
    FirstMaxIff(s, IndexOf(s, Max(s)));
  }

  /** The script's s.index(min(s)) is the first position of the smallest
      entry. */
  lemma IndexOfMin(s: seq<int>)
    requires |s| > 0
    ensures IndexOf(s, Min(s)) == FirstMin(s)
  {
    FirstMinIff(s, IndexOf(s, Min(s)));
  }

  /** A ballot's first choice: the first candidate with its highest score. */
  function TopChoice(b: seq<int>): nat
    requires |b| > 0
  {
    FirstMax(b)
  }

  /** Python's sum(s). */
  function Sum(s: seq<int>): int {
    if s == [] then 0 else Sum(s[..|s| - 1]) + s[|s| - 1]
  }

  lemma {:induction false} SumAppend(s: seq<int>, t: seq<int>)
    ensures Sum(s + t) == Sum(s) + Sum(t)
    decreases |t|
  {
    if t != [] {
      assert (s + t)[..|s + t| - 1] == s + t[..|t| - 1];
      SumAppend(s, t[..|t| - 1]);
    } else {
      assert s + t == s;
    }
  }

  /** Adding d at one position adds d to the sum. */
  lemma {:induction false} SumUpdate(s: seq<int>, i: nat, d: int)
    requires i < |s|
    ensures Sum(s[i := s[i] + d]) == Sum(s) + d
    decreases |s|
  {
    var t := s[i := s[i] + d];
    if i == |s| - 1 {
      assert t[..|t| - 1] == s[..|s| - 1];
    } else {
      assert t[..|t| - 1] == s[..|s| - 1][i := s[i] + d];
      SumUpdate(s[..|s| - 1], i, d);
    }
  }

  function Zeros(n: nat): (r: seq<int>)
    ensures |r| == n && forall i :: 0 <= i < n ==> r[i] == 0
  {
    seq(n, _ => 0)
  }

  lemma {:induction false} SumZeros(n: nat)
    ensures Sum(Zeros(n)) == 0
  {
    if n > 0 {
      assert Zeros(n)[..n - 1] == Zeros(n - 1);
      SumZeros(n - 1);
    }
  }
}
