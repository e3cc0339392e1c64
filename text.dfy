/** Python string built-ins used by the converter, stated over characters:
    whitespace, strip(), split(sep), sep.join(), lower(), title(), the
    decimal digits matched by `\d` and read by int(), and str(n). */
module Text {

  /** The characters for which Python's str.isspace() holds; `\s` in a
      regular expression over str matches the same set. */
  predicate IsSpace(c: char) {
    || c == ' ' || '\t' <= c <= '\r' || '\U{1C}' <= c <= '\U{1F}'
    || c == '\U{85}' || c == '\U{A0}' || c == '\U{1680}'
    || '\U{2000}' <= c <= '\U{200A}' || c == '\U{2028}' || c == '\U{2029}'
    || c == '\U{202F}' || c == '\U{205F}' || c == '\U{3000}'
  }

  predicate IsDigit(c: char) { '0' <= c <= '9' }
  predicate IsUpper(c: char) { 'A' <= c <= 'Z' }
  predicate IsLower(c: char) { 'a' <= c <= 'z' }
  predicate IsLetter(c: char) { IsUpper(c) || IsLower(c) }

  function LowerChar(c: char): char {
    if IsUpper(c) then (c as int + 32) as char else c
  }

  function UpperChar(c: char): char {
    if IsLower(c) then (c as int - 32) as char else c
  }

  /** str.lower() on ASCII letters; every other character is kept. */
  function Lower(s: string): string {
    seq(|s|, i requires 0 <= i < |s| => LowerChar(s[i]))
  }

  /** str.title(): a letter that follows a cased character is lower-cased,
      every other character is upper-cased (a no-op unless it is a letter). */
  function Title(s: string): string {
    seq(|s|, i requires 0 <= i < |s| =>
      if i > 0 && IsLetter(s[i - 1]) then LowerChar(s[i]) else UpperChar(s[i]))
  }

  lemma LowerChars(s: string)
    ensures |Lower(s)| == |s|
    ensures forall k :: 0 <= k < |s| ==> (IsSpace(Lower(s)[k]) <==> IsSpace(s[k]))
    ensures forall k :: 0 <= k < |s| ==> (IsDigit(Lower(s)[k]) <==> IsDigit(s[k]))
    ensures forall k :: 0 <= k < |s| ==> (IsLetter(s[k]) <==> IsLower(Lower(s)[k]))
  {
  }

  lemma LowerOfTitle(s: string)
    ensures Lower(Title(s)) == Lower(s)
  {
  }

  lemma TitleOfLower(s: string)
    ensures Title(Lower(s)) == Title(s)
  {
  }

  lemma TitleChars(s: string)
    ensures |Title(s)| == |s|
    ensures forall k :: 0 <= k < |s| ==> (IsSpace(Title(s)[k]) <==> IsSpace(s[k]))
    ensures forall k :: 0 <= k < |s| ==> (IsDigit(Title(s)[k]) <==> IsDigit(s[k]))
    ensures forall k :: 0 <= k < |s| ==> (IsLetter(Title(s)[k]) <==> IsLetter(s[k]))
  {
  }

  /** Lower() keeps a string without upper-case letters as it is. */
  lemma LowerOfLower(s: string)
    requires forall k :: 0 <= k < |s| ==> !IsUpper(s[k])
    ensures Lower(s) == s
  {
  }

  function TrimLeft(s: string): (r: string)
    ensures |r| <= |s| && r == s[|s| - |r|..]
    ensures r == [] || !IsSpace(r[0])
    ensures forall i :: 0 <= i < |s| - |r| ==> IsSpace(s[i])
  {
    if |s| > 0 && IsSpace(s[0]) then TrimLeft(s[1..]) else s
  }

  function TrimRight(s: string): (r: string)
    ensures |r| <= |s| && r == s[..|r|]
    ensures r == [] || !IsSpace(r[|r| - 1])
    ensures forall i :: |r| <= i < |s| ==> IsSpace(s[i])
  {
    if |s| > 0 && IsSpace(s[|s| - 1]) then TrimRight(s[..|s| - 1]) else s
  }

  /** str.strip() with no argument. */
  function Strip(s: string): string {
    TrimRight(TrimLeft(s))
  }

  /** Neither begins nor ends with whitespace. */
  predicate Stripped(s: string) {
    s == [] || (!IsSpace(s[0]) && !IsSpace(s[|s| - 1]))
  }

  lemma StripFacts(s: string)
    ensures Stripped(Strip(s))
    ensures forall c :: c in Strip(s) ==> c in s
    ensures Strip(s) == [] <==> forall i :: 0 <= i < |s| ==> IsSpace(s[i])
  {
    var l := TrimLeft(s);
    var r := TrimRight(l);
    assert forall c :: c in r ==> c in l;
    if r != [] {
      assert r[0] == l[0];
    }
    if r == [] {
      assert l == [];
    }
  }

  lemma StripOfStripped(s: string)
    requires Stripped(s)
    ensures Strip(s) == s
  {
  }

  /** str.split(sep) with an explicit one-character separator: never empty,
      and "" splits into [""]. */
  function Split(s: string, sep: char): (parts: seq<string>)
    ensures |parts| >= 1
  {
    if s == [] then [[]]
    else
      var rest := Split(s[1..], sep);
      if s[0] == sep then [[]] + rest else [[s[0]] + rest[0]] + rest[1..]
  }

  lemma {:induction false} SplitParts(s: string, sep: char)
    ensures forall k :: 0 <= k < |Split(s, sep)| ==> sep !in Split(s, sep)[k]
    ensures forall k, c :: 0 <= k < |Split(s, sep)| && c in Split(s, sep)[k] ==> c in s
    ensures |Split(s, sep)| == 1 <==> sep !in s
  {
    if s != [] {
      SplitParts(s[1..], sep);
      var rest := Split(s[1..], sep);
      var parts := Split(s, sep);
      forall k, c | 0 <= k < |parts| && c in parts[k] ensures c in s {
        if s[0] == sep {
          assert c in rest[k - 1] && c in s[1..];
        } else if k == 0 {
          if c != s[0] {
            assert c in rest[0] && c in s[1..];
          }
        } else {
          assert c in rest[k] && c in s[1..];
        }
      }
    }
  }

  lemma {:induction false} SplitWithout(s: string, sep: char)
    requires sep !in s
    ensures Split(s, sep) == [s]
  {
    if s != [] {
      SplitWithout(s[1..], sep);
      assert [s[0]] + s[1..] == s;
    }
  }

  lemma {:induction false} SplitAt(a: string, sep: char, t: string)
    requires sep !in a
    ensures Split(a + [sep] + t, sep) == [a] + Split(t, sep)
  {
    if a != [] {
      assert (a + [sep] + t)[1..] == a[1..] + [sep] + t;
      SplitAt(a[1..], sep, t);
      assert [a[0]] + a[1..] == a;
    } else {
      assert (a + [sep] + t)[1..] == t;
    }
  }

  /** sep.join(parts). */
  function Join(parts: seq<string>, sep: char): string {
    if |parts| == 0 then []
    else if |parts| == 1 then parts[0]
    else parts[0] + [sep] + Join(parts[1..], sep)
  }

  lemma {:induction false} SplitJoin(parts: seq<string>, sep: char)
    requires |parts| >= 1
    requires forall k :: 0 <= k < |parts| ==> sep !in parts[k]
    ensures Split(Join(parts, sep), sep) == parts
  {
    if |parts| == 1 {
      SplitWithout(parts[0], sep);
    } else {
      SplitJoin(parts[1..], sep);
      SplitAt(parts[0], sep, Join(parts[1..], sep));
    }
  }

  lemma {:induction false} JoinChars(parts: seq<string>, sep: char, c: char)
    requires c in Join(parts, sep)
    ensures c == sep || exists k :: 0 <= k < |parts| && c in parts[k]
  {
    if |parts| > 1 {
      if c !in parts[0] && c != sep {
        JoinChars(parts[1..], sep, c);
        var k :| 0 <= k < |parts[1..]| && c in parts[1..][k];
        assert c in parts[k + 1];
      }
    }
  }

  lemma {:induction false} JoinHasSep(parts: seq<string>, sep: char)
    ensures sep in Join(parts, sep) <==> |parts| > 1 || exists k :: 0 <= k < |parts| && sep in parts[k]
  {
    if |parts| > 1 {
      assert sep in Join(parts, sep);
    } else if |parts| == 1 {
      assert Join(parts, sep) == parts[0];
    }
  }

  /** The longest prefix of ASCII decimal digits: what `^\d+` matches. */
  function DigitPrefix(s: string): (d: string)
    ensures |d| <= |s| && d == s[..|d|]
    ensures forall i :: 0 <= i < |d| ==> IsDigit(d[i])
    ensures |d| < |s| ==> !IsDigit(s[|d|])
  {
    if |s| > 0 && IsDigit(s[0]) then [s[0]] + DigitPrefix(s[1..]) else []
  }

  lemma {:induction false} DigitPrefixOf(d: string, t: string)
    requires forall i :: 0 <= i < |d| ==> IsDigit(d[i])
    requires t == [] || !IsDigit(t[0])
    ensures DigitPrefix(d + t) == d
  {
    if d != [] {
      assert (d + t)[1..] == d[1..] + t;
      DigitPrefixOf(d[1..], t);
    } else {
      assert d + t == t;
    }
  }

  predicate AllDigits(d: string) {
    forall i :: 0 <= i < |d| ==> IsDigit(d[i])
  }

  /** int(d) for a string of decimal digits. */
  function DigitsValue(d: string): nat
    requires AllDigits(d)
  {
    if d == [] then 0 else 10 * DigitsValue(d[..|d| - 1]) + (d[|d| - 1] as int - '0' as int)
  }

  /** str(n): the decimal digits of n, without leading zeros. */
  function NatToDigits(n: nat): (d: string)
    ensures |d| >= 1 && AllDigits(d)
    ensures DigitsValue(d) == n
  {
    if n < 10 then [('0' as int + n) as char]
    else
      var d := NatToDigits(n / 10) + [('0' as int + n % 10) as char];
      assert d[..|d| - 1] == NatToDigits(n / 10);
      d
  }

  predicate StrictlyIncreasing(s: seq<char>) {
    forall i, j :: 0 <= i < j < |s| ==> s[i] < s[j]
  }

  function InsertSorted(x: char, s: seq<char>): (r: seq<char>)
    requires StrictlyIncreasing(s)
    ensures StrictlyIncreasing(r)
    ensures forall c :: c in r <==> c in s || c == x
  {
    if s == [] then [x]
    else if x < s[0] then [x] + s
    else if x == s[0] then s
    else
      var inner := InsertSorted(x, s[1..]);
      assert forall c :: c in inner ==> s[0] < c;
      var r := [s[0]] + inner;
      assert forall c :: c in s <==> c == s[0] || c in s[1..];
      r
  }

  /** sorted(list(set(cs))): the distinct characters of cs, in increasing order. */
  function SortedDistinct(cs: seq<char>): (r: seq<char>)
    ensures StrictlyIncreasing(r)
    ensures forall c :: c in r <==> c in cs
  {
    if cs == [] then []
    else
      var r := InsertSorted(cs[|cs| - 1], SortedDistinct(cs[..|cs| - 1]));
      assert forall c :: c in cs <==> c in cs[..|cs| - 1] || c == cs[|cs| - 1];
      r
  }

  /** [x for _ in range(n)]. */
  function Repeat<T>(x: T, n: nat): (r: seq<T>)
    ensures |r| == n && forall k :: 0 <= k < n ==> r[k] == x
  {
    seq(n, _ => x)
  }

  lemma EmptyPrefix<T>(s: seq<T>)
    ensures [] + s == s
  {
  }

  /** Appending m copies of x: none leave the prefix alone, and the last of
      several is x after m - 1 copies. */
  lemma RepeatLast<T>(prefix: seq<T>, x: T, m: nat)
    ensures m == 0 ==> prefix + Repeat(x, m) == prefix
    ensures m > 0 ==> var all := prefix + Repeat(x, m);
      all[..|all| - 1] == prefix + Repeat(x, m - 1) && all[|all| - 1] == x
  {
    var all := prefix + Repeat(x, m);
    if m > 0 {
      assert all[..|all| - 1] == prefix + Repeat(x, m - 1);
    }
  }

  /** Appending one more x to a sequence ending in m - 1 copies of x (when
      keep holds, otherwise appending nothing to it) gives m copies. */
  lemma RepeatGrow<T>(front: seq<T>, prev: seq<T>, next: seq<T>, x: T, m: nat, keep: bool)
    requires m > 0
    requires prev == front + (if keep then Repeat(x, m - 1) else [])
    requires next == prev + (if keep then [x] else [])
    ensures next == front + (if keep then Repeat(x, m) else [])
  {
    if keep {
      assert next == front + (Repeat(x, m - 1) + [x]);
      assert Repeat(x, m - 1) + [x] == Repeat(x, m);
    } else {
      assert next == prev;
    }
  }

  /** Writing back the value already there changes nothing. */
  lemma UpdateSame<T>(s: seq<T>, i: nat)
    requires i < |s|
    ensures s[i := s[i]] == s
  {
  }

  /** An element of a non-empty sequence is in its front or is its last. */
  lemma InFrontOrLast<T>(s: seq<T>, x: T)
    requires s != []
    ensures x in s <==> x in s[..|s| - 1] || x == s[|s| - 1]
  {
    assert s == s[..|s| - 1] + [s[|s| - 1]];
  }

  /** A prefix grown by the next element. */
  lemma TakeOneMore<T>(s: seq<T>, i: nat)
    requires i < |s|
    ensures s[..i] + [s[i]] == s[..i + 1]
  {
  }
}
