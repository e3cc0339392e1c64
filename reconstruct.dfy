/** reconstruct_ballot_string and the grouping of print_compressed_ranks:
    ballots written back as rank lines, and the lines parsed again. */
module Reconstruct {
  import opened Text
  import opened Parsing
  import opened ParsingLemmas

  /** Every id of the ballot has a display name. */
  predicate Registered(b: Ballot, reg: Registry) {
    forall g, i :: 0 <= g < |b| && 0 <= i < |b[g]| ==> b[g][i] in reg
  }

  function DisplayNames(group: seq<string>, reg: Registry): (r: seq<string>)
    requires forall i :: 0 <= i < |group| ==> group[i] in reg
    ensures |r| == |group|
  {
    seq(|group|, i requires 0 <= i < |group| => reg[group[i]])
  }

  function GroupStrings(b: Ballot, reg: Registry): (r: seq<string>)
    requires Registered(b, reg)
    ensures |r| == |b|
  {
    seq(|b|, g requires 0 <= g < |b| => Join(DisplayNames(b[g], reg), '='))
  }

  /** Display names joined by '=' within a group and by '>' between groups. */
  function ReconstructBallotString(b: Ballot, reg: Registry): string
    requires Registered(b, reg)
  {
    Join(GroupStrings(b, reg), '>')
  }

  /** What a registry entry looks like: non-empty, stripped, and made of
      letters, digits and blanks. */
  predicate DisplayLike(s: string) {
    s != [] && Stripped(s) && forall c :: c in s ==> IsLetter(c) || IsDigit(c) || IsSpace(c)
  }

  /** A ballot the converter can hold: well formed, every id registered, and
      the registry consistent. */
  ghost predicate Reconstructible(b: Ballot, reg: Registry) {
    WellFormed(b) && Consistent(reg) && Registered(b, reg)
  }

  lemma DisplayOfId(id: string)
    requires ValidId(id)
    ensures DisplayLike(Title(id))
    ensures NormalizeName(Title(id)) == (id, Title(id))
  {
    var t := Title(id);
    TitleChars(id);
    forall c | c in t ensures IsLetter(c) || IsDigit(c) || IsSpace(c) {
      var k :| 0 <= k < |t| && t[k] == c;
      assert IsLetter(id[k]) || IsDigit(id[k]) || IsSpace(id[k]);
    }
    assert Stripped(t) by {
      assert !IsSpace(id[0]) && !IsSpace(id[|id| - 1]);
    }
    StripOfStripped(t);
    LowerOfTitle(id);
    LowerOfLower(id);
    TitleOfLower(t);
  }

  lemma {:induction false} JoinEnds(parts: seq<string>, sep: char)
    requires |parts| >= 1 && forall k :: 0 <= k < |parts| ==> parts[k] != []
    ensures Join(parts, sep) != []
    ensures Join(parts, sep)[0] == parts[0][0]
    ensures Join(parts, sep)[|Join(parts, sep)| - 1] == parts[|parts| - 1][|parts[|parts| - 1]| - 1]
  {
    if |parts| > 1 {
      JoinEnds(parts[1..], sep);
    }
  }

  /** Joining display names with a non-blank separator gives a non-empty,
      stripped string of their characters and the separator. */
  lemma JoinDisplays(parts: seq<string>, sep: char)
    requires |parts| >= 1 && forall k :: 0 <= k < |parts| ==> DisplayLike(parts[k])
    requires !IsSpace(sep)
    ensures Join(parts, sep) != [] && Stripped(Join(parts, sep))
    ensures forall c :: c in Join(parts, sep) ==> c == sep || IsLetter(c) || IsDigit(c) || IsSpace(c)
  {
    JoinEnds(parts, sep);
    var j := Join(parts, sep);
    assert parts[0][0] in parts[0];
    var last := parts[|parts| - 1];
    assert last[|last| - 1] in last;
    forall c | c in j ensures c == sep || IsLetter(c) || IsDigit(c) || IsSpace(c) {
      JoinChars(parts, sep, c);
    }
  }

  lemma GroupDisplays(b: Ballot, g: nat, reg: Registry)
    requires Reconstructible(b, reg) && g < |b|
    ensures forall k :: 0 <= k < |b[g]| ==> DisplayNames(b[g], reg)[k] == Title(b[g][k])
    ensures forall k :: 0 <= k < |b[g]| ==> DisplayLike(DisplayNames(b[g], reg)[k])
    ensures forall k :: 0 <= k < |b[g]| ==> '=' !in DisplayNames(b[g], reg)[k] && '>' !in DisplayNames(b[g], reg)[k]
  {
    forall k | 0 <= k < |b[g]| ensures DisplayLike(Title(b[g][k])) {
      DisplayOfId(b[g][k]);
    }
  }

  /** The ids of group from index j on. */
  function Rest(group: seq<string>, j: nat): set<string> {
    set k | j <= k < |group| :: group[k]
  }

  /** The ids of the groups from index i on. */
  function IdsFrom(b: Ballot, i: nat): set<string> {
    set g, k | i <= g < |b| && 0 <= k < |b[g]| :: b[g][k]
  }

  lemma {:induction false} ScanDisplays(group: seq<string>, j: nat, seen: set<string>, reg: Registry)
    requires j <= |group| && Consistent(reg)
    requires forall k :: 0 <= k < |group| ==> group[k] in reg && ValidId(group[k])
    requires forall k1, k2 :: 0 <= k1 < k2 < |group| ==> group[k1] != group[k2]
    requires forall k :: j <= k < |group| ==> group[k] !in seen
    ensures ScanNames(DisplayNames(group, reg), j, group[..j], seen, reg) == Done(group, seen + Rest(group, j), reg)
    decreases |group| - j
  {
    if j < |group| {
      var id := group[j];
      DisplayOfId(id);
      assert DisplayNames(group, reg)[j] == Title(id);
      StripOfStripped(Title(id));
      assert reg[id := Title(id)] == reg;
      TakeOneMore(group, j);
      RestStep(group, j, seen);
      ScanDisplays(group, j + 1, seen + {id}, reg);
    } else {
      assert group[..j] == group;
      assert Rest(group, j) == {};
    }
  }

  lemma RestStep(group: seq<string>, j: nat, seen: set<string>)
    requires j < |group|
    ensures seen + {group[j]} + Rest(group, j + 1) == seen + Rest(group, j)
  {
  }

  lemma DistinctInGroup(b: Ballot, g: nat)
    requires Distinct(b) && g < |b|
    ensures forall k1, k2 :: 0 <= k1 < k2 < |b[g]| ==> b[g][k1] != b[g][k2]
  {
  }

  lemma DistinctLater(b: Ballot, i: nat)
    requires Distinct(b) && i < |b|
    ensures forall g, k :: i < g < |b| && 0 <= k < |b[g]| ==> b[g][k] !in Rest(b[i], 0)
  {
    forall g, k | i < g < |b| && 0 <= k < |b[g]| ensures b[g][k] !in Rest(b[i], 0) {
      forall k' | 0 <= k' < |b[i]| ensures b[i][k'] != b[g][k] {
      }
    }
  }

  /** One group string is read back as that very group. */
  lemma GroupStep(b: Ballot, i: nat, seen: set<string>, reg: Registry)
    requires i < |b| && Reconstructible(b, reg)
    requires forall g, k :: i <= g < |b| && 0 <= k < |b[g]| ==> b[g][k] !in seen
    ensures ScanRanks(GroupStrings(b, reg), i, b[..i], seen, reg) ==
            ScanRanks(GroupStrings(b, reg), i + 1, b[..i + 1], seen + Rest(b[i], 0), reg)
  {
    var gs := GroupStrings(b, reg);
    var names := DisplayNames(b[i], reg);
    GroupDisplays(b, i, reg);
    JoinDisplays(names, '=');
    StripOfStripped(gs[i]);
    JoinHasSep(names, '=');
    TakeOneMore(b, i);
    if |b[i]| > 1 {
      SplitJoin(names, '=');
      DistinctInGroup(b, i);
      assert forall k :: 0 <= k < |b[i]| ==> b[i][k] in reg && ValidId(b[i][k]);
      ScanDisplays(b[i], 0, seen, reg);
      assert b[i][..0] == [];
    } else {
      var id := b[i][0];
      assert gs[i] == Title(id);
      DisplayOfId(id);
      assert reg[id := Title(id)] == reg;
      assert Rest(b[i], 0) == {id};
      assert b[i] == [id];
    }
  }

  lemma {:induction false} ScanGroups(b: Ballot, i: nat, seen: set<string>, reg: Registry)
    requires i <= |b| && Reconstructible(b, reg)
    requires forall g, k :: i <= g < |b| && 0 <= k < |b[g]| ==> b[g][k] !in seen
    ensures ScanRanks(GroupStrings(b, reg), i, b[..i], seen, reg) == Done(b, seen + IdsFrom(b, i), reg)
    decreases |b| - i
  {
    if i < |b| {
      GroupStep(b, i, seen, reg);
      LaterUnseen(b, i, seen);
      ScanGroups(b, i + 1, seen + Rest(b[i], 0), reg);
      IdsFromStep(b, i, seen);
    } else {
      assert b[..i] == b;
      assert IdsFrom(b, i) == {};
    }
  }

  /** After group i, the later groups are still unseen. */
  lemma LaterUnseen(b: Ballot, i: nat, seen: set<string>)
    requires Distinct(b) && i < |b|
    requires forall g, k :: i <= g < |b| && 0 <= k < |b[g]| ==> b[g][k] !in seen
    ensures forall g, k :: i + 1 <= g < |b| && 0 <= k < |b[g]| ==> b[g][k] !in seen + Rest(b[i], 0)
  {
    DistinctLater(b, i);
  }

  lemma IdsFromStep(b: Ballot, i: nat, seen: set<string>)
    requires i < |b|
    ensures seen + Rest(b[i], 0) + IdsFrom(b, i + 1) == seen + IdsFrom(b, i)
  {
    forall x | x in IdsFrom(b, i) ensures x in Rest(b[i], 0) + IdsFrom(b, i + 1) {
      var g, k :| i <= g < |b| && 0 <= k < |b[g]| && b[g][k] == x;
      if g > i {
        assert x in IdsFrom(b, i + 1);
      }
    }
  }

  /** One group string: stripped, non-empty, without '>', and with '='
      exactly when the group is a tie. */
  lemma GroupStringFacts(b: Ballot, g: nat, reg: Registry)
    requires Reconstructible(b, reg) && g < |b|
    ensures var t := GroupStrings(b, reg)[g];
      && t != [] && Stripped(t) && '>' !in t
      && (forall c :: c in t ==> c == '=' || IsLetter(c) || IsDigit(c) || IsSpace(c))
      && ('=' in t <==> |b[g]| > 1)
  {
    GroupDisplays(b, g, reg);
    var parts := DisplayNames(b[g], reg);
    assert GroupStrings(b, reg)[g] == Join(parts, '=');
    JoinDisplays(parts, '=');
    GroupSeparators(parts);
  }

  /** Names free of both separators, joined by '=': no '>' appears, and '='
      appears exactly when there are several names. */
  lemma GroupSeparators(parts: seq<string>)
    requires forall k :: 0 <= k < |parts| ==> '=' !in parts[k] && '>' !in parts[k]
    ensures '>' !in Join(parts, '=')
    ensures '=' in Join(parts, '=') <==> |parts| > 1
  {
    JoinHasSep(parts, '>');
    JoinHasSep(parts, '=');
  }

  /** The reconstructed string: non-empty, stripped, legal, without '#' or ':'. */
  lemma ReconstructShape(b: Ballot, reg: Registry)
    requires Reconstructible(b, reg)
    ensures var s := ReconstructBallotString(b, reg);
      && s != [] && Stripped(s)
      && (forall c :: c in s ==> IsLegal(c))
      && '#' !in s && ':' !in s
  {
    var gs := GroupStrings(b, reg);
    var s := Join(gs, '>');
    forall g | 0 <= g < |b|
      ensures gs[g] != [] && Stripped(gs[g])
      ensures forall c :: c in gs[g] ==> c == '=' || IsLetter(c) || IsDigit(c) || IsSpace(c)
    {
      GroupStringFacts(b, g, reg);
    }
    JoinEnds(gs, '>');
    assert !IsSpace(s[0]) by {
      assert gs[0][0] in gs[0];
    }
    assert !IsSpace(s[|s| - 1]) by {
      var last := gs[|gs| - 1];
      assert last[|last| - 1] in last;
    }
    forall c | c in s ensures c == '>' || c == '=' || IsLetter(c) || IsDigit(c) || IsSpace(c) {
      JoinChars(gs, '>', c);
    }
    MarksIllegal();
  }

  /** The string holds '=' exactly when the ballot holds a tie. */
  lemma ReconstructTies(b: Ballot, reg: Registry)
    requires Reconstructible(b, reg)
    ensures '=' in ReconstructBallotString(b, reg) <==> exists g :: 0 <= g < |b| && |b[g]| > 1
  {
    var gs := GroupStrings(b, reg);
    if '=' in Join(gs, '>') {
      JoinChars(gs, '>', '=');
      var g :| 0 <= g < |gs| && '=' in gs[g];
      GroupStringFacts(b, g, reg);
    }
    if exists g :: 0 <= g < |b| && |b[g]| > 1 {
      var g :| 0 <= g < |b| && |b[g]| > 1;
      GroupStringFacts(b, g, reg);
      JoinContains(gs, '>', g, '=');
    }
  }

  /** The rank loop reads the groups back and registers nothing new. */
  lemma ReconstructScan(b: Ballot, reg: Registry)
    requires Reconstructible(b, reg)
    ensures ScanRanks(Split(ReconstructBallotString(b, reg), '>'), 0, [], {}, reg) == Done(b, IdSet(b), reg)
  {
    var gs := GroupStrings(b, reg);
    forall g | 0 <= g < |b| ensures '>' !in gs[g] {
      GroupStringFacts(b, g, reg);
    }
    SplitJoin(gs, '>');
    assert Split(ReconstructBallotString(b, reg), '>') == gs;
    ScanGroups(b, 0, {}, reg);
    assert b[..0] == [];
    IdsFromAll(b);
  }

  lemma IdsFromAll(b: Ballot)
    ensures {} + IdsFrom(b, 0) == IdSet(b)
  {
  }

  /** parse_line of the body of a reconstructed ballot with weight m. */
  lemma ReconstructContent(b: Ballot, reg: Registry, strict: bool, m: nat)
    requires Reconstructible(b, reg)
    requires strict ==> forall g :: 0 <= g < |b| ==> |b[g]| == 1
    ensures ParseContent(ReconstructBallotString(b, reg), m, strict, reg) == Parsed(Copies(Repeat(b, m)), reg)
  {
    var s := ReconstructBallotString(b, reg);
    ReconstructShape(b, reg);
    ReconstructTies(b, reg);
    ReconstructScan(b, reg);
    IllegalCharsEmpty(s);
  }

  lemma {:induction false} JoinContains(parts: seq<string>, sep: char, g: nat, c: char)
    requires g < |parts| && c in parts[g]
    ensures c in Join(parts, sep)
  {
    if g > 0 {
      JoinContains(parts[1..], sep, g - 1, c);
    }
  }

  /** parse_line on a reconstructed ballot gives the ballot back and leaves the
      registry as it was; strict mode needs a ballot without ties. */
  lemma RoundTrip(b: Ballot, reg: Registry, strict: bool)
    requires Reconstructible(b, reg)
    requires strict ==> forall g :: 0 <= g < |b| ==> |b[g]| == 1
    ensures ParseLine(ReconstructBallotString(b, reg), strict, reg) == Parsed(Copies([b]), reg)
  {
    var s := ReconstructBallotString(b, reg);
    ReconstructShape(b, reg);
    StripOfStripped(s);
    assert BeforeComment(s) == s;
    IllegalCharsEmpty(s);
    UnprefixedContent(s);
    assert ParseLine(s, strict, reg) == ParseContent(s, 1, strict, reg);
    ReconstructContent(b, reg, strict, 1);
    assert Repeat(b, 1) == [b];
  }

  /** Distinct well-formed ballots never share a reconstructed string. */
  lemma ReconstructInjective(b1: Ballot, b2: Ballot, reg: Registry)
    requires Reconstructible(b1, reg) && Reconstructible(b2, reg)
    requires ReconstructBallotString(b1, reg) == ReconstructBallotString(b2, reg)
    ensures b1 == b2
  {
    RoundTrip(b1, reg, false);
    RoundTrip(b2, reg, false);
  }

  /** A count, ':' and a clean ballot string form a line with no comment
      and no surrounding blanks. */
  lemma PrefixedLineClean(d: string, s: string)
    requires d != [] && AllDigits(d)
    requires s != [] && Stripped(s) && '#' !in s
    ensures BeforeComment(d + [':'] + s) == d + [':'] + s
    ensures Strip(d + [':'] + s) == d + [':'] + s
  {
    var line := d + [':'] + s;
    assert line[0] == d[0] && line[|line| - 1] == s[|s| - 1];
    StripOfStripped(line);
    forall k | 0 <= k < |line| ensures line[k] != '#' {
      if k >= |d| + 1 {
        assert line[k] == s[k - |d| - 1];
      } else if k < |d| {
        assert IsDigit(line[k]);
      }
    }
  }

  /** The compressed form "N:line" parses to N copies. */
  lemma WeightedRoundTrip(b: Ballot, reg: Registry, strict: bool, n: nat)
    requires Reconstructible(b, reg) && n >= 1
    requires '\n' !in ReconstructBallotString(b, reg)
    requires strict ==> forall g :: 0 <= g < |b| ==> |b[g]| == 1
    ensures ParseLine(NatToDigits(n) + [':'] + ReconstructBallotString(b, reg), strict, reg) ==
            Parsed(Copies(Repeat(b, n)), reg)
  {
    var s := ReconstructBallotString(b, reg);
    var d := NatToDigits(n);
    ReconstructShape(b, reg);
    PrefixedBody(d, s);
    StripOfStripped(s);
    PrefixedLineClean(d, s);
    ReconstructContent(b, reg, strict, n);
  }
}
