/** The line parser of the rank converter: parse_line as a pure function of
    the line, the strict flag and the candidate registry it updates. */
module Parsing {
  import opened Text

  /** A ballot is a list of rank groups; a group lists the canonical ids
      tied at that position. */
  type Ballot = seq<seq<string>>

  /** all_candidates: canonical id to display name. */
  type Registry = map<string, string>

  /** One variant per raise site of parse_line. */
  datatype ParseError =
    | InvalidMultiplier
    | IllegalChar(chars: seq<char>)
    | TiesNotAllowed
    | EmptySlot
    | EmptyTieSlot
    | Duplicate(display: string)

  /** None (blank or comment line), the weight-expanded copies, or an error. */
  datatype LineResult = Skip | Copies(ballots: seq<Ballot>) | Fail(error: ParseError)

  /** What parse_line returns together with all_candidates afterwards: the
      registry is written name by name, so it is changed even when a later
      name of the same line raises. */
  datatype Parsed = Parsed(result: LineResult, registry: Registry)

  /** The state of the loop over rank groups or tied names when it ends. */
  datatype Scan<T> =
    | Done(value: T, seen: set<string>, registry: Registry)
    | Stopped(error: ParseError, registry: Registry)

  /** normalize_name: (canonical id, display name). */
  function NormalizeName(name: string): (string, string) {
    var clean := Strip(name);
    (Lower(clean), Title(clean))
  }

  /** The characters of `^[A-Za-z0-9\s>=]+$`. */
  predicate IsLegal(c: char) {
    IsLetter(c) || IsDigit(c) || IsSpace(c) || c == '>' || c == '='
  }

  /** The comment and multiplier marks are not legal rank characters. */
  lemma MarksIllegal()
    ensures !IsLegal('#') && !IsLegal(':')
  {
  }

  /** re.findall(r'[^A-Za-z0-9\s>=]', s). */
  function IllegalChars(s: string): (r: seq<char>)
    ensures forall c :: c in r <==> c in s && !IsLegal(c)
  {
    if s == [] then []
    else
      var r := IllegalChars(s[..|s| - 1]) + (if IsLegal(s[|s| - 1]) then [] else [s[|s| - 1]]);
      assert forall c :: c in s <==> c in s[..|s| - 1] || c == s[|s| - 1];
      r
  }

  /** line.split('#')[0] when the line holds a '#'. */
  function BeforeComment(line: string): string {
    if '#' in line then Split(line, '#')[0] else line
  }

  /** What `.` matches: the text up to the first newline. */
  function UpToNewline(s: string): string {
    if '\n' in s then Split(s, '\n')[0] else s
  }

  /** `^(\d+):` matches: a non-empty run of digits directly followed by ':'. */
  predicate HasMultiplier(body: string) {
    var d := DigitPrefix(body);
    |d| > 0 && |d| < |body| && body[|d|] == ':'
  }

  function Multiplier(body: string): nat {
    if HasMultiplier(body) then DigitsValue(DigitPrefix(body)) else 1
  }

  /** rank_content: the stripped text after `N:`, or the whole body. */
  function Content(body: string): string {
    if HasMultiplier(body) then Strip(UpToNewline(body[|DigitPrefix(body)| + 1..])) else body
  }

  /** The tied names of one group, from index j on: each is stripped, must be
      non-empty and new to the ballot, and is registered at once. */
  function ScanNames(names: seq<string>, j: nat, group: seq<string>, seen: set<string>, reg: Registry): Scan<seq<string>>
    requires j <= |names|
    decreases |names| - j
  {
    if j == |names| then Done(group, seen, reg)
    else
      var name := Strip(names[j]);
      if name == [] then Stopped(EmptyTieSlot, reg)
      else
        var (cid, display) := NormalizeName(name);
        if cid in seen then Stopped(Duplicate(display), reg)
        else ScanNames(names, j + 1, group + [cid], seen + {cid}, reg[cid := display])
  }

  /** The '>'-separated rank strings from index i on. */
  function ScanRanks(ranks: seq<string>, i: nat, ballot: Ballot, seen: set<string>, reg: Registry): Scan<Ballot>
    requires i <= |ranks|
    decreases |ranks| - i
  {
    if i == |ranks| then Done(ballot, seen, reg)
    else
      var rankStr := Strip(ranks[i]);
      if rankStr == [] then Stopped(EmptySlot, reg)
      else if '=' in rankStr then
        match ScanNames(Split(rankStr, '='), 0, [], seen, reg)
        case Stopped(e, reg') => Stopped(e, reg')
        case Done(group, seen', reg') => ScanRanks(ranks, i + 1, ballot + [group], seen', reg')
      else
        var (cid, display) := NormalizeName(rankStr);
        if cid in seen then Stopped(Duplicate(display), reg)
        else ScanRanks(ranks, i + 1, ballot + [[cid]], seen + {cid}, reg[cid := display])
  }

  /** parse_line after the comment is cut and the line stripped (body != ""). */
  function ParseBody(body: string, strict: bool, reg: Registry): Parsed {
    if HasMultiplier(body) && Multiplier(body) < 1 then Parsed(Fail(InvalidMultiplier), reg)
    else ParseContent(Content(body), Multiplier(body), strict, reg)
  }

  /** The checks on rank_content and the rank loop, for a weight m. */
  function ParseContent(content: string, m: nat, strict: bool, reg: Registry): Parsed {
    if content == [] || IllegalChars(content) != [] then
      Parsed(Fail(IllegalChar(SortedDistinct(IllegalChars(content)))), reg)
    else if strict && '=' in content then Parsed(Fail(TiesNotAllowed), reg)
    else
      match ScanRanks(Split(content, '>'), 0, [], {}, reg)
      case Stopped(e, reg') => Parsed(Fail(e), reg')
      case Done(b, _, reg') => Parsed(Copies(Repeat(b, m)), reg')
  }

  /** parse_line(line) with the registry before and after. */
  function ParseLine(line: string, strict: bool, reg: Registry): Parsed {
    var body := Strip(BeforeComment(line));
    if body == [] then Parsed(Skip, reg) else ParseBody(body, strict, reg)
  }

  // ---------------------------------------------------------------------
  // Well-formed ballots and registries

  /** A canonical id: non-empty, stripped, lower-case letters, digits and blanks. */
  predicate ValidId(id: string) {
    && id != []
    && Stripped(id)
    && forall k :: 0 <= k < |id| ==> IsLower(id[k]) || IsDigit(id[k]) || IsSpace(id[k])
  }

  /** No id occurs at two positions of the ballot. */
  ghost predicate Distinct(b: Ballot) {
    forall g1, i1, g2, i2 ::
      (0 <= g1 < |b| && 0 <= i1 < |b[g1]| && 0 <= g2 < |b| && 0 <= i2 < |b[g2]| &&
       b[g1][i1] == b[g2][i2]) ==> g1 == g2 && i1 == i2
  }

  ghost predicate ValidIds(b: Ballot) {
    forall g, i :: 0 <= g < |b| && 0 <= i < |b[g]| ==> ValidId(b[g][i])
  }

  ghost predicate NonEmptyGroups(b: Ballot) {
    forall g :: 0 <= g < |b| ==> b[g] != []
  }

  ghost predicate WellFormed(b: Ballot) {
    b != [] && NonEmptyGroups(b) && ValidIds(b) && Distinct(b)
  }

  ghost function IdSet(b: Ballot): set<string> {
    set g, i | 0 <= g < |b| && 0 <= i < |b[g]| :: b[g][i]
  }

  /** Every display name is the title form of its id. */
  ghost predicate Consistent(reg: Registry) {
    forall k :: k in reg ==> reg[k] == Title(k)
  }

  /** reg1 extends reg0; every entry is reg0's or the title form of its id. */
  ghost predicate Grown(reg0: Registry, reg1: Registry) {
    && reg0.Keys <= reg1.Keys
    && forall k :: k in reg1 ==> (k in reg0 && reg1[k] == reg0[k]) || reg1[k] == Title(k)
  }

  /** The ballot built so far, the ids seen and the registry written so far. */
  ghost predicate Partial(b: Ballot, seen: set<string>, reg0: Registry, reg: Registry) {
    && ValidIds(b)
    && Distinct(b)
    && seen == IdSet(b)
    && reg.Keys == reg0.Keys + seen
    && (forall k :: k in seen ==> reg[k] == Title(k))
    && (forall k :: k in reg0 && k !in seen ==> reg[k] == reg0[k])
  }

  // ---------------------------------------------------------------------
  // Lemmas

  /** The canonical id is the lower-cased display name, and the display name
      is the title form of the id. */
  lemma NormalizedId(name: string)
    ensures NormalizeName(name).0 == Lower(NormalizeName(name).1)
    ensures NormalizeName(name).1 == Title(NormalizeName(name).0)
  {
    LowerOfTitle(Strip(name));
    TitleOfLower(Strip(name));
  }

  /** Lower-casing a clean name of letters, digits and blanks gives an id. */
  lemma LowerValid(clean: string)
    requires clean != [] && Stripped(clean)
    requires forall k :: 0 <= k < |clean| ==> IsLetter(clean[k]) || IsDigit(clean[k]) || IsSpace(clean[k])
    ensures ValidId(Lower(clean))
  {
    LowerChars(clean);
    assert !IsSpace(clean[0]) && !IsSpace(clean[|clean| - 1]);
  }

  lemma IdOfName(raw: string)
    requires Strip(raw) != []
    requires forall c :: c in raw ==> IsLetter(c) || IsDigit(c) || IsSpace(c)
    ensures ValidId(NormalizeName(raw).0)
    ensures NormalizeName(raw).1 == Title(NormalizeName(raw).0)
  {
    StripFacts(raw);
    NormalizedId(raw);
    var clean := Strip(raw);
    forall k | 0 <= k < |clean| ensures IsLetter(clean[k]) || IsDigit(clean[k]) || IsSpace(clean[k]) {
      assert clean[k] in clean;
    }
    LowerValid(clean);
  }

  lemma PartialGrown(b: Ballot, seen: set<string>, reg0: Registry, reg: Registry)
    requires Partial(b, seen, reg0, reg)
    ensures Grown(reg0, reg)
  {
  }

  lemma PartialStart(reg0: Registry)
    ensures Partial([], {}, reg0, reg0)
  {
    assert IdSet([]) == {};
  }

  lemma PartialNewGroup(b: Ballot, seen: set<string>, reg0: Registry, reg: Registry)
    requires Partial(b, seen, reg0, reg)
    ensures Partial(b + [[]], seen, reg0, reg)
  {
    var b' := b + [[]];
    assert IdSet(b') == IdSet(b) by {
      forall x | x in IdSet(b') ensures x in IdSet(b) {
        var g, i :| 0 <= g < |b'| && 0 <= i < |b'[g]| && b'[g][i] == x;
        assert g < |b| && b[g][i] == x;
      }
      forall x | x in IdSet(b) ensures x in IdSet(b') {
        var g, i :| 0 <= g < |b| && 0 <= i < |b[g]| && b[g][i] == x;
        assert b'[g][i] == x;
      }
    }
  }

  /** b with id appended to its last group. */
  function AppendToLast(b: Ballot, id: string): Ballot
    requires |b| > 0
  {
    b[|b| - 1 := b[|b| - 1] + [id]]
  }

  lemma AppendToNewest(b: Ballot, group: seq<string>, id: string)
    ensures AppendToLast(b + [group], id) == b + [group + [id]]
  {
  }

  lemma IdSetAppend(b: Ballot, id: string)
    requires |b| > 0
    ensures IdSet(AppendToLast(b, id)) == IdSet(b) + {id}
  {
    var last := |b| - 1;
    var b' := AppendToLast(b, id);
    forall x | x in IdSet(b') ensures x in IdSet(b) + {id} {
      var g, i :| 0 <= g < |b'| && 0 <= i < |b'[g]| && b'[g][i] == x;
      if !(g == last && i == |b[last]|) {
        assert b[g][i] == x;
      }
    }
    forall x | x in IdSet(b) ensures x in IdSet(b') {
      var g, i :| 0 <= g < |b| && 0 <= i < |b[g]| && b[g][i] == x;
      assert b'[g][i] == x;
    }
    assert b'[last][|b[last]|] == id;
  }

  lemma DistinctAppend(b: Ballot, id: string)
    requires |b| > 0 && Distinct(b) && id !in IdSet(b)
    ensures Distinct(AppendToLast(b, id))
  {
    var last := |b| - 1;
    var b' := AppendToLast(b, id);
    forall g1, i1, g2, i2 |
      0 <= g1 < |b'| && 0 <= i1 < |b'[g1]| && 0 <= g2 < |b'| && 0 <= i2 < |b'[g2]| &&
      b'[g1][i1] == b'[g2][i2]
      ensures g1 == g2 && i1 == i2
    {
      var new1 := g1 == last && i1 == |b[last]|;
      var new2 := g2 == last && i2 == |b[last]|;
      if !new1 && !new2 {
        assert b[g1][i1] == b[g2][i2];
      }
    }
  }

  lemma PartialExtend(b: Ballot, seen: set<string>, reg0: Registry, reg: Registry, id: string)
    requires |b| > 0 && Partial(b, seen, reg0, reg)
    requires id !in seen && ValidId(id)
    ensures Partial(AppendToLast(b, id), seen + {id}, reg0, reg[id := Title(id)])
  {
    IdSetAppend(b, id);
    DistinctAppend(b, id);
    var b' := AppendToLast(b, id);
    assert ValidIds(b') by {
      forall g, i | 0 <= g < |b'| && 0 <= i < |b'[g]| ensures ValidId(b'[g][i]) {
        if !(g == |b| - 1 && i == |b[g]|) {
          assert b'[g][i] == b[g][i];
        }
      }
    }
  }

  /** Every character of a rank string is a letter, digit, blank or '='. */
  predicate RankChars(ranks: seq<string>) {
    forall k, c :: 0 <= k < |ranks| && c in ranks[k] ==> IsLetter(c) || IsDigit(c) || IsSpace(c) || c == '='
  }

  predicate NameChars(names: seq<string>) {
    forall k, c :: 0 <= k < |names| && c in names[k] ==> IsLetter(c) || IsDigit(c) || IsSpace(c)
  }

  lemma {:induction false} ScanNamesSound(names: seq<string>, j: nat, b: Ballot, group: seq<string>,
                                          seen: set<string>, reg0: Registry, reg: Registry)
    requires j <= |names| && |group| == j
    requires NameChars(names)
    requires Partial(b + [group], seen, reg0, reg)
    ensures match ScanNames(names, j, group, seen, reg)
      case Done(g', seen', reg') => |g'| == |names| && Partial(b + [g'], seen', reg0, reg')
      case Stopped(e, reg') => Grown(reg0, reg') && (e.EmptyTieSlot? || e.Duplicate?)
    decreases |names| - j
  {
    PartialGrown(b + [group], seen, reg0, reg);
    if j < |names| {
      var name := Strip(names[j]);
      if name != [] {
        var (cid, display) := NormalizeName(name);
        assert forall c :: c in names[j] ==> IsLetter(c) || IsDigit(c) || IsSpace(c);
        IdOfName(names[j]);
        assert NormalizeName(names[j]) == NormalizeName(name) by {
          StripFacts(names[j]);
          StripOfStripped(name);
        }
        if cid !in seen {
          var bg := b + [group];
          PartialExtend(bg, seen, reg0, reg, cid);
          AppendToNewest(b, group, cid);
          ScanNamesSound(names, j + 1, b, group + [cid], seen + {cid}, reg0, reg[cid := display]);
        }
      }
    }
  }

  /** One tie group "x = y = ...": its names are scanned against the ballot so far. */
  lemma TieGroupSound(rankStr: string, b: Ballot, seen: set<string>, reg0: Registry, reg: Registry)
    requires forall c :: c in rankStr ==> IsLetter(c) || IsDigit(c) || IsSpace(c) || c == '='
    requires Partial(b, seen, reg0, reg)
    ensures match ScanNames(Split(rankStr, '='), 0, [], seen, reg)
      case Done(group, seen', reg') => group != [] && Partial(b + [group], seen', reg0, reg')
      case Stopped(e, reg') => Grown(reg0, reg') && (e.EmptyTieSlot? || e.Duplicate?)
  {
    PartialNewGroup(b, seen, reg0, reg);
    var names := Split(rankStr, '=');
    SplitParts(rankStr, '=');
    assert NameChars(names) by {
      forall k, c | 0 <= k < |names| && c in names[k]
        ensures IsLetter(c) || IsDigit(c) || IsSpace(c)
      {
        assert c in rankStr && c != '=';
      }
    }
    ScanNamesSound(names, 0, b, [], seen, reg0, reg);
  }

  /** One single-name group. */
  lemma SingleGroupSound(rankStr: string, b: Ballot, seen: set<string>, reg0: Registry, reg: Registry)
    requires forall c :: c in rankStr ==> IsLetter(c) || IsDigit(c) || IsSpace(c)
    requires Strip(rankStr) != []
    requires Partial(b, seen, reg0, reg)
    requires NormalizeName(rankStr).0 !in seen
    ensures var (cid, display) := NormalizeName(rankStr);
      Partial(b + [[cid]], seen + {cid}, reg0, reg[cid := display])
  {
    var (cid, display) := NormalizeName(rankStr);
    IdOfName(rankStr);
    PartialNewGroup(b, seen, reg0, reg);
    var b1: Ballot := b + [[]];
    assert b1[|b|] == [] && [] + [cid] == [cid];
    PartialExtend(b1, seen, reg0, reg, cid);
    assert AppendToLast(b1, cid) == b + [[cid]];
  }

  /** What ScanRanks promises when started from a partial ballot. */
  ghost predicate RanksScanned(r: Scan<Ballot>, n: nat, reg0: Registry) {
    match r
    case Done(b', seen', reg') => |b'| == n && NonEmptyGroups(b') && Partial(b', seen', reg0, reg')
    case Stopped(e, reg') => Grown(reg0, reg') && (e.EmptySlot? || e.EmptyTieSlot? || e.Duplicate?)
  }

  lemma {:induction false} ScanRanksSound(ranks: seq<string>, i: nat, b: Ballot,
                                          seen: set<string>, reg0: Registry, reg: Registry)
    requires i <= |ranks| && |b| == i
    requires RankChars(ranks)
    requires NonEmptyGroups(b) && Partial(b, seen, reg0, reg)
    ensures RanksScanned(ScanRanks(ranks, i, b, seen, reg), |ranks|, reg0)
    decreases |ranks| - i, 1
  {
    PartialGrown(b, seen, reg0, reg);
    if i < |ranks| {
      var rankStr := Strip(ranks[i]);
      if rankStr != [] {
        StripFacts(ranks[i]);
        assert forall c :: c in rankStr ==> IsLetter(c) || IsDigit(c) || IsSpace(c) || c == '=';
        if '=' in rankStr {
          TieStepSound(ranks, i, rankStr, b, seen, reg0, reg);
        } else {
          SingleStepSound(ranks, i, rankStr, b, seen, reg0, reg);
        }
      }
    }
  }

  lemma NonEmptyAppend(b: Ballot, group: seq<string>)
    requires NonEmptyGroups(b) && group != []
    ensures NonEmptyGroups(b + [group])
  {
    assert forall g :: 0 <= g < |b| ==> (b + [group])[g] == b[g];
  }

  /** One step of ScanRanks on a tie group. */
  lemma TieStep(ranks: seq<string>, i: nat, b: Ballot, seen: set<string>, reg: Registry)
    requires i < |ranks| && Strip(ranks[i]) != [] && '=' in Strip(ranks[i])
    ensures var r := ScanNames(Split(Strip(ranks[i]), '='), 0, [], seen, reg);
      ScanRanks(ranks, i, b, seen, reg) ==
        if r.Stopped? then Stopped(r.error, r.registry) else ScanRanks(ranks, i + 1, b + [r.value], r.seen, r.registry)
  {
  }

  /** One step of ScanRanks on a single name. */
  lemma SingleStep(ranks: seq<string>, i: nat, b: Ballot, seen: set<string>, reg: Registry)
    requires i < |ranks| && Strip(ranks[i]) != [] && '=' !in Strip(ranks[i])
    ensures var (cid, display) := NormalizeName(Strip(ranks[i]));
      ScanRanks(ranks, i, b, seen, reg) ==
        if cid in seen then Stopped(Duplicate(display), reg) else ScanRanks(ranks, i + 1, b + [[cid]], seen + {cid}, reg[cid := display])
  {
  }

  lemma {:induction false} TieStepSound(ranks: seq<string>, i: nat, rankStr: string, b: Ballot,
                                        seen: set<string>, reg0: Registry, reg: Registry)
    requires i < |ranks| && |b| == i
    requires RankChars(ranks)
    requires NonEmptyGroups(b) && Partial(b, seen, reg0, reg)
    requires rankStr == Strip(ranks[i]) && rankStr != [] && '=' in rankStr
    requires forall c :: c in rankStr ==> IsLetter(c) || IsDigit(c) || IsSpace(c) || c == '='
    ensures RanksScanned(ScanRanks(ranks, i, b, seen, reg), |ranks|, reg0)
    decreases |ranks| - i, 0
  {
    TieGroupSound(rankStr, b, seen, reg0, reg);
    TieStep(ranks, i, b, seen, reg);
    var r := ScanNames(Split(rankStr, '='), 0, [], seen, reg);
    if r.Done? {
      NonEmptyAppend(b, r.value);
      ScanRanksSound(ranks, i + 1, b + [r.value], r.seen, reg0, r.registry);
    }
  }

  lemma {:induction false} SingleStepSound(ranks: seq<string>, i: nat, rankStr: string, b: Ballot,
                                           seen: set<string>, reg0: Registry, reg: Registry)
    requires i < |ranks| && |b| == i
    requires RankChars(ranks)
    requires NonEmptyGroups(b) && Partial(b, seen, reg0, reg)
    requires rankStr == Strip(ranks[i]) && rankStr != [] && '=' !in rankStr
    requires forall c :: c in rankStr ==> IsLetter(c) || IsDigit(c) || IsSpace(c) || c == '='
    ensures RanksScanned(ScanRanks(ranks, i, b, seen, reg), |ranks|, reg0)
    decreases |ranks| - i, 0
  {
    PartialGrown(b, seen, reg0, reg);
    SingleStep(ranks, i, b, seen, reg);
    var (cid, display) := NormalizeName(rankStr);
    if cid !in seen {
      StripOfStripped(rankStr);
      SingleGroupSound(rankStr, b, seen, reg0, reg);
      NonEmptyAppend(b, [cid]);
      ScanRanksSound(ranks, i + 1, b + [[cid]], seen + {cid}, reg0, reg[cid := display]);
    }
  }
}

module ParsingLemmas {
  import opened Text
  import opened Parsing

  /** The content after the multiplier is non-empty and uses only legal characters. */
  ghost predicate ContentLegal(body: string) {
    Content(body) != [] && forall c :: c in Content(body) ==> IsLegal(c)
  }

  /** No multiplier, or one of at least 1. */
  predicate MultiplierOk(body: string) {
    !HasMultiplier(body) || Multiplier(body) >= 1
  }

  /** What a successful parse promises: weight-many copies of one well-formed
      ballot, and a registry that gained exactly the ballot's ids, each mapped
      to the display form of its occurrence. */
  ghost predicate Accepted(copies: seq<Ballot>, reg: Registry, reg': Registry) {
    && |copies| >= 1
    && (forall k :: 0 <= k < |copies| ==> copies[k] == copies[0])
    && WellFormed(copies[0])
    && reg'.Keys == reg.Keys + IdSet(copies[0])
    && (forall id :: id in IdSet(copies[0]) ==> reg'[id] == Title(id))
    && (forall k :: k in reg && k !in IdSet(copies[0]) ==> reg'[k] == reg[k])
  }

  lemma ContentRanks(content: string)
    requires content != [] && forall c :: c in content ==> IsLegal(c)
    ensures RankChars(Split(content, '>'))
  {
    var ranks := Split(content, '>');
    SplitParts(content, '>');
    forall k, c | 0 <= k < |ranks| && c in ranks[k]
      ensures IsLetter(c) || IsDigit(c) || IsSpace(c) || c == '='
    {
      assert c in content && c != '>';
    }
  }

  lemma IllegalCharsEmpty(s: string)
    ensures IllegalChars(s) == [] <==> forall c :: c in s ==> IsLegal(c)
  {
    if IllegalChars(s) != [] {
      assert IllegalChars(s)[0] in IllegalChars(s);
    }
  }

  /** The checks before the rank loop, in the order parse_line makes them. */
  lemma ParseBodyGuards(body: string, strict: bool, reg: Registry)
    ensures !MultiplierOk(body) ==> ParseBody(body, strict, reg) == Parsed(Fail(InvalidMultiplier), reg)
    ensures MultiplierOk(body) && !ContentLegal(body) ==>
      ParseBody(body, strict, reg) == Parsed(Fail(IllegalChar(SortedDistinct(IllegalChars(Content(body))))), reg)
    ensures MultiplierOk(body) && ContentLegal(body) && strict && '=' in Content(body) ==>
      ParseBody(body, strict, reg) == Parsed(Fail(TiesNotAllowed), reg)
    ensures MultiplierOk(body) && ContentLegal(body) && !(strict && '=' in Content(body)) ==>
      var r := ScanRanks(Split(Content(body), '>'), 0, [], {}, reg);
      && RanksScanned(r, |Split(Content(body), '>')|, reg)
      && ParseBody(body, strict, reg) ==
         match r
         case Stopped(e, reg') => Parsed(Fail(e), reg')
         case Done(b, _, reg') => Parsed(Copies(Repeat(b, Multiplier(body))), reg')
  {
    IllegalCharsEmpty(Content(body));
    if MultiplierOk(body) && ContentLegal(body) {
      ScanOfContent(body, reg);
    }
  }

  /** Only the three errors of the rank loop can come out of it. */
  lemma ScanOfContent(body: string, reg: Registry)
    requires ContentLegal(body)
    ensures RanksScanned(ScanRanks(Split(Content(body), '>'), 0, [], {}, reg), |Split(Content(body), '>')|, reg)
  {
    ContentRanks(Content(body));
    PartialStart(reg);
    ScanRanksSound(Split(Content(body), '>'), 0, [], {}, reg, reg);
  }

  /** A successful body parse is well formed; in every case the registry only
      grows, with display forms that are the title forms of their ids. */
  lemma ParseBodySound(body: string, strict: bool, reg: Registry)
    ensures var p := ParseBody(body, strict, reg);
      && Grown(reg, p.registry)
      && p.result != Skip
      && (p.result.Copies? ==> Accepted(p.result.ballots, reg, p.registry) && |p.result.ballots| == Multiplier(body))
  {
    ParseBodyGuards(body, strict, reg);
    if MultiplierOk(body) && ContentLegal(body) && !(strict && '=' in Content(body)) {
      match ScanRanks(Split(Content(body), '>'), 0, [], {}, reg)
      case Stopped(_, _) =>
      case Done(b, seen, reg') =>
        CopiesAccepted(b, seen, reg, reg', Multiplier(body));
    }
  }

  /** m >= 1 copies of a scanned ballot are accepted. */
  lemma CopiesAccepted(b: Ballot, seen: set<string>, reg0: Registry, reg: Registry, m: nat)
    requires b != [] && NonEmptyGroups(b) && Partial(b, seen, reg0, reg) && m >= 1
    ensures Grown(reg0, reg) && Accepted(Repeat(b, m), reg0, reg)
  {
    PartialGrown(b, seen, reg0, reg);
  }

  /** ParseLine: blank lines give Skip and keep the registry; a parse that
      succeeds is well formed; the registry only grows. */
  lemma ParseLineSound(line: string, strict: bool, reg: Registry)
    ensures var p := ParseLine(line, strict, reg);
      && Grown(reg, p.registry)
      && (p.result.Skip? ==> p.registry == reg)
      && (p.result.Copies? ==> Accepted(p.result.ballots, reg, p.registry))
  {
    var body := Strip(BeforeComment(line));
    if body != [] {
      ParseBodySound(body, strict, reg);
    }
  }

  /** A line is skipped exactly when nothing but blanks precedes its first '#'. */
  lemma BlankLine(line: string, strict: bool, reg: Registry)
    ensures ParseLine(line, strict, reg).result == Skip <==>
            forall i :: 0 <= i < |BeforeComment(line)| ==> IsSpace(BeforeComment(line)[i])
    ensures ParseLine(line, strict, reg).result == Skip ==> ParseLine(line, strict, reg).registry == reg
  {
    StripFacts(BeforeComment(line));
    var body := Strip(BeforeComment(line));
    if body != [] {
      ParseBodySound(body, strict, reg);
    }
  }

  /** Whatever follows the first '#' never changes the outcome. */
  lemma CommentIgnored(prefix: string, comment: string, strict: bool, reg: Registry)
    requires '#' !in prefix
    ensures ParseLine(prefix + ['#'] + comment, strict, reg) == ParseLine(prefix, strict, reg)
  {
    SplitAt(prefix, '#', comment);
    assert '#' in prefix + ['#'] + comment by {
      assert (prefix + ['#'] + comment)[|prefix|] == '#';
    }
    assert BeforeComment(prefix + ['#'] + comment) == prefix;
  }

  /** A prefix below 1 is rejected, and only then is InvalidMultiplier raised. */
  lemma MultiplierRejected(body: string, strict: bool, reg: Registry)
    ensures ParseBody(body, strict, reg).result == Fail(InvalidMultiplier) <==> !MultiplierOk(body)
  {
    ParseBodyGuards(body, strict, reg);
  }

  /** "N:rest" gives exactly N identical copies of what "rest" alone gives;
      "0:rest" is rejected. */
  lemma WeightedLine(d: string, c: string, strict: bool, reg: Registry)
    requires d != [] && AllDigits(d) && '\n' !in c
    ensures var p := ParseBody(d + [':'] + c, strict, reg);
      && (DigitsValue(d) == 0 ==> p == Parsed(Fail(InvalidMultiplier), reg))
      && (p.result.Copies? ==>
            && |p.result.ballots| == DigitsValue(d)
            && (forall k :: 0 <= k < |p.result.ballots| ==> p.result.ballots[k] == p.result.ballots[0])
            && ParseBody(Strip(c), strict, reg) == Parsed(Copies([p.result.ballots[0]]), p.registry))
  {
    var body := d + [':'] + c;
    PrefixedBody(d, c);
    var p := ParseBody(body, strict, reg);
    if DigitsValue(d) >= 1 {
      assert p == ParseContent(Strip(c), DigitsValue(d), strict, reg);
      ContentWeight(Strip(c), DigitsValue(d), strict, reg);
      if p.result.Copies? {
        UnprefixedContent(Strip(c));
        assert ParseBody(Strip(c), strict, reg) == ParseContent(Strip(c), 1, strict, reg);
      }
    }
  }

  lemma PrefixedBody(d: string, c: string)
    requires d != [] && AllDigits(d) && '\n' !in c
    ensures HasMultiplier(d + [':'] + c) && Multiplier(d + [':'] + c) == DigitsValue(d)
    ensures Content(d + [':'] + c) == Strip(c)
  {
    var body := d + [':'] + c;
    assert d + [':'] + c == d + ([':'] + c);
    DigitPrefixOf(d, [':'] + c);
    assert body[|d|] == ':';
    assert body[|d| + 1..] == c;
  }

  /** Legal content holds no ':', so it carries no multiplier of its own. */
  lemma UnprefixedContent(s: string)
    requires s != [] && IllegalChars(s) == []
    ensures !HasMultiplier(s) && Multiplier(s) == 1 && Content(s) == s
  {
    IllegalCharsEmpty(s);
    var ds := DigitPrefix(s);
    if |ds| < |s| {
      assert s[|ds|] in s;
    }
  }

  /** A weight only changes the number of copies. */
  lemma ContentWeight(content: string, m: nat, strict: bool, reg: Registry)
    requires m >= 1
    ensures var p := ParseContent(content, m, strict, reg);
      p.result.Copies? ==>
        && content != [] && IllegalChars(content) == []
        && |p.result.ballots| == m
        && (forall k :: 0 <= k < m ==> p.result.ballots[k] == p.result.ballots[0])
        && ParseContent(content, 1, strict, reg) == Parsed(Copies([p.result.ballots[0]]), p.registry)
  {
    if content != [] && IllegalChars(content) == [] && !(strict && '=' in content) {
      var r := ScanRanks(Split(content, '>'), 0, [], {}, reg);
      if r.Done? {
        assert ParseContent(content, m, strict, reg) == Parsed(Copies(Repeat(r.value, m)), r.registry);
        assert ParseContent(content, 1, strict, reg) == Parsed(Copies(Repeat(r.value, 1)), r.registry);
        assert Repeat(r.value, 1) == [r.value];
      }
    }
  }

  /** Without a prefix a successful parse gives exactly one copy. */
  lemma UnweightedLine(body: string, strict: bool, reg: Registry)
    requires !HasMultiplier(body)
    ensures ParseBody(body, strict, reg).result.Copies? ==> |ParseBody(body, strict, reg).result.ballots| == 1
  {
    ParseBodySound(body, strict, reg);
  }

  /** Empty content or an illegal character gives IllegalChar, listing the
      offending characters once each in increasing order. */
  lemma IllegalCharacters(body: string, strict: bool, reg: Registry)
    ensures var r := ParseBody(body, strict, reg).result;
      (r.Fail? && r.error.IllegalChar?) <==> MultiplierOk(body) && !ContentLegal(body)
    ensures var r := ParseBody(body, strict, reg).result;
      r.Fail? && r.error.IllegalChar? ==>
        && StrictlyIncreasing(r.error.chars)
        && forall c :: c in r.error.chars <==> c in Content(body) && !IsLegal(c)
  {
    ParseBodyGuards(body, strict, reg);
  }

  /** In strict mode any '=' in legal content is rejected; without strict
      mode TiesNotAllowed never arises, and without '=' the mode is irrelevant. */
  lemma StrictModeTies(body: string, reg: Registry)
    ensures ParseBody(body, true, reg).result == Fail(TiesNotAllowed) <==>
            MultiplierOk(body) && ContentLegal(body) && '=' in Content(body)
    ensures ParseBody(body, false, reg).result != Fail(TiesNotAllowed)
    ensures '=' !in Content(body) ==> ParseBody(body, true, reg) == ParseBody(body, false, reg)
  {
    ParseBodyGuards(body, true, reg);
    ParseBodyGuards(body, false, reg);
  }
}
