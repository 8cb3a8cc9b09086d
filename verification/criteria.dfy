/** The acceptance-criteria generator: the model's response is cut at `**Scenario N: name**`
    headers, and each scenario's text is searched for GIVEN, WHEN and THEN clauses with their
    AND continuations; a scenario is kept only when all three clauses are present. */
module Criteria {
  import opened Wrappers
  import opened Text
  import opened Patterns
  import opened Generation

  datatype Criterion = Criterion(name: string, givenClause: string, whenClause: string, thenClause: string)

  datatype CriteriaBatch = CriteriaBatch(criteria: seq<Criterion>, rawOutput: string, totalScenarios: nat)

  // ---------------------------------------------------------------------------------------
  // Scenario headers: re.split(r'\*\*Scenario \d+:([^*]+)\*\*', text)
  // ---------------------------------------------------------------------------------------

  const ScenarioOpen: string := "**Scenario "
  const Stars: string := "**"

  /** `**Scenario ` at `i`. */
  predicate OpenAt(s: string, i: nat) {
    i + |ScenarioOpen| <= |s| && s[i..i + |ScenarioOpen|] == ScenarioOpen
  }

  /** The rest of a header from `a`, just after `**Scenario `: digits, `:`, the name and `**`;
      the bounds of the number and of the name, and where the closing stars start. The number
      and the name are taken greedily; giving characters back never helps, since the
      character given back is a digit where `:` is needed, or not a `*` where `**` is. */
  function TailAt(s: string, a: nat): (r: Option<(nat, nat, nat)>)
    requires a <= |s|
    ensures r.Some? ==> a < r.value.0 < r.value.1 < r.value.2 && r.value.2 + 2 <= |s|
  {
    var d := SkipDigits(s, a);
    if d > a && d < |s| && s[d] == ':' then
      var e := RunEnd(s, d + 1, '*');
      if e > d + 1 && e + 1 < |s| && s[e + 1] == '*' then Some((d, d + 1, e)) else None
    else None
  }

  /** A scenario header at `i`. */
  function HeadAt(s: string, i: nat): (r: Option<(nat, nat, nat)>)
    requires i <= |s|
    ensures r.Some? ==> i + |ScenarioOpen| < r.value.0 < r.value.1 < r.value.2 && r.value.2 + 2 <= |s|
  {
    if OpenAt(s, i) then TailAt(s, i + |ScenarioOpen|) else None
  }

  /** No scenario header starts anywhere in `s`. */
  predicate HeadFree(s: string) {
    forall j :: 0 <= j <= |s| ==> HeadAt(s, j).None?
  }

  lemma {:induction false} SkipDigitsSlice(s: string, lo: nat, hi: nat, j: nat)
    requires lo <= hi <= |s| && j <= hi - lo
    ensures SkipDigits(s[lo..hi], j) < hi - lo ==> lo + SkipDigits(s[lo..hi], j) == SkipDigits(s, lo + j)
    decreases hi - lo - j
  {
    if j < hi - lo && IsDigit(s[lo..hi][j]) {
      SkipDigitsSlice(s, lo, hi, j + 1);
    }
  }

  lemma OpenAtSlice(s: string, lo: nat, hi: nat, j: nat)
    requires lo <= hi <= |s| && j <= hi - lo
    ensures OpenAt(s[lo..hi], j) ==> OpenAt(s, lo + j)
  {
    var n := |ScenarioOpen|;
    if OpenAt(s[lo..hi], j) {
      var u, v := s[lo..hi][j..j + n], s[lo + j..lo + j + n];
      assert |u| == |v|;
      forall k | 0 <= k < n ensures u[k] == v[k] {
        assert u[k] == s[lo..hi][j + k] == s[lo + j + k];
      }
      assert u == v;
    }
  }

  lemma TailAtSlice(s: string, lo: nat, hi: nat, j: nat)
    requires lo <= hi <= |s| && j <= hi - lo
    ensures TailAt(s[lo..hi], j).Some? ==> TailAt(s, lo + j).Some?
  {
    var t := s[lo..hi];
    if TailAt(t, j).Some? {
      var d := SkipDigits(t, j);
      SkipDigitsSlice(s, lo, hi, j);
      assert t[d] == s[lo + d];
      var e := RunEnd(t, d + 1, '*');
      RunEndSlice(s, lo, hi, d + 1, '*');
      assert t[e + 1] == s[lo + e + 1];
    }
  }

  /** A header inside a slice is a header of the whole text at the same place. */
  lemma HeadAtSlice(s: string, lo: nat, hi: nat, j: nat)
    requires lo <= hi <= |s| && j <= hi - lo
    ensures HeadAt(s[lo..hi], j).Some? ==> HeadAt(s, lo + j).Some?
  {
    OpenAtSlice(s, lo, hi, j);
    if OpenAt(s[lo..hi], j) {
      TailAtSlice(s, lo, hi, j + |ScenarioOpen|);
    }
  }

  lemma PieceHeadFree(s: string, start: nat, i: nat)
    requires start <= i <= |s|
    requires forall j :: start <= j < i ==> HeadAt(s, j).None?
    ensures HeadFree(s[start..i])
  {
    forall j | 0 <= j <= i - start ensures HeadAt(s[start..i], j).None? {
      HeadAtSlice(s, start, i, j);
    }
  }

  /** A header's number and the name it captured. */
  datatype Head = Head(number: string, name: string)

  /** `**Scenario N:name**`. */
  function HeadText(h: Head): string {
    ScenarioOpen + h.number + ":" + h.name + Stars
  }

  /** What the pattern admits: a non-empty number and a non-empty name with no `*`. */
  predicate WellFormedHead(h: Head) {
    h.number != [] && AllDigits(h.number) && h.name != [] && Lacks(h.name, '*')
  }

  /** The header matched at `i`, read off the text. */
  function HeadOf(s: string, i: nat): (h: Head)
    requires i <= |s| && HeadAt(s, i).Some?
    ensures WellFormedHead(h)
    ensures var b := HeadAt(s, i).value; s[i..b.2 + 2] == HeadText(h)
  {
    var b := HeadAt(s, i).value;
    var a, d, e := i + |ScenarioOpen|, b.0, b.2;
    HeadAtFacts(s, i);
    var h := Head(s[a..d], s[d + 1..e]);
    HeadPartsAt(s, i, a, d, e);
    h
  }

  /** A header's text is the concatenation of its five parts as they lie in the text. */
  lemma HeadPartsAt(s: string, i: nat, a: nat, d: nat, e: nat)
    requires i <= a <= d < e && e + 2 <= |s|
    requires s[i..a] == ScenarioOpen && s[d] == ':' && s[e] == '*' && s[e + 1] == '*'
    ensures s[i..e + 2] == HeadText(Head(s[a..d], s[d + 1..e]))
  {
    SliceSplit(s, i, a, d);
    SliceSplit(s, i, d, d + 1);
    SliceSplit(s, i, d + 1, e);
    SliceSplit(s, i, e, e + 2);
    assert s[d..d + 1] == ":";
    assert s[e..e + 2] == Stars;
  }

  /** What a header match at `i` consists of: the opening, a digit run, a colon, a star-free
      name and the closing stars. */
  lemma HeadAtFacts(s: string, i: nat)
    requires i <= |s| && HeadAt(s, i).Some?
    ensures var b := HeadAt(s, i).value; var a := i + |ScenarioOpen|;
      && s[i..a] == ScenarioOpen && b.1 == b.0 + 1 && s[b.0] == ':'
      && s[b.2] == '*' && s[b.2 + 1] == '*'
      && AllDigits(s[a..b.0]) && Lacks(s[b.1..b.2], '*')
  {
    var a := i + |ScenarioOpen|;
    var d := SkipDigits(s, a);
    DigitsIn(s, a, d);
    NoStarIn(s, d + 1, RunEnd(s, d + 1, '*'));
  }

  lemma DigitsIn(s: string, lo: nat, hi: nat)
    requires lo <= hi <= |s|
    requires forall j :: lo <= j < hi ==> IsDigit(s[j])
    ensures AllDigits(s[lo..hi])
  {
    forall j | 0 <= j < hi - lo ensures IsDigit(s[lo..hi][j]) {
      assert s[lo..hi][j] == s[lo + j];
    }
  }

  lemma SliceSplit(s: string, i: nat, j: nat, k: nat)
    requires i <= j <= k <= |s|
    ensures s[i..k] == s[i..j] + s[j..k]
  {
  }

  lemma NoStarIn(s: string, lo: nat, hi: nat)
    requires lo <= hi <= |s|
    requires forall j :: lo <= j < hi ==> s[j] != '*'
    ensures Lacks(s[lo..hi], '*')
  {
    forall j | 0 <= j < hi - lo ensures s[lo..hi][j] != '*' {
      assert s[lo..hi][j] == s[lo + j];
    }
  }

  /** The texts between headers, in order, and the headers that separate them. */
  datatype Sections = Sections(pieces: seq<string>, heads: seq<Head>)

  /** The pieces in order with the header that followed each one put back. */
  function Weave(pieces: seq<string>, heads: seq<Head>): string
    requires |pieces| == |heads| + 1
  {
    if heads == [] then pieces[0] else pieces[0] + HeadText(heads[0]) + Weave(pieces[1..], heads[1..])
  }

  predicate WellSplit(sp: Sections) {
    && |sp.pieces| == |sp.heads| + 1
    && (forall k :: 0 <= k < |sp.heads| ==> WellFormedHead(sp.heads[k]))
    && (forall k :: 0 <= k < |sp.pieces| ==> HeadFree(sp.pieces[k]))
  }

  lemma SplitCons(piece: string, h: Head, rest: Sections)
    requires HeadFree(piece) && WellFormedHead(h) && WellSplit(rest)
    ensures WellSplit(Sections([piece] + rest.pieces, [h] + rest.heads))
  {
    var sp := Sections([piece] + rest.pieces, [h] + rest.heads);
    forall k | 0 <= k < |sp.heads| ensures WellFormedHead(sp.heads[k]) {
      if k > 0 {
        assert sp.heads[k] == rest.heads[k - 1];
      }
    }
    forall k | 0 <= k < |sp.pieces| ensures HeadFree(sp.pieces[k]) {
      if k > 0 {
        assert sp.pieces[k] == rest.pieces[k - 1];
      }
    }
  }

  lemma WeaveCons(s: string, start: nat, i: nat, e: nat, h: Head, rest: Sections)
    requires start <= i <= e <= |s| && |rest.pieces| == |rest.heads| + 1
    requires s[i..e] == HeadText(h)
    requires Weave(rest.pieces, rest.heads) == s[e..]
    ensures Weave([s[start..i]] + rest.pieces, [h] + rest.heads) == s[start..]
  {
    assert ([s[start..i]] + rest.pieces)[1..] == rest.pieces;
    assert ([h] + rest.heads)[1..] == rest.heads;
    assert s[start..] == s[start..i] + s[i..e] + s[e..];
  }

  /** The last piece of the split: the header-free rest of the text. */
  lemma SplitLast(s: string, start: nat)
    requires start <= |s|
    requires forall j :: start <= j < |s| ==> HeadAt(s, j).None?
    ensures var sp := Sections([s[start..]], []);
      WellSplit(sp) && Weave(sp.pieces, sp.heads) == s[start..]
  {
    PieceHeadFree(s, start, |s|);
    assert s[start..|s|] == s[start..];
  }

  /** One step of the split: a header-free piece, then a header, then a split of the rest. */
  lemma SplitStep(s: string, start: nat, i: nat, e: nat, h: Head, rest: Sections)
    requires start <= i <= e <= |s|
    requires forall j :: start <= j < i ==> HeadAt(s, j).None?
    requires WellFormedHead(h) && s[i..e] == HeadText(h)
    requires WellSplit(rest) && Weave(rest.pieces, rest.heads) == s[e..]
    ensures var sp := Sections([s[start..i]] + rest.pieces, [h] + rest.heads);
      WellSplit(sp) && Weave(sp.pieces, sp.heads) == s[start..]
  {
    PieceHeadFree(s, start, i);
    SplitCons(s[start..i], h, rest);
    WeaveCons(s, start, i, e, h, rest);
  }

  /** The split from the piece starting at `start`, having found no header at `start..i`. */
  function SplitFrom(s: string, start: nat, i: nat): (r: Sections)
    requires start <= i <= |s|
    requires forall j :: start <= j < i ==> HeadAt(s, j).None?
    ensures WellSplit(r)
    ensures Weave(r.pieces, r.heads) == s[start..]
    decreases |s| - i
  {
    if i == |s| then
      SplitLast(s, start);
      Sections([s[start..]], [])
    else
      match HeadAt(s, i)
      case Some(b) =>
        var e := b.2 + 2;
        var rest := SplitFrom(s, e, e);
        var h := HeadOf(s, i);
        SplitStep(s, start, i, e, h, rest);
        Sections([s[start..i]] + rest.pieces, [h] + rest.heads)
      case None => SplitFrom(s, start, i + 1)
  }

  /** `re.split` on the header pattern, its one group included: the text before the first
      header, then each header's name and the text after it. Putting the headers back between
      the pieces gives the text again, and no piece contains a header. */
  function SplitScenarios(text: string): (r: Sections)
    ensures WellSplit(r)
    ensures Weave(r.pieces, r.heads) == text
  {
    SplitFrom(text, 0, 0)
  }

  // ---------------------------------------------------------------------------------------
  // Clauses: re.findall with re.IGNORECASE | re.DOTALL
  // ---------------------------------------------------------------------------------------

  datatype Clause = Given | When | Then

  function Keyword(c: Clause): string {
    match c
    case Given => "GIVEN"
    case When => "WHEN"
    case Then => "THEN"
  }

  /** Where a clause's own group stops: before the next `- AND`, before the dash that leads
      the next clause (`- WHEN`, `- THEN`, or `- **` after THEN), or at the end. */
  function OwnLooks(c: Clause): seq<Look> {
    match c
    case Given => [DashWord("AND"), DashWord("WHEN"), EndOrFinalNewline]
    case When => [DashWord("AND"), DashWord("THEN"), EndOrFinalNewline]
    case Then => [DashWord("AND"), DashWord("**"), EndOrFinalNewline]
  }

  /** Where an AND continuation stops: only before the next clause's dash (or, after THEN, a
      `- **` or the very end); a later `- AND` does not stop it. */
  function AndLooks(c: Clause): seq<Look> {
    match c
    case Given => [DashWord("WHEN")]
    case When => [DashWord("THEN")]
    case Then => [DashWord("**"), EndOfText]
  }

  /** `-\s*KW\s+(.+?)(?=looks)` at `p`: the bounds of the group. The run of whitespace before
      the keyword is taken whole, since the keyword starts with a letter. The group starts
      after the dash and stops at the first place after its first character where the
      lookahead holds. */
  function DashAt(s: string, p: nat, kw: string, looks: seq<Look>): (r: Option<(nat, nat)>)
    requires p <= |s|
    ensures r.Some? ==> var (lo, hi) := r.value;
              && p < lo < hi <= |s| && StopsAt(s, lo, hi, looks) && s[p] == '-'
  {
    if p < |s| && s[p] == '-' then KeywordGroup(s, SkipSpaces(s, p + 1), kw, looks) else None
  }

  /** `KW\s+(.+?)(?=looks)` at `m`: the keyword in any case, at least one whitespace
      character, then the lazy group. */
  function KeywordGroup(s: string, m: nat, kw: string, looks: seq<Look>): (r: Option<(nat, nat)>)
    requires m <= |s|
    ensures r.Some? ==> var (lo, hi) := r.value;
              && CiPrefixAt(s, m, kw) && m + |kw| < lo < hi <= |s| && StopsAt(s, lo, hi, looks)
              && forall j :: m + |kw| <= j < lo ==> IsSpace(s[j])
  {
    CiPrefixAtBounds(s, m, kw);
    if CiPrefixAt(s, m, kw) then Capture(s, m + |kw|, 1, true, looks) else None
  }

  /** Between the dash and the group: whitespace, the keyword in any case, and at least one
      more whitespace character. */
  lemma DashAtShape(s: string, p: nat, kw: string, looks: seq<Look>)
    requires p <= |s| && DashAt(s, p, kw, looks).Some?
    ensures var (lo, hi) := DashAt(s, p, kw, looks).value; var m := SkipSpaces(s, p + 1);
            && (forall j :: p < j < m ==> IsSpace(s[j])) && CiPrefixAt(s, m, kw)
            && m + |kw| < lo && forall j :: m + |kw| <= j < lo ==> IsSpace(s[j])
  {
  }

  /** A keyword followed by whitespace is matched whenever the lookahead holds somewhere past
      the first character after them. */
  lemma KeywordFound(s: string, m: nat, kw: string, looks: seq<Look>, e: nat)
    requires CiPrefixAt(s, m, kw) && m + |kw| + 1 < e <= |s| && AnyHolds(s, e, looks)
    requires IsSpace(s[m + |kw|])
    ensures KeywordGroup(s, m, kw, looks).Some?
  {
    CaptureFound(s, m + |kw|, 1, e, looks);
  }

  /** A dash, whitespace, the keyword in any case and one whitespace character are matched
      whenever the lookahead holds somewhere past the first character after them. */
  lemma DashFound(s: string, p: nat, kw: string, looks: seq<Look>, e: nat)
    requires p < |s| && s[p] == '-' && CiPrefixAt(s, SkipSpaces(s, p + 1), kw)
    requires SkipSpaces(s, p + 1) + |kw| + 1 < e <= |s| && AnyHolds(s, e, looks)
    requires IsSpace(s[SkipSpaces(s, p + 1) + |kw|])
    ensures DashAt(s, p, kw, looks).Some?
  {
    KeywordFound(s, SkipSpaces(s, p + 1), kw, looks, e);
  }

  function DashMatches(s: string, kw: string, looks: seq<Look>): nat -> Option<(nat, nat)> {
    (j: nat) => if j <= |s| then DashAt(s, j, kw, looks) else None
  }

  lemma DashMatchesAt(s: string, kw: string, looks: seq<Look>)
    ensures forall j: nat :: j <= |s| ==> DashMatches(s, kw, looks)(j) == DashAt(s, j, kw, looks)
  {
  }

  /** The first `- AND` match from `i` on lies after `i` and stops where its lookahead first
      holds. */
  lemma AndFirstStops(s: string, i: nat, looks: seq<Look>)
    requires i <= |s|
    ensures var r := First(|s|, DashMatches(s, "AND", looks), i);
            r.Some? ==> var (lo, hi) := r.value; i < lo < hi <= |s| && StopsAt(s, lo, hi, looks)
  {
    FirstKeeps(|s|, DashMatches(s, "AND", looks), i,
               (g: (nat, nat)) => i < g.0 < g.1 <= |s| && StopsAt(s, g.0, g.1, looks));
  }

  /** `(?:KW.+?)-\s*AND\s+(.+?)(?=looks)` at `p`: the keyword, at least one more character,
      then the nearest `- AND` whose group the lookahead can close. */
  function AndAt(s: string, p: nat, kw: string, looks: seq<Look>): (r: Option<(nat, nat)>)
    requires p <= |s|
    ensures r.Some? ==> var (lo, hi) := r.value; p < lo < hi <= |s| && StopsAt(s, lo, hi, looks) && CiPrefixAt(s, p, kw)
  {
    if CiPrefixAt(s, p, kw) && p + |kw| < |s| then
      var i := p + |kw| + 1;
      AndFirstStops(s, i, looks);
      First(|s|, DashMatches(s, "AND", looks), i)
    else None
  }

  /** After the keyword, the continuation is the first `- AND` match from `i`, the position
      after the keyword's next character. */
  lemma AndAtFirst(s: string, p: nat, kw: string, looks: seq<Look>, i: nat)
    requires CiPrefixAt(s, p, kw) && i == p + |kw| + 1 && i <= |s|
    ensures AndAt(s, p, kw, looks) == First(|s|, DashMatches(s, "AND", looks), i)
  {
    AndAtUnfold(s, p, kw, looks);
  }

  lemma AndAtUnfold(s: string, p: nat, kw: string, looks: seq<Look>)
    requires CiPrefixAt(s, p, kw) && p + |kw| < |s|
    ensures AndAt(s, p, kw, looks) == First(|s|, DashMatches(s, "AND", looks), p + |kw| + 1)
  {
  }

  /** Searching for a dash match from `i` finds one whenever there is one at some `q`. */
  lemma DashFirstSome(s: string, w: string, looks: seq<Look>, i: nat, q: nat)
    requires i <= q <= |s| && DashAt(s, q, w, looks).Some?
    ensures First(|s|, DashMatches(s, w, looks), i).Some?
  {
    DashMatchesAt(s, w, looks);
    FirstSome(|s|, DashMatches(s, w, looks), i, q);
  }

  /** Searching for a dash match from `i` finds the one at `q` when none lies between. */
  lemma DashFirstIs(s: string, w: string, looks: seq<Look>, i: nat, q: nat)
    requires i <= q <= |s| && DashAt(s, q, w, looks).Some?
    requires forall j :: i <= j < q ==> DashAt(s, j, w, looks).None?
    ensures First(|s|, DashMatches(s, w, looks), i) == DashAt(s, q, w, looks)
  {
    DashMatchesAt(s, w, looks);
    FirstIs(|s|, DashMatches(s, w, looks), i, q);
  }

  /** The continuation taken after the keyword at `p` is the one at the nearest `- AND`
      past the keyword's next character whose group the lookahead can close. */
  lemma AndAtIs(s: string, p: nat, kw: string, looks: seq<Look>, q: nat)
    requires CiPrefixAt(s, p, kw) && p + |kw| < q <= |s| && DashAt(s, q, "AND", looks).Some?
    requires forall j :: p + |kw| < j < q ==> DashAt(s, j, "AND", looks).None?
    ensures AndAt(s, p, kw, looks) == DashAt(s, q, "AND", looks)
  {
    var i := p + |kw| + 1;
    DashFirstIs(s, "AND", looks, i, q);
    AndAtFirst(s, p, kw, looks, i);
  }

  /** A `- AND` group the lookahead closes, anywhere past the keyword's next character,
      gives a continuation. */
  lemma AndAtFound(s: string, p: nat, kw: string, looks: seq<Look>, q: nat)
    requires CiPrefixAt(s, p, kw) && p + |kw| < q <= |s| && DashAt(s, q, "AND", looks).Some?
    ensures AndAt(s, p, kw, looks).Some?
  {
    var i := p + |kw| + 1;
    DashFirstSome(s, "AND", looks, i, q);
    AndAtFirst(s, p, kw, looks, i);
  }

  function AndMatches(s: string, kw: string, looks: seq<Look>): nat -> Option<(nat, nat)> {
    (j: nat) => if j <= |s| then AndAt(s, j, kw, looks) else None
  }

  lemma DashAdvancing(s: string, kw: string, looks: seq<Look>)
    ensures Advancing(|s|, DashMatches(s, kw, looks))
  {
  }

  lemma AndAdvancing(s: string, kw: string, looks: seq<Look>)
    ensures Advancing(|s|, AndMatches(s, kw, looks))
  {
  }

  function Slices(s: string, spans: seq<(nat, nat)>): (r: seq<string>)
    requires forall k :: 0 <= k < |spans| ==> spans[k].0 <= spans[k].1 <= |s|
    ensures |r| == |spans|
    ensures forall k :: 0 <= k < |r| ==> r[k] == s[spans[k].0..spans[k].1]
  {
    seq(|spans|, k requires 0 <= k < |spans| => s[spans[k].0..spans[k].1])
  }

  /** The group bounds `re.findall` gives for a clause's own pattern. */
  function OwnSpans(s: string, c: Clause): (r: seq<(nat, nat)>)
    ensures forall k :: 0 <= k < |r| ==> r[k].0 < r[k].1 <= |s|
  {
    DashAdvancing(s, Keyword(c), OwnLooks(c));
    FindAll(|s|, DashMatches(s, Keyword(c), OwnLooks(c)), 0)
  }

  /** The group bounds `re.findall` gives for a clause's AND pattern. */
  function AndSpans(s: string, c: Clause): (r: seq<(nat, nat)>)
    ensures forall k :: 0 <= k < |r| ==> r[k].0 < r[k].1 <= |s|
  {
    AndAdvancing(s, Keyword(c), AndLooks(c));
    FindAll(|s|, AndMatches(s, Keyword(c), AndLooks(c)), 0)
  }

  /** Every group of a clause ends where its lookahead first holds after its first
      character: an own group before the next `- AND`, the next clause's dash or a final
      newline; an AND group only before the next clause's dash (or the end, after THEN). */
  lemma ClauseStops(s: string, c: Clause)
    ensures forall k :: 0 <= k < |OwnSpans(s, c)| ==> StopsAt(s, OwnSpans(s, c)[k].0, OwnSpans(s, c)[k].1, OwnLooks(c))
    ensures forall k :: 0 <= k < |AndSpans(s, c)| ==> StopsAt(s, AndSpans(s, c)[k].0, AndSpans(s, c)[k].1, AndLooks(c))
  {
    var kw := Keyword(c);
    DashAdvancing(s, kw, OwnLooks(c));
    AndAdvancing(s, kw, AndLooks(c));
    FindAllKeeps(|s|, DashMatches(s, kw, OwnLooks(c)), 0, (lo: nat, hi: nat) => StopsAt(s, lo, hi, OwnLooks(c)));
    FindAllKeeps(|s|, AndMatches(s, kw, AndLooks(c)), 0, (lo: nat, hi: nat) => StopsAt(s, lo, hi, AndLooks(c)));
  }

  /** A clause line `- KW` followed by whitespace and at least one more character always
      yields a group of the clause's own pattern: its lookahead holds at the end. */
  lemma ClauseFound(s: string, c: Clause, p: nat)
    requires p < |s| && s[p] == '-' && CiPrefixAt(s, SkipSpaces(s, p + 1), Keyword(c))
    requires SkipSpaces(s, p + 1) + |Keyword(c)| + 1 < |s| && IsSpace(s[SkipSpaces(s, p + 1) + |Keyword(c)|])
    ensures OwnSpans(s, c) != [] && ClauseGroups(s, c) != []
  {
    var kw := Keyword(c);
    EndHolds(s, OwnLooks(c));
    DashFound(s, p, kw, OwnLooks(c), |s|);
    DashAdvancing(s, kw, OwnLooks(c));
    assert DashMatches(s, kw, OwnLooks(c))(p).Some?;
  }

  /** The keyword at `p` followed, past its next character, by a `- AND` group that the
      continuation's lookahead closes always yields a group of the clause's AND pattern. */
  lemma AndClauseFound(s: string, c: Clause, p: nat, q: nat)
    requires CiPrefixAt(s, p, Keyword(c)) && p + |Keyword(c)| < q <= |s|
    requires DashAt(s, q, "AND", AndLooks(c)).Some?
    ensures AndSpans(s, c) != [] && ClauseGroups(s, c) != []
  {
    var kw := Keyword(c);
    AndAtFound(s, p, kw, AndLooks(c), q);
    AndAdvancing(s, kw, AndLooks(c));
    assert AndMatches(s, kw, AndLooks(c))(p).Some?;
  }

  /** `all_given`, `all_when` or `all_then`: the groups of the clause's own pattern, then
      those of its AND pattern. */
  function ClauseGroups(s: string, c: Clause): seq<string> {
    Slices(s, OwnSpans(s, c)) + Slices(s, AndSpans(s, c))
  }

  /** Each group with its whitespace collapsed. */
  function Tidied(groups: seq<string>): (r: seq<string>)
    ensures |r| == |groups|
    ensures forall k :: 0 <= k < |r| ==> Collapsed(r[k])
  {
    seq(|groups|, k requires 0 <= k < |groups| => Collapse(Strip(groups[k])))
  }

  lemma TidiedOneLine(groups: seq<string>)
    ensures forall k :: 0 <= k < |groups| ==> Lacks(Tidied(groups)[k], '\n')
  {
    forall k | 0 <= k < |groups| ensures Lacks(Tidied(groups)[k], '\n') {
      CollapsedHasNoNewline(Tidied(groups)[k]);
    }
  }

  lemma OneGroupEmpty(groups: seq<string>)
    requires |groups| == 1
    ensures Tidied(groups)[0] == [] <==> AllSpace(groups[0])
  {
    CollapseEmpty(Strip(groups[0]));
    if Strip(groups[0]) != [] {
      assert !IsSpace(Strip(groups[0])[0]);
    }
  }

  const AndSep: string := " AND "

  /** The clause text: the tidied groups joined with ` AND `. It is on one line, and it is
      empty exactly when there are no groups, or one group of nothing but whitespace. */
  function ClauseText(groups: seq<string>): (r: string)
    ensures Lacks(r, '\n')
    ensures r == [] <==> groups == [] || (|groups| == 1 && AllSpace(groups[0]))
  {
    var parts := Tidied(groups);
    TidiedOneLine(groups);
    JoinLacks(AndSep, parts, '\n');
    if |groups| == 1 then OneGroupEmpty(groups); Join(AndSep, parts) else Join(AndSep, parts)
  }

  /** The groups make a non-empty clause: two or more of them, or one that is not all
      whitespace. */
  predicate Found(groups: seq<string>) {
    |groups| >= 2 || (|groups| == 1 && !AllSpace(groups[0]))
  }

  /** A scenario's criterion as `_extract_given_when_then` returns it: kept exactly when the
      content yields a non-empty GIVEN, WHEN and THEN clause, and then carrying the scenario's
      name and the three clause texts. */
  function ExtractCriterion(name: string, content: string): (r: Option<Criterion>)
    ensures var gs, ws, ts := ClauseGroups(content, Given), ClauseGroups(content, When), ClauseGroups(content, Then);
      && (r.Some? <==> Found(gs) && Found(ws) && Found(ts))
      && (r.Some? ==> r.value == Criterion(name, ClauseText(gs), ClauseText(ws), ClauseText(ts)))
  {
    var gs, ws, ts := ClauseGroups(content, Given), ClauseGroups(content, When), ClauseGroups(content, Then);
    var g, w, t := ClauseText(gs), ClauseText(ws), ClauseText(ts);
    if g != [] && w != [] && t != [] then Some(Criterion(name, g, w, t)) else None
  }

  // ---------------------------------------------------------------------------------------
  // The whole response
  // ---------------------------------------------------------------------------------------

  /** A criterion the parser keeps: a stripped name with no `*`, and three non-empty clauses,
      each on one line. */
  predicate Shaped(c: Criterion) {
    && Trimmed(c.name) && Lacks(c.name, '*')
    && c.givenClause != [] && Lacks(c.givenClause, '\n')
    && c.whenClause != [] && Lacks(c.whenClause, '\n')
    && c.thenClause != [] && Lacks(c.thenClause, '\n')
  }

  /** The criterion of the `k`-th scenario: its stripped name with its stripped content. */
  function ScenarioOf(sp: Sections, k: nat): (r: Option<Criterion>)
    requires WellSplit(sp) && k < |sp.heads|
    ensures r.Some? ==> Shaped(r.value)
  {
    assert WellFormedHead(sp.heads[k]);
    ExtractCriterion(Strip(sp.heads[k].name), Strip(sp.pieces[k + 1]))
  }

  /** `_parse_criteria`: one candidate per scenario header, in order, each kept when its
      clauses are all present; the text before the first header is never used. */
  function ParseCriteria(text: string): (r: seq<Criterion>)
    ensures |r| <= |SplitScenarios(text).heads|
    ensures forall k :: 0 <= k < |r| ==> Shaped(r[k])
  {
    var sp := SplitScenarios(text);
    var found := seq(|sp.heads|, k requires 0 <= k < |sp.heads| => ScenarioOf(sp, k));
    SomesKeep(found, Shaped);
    Somes(found)
  }

  /** Where a header's text occurs, its parts occur at the matching offsets. */
  lemma HeadTextPieces(s: string, i: nat, h: Head)
    requires i + |HeadText(h)| <= |s| && s[i..i + |HeadText(h)|] == HeadText(h)
    ensures var a := i + |ScenarioOpen|; var d := a + |h.number|; var e := d + 1 + |h.name|;
      && s[i..a] == ScenarioOpen && s[a..d] == h.number && s[d] == ':'
      && s[d + 1..e] == h.name && s[e] == '*' && s[e + 1] == '*'
  {
    var a := i + |ScenarioOpen|;
    var d := a + |h.number|;
    var e := d + 1 + |h.name|;
    SliceOfConcat(s, i, e + 2, ScenarioOpen + h.number + ":" + h.name, Stars);
    SliceOfConcat(s, i, e, ScenarioOpen + h.number + ":", h.name);
    SliceOfConcat(s, i, d + 1, ScenarioOpen + h.number, ":");
    SliceOfConcat(s, i, d, ScenarioOpen, h.number);
    assert s[d] == s[d..d + 1][0];
    assert s[e] == s[e..e + 2][0] && s[e + 1] == s[e..e + 2][1];
  }

  /** A slice that spells `x + y` splits into a slice spelling `x` and one spelling `y`. */
  lemma SliceOfConcat(s: string, i: nat, k: nat, x: string, y: string)
    requires i + |x| + |y| == k <= |s| && s[i..k] == x + y
    ensures s[i..i + |x|] == x && s[i + |x|..k] == y
  {
    assert s[i..i + |x|] == s[i..k][..|x|];
    assert s[i + |x|..k] == s[i..k][|x|..];
  }

  /** The text of a well-formed header is recognised as a header wherever it occurs. */
  lemma HeadTextAt(s: string, i: nat, h: Head)
    requires WellFormedHead(h)
    requires i + |HeadText(h)| <= |s| && s[i..i + |HeadText(h)|] == HeadText(h)
    ensures HeadAt(s, i).Some?
  {
    var a := i + |ScenarioOpen|;
    var d := a + |h.number|;
    var e := d + 1 + |h.name|;
    HeadTextPieces(s, i, h);
    forall k | a <= k < d ensures IsDigit(s[k]) {
      assert s[k] == s[a..d][k - a];
    }
    SkipDigitsTo(s, a, d);
    forall k | d + 1 <= k < e ensures s[k] != '*' {
      assert s[k] == s[d + 1..e][k - d - 1];
    }
    RunEndTo(s, d + 1, e, '*');
  }

  /** The text has a scenario header exactly when the split finds one. */
  lemma SplitFindsHeaders(text: string)
    ensures SplitScenarios(text).heads == [] <==> HeadFree(text)
  {
    var sp := SplitScenarios(text);
    if sp.heads == [] {
      assert text == sp.pieces[0];
    } else {
      var p := sp.pieces[0];
      var h := sp.heads[0];
      var rest := Weave(sp.pieces[1..], sp.heads[1..]);
      assert text == p + HeadText(h) + rest;
      assert text[|p|..|p| + |HeadText(h)|] == HeadText(h);
      HeadTextAt(text, |p|, h);
    }
  }

  /** Without a scenario header the response yields no criteria. */
  lemma NoHeaderNoCriteria(text: string)
    requires HeadFree(text)
    ensures ParseCriteria(text) == []
  {
    SplitFindsHeaders(text);
  }

  const GenerationErrorPrefix: string := "Acceptance criteria generation error: "

  /** `AcceptanceCriteriaGenerator.generate` given whether the client configured and what the
      one call returned. The not-configured error is raised before the `try`, so it is not
      prefixed; a failed call is. */
  function Generate(configured: bool, outcome: Outcome): (r: Result<CriteriaBatch, string>)
    ensures !configured ==> r == Failure(NotConfiguredMessage)
    ensures configured && outcome.Raised? ==> r == Failure(GenerationErrorPrefix + outcome.message)
    ensures r.Success? <==> configured && outcome.Response?
    ensures r.Success? ==> r.value.rawOutput == outcome.text && r.value.criteria == ParseCriteria(outcome.text)
    ensures r.Success? ==> r.value.totalScenarios == |r.value.criteria|
  {
    if !configured then Failure(NotConfiguredMessage)
    else
      match outcome
      case Raised(m) => Failure(GenerationErrorPrefix + m)
      case Response(text) =>
        var criteria := ParseCriteria(text);
        Success(CriteriaBatch(criteria, text, |criteria|))
  }

  // ---------------------------------------------------------------------------------------
  // Output
  // ---------------------------------------------------------------------------------------

  const CriteriaHeading: string := "## \U{2705} Acceptance " + "Criteria (Given-When-Then)\n"
  const ScenarioRule: string := "\n---\n"

  /** The output pieces `format_for_display` appends for the scenario numbered `idx`. */
  function ScenarioParts(c: Criterion, idx: nat): seq<string> {
    ["### Scenario " + NatToString(idx) + ": " + c.name + "\n",
     "**GIVEN** " + c.givenClause + "\n",
     "**WHEN** " + c.whenClause + "\n",
     "**THEN** " + c.thenClause + "\n",
     ScenarioRule]
  }

  /** The pieces for the scenarios, numbered from `idx`. */
  function AllParts(cs: seq<Criterion>, idx: nat): (r: seq<string>)
    ensures |r| == 5 * |cs|
  {
    if cs == [] then [] else ScenarioParts(cs[0], idx) + AllParts(cs[1..], idx + 1)
  }

  function TotalLine(b: CriteriaBatch): string {
    "\n**Total Scenarios**: " + NatToString(b.totalScenarios)
  }

  /** `format_for_display`: the output pieces joined with newlines. */
  function FormatForDisplay(b: CriteriaBatch): string {
    Join("\n", [CriteriaHeading] + AllParts(b.criteria, 1) + [TotalLine(b)])
  }

  /** Reference layout of one scenario: its heading, GIVEN, WHEN and THEN lines each followed
      by a blank line, then the rule and a newline. */
  function ScenarioBlock(c: Criterion, idx: nat): string {
    var l := "\n";
    ("### Scenario " + NatToString(idx) + ": " + c.name + l) + l
      + (("**GIVEN** " + c.givenClause + l) + l
      + (("**WHEN** " + c.whenClause + l) + l
      + (("**THEN** " + c.thenClause + l) + l
      + (ScenarioRule + l))))
  }

  function ScenarioBlocks(cs: seq<Criterion>, idx: nat): string {
    if cs == [] then [] else ScenarioBlock(cs[0], idx) + ScenarioBlocks(cs[1..], idx + 1)
  }

  lemma PartsBlock(c: Criterion, idx: nat)
    ensures Concat(Suffixed(ScenarioParts(c, idx), "\n")) == ScenarioBlock(c, idx)
  {
    var ps := ScenarioParts(c, idx);
    var l := "\n";
    var t4: seq<string> := [ps[4]];
    var t3 := [ps[3]] + t4;
    var t2 := [ps[2]] + t3;
    var t1 := [ps[1]] + t2;
    assert ps == [ps[0]] + t1;
    assert t4 == [ps[4]] + [];
    assert Concat(Suffixed([], l)) == [];
    SuffixedCons(ps[4], [], l);
    SuffixedCons(ps[3], t4, l);
    SuffixedCons(ps[2], t3, l);
    SuffixedCons(ps[1], t2, l);
    SuffixedCons(ps[0], t1, l);
  }

  lemma {:induction false} AllPartsBlocks(cs: seq<Criterion>, idx: nat)
    ensures Concat(Suffixed(AllParts(cs, idx), "\n")) == ScenarioBlocks(cs, idx)
    decreases |cs|
  {
    if cs != [] {
      AllPartsBlocks(cs[1..], idx + 1);
      PartsBlock(cs[0], idx);
      SuffixedAppend(ScenarioParts(cs[0], idx), AllParts(cs[1..], idx + 1), "\n");
      ConcatAppend(Suffixed(ScenarioParts(cs[0], idx), "\n"), Suffixed(AllParts(cs[1..], idx + 1), "\n"));
    }
  }

  /** The display text is the heading, then the scenarios numbered 1, 2, … in order, each
      with its name and its three clauses on their own lines and a rule after it, then the
      total. */
  lemma DisplayLayout(b: CriteriaBatch)
    ensures FormatForDisplay(b) == CriteriaHeading + "\n" + ScenarioBlocks(b.criteria, 1) + TotalLine(b)
  {
    JoinAppend("\n", [CriteriaHeading] + AllParts(b.criteria, 1), [TotalLine(b)]);
    SuffixedAppend([CriteriaHeading], AllParts(b.criteria, 1), "\n");
    ConcatAppend(Suffixed([CriteriaHeading], "\n"), Suffixed(AllParts(b.criteria, 1), "\n"));
    AllPartsBlocks(b.criteria, 1);
  }

  /** The four Gherkin lines of a scenario and the blank line after it. */
  function GherkinParts(c: Criterion): seq<string> {
    ["  Scenario: " + c.name,
     "    Given " + c.givenClause,
     "    When " + c.whenClause,
     "    Then " + c.thenClause,
     ""]
  }

  function AllGherkin(cs: seq<Criterion>): (r: seq<string>)
    ensures |r| == 5 * |cs|
  {
    if cs == [] then [] else GherkinParts(cs[0]) + AllGherkin(cs[1..])
  }

  /** `format_for_gherkin`: the feature line (which ends in its own newline) and the
      scenarios' lines, joined with newlines. */
  function FormatForGherkin(b: CriteriaBatch, feature: string): string {
    Join("\n", ["Feature: " + feature + "\n"] + AllGherkin(b.criteria))
  }

  const DefaultFeature: string := "User Story"

  /** A criterion that fits on Gherkin lines: shaped as parsed, and with a one-line name. */
  predicate OneLine(c: Criterion) {
    Shaped(c) && Lacks(c.name, '\n')
  }

  lemma GherkinPartsOneLine(c: Criterion)
    requires OneLine(c)
    ensures forall x :: x in GherkinParts(c) ==> Lacks(x, '\n')
  {
    LacksAppend("  Scenario: ", c.name, '\n');
    LacksAppend("    Given ", c.givenClause, '\n');
    LacksAppend("    When ", c.whenClause, '\n');
    LacksAppend("    Then ", c.thenClause, '\n');
  }

  lemma {:induction false} AllGherkinOneLine(cs: seq<Criterion>)
    requires forall k :: 0 <= k < |cs| ==> OneLine(cs[k])
    ensures forall x :: x in AllGherkin(cs) ==> Lacks(x, '\n')
    decreases |cs|
  {
    if cs != [] {
      GherkinPartsOneLine(cs[0]);
      AllGherkinOneLine(cs[1..]);
    }
  }

  /** The feature line's own newline is the same as an empty line after it. */
  lemma FeatureLine(f: string, xs: seq<string>)
    ensures Join("\n", [f + "\n"] + xs) == Join("\n", [f, ""] + xs)
  {
    var l := "\n";
    assert ([f, ""] + xs)[1..] == [""] + xs;
    if xs != [] {
      assert ([f + l] + xs)[1..] == xs;
      assert ([""] + xs)[1..] == xs;
    }
  }

  /** Read back line by line, the Gherkin text is the feature line, a blank line, and for each
      scenario in order its `Scenario:`, `Given`, `When` and `Then` lines and a blank line. */
  lemma GherkinLines(b: CriteriaBatch, feature: string)
    requires Lacks(feature, '\n')
    requires forall k :: 0 <= k < |b.criteria| ==> OneLine(b.criteria[k])
    ensures Split(FormatForGherkin(b, feature), "\n") == ["Feature: " + feature, ""] + AllGherkin(b.criteria)
  {
    var lines := ["Feature: " + feature, ""] + AllGherkin(b.criteria);
    FeatureLine("Feature: " + feature, AllGherkin(b.criteria));
    LacksAppend("Feature: ", feature, '\n');
    AllGherkinOneLine(b.criteria);
    SplitJoin(lines, '\n');
  }

  /** Called without a feature name, the export opens with `Feature: User Story`. */
  lemma GherkinDefaultFeature(b: CriteriaBatch)
    requires forall k :: 0 <= k < |b.criteria| ==> OneLine(b.criteria[k])
    ensures Split(FormatForGherkin(b, DefaultFeature), "\n")[0] == "Feature: " + "User Story"
  {
    assert Lacks(DefaultFeature, '\n');
    GherkinLines(b, DefaultFeature);
  }
}
