/** The requirements pipeline (backend/services/requirements_extractor.py): the retry loop
    around the generation service, the standard parse (sections split on `##`, three ordered
    line patterns, a line-scan fallback, normalisation and a length filter), the alternative
    line-by-line parse, and the display formatter. */
module Requirements {
  import opened Wrappers
  import opened Text
  import opened Patterns
  import opened Generation

  /** The two requirement prefixes the extractor is called with. */
  datatype Prefix = FR | NFR

  function PrefixText(p: Prefix): string {
    if p == FR then "FR" else "NFR"
  }

  datatype Kind = Functional | NonFunctional

  /** The `req_type` value of a requirement of this kind. */
  function KindLabel(k: Kind): string {
    if k == Functional then "Functional" else "Non-Functional"
  }

  /** One record: `req_code`, `req_type`, `description`. */
  datatype Requirement = Requirement(code: string, kind: Kind, description: string)

  /** The dictionary the parsers return. `rawOutput` is the `raw_output` key, which only the
      standard parse attaches. */
  datatype Extraction = Extraction(
    functional: seq<Requirement>,
    nonFunctional: seq<Requirement>,
    totalCount: nat,
    rawOutput: Option<string>)

  /** A `(code, description)` pair found by one of the patterns, before normalisation. */
  datatype Candidate = Candidate(code: string, text: string)

  // ---------------------------------------------------------------------------------------
  // The three structured patterns
  // ---------------------------------------------------------------------------------------

  /** The part of a structured pattern before the description: the code's bounds and the
      position after its colon.
        Bulleted: `[-*•]\s*(P-\d+):`   Plain: `\n(P-\d+):`   Bold: `\*\*(P-\d+)\*\*:` */
  function CodeHeadAt(s: string, i: nat, style: CodeStyle, prefix: string): (r: Option<(nat, nat, nat)>)
    requires i <= |s|
    ensures r.Some? ==> var (lo, hi, next) := r.value; i < lo < hi < next <= |s| && IsCode(s[lo..hi], prefix)
  {
    match style
    case Bulleted =>
      if i < |s| && IsBullet(s[i]) then
        var k := SkipSpaces(s, i + 1);
        match CodeEnd(s, k, prefix)
        case Some(d) => if d < |s| && s[d] == ':' then Some((k, d, d + 1)) else None
        case None => None
      else None
    case Plain =>
      if i < |s| && s[i] == '\n' then
        match CodeEnd(s, i + 1, prefix)
        case Some(d) => if d < |s| && s[d] == ':' then Some((i + 1, d, d + 1)) else None
        case None => None
      else None
    case Bold =>
      if PrefixAt(s, i, "**") then
        PrefixAtSlice(s, i, "**");
        match CodeEnd(s, i + 2, prefix)
        case Some(d) =>
          PrefixAtSlice(s, d, "**:");
          if PrefixAt(s, d, "**:") then Some((i + 2, d, d + 3)) else None
        case None => None
      else None
  }

  /** The lookahead that ends a description: the next line in the same layout, `\n##`, or
      the end of the section. */
  function ItemLooks(style: CodeStyle, prefix: string): seq<Look> {
    [NextCode(style, prefix), Lit("\n##"), EndOfText]
  }

  /** One structured-pattern match at position `i` and where it ends. */
  function MatchAt(s: string, i: nat, style: CodeStyle, prefix: string): (r: Option<(Candidate, nat)>)
    requires i <= |s|
    ensures r.Some? ==> i < r.value.1 <= |s| && IsCode(r.value.0.code, prefix)
  {
    match CodeHeadAt(s, i, style, prefix)
    case None => None
    case Some(h) =>
      match Capture(s, h.2, 0, true, ItemLooks(style, prefix))
      case None => None
      case Some(g) => Some((Candidate(s[h.0..h.1], s[g.0..g.1]), g.1))
  }

  /** Where a structured pattern matches in `s`, position by position. */
  function ItemMatches(s: string, style: CodeStyle, prefix: string): nat -> Option<(Candidate, nat)> {
    (j: nat) => if j <= |s| then MatchAt(s, j, style, prefix) else None
  }

  lemma ItemsProgress(s: string, style: CodeStyle, prefix: string)
    ensures Progressing(|s|, ItemMatches(s, style, prefix))
  {
  }

  /** `re.findall` of one structured pattern from position `i`: scan left to right and resume
      after each match. Nothing is found exactly when the pattern matches nowhere, and every
      code found has the form `P-\d+`. */
  function FindItems(s: string, style: CodeStyle, prefix: string, i: nat): (r: seq<Candidate>)
    requires i <= |s|
    ensures r == [] <==> forall j :: i <= j < |s| ==> MatchAt(s, j, style, prefix).None?
    ensures forall k :: 0 <= k < |r| ==> IsCode(r[k].code, prefix)
  {
    var m := ItemMatches(s, style, prefix);
    ItemsProgress(s, style, prefix);
    ScanKeeps(|s|, m, i, (c: Candidate) => IsCode(c.code, prefix));
    ScanEmpty(|s|, m, i);
    assert forall j :: i <= j < |s| ==> m(j) == MatchAt(s, j, style, prefix);
    Scan(|s|, m, i)
  }

  /** Where the description starts: after `:` in the bulleted and plain layouts, after
      `**:` in the bold one. */
  function ColonEnd(style: CodeStyle, d: nat): (r: nat)
    ensures r > d
  {
    if style == Bold then d + 3 else d + 1
  }

  /** The head of a structured line at `i` with the code `s[k..d]`, spelled out character by
      character: `[-*•]\s*` then the code then `:`; a newline then the code then `:`; or
      `**`, the code, `**:`. */
  predicate ItemHeadAt(s: string, i: nat, style: CodeStyle, prefix: string, k: nat, d: nat) {
    && i < k < d && ColonEnd(style, d) <= |s|
    && IsCode(s[k..d], prefix)
    && match style
       case Bulleted => IsBullet(s[i]) && (forall j :: i < j < k ==> IsSpace(s[j])) && s[d] == ':'
       case Plain => k == i + 1 && s[i] == '\n' && s[d] == ':'
       case Bold => k == i + 2 && s[i] == '*' && s[i + 1] == '*' && s[d] == '*' && s[d + 1] == '*' && s[d + 2] == ':'
  }

  /** The head pattern recognises every structured line head where it starts. */
  lemma CodeHeadFound(s: string, i: nat, style: CodeStyle, p: Prefix, k: nat, d: nat)
    requires ItemHeadAt(s, i, style, PrefixText(p), k, d)
    ensures CodeHeadAt(s, i, style, PrefixText(p)) == Some((k, d, ColonEnd(style, d)))
  {
    match style
    case Bulleted => BulletedHeadFound(s, i, p, k, d);
    case Plain => PlainHeadFound(s, i, p, k, d);
    case Bold => BoldHeadFound(s, i, p, k, d);
  }

  lemma BulletedHeadFound(s: string, i: nat, p: Prefix, k: nat, d: nat)
    requires ItemHeadAt(s, i, Bulleted, PrefixText(p), k, d)
    ensures CodeHeadAt(s, i, Bulleted, PrefixText(p)) == Some((k, d, d + 1))
  {
    CodeEndAt(s, k, d, PrefixText(p));
    BulletRunEnds(s, i, p, k, d);
  }

  lemma PlainHeadFound(s: string, i: nat, p: Prefix, k: nat, d: nat)
    requires ItemHeadAt(s, i, Plain, PrefixText(p), k, d)
    ensures CodeHeadAt(s, i, Plain, PrefixText(p)) == Some((k, d, d + 1))
  {
    CodeEndAt(s, k, d, PrefixText(p));
  }

  lemma BoldHeadFound(s: string, i: nat, p: Prefix, k: nat, d: nat)
    requires ItemHeadAt(s, i, Bold, PrefixText(p), k, d)
    ensures CodeHeadAt(s, i, Bold, PrefixText(p)) == Some((k, d, d + 3))
  {
    CodeEndAt(s, k, d, PrefixText(p));
    assert s[i..i + 2] == "**";
    PrefixAtSlice(s, i, "**");
    assert s[d..d + 3] == "**:";
    PrefixAtSlice(s, d, "**:");
  }

  /** The whitespace after a bullet ends where the code starts, since a code starts with a
      letter. */
  lemma BulletRunEnds(s: string, i: nat, p: Prefix, k: nat, d: nat)
    requires ItemHeadAt(s, i, Bulleted, PrefixText(p), k, d)
    ensures SkipSpaces(s, i + 1) == k
  {
    var prefix := PrefixText(p);
    assert s[k] == s[k..d][0] == prefix[0];
    assert !IsSpace(prefix[0]);
    SkipSpacesTo(s, i + 1, k);
  }

  /** A structured line with at least one character after its colon is matched where it
      starts: the candidate carries its code and the lazily captured description, and the
      search resumes after the description. */
  lemma ItemFound(s: string, i: nat, style: CodeStyle, p: Prefix, k: nat, d: nat)
    requires ItemHeadAt(s, i, style, PrefixText(p), k, d)
    requires ColonEnd(style, d) < |s|
    ensures var g := Capture(s, ColonEnd(style, d), 0, true, ItemLooks(style, PrefixText(p)));
            g.Some? && var (lo, hi) := g.value;
            MatchAt(s, i, style, PrefixText(p)) == Some((Candidate(s[k..d], s[lo..hi]), hi))
  {
    CodeHeadFound(s, i, style, p, k, d);
    CaptureTotal(s, ColonEnd(style, d), ItemLooks(style, PrefixText(p)));
  }

  /** The first item `re.findall` returns is the leftmost match, and the rest are found
      after it. */
  lemma FindItemsFirst(s: string, style: CodeStyle, prefix: string, i: nat, j: nat)
    requires i <= j < |s| && MatchAt(s, j, style, prefix).Some?
    requires forall k :: i <= k < j ==> MatchAt(s, k, style, prefix).None?
    ensures var (c, e) := MatchAt(s, j, style, prefix).value;
            FindItems(s, style, prefix, i) == [c] + FindItems(s, style, prefix, e)
  {
    ItemsProgress(s, style, prefix);
    var m := ItemMatches(s, style, prefix);
    assert forall k :: i <= k <= j ==> m(k) == MatchAt(s, k, style, prefix);
    ScanFirst(|s|, m, i, j);
  }

  /** A section with a structured line anywhere in it yields items in that layout. */
  lemma ItemLineFound(s: string, style: CodeStyle, p: Prefix, i: nat, k: nat, d: nat)
    requires ItemHeadAt(s, i, style, PrefixText(p), k, d) && ColonEnd(style, d) < |s|
    ensures FindItems(s, style, PrefixText(p), 0) != []
  {
    ItemFound(s, i, style, p, k, d);
  }

  // ---------------------------------------------------------------------------------------
  // The line-scan fallback
  // ---------------------------------------------------------------------------------------

  /** The class `[:.\s]`. */
  predicate IsSeparator(c: char) {
    c == ':' || c == '.' || IsSpace(c)
  }

  function SkipSeparators(s: string, i: nat): (k: nat)
    requires i <= |s|
    ensures i <= k <= |s|
    ensures forall j :: i <= j < k ==> IsSeparator(s[j])
    ensures k < |s| ==> !IsSeparator(s[k])
    decreases |s| - i
  {
    if i < |s| && IsSeparator(s[i]) then SkipSeparators(s, i + 1) else i
  }

  /** Backtracking `[:.\s]+` so that the greedy `(.+)` after it gets a first character. */
  function GreedyStart(s: string, p: nat, lo: nat): (r: Option<nat>)
    requires lo <= p <= |s|
    ensures r.Some? ==> lo <= r.value <= p && r.value < |s| && s[r.value] != '\n'
    decreases p
  {
    if p < |s| && s[p] != '\n' then Some(p)
    else if p > lo then GreedyStart(s, p - 1, lo)
    else None
  }

  /** `P-?\d+`: the prefix, an optional hyphen and a non-empty digit run. */
  predicate IsLooseCode(c: string, prefix: string) {
    IsCode(c, prefix)
    || (|c| > |prefix| && c[..|prefix|] == prefix && AllDigits(c[|prefix|..]))
  }

  /** `(P-?\d+)[:.\s]+(.+)` matched at position `i` of one line. The code is the text at
      `i` and is followed by a separator; on a line without newlines the description is the
      non-empty rest of the line after the separator run, less the last separator when the
      run reaches the end. */
  function LineMatchAt(line: string, i: nat, prefix: string): (r: Option<Candidate>)
    requires i <= |line|
    ensures r.Some? ==> IsLooseCode(r.value.code, prefix)
    ensures r.Some? ==> var e := i + |r.value.code|; e < |line| && line[i..e] == r.value.code && IsSeparator(line[e])
    ensures r.Some? && Lacks(line, '\n') ==>
              var c := r.value; var t := |line| - |c.text|;
              i + |c.code| < t < |line| && line[t..] == c.text
              && forall j :: i + |c.code| <= j < t ==> IsSeparator(line[j])
  {
    if !PrefixAt(line, i, prefix) then None
    else
      PrefixAtSlice(line, i, prefix);
      var j := i + |prefix|;
      var d0 := if j + 1 < |line| && line[j] == '-' && IsDigit(line[j + 1]) then j + 1 else j;
      var d := SkipDigits(line, d0);
      if d == d0 then None
      else
        LooseCodeAt(line, i, d0, d, prefix);
        LineRest(line, i, d)
  }

  /** What follows a loose code ending at `d`: `[:.\s]+(.+)`, the description running to the
      end of its line. */
  function LineRest(line: string, i: nat, d: nat): (r: Option<Candidate>)
    requires i < d <= |line|
    ensures r.Some? ==> r.value.code == line[i..d] && d < |line| && IsSeparator(line[d])
    ensures r.Some? && Lacks(line, '\n') ==>
              var t := |line| - |r.value.text|;
              d < t < |line| && line[t..] == r.value.text && forall j :: d <= j < t ==> IsSeparator(line[j])
  {
    var m := SkipSeparators(line, d);
    if m == d then None
    else
      match GreedyStart(line, m, d + 1)
      case None => None
      case Some(p) =>
        LineTail(line, d, m, p);
        Some(Candidate(line[i..d], line[p..RunEnd(line, p, '\n')]))
  }

  /** On a line without newlines the description runs to the end of the line, after a
      non-empty run of separators. */
  lemma LineTail(line: string, d: nat, m: nat, p: nat)
    requires d < p <= m <= |line| && p < |line|
    requires forall j :: d <= j < m ==> IsSeparator(line[j])
    requires line[p] != '\n'
    ensures Lacks(line, '\n') ==>
              var text := line[p..RunEnd(line, p, '\n')]; var t := |line| - |text|;
              d < t < |line| && line[t..] == text && forall j :: d <= j < t ==> IsSeparator(line[j])
  {
    if Lacks(line, '\n') {
      assert RunEnd(line, p, '\n') == |line|;
    }
  }

  /** The text from a prefix occurrence at `i` to the end of the digit run that starts
      right after the prefix, or after the prefix and one hyphen, is a loose code. */
  lemma LooseCodeAt(line: string, i: nat, d0: nat, d: nat, prefix: string)
    requires i + |prefix| <= d0 < d <= |line|
    requires line[i..i + |prefix|] == prefix
    requires d0 == i + |prefix| || (d0 == i + |prefix| + 1 && line[i + |prefix|] == '-')
    requires forall k :: d0 <= k < d ==> IsDigit(line[k])
    ensures IsLooseCode(line[i..d], prefix)
  {
    var c := line[i..d];
    assert c[..|prefix|] == prefix;
    if d0 == i + |prefix| + 1 {
      assert c[..|prefix| + 1] == prefix + "-";
      assert c[|prefix| + 1..] == line[d0..d];
    } else {
      assert c[|prefix|..] == line[d0..d];
    }
  }

  /** Where the loose pattern matches in a line, position by position. */
  function LineMatches(line: string, prefix: string): nat -> Option<Candidate> {
    (j: nat) => if j <= |line| then LineMatchAt(line, j, prefix) else None
  }

  /** What a loose match promises, whatever its position. */
  predicate LooseOk(line: string, prefix: string, c: Candidate) {
    IsLooseCode(c.code, prefix)
    && (Lacks(line, '\n') ==> |c.text| < |line| && line[|line| - |c.text|..] == c.text)
  }

  /** `re.search` of the loose pattern: the leftmost position where it matches. */
  function SearchLine(line: string, prefix: string, i: nat): (r: Option<Candidate>)
    requires i <= |line|
    ensures r.Some? ==> IsLooseCode(r.value.code, prefix)
    ensures r.Some? && Lacks(line, '\n') ==> var c := r.value; |c.text| < |line| && line[|line| - |c.text|..] == c.text
  {
    FirstKeeps(|line|, LineMatches(line, prefix), i, (c: Candidate) => LooseOk(line, prefix, c));
    First(|line|, LineMatches(line, prefix), i)
  }

  /** A line the fallback looks at: it contains the prefix (anywhere, so `FR` is found inside
      `NFR-001`) and a colon. */
  predicate ScanCandidateLine(line: string, prefix: string) {
    Contains(line, prefix) && Contains(line, ":")
  }

  /** `re.search` of the loose pattern finds nothing exactly when it matches nowhere. */
  lemma SearchLineNone(line: string, prefix: string, i: nat)
    requires i <= |line|
    ensures SearchLine(line, prefix, i).None? <==> forall j :: i <= j <= |line| ==> LineMatchAt(line, j, prefix).None?
  {
    FirstNone(|line|, LineMatches(line, prefix), i);
    assert forall j :: i <= j <= |line| ==> LineMatches(line, prefix)(j) == LineMatchAt(line, j, prefix);
  }

  /** `re.search` of the loose pattern returns the leftmost match. */
  lemma SearchLineFirst(line: string, prefix: string, i: nat, j: nat)
    requires i <= j <= |line| && LineMatchAt(line, j, prefix).Some?
    requires forall k :: i <= k < j ==> LineMatchAt(line, k, prefix).None?
    ensures SearchLine(line, prefix, i) == LineMatchAt(line, j, prefix)
  {
    var m := LineMatches(line, prefix);
    assert forall k :: i <= k <= j ==> m(k) == LineMatchAt(line, k, prefix);
    FirstIs(|line|, m, i, j);
  }

  /** What the fallback takes from one line: it strips the line and, when the stripped line
      passes the prefix-and-colon filter, keeps the first loose match in it. */
  function ScanLine(line: string, prefix: string): (r: seq<Candidate>)
    ensures |r| <= 1
    ensures r != [] ==> ScanCandidateLine(Strip(line), prefix) && IsLooseCode(r[0].code, prefix)
    ensures r != [] && Lacks(line, '\n') ==> var t := Strip(line); |r[0].text| < |t| && t[|t| - |r[0].text|..] == r[0].text
  {
    var t := Strip(line);
    if ScanCandidateLine(t, prefix) then
      match SearchLine(t, prefix, 0)
      case Some(c) => [c]
      case None => []
    else []
  }

  /** A line that passes the filter and has a loose match anywhere contributes one candidate. */
  lemma ScanLineFinds(line: string, prefix: string, j: nat)
    requires ScanCandidateLine(Strip(line), prefix)
    requires j <= |Strip(line)| && LineMatchAt(Strip(line), j, prefix).Some?
    ensures |ScanLine(line, prefix)| == 1
  {
    SearchLineNone(Strip(line), prefix, 0);
  }

  /** The line-by-line fallback over the lines of a section. */
  function LineScan(lines: seq<string>, prefix: string): (r: seq<Candidate>)
    ensures forall k :: 0 <= k < |r| ==> IsLooseCode(r[k].code, prefix)
    ensures |r| <= |lines|
  {
    if lines == [] then []
    else ScanLine(lines[0], prefix) + LineScan(lines[1..], prefix)
  }

  /** The fallback finds nothing exactly when no line gives a candidate. */
  lemma LineScanEmpty(lines: seq<string>, prefix: string)
    ensures LineScan(lines, prefix) == [] <==> forall l :: 0 <= l < |lines| ==> ScanLine(lines[l], prefix) == []
  {
    var f := (line: string) => ScanLine(line, prefix);
    LineScanFlat(lines, prefix);
    FlattenEmpty(lines, f);
    assert forall l :: 0 <= l < |lines| ==> f(lines[l]) == ScanLine(lines[l], prefix);
  }

  lemma {:induction false} LineScanFlat(lines: seq<string>, prefix: string)
    ensures LineScan(lines, prefix) == Flatten(lines, (line: string) => ScanLine(line, prefix))
  {
    if lines != [] {
      LineScanFlat(lines[1..], prefix);
    }
  }

  /** The fallback treats lines one at a time: scanning two runs of lines one after the
      other gives the candidates of both, in order. */
  lemma {:induction false} LineScanAppend(a: seq<string>, b: seq<string>, prefix: string)
    ensures LineScan(a + b, prefix) == LineScan(a, prefix) + LineScan(b, prefix)
  {
    if a != [] {
      assert (a + b)[1..] == a[1..] + b;
      LineScanAppend(a[1..], b, prefix);
    } else {
      assert a + b == b;
    }
  }

  /** The candidates of one section: the first structured pattern, in the order bulleted,
      plain, bold, that matches at all, used alone; the line scan only when none matches. */
  function Candidates(section: string, p: Prefix): (r: seq<Candidate>)
    ensures forall k :: 0 <= k < |r| ==> IsLooseCode(r[k].code, PrefixText(p))
    ensures FindItems(section, Bulleted, PrefixText(p), 0) != [] ==> r == FindItems(section, Bulleted, PrefixText(p), 0)
    ensures r != [] && (exists k :: 0 <= k < |r| && !IsCode(r[k].code, PrefixText(p)))
            ==> r == LineScan(Split(section, "\n"), PrefixText(p))
  {
    var prefix := PrefixText(p);
    var bulleted := FindItems(section, Bulleted, prefix, 0);
    if bulleted != [] then bulleted
    else
      var plain := FindItems(section, Plain, prefix, 0);
      if plain != [] then plain
      else
        var bold := FindItems(section, Bold, prefix, 0);
        if bold != [] then bold
        else LineScan(Split(section, "\n"), prefix)
  }

  // ---------------------------------------------------------------------------------------
  // Normalisation
  // ---------------------------------------------------------------------------------------

  /** The codes an emitted requirement can carry: `P-\d+`, or `P-P\d+` when the line scan
      found a hyphenless `P\d+` and the normaliser put `P-` in front of it. */
  predicate EmittedCode(code: string, prefix: string) {
    IsCode(code, prefix)
    || (|code| > 2 * |prefix| + 1 && code[..|prefix| + 1] == prefix + "-"
        && code[|prefix| + 1..2 * |prefix| + 1] == prefix && AllDigits(code[2 * |prefix| + 1..]))
  }

  lemma PrefixTextPlain(p: Prefix)
    ensures NoSpace(PrefixText(p)) && Lacks(PrefixText(p), '-')
  {
  }

  function KindOf(p: Prefix): Kind {
    if p == FR then Functional else NonFunctional
  }

  /** The description a candidate contributes: stripped, whitespace collapsed. */
  function CleanDescription(text: string): string {
    Collapse(Strip(text))
  }

  /** Keep only descriptions longer than ten characters. */
  predicate Meaningful(description: string) {
    description != [] && |description| > 10
  }

  /** A code with no hyphen gets `P-` in front of it. */
  function FixCode(code: string, prefix: string): string {
    var c := Strip(code);
    if Contains(c, "-") then c else prefix + "-" + c
  }

  /** What every emitted record satisfies. */
  predicate WellFormed(q: Requirement, p: Prefix) {
    && EmittedCode(q.code, PrefixText(p))
    && Collapsed(q.description)
    && |q.description| > 10
    && (q.kind == Functional <==> p == FR)
  }

  /** One candidate's contribution: a record when its description is meaningful. */
  function Emit(c: Candidate, p: Prefix): (r: seq<Requirement>)
    requires IsLooseCode(c.code, PrefixText(p))
    ensures |r| <= 1
    ensures |r| == 1 <==> Meaningful(CleanDescription(c.text))
    ensures |r| == 1 ==> WellFormed(r[0], p) && r[0].description == CleanDescription(c.text)
    ensures AllWellFormed(r, p)
  {
    var description := CleanDescription(c.text);
    if Meaningful(description) then
      PrefixTextPlain(p);
      FixedCodeShape(c.code, PrefixText(p));
      [Requirement(FixCode(c.code, PrefixText(p)), KindOf(p), description)]
    else []
  }

  /** Turn candidates into records: fix the code, collapse the description, drop the short
      ones. Every record has a code of the expected shape, a collapsed description longer
      than ten characters, and the kind that goes with the prefix; the records keep the
      candidates' order. */
  function Normalize(cands: seq<Candidate>, p: Prefix): (r: seq<Requirement>)
    requires forall k :: 0 <= k < |cands| ==> IsLooseCode(cands[k].code, PrefixText(p))
    ensures |r| <= |cands|
    ensures AllWellFormed(r, p)
  {
    if cands == [] then []
    else
      var head := Emit(cands[0], p);
      var tail := Normalize(cands[1..], p);
      AllWellFormedAppend(head, tail, p);
      head + tail
  }

  /** What one candidate contributes to `Normalize`. */
  function EmitOf(p: Prefix): Candidate -> seq<Requirement> {
    (c: Candidate) => if IsLooseCode(c.code, PrefixText(p)) then Emit(c, p) else []
  }

  lemma {:induction false} NormalizeFlat(cands: seq<Candidate>, p: Prefix)
    requires forall k :: 0 <= k < |cands| ==> IsLooseCode(cands[k].code, PrefixText(p))
    ensures Normalize(cands, p) == Flatten(cands, EmitOf(p))
  {
    if cands != [] {
      NormalizeFlat(cands[1..], p);
    }
  }

  /** Normalisation handles the candidates one at a time: those of two runs give the
      records of each, in order. */
  lemma NormalizeAppend(xs: seq<Candidate>, ys: seq<Candidate>, p: Prefix)
    requires forall k :: 0 <= k < |xs| ==> IsLooseCode(xs[k].code, PrefixText(p))
    requires forall k :: 0 <= k < |ys| ==> IsLooseCode(ys[k].code, PrefixText(p))
    ensures Normalize(xs + ys, p) == Normalize(xs, p) + Normalize(ys, p)
  {
    var zs := xs + ys;
    forall k | 0 <= k < |zs| ensures IsLooseCode(zs[k].code, PrefixText(p)) {
      if k >= |xs| {
        assert zs[k] == ys[k - |xs|];
      }
    }
    NormalizeFlat(xs, p);
    NormalizeFlat(ys, p);
    NormalizeFlat(zs, p);
    FlattenAppend(xs, ys, EmitOf(p));
  }

  /** Normalisation drops everything exactly when no candidate has a meaningful
      description. */
  lemma NormalizeEmpty(cands: seq<Candidate>, p: Prefix)
    requires forall k :: 0 <= k < |cands| ==> IsLooseCode(cands[k].code, PrefixText(p))
    ensures Normalize(cands, p) == [] <==> forall k :: 0 <= k < |cands| ==> !Meaningful(CleanDescription(cands[k].text))
  {
    NormalizeFlat(cands, p);
    FlattenEmpty(cands, EmitOf(p));
    forall k | 0 <= k < |cands|
      ensures EmitOf(p)(cands[k]) == [] <==> !Meaningful(CleanDescription(cands[k].text))
    {
      EmitNone(cands[k], p);
    }
  }

  lemma EmitNone(c: Candidate, p: Prefix)
    requires IsLooseCode(c.code, PrefixText(p))
    ensures EmitOf(p)(c) == [] <==> !Meaningful(CleanDescription(c.text))
  {
    assert EmitOf(p)(c) == Emit(c, p);
  }

  /** A single candidate contributes exactly its own record, or nothing. */
  lemma NormalizeOne(c: Candidate, p: Prefix)
    requires IsLooseCode(c.code, PrefixText(p))
    ensures Normalize([c], p) == Emit(c, p)
  {
    assert [c][1..] == [];
  }

  predicate AllWellFormed(qs: seq<Requirement>, p: Prefix) {
    forall k :: 0 <= k < |qs| ==> WellFormed(qs[k], p)
  }

  lemma AllWellFormedAppend(a: seq<Requirement>, b: seq<Requirement>, p: Prefix)
    requires AllWellFormed(a, p) && AllWellFormed(b, p)
    ensures AllWellFormed(a + b, p)
  {
    forall k | 0 <= k < |a + b| ensures WellFormed((a + b)[k], p) {
      if k < |a| {
        assert (a + b)[k] == a[k];
      } else {
        assert (a + b)[k] == b[k - |a|];
      }
    }
  }

  lemma NoSpaceInCode(c: string, prefix: string)
    requires IsLooseCode(c, prefix)
    requires NoSpace(prefix)
    ensures NoSpace(c)
  {
    forall k | 0 <= k < |c| ensures !IsSpace(c[k]) {
      if k < |prefix| {
        assert c[k] == c[..|prefix|][k] == prefix[k];
      } else if IsCode(c, prefix) {
        if k == |prefix| {
          assert c[k] == c[..|prefix| + 1][k];
        } else {
          assert c[k] == c[|prefix| + 1..][k - |prefix| - 1];
        }
      } else {
        assert c[k] == c[|prefix|..][k - |prefix|];
      }
    }
  }

  lemma HyphenAt(s: string, k: nat)
    requires k < |s| && s[k] == '-'
    ensures Contains(s, "-")
  {
    assert s[k..k + 1] == "-";
    PrefixAtSlice(s, k, "-");
    ContainsAt(s, "-", k);
  }

  /** A code of either emitted shape contains a hyphen, as the normaliser ensures. */
  lemma EmittedCodeHasHyphen(code: string, prefix: string)
    requires EmittedCode(code, prefix)
    ensures Contains(code, "-")
  {
    assert code[|prefix|] == code[..|prefix| + 1][|prefix|] == '-';
    HyphenAt(code, |prefix|);
  }

  /** A hyphenless loose code `P\d+` with no hyphen in `P`. */
  lemma HyphenlessCode(code: string, prefix: string)
    requires |code| > |prefix| && code[..|prefix|] == prefix && AllDigits(code[|prefix|..])
    requires Lacks(prefix, '-')
    ensures !Contains(code, "-")
  {
    forall k | 0 <= k < |code| ensures code[k] != '-' {
      if k < |prefix| {
        assert code[k] == code[..|prefix|][k];
      } else {
        assert code[k] == code[|prefix|..][k - |prefix|];
      }
    }
    NoOccurrence(code, '-');
  }

  lemma StripOfCode(code: string, prefix: string)
    requires IsLooseCode(code, prefix)
    requires NoSpace(prefix)
    ensures Strip(code) == code
  {
    NoSpaceInCode(code, prefix);
    StripOfTrimmed(code);
  }

  /** The prefixed form of a hyphenless `P\d+` has the shape `P-P\d+`. */
  lemma PrefixedShape(code: string, prefix: string)
    requires |code| > |prefix| && code[..|prefix|] == prefix && AllDigits(code[|prefix|..])
    ensures EmittedCode(prefix + "-" + code, prefix)
  {
    var fixed := prefix + "-" + code;
    assert fixed[..|prefix| + 1] == prefix + "-";
    assert fixed[|prefix| + 1..2 * |prefix| + 1] == code[..|prefix|];
    assert fixed[2 * |prefix| + 1..] == code[|prefix|..];
  }

  /** The fixed code of a loose candidate code has one of the two emitted shapes. */
  lemma FixedCodeShape(code: string, prefix: string)
    requires IsLooseCode(code, prefix)
    requires NoSpace(prefix) && Lacks(prefix, '-')
    ensures EmittedCode(FixCode(code, prefix), prefix)
  {
    StripOfCode(code, prefix);
    if IsCode(code, prefix) {
      EmittedCodeHasHyphen(code, prefix);
    } else {
      HyphenlessCode(code, prefix);
      PrefixedShape(code, prefix);
    }
  }

  /** `_extract_requirement_items`: the records of one section. */
  function ExtractItems(section: string, p: Prefix): (r: seq<Requirement>)
    ensures AllWellFormed(r, p)
  {
    Normalize(Candidates(section, p), p)
  }

  // ---------------------------------------------------------------------------------------
  // The standard parse
  // ---------------------------------------------------------------------------------------

  /** The section titles the parsers test for. Each non-functional spelling is a functional
      one with a word in front, which is why the non-functional tests never get their turn. */
  const FunctionalTitle: string := "Functional Requirements"
  const FunctionalTitleUpper: string := "FUNCTIONAL REQUIREMENTS"
  const NonFunctionalTitle: string := "Non-" + FunctionalTitle
  const NonFunctionalTitleUpper: string := "NON-" + FunctionalTitleUpper
  const NonFunctionalTitleSpaced: string := "Non " + FunctionalTitle

  /** The functional-section test of both parsers. */
  predicate IsFunctionalHeader(s: string) {
    Contains(s, FunctionalTitle) || Contains(s, FunctionalTitleUpper)
  }

  /** The non-functional-section test of the standard parse. */
  predicate IsNonFunctionalHeader(s: string) {
    || Contains(s, NonFunctionalTitle)
    || Contains(s, NonFunctionalTitleUpper)
    || Contains(s, NonFunctionalTitleSpaced)
  }

  /** A text containing `pre + title` contains `title`. */
  lemma LongerTitle(s: string, pre: string, title: string)
    ensures Contains(s, pre + title) ==> Contains(s, title)
  {
    if Contains(s, pre + title) {
      assert (pre + title)[|pre|..|pre| + |title|] == title;
      PrefixAtSlice(pre + title, |pre|, title);
      ContainsAt(pre + title, title, |pre|);
      ContainsTransitive(s, pre + title, title);
    }
  }

  /** Every text that passes the non-functional test passes the functional test first, so
      the non-functional branches of both parsers are never taken. */
  lemma NonFunctionalHeaderIsFunctional(s: string)
    ensures IsNonFunctionalHeader(s) ==> IsFunctionalHeader(s)
  {
    LongerTitle(s, "Non-", FunctionalTitle);
    LongerTitle(s, "NON-", FunctionalTitleUpper);
    LongerTitle(s, "Non ", FunctionalTitle);
  }

  /** `s.strip()` for every piece, as the loops of both parsers do first. */
  function StripEach(xs: seq<string>): (r: seq<string>)
    ensures |r| == |xs|
    ensures forall k :: 0 <= k < |xs| ==> r[k] == Strip(xs[k])
  {
    seq(|xs|, k requires 0 <= k < |xs| => Strip(xs[k]))
  }

  /** The loop over the stripped `##` sections, given the per-section item extractor
      `itemsOf`: a functional section REPLACES the functional list built so far; a
      non-functional section replaces the non-functional list. */
  function Classify(sections: seq<string>, i: nat, functional: seq<Requirement>, nonFunctional: seq<Requirement>,
                    itemsOf: (string, Prefix) -> seq<Requirement>): (seq<Requirement>, seq<Requirement>)
    requires i <= |sections|
    decreases |sections| - i
  {
    if i == |sections| then (functional, nonFunctional)
    else if IsFunctionalHeader(sections[i]) then
      Classify(sections, i + 1, itemsOf(sections[i], FR), nonFunctional, itemsOf)
    else if IsNonFunctionalHeader(sections[i]) then
      Classify(sections, i + 1, functional, itemsOf(sections[i], NFR), itemsOf)
    else Classify(sections, i + 1, functional, nonFunctional, itemsOf)
  }

  /** The last of the first `n` sections that passes the functional test. */
  function LastFunctional(sections: seq<string>, n: nat): (r: Option<nat>)
    requires n <= |sections|
    ensures r.Some? ==> r.value < n && IsFunctionalHeader(sections[r.value])
    ensures r.Some? ==> forall k :: r.value < k < n ==> !IsFunctionalHeader(sections[k])
    ensures r.None? ==> forall k :: 0 <= k < n ==> !IsFunctionalHeader(sections[k])
  {
    if n == 0 then None
    else if IsFunctionalHeader(sections[n - 1]) then Some(n - 1)
    else LastFunctional(sections, n - 1)
  }

  /** Reference for the functional list: the items of the last of the first `n` sections
      that is functional, or nothing. */
  function LastSectionItems(sections: seq<string>, n: nat, itemsOf: (string, Prefix) -> seq<Requirement>): seq<Requirement>
    requires n <= |sections|
  {
    match LastFunctional(sections, n)
    case None => []
    case Some(k) => itemsOf(sections[k], FR)
  }

  /** Whatever the extractor, the section loop keeps only the items of the LAST functional
      section and never fills the non-functional list. */
  lemma {:induction false} ClassifyIsLastSection(sections: seq<string>, i: nat, itemsOf: (string, Prefix) -> seq<Requirement>)
    requires i <= |sections|
    ensures Classify(sections, i, LastSectionItems(sections, i, itemsOf), [], itemsOf)
            == (LastSectionItems(sections, |sections|, itemsOf), [])
    decreases |sections| - i
  {
    if i < |sections| {
      NonFunctionalHeaderIsFunctional(sections[i]);
      ClassifyIsLastSection(sections, i + 1, itemsOf);
    }
  }

  /** `_parse_requirements`. The non-functional list is always empty (the non-functional
      test is shadowed by the functional one), the functional list is the items of the last
      stripped `##` section that mentions "Functional Requirements", and the total is the
      sum of the two list lengths. */
  function ParseRequirements(text: string): (r: Extraction)
    ensures r.nonFunctional == []
    ensures var sections := StripEach(Split(text, "##"));
      r.functional == LastSectionItems(sections, |sections|, ExtractItems)
    ensures r.totalCount == |r.functional| + |r.nonFunctional|
    ensures r.rawOutput.None?
    ensures AllWellFormed(r.functional, FR)
  {
    var sections := StripEach(Split(text, "##"));
    ClassifyIsLastSection(sections, 0, ExtractItems);
    var lists := Classify(sections, 0, [], [], ExtractItems);
    Extraction(lists.0, lists.1, |lists.0| + |lists.1|, None)
  }

  // ---------------------------------------------------------------------------------------
  // The alternative parse
  // ---------------------------------------------------------------------------------------

  /** Where the alternative parse is: the two booleans of the source, of which at most one
      is ever true. */
  datatype Section = Outside | InFunctional | InNonFunctional

  /** The non-functional header test of `_alternative_parse`: unlike the standard parse's
      test, it does not accept the "Non Functional" spelling. */
  predicate IsAltNonFunctionalHeader(s: string) {
    Contains(s, NonFunctionalTitle) || Contains(s, NonFunctionalTitleUpper)
  }

  /** The section a stripped header line switches to; `None` for a line that is not a
      header. */
  function HeaderEffect(line: string): Option<Section> {
    if IsFunctionalHeader(line) then Some(InFunctional)
    else if IsAltNonFunctionalHeader(line) then Some(InNonFunctional)
    else if PrefixAt(line, 0, "##") then Some(Outside)
    else None
  }

  /** A stripped line that becomes a requirement: longer than 20 characters and starting
      with `-`, `*` or `•`. */
  predicate IsItemLine(line: string) {
    |line| > 20 && IsBullet(line[0])
  }

  /** `lstrip('-*•')`. */
  function StripBullets(s: string): (r: string)
    ensures r == [] || !IsBullet(r[0])
  {
    if s != [] && IsBullet(s[0]) then StripBullets(s[1..]) else s
  }

  function ItemText(line: string): string {
    Strip(StripBullets(line))
  }

  datatype AltState = AltState(
    section: Section,
    frCount: nat,
    nfrCount: nat,
    functional: seq<Requirement>,
    nonFunctional: seq<Requirement>)

  function FunctionalCode(n: nat): string {
    "FR-" + Pad3(n)
  }

  function NonFunctionalCode(n: nat): string {
    "NFR-" + Pad3(n)
  }

  /** One stripped line of the alternative parse. */
  function AltStep(st: AltState, line: string): AltState {
    match HeaderEffect(line)
    case Some(section) => st.(section := section)
    case None =>
      if !IsItemLine(line) then st
      else if st.section == InFunctional then
        st.(functional := st.functional + [Requirement(FunctionalCode(st.frCount), Functional, ItemText(line))],
            frCount := st.frCount + 1)
      else if st.section == InNonFunctional then
        st.(nonFunctional := st.nonFunctional + [Requirement(NonFunctionalCode(st.nfrCount), NonFunctional, ItemText(line))],
            nfrCount := st.nfrCount + 1)
      else st
  }

  function AltRun(lines: seq<string>, i: nat, st: AltState): AltState
    requires i <= |lines|
    decreases |lines| - i
  {
    if i == |lines| then st else AltRun(lines, i + 1, AltStep(st, lines[i]))
  }

  /** Reference: the section stripped line `i` lies in is set by the last header line above
      it. */
  function SectionBefore(lines: seq<string>, i: nat): Section
    requires i <= |lines|
  {
    if i == 0 then Outside
    else
      match HeaderEffect(lines[i - 1])
      case Some(section) => section
      case None => SectionBefore(lines, i - 1)
  }

  /** Reference: the texts of the item lines among the first `n` stripped lines that lie in
      a functional section, in document order. */
  function FunctionalTexts(lines: seq<string>, n: nat): seq<string>
    requires n <= |lines|
  {
    if n == 0 then []
    else
      var here :=
        if HeaderEffect(lines[n - 1]).None? && IsItemLine(lines[n - 1]) && SectionBefore(lines, n - 1) == InFunctional
        then [ItemText(lines[n - 1])] else [];
      FunctionalTexts(lines, n - 1) + here
  }

  /** Texts numbered `FR-001`, `FR-002`, … in order. */
  function Numbered(texts: seq<string>): (r: seq<Requirement>)
    ensures |r| == |texts|
  {
    seq(|texts|, k requires 0 <= k < |texts| => Requirement(FunctionalCode(k + 1), Functional, texts[k]))
  }

  lemma NumberedSnoc(texts: seq<string>, t: string)
    ensures Numbered(texts + [t]) == Numbered(texts) + [Requirement(FunctionalCode(|texts| + 1), Functional, t)]
  {
    var a := Numbered(texts + [t]);
    var b := Numbered(texts) + [Requirement(FunctionalCode(|texts| + 1), Functional, t)];
    forall k | 0 <= k < |a| ensures a[k] == b[k] {
      if k < |texts| {
        assert (texts + [t])[k] == texts[k];
      }
    }
  }

  lemma NoNonFunctionalSection(line: string)
    ensures HeaderEffect(line) != Some(InNonFunctional)
  {
    if IsAltNonFunctionalHeader(line) {
      NonFunctionalHeaderIsFunctional(line);
    }
  }

  lemma {:induction false} SectionBeforeNeverNonFunctional(lines: seq<string>, i: nat)
    requires i <= |lines|
    ensures SectionBefore(lines, i) != InNonFunctional
  {
    if i > 0 {
      NoNonFunctionalSection(lines[i - 1]);
      SectionBeforeNeverNonFunctional(lines, i - 1);
    }
  }

  predicate AltInvariant(lines: seq<string>, i: nat, st: AltState)
    requires i <= |lines|
  {
    && st.section == SectionBefore(lines, i)
    && st.functional == Numbered(FunctionalTexts(lines, i))
    && st.frCount == |st.functional| + 1
    && st.nonFunctional == []
  }

  lemma AltStepKeepsInvariant(lines: seq<string>, i: nat, st: AltState)
    requires i < |lines|
    requires AltInvariant(lines, i, st)
    ensures AltInvariant(lines, i + 1, AltStep(st, lines[i]))
  {
    var line := lines[i];
    NoNonFunctionalSection(line);
    SectionBeforeNeverNonFunctional(lines, i);
    var texts := FunctionalTexts(lines, i);
    if HeaderEffect(line).None? && IsItemLine(line) && st.section == InFunctional {
      NumberedSnoc(texts, ItemText(line));
    }
  }

  lemma {:induction false} AltRunMatchesReference(lines: seq<string>, i: nat, st: AltState)
    requires i <= |lines|
    requires AltInvariant(lines, i, st)
    ensures AltRun(lines, i, st).functional == Numbered(FunctionalTexts(lines, |lines|))
    ensures AltRun(lines, i, st).nonFunctional == []
    decreases |lines| - i
  {
    if i < |lines| {
      AltStepKeepsInvariant(lines, i, st);
      AltRunMatchesReference(lines, i + 1, AltStep(st, lines[i]));
    }
  }

  /** `_alternative_parse`. Its functional list is exactly the item lines (stripped, longer
      than 20 characters, bulleted) that lie under a functional header, bullets removed,
      numbered `FR-001`, `FR-002`, … in document order; lines before any header or after a
      non-requirements `##` line are dropped; the non-functional list is always empty; no
      `raw_output` is attached. */
  function AlternativeParse(text: string): (r: Extraction)
    ensures var lines := StripEach(Split(text, "\n"));
      r.functional == Numbered(FunctionalTexts(lines, |lines|))
    ensures r.nonFunctional == []
    ensures r.totalCount == |r.functional| + |r.nonFunctional|
    ensures r.rawOutput.None?
  {
    var lines := StripEach(Split(text, "\n"));
    var start := AltState(Outside, 1, 1, [], []);
    AltRunMatchesReference(lines, 0, start);
    var st := AltRun(lines, 0, start);
    Extraction(st.functional, st.nonFunctional, |st.functional| + |st.nonFunctional|, None)
  }

  /** Record `k` carries code number `k + 1`. */
  predicate SequentialCodes(f: seq<Requirement>) {
    forall k :: 0 <= k < |f| ==> f[k].code == FunctionalCode(k + 1)
  }

  /** `FR-{n:03d}` reads back as `n`. */
  lemma FunctionalCodeValue(n: nat)
    ensures var c := FunctionalCode(n); |c| >= 6 && c[..3] == "FR-" && AllDigits(c[3..]) && DigitsValue(c[3..]) == n
  {
    var c := FunctionalCode(n);
    assert c[3..] == Pad3(n);
    Pad3Value(n);
  }

  lemma FunctionalCodeInjective(m: nat, n: nat)
    requires m != n
    ensures FunctionalCode(m) != FunctionalCode(n)
  {
    Pad3Injective(m, n);
    assert FunctionalCode(m)[3..] == Pad3(m);
    assert FunctionalCode(n)[3..] == Pad3(n);
  }

  lemma SequentialCodesDistinct(f: seq<Requirement>)
    requires SequentialCodes(f)
    ensures forall j, k :: 0 <= j < k < |f| ==> f[j].code != f[k].code
  {
    forall j, k | 0 <= j < k < |f| ensures f[j].code != f[k].code {
      FunctionalCodeInjective(j + 1, k + 1);
    }
  }

  /** The alternative parse numbers its records `FR-001`, `FR-002`, … in order, without
      gaps or repeats. */
  lemma AlternativeCodesSequential(text: string)
    ensures SequentialCodes(AlternativeParse(text).functional)
    ensures var f := AlternativeParse(text).functional;
      forall j, k :: 0 <= j < k < |f| ==> f[j].code != f[k].code
  {
    var f := AlternativeParse(text).functional;
    assert SequentialCodes(f);
    SequentialCodesDistinct(f);
  }

  // ---------------------------------------------------------------------------------------
  // Response handling and the retry loop
  // ---------------------------------------------------------------------------------------

  /** What `extract` returns for one response text: the standard parse with `raw_output`
      attached, or — when the standard parse found nothing — the alternative parse, without
      `raw_output`. */
  function ParseResponse(raw: string): (r: Extraction)
    ensures r.rawOutput.Some? <==> ParseRequirements(raw).totalCount > 0
    ensures r.rawOutput.Some? ==> r.rawOutput.value == raw && r.functional == ParseRequirements(raw).functional
    ensures r.rawOutput.None? ==> r == AlternativeParse(raw)
    ensures r.totalCount == |r.functional| + |r.nonFunctional|
    ensures r.nonFunctional == []
  {
    var standard := ParseRequirements(raw).(rawOutput := Some(raw));
    if standard.totalCount == 0 then AlternativeParse(raw) else standard
  }

  const MaxRetries: nat := 3
  const RetryDelay: nat := 2

  datatype ExtractError = NotConfigured | StillOverloaded | Failed(message: string)

  /** The message of the exception `extract` raises. */
  function ErrorMessage(e: ExtractError): string {
    match e
    case NotConfigured => NotConfiguredMessage
    case StillOverloaded => "Gemini API is currently overloaded. Please try again in a few minutes."
    case Failed(m) => "Requirements extraction error: " + m
  }

  /** Reference for the loop: the first attempt from `k` on whose outcome is not an
      overload, or `MaxRetries` when every remaining attempt is overloaded. */
  function FirstSettled(respond: nat -> Outcome, k: nat): (r: nat)
    requires k <= MaxRetries
    ensures k <= r <= MaxRetries
    ensures forall j :: k <= j < r ==> Overloaded(respond(j))
    ensures r < MaxRetries ==> !Overloaded(respond(r))
    decreases MaxRetries - k
  {
    if k == MaxRetries || !Overloaded(respond(k)) then k else FirstSettled(respond, k + 1)
  }

  /** What the settled attempt yields before parsing: the response text, or the wrapped
      error. */
  function Reply(o: Outcome): Result<string, ExtractError> {
    match o
    case Response(text) => Success(text)
    case Raised(m) => Failure(Failed(m))
  }

  /** The waits before the second, third, … calls: 2, 4, … seconds. */
  function Backoff(n: nat): (r: seq<nat>)
    ensures |r| == n
    ensures forall j :: 0 <= j < n ==> r[j] == RetryDelay * (j + 1)
  {
    seq(n, j requires 0 <= j < n => RetryDelay * (j + 1))
  }

  lemma BackoffSnoc(n: nat)
    ensures Backoff(n + 1) == Backoff(n) + [RetryDelay * (n + 1)]
  {
  }

  /** Reference for the retry loop: the number of calls made. */
  function SettledCalls(respond: nat -> Outcome): (n: nat)
    ensures 1 <= n <= MaxRetries
  {
    var k := FirstSettled(respond, 0);
    if k == MaxRetries then MaxRetries else k + 1
  }

  /** Reference for the retry loop: the reply of the first attempt that is not an
      overload, or the overload error when there is none among the three. */
  function SettledReply(respond: nat -> Outcome): Result<string, ExtractError> {
    var k := FirstSettled(respond, 0);
    if k == MaxRetries then Failure(StillOverloaded) else Reply(respond(k))
  }

  /** What the reference promises: every call but the last was an overload, a wrapped
      error is never an overload, and the overload error comes only after three overloads. */
  lemma SettledFacts(respond: nat -> Outcome)
    ensures forall j :: 0 <= j < SettledCalls(respond) - 1 ==> Overloaded(respond(j))
    ensures SettledReply(respond).Failure? && SettledReply(respond).error.Failed?
            ==> !IsOverload(SettledReply(respond).error.message)
    ensures SettledReply(respond) == Failure(StillOverloaded)
            <==> SettledCalls(respond) == MaxRetries && Overloaded(respond(MaxRetries - 1))
  {
  }

  /** What the attempt `k`, reached with no earlier attempt settled, decides. */
  lemma SettledAt(respond: nat -> Outcome, k: nat)
    requires k < MaxRetries && k <= FirstSettled(respond, 0)
    ensures !Overloaded(respond(k)) ==> SettledCalls(respond) == k + 1 && SettledReply(respond) == Reply(respond(k))
    ensures Overloaded(respond(k)) ==> k < FirstSettled(respond, 0)
    ensures Overloaded(respond(k)) && k == MaxRetries - 1
            ==> SettledCalls(respond) == MaxRetries && SettledReply(respond) == Failure(StillOverloaded)
  {
  }

  /** The retry loop of `extract`. `respond(k)` is what the generation service does on the
      k-th call; `waits` records each `time.sleep`. An unconfigured client raises before
      any call. Otherwise the calls stop at the first attempt that is not an overload, and
      at most three are made: that attempt's reply is returned; when all three are
      overloads the overload error is raised. Before each retry it waits 2, then 4,
      seconds. The raise after the loop is unreachable. */
  method CallWithRetry(configured: bool, respond: nat -> Outcome)
    returns (reply: Result<string, ExtractError>, waits: seq<nat>, calls: nat)
    ensures !configured ==> reply == Failure(NotConfigured) && calls == 0 && waits == []
    ensures configured ==> calls == SettledCalls(respond) && reply == SettledReply(respond)
    ensures configured ==> waits == Backoff(calls - 1)
  {
    if !configured {
      return Failure(NotConfigured), [], 0;
    }
    waits := [];
    calls := 0;
    var attempt := 0;
    while attempt < MaxRetries
      invariant attempt < MaxRetries
      invariant attempt <= FirstSettled(respond, 0)
      invariant calls == attempt && waits == Backoff(attempt)
    {
      var outcome := respond(attempt);
      SettledAt(respond, attempt);
      calls := calls + 1;
      if !Overloaded(outcome) {
        return Reply(outcome), waits, calls;
      } else if attempt < MaxRetries - 1 {
        BackoffSnoc(attempt);
        waits := waits + [RetryDelay * (attempt + 1)];
        attempt := attempt + 1;
      } else {
        return Failure(StillOverloaded), waits, calls;
      }
    }
    assert false;
  }

  /** The settled reply is a response text exactly when the last call made returned a
      response, and then it is that text. */
  lemma SettledResponse(respond: nat -> Outcome)
    ensures var n := SettledCalls(respond);
      && (SettledReply(respond).Success? <==> respond(n - 1).Response?)
      && (respond(n - 1).Response? ==> SettledReply(respond) == Success(respond(n - 1).text))
  {
    var k := FirstSettled(respond, 0);
    if k == MaxRetries {
      assert Overloaded(respond(MaxRetries - 1));
    }
  }

  /** `extract`: the retry loop, then the parse of the response it settles on. */
  method Extract(configured: bool, respond: nat -> Outcome)
    returns (r: Result<Extraction, ExtractError>, waits: seq<nat>, calls: nat)
    ensures !configured ==> r == Failure(NotConfigured) && calls == 0 && waits == []
    ensures configured ==> calls == SettledCalls(respond) && waits == Backoff(calls - 1)
    ensures r.Success? <==> calls > 0 && respond(calls - 1).Response?
    ensures r.Success? ==> r.value == ParseResponse(respond(calls - 1).text)
    ensures configured && r.Failure? ==> SettledReply(respond) == Failure(r.error)
  {
    var reply;
    reply, waits, calls := CallWithRetry(configured, respond);
    if reply.Success? {
      SettledResponse(respond);
      r := Success(ParseResponse(respond(calls - 1).text));
    } else {
      SettledResponse(respond);
      r := Failure(reply.error);
    }
  }

  // ---------------------------------------------------------------------------------------
  // Display
  // ---------------------------------------------------------------------------------------

  const FunctionalHeading: string := "## \U{1F4CB} Functional Requirements\n"
  const NonFunctionalHeading: string := "\n## \U{2699}\U{FE0F} Non-Functional Requirements\n"

  function ItemLine(q: Requirement): string {
    "**" + q.code + "**: " + q.description + "\n"
  }

  function ItemLines(qs: seq<Requirement>): (r: seq<string>)
    ensures |r| == |qs|
    ensures forall k :: 0 <= k < |qs| ==> r[k] == ItemLine(qs[k])
  {
    seq(|qs|, k requires 0 <= k < |qs| => ItemLine(qs[k]))
  }

  function TotalLine(x: Extraction): string {
    "\n---\n**Total Requirements**: " + NatToString(x.totalCount) + " "
  }

  function CountsLine(x: Extraction): string {
    "(" + NatToString(|x.functional|) + " Functional, " + NatToString(|x.nonFunctional|) + " Non-Functional)"
  }

  /** `format_for_display`: the output pieces joined with newlines. */
  function FormatForDisplay(x: Extraction): string {
    var functional := if x.functional != [] then [FunctionalHeading] + ItemLines(x.functional) else [];
    var nonFunctional := if x.nonFunctional != [] then [NonFunctionalHeading] + ItemLines(x.nonFunctional) else [];
    Join("\n", functional + nonFunctional + [TotalLine(x), CountsLine(x)])
  }

  /** Reference layout: a heading and one `**code**: description` line per record, in
      order, for each non-empty list, then the totals. */
  function DisplayBlock(heading: string, qs: seq<Requirement>): string {
    if qs == [] then [] else heading + "\n" + Concat(Suffixed(ItemLines(qs), "\n"))
  }

  lemma BlockParts(heading: string, qs: seq<Requirement>)
    ensures Concat(Suffixed(if qs != [] then [heading] + ItemLines(qs) else [], "\n")) == DisplayBlock(heading, qs)
  {
    if qs != [] {
      var parts := [heading] + ItemLines(qs);
      assert Suffixed(parts, "\n") == [heading + "\n"] + Suffixed(ItemLines(qs), "\n");
    }
  }

  lemma JoinBlocks(sep: string, f: seq<string>, n: seq<string>, a: string, b: string)
    ensures Join(sep, f + n + [a, b]) == Concat(Suffixed(f, sep)) + Concat(Suffixed(n, sep)) + a + sep + b
  {
    JoinAppend(sep, f + n, [a, b]);
    SuffixedAppend(f, n, sep);
    ConcatAppend(Suffixed(f, sep), Suffixed(n, sep));
    JoinPair(sep, a, b);
  }

  /** The display text is the functional block, the non-functional block (each present only
      when its list is non-empty), and the totals; it always ends with the counts line. */
  lemma DisplayLayout(x: Extraction)
    ensures FormatForDisplay(x)
            == DisplayBlock(FunctionalHeading, x.functional) + DisplayBlock(NonFunctionalHeading, x.nonFunctional)
               + TotalLine(x) + "\n" + CountsLine(x)
  {
    var f := if x.functional != [] then [FunctionalHeading] + ItemLines(x.functional) else [];
    var n := if x.nonFunctional != [] then [NonFunctionalHeading] + ItemLines(x.nonFunctional) else [];
    JoinBlocks("\n", f, n, TotalLine(x), CountsLine(x));
    BlockParts(FunctionalHeading, x.functional);
    BlockParts(NonFunctionalHeading, x.nonFunctional);
  }
}
