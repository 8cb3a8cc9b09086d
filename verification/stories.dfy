/** The user-story generator: the model's response is cut into blocks at horizontal rules,
    each long enough block is searched for seven labelled fields, and the stories that carry
    a story ID are kept, in order. */
module Stories {
  import opened Wrappers
  import opened Text
  import opened Patterns
  import opened Generation

  datatype Story = Story(
    code: string,
    title: string,
    userStory: string,
    priority: string,
    points: nat,
    dependencies: string,
    notes: string)

  datatype StoryBatch = StoryBatch(stories: seq<Story>, rawOutput: string, totalCount: nat)

  // ---------------------------------------------------------------------------------------
  // Splitting at horizontal rules: re.split(r'\n---+\n', text)
  // ---------------------------------------------------------------------------------------

  /** The end of the run of `-` starting at `i`. */
  function DashEnd(s: string, i: nat): (k: nat)
    requires i <= |s|
    ensures i <= k <= |s|
    ensures forall j :: i <= j < k ==> s[j] == '-'
    ensures k == |s| || s[k] != '-'
    decreases |s| - i
  {
    if i < |s| && s[i] == '-' then DashEnd(s, i + 1) else i
  }

  /** A rule `\n---+\n` starting at `i`, and where it ends. The dashes are taken greedily;
      giving some back never helps, since the character after a dash is a dash. */
  function RuleEnd(s: string, i: nat): (r: Option<nat>)
    requires i <= |s|
    ensures r.Some? ==> var e := r.value; i + 5 <= e <= |s| && IsRule(s[i..e])
  {
    if i < |s| && s[i] == '\n' then
      var d := DashEnd(s, i + 1);
      if d >= i + 4 && d < |s| && s[d] == '\n' then
        var rule := s[i..d + 1];
        forall j | 1 <= j < |rule| - 1 ensures rule[j] == '-' {
          assert rule[j] == s[i + j];
        }
        Some(d + 1)
      else None
    else None
  }

  /** A newline, at least three dashes, a newline. */
  predicate IsRule(r: string) {
    && |r| >= 5
    && r[0] == '\n'
    && r[|r| - 1] == '\n'
    && forall j :: 1 <= j < |r| - 1 ==> r[j] == '-'
  }

  /** The pieces in order with the rule that followed each one put back. */
  function Weave(pieces: seq<string>, rules: seq<string>): string
    requires |pieces| == |rules| + 1
  {
    if rules == [] then pieces[0] else pieces[0] + rules[0] + Weave(pieces[1..], rules[1..])
  }

  /** No rule starts anywhere in `s`. */
  predicate RuleFree(s: string) {
    forall j :: 0 <= j <= |s| ==> RuleEnd(s, j).None?
  }

  /** A rule inside a slice is a rule of the whole text at the same place. */
  lemma {:induction false} DashEndSlice(s: string, lo: nat, hi: nat, j: nat)
    requires lo <= hi <= |s| && j <= hi - lo
    ensures DashEnd(s[lo..hi], j) < hi - lo ==> lo + DashEnd(s[lo..hi], j) == DashEnd(s, lo + j)
    decreases hi - lo - j
  {
    if j < hi - lo && s[lo..hi][j] == '-' {
      DashEndSlice(s, lo, hi, j + 1);
    }
  }

  lemma RuleEndSlice(s: string, lo: nat, hi: nat, j: nat)
    requires lo <= hi <= |s| && j <= hi - lo
    ensures RuleEnd(s[lo..hi], j).Some? ==> RuleEnd(s, lo + j).Some?
  {
    var t := s[lo..hi];
    if j < |t| && t[j] == '\n' {
      DashEndSlice(s, lo, hi, j + 1);
    }
  }

  /** The split from the piece starting at `start`, having found no rule at `start..i`. */
  function SplitFrom(s: string, start: nat, i: nat): (r: (seq<string>, seq<string>))
    requires start <= i <= |s|
    requires forall j :: start <= j < i ==> RuleEnd(s, j).None?
    ensures |r.0| == |r.1| + 1
    ensures Weave(r.0, r.1) == s[start..]
    ensures forall k :: 0 <= k < |r.1| ==> IsRule(r.1[k])
    ensures forall k :: 0 <= k < |r.0| ==> RuleFree(r.0[k])
    decreases |s| - i
  {
    if i == |s| then
      PieceRuleFree(s, start, i);
      assert s[start..i] == s[start..];
      ([s[start..]], [])
    else
      match RuleEnd(s, i)
      case Some(e) =>
        var rest := SplitFrom(s, e, e);
        PieceRuleFree(s, start, i);
        WeaveCons(s, start, i, e, rest.0, rest.1);
        SplitCons(s[start..i], s[i..e], rest.0, rest.1);
        ([s[start..i]] + rest.0, [s[i..e]] + rest.1)
      case None => SplitFrom(s, start, i + 1)
  }

  lemma WeaveCons(s: string, start: nat, i: nat, e: nat, pieces: seq<string>, rules: seq<string>)
    requires start <= i <= e <= |s| && |pieces| == |rules| + 1
    requires Weave(pieces, rules) == s[e..]
    ensures Weave([s[start..i]] + pieces, [s[i..e]] + rules) == s[start..]
  {
    WeaveStep(s[start..i], s[i..e], pieces, rules);
    SliceThree(s, start, i, e);
  }

  lemma SliceThree(s: string, start: nat, i: nat, e: nat)
    requires start <= i <= e <= |s|
    ensures s[start..] == s[start..i] + s[i..e] + s[e..]
  {
    assert s[i..] == s[i..e] + s[e..];
    assert s[start..] == s[start..i] + s[i..];
  }

  /** One step of `Weave`: the first piece, then the first rule, then the rest. */
  lemma WeaveStep(piece: string, rule: string, pieces: seq<string>, rules: seq<string>)
    requires |pieces| == |rules| + 1
    ensures Weave([piece] + pieces, [rule] + rules) == piece + rule + Weave(pieces, rules)
  {
    assert ([piece] + pieces)[1..] == pieces;
    assert ([rule] + rules)[1..] == rules;
  }

  lemma SplitCons(piece: string, rule: string, pieces: seq<string>, rules: seq<string>)
    requires RuleFree(piece) && IsRule(rule)
    requires forall k :: 0 <= k < |rules| ==> IsRule(rules[k])
    requires forall k :: 0 <= k < |pieces| ==> RuleFree(pieces[k])
    ensures forall k :: 0 <= k < |rules| + 1 ==> IsRule(([rule] + rules)[k])
    ensures forall k :: 0 <= k < |pieces| + 1 ==> RuleFree(([piece] + pieces)[k])
  {
    forall k | 0 < k < |rules| + 1 ensures ([rule] + rules)[k] == rules[k - 1] {
    }
    forall k | 0 < k < |pieces| + 1 ensures ([piece] + pieces)[k] == pieces[k - 1] {
    }
  }

  lemma PieceRuleFree(s: string, start: nat, i: nat)
    requires start <= i <= |s|
    requires forall j :: start <= j < i ==> RuleEnd(s, j).None?
    ensures RuleFree(s[start..i])
  {
    forall j | 0 <= j <= i - start ensures RuleEnd(s[start..i], j).None? {
      RuleEndSlice(s, start, i, j);
    }
  }

  /** `re.split(r'\n---+\n', text)`: the pieces and the rules between them. Putting the rules
      back between the pieces gives the text again, and no piece contains a rule. */
  function SplitRules(text: string): (r: (seq<string>, seq<string>))
    ensures |r.0| == |r.1| + 1
    ensures Weave(r.0, r.1) == text
    ensures forall k :: 0 <= k < |r.1| ==> IsRule(r.1[k])
    ensures forall k :: 0 <= k < |r.0| ==> RuleFree(r.0[k])
  {
    SplitFrom(text, 0, 0)
  }
  // ---------------------------------------------------------------------------------------
  // Field search: re.search(r'\*\*Label\*\*:\s*(…)', block, re.IGNORECASE)
  // ---------------------------------------------------------------------------------------

  const StoryIdLabel: string := "Story ID"
  const TitleLabel: string := "Title"
  const UserStoryLabel: string := "User Story"
  const PriorityLabel: string := "Priority"
  const PointsLabel: string := "Story Points"
  const DependenciesLabel: string := "Dependencies"
  const NotesLabel: string := "Notes"

  /** `**Label**:` as the patterns spell it. */
  function Marker(name: string): string {
    "**" + name + "**:"
  }

  /** The alternatives of `(High|Medium|Low)`, in the order they are tried. */
  const Priorities: seq<string> := ["High", "Medium", "Low"]
  const DefaultPriority: string := "Medium"
  const DefaultDependencies: string := "None"

  /** `US-\d+` in any letter case. */
  const StoryCodeHead: string := "US-"

  predicate IsStoryCode(c: string) {
    && |c| > |StoryCodeHead|
    && Lower(c[..|StoryCodeHead|]) == Lower(StoryCodeHead)
    && AllDigits(c[|StoryCodeHead|..])
  }

  /** What follows the label in each pattern.
        StoryCode `\s*(US-\d+)`
        Line      `\s*(.+?)(?=\n\*\*|\n|$)`
        Block     `\s*(.+?)(?=\n\*\*|\n---|\Z)` with re.DOTALL
        Choice    `\s*(High|Medium|Low)`
        Number    `\s*(\d+)` */
  datatype Shape = StoryCode | Line | Block | Choice | Number

  const LineLooks: seq<Look> := [Lit("\n**"), Lit("\n"), EndOrFinalNewline]
  const BlockLooks: seq<Look> := [Lit("\n**"), Lit("\n---"), EndOfText]

  /** What each shape guarantees about the text it captures. */
  predicate GroupOk(g: string, shape: Shape) {
    match shape
    case StoryCode => IsStoryCode(g)
    case Line => g != [] && Lacks(g, '\n')
    case Block => g != []
    case Choice => Capitalize(g) in Priorities
    case Number => g != [] && AllDigits(g)
  }

  lemma CapitalizedPriority(k: nat)
    requires k < |Priorities|
    ensures Capitalize(Priorities[k]) == Priorities[k]
  {
    var w := Priorities[k];
    assert w == "High" || w == "Medium" || w == "Low";
    CapitalizeFixed(w);
  }

  /** The first alternative of `(High|Medium|Low)` that matches at `m`, in any letter case. */
  function ChoiceAt(s: string, m: nat, k: nat): (r: Option<nat>)
    requires m <= |s| && k <= |Priorities|
    ensures r.Some? ==> k <= r.value < |Priorities| && m + |Priorities[r.value]| <= |s|
    ensures r.Some? ==> Lower(s[m..m + |Priorities[r.value]|]) == Lower(Priorities[r.value])
    decreases |Priorities| - k
  {
    if k == |Priorities| then None
    else
      CiPrefixAtLower(s, m, Priorities[k]);
      if CiPrefixAt(s, m, Priorities[k]) then Some(k) else ChoiceAt(s, m, k + 1)
  }

  /** `\s*(US-\d+)` at `a`. Here and in the other fixed-text shapes the whitespace run is
      never given back: the character it would give back is whitespace, which cannot start
      the group. */
  function CodeBody(s: string, a: nat): (r: Option<(nat, nat)>)
    requires a <= |s|
    ensures r.Some? ==> var (lo, hi) := r.value; a <= lo <= hi <= |s| && IsStoryCode(s[lo..hi])
  {
    var m := SkipSpaces(s, a);
    CiPrefixAtLower(s, m, StoryCodeHead);
    if CiPrefixAt(s, m, StoryCodeHead) then
      var d := SkipDigits(s, m + |StoryCodeHead|);
      if d > m + |StoryCodeHead| then
        var g := s[m..d];
        assert g[..|StoryCodeHead|] == s[m..m + |StoryCodeHead|];
        assert g[|StoryCodeHead|..] == s[m + |StoryCodeHead|..d];
        Some((m, d))
      else None
    else None
  }

  /** `\s*(.+?)(?=…)` at `a`, on one line or across lines. */
  function LazyBody(s: string, a: nat, dotAll: bool): (r: Option<(nat, nat)>)
    requires a <= |s|
    ensures r.Some? ==> var (lo, hi) := r.value; a <= lo < hi <= |s| && (!dotAll ==> Lacks(s[lo..hi], '\n'))
  {
    var found := Capture(s, a, 0, dotAll, if dotAll then BlockLooks else LineLooks);
    if found.Some? && !dotAll then
      SingleLine(s, found.value.0, found.value.1);
      found
    else found
  }

  lemma SingleLine(s: string, lo: nat, hi: nat)
    requires lo <= hi <= |s|
    requires forall j :: lo <= j < hi ==> DotOk(s[j], false)
    ensures Lacks(s[lo..hi], '\n')
  {
    forall j | 0 <= j < hi - lo ensures s[lo..hi][j] != '\n' {
      assert s[lo..hi][j] == s[lo + j];
      assert DotOk(s[lo + j], false);
    }
  }

  /** `\s*(High|Medium|Low)` at `a`. */
  function ChoiceBody(s: string, a: nat): (r: Option<(nat, nat)>)
    requires a <= |s|
    ensures r.Some? ==> var (lo, hi) := r.value; a <= lo <= hi <= |s| && Capitalize(s[lo..hi]) in Priorities
  {
    var m := SkipSpaces(s, a);
    match ChoiceAt(s, m, 0)
    case None => None
    case Some(k) =>
      ChoiceCapitalized(s[m..m + |Priorities[k]|], k);
      Some((m, m + |Priorities[k]|))
  }

  /** Whatever letter case the answer was written in, `capitalize()` brings it back to the
      alternative it matched. */
  lemma ChoiceCapitalized(g: string, k: nat)
    requires k < |Priorities| && Lower(g) == Lower(Priorities[k])
    ensures Capitalize(g) == Priorities[k]
  {
    CapitalizeLower(g, Priorities[k]);
    CapitalizedPriority(k);
  }

  /** `\s*(\d+)` at `a`. */
  function NumberBody(s: string, a: nat): (r: Option<(nat, nat)>)
    requires a <= |s|
    ensures r.Some? ==> var (lo, hi) := r.value; a <= lo < hi <= |s| && AllDigits(s[lo..hi])
  {
    var m := SkipSpaces(s, a);
    var d := SkipDigits(s, m);
    if d > m then Some((m, d)) else None
  }

  /** The captured group of a shape whose pattern continues at `a`, after the label. */
  function BodyAt(s: string, a: nat, shape: Shape): (r: Option<(nat, nat)>)
    requires a <= |s|
    ensures r.Some? ==> var (lo, hi) := r.value; a <= lo <= hi <= |s| && GroupOk(s[lo..hi], shape)
  {
    match shape
    case StoryCode => CodeBody(s, a)
    case Line => LazyBody(s, a, false)
    case Block => LazyBody(s, a, true)
    case Choice => ChoiceBody(s, a)
    case Number => NumberBody(s, a)
  }

  /** The whole pattern of a field matched at `i`: the label in any letter case, then the
      shape's group. */
  function FieldAt(s: string, i: nat, name: string, shape: Shape): (r: Option<(nat, nat)>)
    requires i <= |s|
    ensures r.Some? ==> var (lo, hi) := r.value; i + |Marker(name)| <= lo <= hi <= |s| && GroupOk(s[lo..hi], shape)
  {
    CiPrefixAtLower(s, i, Marker(name));
    if CiPrefixAt(s, i, Marker(name)) then BodyAt(s, i + |Marker(name)|, shape) else None
  }

  /** Where a field's pattern matches in `s`, position by position. */
  function FieldMatches(s: string, name: string, shape: Shape): nat -> Option<(nat, nat)> {
    (j: nat) => if j <= |s| then FieldAt(s, j, name, shape) else None
  }

  /** The group of the first match of a field's pattern in `block`, if any. */
  function Group(block: string, name: string, shape: Shape): (r: Option<string>)
    ensures r.Some? ==> GroupOk(r.value, shape)
  {
    match Leftmost(|block|, FieldMatches(block, name, shape), 0)
    case None => None
    case Some(f) =>
      assert FieldAt(block, f.0, name, shape) == Some((f.1, f.2));
      Some(block[f.1..f.2])
  }

  /** The search takes the first position where the field's pattern matches, and the
      field's value is the group captured there. */
  lemma GroupFirst(block: string, name: string, shape: Shape, j: nat)
    requires j <= |block| && FieldMatches(block, name, shape)(j).Some?
    requires forall k :: 0 <= k < j ==> FieldMatches(block, name, shape)(k).None?
    ensures var (lo, hi) := FieldAt(block, j, name, shape).value; Group(block, name, shape) == Some(block[lo..hi])
  {
    LeftmostIs(|block|, FieldMatches(block, name, shape), 0, j);
  }

  /** A field is missing exactly when its pattern matches nowhere in the block. */
  lemma GroupNone(block: string, name: string, shape: Shape)
    ensures Group(block, name, shape).None? <==> forall j :: 0 <= j <= |block| ==> FieldMatches(block, name, shape)(j).None?
  {
    if Group(block, name, shape).None? {
      assert Leftmost(|block|, FieldMatches(block, name, shape), 0).None?;
    }
  }
  // ---------------------------------------------------------------------------------------
  // One story block
  // ---------------------------------------------------------------------------------------

  /** The fields as `_extract_story_fields` leaves them, whatever the block says: a story
      code or nothing, one-line title and dependencies with no whitespace at the ends,
      user story and notes with their whitespace collapsed, and one of the three
      priorities. */
  predicate StoryShaped(st: Story) {
    && (st.code == [] || IsStoryCode(st.code))
    && Trimmed(st.title) && Lacks(st.title, '\n')
    && Collapsed(st.userStory)
    && st.priority in Priorities
    && Trimmed(st.dependencies) && Lacks(st.dependencies, '\n')
    && Collapsed(st.notes)
  }

  /** A one-line field, stripped. */
  function LineField(block: string, name: string, fallback: string): (r: string)
    requires Trimmed(fallback) && Lacks(fallback, '\n')
    ensures Trimmed(r) && Lacks(r, '\n')
    ensures Group(block, name, Line).Some? ==> r == Strip(Group(block, name, Line).value)
  {
    match Group(block, name, Line)
    case None => fallback
    case Some(g) => Strip(g)
  }

  /** A field that may run over several lines: `' '.join(g.strip().split())`. */
  function BlockField(block: string, name: string): (r: string)
    ensures Collapsed(r)
    ensures Group(block, name, Block).Some? ==> r == Collapse(Strip(Group(block, name, Block).value))
  {
    match Group(block, name, Block)
    case None => []
    case Some(g) => Collapse(Strip(g))
  }

  function CodeField(block: string): (r: string)
    ensures r == [] || IsStoryCode(r)
    ensures r == [] <==> Group(block, StoryIdLabel, StoryCode).None?
    ensures Group(block, StoryIdLabel, StoryCode).Some? ==> r == Group(block, StoryIdLabel, StoryCode).value
  {
    match Group(block, StoryIdLabel, StoryCode)
    case None => []
    case Some(g) => g
  }

  function PriorityField(block: string): (r: string)
    ensures r in Priorities
    ensures Group(block, PriorityLabel, Choice).Some? ==> r == Capitalize(Group(block, PriorityLabel, Choice).value)
  {
    match Group(block, PriorityLabel, Choice)
    case None => DefaultPriority
    case Some(g) => Capitalize(g)
  }

  function PointsField(block: string): (r: nat)
    ensures r > 0 ==> Group(block, PointsLabel, Number).Some?
    ensures Group(block, PointsLabel, Number).Some? ==> r == DigitsValue(Group(block, PointsLabel, Number).value)
  {
    match Group(block, PointsLabel, Number)
    case None => 0
    case Some(g) => DigitsValue(g)
  }

  /** `_extract_story_fields`: each field from the first match of its pattern, or its
      default when the pattern does not match. */
  function ExtractStory(block: string): (r: Story)
    ensures StoryShaped(r)
    ensures r.code == [] <==> Group(block, StoryIdLabel, StoryCode).None?
    ensures Group(block, TitleLabel, Line).None? ==> r.title == []
    ensures Group(block, UserStoryLabel, Block).None? ==> r.userStory == []
    ensures Group(block, PriorityLabel, Choice).None? ==> r.priority == DefaultPriority
    ensures Group(block, PointsLabel, Number).None? ==> r.points == 0
    ensures Group(block, DependenciesLabel, Line).None? ==> r.dependencies == DefaultDependencies
    ensures Group(block, NotesLabel, Block).None? ==> r.notes == []
    ensures Group(block, StoryIdLabel, StoryCode).Some? ==> r.code == Group(block, StoryIdLabel, StoryCode).value
    ensures Group(block, TitleLabel, Line).Some? ==> r.title == Strip(Group(block, TitleLabel, Line).value)
    ensures Group(block, UserStoryLabel, Block).Some? ==> r.userStory == Collapse(Strip(Group(block, UserStoryLabel, Block).value))
    ensures Group(block, PriorityLabel, Choice).Some? ==> r.priority == Capitalize(Group(block, PriorityLabel, Choice).value)
    ensures Group(block, DependenciesLabel, Line).Some? ==> r.dependencies == Strip(Group(block, DependenciesLabel, Line).value)
    ensures Group(block, NotesLabel, Block).Some? ==> r.notes == Collapse(Strip(Group(block, NotesLabel, Block).value))
  {
    assert Trimmed(DefaultDependencies) && Lacks(DefaultDependencies, '\n');
    Story(CodeField(block), LineField(block, TitleLabel, []), BlockField(block, UserStoryLabel),
          PriorityField(block), PointsField(block),
          LineField(block, DependenciesLabel, DefaultDependencies), BlockField(block, NotesLabel))
  }
  /** `**Story ID**:` at `i` in any letter case, then optional whitespace, `US-` in any
      letter case and a digit. */
  predicate StoryIdAt(block: string, i: nat)
    requires i <= |block|
  {
    && CiPrefixAt(block, i, Marker(StoryIdLabel)) && i + |Marker(StoryIdLabel)| <= |block|
    && var m := SkipSpaces(block, i + |Marker(StoryIdLabel)|);
       CiPrefixAt(block, m, StoryCodeHead) && m + |StoryCodeHead| < |block| && IsDigit(block[m + |StoryCodeHead|])
  }

  /** The story ID pattern matches at `i` exactly when the text there is a story ID line. */
  lemma StoryIdAtMatches(block: string, i: nat)
    requires i <= |block|
    ensures StoryIdAt(block, i) <==> FieldAt(block, i, StoryIdLabel, StoryCode).Some?
  {
    CiPrefixAtLower(block, i, Marker(StoryIdLabel));
    if CiPrefixAt(block, i, Marker(StoryIdLabel)) {
      var m := SkipSpaces(block, i + |Marker(StoryIdLabel)|);
      CiPrefixAtLower(block, m, StoryCodeHead);
    }
  }

  /** A block has a story ID exactly when a story ID line occurs somewhere in it. */
  lemma HasStoryId(block: string)
    ensures CodeField(block) != [] <==> exists i :: 0 <= i <= |block| && StoryIdAt(block, i)
  {
    GroupNone(block, StoryIdLabel, StoryCode);
    if CodeField(block) != [] {
      var i :| 0 <= i <= |block| && FieldMatches(block, StoryIdLabel, StoryCode)(i).Some?;
      StoryIdAtMatches(block, i);
    } else {
      forall i | 0 <= i <= |block| ensures !StoryIdAt(block, i) {
        assert FieldMatches(block, StoryIdLabel, StoryCode)(i).None?;
        StoryIdAtMatches(block, i);
      }
    }
  }

  /** The story points, when their pattern matches, are the captured digits read as a
      decimal number. */
  lemma ExtractStoryPoints(block: string)
    ensures Group(block, PointsLabel, Number).Some? ==>
              ExtractStory(block).points == DigitsValue(Group(block, PointsLabel, Number).value)
  {
    assert ExtractStory(block).points == PointsField(block);
  }

  // ---------------------------------------------------------------------------------------
  // The response
  // ---------------------------------------------------------------------------------------

  /** Blocks shorter than this, once stripped, are passed over. */
  const MinBlockLength: nat := 50

  /** The story a piece yields: none when the stripped piece is empty or too short, or when
      it carries no story ID. */
  function StoryOf(piece: string): (r: Option<Story>)
    ensures r.Some? ==> |Strip(piece)| >= MinBlockLength && r.value == ExtractStory(Strip(piece))
    ensures r.Some? <==> |Strip(piece)| >= MinBlockLength && ExtractStory(Strip(piece)).code != []
    ensures r.Some? ==> Kept(r.value)
  {
    var block := Strip(piece);
    if block == [] || |block| < MinBlockLength then None
    else
      var st := ExtractStory(block);
      if st.code != [] then Some(st) else None
  }

  /** A piece yields a story exactly when, stripped, it has at least 50 characters and a
      story ID line somewhere. */
  lemma StoryOfHasId(piece: string)
    ensures StoryOf(piece).Some?
            <==> |Strip(piece)| >= MinBlockLength && exists i :: 0 <= i <= |Strip(piece)| && StoryIdAt(Strip(piece), i)
  {
    var block := Strip(piece);
    HasStoryId(block);
    assert ExtractStory(block).code == CodeField(block);
  }

  /** A story the parser keeps: well-shaped, with a story ID. */
  predicate Kept(st: Story) {
    StoryShaped(st) && IsStoryCode(st.code)
  }

  /** The stories of the pieces, in order. */
  function KeptStories(pieces: seq<string>): (r: seq<Story>)
    ensures |r| <= |pieces|
    ensures forall k :: 0 <= k < |r| ==> Kept(r[k])
  {
    var found := Map(pieces, StoryOf);
    SomesKeep(found, Kept);
    Somes(found)
  }

  /** The stories of consecutive runs of pieces are those of each run, in order. */
  lemma KeptStoriesAppend(ps: seq<string>, qs: seq<string>)
    ensures KeptStories(ps + qs) == KeptStories(ps) + KeptStories(qs)
  {
    MapAppend(ps, qs, StoryOf);
    SomesAppend(Map(ps, StoryOf), Map(qs, StoryOf));
  }

  /** One piece yields its story when it has one, and nothing otherwise. */
  lemma KeptStoriesOne(p: string)
    ensures KeptStories([p]) == if StoryOf(p).Some? then [StoryOf(p).value] else []
  {
    assert Map([p], StoryOf) == [StoryOf(p)];
    assert Map([p], StoryOf)[1..] == [];
  }

  /** `_parse_user_stories`: every story kept has a story ID and well-shaped fields, and
      there are no more stories than pieces between rules. */
  function ParseUserStories(text: string): (r: seq<Story>)
    ensures |r| <= |SplitRules(text).0|
    ensures forall k :: 0 <= k < |r| ==> Kept(r[k])
  {
    KeptStories(SplitRules(text).0)
  }

  /** `UserStoryGenerator.generate` given whether the client configured and what the one
      call returned. The not-configured error is raised before the `try`, so it is not
      prefixed; a failed call is. */
  function Generate(configured: bool, outcome: Outcome): (r: Result<StoryBatch, string>)
    ensures !configured ==> r == Failure(NotConfiguredMessage)
    ensures configured && outcome.Raised? ==> r == Failure(GenerationErrorPrefix + outcome.message)
    ensures r.Success? <==> configured && outcome.Response?
    ensures r.Success? ==> r.value.rawOutput == outcome.text && r.value.stories == ParseUserStories(outcome.text)
    ensures r.Success? ==> r.value.totalCount == |r.value.stories|
  {
    if !configured then Failure(NotConfiguredMessage)
    else
      match outcome
      case Raised(m) => Failure(GenerationErrorPrefix + m)
      case Response(text) =>
        var stories := ParseUserStories(text);
        Success(StoryBatch(stories, text, |stories|))
  }

  const GenerationErrorPrefix: string := "User story generation error: "
  // ---------------------------------------------------------------------------------------
  // Output
  // ---------------------------------------------------------------------------------------

  const StoriesHeading: string := "## \U{1F4D6} User Stories\n"
  const StoryRule: string := "\n---\n"

  /** The output pieces `format_for_display` appends for one story; the notes line only
      when there are notes. */
  function StoryParts(st: Story): (r: seq<string>)
    ensures |r| == if st.notes != [] then 5 else 4
    ensures r[|r| - 1] == StoryRule
  {
    ["### " + st.code + ": " + st.title + "\n",
     "**User Story**: " + st.userStory + "\n",
     "**Priority**: " + st.priority + " | **Story Points**: " + NatToString(st.points)
       + " | **Dependencies**: " + st.dependencies + "\n"]
    + (if st.notes != [] then ["**Notes**: " + st.notes + "\n"] else [])
    + [StoryRule]
  }

  function AllParts(stories: seq<Story>): seq<string> {
    if stories == [] then [] else StoryParts(stories[0]) + AllParts(stories[1..])
  }

  function TotalLine(b: StoryBatch): string {
    "\n**Total User Stories**: " + NatToString(b.totalCount)
  }

  /** `format_for_display`: the output pieces joined with newlines. */
  function FormatForDisplay(b: StoryBatch): string {
    Join("\n", [StoriesHeading] + AllParts(b.stories) + [TotalLine(b)])
  }

  /** Reference layout of one story: each of its pieces followed by a newline. */
  function StoryBlock(st: Story): string {
    Concat(Suffixed(StoryParts(st), "\n"))
  }

  function StoryBlocks(stories: seq<Story>): string {
    if stories == [] then [] else StoryBlock(stories[0]) + StoryBlocks(stories[1..])
  }

  lemma {:induction false} AllPartsBlocks(stories: seq<Story>)
    ensures Concat(Suffixed(AllParts(stories), "\n")) == StoryBlocks(stories)
  {
    if stories != [] {
      AllPartsBlocks(stories[1..]);
      SuffixedAppend(StoryParts(stories[0]), AllParts(stories[1..]), "\n");
      ConcatAppend(Suffixed(StoryParts(stories[0]), "\n"), Suffixed(AllParts(stories[1..]), "\n"));
    }
  }

  /** The display text is the heading, then each story's block in order, then the total. */
  lemma DisplayLayout(b: StoryBatch)
    ensures FormatForDisplay(b) == StoriesHeading + "\n" + StoryBlocks(b.stories) + TotalLine(b)
  {
    JoinAppend("\n", [StoriesHeading] + AllParts(b.stories), [TotalLine(b)]);
    SuffixedAppend([StoriesHeading], AllParts(b.stories), "\n");
    ConcatAppend(Suffixed([StoriesHeading], "\n"), Suffixed(AllParts(b.stories), "\n"));
    AllPartsBlocks(b.stories);
  }

  const JiraHeader: string := "Summary," + "Description," + "Priority," + "Story Points," + "Issue Type"

  /** One CSV row. Title and user story are put in quotes as they are; nothing is escaped. */
  function JiraRow(st: Story): string {
    "\"" + st.title + "\",\"" + st.userStory + "\"," + st.priority + "," + NatToString(st.points) + ",Story"
  }

  function JiraRows(stories: seq<Story>): (r: seq<string>)
    ensures |r| == |stories|
    ensures forall k :: 0 <= k < |stories| ==> r[k] == JiraRow(stories[k])
  {
    seq(|stories|, k requires 0 <= k < |stories| => JiraRow(stories[k]))
  }

  /** `format_for_jira`: the header and one row per story, joined with newlines. */
  function FormatForJira(b: StoryBatch): string {
    Join("\n", [JiraHeader] + JiraRows(b.stories))
  }

  lemma DigitsOneLine(d: string)
    requires AllDigits(d)
    ensures Lacks(d, '\n')
  {
    forall k | 0 <= k < |d| ensures d[k] != '\n' {
      assert IsDigit(d[k]);
    }
  }

  /** A row of a parsed story is on one line. */
  lemma JiraRowOneLine(st: Story)
    requires StoryShaped(st)
    ensures Lacks(JiraRow(st), '\n')
  {
    CollapsedHasNoNewline(st.userStory);
    DigitsOneLine(NatToString(st.points));
    var q, m, e := "\"", "\",\"", "\",";
    assert Lacks(st.priority, '\n');
    LacksAppend(q, st.title, '\n');
    LacksAppend(q + st.title, m, '\n');
    LacksAppend(q + st.title + m, st.userStory, '\n');
    LacksAppend(q + st.title + m + st.userStory, e, '\n');
    LacksAppend(q + st.title + m + st.userStory + e, st.priority, '\n');
    LacksAppend(q + st.title + m + st.userStory + e + st.priority, ",", '\n');
    LacksAppend(q + st.title + m + st.userStory + e + st.priority + ",", NatToString(st.points), '\n');
    LacksAppend(q + st.title + m + st.userStory + e + st.priority + "," + NatToString(st.points), ",Story", '\n');
  }

  lemma JiraHeaderOneLine()
    ensures Lacks(JiraHeader, '\n')
  {
    var h1, h2, h3, h4, h5 := "Summary,", "Description,", "Priority,", "Story Points,", "Issue Type";
    assert Lacks(h1, '\n') && Lacks(h2, '\n') && Lacks(h3, '\n') && Lacks(h4, '\n') && Lacks(h5, '\n');
    LacksAppend(h1, h2, '\n');
    LacksAppend(h1 + h2, h3, '\n');
    LacksAppend(h1 + h2 + h3, h4, '\n');
    LacksAppend(h1 + h2 + h3 + h4, h5, '\n');
  }

  /** Read back line by line, the CSV text of parsed stories is the header and then exactly
      one row per story, in order. */
  lemma JiraLines(b: StoryBatch)
    requires forall k :: 0 <= k < |b.stories| ==> StoryShaped(b.stories[k])
    ensures Split(FormatForJira(b), "\n") == [JiraHeader] + JiraRows(b.stories)
  {
    var rows := JiraRows(b.stories);
    var lines := [JiraHeader] + rows;
    JiraHeaderOneLine();
    forall k | 0 <= k < |lines| ensures Lacks(lines[k], '\n') {
      if k > 0 {
        assert lines[k] == rows[k - 1] == JiraRow(b.stories[k - 1]);
        JiraRowOneLine(b.stories[k - 1]);
      }
    }
    assert forall x | x in lines :: Lacks(x, '\n');
    SplitJoin(lines, '\n');
  }
}
