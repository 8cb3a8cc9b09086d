/** Explicit matchers for the fixed regular-expression shapes the three parsers use.

    Every field pattern in the parsers ends in the same shape: some whitespace, then a lazy
    group, then a lookahead — `\s*(.+?)(?=L1|L2|…)` or `\s+(.+?)(?=…)`. Python's matcher
    tries the greedy whitespace run longest-first and, for each length, grows the lazy group
    one character at a time until a lookahead alternative holds. `Capture` is that search,
    written out; the lookahead alternatives the parsers use are the constructors of `Look`. */
module Patterns {
  import opened Wrappers
  import opened Text

  /** The three layouts of a requirement line the extractor recognises:
      `- FR-1: …` (bulleted), `FR-1: …` at the start of a line (plain), `**FR-1**: …` (bold). */
  datatype CodeStyle = Bulleted | Plain | Bold

  /** The character class `[-*•]`. */
  predicate IsBullet(c: char) {
    c == '-' || c == '*' || c == '\U{2022}'
  }

  /** `<prefix>-\d+`: the digits are non-empty and follow `prefix` and one hyphen. */
  predicate IsCode(c: string, prefix: string) {
    && |c| > |prefix| + 1
    && c[..|prefix| + 1] == prefix + "-"
    && AllDigits(c[|prefix| + 1..])
  }

  /** The end of `<prefix>-\d+` starting at `k`, when it is there (digits taken greedily). */
  function CodeEnd(s: string, k: nat, prefix: string): (r: Option<nat>)
    requires k <= |s|
    ensures r.Some? ==> var e := r.value; k + |prefix| + 1 < e <= |s| && IsCode(s[k..e], prefix) && (e == |s| || !IsDigit(s[e]))
  {
    PrefixAtSlice(s, k, prefix + "-");
    if PrefixAt(s, k, prefix + "-") then
      var d := SkipDigits(s, k + |prefix| + 1);
      if d > k + |prefix| + 1 then
        assert s[k..d][..|prefix| + 1] == s[k..k + |prefix| + 1];
        assert s[k..d][|prefix| + 1..] == s[k + |prefix| + 1..d];
        Some(d)
      else None
    else None
  }

  /** `CodeEnd` finds every code whose digit run is not followed by another digit. */
  lemma CodeEndAt(s: string, k: nat, d: nat, prefix: string)
    requires k < d <= |s| && IsCode(s[k..d], prefix)
    requires d == |s| || !IsDigit(s[d])
    ensures CodeEnd(s, k, prefix) == Some(d)
  {
    var c := s[k..d];
    var a := k + |prefix| + 1;
    assert s[k..a] == c[..|prefix| + 1];
    PrefixAtSlice(s, k, prefix + "-");
    forall j | a <= j < d
      ensures IsDigit(s[j])
    {
      assert s[j] == c[|prefix| + 1..][j - a];
    }
    SkipDigitsTo(s, a, d);
  }

  /** `<prefix>-\d+:` at `k`. */
  predicate CodeColonAt(s: string, k: nat, prefix: string)
    requires k <= |s|
  {
    match CodeEnd(s, k, prefix)
    case None => false
    case Some(d) => d < |s| && s[d] == ':'
  }

  /** One alternative of a lookahead `(?=…)`. */
  datatype Look =
    | EndOfText                                   // \Z
    | EndOrFinalNewline                           // $ without re.MULTILINE
    | Lit(text: string)                           // a literal such as \n## or \n---
    | DashWord(word: string)                      // -\s*WORD, case-insensitive
    | NextCode(style: CodeStyle, prefix: string)  // the start of the next requirement line

  /** The next requirement line in the given layout starts at `e`:
      `\n[-*•]\s*P-\d+:`, `\nP-\d+:` or `\n\*\*P-\d+`. */
  predicate NextCodeAt(s: string, e: nat, style: CodeStyle, prefix: string)
    requires e <= |s|
  {
    match style
    case Bulleted =>
      e + 1 < |s| && s[e] == '\n' && IsBullet(s[e + 1]) && CodeColonAt(s, SkipSpaces(s, e + 2), prefix)
    case Plain =>
      e < |s| && s[e] == '\n' && CodeColonAt(s, e + 1, prefix)
    case Bold =>
      PrefixAt(s, e, "\n**") && e + 3 <= |s| && CodeEnd(s, e + 3, prefix).Some?
  }

  predicate Holds(s: string, e: nat, look: Look)
    requires e <= |s|
  {
    match look
    case EndOfText => e == |s|
    case EndOrFinalNewline => e == |s| || (e == |s| - 1 && s[e] == '\n')
    case Lit(t) => PrefixAt(s, e, t)
    case DashWord(w) => e < |s| && s[e] == '-' && CiPrefixAt(s, SkipSpaces(s, e + 1), w)
    case NextCode(style, prefix) => NextCodeAt(s, e, style, prefix)
  }

  /** Some alternative of the lookahead holds at `e`. */
  predicate AnyHolds(s: string, e: nat, looks: seq<Look>)
    requires e <= |s|
  {
    |looks| > 0 && (Holds(s, e, looks[0]) || AnyHolds(s, e, looks[1..]))
  }

  /** What `.` matches: anything with `re.DOTALL`, anything but a newline without. */
  predicate DotOk(c: char, dotAll: bool) {
    dotAll || c != '\n'
  }

  /** The lazy group `(.+?)(?=looks)` grown from `e`: the first end position that satisfies
      the lookahead, provided every character passed over matches `.`. */
  function ScanEnd(s: string, e: nat, dotAll: bool, looks: seq<Look>): (r: Option<nat>)
    requires e <= |s|
    ensures r.Some? ==> e <= r.value <= |s| && AnyHolds(s, r.value, looks)
    ensures r.Some? ==> forall j :: e <= j < r.value ==> DotOk(s[j], dotAll) && !AnyHolds(s, j, looks)
    decreases |s| - e
  {
    if AnyHolds(s, e, looks) then Some(e)
    else if e < |s| && DotOk(s[e], dotAll) then ScanEnd(s, e + 1, dotAll, looks)
    else None
  }

  /** The lazy group started at `p`: it takes at least one character. */
  function LazyFrom(s: string, p: nat, dotAll: bool, looks: seq<Look>): (r: Option<nat>)
    requires p <= |s|
    ensures r.Some? ==> p < r.value <= |s| && AnyHolds(s, r.value, looks)
    ensures r.Some? ==> forall j :: p <= j < r.value ==> DotOk(s[j], dotAll)
    ensures r.Some? ==> forall j :: p < j < r.value ==> !AnyHolds(s, j, looks)
  {
    if p < |s| && DotOk(s[p], dotAll) then ScanEnd(s, p + 1, dotAll, looks) else None
  }

  /** Backtracking over the greedy whitespace run: start positions `p, p-1, …, lo`. */
  function StartFrom(s: string, p: nat, lo: nat, dotAll: bool, looks: seq<Look>): (r: Option<(nat, nat)>)
    requires lo <= p <= |s|
    ensures r.Some? ==> lo <= r.value.0 <= p && r.value.0 < r.value.1 <= |s|
    ensures r.Some? ==> AnyHolds(s, r.value.1, looks)
    ensures r.Some? ==> forall j :: r.value.0 <= j < r.value.1 ==> DotOk(s[j], dotAll)
    ensures r.Some? ==> forall j :: r.value.0 < j < r.value.1 ==> !AnyHolds(s, j, looks)
    decreases p
  {
    match LazyFrom(s, p, dotAll, looks)
    case Some(e) => Some((p, e))
    case None => if p > lo then StartFrom(s, p - 1, lo, dotAll, looks) else None
  }

  /** `\s{minSpaces,}(.+?)(?=looks)` matched at `a` (`minSpaces` is 0 for `\s*`, 1 for `\s+`):
      the bounds of the captured group. Everything between `a` and the group is whitespace,
      the group ends at the first position after its first character where the lookahead
      holds, and every character in it matches `.`. */
  function Capture(s: string, a: nat, minSpaces: nat, dotAll: bool, looks: seq<Look>): (r: Option<(nat, nat)>)
    requires a <= |s|
    ensures r.Some? ==> a + minSpaces <= r.value.0 < r.value.1 <= |s|
    ensures r.Some? ==> forall j :: a <= j < r.value.0 ==> IsSpace(s[j])
    ensures r.Some? ==> AnyHolds(s, r.value.1, looks)
    ensures r.Some? ==> forall j :: r.value.0 <= j < r.value.1 ==> DotOk(s[j], dotAll)
    ensures r.Some? ==> forall j :: r.value.0 < j < r.value.1 ==> !AnyHolds(s, j, looks)
  {
    var m := SkipSpaces(s, a);
    if m < a + minSpaces then None else StartFrom(s, m, a + minSpaces, dotAll, looks)
  }

  /** The lazy group `s[lo..hi]` stops at the first place after its first character where
      the lookahead holds. */
  predicate StopsAt(s: string, lo: nat, hi: nat, looks: seq<Look>) {
    lo < hi <= |s| && AnyHolds(s, hi, looks) && forall j :: lo < j < hi ==> !AnyHolds(s, j, looks)
  }

  /** A lookahead with `\Z` or `$` among its alternatives holds at the end of the text. */
  lemma {:induction false} EndHolds(s: string, looks: seq<Look>)
    requires EndOfText in looks || EndOrFinalNewline in looks
    ensures AnyHolds(s, |s|, looks)
    decreases |looks|
  {
    if looks[0] != EndOfText && looks[0] != EndOrFinalNewline {
      assert looks == [looks[0]] + looks[1..];
      EndHolds(s, looks[1..]);
    }
  }

  /** With `re.DOTALL` and `\Z` or `$` in the lookahead, growing the lazy group always ends. */
  lemma {:induction false} ScanEndTotal(s: string, e: nat, looks: seq<Look>)
    requires e <= |s| && (EndOfText in looks || EndOrFinalNewline in looks)
    ensures ScanEnd(s, e, true, looks).Some?
    decreases |s| - e
  {
    if e == |s| {
      EndHolds(s, looks);
    } else {
      ScanEndTotal(s, e + 1, looks);
    }
  }

  /** `\s*(.+?)(?=…|\Z)` with `re.DOTALL` matches wherever at least one character is left:
      if the whitespace run takes everything, it gives the last character back. */
  lemma CaptureTotal(s: string, a: nat, looks: seq<Look>)
    requires a < |s| && (EndOfText in looks || EndOrFinalNewline in looks)
    ensures Capture(s, a, 0, true, looks).Some?
  {
    var m := SkipSpaces(s, a);
    if m < |s| {
      ScanEndTotal(s, m + 1, looks);
      assert LazyFrom(s, m, true, looks).Some?;
    } else {
      ScanEndTotal(s, m, looks);
      assert LazyFrom(s, m - 1, true, looks).Some?;
      assert StartFrom(s, m - 1, a, true, looks).Some?;
    }
  }

  /** With `re.DOTALL`, the lazy group grown from `e0` ends whenever the lookahead holds
      somewhere at or after `e0`. */
  lemma {:induction false} ScanEndReaches(s: string, e0: nat, e: nat, looks: seq<Look>)
    requires e0 <= e <= |s| && AnyHolds(s, e, looks)
    ensures ScanEnd(s, e0, true, looks).Some?
    decreases e - e0
  {
    if e0 < e && !AnyHolds(s, e0, looks) {
      ScanEndReaches(s, e0 + 1, e, looks);
    }
  }

  /** Backtracking from `p` down to `lo` succeeds whenever the lookahead holds at some `e`
      past `lo`: the start `e - 1`, or a later one, reaches it. */
  lemma {:induction false} StartFromReaches(s: string, p: nat, lo: nat, e: nat, looks: seq<Look>)
    requires lo <= p <= |s| && lo < e <= |s| && AnyHolds(s, e, looks)
    ensures StartFrom(s, p, lo, true, looks).Some?
    decreases p
  {
    if p < e {
      ScanEndReaches(s, p + 1, e, looks);
      assert LazyFrom(s, p, true, looks).Some?;
    } else if LazyFrom(s, p, true, looks).None? {
      StartFromReaches(s, p - 1, lo, e, looks);
    }
  }

  /** `\s{minSpaces,}(.+?)(?=looks)` with `re.DOTALL` matches at `a` whenever the required
      whitespace is there and the lookahead holds somewhere after the first character that
      may open the group. */
  lemma CaptureFound(s: string, a: nat, minSpaces: nat, e: nat, looks: seq<Look>)
    requires a + minSpaces < e <= |s| && AnyHolds(s, e, looks)
    requires forall j :: a <= j < a + minSpaces ==> IsSpace(s[j])
    ensures Capture(s, a, minSpaces, true, looks).Some?
  {
    StartFromReaches(s, SkipSpaces(s, a), a + minSpaces, e, looks);
  }

  /** `re.search`: the leftmost position `at` in `i..limit` where `matchAt` matches, with
      what it matched there. */
  function Leftmost(limit: nat, matchAt: nat -> Option<(nat, nat)>, i: nat): (r: Option<(nat, nat, nat)>)
    requires i <= limit
    ensures r.Some? ==> i <= r.value.0 <= limit && matchAt(r.value.0) == Some((r.value.1, r.value.2))
    ensures r.Some? ==> forall j :: i <= j < r.value.0 ==> matchAt(j).None?
    ensures r.None? ==> forall j :: i <= j <= limit ==> matchAt(j).None?
    decreases limit - i
  {
    match matchAt(i)
    case Some(g) => Some((i, g.0, g.1))
    case None => if i < limit then Leftmost(limit, matchAt, i + 1) else None
  }

  /** `re.search` finds the first position that matches. */
  lemma {:induction false} LeftmostIs(limit: nat, matchAt: nat -> Option<(nat, nat)>, i: nat, q: nat)
    requires i <= q <= limit && matchAt(q).Some?
    requires forall j :: i <= j < q ==> matchAt(j).None?
    ensures Leftmost(limit, matchAt, i) == Some((q, matchAt(q).value.0, matchAt(q).value.1))
    decreases q - i
  {
    if i < q {
      LeftmostIs(limit, matchAt, i + 1, q);
    }
  }

  /** Every match found at `j` lies after `j` and inside `0..n`, and is not empty. */
  predicate Advancing(n: nat, matchAt: nat -> Option<(nat, nat)>) {
    forall j: nat :: j <= n && matchAt(j).Some? ==> j < matchAt(j).value.0 < matchAt(j).value.1 <= n
  }

  /** `re.findall` with one group: the groups of the successive matches, in order and not
      overlapping; the list is empty exactly when nothing matches from `i` on. Which match
      comes first, and where the search resumes, is `FindAllFirst`. */
  function FindAll(n: nat, matchAt: nat -> Option<(nat, nat)>, i: nat): (r: seq<(nat, nat)>)
    requires i <= n && Advancing(n, matchAt)
    ensures forall k :: 0 <= k < |r| ==> i < r[k].0 < r[k].1 <= n
    ensures forall k :: 0 <= k < |r| - 1 ==> r[k].1 < r[k + 1].0
    ensures r == [] <==> forall j :: i <= j <= n ==> matchAt(j).None?
    decreases n - i
  {
    match Leftmost(n, matchAt, i)
    case None => []
    case Some(f) =>
      var rest := FindAll(n, matchAt, f.2);
      assert forall k :: 0 < k < |rest| + 1 ==> ([(f.1, f.2)] + rest)[k] == rest[k - 1];
      [(f.1, f.2)] + rest
  }

  /** The first group `re.findall` returns is the one matched at the leftmost matching
      position `q`; the search then resumes where that match ended. */
  lemma FindAllFirst(n: nat, matchAt: nat -> Option<(nat, nat)>, i: nat, q: nat)
    requires i <= q <= n && Advancing(n, matchAt) && matchAt(q).Some?
    requires forall j :: i <= j < q ==> matchAt(j).None?
    ensures FindAll(n, matchAt, i) == [matchAt(q).value] + FindAll(n, matchAt, matchAt(q).value.1)
  {
    LeftmostIs(n, matchAt, i, q);
  }

  /** A property every match has is had by every span `re.findall` returns. */
  lemma {:induction false} FindAllKeeps(n: nat, matchAt: nat -> Option<(nat, nat)>, i: nat, ok: (nat, nat) -> bool)
    requires i <= n && Advancing(n, matchAt)
    requires forall j: nat :: j <= n && matchAt(j).Some? ==> ok(matchAt(j).value.0, matchAt(j).value.1)
    ensures forall k :: 0 <= k < |FindAll(n, matchAt, i)| ==> ok(FindAll(n, matchAt, i)[k].0, FindAll(n, matchAt, i)[k].1)
    decreases n - i
  {
    match Leftmost(n, matchAt, i)
    case None =>
    case Some(f) =>
      FindAllKeeps(n, matchAt, f.2, ok);
  }

  /** Every match found at `j` ends after `j` and inside `0..n`. */
  predicate Progressing<T>(n: nat, matchAt: nat -> Option<(T, nat)>) {
    forall j: nat :: j <= n && matchAt(j).Some? ==> j < matchAt(j).value.1 <= n
  }

  /** `re.findall` of a pattern with several groups: scan from `i`, keep each match's
      groups and resume where the match ends. */
  function Scan<T>(n: nat, matchAt: nat -> Option<(T, nat)>, i: nat): seq<T>
    requires i <= n && Progressing(n, matchAt)
    decreases n - i
  {
    if i == n then []
    else
      match matchAt(i)
      case Some(m) => [m.0] + Scan(n, matchAt, m.1)
      case None => Scan(n, matchAt, i + 1)
  }

  /** The scan comes back empty exactly when nothing matches from `i` on. */
  lemma {:induction false} ScanEmpty<T>(n: nat, matchAt: nat -> Option<(T, nat)>, i: nat)
    requires i <= n && Progressing(n, matchAt)
    ensures Scan(n, matchAt, i) == [] <==> forall j :: i <= j < n ==> matchAt(j).None?
    decreases n - i
  {
    if i < n && matchAt(i).None? {
      ScanEmpty(n, matchAt, i + 1);
    }
  }

  /** The first item of the scan is that of the leftmost match, and the rest are found
      after it. */
  lemma {:induction false} ScanFirst<T>(n: nat, matchAt: nat -> Option<(T, nat)>, i: nat, j: nat)
    requires i <= j < n && Progressing(n, matchAt) && matchAt(j).Some?
    requires forall k :: i <= k < j ==> matchAt(k).None?
    ensures Scan(n, matchAt, i) == [matchAt(j).value.0] + Scan(n, matchAt, matchAt(j).value.1)
    decreases j - i
  {
    if i < j {
      ScanFirst(n, matchAt, i + 1, j);
    }
  }

  /** A property of every match's groups holds for every item of the scan. */
  lemma {:induction false} ScanKeeps<T>(n: nat, matchAt: nat -> Option<(T, nat)>, i: nat, ok: T -> bool)
    requires i <= n && Progressing(n, matchAt)
    requires forall j: nat :: j <= n && matchAt(j).Some? ==> ok(matchAt(j).value.0)
    ensures forall k :: 0 <= k < |Scan(n, matchAt, i)| ==> ok(Scan(n, matchAt, i)[k])
    decreases n - i
  {
    if i < n {
      match matchAt(i)
      case Some(m) =>
        ScanKeeps(n, matchAt, m.1, ok);
        var rest := Scan(n, matchAt, m.1);
        assert forall k :: 0 < k < |rest| + 1 ==> ([m.0] + rest)[k] == rest[k - 1];
      case None =>
        ScanKeeps(n, matchAt, i + 1, ok);
    }
  }

  /** `re.search` of a pattern with several groups: what the first position from `i` to `n`
      where it matches gives. */
  function First<T>(n: nat, matchAt: nat -> Option<T>, i: nat): Option<T>
    requires i <= n
    decreases n - i
  {
    match matchAt(i)
    case Some(x) => Some(x)
    case None => if i < n then First(n, matchAt, i + 1) else None
  }

  /** The search finds nothing exactly when nothing matches from `i` to `n`. */
  lemma {:induction false} FirstNone<T>(n: nat, matchAt: nat -> Option<T>, i: nat)
    requires i <= n
    ensures First(n, matchAt, i).None? <==> forall j :: i <= j <= n ==> matchAt(j).None?
    decreases n - i
  {
    if matchAt(i).None? && i < n {
      FirstNone(n, matchAt, i + 1);
    }
  }

  /** The search gives what the leftmost match gives. */
  lemma {:induction false} FirstIs<T>(n: nat, matchAt: nat -> Option<T>, i: nat, j: nat)
    requires i <= j <= n && matchAt(j).Some?
    requires forall k :: i <= k < j ==> matchAt(k).None?
    ensures First(n, matchAt, i) == matchAt(j)
    decreases j - i
  {
    if i < j {
      FirstIs(n, matchAt, i + 1, j);
    }
  }

  /** A property of every match holds for what the search finds. */
  /** Searching from `i` finds something whenever some `q` at or after `i` matches. */
  lemma FirstSome<T>(n: nat, matchAt: nat -> Option<T>, i: nat, q: nat)
    requires i <= q <= n && matchAt(q).Some?
    ensures First(n, matchAt, i).Some?
  {
    FirstNone(n, matchAt, i);
  }

  lemma {:induction false} FirstKeeps<T>(n: nat, matchAt: nat -> Option<T>, i: nat, ok: T -> bool)
    requires i <= n
    requires forall j :: i <= j <= n && matchAt(j).Some? ==> ok(matchAt(j).value)
    ensures First(n, matchAt, i).Some? ==> ok(First(n, matchAt, i).value)
    decreases n - i
  {
    if matchAt(i).None? && i < n {
      FirstKeeps(n, matchAt, i + 1, ok);
    }
  }
}
