/** The Python string operations the parsers rely on, over `string` (= `seq<char>`):
    `strip`, `split()`, `' '.join(...)`, `split(sep)`, `in`, `lower`, `capitalize`,
    `int(...)` on a digit run and `f"{n}"` / `f"{n:03d}"`. */
module Text {
  import opened Wrappers

  /** Python's `str.isspace()` on one character. `strip()`, `split()` and the regex class `\s`
      (on `str` patterns) all use this set. */
  predicate IsSpace(c: char) {
    c == ' ' || ('\t' <= c <= '\r') || ('\U{1C}' <= c <= '\U{1F}') || c == '\U{85}'
    || c == '\U{A0}' || c == '\U{1680}' || ('\U{2000}' <= c <= '\U{200A}')
    || c == '\U{2028}' || c == '\U{2029}' || c == '\U{202F}' || c == '\U{205F}' || c == '\U{3000}'
  }

  /** The regex class `\d`, restricted to ASCII digits. */
  predicate IsDigit(c: char) {
    '0' <= c <= '9'
  }

  predicate AllSpace(s: string) {
    forall k :: 0 <= k < |s| ==> IsSpace(s[k])
  }

  predicate NoSpace(s: string) {
    forall k :: 0 <= k < |s| ==> !IsSpace(s[k])
  }

  predicate AllDigits(s: string) {
    forall k :: 0 <= k < |s| ==> IsDigit(s[k])
  }

  /** `c not in s` for a single character. */
  predicate Lacks(s: string, c: char) {
    forall k :: 0 <= k < |s| ==> s[k] != c
  }

  /** What `split()` returns: non-empty pieces without whitespace. */
  predicate IsWordList(ws: seq<string>) {
    forall k :: 0 <= k < |ws| ==> ws[k] != [] && NoSpace(ws[k])
  }

  /** A string with no whitespace at either end, as `strip()` leaves it. */
  predicate Trimmed(s: string) {
    s == [] || (!IsSpace(s[0]) && !IsSpace(s[|s| - 1]))
  }

  /** A string that `' '.join(s.split())` leaves unchanged: trimmed, and its only whitespace
      is single `' '` characters between words. */
  predicate Collapsed(s: string) {
    && Trimmed(s)
    && (forall k :: 0 <= k < |s| && IsSpace(s[k]) ==> s[k] == ' ')
    && (forall k :: 0 <= k < |s| - 1 ==> !IsSpace(s[k]) || !IsSpace(s[k + 1]))
  }

  // ---------------------------------------------------------------------------------------
  // Scanning positions
  // ---------------------------------------------------------------------------------------

  /** The end of the whitespace run starting at `i` (greedy `\s*`). */
  function SkipSpaces(s: string, i: nat): (k: nat)
    requires i <= |s|
    ensures i <= k <= |s|
    ensures forall j :: i <= j < k ==> IsSpace(s[j])
    ensures k < |s| ==> !IsSpace(s[k])
    decreases |s| - i
  {
    if i < |s| && IsSpace(s[i]) then SkipSpaces(s, i + 1) else i
  }

  /** The end of the digit run starting at `i` (greedy `\d*`). */
  function SkipDigits(s: string, i: nat): (k: nat)
    requires i <= |s|
    ensures i <= k <= |s|
    ensures forall j :: i <= j < k ==> IsDigit(s[j])
    ensures k < |s| ==> !IsDigit(s[k])
    decreases |s| - i
  {
    if i < |s| && IsDigit(s[i]) then SkipDigits(s, i + 1) else i
  }

  /** The end of the non-whitespace run starting at `i`. */
  function WordEnd(s: string, i: nat): (k: nat)
    requires i <= |s|
    ensures i <= k <= |s|
    ensures forall j :: i <= j < k ==> !IsSpace(s[j])
    ensures k < |s| ==> IsSpace(s[k])
    decreases |s| - i
  {
    if i < |s| && !IsSpace(s[i]) then WordEnd(s, i + 1) else i
  }

  /** `s[i:].startswith(t)`, compared character by character. */
  predicate PrefixAt(s: string, i: nat, t: string) {
    i <= |s| && PrefixFrom(s, i, t, 0)
  }

  predicate PrefixFrom(s: string, i: nat, t: string, k: nat)
    decreases |t| - k
  {
    k >= |t| || (i + k < |s| && s[i + k] == t[k] && PrefixFrom(s, i, t, k + 1))
  }

  /** `s[i:].lower().startswith(t.lower())` for ASCII letters: the literal part of a regex
      compiled with `re.IGNORECASE`. */
  predicate CiPrefixAt(s: string, i: nat, t: string) {
    CiPrefixFrom(s, i, t, 0)
  }

  predicate CiPrefixFrom(s: string, i: nat, t: string, k: nat)
    decreases |t| - k
  {
    k >= |t| || (i + k < |s| && LowerChar(s[i + k]) == LowerChar(t[k]) && CiPrefixFrom(s, i, t, k + 1))
  }

  /** The first position at or after `i` where `t` occurs. */
  function IndexOf(s: string, t: string, i: nat): (r: Option<nat>)
    ensures r.Some? ==> i <= r.value && PrefixAt(s, r.value, t)
    ensures r.Some? ==> forall j :: i <= j < r.value ==> !PrefixAt(s, j, t)
    ensures r.None? ==> forall j :: i <= j ==> !PrefixAt(s, j, t)
    decreases |s| + 1 - i
  {
    if i + |t| > |s| then
      assert forall j :: i <= j ==> !PrefixAt(s, j, t) by {
        forall j | i <= j ensures !PrefixAt(s, j, t) {
          PrefixAtBounds(s, j, t);
        }
      }
      None
    else if PrefixAt(s, i, t) then Some(i)
    else IndexOf(s, t, i + 1)
  }

  /** `t in s`. */
  predicate Contains(s: string, t: string) {
    IndexOf(s, t, 0).Some?
  }

  // ---------------------------------------------------------------------------------------
  // strip, split, join
  // ---------------------------------------------------------------------------------------

  /** The start of the whitespace run that ends `s[..j]`, not going below `lo`. */
  function TrailStart(s: string, lo: nat, j: nat): (k: nat)
    requires lo <= j <= |s|
    ensures lo <= k <= j
    ensures forall m :: k <= m < j ==> IsSpace(s[m])
    ensures k > lo ==> !IsSpace(s[k - 1])
    decreases j
  {
    if j > lo && IsSpace(s[j - 1]) then TrailStart(s, lo, j - 1) else j
  }

  /** `str.strip()`: the infix left after removing whitespace at both ends. */
  function Strip(s: string): (r: string)
    ensures Trimmed(r)
    ensures r == [] <==> AllSpace(s)
    ensures |r| <= |s|
    ensures forall c :: Lacks(s, c) ==> Lacks(r, c)
  {
    var a := SkipSpaces(s, 0);
    var b := TrailStart(s, a, |s|);
    assert b == a ==> AllSpace(s);
    assert forall c :: Lacks(s, c) ==> Lacks(s[a..b], c) by {
      forall c | Lacks(s, c) ensures Lacks(s[a..b], c) {
        forall k | 0 <= k < b - a ensures s[a..b][k] != c {
          assert s[a..b][k] == s[a + k];
        }
      }
    }
    s[a..b]
  }

  /** `str.split()` with no argument: the maximal runs of non-whitespace, in order. */
  function Words(s: string): (ws: seq<string>)
    ensures IsWordList(ws)
    decreases |s|
  {
    if s == [] then []
    else if IsSpace(s[0]) then Words(s[1..])
    else
      var e := WordEnd(s, 0);
      [s[..e]] + Words(s[e..])
  }

  /** `sep.join(xs)`. */
  function Join(sep: string, xs: seq<string>): string {
    if |xs| == 0 then []
    else if |xs| == 1 then xs[0]
    else xs[0] + sep + Join(sep, xs[1..])
  }

  /** `' '.join(s.split())`: every whitespace run becomes one space, none at the ends. */
  function Collapse(s: string): (r: string)
    ensures Collapsed(r)
  {
    JoinOfWordsCollapsed(Words(s));
    Join(" ", Words(s))
  }

  /** `s.split(sep)` for a non-empty separator: the pieces between the leftmost
      non-overlapping occurrences of `sep`. */
  function Split(s: string, sep: string): (r: seq<string>)
    requires sep != []
    ensures |r| >= 1
    decreases |s|
  {
    match IndexOf(s, sep, 0)
    case None => [s]
    case Some(i) =>
      PrefixAtSlice(s, i, sep);
      [s[..i]] + Split(s[i + |sep|..], sep)
  }

  /** `"".join(xs)`. */
  function Concat(xs: seq<string>): string {
    if xs == [] then [] else xs[0] + Concat(xs[1..])
  }

  // ---------------------------------------------------------------------------------------
  // Case and numbers
  // ---------------------------------------------------------------------------------------

  function LowerChar(c: char): char {
    if 'A' <= c <= 'Z' then (c as int + 32) as char else c
  }

  function UpperChar(c: char): char {
    if 'a' <= c <= 'z' then (c as int - 32) as char else c
  }

  /** `str.lower()` on ASCII letters; other characters are kept. */
  function Lower(s: string): (r: string)
    ensures |r| == |s|
    ensures forall k :: 0 <= k < |s| ==> r[k] == LowerChar(s[k])
  {
    seq(|s|, k requires 0 <= k < |s| => LowerChar(s[k]))
  }

  /** `str.capitalize()` on ASCII letters: first character upper case, the rest lower case. */
  function Capitalize(s: string): (r: string)
    ensures |r| == |s|
  {
    if s == [] then [] else [UpperChar(s[0])] + Lower(s[1..])
  }

  function DigitChar(d: nat): char
    requires d < 10
  {
    ('0' as int + d) as char
  }

  /** `int(ds)` for a run of ASCII digits (leading zeros allowed). */
  function DigitsValue(ds: string): nat
    requires AllDigits(ds)
  {
    if ds == [] then 0
    else DigitsValue(ds[..|ds| - 1]) * 10 + (ds[|ds| - 1] as int - '0' as int)
  }

  /** `f"{n}"` for a natural number. */
  function NatToString(n: nat): (r: string)
    ensures r != [] && AllDigits(r)
    ensures |r| > 1 ==> r[0] != '0'
  {
    if n < 10 then [DigitChar(n)] else NatToString(n / 10) + [DigitChar(n % 10)]
  }

  /** `f"{i}"` for an integer. */
  function IntToString(i: int): string {
    if i < 0 then "-" + NatToString(-i) else NatToString(i)
  }

  function Zeros(n: nat): (r: string)
    ensures |r| == n && AllDigits(r)
    ensures forall k :: 0 <= k < n ==> r[k] == '0'
  {
    if n == 0 then [] else Zeros(n - 1) + "0"
  }

  /** `f"{n:03d}"`: the decimal digits, left-padded with zeros to at least three. */
  function Pad3(n: nat): (r: string)
    ensures |r| >= 3 && AllDigits(r)
  {
    var d := NatToString(n);
    if |d| >= 3 then d else Zeros(3 - |d|) + d
  }

  // ---------------------------------------------------------------------------------------
  // Lemmas
  // ---------------------------------------------------------------------------------------

  /** The greedy whitespace run from `i` ends at `j` when everything in between is
      whitespace and `s[j]` is not. */
  lemma {:induction false} SkipSpacesTo(s: string, i: nat, j: nat)
    requires i <= j <= |s|
    requires forall k :: i <= k < j ==> IsSpace(s[k])
    requires j == |s| || !IsSpace(s[j])
    ensures SkipSpaces(s, i) == j
    decreases j - i
  {
    if i < j {
      SkipSpacesTo(s, i + 1, j);
    }
  }

  /** The same for the greedy digit run. */
  lemma {:induction false} SkipDigitsTo(s: string, i: nat, j: nat)
    requires i <= j <= |s|
    requires forall k :: i <= k < j ==> IsDigit(s[k])
    requires j == |s| || !IsDigit(s[j])
    ensures SkipDigits(s, i) == j
    decreases j - i
  {
    if i < j {
      SkipDigitsTo(s, i + 1, j);
    }
  }

  /** The end of the run of characters other than `c` starting at `i` (greedy `[^c]*`). */
  function RunEnd(s: string, i: nat, c: char): (k: nat)
    requires i <= |s|
    ensures i <= k <= |s|
    ensures forall j :: i <= j < k ==> s[j] != c
    ensures k < |s| ==> s[k] == c
    decreases |s| - i
  {
    if i < |s| && s[i] != c then RunEnd(s, i + 1, c) else i
  }

  /** The run ends at the first `c`, or at the end of the text. */
  lemma {:induction false} RunEndTo(s: string, i: nat, j: nat, c: char)
    requires i <= j <= |s|
    requires forall k :: i <= k < j ==> s[k] != c
    requires j == |s| || s[j] == c
    ensures RunEnd(s, i, c) == j
    decreases j - i
  {
    if i < j {
      RunEndTo(s, i + 1, j, c);
    }
  }

  /** A run inside a slice that stops before the slice's end stops at the same place in the
      whole text. */
  lemma {:induction false} RunEndSlice(s: string, lo: nat, hi: nat, j: nat, c: char)
    requires lo <= hi <= |s| && j <= hi - lo
    ensures RunEnd(s[lo..hi], j, c) < hi - lo ==> lo + RunEnd(s[lo..hi], j, c) == RunEnd(s, lo + j, c)
    decreases hi - lo - j
  {
    if j < hi - lo && s[lo..hi][j] != c {
      RunEndSlice(s, lo, hi, j + 1, c);
    }
  }

  lemma PrefixAtBounds(s: string, i: nat, t: string)
    ensures PrefixAt(s, i, t) ==> i + |t| <= |s|
  {
    if PrefixAt(s, i, t) {
      PrefixAtSlice(s, i, t);
    }
  }

  lemma {:induction false} PrefixFromSlice(s: string, i: nat, t: string, k: nat)
    requires k <= |t|
    requires i + k <= |s|
    ensures PrefixFrom(s, i, t, k) <==> i + |t| <= |s| && s[i + k..i + |t|] == t[k..]
    decreases |t| - k
  {
    if k < |t| {
      if i + k < |s| {
        PrefixFromSlice(s, i, t, k + 1);
        if i + |t| <= |s| {
          assert s[i + k..i + |t|] == [s[i + k]] + s[i + k + 1..i + |t|];
          assert t[k..] == [t[k]] + t[k + 1..];
        }
      }
    }
  }

  /** The character-by-character prefix test agrees with slice equality. */
  lemma PrefixAtSlice(s: string, i: nat, t: string)
    ensures PrefixAt(s, i, t) <==> i + |t| <= |s| && s[i..i + |t|] == t
  {
    if i <= |s| {
      PrefixFromSlice(s, i, t, 0);
    }
  }

  /** `Lower` works character by character. */
  lemma LowerCons(x: string)
    requires x != []
    ensures Lower(x) == [LowerChar(x[0])] + Lower(x[1..])
  {
    var r := [LowerChar(x[0])] + Lower(x[1..]);
    forall m | 0 <= m < |x| ensures Lower(x)[m] == r[m] {
      if m > 0 {
        assert r[m] == Lower(x[1..])[m - 1];
      }
    }
  }

  /** A case-insensitive match of `t` at `i` is a match of the lower-cased texts. */
  lemma {:induction false} CiPrefixFromLower(s: string, i: nat, t: string, k: nat)
    requires k <= |t| && i + k <= |s|
    ensures CiPrefixFrom(s, i, t, k) <==> i + |t| <= |s| && Lower(s[i + k..i + |t|]) == Lower(t[k..])
    decreases |t| - k
  {
    if k < |t| && i + k < |s| {
      CiPrefixFromLower(s, i, t, k + 1);
      if i + |t| <= |s| {
        var x, y := s[i + k..i + |t|], t[k..];
        assert x[0] == s[i + k] && x[1..] == s[i + k + 1..i + |t|];
        assert y[0] == t[k] && y[1..] == t[k + 1..];
        LowerCons(x);
        LowerCons(y);
        var a, b := [LowerChar(x[0])], [LowerChar(y[0])];
        assert (a + Lower(x[1..]))[0] == LowerChar(x[0]) && (a + Lower(x[1..]))[1..] == Lower(x[1..]);
        assert (b + Lower(y[1..]))[0] == LowerChar(y[0]) && (b + Lower(y[1..]))[1..] == Lower(y[1..]);
      }
    }
  }

  /** A case-blind occurrence lies inside the text. */
  lemma {:induction false} CiPrefixFromBounds(s: string, i: nat, t: string, k: nat)
    requires k < |t| && CiPrefixFrom(s, i, t, k)
    ensures i + |t| <= |s|
    decreases |t| - k
  {
    if k + 1 < |t| {
      CiPrefixFromBounds(s, i, t, k + 1);
    }
  }

  lemma CiPrefixAtBounds(s: string, i: nat, t: string)
    requires i <= |s|
    ensures CiPrefixAt(s, i, t) ==> i + |t| <= |s|
  {
    if CiPrefixAt(s, i, t) && |t| > 0 {
      CiPrefixFromBounds(s, i, t, 0);
    }
  }

  lemma CiPrefixAtLower(s: string, i: nat, t: string)
    requires i <= |s|
    ensures CiPrefixAt(s, i, t) <==> i + |t| <= |s| && Lower(s[i..i + |t|]) == Lower(t)
  {
    CiPrefixFromLower(s, i, t, 0);
    assert t[0..] == t;
  }

  /** `str.capitalize()` looks only at the lower-cased text. */
  lemma CapitalizeLower(x: string, y: string)
    requires Lower(x) == Lower(y)
    ensures Capitalize(x) == Capitalize(y)
  {
    if x != [] {
      LowerCons(x);
      LowerCons(y);
      assert Lower(x)[0] == LowerChar(x[0]) && Lower(y)[0] == LowerChar(y[0]);
      assert Lower(x)[1..] == Lower(x[1..]) && Lower(y)[1..] == Lower(y[1..]);
      assert UpperChar(x[0]) == UpperChar(LowerChar(x[0]));
      assert UpperChar(y[0]) == UpperChar(LowerChar(y[0]));
    }
  }

  /** A word that is already capitalised, an ASCII capital and then ASCII lower-case
      letters, is its own `str.capitalize()`. */
  lemma CapitalizeFixed(w: string)
    requires w != [] && 'A' <= w[0] <= 'Z'
    requires forall k :: 1 <= k < |w| ==> 'a' <= w[k] <= 'z'
    ensures Capitalize(w) == w
  {
    assert Lower(w[1..]) == w[1..];
    assert [w[0]] + w[1..] == w;
  }

  lemma LacksAppend(a: string, b: string, c: char)
    ensures Lacks(a + b, c) <==> Lacks(a, c) && Lacks(b, c)
  {
    if Lacks(a + b, c) {
      forall k | 0 <= k < |a| ensures a[k] != c {
        assert (a + b)[k] == a[k];
      }
      forall k | 0 <= k < |b| ensures b[k] != c {
        assert (a + b)[|a| + k] == b[k];
      }
    }
    if Lacks(a, c) && Lacks(b, c) {
      forall k | 0 <= k < |a + b| ensures (a + b)[k] != c {
        if k < |a| {
          assert (a + b)[k] == a[k];
        } else {
          assert (a + b)[k] == b[k - |a|];
        }
      }
    }
  }

  /** Words are found exactly in strings that are not all whitespace. */
  lemma {:induction false} WordsEmpty(s: string)
    ensures Words(s) == [] <==> AllSpace(s)
    decreases |s|
  {
    if s != [] && IsSpace(s[0]) {
      WordsEmpty(s[1..]);
      assert forall k :: 1 <= k < |s| ==> s[1..][k - 1] == s[k];
    }
  }

  /** Collapsing whitespace leaves nothing exactly when there was only whitespace. */
  lemma CollapseEmpty(s: string)
    ensures Collapse(s) == [] <==> AllSpace(s)
  {
    WordsEmpty(s);
    if Words(s) != [] {
      JoinOfWordsNonEmpty(Words(s));
    }
  }

  /** Joining strings that lack `c` with a separator that lacks it gives a string that lacks it. */
  lemma {:induction false} JoinLacks(sep: string, xs: seq<string>, c: char)
    requires Lacks(sep, c)
    requires forall k :: 0 <= k < |xs| ==> Lacks(xs[k], c)
    ensures Lacks(Join(sep, xs), c)
  {
    if |xs| > 1 {
      JoinLacks(sep, xs[1..], c);
      LacksAppend(xs[0], sep, c);
      LacksAppend(xs[0] + sep, Join(sep, xs[1..]), c);
    }
  }

  /** Substring containment is transitive; it is why every non-functional header also
      passes the functional-header test. */
  lemma ContainsTransitive(s: string, t: string, u: string)
    requires Contains(s, t) && Contains(t, u)
    ensures Contains(s, u)
  {
    var i := IndexOf(s, t, 0).value;
    var j := IndexOf(t, u, 0).value;
    PrefixAtSlice(s, i, t);
    PrefixAtSlice(t, j, u);
    forall k | 0 <= k < |u| ensures s[i + j + k] == u[k] {
      assert u[k] == t[j..j + |u|][k] == t[j + k];
      assert t[j + k] == s[i..i + |t|][j + k] == s[i + j + k];
    }
    assert s[i + j..i + j + |u|] == u;
    PrefixAtSlice(s, i + j, u);
  }

  /** `Contains` holds exactly when some position starts an occurrence. */
  lemma ContainsAt(s: string, t: string, i: nat)
    requires PrefixAt(s, i, t)
    ensures Contains(s, t)
  {
  }

  lemma StripOfTrimmed(s: string)
    requires Trimmed(s)
    ensures Strip(s) == s
  {
  }

  /** `strip()` is idempotent. */
  lemma StripIdempotent(s: string)
    ensures Strip(Strip(s)) == Strip(s)
  {
    StripOfTrimmed(Strip(s));
  }

  lemma {:induction false} WordEndOfWord(w: string, t: string)
    requires w != [] && NoSpace(w)
    requires t == [] || IsSpace(t[0])
    ensures WordEnd(w + t, 0) == |w|
  {
    WordEndFrom(w + t, 0, |w|);
  }

  lemma {:induction false} WordEndFrom(s: string, i: nat, j: nat)
    requires i <= j <= |s|
    requires forall k :: i <= k < j ==> !IsSpace(s[k])
    requires j == |s| || IsSpace(s[j])
    ensures WordEnd(s, i) == j
    decreases j - i
  {
    if i < j {
      WordEndFrom(s, i + 1, j);
    }
  }

  /** Splitting a word followed by whitespace (or nothing) yields the word first. */
  lemma WordsCons(w: string, t: string)
    requires w != [] && NoSpace(w)
    requires t == [] || IsSpace(t[0])
    ensures Words(w + t) == [w] + Words(t)
  {
    WordEndOfWord(w, t);
    assert (w + t)[..|w|] == w;
    assert (w + t)[|w|..] == t;
  }

  /** `split()` inverts `' '.join` on a list of words. */
  lemma {:induction false} WordsOfJoin(ws: seq<string>)
    requires IsWordList(ws)
    ensures Words(Join(" ", ws)) == ws
  {
    if |ws| == 0 {
    } else if |ws| == 1 {
      WordsCons(ws[0], []);
      assert ws[0] + [] == ws[0];
    } else {
      var rest := Join(" ", ws[1..]);
      WordsOfJoin(ws[1..]);
      WordsCons(ws[0], " " + rest);
      assert ws[0] + " " + rest == ws[0] + (" " + rest);
      assert (" " + rest)[1..] == rest;
    }
  }

  lemma {:induction false} JoinOfWordsNonEmpty(ws: seq<string>)
    requires |ws| > 0 && IsWordList(ws)
    ensures var j := Join(" ", ws); |j| > 0 && !IsSpace(j[0]) && !IsSpace(j[|j| - 1])
  {
    if |ws| > 1 {
      JoinOfWordsNonEmpty(ws[1..]);
    }
  }

  lemma {:induction false} JoinOfWordsCollapsed(ws: seq<string>)
    requires IsWordList(ws)
    ensures Collapsed(Join(" ", ws))
  {
    if |ws| > 1 {
      var w := ws[0];
      var rest := Join(" ", ws[1..]);
      JoinOfWordsCollapsed(ws[1..]);
      JoinOfWordsNonEmpty(ws[1..]);
      var j := w + " " + rest;
      assert Join(" ", ws) == j;
      forall k | 0 <= k < |j| && IsSpace(j[k]) ensures j[k] == ' ' {
        if k > |w| {
          assert j[k] == rest[k - |w| - 1];
        }
      }
      forall k | 0 <= k < |j| - 1 ensures !IsSpace(j[k]) || !IsSpace(j[k + 1]) {
        if k > |w| {
          assert j[k] == rest[k - |w| - 1] && j[k + 1] == rest[k - |w|];
        }
      }
    }
  }

  /** Whitespace collapsing is idempotent. */
  lemma CollapseIdempotent(s: string)
    ensures Collapse(Collapse(s)) == Collapse(s)
  {
    WordsOfJoin(Words(s));
  }

  /** A collapsed string is on one line. */
  lemma CollapsedHasNoNewline(s: string)
    requires Collapsed(s)
    ensures Lacks(s, '\n')
  {
    forall k | 0 <= k < |s| ensures s[k] != '\n' {
      if s[k] == '\n' {
        assert IsSpace(s[k]);
      }
    }
  }

  /** `sep.join(s.split(sep))` gives back `s`. */
  lemma {:induction false} JoinSplit(s: string, sep: string)
    requires sep != []
    ensures Join(sep, Split(s, sep)) == s
    decreases |s|
  {
    match IndexOf(s, sep, 0)
    case None =>
    case Some(i) =>
      PrefixAtSlice(s, i, sep);
      var tail := s[i + |sep|..];
      JoinSplit(tail, sep);
      var parts := Split(s, sep);
      assert parts == [s[..i]] + Split(tail, sep);
      assert parts[1..] == Split(tail, sep);
      assert s == s[..i] + s[i..i + |sep|] + tail;
  }

  /** Splitting on a one-character separator inverts joining pieces that lack it. */
  lemma {:induction false} SplitJoin(xs: seq<string>, c: char)
    requires |xs| >= 1
    requires forall x :: x in xs ==> Lacks(x, c)
    ensures Split(Join([c], xs), [c]) == xs
  {
    if |xs| == 1 {
      NoOccurrence(xs[0], c);
    } else {
      var x := xs[0];
      var rest := Join([c], xs[1..]);
      var j := x + [c] + rest;
      assert Join([c], xs) == j;
      FirstOccurrence(x, c, rest);
      SplitJoin(xs[1..], c);
      assert j[..|x|] == x;
      assert j[|x| + 1..] == rest;
    }
  }

  lemma NoOccurrence(x: string, c: char)
    requires Lacks(x, c)
    ensures IndexOf(x, [c], 0).None?
  {
    match IndexOf(x, [c], 0)
    case None =>
    case Some(i) =>
      PrefixAtSlice(x, i, [c]);
  }

  lemma FirstOccurrence(x: string, c: char, rest: string)
    requires Lacks(x, c)
    ensures IndexOf(x + [c] + rest, [c], 0) == Some(|x|)
  {
    var j := x + [c] + rest;
    assert j[|x|..|x| + 1] == [c];
    PrefixAtSlice(j, |x|, [c]);
    match IndexOf(j, [c], 0)
    case None =>
    case Some(i) =>
      PrefixAtSlice(j, i, [c]);
      assert j[i..i + 1][0] == c;
  }

  /** The last piece of a split contains no separator. */
  lemma {:induction false} SplitLastLacks(s: string, c: char)
    ensures var ps := Split(s, [c]); Lacks(ps[|ps| - 1], c)
    decreases |s|
  {
    match IndexOf(s, [c], 0)
    case None =>
      forall k | 0 <= k < |s| ensures s[k] != c {
        if s[k] == c {
          assert s[k..k + 1] == [c];
          PrefixAtSlice(s, k, [c]);
        }
      }
    case Some(i) =>
      PrefixAtSlice(s, i, [c]);
      SplitLastLacks(s[i + 1..], c);
  }

  /** `Join` over a concatenation, when the right-hand list is non-empty. */
  lemma {:induction false} JoinAppend(sep: string, xs: seq<string>, ys: seq<string>)
    requires |ys| > 0
    ensures Join(sep, xs + ys) == Concat(Suffixed(xs, sep)) + Join(sep, ys)
  {
    if xs == [] {
      assert xs + ys == ys;
    } else {
      JoinAppend(sep, xs[1..], ys);
      assert (xs + ys)[1..] == xs[1..] + ys;
      assert Suffixed(xs, sep)[1..] == Suffixed(xs[1..], sep);
    }
  }

  /** Each string followed by `sep`. */
  function Suffixed(xs: seq<string>, sep: string): (r: seq<string>)
    ensures |r| == |xs|
    ensures forall k :: 0 <= k < |xs| ==> r[k] == xs[k] + sep
  {
    seq(|xs|, k requires 0 <= k < |xs| => xs[k] + sep)
  }

  lemma SuffixedAppend(xs: seq<string>, ys: seq<string>, sep: string)
    ensures Suffixed(xs + ys, sep) == Suffixed(xs, sep) + Suffixed(ys, sep)
  {
  }

  lemma SuffixedCons(x: string, xs: seq<string>, sep: string)
    ensures Concat(Suffixed([x] + xs, sep)) == x + sep + Concat(Suffixed(xs, sep))
  {
    assert Suffixed([x] + xs, sep)[1..] == Suffixed(xs, sep);
  }

  /** `sep.join([a, b])`. */
  lemma JoinPair(sep: string, a: string, b: string)
    ensures Join(sep, [a, b]) == a + sep + b
  {
    assert [a, b][1..] == [b];
  }

  lemma Associative(a: string, b: string, c: string)
    ensures a + (b + c) == (a + b) + c
  {
  }

  lemma {:induction false} ConcatAppend(xs: seq<string>, ys: seq<string>)
    ensures Concat(xs + ys) == Concat(xs) + Concat(ys)
  {
    if xs == [] {
      assert xs + ys == ys;
    } else {
      ConcatAppend(xs[1..], ys);
      assert (xs + ys)[0] == xs[0];
      assert (xs + ys)[1..] == xs[1..] + ys;
      Associative(xs[0], Concat(xs[1..]), Concat(ys));
    }
  }

  /** `int(f"{n}") == n`. */
  lemma {:induction false} NatToStringValue(n: nat)
    ensures DigitsValue(NatToString(n)) == n
  {
    if n >= 10 {
      NatToStringValue(n / 10);
      var d := NatToString(n / 10) + [DigitChar(n % 10)];
      assert d[..|d| - 1] == NatToString(n / 10);
    }
  }

  lemma {:induction false} LeadingZerosValue(z: nat, d: string)
    requires AllDigits(d)
    ensures DigitsValue(Zeros(z) + d) == DigitsValue(d)
    decreases |d|
  {
    var s := Zeros(z) + d;
    if d == [] {
      assert s == Zeros(z);
      ZerosValue(z);
    } else {
      LeadingZerosValue(z, d[..|d| - 1]);
      assert s[..|s| - 1] == Zeros(z) + d[..|d| - 1];
    }
  }

  lemma {:induction false} ZerosValue(z: nat)
    ensures DigitsValue(Zeros(z)) == 0
  {
    if z > 0 {
      ZerosValue(z - 1);
      assert Zeros(z)[..z - 1] == Zeros(z - 1);
    }
  }

  /** `int(f"{n:03d}") == n`: a zero-padded number reads back as itself. */
  lemma Pad3Value(n: nat)
    ensures DigitsValue(Pad3(n)) == n
  {
    NatToStringValue(n);
    if |NatToString(n)| < 3 {
      LeadingZerosValue(3 - |NatToString(n)|, NatToString(n));
    }
  }

  /** Distinct numbers render to distinct zero-padded codes. */
  lemma Pad3Injective(m: nat, n: nat)
    requires m != n
    ensures Pad3(m) != Pad3(n)
  {
    Pad3Value(m);
    Pad3Value(n);
  }
}
