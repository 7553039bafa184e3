/** Python string primitives the flashcard code relies on, over `seq<char>`.
    Whitespace and line breaks are the exact code-point sets CPython 3.12
    uses for `str.strip()`, the regex class `\s` (the same set) and
    `str.splitlines()`. */
module Text {
  import opened Wrappers

  /** `str.isspace()`: the characters `str.strip()` removes and `\s` matches. */
  predicate IsSpace(c: char) {
    || c == ' '
    || ('\t' <= c <= '\r')
    || ('\U{1C}' <= c <= '\U{1F}')
    || c == '\U{85}' || c == '\U{A0}' || c == '\U{1680}'
    || ('\U{2000}' <= c <= '\U{200A}')
    || c == '\U{2028}' || c == '\U{2029}' || c == '\U{202F}' || c == '\U{205F}'
    || c == '\U{3000}'
  }

  /** The line boundaries of `str.splitlines()` (note: U+001F is whitespace but not a boundary). */
  predicate IsLineBreak(c: char) {
    || ('\n' <= c <= '\r')
    || ('\U{1C}' <= c <= '\U{1E}')
    || c == '\U{85}' || c == '\U{2028}' || c == '\U{2029}'
  }

  lemma LineBreakIsSpace(c: char)
    ensures IsLineBreak(c) ==> IsSpace(c)
  {
  }

  predicate AllSpace(s: string) {
    forall k :: 0 <= k < |s| ==> IsSpace(s[k])
  }

  predicate NoLineBreak(s: string) {
    forall k :: 0 <= k < |s| ==> !IsLineBreak(s[k])
  }

  /** No leading and no trailing whitespace. */
  predicate IsStripped(s: string) {
    s == [] || (!IsSpace(s[0]) && !IsSpace(s[|s| - 1]))
  }

  /** Every whitespace character is a plain space and no two whitespace characters are adjacent. */
  predicate SingleSpaced(s: string) {
    SingleSpacedIn(s, 0, |s|)
  }

  /** `SingleSpaced` for the window `s[i..j]`, read in place. */
  predicate SingleSpacedIn(s: string, i: nat, j: nat)
    requires i <= j <= |s|
  {
    && (forall k :: i <= k < j && IsSpace(s[k]) ==> s[k] == ' ')
    && (forall k :: i <= k < j - 1 ==> !SpacePairAt(s, k))
  }

  /** Two whitespace characters side by side at `k` and `k + 1`. */
  predicate SpacePairAt(s: string, k: int)
    requires 0 <= k < |s| - 1
  {
    IsSpace(s[k]) && IsSpace(s[k + 1])
  }

  /** End of the maximal run of whitespace starting at `i` inside the window
      ending at `j`; also the greedy `\s*`. */
  function SkipSpace(s: string, i: nat, j: nat): (r: nat)
    requires i <= j <= |s|
    ensures i <= r <= j
    ensures r == j || !IsSpace(s[r])
    decreases j - i
  {
    if i < j && IsSpace(s[i]) then SkipSpace(s, i + 1, j) else i
  }

  /** Everything `SkipSpace` skips is whitespace, and it stops at the end of
      the window or at a character that is not. */
  lemma {:induction false} SkipSpaceRun(s: string, i: nat, j: nat)
    requires i <= j <= |s|
    ensures forall k :: i <= k < SkipSpace(s, i, j) ==> IsSpace(s[k])
    ensures SkipSpace(s, i, j) == j || !IsSpace(s[SkipSpace(s, i, j)])
    decreases j - i
  {
    if i < j && IsSpace(s[i]) {
      SkipSpaceRun(s, i + 1, j);
    }
  }

  /** Whitespace in front of `k` is skipped on the way to it. */
  lemma {:induction false} SkipSpaceThrough(s: string, i: nat, k: nat, j: nat)
    requires i <= k <= j <= |s|
    requires forall m :: i <= m < k ==> IsSpace(s[m])
    ensures SkipSpace(s, i, j) == SkipSpace(s, k, j)
    decreases k - i
  {
    if i < k {
      SkipSpaceThrough(s, i + 1, k, j);
    }
  }

  /** Start of the maximal run of whitespace ending just before `j`, inside
      the window starting at `i`. */
  function SkipSpaceBack(s: string, i: nat, j: nat): (r: nat)
    requires i <= j <= |s|
    ensures i <= r <= j
    decreases j - i
  {
    if i < j && IsSpace(s[j - 1]) then SkipSpaceBack(s, i, j - 1) else j
  }

  /** Everything `SkipSpaceBack` skips is whitespace, and it stops at the
      start of the window or after a character that is not. */
  lemma {:induction false} SkipSpaceBackRun(s: string, i: nat, j: nat)
    requires i <= j <= |s|
    ensures forall k :: SkipSpaceBack(s, i, j) <= k < j ==> IsSpace(s[k])
    ensures SkipSpaceBack(s, i, j) == i || !IsSpace(s[SkipSpaceBack(s, i, j) - 1])
    decreases j - i
  {
    if i < j && IsSpace(s[j - 1]) {
      SkipSpaceBackRun(s, i, j - 1);
    }
  }

  /** End of the maximal run of characters from `cs` that starts at `i`. */
  function RunEnd(s: string, i: nat, cs: set<char>): (j: nat)
    requires i <= |s|
    ensures i <= j <= |s| && (j < |s| ==> s[j] !in cs)
    ensures forall k :: i <= k < j ==> s[k] in cs
    decreases |s| - i
  {
    if i < |s| && s[i] in cs then RunEnd(s, i + 1, cs) else i
  }

  /** A run that ends inside `x` ends at the same place in `x + y`; a run
      that reaches the end of `x` stops there when `y` does not go on with it. */
  lemma {:induction false} RunEndAppend(x: string, y: string, i: nat, cs: set<char>)
    requires i <= |x|
    ensures RunEnd(x, i, cs) < |x| ==> RunEnd(x + y, i, cs) == RunEnd(x, i, cs)
    ensures RunEnd(x, i, cs) == |x| && (y == [] || y[0] !in cs) ==> RunEnd(x + y, i, cs) == |x|
    decreases |x| - i
  {
    if i < |x| && x[i] in cs {
      RunEndAppend(x, y, i + 1, cs);
    }
  }

  /** Where `str.strip()` starts keeping characters. */
  function StripStart(s: string): nat {
    SkipSpace(s, 0, |s|)
  }

  /** Where `str.strip()` stops keeping characters. */
  function StripEnd(s: string): (e: nat)
    ensures StripStart(s) <= e <= |s|
  {
    SkipSpaceBack(s, StripStart(s), |s|)
  }

  /** `str.strip()` */
  function Strip(s: string): (r: string)
    ensures IsStripped(r)
  {
    SkipSpaceRun(s, 0, |s|);
    SkipSpaceBackRun(s, StripStart(s), |s|);
    s[StripStart(s)..StripEnd(s)]
  }

  lemma {:induction false} StrippedFixed(s: string)
    requires IsStripped(s)
    ensures Strip(s) == s
  {
    assert StripStart(s) == 0;
    assert StripEnd(s) == |s|;
  }

  /** Over a stripped window both space scans stop where they start. */
  lemma {:induction false} StrippedWindow(s: string, lo: nat, hi: nat)
    requires lo <= hi <= |s| && IsStripped(s[lo..hi])
    ensures SkipSpace(s, lo, hi) == lo && SkipSpaceBack(s, lo, hi) == hi
  {
    if lo < hi {
      assert s[lo..hi][0] == s[lo] && s[lo..hi][hi - lo - 1] == s[hi - 1];
    }
  }

  lemma {:induction false} StripEmptyIffAllSpace(s: string)
    ensures Strip(s) == [] <==> AllSpace(s)
  {
    var a := StripStart(s);
    SkipSpaceRun(s, 0, |s|);
    SkipSpaceBackRun(s, a, |s|);
  }

  /** Single spacing read in place is single spacing of the slice. */
  lemma {:induction false} SingleSpacedSlice(s: string, i: nat, j: nat)
    requires i <= j <= |s|
    ensures SingleSpaced(s[i..j]) <==> SingleSpacedIn(s, i, j)
  {
    var t := s[i..j];
    assert forall k :: 0 <= k < |t| ==> t[k] == s[i + k];
    if SingleSpacedIn(s, i, j) {
      forall k | 0 <= k < |t| - 1 ensures !SpacePairAt(t, k) {
        assert !SpacePairAt(s, i + k);
      }
    }
    if SingleSpaced(t) {
      forall k | i <= k < j && IsSpace(s[k]) ensures s[k] == ' ' {
        assert t[k - i] == s[k];
      }
      forall k | i <= k < j - 1 ensures !SpacePairAt(s, k) {
        assert !SpacePairAt(t, k - i);
      }
    }
  }

  /** Putting one character in front keeps single spacing, provided a
      whitespace character is a plain space not followed by another. */
  lemma {:induction false} SingleSpacedCons(c: char, t: string)
    requires SingleSpaced(t)
    requires IsSpace(c) ==> c == ' ' && (t == [] || !IsSpace(t[0]))
    ensures SingleSpaced([c] + t)
  {
    var s := [c] + t;
    forall k | 0 <= k < |s| && IsSpace(s[k]) ensures s[k] == ' ' {
      if k > 0 { assert s[k] == t[k - 1]; }
    }
    forall k | 0 <= k < |s| - 1 ensures !SpacePairAt(s, k) {
      if k > 0 {
        assert s[k] == t[k - 1] && s[k + 1] == t[k];
        assert !SpacePairAt(t, k - 1);
      }
    }
  }

  /** Two single-spaced texts stay single-spaced side by side unless
      whitespace meets whitespace where they touch. */
  lemma SingleSpacedAppend(x: string, y: string)
    requires SingleSpaced(x) && SingleSpaced(y)
    requires x == [] || y == [] || !IsSpace(x[|x| - 1]) || !IsSpace(y[0])
    ensures SingleSpaced(x + y)
  {
    var s := x + y;
    forall k | 0 <= k < |s| && IsSpace(s[k]) ensures s[k] == ' ' {
      if k >= |x| {
        assert s[k] == y[k - |x|];
      }
    }
    forall k | 0 <= k < |s| - 1 ensures !SpacePairAt(s, k) {
      if k < |x| - 1 {
        assert !SpacePairAt(x, k);
      } else if k >= |x| {
        assert s[k] == y[k - |x|] && s[k + 1] == y[k + 1 - |x|];
        assert !SpacePairAt(y, k - |x|);
      }
    }
  }

  /** Single-spaced text has no line boundary and no tab: its only
      whitespace is the plain space. */
  lemma SingleSpacedLine(s: string)
    requires SingleSpaced(s)
    ensures NoLineBreak(s) && '\t' !in s
  {
    forall k | 0 <= k < |s| ensures !IsLineBreak(s[k]) && s[k] != '\t' {
      LineBreakIsSpace(s[k]);
    }
  }

  /** A word: non-empty and without whitespace. */
  predicate IsWord(w: string) {
    w != [] && forall k :: 0 <= k < |w| ==> !IsSpace(w[k])
  }

  /** Words joined by single spaces are stripped and single-spaced: the
      shape of a cleaned flashcard side. */
  lemma {:induction false} WordsClean(ws: seq<string>)
    requires ws != [] && forall i :: 0 <= i < |ws| ==> IsWord(ws[i])
    ensures var s := Join(ws, " ");
            s != [] && IsStripped(s) && SingleSpaced(s)
  {
    var w := ws[0];
    assert SingleSpaced(w) by {
      assert forall k :: 0 <= k < |w| - 1 ==> !IsSpace(w[k]);
    }
    if |ws| > 1 {
      var rest := Join(ws[1..], " ");
      WordsClean(ws[1..]);
      assert SingleSpaced(" ");
      SingleSpacedAppend(w, " ");
      SingleSpacedAppend(w + " ", rest);
      var s := (w + " ") + rest;
      assert Join(ws, " ") == s;
      assert s[0] == w[0] && s[|s| - 1] == rest[|rest| - 1];
    }
  }

  /** Stripping keeps single spacing: it only cuts whitespace off the ends. */
  lemma {:induction false} StripSingleSpaced(s: string)
    requires SingleSpaced(s)
    ensures SingleSpaced(Strip(s))
  {
    SingleSpacedSlice(s, StripStart(s), StripEnd(s));
  }

  /** Every character of `Strip(s)` is a character of `s`. */
  lemma {:induction false} StripChars(s: string)
    ensures forall c :: c in Strip(s) ==> c in s
  {
    var i := StripStart(s);
    var r := Strip(s);
    forall c | c in r ensures c in s {
      var k :| 0 <= k < |r| && r[k] == c;
      assert s[i + k] == c;
    }
  }

  /** `re.sub(r'\s+', ' ', s[i..j])`, read in place: every maximal
      whitespace run becomes one space. What it guarantees is stated
      separately by `CollapseShape`, so that a mention of `Collapse` does not
      bring those facts along. */
  function Collapse(s: string, i: nat, j: nat): string
    requires i <= j <= |s|
    decreases j - i
  {
    if i == j then []
    else if IsSpace(s[i]) then [' '] + Collapse(s, SkipSpace(s, i + 1, j), j)
    else [s[i]] + Collapse(s, i + 1, j)
  }

  /** The collapsed text is single-spaced, empty only for an empty window,
      and starts with whitespace exactly when the window does. */
  lemma {:induction false} CollapseShape(s: string, i: nat, j: nat)
    requires i <= j <= |s|
    ensures SingleSpaced(Collapse(s, i, j))
    ensures Collapse(s, i, j) == [] <==> i == j
    ensures i < j ==> (IsSpace(Collapse(s, i, j)[0]) <==> IsSpace(s[i]))
    decreases j - i
  {
    if i < j {
      if IsSpace(s[i]) {
        var m := SkipSpace(s, i + 1, j);
        SkipSpaceRun(s, i + 1, j);
        CollapseShape(s, m, j);
        SingleSpacedCons(' ', Collapse(s, m, j));
      } else {
        CollapseShape(s, i + 1, j);
        SingleSpacedCons(s[i], Collapse(s, i + 1, j));
      }
    }
  }

  /** `re.sub(r'\s+', ' ', s)` */
  function CollapseSpace(s: string): (r: string)
    ensures SingleSpaced(r)
    ensures r == [] <==> s == []
  {
    CollapseShape(s, 0, |s|);
    Collapse(s, 0, |s|)
  }

  /** Collapsing never lengthens. */
  lemma {:induction false} CollapseLength(s: string, i: nat, j: nat)
    requires i <= j <= |s|
    ensures |Collapse(s, i, j)| <= j - i
    decreases j - i
  {
    if i < j {
      if IsSpace(s[i]) { CollapseLength(s, SkipSpace(s, i + 1, j), j); } else { CollapseLength(s, i + 1, j); }
    }
  }

  /** A single-spaced window is left alone by whitespace collapsing. */
  lemma {:induction false} CollapseSingleSpaced(s: string, i: nat, j: nat)
    requires i <= j <= |s| && SingleSpacedIn(s, i, j)
    ensures Collapse(s, i, j) == s[i..j]
    decreases j - i
  {
    if i < j {
      if IsSpace(s[i]) {
        assert i + 1 == j || !SpacePairAt(s, i);
        assert SkipSpace(s, i + 1, j) == i + 1;
      }
      CollapseSingleSpaced(s, i + 1, j);
      assert s[i..j] == [s[i]] + s[i + 1..j];
    }
  }

  /** `t` is `s[d..d + |t|]`, character by character. */
  predicate Agree(t: string, s: string, d: nat) {
    |t| + d <= |s| && forall k :: 0 <= k < |t| ==> t[k] == s[k + d]
  }

  lemma {:induction false} SkipSpaceShift(t: string, s: string, d: nat, i: nat, j: nat, i': nat, j': nat)
    requires Agree(t, s, d) && i <= j <= |t|
    requires i' == i + d && j' == j + d
    ensures SkipSpace(t, i, j) + d == SkipSpace(s, i', j')
    decreases j - i
  {
    if i < j {
      assert t[i] == s[i'];
      SkipSpaceShift(t, s, d, i + 1, j, i' + 1, j');
    }
  }

  lemma {:induction false} SkipSpaceBackShift(t: string, s: string, d: nat, i: nat, j: nat, i': nat, j': nat)
    requires Agree(t, s, d) && i <= j <= |t|
    requires i' == i + d && j' == j + d
    ensures SkipSpaceBack(t, i, j) + d == SkipSpaceBack(s, i', j')
    decreases j - i
  {
    if i < j {
      assert t[j - 1] == s[j' - 1];
      SkipSpaceBackShift(t, s, d, i, j - 1, i', j' - 1);
    }
  }

  lemma {:induction false} CollapseShift(t: string, s: string, d: nat, i: nat, j: nat, i': nat, j': nat)
    requires Agree(t, s, d) && i <= j <= |t|
    requires i' == i + d && j' == j + d
    ensures Collapse(t, i, j) == Collapse(s, i', j')
    decreases j - i
  {
    if i < j {
      var c := t[i];
      assert c == s[i'];
      if IsSpace(c) {
        var m, m' := SkipSpace(t, i + 1, j), SkipSpace(s, i' + 1, j');
        SkipSpaceShift(t, s, d, i + 1, j, i' + 1, j');
        assert Collapse(t, i, j) == [' '] + Collapse(t, m, j);
        assert Collapse(s, i', j') == [' '] + Collapse(s, m', j');
        CollapseShift(t, s, d, m, j, m', j');
      } else {
        assert Collapse(t, i, j) == [c] + Collapse(t, i + 1, j);
        assert Collapse(s, i', j') == [c] + Collapse(s, i' + 1, j');
        CollapseShift(t, s, d, i + 1, j, i' + 1, j');
      }
    }
  }

  /** Index of the first line boundary of `s`, or `|s|` if there is none. */
  function FirstBreak(s: string): (k: nat)
    ensures k <= |s|
    ensures k < |s| ==> IsLineBreak(s[k])
    ensures NoLineBreak(s[..k])
  {
    if s == [] then 0
    else if IsLineBreak(s[0]) then 0
    else
      var k := 1 + FirstBreak(s[1..]);
      assert s[..k] == [s[0]] + s[1..][..k - 1];
      k
  }

  /** `str.splitlines()`: "\r\n" is one boundary, and a final boundary does
      not start an extra empty line. */
  function SplitLines(s: string): (lines: seq<string>)
    ensures forall k :: 0 <= k < |lines| ==> NoLineBreak(lines[k])
    decreases |s|
  {
    if s == [] then []
    else
      var k := FirstBreak(s);
      if k == |s| then [s]
      else
        var w := if s[k] == '\r' && k + 1 < |s| && s[k + 1] == '\n' then 2 else 1;
        [s[..k]] + SplitLines(s[k + w..])
  }

  /** `[ln.strip() for ln in lines if ln.strip()]` */
  function NonBlank(lines: seq<string>): (r: seq<string>)
    ensures |r| <= |lines|
    ensures forall k :: 0 <= k < |r| ==> r[k] != [] && IsStripped(r[k])
  {
    if lines == [] then []
    else
      var t := Strip(lines[0]);
      (if t != [] then [t] else []) + NonBlank(lines[1..])
  }

  /** `sep.join(parts)` */
  function Join(parts: seq<string>, sep: string): string {
    if parts == [] then []
    else if |parts| == 1 then parts[0]
    else parts[0] + sep + Join(parts[1..], sep)
  }

  /** The pieces of a split put back together with the separators they
      were split at: `parts[0] + seps[0] + parts[1] + ... + parts[n]`. */
  function Interleave(parts: seq<string>, seps: seq<string>): string
    requires |parts| == |seps| + 1
    decreases |seps|
  {
    if seps == [] then parts[0]
    else parts[0] + seps[0] + Interleave(parts[1..], seps[1..])
  }

  /** Text put in front of the first piece comes out in front. */
  lemma {:induction false} InterleavePrepend(x: string, parts: seq<string>, seps: seq<string>)
    requires |parts| == |seps| + 1
    ensures Interleave([x + parts[0]] + parts[1..], seps) == x + Interleave(parts, seps)
  {
    var ps := [x + parts[0]] + parts[1..];
    if seps != [] {
      assert ps[1..] == parts[1..];
    }
  }

  /** A piece of a join is contained in the join. */
  lemma {:induction false} JoinContains(parts: seq<string>, sep: string, i: nat)
    requires i < |parts|
    ensures Contains(Join(parts, sep), parts[i])
    decreases |parts|
  {
    var s := Join(parts, sep);
    if |parts| == 1 {
      assert OccursAt(s, parts[i], 0);
    } else if i == 0 {
      assert s[..|parts[0]|] == parts[0];
      assert OccursAt(s, parts[i], 0);
    } else {
      var rest := Join(parts[1..], sep);
      JoinContains(parts[1..], sep, i - 1);
      assert s[|parts[0] + sep|..] == rest;
      ContainsSuffix(s, parts[i], |parts[0] + sep|);
    }
  }

  /** Length of a join of pieces that all have length `m`. */
  lemma {:induction false} JoinUniformLength(parts: seq<string>, sep: string, m: nat)
    requires parts != []
    requires forall k :: 0 <= k < |parts| ==> |parts[k]| == m
    ensures |Join(parts, sep)| == |parts| * m + (|parts| - 1) * |sep|
  {
    if |parts| > 1 {
      JoinUniformLength(parts[1..], sep, m);
    }
  }

  /** Joining lines with "\n" and splitting again gives the lines back,
      provided no line holds a boundary and the last one is not empty. */
  lemma {:induction false} SplitLinesOfJoin(lines: seq<string>)
    requires forall k :: 0 <= k < |lines| ==> NoLineBreak(lines[k])
    requires lines != [] ==> lines[|lines| - 1] != []
    ensures SplitLines(Join(lines, "\n")) == lines
  {
    if lines == [] {
    } else if |lines| == 1 {
      var l := lines[0];
      NoBreakFirstBreak(l);
    } else {
      var l, rest := lines[0], lines[1..];
      var j := Join(rest, "\n");
      var s := l + "\n" + j;
      assert Join(lines, "\n") == s;
      assert s == l + ("\n" + j);
      FirstBreakAfter(l, "\n" + j);
      assert s[..|l|] == l && s[|l|] == '\n' && s[|l| + 1..] == j;
      SplitLinesAtNewline(s, |l|);
      assert forall k :: 0 <= k < |rest| ==> rest[k] == lines[k + 1];
      SplitLinesOfJoin(rest);
    }
  }

  /** A first boundary that is a lone "\n" ends the first line. */
  lemma SplitLinesAtNewline(s: string, k: nat)
    requires k < |s| && FirstBreak(s) == k && s[k] == '\n'
    ensures SplitLines(s) == [s[..k]] + SplitLines(s[k + 1..])
  {
  }

  lemma {:induction false} NoBreakFirstBreak(l: string)
    requires NoLineBreak(l)
    ensures FirstBreak(l) == |l|
  {
    if l != [] {
      assert NoLineBreak(l[1..]) by {
        forall k | 0 <= k < |l[1..]| ensures !IsLineBreak(l[1..][k]) { assert l[1..][k] == l[k + 1]; }
      }
      NoBreakFirstBreak(l[1..]);
    }
  }

  lemma {:induction false} FirstBreakAfter(l: string, t: string)
    requires NoLineBreak(l) && t != [] && IsLineBreak(t[0])
    ensures FirstBreak(l + t) == |l|
  {
    if l == [] {
      assert l + t == t;
    } else {
      assert (l + t)[1..] == l[1..] + t;
      assert NoLineBreak(l[1..]) by {
        forall k | 0 <= k < |l[1..]| ensures !IsLineBreak(l[1..][k]) { assert l[1..][k] == l[k + 1]; }
      }
      FirstBreakAfter(l[1..], t);
    }
  }

  /** `pat` occurs in `s` starting at index `k`. */
  predicate OccursAt(s: string, pat: string, k: int) {
    0 <= k && k + |pat| <= |s| && s[k..k + |pat|] == pat
  }

  /** `pat` occurs in the window `s[lo..hi]`. */
  predicate ContainsIn(s: string, pat: string, lo: nat, hi: nat) {
    exists k :: lo <= k && k + |pat| <= hi && OccursAt(s, pat, k)
  }

  /** `pat in s` */
  predicate Contains(s: string, pat: string) {
    ContainsIn(s, pat, 0, |s|)
  }

  /** An occurrence in a suffix is an occurrence in the whole. */
  lemma ContainsSuffix(s: string, pat: string, i: nat)
    requires i <= |s|
    ensures Contains(s[i..], pat) ==> Contains(s, pat)
  {
    if Contains(s[i..], pat) {
      var k :| 0 <= k && k + |pat| <= |s[i..]| && OccursAt(s[i..], pat, k);
      assert s[i + k..i + k + |pat|] == s[i..][k..k + |pat|];
      assert OccursAt(s, pat, i + k);
    }
  }

  /** An occurrence in a prefix is an occurrence in the whole. */
  lemma ContainsPrefix(s: string, pat: string, j: nat)
    requires j <= |s|
    ensures Contains(s[..j], pat) ==> Contains(s, pat)
  {
    if Contains(s[..j], pat) {
      var k :| 0 <= k && k + |pat| <= |s[..j]| && OccursAt(s[..j], pat, k);
      assert s[k..k + |pat|] == s[..j][k..k + |pat|];
      assert OccursAt(s, pat, k);
    }
  }

  /** Index of the first occurrence of `pat` at or after `from` that ends by
      `hi`, or -1: `s[from..hi].find(pat)` read in place. */
  function FindIn(s: string, pat: string, from: nat, hi: nat): (r: int)
    requires pat != [] && hi <= |s|
    ensures r == -1 <==> !ContainsIn(s, pat, from, hi)
    ensures r != -1 ==> from <= r && r + |pat| <= hi && OccursAt(s, pat, r)
    ensures forall k :: from <= k < r ==> !OccursAt(s, pat, k)
    decreases hi - from
  {
    if from + |pat| > hi then -1
    else if s[from..from + |pat|] == pat then
      assert OccursAt(s, pat, from);
      from
    else FindIn(s, pat, from + 1, hi)
  }

  /** `s.find(pat)`: the first occurrence, or -1. */
  function Find(s: string, pat: string): (r: int)
    requires pat != []
    ensures r == -1 <==> !Contains(s, pat)
    ensures r != -1 ==> OccursAt(s, pat, r) && forall k :: 0 <= k < r ==> !OccursAt(s, pat, k)
  {
    FindIn(s, pat, 0, |s|)
  }

  /** `s.split(pat, 1)` when it has two pieces: the text before the first
      occurrence and the text after it; None when `pat` does not occur. */
  function SplitOnce(s: string, pat: string): (r: Option<(string, string)>)
    requires pat != []
    ensures r.None? <==> !Contains(s, pat)
    ensures r.Some? ==> s == r.value.0 + pat + r.value.1 && !Contains(r.value.0, pat)
  {
    var k := Find(s, pat);
    if k < 0 then None
    else
      SplitAround(s, pat, k);
      Some((s[..k], s[k + |pat|..]))
  }

  /** Cutting `s` around the first occurrence of `pat`, at `k`, leaves a
      prefix without `pat`. */
  lemma SplitAround(s: string, pat: string, k: nat)
    requires pat != [] && OccursAt(s, pat, k) && forall j :: 0 <= j < k ==> !OccursAt(s, pat, j)
    ensures s == s[..k] + pat + s[k + |pat|..] && !Contains(s[..k], pat)
  {
    var before := s[..k];
    assert s == before + s[k..k + |pat|] + s[k + |pat|..];
    forall j | 0 <= j && j + |pat| <= k ensures !OccursAt(before, pat, j) {
      assert j < k && !OccursAt(s, pat, j);
      assert before[j..j + |pat|] == s[j..j + |pat|];
    }
  }

  /** The split happens at the first occurrence, whichever it is. */
  lemma SplitOnceAt(s: string, pat: string, k: nat)
    requires pat != [] && OccursAt(s, pat, k)
    requires forall j :: 0 <= j < k ==> !OccursAt(s, pat, j)
    ensures SplitOnce(s, pat) == Some((s[..k], s[k + |pat|..]))
  {
    assert Find(s, pat) == k;
  }

  /** `s.split(pat, 1)[0]` */
  function Before(s: string, pat: string): string
    requires pat != []
  {
    match SplitOnce(s, pat)
    case None => s
    case Some(p) => p.0
  }

  /** `s.find(c)` for one character: the first index, or -1. */
  function FindChar(s: string, c: char): (r: int)
    ensures r == -1 <==> c !in s
    ensures r != -1 ==> 0 <= r < |s| && s[r] == c && c !in s[..r]
  {
    if c in s then IndexOfChar(s, c) else -1
  }

  /** `s.rfind(c)` for one character: the last index, or -1. */
  function RFindChar(s: string, c: char): (r: int)
    ensures r == -1 <==> c !in s
    ensures r != -1 ==> 0 <= r < |s| && s[r] == c && c !in s[r + 1..]
  {
    if s == [] then -1
    else if s[|s| - 1] == c then |s| - 1
    else
      var r := RFindChar(s[..|s| - 1], c);
      assert s == s[..|s| - 1] + [s[|s| - 1]];
      assert r != -1 ==> s[r + 1..] == s[..|s| - 1][r + 1..] + [s[|s| - 1]];
      r
  }

  /** `s.split(c)` for a single-character separator. */
  function SplitChar(s: string, c: char): (parts: seq<string>)
    ensures parts != []
    ensures forall k :: 0 <= k < |parts| ==> c !in parts[k]
    decreases |s|
  {
    if c !in s then [s]
    else
      var k := IndexOfChar(s, c);
      [s[..k]] + SplitChar(s[k + 1..], c)
  }

  function IndexOfChar(s: string, c: char): (k: nat)
    requires c in s
    ensures k < |s| && s[k] == c && c !in s[..k]
  {
    if s[0] == c then 0
    else
      var k := 1 + IndexOfChar(s[1..], c);
      assert s[..k] == [s[0]] + s[1..][..k - 1];
      k
  }

  /** Splitting on a character and joining with it is the identity. */
  lemma {:induction false} JoinSplitChar(s: string, c: char)
    ensures Join(SplitChar(s, c), [c]) == s
  {
    if c in s {
      var k := IndexOfChar(s, c);
      JoinSplitChar(s[k + 1..], c);
      assert s == s[..k] + [c] + s[k + 1..];
    }
  }

  /** Joining parts free of `c` with `c` and splitting on `c` gives the parts back. */
  lemma {:induction false} SplitCharJoin(parts: seq<string>, c: char)
    requires parts != []
    requires forall k :: 0 <= k < |parts| ==> c !in parts[k]
    ensures SplitChar(Join(parts, [c]), c) == parts
  {
    if |parts| > 1 {
      var p, rest := parts[0], Join(parts[1..], [c]);
      var s := p + [c] + rest;
      assert s[|p|] == c && s[..|p|] == p && s[|p| + 1..] == rest;
      var k := IndexOfChar(s, c);
      assert k == |p|;
      SplitCharJoin(parts[1..], c);
    }
  }
}
