/** `clean_text` of utils/parsing.py: line endings and blanks are
    normalised, and short lines that recur three times or more (running
    headers and footers) are dropped. */
module CleanText {
  import opened Text

  // ---------------------------------------------------------------
  // The rewrites of lines 76-81
  // ---------------------------------------------------------------

  /** `s.replace("\r\n", "\n")` */
  function ReplaceCrLf(s: string): (r: string)
    ensures forall c :: c in r ==> c in s
    ensures |r| <= |s|
    decreases |s|
  {
    if s == [] then []
    else if |s| >= 2 && s[0] == '\r' && s[1] == '\n' then "\n" + ReplaceCrLf(s[2..])
    else [s[0]] + ReplaceCrLf(s[1..])
  }

  /** The replacement scans left to right: the first "\r\n" becomes "\n",
      the text before it is kept as it is and the text after it is rewritten
      the same way; text without "\r\n" is left alone. */
  lemma ReplaceCrLfFirst(s: string)
    ensures match SplitOnce(s, "\r\n")
            case None => ReplaceCrLf(s) == s
            case Some((before, after)) => ReplaceCrLf(s) == before + "\n" + ReplaceCrLf(after)
  {
    match SplitOnce(s, "\r\n")
    case None => ReplaceCrLfNone(s);
    case Some((before, after)) => ReplaceCrLfAt(before, after);
  }

  lemma {:induction false} ReplaceCrLfNone(s: string)
    requires !Contains(s, "\r\n")
    ensures ReplaceCrLf(s) == s
    decreases |s|
  {
    if s != [] {
      if |s| >= 2 {
        assert s[0..2] == [s[0], s[1]];
        assert !OccursAt(s, "\r\n", 0);
      }
      ContainsSuffix(s, "\r\n", 1);
      ReplaceCrLfNone(s[1..]);
    }
  }

  lemma {:induction false} ReplaceCrLfAt(b: string, a: string)
    requires !Contains(b, "\r\n")
    ensures ReplaceCrLf(b + "\r\n" + a) == b + "\n" + ReplaceCrLf(a)
    decreases |b|
  {
    var s := b + "\r\n" + a;
    if b == [] {
      assert s[0] == '\r' && s[1] == '\n' && s[2..] == a;
    } else {
      if |b| >= 2 {
        assert b[0..2] == [b[0], b[1]];
        assert !OccursAt(b, "\r\n", 0);
      }
      assert s[0] == b[0] && s[1] == (if |b| == 1 then '\r' else b[1]);
      assert s[1..] == b[1..] + "\r\n" + a;
      ContainsSuffix(b, "\r\n", 1);
      ReplaceCrLfAt(b[1..], a);
    }
  }

  /** Every `from` replaced by `to`: `s.replace("\r", "\n")` and `re.sub(r"\u00a0", " ", s)`. */
  function MapChar(s: string, from: char, to: char): (r: string)
    ensures |r| == |s|
    ensures forall k :: 0 <= k < |s| ==> r[k] == if s[k] == from then to else s[k]
  {
    seq(|s|, k requires 0 <= k < |s| => if s[k] == from then to else s[k])
  }

  predicate IsBlank(c: char) {
    c == ' ' || c == '\t'
  }

  /** `re.sub(r"[ \t]+", " ", s)`: each run of spaces and tabs becomes one space. */
  function SqueezeBlanks(s: string): (r: string)
    ensures NoDoubleSpace(r)
    ensures |r| <= |s|
    ensures s != [] && !IsBlank(s[0]) ==> r != [] && r[0] == s[0]
    decreases |s|
  {
    if s == [] then []
    else if IsBlank(s[0]) then
      var rest := SqueezeBlanks(s[RunEnd(s, 0, {' ', '\t'})..]);
      var r := " " + rest;
      assert forall k :: 1 <= k < |r| ==> r[k] == rest[k - 1];
      r
    else
      var rest := SqueezeBlanks(s[1..]);
      var r := [s[0]] + rest;
      assert forall k :: 1 <= k < |r| ==> r[k] == rest[k - 1];
      r
  }

  /** Squeezing leaves no tab and brings in no character but the space. */
  lemma {:induction false} SqueezeKeepsChars(s: string)
    ensures '\t' !in SqueezeBlanks(s)
    ensures forall c :: c in SqueezeBlanks(s) ==> c in s || c == ' '
    decreases |s|
  {
    if s == [] {
    } else if IsBlank(s[0]) {
      var e := RunEnd(s, 0, {' ', '\t'});
      SqueezeKeepsChars(s[e..]);
      assert forall c :: c in s[e..] ==> c in s;
    } else {
      SqueezeKeepsChars(s[1..]);
      assert forall c :: c in s[1..] ==> c in s;
    }
  }

  /** No two spaces side by side. */
  predicate NoDoubleSpace(s: string) {
    forall k :: 0 <= k < |s| - 1 ==> !(s[k] == ' ' && s[k + 1] == ' ')
  }

  /** A whole run of spaces and tabs becomes exactly one space. */
  lemma SqueezeRun(run: string)
    requires run != [] && forall k :: 0 <= k < |run| ==> IsBlank(run[k])
    ensures SqueezeBlanks(run) == " "
  {
    var e := RunEnd(run, 0, {' ', '\t'});
    assert e == |run|;
    assert run[e..] == [];
  }

  /** Squeezing goes piece by piece as long as the cut does not fall inside
      a run of spaces and tabs. */
  lemma {:induction false} SqueezeAppend(x: string, y: string)
    requires x == [] || y == [] || !IsBlank(x[|x| - 1]) || !IsBlank(y[0])
    ensures SqueezeBlanks(x + y) == SqueezeBlanks(x) + SqueezeBlanks(y)
    decreases |x|, 1
  {
    var s := x + y;
    if x == [] {
      assert s == y;
    } else if IsBlank(x[0]) {
      SqueezeAppendRun(x, y);
    } else {
      var t := x[1..];
      assert t == [] || y == [] || !IsBlank(t[|t| - 1]) || !IsBlank(y[0]) by {
        assert t != [] ==> t[|t| - 1] == x[|x| - 1];
      }
      SqueezeAppend(t, y);
      SqueezeAfterChar(x, y);
    }
  }

  /** A cut after a first character that is not a blank leaves it alone. */
  lemma SqueezeAfterChar(x: string, y: string)
    requires x != [] && !IsBlank(x[0])
    requires SqueezeBlanks(x[1..] + y) == SqueezeBlanks(x[1..]) + SqueezeBlanks(y)
    ensures SqueezeBlanks(x + y) == SqueezeBlanks(x) + SqueezeBlanks(y)
  {
    var t := x[1..];
    HeadSplit(x, y);
    SqueezeCons(x[0], t + y);
    SqueezeCons(x[0], t);
  }

  /** A cut inside `x` cuts `x + y` the same way. */
  lemma CutAppend(x: string, y: string, e: nat)
    requires e <= |x|
    ensures (x + y)[..e] == x[..e] && (x + y)[e..] == x[e..] + y
  {
  }

  lemma HeadSplit(x: string, y: string)
    requires x != []
    ensures x + y == [x[0]] + (x[1..] + y) && x == [x[0]] + x[1..]
  {
  }

  /** A character that is not a blank is kept as it is. */
  lemma SqueezeCons(c: char, t: string)
    requires !IsBlank(c)
    ensures SqueezeBlanks([c] + t) == [c] + SqueezeBlanks(t)
  {
    assert ([c] + t)[0] == c && ([c] + t)[1..] == t;
  }

  lemma {:induction false} SqueezeAppendRun(x: string, y: string)
    requires x != [] && IsBlank(x[0])
    requires y == [] || !IsBlank(x[|x| - 1]) || !IsBlank(y[0])
    ensures SqueezeBlanks(x + y) == SqueezeBlanks(x) + SqueezeBlanks(y)
    decreases |x|, 0
  {
    var e := RunEnd(x, 0, {' ', '\t'});
    RunEndAppend(x, y, 0, {' ', '\t'});
    if e < |x| {
      SqueezeAppend(x[e..], y);
      SqueezeAfterRun(x, y, e);
    } else {
      SqueezeWholeRun(x, y);
    }
  }

  lemma SqueezeWholeRun(x: string, y: string)
    requires x != [] && IsBlank(x[0]) && RunEnd(x, 0, {' ', '\t'}) == |x|
    requires RunEnd(x + y, 0, {' ', '\t'}) == |x|
    ensures SqueezeBlanks(x + y) == SqueezeBlanks(x) + SqueezeBlanks(y)
  {
    var s := x + y;
    assert s[|x|..] == y && x[|x|..] == [];
  }

  /** A cut after the first run of blanks of `x` leaves that run alone. */
  lemma SqueezeAfterRun(x: string, y: string, e: nat)
    requires x != [] && IsBlank(x[0]) && e < |x|
    requires e == RunEnd(x, 0, {' ', '\t'}) && e == RunEnd(x + y, 0, {' ', '\t'})
    requires SqueezeBlanks(x[e..] + y) == SqueezeBlanks(x[e..]) + SqueezeBlanks(y)
    ensures SqueezeBlanks(x + y) == SqueezeBlanks(x) + SqueezeBlanks(y)
  {
    var s := x + y;
    var cx, cy := SqueezeBlanks(x[e..]), SqueezeBlanks(y);
    assert SqueezeBlanks(s) == " " + (cx + cy) by {
      assert s[e..] == x[e..] + y;
    }
    assert SqueezeBlanks(x) == " " + cx;
  }

  /** Each maximal run of spaces and tabs becomes exactly one space and the
      text on either side of it is squeezed on its own; with `SqueezeFixed`
      this pins the result down completely. */
  lemma SqueezeRunBetween(x: string, run: string, y: string)
    requires run != [] && forall k :: 0 <= k < |run| ==> IsBlank(run[k])
    requires x == [] || !IsBlank(x[|x| - 1])
    requires y == [] || !IsBlank(y[0])
    ensures SqueezeBlanks(x + run + y) == SqueezeBlanks(x) + " " + SqueezeBlanks(y)
  {
    SqueezeAppend(x, run);
    assert (x + run)[|x + run| - 1] == run[|run| - 1];
    SqueezeAppend(x + run, y);
    SqueezeRun(run);
  }

  /** Three newlines in a row at `k`. */
  predicate TripleAt(s: string, k: int)
    requires 0 <= k < |s| - 2
  {
    s[k] == '\n' && s[k + 1] == '\n' && s[k + 2] == '\n'
  }

  /** No three newlines in a row. */
  predicate NoTriple(s: string) {
    forall k :: 0 <= k < |s| - 2 ==> !TripleAt(s, k)
  }

  /** `re.sub(r"\n{3,}", "\n\n", s)`: a run of three or more newlines becomes two. */
  function CollapseNewlines(s: string): (r: string)
    ensures s == [] <==> r == []
    ensures |r| <= |s|
    ensures s != [] ==> r[0] == s[0]
    decreases |s|
  {
    if s == [] then []
    else if s[0] == '\n' then
      var e := RunEnd(s, 0, {'\n'});
      var run := if e >= 3 then "\n\n" else s[..e];
      run + CollapseNewlines(s[e..])
    else
      [s[0]] + CollapseNewlines(s[1..])
  }

  /** Collapsing brings in no character the text did not have. */
  lemma {:induction false} CollapseKeepsChars(s: string)
    ensures forall c :: c in CollapseNewlines(s) ==> c in s
    decreases |s|
  {
    if s == [] {
    } else if s[0] == '\n' {
      var e := RunEnd(s, 0, {'\n'});
      CollapseKeepsChars(s[e..]);
      var run := if e >= 3 then "\n\n" else s[..e];
      assert forall c :: c in run ==> c == '\n' || c in s;
      assert forall c :: c in s[e..] ==> c in s;
    } else {
      CollapseKeepsChars(s[1..]);
      assert forall c :: c in s[1..] ==> c in s;
    }
  }

  /** The result never holds three newlines in a row. */
  lemma {:induction false} CollapseNoTriple(s: string)
    ensures NoTriple(CollapseNewlines(s))
    decreases |s|
  {
    var r := CollapseNewlines(s);
    if s == [] {
    } else if s[0] == '\n' {
      var e := RunEnd(s, 0, {'\n'});
      var run := if e >= 3 then "\n\n" else s[..e];
      var rest := CollapseNewlines(s[e..]);
      CollapseNoTriple(s[e..]);
      assert NoTriple(rest);
      assert r == run + rest;
      assert |run| <= 2;
      assert rest != [] ==> rest[0] == s[e] && s[e] != '\n';
      assert forall k :: 0 <= k < |run| ==> r[k] == '\n';
      assert forall k :: |run| <= k < |r| ==> r[k] == rest[k - |run|];
      forall k | 0 <= k < |r| - 2 ensures !TripleAt(r, k) {
        if k >= |run| {
          assert !TripleAt(rest, k - |run|);
          assert r[k] == rest[k - |run|] && r[k + 1] == rest[k - |run| + 1] && r[k + 2] == rest[k - |run| + 2];
        } else {
          assert r[|run|] == rest[0] && rest[0] != '\n';
        }
      }
    } else {
      var rest := CollapseNewlines(s[1..]);
      CollapseNoTriple(s[1..]);
      assert NoTriple(rest);
      assert r == [s[0]] + rest;
      forall k | 0 <= k < |r| - 2 ensures !TripleAt(r, k) {
        if k >= 1 {
          assert !TripleAt(rest, k - 1);
          assert r[k] == rest[k - 1] && r[k + 1] == rest[k] && r[k + 2] == rest[k + 1];
        }
      }
    }
  }

  /** A whole run of newlines becomes exactly "\n\n" when it is three or
      more long and stays as it is otherwise. */
  lemma CollapseRun(run: string)
    requires run != [] && forall k :: 0 <= k < |run| ==> run[k] == '\n'
    ensures CollapseNewlines(run) == if |run| >= 3 then "\n\n" else run
  {
    var e := RunEnd(run, 0, {'\n'});
    assert e == |run|;
    assert run[e..] == [] && run[..e] == run;
  }

  /** Collapsing goes piece by piece as long as the cut does not fall
      inside a run of newlines. */
  lemma {:induction false} CollapseAppend(x: string, y: string)
    requires x == [] || y == [] || x[|x| - 1] != '\n' || y[0] != '\n'
    ensures CollapseNewlines(x + y) == CollapseNewlines(x) + CollapseNewlines(y)
    decreases |x|, 1
  {
    var s := x + y;
    if x == [] {
      assert s == y;
    } else if x[0] == '\n' {
      CollapseAppendRun(x, y);
    } else {
      assert s[1..] == x[1..] + y;
      CollapseAppend(x[1..], y);
    }
  }

  lemma {:induction false} CollapseAppendRun(x: string, y: string)
    requires x != [] && x[0] == '\n'
    requires y == [] || x[|x| - 1] != '\n' || y[0] != '\n'
    ensures CollapseNewlines(x + y) == CollapseNewlines(x) + CollapseNewlines(y)
    decreases |x|, 0
  {
    var e := RunEnd(x, 0, {'\n'});
    RunEndAppend(x, y, 0, {'\n'});
    if e < |x| {
      CollapseAppend(x[e..], y);
      CollapseAfterRun(x, y, e);
    } else {
      assert x[|x| - 1] == '\n';
      CollapseWholeRun(x, y);
    }
  }

  /** A cut after the first run of newlines of `x` leaves that run alone. */
  lemma CollapseAfterRun(x: string, y: string, e: nat)
    requires x != [] && x[0] == '\n' && e < |x|
    requires e == RunEnd(x, 0, {'\n'}) && e == RunEnd(x + y, 0, {'\n'})
    requires CollapseNewlines(x[e..] + y) == CollapseNewlines(x[e..]) + CollapseNewlines(y)
    ensures CollapseNewlines(x + y) == CollapseNewlines(x) + CollapseNewlines(y)
  {
    var a := if e >= 3 then "\n\n" else x[..e];
    var cx, cy := CollapseNewlines(x[e..]), CollapseNewlines(y);
    CutAppend(x, y, e);
    CollapseUnfold(x + y, e);
    CollapseUnfold(x, e);
    assert a + (cx + cy) == (a + cx) + cy;
  }

  /** One step of `CollapseNewlines` over a run of newlines that ends at `e`. */
  lemma CollapseUnfold(s: string, e: nat)
    requires s != [] && s[0] == '\n' && e == RunEnd(s, 0, {'\n'})
    ensures CollapseNewlines(s) == (if e >= 3 then "\n\n" else s[..e]) + CollapseNewlines(s[e..])
  {
  }

  lemma CollapseWholeRun(x: string, y: string)
    requires x != [] && RunEnd(x, 0, {'\n'}) == |x|
    requires RunEnd(x + y, 0, {'\n'}) == |x|
    ensures CollapseNewlines(x + y) == CollapseNewlines(x) + CollapseNewlines(y)
  {
    var s := x + y;
    assert s[..|x|] == x && s[|x|..] == y && x[|x|..] == [];
    CollapseUnfold(s, |x|);
    CollapseUnfold(x, |x|);
  }

  /** Each maximal run of three or more newlines becomes exactly "\n\n" and
      the text on either side of it is collapsed on its own; with
      `CollapseFixed` this pins the result down completely. */
  lemma CollapseRunBetween(x: string, run: string, y: string)
    requires |run| >= 3 && forall k :: 0 <= k < |run| ==> run[k] == '\n'
    requires x == [] || x[|x| - 1] != '\n'
    requires y == [] || y[0] != '\n'
    ensures CollapseNewlines(x + run + y) == CollapseNewlines(x) + "\n\n" + CollapseNewlines(y)
  {
    CollapseAppend(x, run);
    assert (x + run)[|x + run| - 1] == run[|run| - 1];
    CollapseAppend(x + run, y);
    CollapseRun(run);
  }

  /** Collapsing newlines adds no double space. */
  lemma {:induction false} CollapseKeepsSingleSpaces(s: string)
    requires NoDoubleSpace(s)
    ensures NoDoubleSpace(CollapseNewlines(s))
    decreases |s|
  {
    var r := CollapseNewlines(s);
    if s == [] {
    } else if s[0] == '\n' {
      var e := RunEnd(s, 0, {'\n'});
      NoDoubleSpaceSuffix(s, e);
      CollapseKeepsSingleSpaces(s[e..]);
      var run := if e >= 3 then "\n\n" else s[..e];
      var rest := CollapseNewlines(s[e..]);
      assert r == run + rest;
      assert forall k :: 0 <= k < |run| ==> r[k] == '\n';
      assert forall k :: |run| <= k < |r| ==> r[k] == rest[k - |run|];
    } else {
      NoDoubleSpaceSuffix(s, 1);
      CollapseKeepsSingleSpaces(s[1..]);
      var rest := CollapseNewlines(s[1..]);
      assert forall k :: 1 <= k < |r| ==> r[k] == rest[k - 1];
    }
  }

  lemma NoDoubleSpaceSuffix(s: string, i: nat)
    requires NoDoubleSpace(s) && i <= |s|
    ensures NoDoubleSpace(s[i..])
  {
    assert forall k :: 0 <= k < |s[i..]| ==> s[i..][k] == s[i + k];
  }

  /** Lines 76-81: line endings, non-breaking spaces, blanks, newline runs. */
  function Normalize(text: string): (r: string)
    ensures |r| <= |text|
  {
    var s := MapChar(ReplaceCrLf(text), '\r', '\n');
    CollapseNewlines(SqueezeBlanks(MapChar(s, '\U{A0}', ' ')))
  }

  /** No carriage return, no tab and no double space. */
  predicate Tidy(s: string) {
    '\r' !in s && '\t' !in s && NoDoubleSpace(s)
  }

  /** After the rewrites there is no carriage return, no tab, no
      non-breaking space, no double space, and no run of three newlines. */
  lemma NormalizeTidy(text: string)
    ensures var s := Normalize(text);
            Tidy(s) && '\U{A0}' !in s && NoTriple(s)
  {
    var s1 := MapChar(ReplaceCrLf(text), '\r', '\n');
    var s2 := MapChar(s1, '\U{A0}', ' ');
    assert '\r' !in s2 && '\U{A0}' !in s2 by {
      forall k | 0 <= k < |s2| ensures s2[k] != '\r' && s2[k] != '\U{A0}' {
      }
    }
    SqueezeKeepsChars(s2);
    CollapseKeepsChars(SqueezeBlanks(s2));
    CollapseKeepsSingleSpaces(SqueezeBlanks(s2));
    CollapseNoTriple(SqueezeBlanks(s2));
  }

  // ---------------------------------------------------------------
  // The repeated-line filter of lines 84-92
  // ---------------------------------------------------------------

  /** `[ln.strip() for ln in s.split("\n")]` */
  function StrippedLines(s: string): (lines: seq<string>)
    ensures forall k :: 0 <= k < |lines| ==> IsStripped(lines[k]) && '\n' !in lines[k]
  {
    var parts := SplitChar(s, '\n');
    seq(|parts|, k requires 0 <= k < |parts| => StripNoBreak(parts[k]))
  }

  function StripNoBreak(p: string): (r: string)
    requires '\n' !in p
    ensures r == Strip(p) && IsStripped(r) && '\n' !in r
  {
    var r := Strip(p);
    StripChars(p);
    r
  }

  /** The lines a header or footer can be: non-empty and at most 60 characters. */
  predicate IsShort(x: string) {
    0 < |x| <= 60
  }

  /** `freq` after the loop: each short line mapped to its number of occurrences. */
  function Frequencies(lines: seq<string>): (freq: map<string, nat>)
    ensures forall x :: x in freq <==> x in lines && IsShort(x)
  {
    map x | x in lines && IsShort(x) :: multiset(lines)[x]
  }

  /** `repeated`: the short lines that occur three times or more. */
  function Repeated(lines: seq<string>): (rep: set<string>)
    ensures forall x :: x in rep <==> IsShort(x) && multiset(lines)[x] >= 3
  {
    set x | x in lines && IsShort(x) && multiset(lines)[x] >= 3
  }

  /** `[ln for ln in lines if ln not in repeated]` */
  function Keep(lines: seq<string>, rep: set<string>): (r: seq<string>)
    ensures |r| <= |lines|
  {
    if lines == [] then []
    else if lines[0] in rep then Keep(lines[1..], rep)
    else [lines[0]] + Keep(lines[1..], rep)
  }

  /** The filter removes every occurrence of a line in `rep`, keeps every
      occurrence of any other line, and adds nothing. */
  lemma {:induction false} KeepCounts(lines: seq<string>, rep: set<string>)
    ensures forall x :: multiset(Keep(lines, rep))[x] == if x in rep then 0 else multiset(lines)[x]
    ensures forall k :: 0 <= k < |Keep(lines, rep)| ==> Keep(lines, rep)[k] in lines
  {
    if lines != [] {
      KeepCounts(lines[1..], rep);
      assert lines == [lines[0]] + lines[1..];
    }
  }

  /** The filter keeps the order of the lines: filtering two runs of lines
      is filtering the first and then the second, and a single line is kept
      exactly when it is not in `rep`. */
  lemma {:induction false} KeepAppend(a: seq<string>, b: seq<string>, rep: set<string>)
    ensures Keep(a + b, rep) == Keep(a, rep) + Keep(b, rep)
    ensures |a| == 1 ==> Keep(a, rep) == if a[0] in rep then [] else a
    decreases |a|
  {
    if a == [] {
      assert a + b == b;
    } else {
      var ab := a + b;
      assert ab[0] == a[0] && ab[1..] == a[1..] + b;
      KeepAppend(a[1..], b, rep);
      if |a| == 1 {
        assert a[1..] == [];
      }
    }
  }

  /** With nothing to remove the filter is the identity. */
  lemma {:induction false} KeepNothing(lines: seq<string>)
    ensures Keep(lines, {}) == lines
  {
    if lines != [] {
      KeepNothing(lines[1..]);
    }
  }

  /** The lines that survive the filter. */
  function KeptLines(text: string): seq<string> {
    var lines := StrippedLines(Normalize(text));
    var rep := Repeated(lines);
    if rep != {} then Keep(lines, rep) else lines
  }

  /** `clean_text` */
  function Clean(text: string): (r: string)
    ensures IsStripped(r)
  {
    Strip(Join(KeptLines(text), "\n"))
  }

  /** The `freq` loop. */
  method CountShortLines(lines: seq<string>) returns (freq: map<string, nat>)
    ensures freq == Frequencies(lines)
  {
    freq := map[];
    for i := 0 to |lines|
      invariant freq == Frequencies(lines[..i])
    {
      var ln := lines[i];
      assert lines[..i + 1] == lines[..i] + [ln];
      FrequenciesStep(lines[..i], ln);
      if IsShort(ln) {
        freq := freq[ln := (if ln in freq then freq[ln] else 0) + 1];
      }
    }
    assert lines[..|lines|] == lines;
  }

  /** One more line adds one to its count when it is short, and changes
      nothing otherwise. */
  lemma FrequenciesStep(pre: seq<string>, ln: string)
    ensures var f := Frequencies(pre);
            Frequencies(pre + [ln]) == if IsShort(ln) then f[ln := (if ln in f then f[ln] else 0) + 1] else f
  {
    var f, g := Frequencies(pre), Frequencies(pre + [ln]);
    var h := if IsShort(ln) then f[ln := (if ln in f then f[ln] else 0) + 1] else f;
    assert multiset(pre + [ln]) == multiset(pre) + multiset{ln};
    forall x ensures x in g <==> x in h {
      assert x in pre + [ln] <==> x in pre || x == ln;
    }
    forall x | x in g ensures g[x] == h[x] {
      if x != ln && x in pre {
        assert x in f;
      }
    }
    assert g == h;
  }

  /** `clean_text` as written. */
  method CleanTextLoop(text: string) returns (r: string)
    ensures r == Clean(text)
  {
    var s := Normalize(text);
    var lines := StrippedLines(s);
    var freq := CountShortLines(lines);
    var repeated := set k | k in freq && freq[k] >= 3;
    assert repeated == Repeated(lines);
    if repeated != {} {
      lines := Keep(lines, repeated);
    }
    r := Strip(Join(lines, "\n"));
  }

  // ---------------------------------------------------------------
  // What the result looks like
  // ---------------------------------------------------------------

  lemma TidySlice(s: string, i: nat, j: nat)
    requires Tidy(s) && i <= j <= |s|
    ensures Tidy(s[i..j])
  {
    var t := s[i..j];
    assert forall k :: 0 <= k < |t| ==> t[k] == s[i + k];
  }

  lemma StripTidy(s: string)
    requires Tidy(s)
    ensures Tidy(Strip(s))
  {
    TidySlice(s, StripStart(s), StripEnd(s));
  }

  lemma {:induction false} SplitCharTidy(s: string, c: char)
    requires Tidy(s)
    ensures forall k :: 0 <= k < |SplitChar(s, c)| ==> Tidy(SplitChar(s, c)[k])
    decreases |s|
  {
    if c in s {
      var k := IndexOfChar(s, c);
      TidySlice(s, 0, k);
      TidySlice(s, k + 1, |s|);
      SplitCharTidy(s[k + 1..], c);
    }
  }

  lemma {:induction false} JoinTidy(lines: seq<string>)
    requires forall k :: 0 <= k < |lines| ==> Tidy(lines[k])
    ensures Tidy(Join(lines, "\n"))
  {
    if |lines| > 1 {
      JoinTidy(lines[1..]);
      var a, b := lines[0], Join(lines[1..], "\n");
      var r := a + "\n" + b;
      assert forall k :: 0 <= k < |a| ==> r[k] == a[k];
      assert r[|a|] == '\n';
      assert forall k :: |a| < k < |r| ==> r[k] == b[k - |a| - 1];
    }
  }

  /** The result has no carriage return, no tab, no two spaces side by
      side and no surrounding whitespace, and it is the join of stripped
      lines. */
  lemma CleanIsTidy(text: string)
    ensures Tidy(Clean(text)) && IsStripped(Clean(text))
    ensures forall k :: 0 <= k < |KeptLines(text)| ==> IsStripped(KeptLines(text)[k])
  {
    var s := Normalize(text);
    NormalizeTidy(text);
    SplitCharTidy(s, '\n');
    var lines := StrippedLines(s);
    forall k | 0 <= k < |lines| ensures Tidy(lines[k]) {
      StripTidy(SplitChar(s, '\n')[k]);
    }
    KeepCounts(lines, Repeated(lines));
    JoinTidy(KeptLines(text));
    StripTidy(Join(KeptLines(text), "\n"));
  }

  /** The surviving lines are the stripped lines with the repeated ones
      filtered out in order (also when nothing repeats): a short line that
      occurs three times or more is removed everywhere, and every other line
      keeps all its occurrences. */
  lemma FilterRemovesRepeated(text: string)
    ensures var lines := StrippedLines(Normalize(text));
            KeptLines(text) == Keep(lines, Repeated(lines))
    ensures var lines := StrippedLines(Normalize(text));
            forall x :: multiset(KeptLines(text))[x]
                     == if IsShort(x) && multiset(lines)[x] >= 3 then 0 else multiset(lines)[x]
  {
    var lines := StrippedLines(Normalize(text));
    KeepNothing(lines);
    KeepCounts(lines, Repeated(lines));
  }

  /** Empty lines and lines longer than 60 characters are never removed. */
  lemma EmptyAndLongLinesKept(text: string, x: string)
    requires x == [] || |x| > 60
    ensures multiset(KeptLines(text))[x] == multiset(StrippedLines(Normalize(text)))[x]
  {
    FilterRemovesRepeated(text);
  }

  // ---------------------------------------------------------------
  // The rewrites leave tidy text alone
  // ---------------------------------------------------------------

  lemma {:induction false} ReplaceCrLfFixed(s: string)
    requires '\r' !in s
    ensures ReplaceCrLf(s) == s
    decreases |s|
  {
    if s != [] {
      ReplaceCrLfFixed(s[1..]);
    }
  }

  lemma MapCharFixed(s: string, from: char, to: char)
    requires from !in s
    ensures MapChar(s, from, to) == s
  {
  }

  lemma {:induction false} SqueezeFixed(s: string)
    requires '\t' !in s && NoDoubleSpace(s)
    ensures SqueezeBlanks(s) == s
    decreases |s|
  {
    if s != [] {
      NoDoubleSpaceSuffix(s, 1);
      SqueezeFixed(s[1..]);
      if IsBlank(s[0]) {
        assert |s| > 1 ==> s[1] != ' ' && s[1] != '\t';
        assert RunEnd(s, 0, {' ', '\t'}) == 1 by {
          assert RunEnd(s, 1, {' ', '\t'}) == 1;
        }
      }
    }
  }

  lemma {:induction false} CollapseFixed(s: string)
    requires NoTriple(s)
    ensures CollapseNewlines(s) == s
    decreases |s|
  {
    if s != [] {
      var e := if s[0] == '\n' then RunEnd(s, 0, {'\n'}) else 1;
      assert e <= 2 by {
        if |s| > 2 {
          assert !TripleAt(s, 0);
        }
      }
      var t := s[e..];
      assert forall k :: 0 <= k < |t| - 2 ==> TripleAt(t, k) == TripleAt(s, k + e);
      CollapseFixed(t);
      assert s == s[..e] + t;
    }
  }

  /** Text without carriage returns, tabs, non-breaking spaces, double
      spaces or runs of three newlines is left as it is by the rewrites. */
  lemma NormalizeFixed(s: string)
    requires Tidy(s) && '\U{A0}' !in s
    requires NoTriple(s)
    ensures Normalize(s) == s
  {
    ReplaceCrLfFixed(s);
    MapCharFixed(s, '\r', '\n');
    MapCharFixed(s, '\U{A0}', ' ');
    SqueezeFixed(s);
    CollapseFixed(s);
  }

  /** Running the rewrites twice is the same as running them once. */
  lemma NormalizeIdempotent(text: string)
    ensures Normalize(Normalize(text)) == Normalize(text)
  {
    var s := Normalize(text);
    NormalizeTidy(text);
    var s1 := MapChar(ReplaceCrLf(text), '\r', '\n');
    var s2 := MapChar(s1, '\U{A0}', ' ');
    assert '\U{A0}' !in s2 by {
      forall k | 0 <= k < |s2| ensures s2[k] != '\U{A0}' {
      }
    }
    NormalizeFixed(s);
  }

  /** Dropping repeated lines can bring blank lines together again, so the
      result may hold three newlines in a row although the rewrites removed
      every such run. */
  lemma FilterCanJoinBlankLines()
    ensures Clean("a\n\nH\nH\nH\n\nb") == "a\n\n\nb"
  {
    var lines := ["a", "", "H", "H", "H", "", "b"];
    ExampleLines(lines);
    ExampleRepeated(lines);
    ExampleKept(lines);
    ExampleOutput(["a", "", "", "b"]);
  }

  lemma ExampleOutput(kept: seq<string>)
    requires kept == ["a", "", "", "b"]
    ensures Strip(Join(kept, "\n")) == "a\n\n\nb"
  {
    assert Join(kept[2..], "\n") == "\nb";
    assert Join(kept, "\n") == "a\n\n\nb";
    StrippedFixed("a\n\n\nb");
  }

  lemma ExampleLines(lines: seq<string>)
    requires lines == ["a", "", "H", "H", "H", "", "b"]
    ensures StrippedLines(Normalize("a\n\nH\nH\nH\n\nb")) == lines
  {
    var t := "a\n\nH\nH\nH\n\nb";
    ExampleJoin(lines, t);
    ExampleNormal(t);
    ExampleStripped(lines);
    StrippedLinesOfJoin(lines);
  }

  lemma ExampleStripped(lines: seq<string>)
    requires lines == ["a", "", "H", "H", "H", "", "b"]
    ensures forall k :: 0 <= k < |lines| ==> IsStripped(lines[k]) && '\n' !in lines[k]
  {
  }

  /** Stripped lines without newlines, joined, split back into themselves. */
  lemma StrippedLinesOfJoin(lines: seq<string>)
    requires lines != []
    requires forall k :: 0 <= k < |lines| ==> IsStripped(lines[k]) && '\n' !in lines[k]
    ensures StrippedLines(Join(lines, "\n")) == lines
  {
    SplitCharJoin(lines, '\n');
    forall k | 0 <= k < |lines| ensures Strip(lines[k]) == lines[k] {
      StrippedFixed(lines[k]);
    }
  }

  lemma ExampleJoin(lines: seq<string>, t: string)
    requires lines == ["a", "", "H", "H", "H", "", "b"] && t == "a\n\nH\nH\nH\n\nb"
    ensures Join(lines, "\n") == t
  {
    assert Join(lines[6..], "\n") == "b";
    assert Join(lines[5..], "\n") == "\nb";
    assert Join(lines[4..], "\n") == "H\n\nb";
    assert Join(lines[3..], "\n") == "H\nH\n\nb";
    assert Join(lines[2..], "\n") == "H\nH\nH\n\nb";
    assert Join(lines[1..], "\n") == "\nH\nH\nH\n\nb";
  }

  lemma ExampleNormal(t: string)
    requires t == "a\n\nH\nH\nH\n\nb"
    ensures Normalize(t) == t
  {
    assert forall k :: 0 <= k < |t| - 2 ==> !TripleAt(t, k);
    NormalizeFixed(t);
  }

  lemma ExampleRepeated(lines: seq<string>)
    requires lines == ["a", "", "H", "H", "H", "", "b"]
    ensures Repeated(lines) == {"H"}
  {
    assert multiset(lines)["H"] == 3;
    forall x | x in Repeated(lines) ensures x == "H" {
      assert x in lines;
    }
  }

  lemma ExampleKept(lines: seq<string>)
    requires lines == ["a", "", "H", "H", "H", "", "b"]
    ensures Keep(lines, {"H"}) == ["a", "", "", "b"]
  {
    var rep := {"H"};
    assert "a" !in rep && "" !in rep && "b" !in rep;
    assert Keep(lines[7..], rep) == [];
    assert Keep(lines[6..], rep) == ["b"];
    assert Keep(lines[5..], rep) == ["", "b"];
    assert Keep(lines[4..], rep) == ["", "b"];
    assert Keep(lines[3..], rep) == ["", "b"];
    assert Keep(lines[2..], rep) == ["", "b"];
    assert Keep(lines[1..], rep) == ["", "", "b"];
  }
}
