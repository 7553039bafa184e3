/** utils/chunking.py: token estimation, the three-tier split of a text
    into candidate units, and the greedy packing of units into chunks of
    about `target_tokens` tokens with overlap. The tokenizer is abstract:
    a pair of functions with the two laws the packing relies on. */
module Chunking {
  import opened Wrappers
  import opened Text

  // ---------------------------------------------------------------
  // Tokenizer
  // ---------------------------------------------------------------

  /** An encoder: text to token ids and back. */
  datatype Tokenizer = Tokenizer(encode: string -> seq<int>, decode: seq<int> -> string)

  /** The laws assumed of the encoder: the empty text has no tokens, and
      re-encoding the decoding of a token list gives as many tokens. */
  ghost predicate Lawful(tk: Tokenizer) {
    && tk.encode("") == []
    && forall t: seq<int> :: |tk.encode(tk.decode(t))| == |t|
  }

  /** `estimate_tokens` */
  function EstimateTokens(tk: Tokenizer, text: string): (n: nat)
    ensures n == |tk.encode(text)|
  {
    |tk.encode(text)|
  }

  /** The empty text is estimated at no tokens. */
  lemma EstimateEmpty(tk: Tokenizer)
    requires Lawful(tk)
    ensures EstimateTokens(tk, "") == 0
  {
  }

  // ---------------------------------------------------------------
  // Tier 1: sections under headings or all-caps lines
  // ---------------------------------------------------------------

  predicate IsCapOrDigit(c: char) {
    'A' <= c <= 'Z' || '0' <= c <= '9'
  }

  /** A whole line matching `#{1,6} .*`: one to six `#` and a space. */
  predicate IsHeading(l: string) {
    var h := RunEnd(l, 0, {'#'});
    1 <= h <= 6 && h < |l| && l[h] == ' '
  }

  /** A whole line matching `[A-Z0-9][A-Z0-9 \-]{6,}`. */
  predicate IsCapsLine(l: string) {
    && |l| >= 7
    && IsCapOrDigit(l[0])
    && forall k :: 1 <= k < |l| ==> IsCapOrDigit(l[k]) || l[k] == ' ' || l[k] == '-'
  }

  predicate IsSeparatorLine(l: string) {
    IsHeading(l) || IsCapsLine(l)
  }

  /** `re.split(r"(?m)^(?:#{1,6} .*|[A-Z0-9][A-Z0-9 \-]{6,})\n", text)` read
      over the text's `\n`-separated lines: a separator line that has a
      newline after it (every line but the last) ends the current piece and
      is dropped; any other line joins the current piece. */
  function SectionPieces(lines: seq<string>): (parts: seq<string>)
    requires lines != []
    ensures parts != []
  {
    if |lines| == 1 then [lines[0]]
    else
      var rest := SectionPieces(lines[1..]);
      if IsSeparatorLine(lines[0]) then [""] + rest
      else [lines[0] + "\n" + rest[0]] + rest[1..]
  }

  /** The number of separator lines that have a newline after them. */
  function SeparatorCount(lines: seq<string>): nat {
    if |lines| <= 1 then 0
    else (if IsSeparatorLine(lines[0]) then 1 else 0) + SeparatorCount(lines[1..])
  }

  /** There is one piece more than there are separators. */
  lemma {:induction false} SectionPiecesCount(lines: seq<string>)
    requires lines != []
    ensures |SectionPieces(lines)| == 1 + SeparatorCount(lines)
  {
    if |lines| > 1 {
      SectionPiecesCount(lines[1..]);
    }
  }

  /** The text the split removes between pieces: each separator line that
      has a newline after it, with that newline, in order. */
  function SectionSeps(lines: seq<string>): (seps: seq<string>)
    ensures |seps| == SeparatorCount(lines)
  {
    if |lines| <= 1 then []
    else (if IsSeparatorLine(lines[0]) then [lines[0] + "\n"] else []) + SectionSeps(lines[1..])
  }

  /** Each removed piece is a heading or all-caps line and its newline. */
  lemma {:induction false} SectionSepsShape(lines: seq<string>)
    ensures forall sep :: sep in SectionSeps(lines) ==>
              |sep| >= 1 && sep[|sep| - 1] == '\n' && IsSeparatorLine(sep[..|sep| - 1])
  {
    if |lines| > 1 {
      var seps, rest := SectionSeps(lines), SectionSeps(lines[1..]);
      SectionSepsShape(lines[1..]);
      if IsSeparatorLine(lines[0]) {
        assert (lines[0] + "\n")[..|lines[0]|] == lines[0];
        assert seps == [lines[0] + "\n"] + rest;
      } else {
        assert seps == rest;
      }
    }
  }

  /** Reconstruction: the pieces put back together with the removed
      separator lines give the lines joined by newlines, so nothing but
      those lines is dropped, and the pieces come in text order. */
  lemma {:induction false} SectionPiecesRejoin(lines: seq<string>)
    requires lines != []
    ensures |SectionPieces(lines)| == |SectionSeps(lines)| + 1
    ensures Interleave(SectionPieces(lines), SectionSeps(lines)) == Join(lines, "\n")
  {
    if |lines| > 1 {
      var rest, restSeps := SectionPieces(lines[1..]), SectionSeps(lines[1..]);
      SectionPiecesRejoin(lines[1..]);
      if IsSeparatorLine(lines[0]) {
        assert SectionPieces(lines) == [""] + rest;
        assert SectionSeps(lines) == [lines[0] + "\n"] + restSeps;
        assert ([""] + rest)[1..] == rest && ([lines[0] + "\n"] + restSeps)[1..] == restSeps;
      } else {
        assert SectionSeps(lines) == restSeps;
        InterleavePrepend(lines[0] + "\n", rest, restSeps);
      }
    }
  }

  /** The same for the text itself, read as its `\n`-separated lines. */
  lemma SectionsRejoin(text: string)
    ensures var lines := SplitChar(text, '\n');
            |SectionPieces(lines)| == |SectionSeps(lines)| + 1
            && Interleave(SectionPieces(lines), SectionSeps(lines)) == text
  {
    SectionPiecesRejoin(SplitChar(text, '\n'));
    JoinSplitChar(text, '\n');
  }

  /** Without a separator the split gives back the whole text as one piece. */
  lemma {:induction false} SectionPiecesWhole(lines: seq<string>)
    requires lines != [] && SeparatorCount(lines) == 0
    ensures SectionPieces(lines) == [Join(lines, "\n")]
  {
    if |lines| > 1 {
      SectionPiecesWhole(lines[1..]);
    }
  }

  // ---------------------------------------------------------------
  // Tier 2: paragraphs
  // ---------------------------------------------------------------

  /** `re.split(r"\n\n+", text)`: split at each maximal run of two or more
      newlines. No piece holds a blank-line break. */
  function Paragraphs(s: string): (parts: seq<string>)
    ensures parts != []
    ensures forall k :: 0 <= k < |parts| ==> !Contains(parts[k], "\n\n")
    decreases |s|
  {
    match SplitOnce(s, "\n\n")
    case None => [s]
    case Some((before, after)) =>
      [before] + Paragraphs(after[RunEnd(after, 0, {'\n'})..])
  }

  /** The newline runs `re.split(r"\n\n+", text)` removes, in order. */
  function ParagraphBreaks(s: string): (breaks: seq<string>)
    decreases |s|
  {
    match SplitOnce(s, "\n\n")
    case None => []
    case Some((before, after)) =>
      var e := RunEnd(after, 0, {'\n'});
      ["\n\n" + after[..e]] + ParagraphBreaks(after[e..])
  }

  predicate AllNewlines(b: string) {
    forall j :: 0 <= j < |b| ==> b[j] == '\n'
  }

  /** Reconstruction: the paragraphs put back together with the removed
      runs give the text, and the first paragraph begins it. */
  lemma {:induction false} ParagraphsRejoin(s: string)
    ensures |Paragraphs(s)| == |ParagraphBreaks(s)| + 1
    ensures Interleave(Paragraphs(s), ParagraphBreaks(s)) == s
    ensures Paragraphs(s)[0] == s[..|Paragraphs(s)[0]|]
    decreases |s|
  {
    match SplitOnce(s, "\n\n")
    case None =>
    case Some((before, after)) =>
      var e := RunEnd(after, 0, {'\n'});
      var rest := after[e..];
      var br := "\n\n" + after[..e];
      ParagraphsRejoin(rest);
      var ps, bs := Paragraphs(rest), ParagraphBreaks(rest);
      assert Paragraphs(s) == [before] + ps;
      assert ParagraphBreaks(s) == [br] + bs;
      assert Interleave([before] + ps, [br] + bs) == before + br + Interleave(ps, bs) by {
        assert ([before] + ps)[1..] == ps && ([br] + bs)[1..] == bs;
      }
      RegroupRun(s, before, "\n\n", after, e);
      assert s[..|before|] == before;
  }

  /** Text cut around a separator, with the separator grown by the first
      `e` characters after it, still puts back together to the text. */
  lemma RegroupRun(s: string, before: string, sep: string, after: string, e: nat)
    requires s == before + sep + after && e <= |after|
    ensures s == before + (sep + after[..e]) + after[e..]
  {
    assert after == after[..e] + after[e..];
  }

  /** Each removed run is two or more newlines. */
  lemma {:induction false} ParagraphBreaksShape(s: string)
    ensures forall b :: b in ParagraphBreaks(s) ==> |b| >= 2 && AllNewlines(b)
    decreases |s|
  {
    match SplitOnce(s, "\n\n")
    case None =>
    case Some((before, after)) =>
      var e := RunEnd(after, 0, {'\n'});
      var tail := ParagraphBreaks(after[e..]);
      ParagraphBreaksShape(after[e..]);
      NewlineRunBreak(after[..e]);
      assert ParagraphBreaks(s) == ["\n\n" + after[..e]] + tail;
  }

  lemma NewlineRunBreak(run: string)
    requires forall j :: 0 <= j < |run| ==> run[j] in {'\n'}
    ensures AllNewlines("\n\n" + run)
  {
    var br := "\n\n" + run;
    forall j | 2 <= j < |br| ensures br[j] == '\n' {
      assert br[j] == run[j - 2];
    }
  }

  predicate StartsWithNewline(p: string) {
    p != [] && p[0] == '\n'
  }

  predicate EndsWithNewline(p: string) {
    p != [] && p[|p| - 1] == '\n'
  }

  /** Each removed run is maximal on the right: no paragraph after the
      first starts with a newline. */
  lemma {:induction false} ParagraphsStartMaximal(s: string)
    ensures var parts := Paragraphs(s);
            forall k :: 0 < k < |parts| ==> !StartsWithNewline(parts[k])
    decreases |s|
  {
    match SplitOnce(s, "\n\n")
    case None =>
    case Some((before, after)) =>
      var e := RunEnd(after, 0, {'\n'});
      var rest := after[e..];
      var tail := Paragraphs(rest);
      ParagraphsStartMaximal(rest);
      assert !StartsWithNewline(tail[0]) by {
        ParagraphsRejoin(rest);
        if tail[0] != [] {
          assert tail[0][0] == rest[0] && rest[0] == after[e];
        }
      }
      assert Paragraphs(s) == [before] + tail;
      StartMaximalStep(before, tail);
  }

  lemma StartMaximalStep(before: string, tail: seq<string>)
    requires tail != [] && !StartsWithNewline(tail[0])
    requires forall k :: 0 < k < |tail| ==> !StartsWithNewline(tail[k])
    ensures forall k :: 0 < k < |[before] + tail| ==> !StartsWithNewline(([before] + tail)[k])
  {
  }

  /** ... and on the left: no paragraph before the last ends with one. */
  lemma {:induction false} ParagraphsEndMaximal(s: string)
    ensures var parts := Paragraphs(s);
            forall k :: 0 <= k < |parts| - 1 ==> !EndsWithNewline(parts[k])
    decreases |s|
  {
    match SplitOnce(s, "\n\n")
    case None =>
      assert Paragraphs(s) == [s];
    case Some((before, after)) =>
      FirstBreakNotAfterNewline(s, before, after);
      var e := RunEnd(after, 0, {'\n'});
      assert Paragraphs(s) == [before] + Paragraphs(after[e..]);
      EndMaximalStep(before, Paragraphs(after[e..]));
      ParagraphsEndMaximal(after[e..]);
  }

  lemma EndMaximalStep(before: string, tail: seq<string>)
    requires !EndsWithNewline(before)
    ensures (forall k :: 0 <= k < |tail| - 1 ==> !EndsWithNewline(tail[k])) ==>
            forall k :: 0 <= k < |[before] + tail| - 1 ==> !EndsWithNewline(([before] + tail)[k])
  {
  }

  /** The text before the first `\n\n` does not end with a newline, or the
      first occurrence would have been one place earlier. */
  lemma FirstBreakNotAfterNewline(s: string, before: string, after: string)
    requires SplitOnce(s, "\n\n") == Some((before, after))
    ensures before == [] || before[|before| - 1] != '\n'
  {
    var k := Find(s, "\n\n");
    assert k == |before|;
    if before != [] {
      assert !OccursAt(s, "\n\n", k - 1);
      assert s[k - 1..k + 1] == [s[k - 1], s[k]];
      assert s[k] == '\n' && s[k - 1] == before[|before| - 1];
    }
  }

  // ---------------------------------------------------------------
  // Tier 3: sentences
  // ---------------------------------------------------------------

  predicate IsSentenceEnd(c: char) {
    c == '.' || c == '!' || c == '?'
  }

  /** `(?<=[.!?])\s` matches at `p`. */
  predicate BreakAt(s: string, p: int) {
    1 <= p < |s| && IsSentenceEnd(s[p - 1]) && IsSpace(s[p])
  }

  predicate HasBreak(s: string) {
    exists p :: 0 <= p < |s| && BreakAt(s, p)
  }

  /** The first break at or after `i`, or -1. */
  function FindBreak(s: string, i: nat): (p: int)
    ensures p == -1 || (i <= p && BreakAt(s, p))
    ensures forall k :: i <= k && (p == -1 || k < p) ==> !BreakAt(s, k)
    decreases |s| - i
  {
    if i >= |s| then -1
    else if BreakAt(s, i) then i
    else FindBreak(s, i + 1)
  }

  /** `re.split(r"(?<=[.!?])\s+", text)`: split at each run of whitespace
      that follows `.`, `!` or `?`. No piece holds such a break. */
  function Sentences(s: string): (parts: seq<string>)
    ensures parts != []
    ensures forall k :: 0 <= k < |parts| ==> !HasBreak(parts[k])
    decreases |s|
  {
    var p := FindBreak(s, 0);
    if p < 0 then [s]
    else
      var before := s[..p];
      assert !HasBreak(before) by {
        forall j | BreakAt(before, j) ensures false {
          assert BreakAt(s, j);
        }
      }
      [before] + Sentences(s[SkipSpace(s, p, |s|)..])
  }

  /** The whitespace runs `re.split(r"(?<=[.!?])\s+", text)` removes, in order. */
  function SentenceBreaks(s: string): (breaks: seq<string>)
    decreases |s|
  {
    var p := FindBreak(s, 0);
    if p < 0 then []
    else
      var q := SkipSpace(s, p, |s|);
      [s[p..q]] + SentenceBreaks(s[q..])
  }

  /** Reconstruction: the sentences put back together with the removed runs
      give the text, and the first sentence begins it. */
  lemma {:induction false} SentencesRejoin(s: string)
    ensures |Sentences(s)| == |SentenceBreaks(s)| + 1
    ensures Interleave(Sentences(s), SentenceBreaks(s)) == s
    ensures Sentences(s)[0] == s[..|Sentences(s)[0]|]
    decreases |s|
  {
    var p := FindBreak(s, 0);
    if p >= 0 {
      var q := SkipSpace(s, p, |s|);
      SentencesRejoin(s[q..]);
      assert s == s[..p] + s[p..q] + s[q..];
    }
  }

  /** A non-empty piece whose last character is `.`, `!` or `?`. */
  predicate EndsSentence(p: string) {
    p != [] && IsSentenceEnd(p[|p| - 1])
  }

  /** Each removed run is non-empty whitespace, and the sentence before it
      ends with `.`, `!` or `?`. */
  lemma {:induction false} SentenceBreaksShape(s: string)
    ensures forall b :: b in SentenceBreaks(s) ==> b != [] && AllSpace(b)
    ensures forall k :: 0 <= k < |Sentences(s)| - 1 ==> EndsSentence(Sentences(s)[k])
    decreases |s|
  {
    var p := FindBreak(s, 0);
    if p >= 0 {
      var q := SkipSpace(s, p, |s|);
      var rest := s[q..];
      var tail, bs := Sentences(rest), SentenceBreaks(rest);
      SentenceBreaksShape(rest);
      assert forall j :: 0 <= j < |tail| - 1 ==> EndsSentence(tail[j]);
      assert forall b :: b in bs ==> b != [] && AllSpace(b);
      assert AllSpace(s[p..q]) by {
        SkipSpaceRun(s, p, |s|);
        forall j | 0 <= j < q - p ensures IsSpace(s[p..q][j]) {
          assert s[p..q][j] == s[p + j];
        }
      }
      assert SentenceBreaks(s) == [s[p..q]] + bs;
      BreakStep(s[p..q], bs);
      assert EndsSentence(s[..p]) by {
        assert s[..p][p - 1] == s[p - 1];
      }
      assert Sentences(s) == [s[..p]] + tail;
      EndStep(s[..p], tail);
    }
  }

  lemma BreakStep(b: string, bs: seq<string>)
    requires b != [] && AllSpace(b)
    requires forall x :: x in bs ==> x != [] && AllSpace(x)
    ensures forall x :: x in [b] + bs ==> x != [] && AllSpace(x)
  {
  }

  lemma EndStep(before: string, tail: seq<string>)
    requires EndsSentence(before)
    requires forall k :: 0 <= k < |tail| - 1 ==> EndsSentence(tail[k])
    ensures forall k :: 0 <= k < |[before] + tail| - 1 ==> EndsSentence(([before] + tail)[k])
  {
  }

  /** A piece that begins with whitespace. */
  predicate StartsWithSpace(p: string) {
    p != [] && IsSpace(p[0])
  }

  /** No sentence after the first starts with whitespace. */
  lemma {:induction false} SentencesStartMaximal(s: string)
    ensures forall k :: 0 < k < |Sentences(s)| ==> !StartsWithSpace(Sentences(s)[k])
    decreases |s|
  {
    var p := FindBreak(s, 0);
    if p >= 0 {
      var q := SkipSpace(s, p, |s|);
      var rest := s[q..];
      var tail := Sentences(rest);
      SentencesStartMaximal(rest);
      assert forall k :: 0 < k < |tail| ==> !StartsWithSpace(tail[k]);
      assert !StartsWithSpace(tail[0]) by {
        SentencesRejoin(rest);
        if tail[0] != [] {
          assert tail[0][0] == rest[0] && rest[0] == s[q];
        }
      }
      assert Sentences(s) == [s[..p]] + tail;
      SpaceStartStep(s[..p], tail);
    }
  }

  lemma SpaceStartStep(before: string, tail: seq<string>)
    requires tail != [] && !StartsWithSpace(tail[0])
    requires forall k :: 0 < k < |tail| ==> !StartsWithSpace(tail[k])
    ensures forall k :: 0 < k < |[before] + tail| ==> !StartsWithSpace(([before] + tail)[k])
  {
  }

  // ---------------------------------------------------------------
  // The three tiers together
  // ---------------------------------------------------------------

  /** `_split_candidates`. Tier 1 is chosen on the number of raw pieces,
      before empty ones are dropped. */
  function SplitCandidates(text: string): (units: seq<string>)
    ensures forall k :: 0 <= k < |units| ==> units[k] != [] && IsStripped(units[k])
  {
    var parts := SectionPieces(SplitChar(text, '\n'));
    if |parts| > 1 then NonBlank(parts)
    else
      var paras := NonBlank(Paragraphs(text));
      if |paras| > 1 then paras else NonBlank(Sentences(text))
  }

  /** Tier 1 decides exactly when some line but the last is a heading or an
      all-caps line; otherwise paragraphs decide when there are at least two,
      and sentences otherwise. */
  lemma TierChoice(text: string)
    ensures var lines := SplitChar(text, '\n');
            var paras := NonBlank(Paragraphs(text));
            && (SeparatorCount(lines) > 0 ==> SplitCandidates(text) == NonBlank(SectionPieces(lines)))
            && (SeparatorCount(lines) == 0 && |paras| > 1 ==> SplitCandidates(text) == paras)
            && (SeparatorCount(lines) == 0 && |paras| <= 1 ==> SplitCandidates(text) == NonBlank(Sentences(text)))
  {
    SectionPiecesCount(SplitChar(text, '\n'));
  }

  /** A text made only of one heading or all-caps line and its newline
      splits into two empty pieces, so tier 1 is chosen and yields no unit
      at all. */
  lemma SeparatorOnlyGivesNothing(l: string)
    requires IsSeparatorLine(l) && '\n' !in l
    ensures SplitCandidates(l + "\n") == []
  {
    var s := l + "\n";
    var lines := SplitChar(s, '\n');
    var k := IndexOfChar(s, '\n');
    assert s[..|l|] == l;
    assert k == |l|;
    assert s[|l| + 1..] == "";
    assert SplitChar(s[k + 1..], '\n') == [""];
    assert lines == [l, ""];
    assert SectionPieces(lines) == ["", ""];
    assert NonBlank(["", ""]) == [] by {
      assert Strip("") == [];
    }
  }

  /** Empty or whitespace-only text yields no unit. */
  lemma BlankGivesNothing(text: string)
    requires AllSpace(text)
    ensures SplitCandidates(text) == []
  {
    var lines := SplitChar(text, '\n');
    SplitCharSpace(text, '\n');
    SeparatorCountSpace(lines);
    SectionPiecesCount(lines);
    ParagraphsSpace(text);
    NonBlankSpace(Paragraphs(text));
    assert FindBreak(text, 0) == -1;
    NonBlankSpace(Sentences(text));
  }

  lemma {:induction false} SplitCharSpace(s: string, c: char)
    requires AllSpace(s)
    ensures forall k :: 0 <= k < |SplitChar(s, c)| ==> AllSpace(SplitChar(s, c)[k])
    decreases |s|
  {
    if c in s {
      var k := IndexOfChar(s, c);
      SplitCharSpace(s[k + 1..], c);
    }
  }

  lemma {:induction false} SeparatorCountSpace(lines: seq<string>)
    requires forall k :: 0 <= k < |lines| ==> AllSpace(lines[k])
    ensures SeparatorCount(lines) == 0
  {
    if |lines| > 1 {
      assert !IsSeparatorLine(lines[0]) by {
        if lines[0] != [] {
          assert IsSpace(lines[0][0]);
        }
      }
      SeparatorCountSpace(lines[1..]);
    }
  }

  lemma {:induction false} ParagraphsSpace(s: string)
    requires AllSpace(s)
    ensures forall k :: 0 <= k < |Paragraphs(s)| ==> AllSpace(Paragraphs(s)[k])
    decreases |s|
  {
    match SplitOnce(s, "\n\n")
    case None =>
    case Some((before, after)) =>
      SpaceParts(before, "\n\n", after);
      var e := RunEnd(after, 0, {'\n'});
      var rest := after[e..];
      SpaceParts(after[..e], [], rest);
      ParagraphsSpace(rest);
      var tail := Paragraphs(rest);
      assert forall k :: 0 <= k < |tail| ==> AllSpace(tail[k]);
      assert Paragraphs(s) == [before] + tail;
      SpaceStep(before, tail);
  }

  lemma SpaceStep(before: string, tail: seq<string>)
    requires AllSpace(before) && forall k :: 0 <= k < |tail| ==> AllSpace(tail[k])
    ensures forall k :: 0 <= k < |[before] + tail| ==> AllSpace(([before] + tail)[k])
  {
  }

  lemma SpaceParts(a: string, b: string, c: string)
    requires AllSpace(a + b + c)
    ensures AllSpace(a) && AllSpace(c)
  {
    var s := a + b + c;
    forall j | 0 <= j < |a| ensures IsSpace(a[j]) {
      assert a[j] == s[j];
    }
    forall j | 0 <= j < |c| ensures IsSpace(c[j]) {
      assert c[j] == s[|a| + |b| + j];
    }
  }

  lemma {:induction false} NonBlankSpace(parts: seq<string>)
    requires forall k :: 0 <= k < |parts| ==> AllSpace(parts[k])
    ensures NonBlank(parts) == []
  {
    if parts != [] {
      StripEmptyIffAllSpace(parts[0]);
      NonBlankSpace(parts[1..]);
    }
  }

  // ---------------------------------------------------------------
  // Packing
  // ---------------------------------------------------------------

  /** The separator between the units of a chunk. */
  const ParaSep: string := "\n\n"

  /** The state of `chunk_text`'s loop: finished chunks, the units of the
      chunk being filled, and its running token count. */
  datatype Acc = Acc(chunks: seq<string>, cur: seq<string>, curTok: int)

  /** Total token count of `xs`, each string encoded on its own. */
  function SumTok(tk: Tokenizer, xs: seq<string>): nat {
    if xs == [] then 0
    else SumTok(tk, xs[..|xs| - 1]) + EstimateTokens(tk, xs[|xs| - 1])
  }

  /** The invariant of the loop: `cur_tok` is the token count of `cur`. */
  ghost predicate Counted(tk: Tokenizer, acc: Acc) {
    acc.curTok == SumTok(tk, acc.cur)
  }

  /** `xs[:n]` for `n >= 0` */
  function PrefixUpTo(xs: seq<int>, n: nat): (r: seq<int>)
    ensures |r| == if n <= |xs| then n else |xs|
    ensures r == xs[..|r|]
  {
    if n <= |xs| then xs[..n] else xs
  }

  /** `xs[n:]` for `n >= 0` */
  function SuffixFrom(xs: seq<int>, n: nat): (r: seq<int>)
    ensures |r| == if n <= |xs| then |xs| - n else 0
    ensures r == xs[|xs| - |r|..]
  {
    if n <= |xs| then xs[n..] else []
  }

  /** The accumulator after an overflow: the decoded last
      `overlap_tokens` tokens of the last chunk followed by the unit, or the
      unit alone when there is no chunk yet. The overlap carries exactly
      `overlap_tokens` tokens, or all of the last chunk's tokens when it
      has fewer, or none when `overlap_tokens <= 0`. */
  function Restart(tk: Tokenizer, overlap: int, chunks: seq<string>, unit: string): (r: Acc)
    ensures Counted(tk, r) && r.chunks == chunks
    ensures chunks == [] ==> r.cur == [unit]
    ensures chunks != [] ==> |r.cur| == 2 && r.cur[1] == unit
    ensures chunks != [] ==>
      var lt := tk.encode(chunks[|chunks| - 1]);
      var m := if overlap <= 0 then 0 else if overlap <= |lt| then overlap else |lt|;
      r.cur[0] == tk.decode(lt[|lt| - m..])
    ensures Lawful(tk) && chunks != [] ==>
      var n := |tk.encode(chunks[|chunks| - 1])|;
      EstimateTokens(tk, r.cur[0]) == if overlap <= 0 then 0 else if overlap <= n then overlap else n
  {
    var u := EstimateTokens(tk, unit);
    if chunks != [] then
      var lastTokens := tk.encode(chunks[|chunks| - 1]);
      var from := if |lastTokens| - overlap >= 0 then |lastTokens| - overlap else 0;
      var tail := tk.decode(SuffixFrom(lastTokens, from));
      var r := Acc(chunks, [tail, unit], EstimateTokens(tk, tail) + u);
      assert [tail, unit][..1] == [tail] && [tail][..0] == [];
      assert SumTok(tk, [tail]) == EstimateTokens(tk, tail);
      r
    else
      assert [unit][..0] == [];
      Acc(chunks, [unit], u)
  }

  /** One round of the hard split shortens a single-string accumulator. */
  lemma SplitShrinks(tk: Tokenizer, target: int, overlap: int, acc: Acc)
    requires Lawful(tk) && 0 <= target && overlap < target && Counted(tk, acc)
    requires 10 * acc.curTok > 13 * target
    ensures var toks := tk.encode(Join(acc.cur, ParaSep));
            |acc.cur| == 1 ==> EstimateTokens(tk, tk.decode(SuffixFrom(toks, target - overlap))) < acc.curTok
  {
    if |acc.cur| == 1 {
      assert acc.cur[..0] == [];
    }
  }

  /** The `while cur_tok > target_tokens * 1.3` loop: while the accumulator
      is too large, emit the decoding of its first `target_tokens` tokens
      and restart from token `target_tokens - overlap_tokens`. It stops
      with the accumulator within bounds, only appends chunks, and every
      chunk it emits has at most `target_tokens` tokens. */
  function HardSplit(tk: Tokenizer, target: int, overlap: int, acc: Acc): (r: Acc)
    requires Lawful(tk) && 0 <= target && overlap < target && Counted(tk, acc)
    ensures Counted(tk, r) && 10 * r.curTok <= 13 * target
    ensures |acc.chunks| <= |r.chunks| && r.chunks[..|acc.chunks|] == acc.chunks
    ensures forall k :: |acc.chunks| <= k < |r.chunks| ==> EstimateTokens(tk, r.chunks[k]) <= target
    ensures 10 * acc.curTok <= 13 * target ==> r == acc
    ensures acc.cur != [] ==> r.cur != []
    ensures 10 * acc.curTok > 13 * target ==> |r.cur| == 1
    decreases if |acc.cur| == 1 then 0 else 1, acc.curTok
  {
    if 10 * acc.curTok <= 13 * target then acc
    else
      var toks := tk.encode(Join(acc.cur, ParaSep));
      var part := tk.decode(PrefixUpTo(toks, target));
      var rest := tk.decode(SuffixFrom(toks, target - overlap));
      var next := Acc(acc.chunks + [part], [rest], EstimateTokens(tk, rest));
      assert [rest][..0] == [];
      SplitShrinks(tk, target, overlap, acc);
      var r := HardSplit(tk, target, overlap, next);
      assert r.chunks[..|acc.chunks|] == acc.chunks by {
        assert r.chunks[..|acc.chunks|] == next.chunks[..|next.chunks|][..|acc.chunks|];
      }
      assert r.chunks[|acc.chunks|] == part;
      r
  }

  /** One round of the hard split: the first new chunk is the decoded first
      `target_tokens` tokens of the buffer, the buffer restarts as the single
      decoded tail that begins `overlap_tokens` before the cut, and when that
      tail is in bounds the loop stops there. */
  lemma HardSplitFires(tk: Tokenizer, target: int, overlap: int, acc: Acc)
    requires Lawful(tk) && 0 <= target && overlap < target && Counted(tk, acc)
    requires 10 * acc.curTok > 13 * target
    ensures var r := HardSplit(tk, target, overlap, acc);
            var toks := tk.encode(Join(acc.cur, ParaSep));
            var part := tk.decode(PrefixUpTo(toks, target));
            var rest := tk.decode(SuffixFrom(toks, target - overlap));
            && |acc.chunks| < |r.chunks| && r.chunks[|acc.chunks|] == part && |r.cur| == 1
            && (10 * EstimateTokens(tk, rest) <= 13 * target ==>
                  r == Acc(acc.chunks + [part], [rest], EstimateTokens(tk, rest)))
  {
    var toks := tk.encode(Join(acc.cur, ParaSep));
    var part := tk.decode(PrefixUpTo(toks, target));
    var rest := tk.decode(SuffixFrom(toks, target - overlap));
    var next := Acc(acc.chunks + [part], [rest], EstimateTokens(tk, rest));
    var r := HardSplit(tk, target, overlap, next);
    assert HardSplit(tk, target, overlap, acc) == r;
    assert r.cur != [];
  }

  /** The body of `for unit in units`: append the unit when it fits within
      `target_tokens`; otherwise flush a non-empty accumulator as a chunk,
      restart with the overlap, and hard-split what is too large. */
  function Place(tk: Tokenizer, target: int, overlap: int, acc: Acc, unit: string): (r: Acc)
    requires Lawful(tk) && 0 <= target && overlap < target && Counted(tk, acc)
    ensures Counted(tk, r) && 10 * r.curTok <= 13 * target
    ensures |acc.chunks| <= |r.chunks| && r.chunks[..|acc.chunks|] == acc.chunks
    ensures r.cur != []
    ensures acc.curTok + EstimateTokens(tk, unit) <= target ==>
              r == Acc(acc.chunks, acc.cur + [unit], acc.curTok + EstimateTokens(tk, unit))
  {
    var u := EstimateTokens(tk, unit);
    if acc.curTok + u <= target then
      var cur := acc.cur + [unit];
      assert cur[..|acc.cur|] == acc.cur;
      assert SumTok(tk, cur) == acc.curTok + u;
      Acc(acc.chunks, cur, acc.curTok + u)
    else
      var flushed := if acc.cur != [] then acc.chunks + [Join(acc.cur, ParaSep)] else acc.chunks;
      var r := HardSplit(tk, target, overlap, Restart(tk, overlap, flushed, unit));
      assert r.chunks[..|acc.chunks|] == flushed[..|acc.chunks|];
      r
  }

  /** The state after the loop has consumed `units`. */
  function Pack(tk: Tokenizer, target: int, overlap: int, units: seq<string>): (r: Acc)
    requires Lawful(tk) && 0 <= target && overlap < target
    ensures Counted(tk, r) && 10 * r.curTok <= 13 * target
    ensures units == [] <==> r.cur == []
  {
    if units == [] then Acc([], [], 0)
    else Place(tk, target, overlap, Pack(tk, target, overlap, units[..|units| - 1]), units[|units| - 1])
  }

  /** `if cur: chunks.append("\n\n".join(cur))` after the loop. */
  function Finish(acc: Acc): seq<string> {
    if acc.cur != [] then acc.chunks + [Join(acc.cur, ParaSep)] else acc.chunks
  }

  /** `chunk_text` */
  function ChunkText(tk: Tokenizer, text: string, target: int, overlap: int): (r: seq<string>)
    requires Lawful(tk) && 0 <= target && overlap < target
    ensures r == [] <==> SplitCandidates(text) == []
  {
    Finish(Pack(tk, target, overlap, SplitCandidates(text)))
  }

  /** A chunk of the result is either a hard-split part of at most
      `target_tokens` tokens, or units joined by blank lines whose token
      counts add up to at most `target_tokens * 1.3`. */
  ghost predicate Sized(tk: Tokenizer, target: int, c: string) {
    || EstimateTokens(tk, c) <= target
    || exists cur: seq<string> :: c == Join(cur, ParaSep) && 10 * SumTok(tk, cur) <= 13 * target
  }

  ghost predicate AllSized(tk: Tokenizer, target: int, chunks: seq<string>) {
    forall k :: 0 <= k < |chunks| ==> Sized(tk, target, chunks[k])
  }

  /** The hard split emits only parts within `target_tokens`. */
  lemma HardSplitSized(tk: Tokenizer, target: int, overlap: int, acc: Acc)
    requires Lawful(tk) && 0 <= target && overlap < target && Counted(tk, acc)
    requires AllSized(tk, target, acc.chunks)
    ensures AllSized(tk, target, HardSplit(tk, target, overlap, acc).chunks)
  {
    var r := HardSplit(tk, target, overlap, acc);
    forall k | 0 <= k < |r.chunks|
      ensures Sized(tk, target, r.chunks[k])
    {
      if k < |acc.chunks| {
        assert r.chunks[k] == r.chunks[..|acc.chunks|][k] == acc.chunks[k];
      }
    }
  }

  /** One step of the loop finishes only chunks of the right size: the
      flushed accumulator is within `target_tokens * 1.3`, and the hard
      split emits parts within `target_tokens`. */
  lemma PlaceSized(tk: Tokenizer, target: int, overlap: int, acc: Acc, unit: string)
    requires Lawful(tk) && 0 <= target && overlap < target && Counted(tk, acc)
    requires 10 * acc.curTok <= 13 * target && AllSized(tk, target, acc.chunks)
    ensures AllSized(tk, target, Place(tk, target, overlap, acc, unit).chunks)
  {
    if acc.curTok + EstimateTokens(tk, unit) > target {
      var flushed := if acc.cur != [] then acc.chunks + [Join(acc.cur, ParaSep)] else acc.chunks;
      FlushSized(tk, target, acc);
      var restarted := Restart(tk, overlap, flushed, unit);
      HardSplitSized(tk, target, overlap, restarted);
      assert Place(tk, target, overlap, acc, unit) == HardSplit(tk, target, overlap, restarted);
    }
  }

  /** Flushing an accumulator within `target_tokens * 1.3` adds a chunk of that size. */
  lemma FlushSized(tk: Tokenizer, target: int, acc: Acc)
    requires Counted(tk, acc) && 10 * acc.curTok <= 13 * target && AllSized(tk, target, acc.chunks)
    ensures AllSized(tk, target, if acc.cur != [] then acc.chunks + [Join(acc.cur, ParaSep)] else acc.chunks)
  {
    if acc.cur != [] {
      assert Sized(tk, target, Join(acc.cur, ParaSep));
    }
  }

  lemma {:induction false} PackSized(tk: Tokenizer, target: int, overlap: int, units: seq<string>)
    requires Lawful(tk) && 0 <= target && overlap < target
    ensures AllSized(tk, target, Pack(tk, target, overlap, units).chunks)
    decreases |units|
  {
    if units != [] {
      var init := units[..|units| - 1];
      PackSized(tk, target, overlap, init);
      PlaceSized(tk, target, overlap, Pack(tk, target, overlap, init), units[|units| - 1]);
    }
  }

  /** The chunk finished after the loop is within `target_tokens * 1.3`. */
  lemma FinishSized(tk: Tokenizer, target: int, acc: Acc)
    requires Counted(tk, acc) && 10 * acc.curTok <= 13 * target && AllSized(tk, target, acc.chunks)
    ensures forall c :: c in Finish(acc) ==> Sized(tk, target, c)
  {
    var r := Finish(acc);
    assert AllSized(tk, target, r) by {
      if acc.cur != [] {
        assert Sized(tk, target, Join(acc.cur, ParaSep));
      }
    }
    forall c | c in r
      ensures Sized(tk, target, c)
    {
      var k :| 0 <= k < |r| && r[k] == c;
    }
  }

  /** "Pack chunks up to ~target tokens": every chunk `chunk_text` returns
      is a hard-split part of at most `target_tokens` tokens, or units
      joined by blank lines counted at most `target_tokens * 1.3` tokens. */
  lemma ChunksSized(tk: Tokenizer, text: string, target: int, overlap: int)
    requires Lawful(tk) && 0 <= target && overlap < target
    ensures forall c :: c in ChunkText(tk, text, target, overlap) ==> Sized(tk, target, c)
  {
    var units := SplitCandidates(text);
    PackSized(tk, target, overlap, units);
    FinishSized(tk, target, Pack(tk, target, overlap, units));
    assert ChunkText(tk, text, target, overlap) == Finish(Pack(tk, target, overlap, units));
  }

  /** When all units fit within `target_tokens` together, the loop only
      appends: no chunk is finished and the accumulator holds every unit. */
  lemma {:induction false} PackAllFit(tk: Tokenizer, target: int, overlap: int, units: seq<string>)
    requires Lawful(tk) && 0 <= target && overlap < target
    requires SumTok(tk, units) <= target
    ensures Pack(tk, target, overlap, units) == Acc([], units, SumTok(tk, units))
  {
    if units != [] {
      var init, last := units[..|units| - 1], units[|units| - 1];
      assert SumTok(tk, units) == SumTok(tk, init) + EstimateTokens(tk, last);
      PackAllFit(tk, target, overlap, init);
      var before := Acc([], init, SumTok(tk, init));
      assert Pack(tk, target, overlap, units) == Place(tk, target, overlap, before, last);
      assert init + [last] == units;
    }
  }

  /** If the units fit within `target_tokens` together, the result is one
      chunk holding them all, in order, separated by blank lines (none for
      a text without units). */
  lemma ChunkAllFit(tk: Tokenizer, text: string, target: int, overlap: int)
    requires Lawful(tk) && 0 <= target && overlap < target
    requires SumTok(tk, SplitCandidates(text)) <= target
    ensures var units := SplitCandidates(text);
            ChunkText(tk, text, target, overlap) == if units == [] then [] else [Join(units, ParaSep)]
  {
    PackAllFit(tk, target, overlap, SplitCandidates(text));
  }

  /** Empty or whitespace-only text gives no chunk. */
  lemma ChunkBlank(tk: Tokenizer, text: string, target: int, overlap: int)
    requires Lawful(tk) && 0 <= target && overlap < target
    requires AllSpace(text)
    ensures ChunkText(tk, text, target, overlap) == []
  {
    BlankGivesNothing(text);
  }

  /** `a` is a prefix of `b`. */
  predicate IsPrefix(a: seq<string>, b: seq<string>) {
    |a| <= |b| && b[..|a|] == a
  }

  lemma PrefixTrans(a: seq<string>, b: seq<string>, c: seq<string>)
    requires IsPrefix(a, b) && IsPrefix(b, c)
    ensures IsPrefix(a, c)
  {
    assert c[..|a|] == c[..|b|][..|a|];
  }

  /** One step of the loop keeps the chunks finished so far. */
  lemma PackGrows(tk: Tokenizer, target: int, overlap: int, units: seq<string>)
    requires Lawful(tk) && 0 <= target && overlap < target && units != []
    ensures IsPrefix(Pack(tk, target, overlap, units[..|units| - 1]).chunks, Pack(tk, target, overlap, units).chunks)
  {
  }

  /** Chunks are only ever appended: the chunks after any prefix of the
      units begin the chunks after all of them. */
  lemma {:induction false} ChunksAppendOnly(tk: Tokenizer, target: int, overlap: int, units: seq<string>, i: nat)
    requires Lawful(tk) && 0 <= target && overlap < target && i <= |units|
    ensures IsPrefix(Pack(tk, target, overlap, units[..i]).chunks, Pack(tk, target, overlap, units).chunks)
    decreases |units|
  {
    if i < |units| {
      var init := units[..|units| - 1];
      assert init[..i] == units[..i];
      ChunksAppendOnly(tk, target, overlap, init, i);
      PackGrows(tk, target, overlap, units);
      var a, b := Pack(tk, target, overlap, units[..i]).chunks, Pack(tk, target, overlap, init).chunks;
      PrefixTrans(a, b, Pack(tk, target, overlap, units).chunks);
    } else {
      assert units[..i] == units;
    }
  }

  /** ... and so begin the result of `chunk_text`. */
  lemma ChunksAppendOnlyResult(tk: Tokenizer, text: string, target: int, overlap: int, i: nat)
    requires Lawful(tk) && 0 <= target && overlap < target && i <= |SplitCandidates(text)|
    ensures var units := SplitCandidates(text);
            IsPrefix(Pack(tk, target, overlap, units[..i]).chunks, ChunkText(tk, text, target, overlap))
  {
    var units := SplitCandidates(text);
    var after := Pack(tk, target, overlap, units);
    ChunksAppendOnly(tk, target, overlap, units, i);
    assert IsPrefix(after.chunks, Finish(after));
    PrefixTrans(Pack(tk, target, overlap, units[..i]).chunks, after.chunks, Finish(after));
  }

  /** On overflow a non-empty accumulator is finished as the next chunk,
      whatever the hard split then adds; if the restarted accumulator is
      within bounds it is kept as it is. */
  lemma OverflowFlushes(tk: Tokenizer, target: int, overlap: int, acc: Acc, unit: string)
    requires Lawful(tk) && 0 <= target && overlap < target && Counted(tk, acc)
    requires acc.curTok + EstimateTokens(tk, unit) > target
    ensures var r := Place(tk, target, overlap, acc, unit);
            var flushed := if acc.cur != [] then acc.chunks + [Join(acc.cur, ParaSep)] else acc.chunks;
            var restart := Restart(tk, overlap, flushed, unit);
            && |flushed| <= |r.chunks| && r.chunks[..|flushed|] == flushed
            && (10 * restart.curTok <= 13 * target ==> r == restart)
  {
  }

  /** `u` is in a finished chunk or is one of the units being filled. */
  predicate Kept(acc: Acc, u: string) {
    (exists c :: c in acc.chunks && Contains(c, u)) || u in acc.cur
  }

  /** The overlap never carries more than `max(0, overlap_tokens)` tokens,
      so a unit within this bound never needs the hard split. */
  predicate NoHardSplitNeeded(tk: Tokenizer, target: int, overlap: int, unit: string) {
    10 * ((if overlap > 0 then overlap else 0) + EstimateTokens(tk, unit)) <= 13 * target
  }

  /** A unit that needs no hard split is placed whole, and what was kept
      before stays kept. */
  lemma PlaceKeeps(tk: Tokenizer, target: int, overlap: int, acc: Acc, unit: string, u: string)
    requires Lawful(tk) && 0 <= target && overlap < target && Counted(tk, acc)
    requires NoHardSplitNeeded(tk, target, overlap, unit)
    ensures Kept(Place(tk, target, overlap, acc, unit), unit)
    ensures Kept(acc, u) ==> Kept(Place(tk, target, overlap, acc, unit), u)
  {
    var r := Place(tk, target, overlap, acc, unit);
    if acc.curTok + EstimateTokens(tk, unit) > target {
      var flushed := if acc.cur != [] then acc.chunks + [Join(acc.cur, ParaSep)] else acc.chunks;
      var restart := Restart(tk, overlap, flushed, unit);
      if flushed == [] {
        assert [unit][..0] == [];
      } else {
        var tail := restart.cur[0];
        assert restart.cur == [tail, unit];
        assert [tail, unit][..1] == [tail] && [tail][..0] == [];
      }
      OverflowFlushes(tk, target, overlap, acc, unit);
      assert r == restart;
      if u in acc.cur {
        var i :| 0 <= i < |acc.cur| && acc.cur[i] == u;
        JoinContains(acc.cur, ParaSep, i);
        assert Join(acc.cur, ParaSep) in r.chunks;
      }
      if exists c :: c in acc.chunks && Contains(c, u) {
        var c :| c in acc.chunks && Contains(c, u);
        assert c in r.chunks;
      }
    }
  }

  /** No unit is dropped: when no unit needs the hard split, every unit is
      in a finished chunk or in the chunk being filled. */
  lemma {:induction false} PackKeeps(tk: Tokenizer, target: int, overlap: int, units: seq<string>)
    requires Lawful(tk) && 0 <= target && overlap < target
    requires forall k :: 0 <= k < |units| ==> NoHardSplitNeeded(tk, target, overlap, units[k])
    ensures forall k :: 0 <= k < |units| ==> Kept(Pack(tk, target, overlap, units), units[k])
  {
    if units != [] {
      var init := units[..|units| - 1];
      var before := Pack(tk, target, overlap, init);
      PackKeeps(tk, target, overlap, init);
      forall k | 0 <= k < |units| ensures Kept(Pack(tk, target, overlap, units), units[k]) {
        PlaceKeeps(tk, target, overlap, before, units[|units| - 1], units[k]);
        if k < |units| - 1 {
          assert units[k] == init[k];
        }
      }
    }
  }

  /** ... and so every unit is contained in some chunk of `chunk_text`. */
  lemma NoUnitDropped(tk: Tokenizer, text: string, target: int, overlap: int)
    requires Lawful(tk) && 0 <= target && overlap < target
    requires var units := SplitCandidates(text);
             forall k :: 0 <= k < |units| ==> NoHardSplitNeeded(tk, target, overlap, units[k])
    ensures var units := SplitCandidates(text);
            forall k :: 0 <= k < |units| ==> exists c :: c in ChunkText(tk, text, target, overlap) && Contains(c, units[k])
  {
    var units := SplitCandidates(text);
    var acc := Pack(tk, target, overlap, units);
    assert ChunkText(tk, text, target, overlap) == Finish(acc);
    PackKeeps(tk, target, overlap, units);
    forall k | 0 <= k < |units| ensures exists c :: c in Finish(acc) && Contains(c, units[k]) {
      if units[k] in acc.cur {
        var i :| 0 <= i < |acc.cur| && acc.cur[i] == units[k];
        JoinContains(acc.cur, ParaSep, i);
        assert Join(acc.cur, ParaSep) in Finish(acc);
      } else {
        var c :| c in acc.chunks && Contains(c, units[k]);
        assert c in Finish(acc);
      }
    }
  }

  /** One more unit through the loop body. */
  lemma PackStep(tk: Tokenizer, target: int, overlap: int, units: seq<string>, i: nat)
    requires Lawful(tk) && 0 <= target && overlap < target && i < |units|
    ensures Pack(tk, target, overlap, units[..i + 1])
         == Place(tk, target, overlap, Pack(tk, target, overlap, units[..i]), units[i])
  {
    assert units[..i + 1][..i] == units[..i];
  }

  /** `chunk_text` as written: split into units, run the packing loop,
      flush the last accumulator. */
  method ChunkTextLoop(tk: Tokenizer, text: string, target: int, overlap: int) returns (chunks: seq<string>)
    requires Lawful(tk) && 0 <= target && overlap < target
    ensures chunks == ChunkText(tk, text, target, overlap)
  {
    var units := SplitCandidates(text);
    var cur, curTok;
    chunks, cur, curTok := PackUnits(tk, target, overlap, units);
    if cur != [] {
      chunks := chunks + [Join(cur, ParaSep)];
    }
  }

  /** The `for unit in units` loop of `chunk_text`, with the hard-split
      `while` loop inside. */
  method PackUnits(tk: Tokenizer, target: int, overlap: int, units: seq<string>)
    returns (chunks: seq<string>, cur: seq<string>, curTok: int)
    requires Lawful(tk) && 0 <= target && overlap < target
    ensures Acc(chunks, cur, curTok) == Pack(tk, target, overlap, units)
  {
    chunks := [];
    cur := [];
    curTok := 0;
    for i := 0 to |units|
      invariant Acc(chunks, cur, curTok) == Pack(tk, target, overlap, units[..i])
    {
      PackStep(tk, target, overlap, units, i);
      ghost var next := Place(tk, target, overlap, Acc(chunks, cur, curTok), units[i]);
      var unit := units[i];
      var utoks := EstimateTokens(tk, unit);
      if curTok + utoks <= target {
        cur := cur + [unit];
        curTok := curTok + utoks;
      } else {
        if cur != [] {
          chunks := chunks + [Join(cur, ParaSep)];
        }
        cur, curTok := StartAfterFlush(tk, overlap, chunks, unit, utoks);
        chunks, cur, curTok := HardSplitLoop(tk, target, overlap, chunks, cur, curTok);
      }
      assert Acc(chunks, cur, curTok) == next;
    }
    assert units[..|units|] == units;
  }

  /** Lines 59-68 of `chunk_text`: the new accumulator after a flush. */
  method StartAfterFlush(tk: Tokenizer, overlap: int, chunks: seq<string>, unit: string, utoks: int)
    returns (cur: seq<string>, curTok: int)
    requires utoks == EstimateTokens(tk, unit)
    ensures Acc(chunks, cur, curTok) == Restart(tk, overlap, chunks, unit)
  {
    if chunks != [] {
      var lastTokens := tk.encode(chunks[|chunks| - 1]);
      var from := if |lastTokens| - overlap >= 0 then |lastTokens| - overlap else 0;
      var tail := tk.decode(SuffixFrom(lastTokens, from));
      cur := [tail, unit];
      curTok := EstimateTokens(tk, tail) + utoks;
    } else {
      cur := [unit];
      curTok := utoks;
    }
  }

  /** Lines 70-77 of `chunk_text`: the hard-split loop. */
  method HardSplitLoop(tk: Tokenizer, target: int, overlap: int, chunks0: seq<string>, cur0: seq<string>, curTok0: int)
    returns (chunks: seq<string>, cur: seq<string>, curTok: int)
    requires Lawful(tk) && 0 <= target && overlap < target && Counted(tk, Acc(chunks0, cur0, curTok0))
    ensures Acc(chunks, cur, curTok) == HardSplit(tk, target, overlap, Acc(chunks0, cur0, curTok0))
  {
    chunks, cur, curTok := chunks0, cur0, curTok0;
    while 10 * curTok > 13 * target
      invariant Counted(tk, Acc(chunks, cur, curTok))
      invariant HardSplit(tk, target, overlap, Acc(chunks, cur, curTok))
             == HardSplit(tk, target, overlap, Acc(chunks0, cur0, curTok0))
      decreases if |cur| == 1 then 0 else 1, curTok
    {
      SplitShrinks(tk, target, overlap, Acc(chunks, cur, curTok));
      var toks := tk.encode(Join(cur, ParaSep));
      var part := tk.decode(PrefixUpTo(toks, target));
      var rest := tk.decode(SuffixFrom(toks, target - overlap));
      chunks := chunks + [part];
      cur := [rest];
      curTok := EstimateTokens(tk, rest);
      assert [rest][..0] == [];
    }
  }
}
