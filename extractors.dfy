/** The five format extractors of utils/llm.py. Each one turns a model
    reply into flashcards and signals "format not found" with an empty list.
    The line-based ones are a specification function per line, gathered in
    line order, and a method with the source's loop proved equal to it. */
module Extractors {
  import opened Wrappers
  import opened Text
  import opened Prefixes

  /** A flashcard record `{"question", "answer", "source_chunk"}`. */
  datatype Card = Card(question: string, answer: string, sourceChunk: int)

  /** What every extractor promises of each card it emits: both sides
      cleaned and non-empty, and `source_chunk` 0. */
  predicate Emitted(c: Card) {
    && c.question != [] && c.answer != []
    && IsClean(c.question) && IsClean(c.answer)
    && c.sourceChunk == 0
  }

  /** The shared accept rule `if q and a: out.append(...)`. */
  function Accept(q: string, a: string): (r: Option<Card>)
    requires IsClean(q) && IsClean(a)
    ensures r.Some? <==> q != [] && a != []
    ensures r.Some? ==> Emitted(r.value) && r.value == Card(q, a, 0)
  {
    if q != [] && a != [] then Some(Card(q, a, 0)) else None
  }

  /** The cards a per-item rule `f` yields over `xs`, in order, at most one per item. */
  function Gather<T>(xs: seq<T>, f: T -> Option<Card>): (r: seq<Card>)
    ensures |r| <= |xs|
    ensures forall c :: c in r ==> exists k :: 0 <= k < |xs| && f(xs[k]) == Some(c)
  {
    if xs == [] then []
    else
      var init := Gather(xs[..|xs| - 1], f);
      assert forall k :: 0 <= k < |xs| - 1 ==> xs[..|xs| - 1][k] == xs[k];
      match f(xs[|xs| - 1])
      case Some(c) => init + [c]
      case None => init
  }

  /** One more item extends the gathered cards by that item's card, if any. */
  lemma GatherStep<T>(xs: seq<T>, i: nat, f: T -> Option<Card>)
    requires i < |xs|
    ensures Gather(xs[..i + 1], f) == Gather(xs[..i], f) + (match f(xs[i]) case Some(c) => [c] case None => [])
  {
    assert xs[..i + 1][..i] == xs[..i];
  }

  /** Items are handled one at a time and in order: the cards of two runs
      of lines are the cards of the first run followed by those of the second. */
  lemma {:induction false} GatherAppend<T>(xs: seq<T>, ys: seq<T>, f: T -> Option<Card>)
    ensures Gather(xs + ys, f) == Gather(xs, f) + Gather(ys, f)
    decreases |ys|
  {
    if ys == [] {
      assert xs + ys == xs;
    } else {
      var zs, ys' := xs + ys, ys[..|ys| - 1];
      assert zs[..|zs| - 1] == xs + ys';
      var m: seq<Card> := match f(ys[|ys| - 1]) case Some(c) => [c] case None => [];
      assert Gather(zs, f) == Gather(xs + ys', f) + m by {
        assert zs[|zs| - 1] == ys[|ys| - 1];
      }
      assert Gather(ys, f) == Gather(ys', f) + m;
      GatherAppend(xs, ys', f);
    }
  }

  /** A rule that yields a card for every item gathers exactly those cards. */
  lemma {:induction false} GatherAll<T>(xs: seq<T>, f: T -> Option<Card>, cards: seq<Card>)
    requires |cards| == |xs|
    requires forall i :: 0 <= i < |xs| ==> f(xs[i]) == Some(cards[i])
    ensures Gather(xs, f) == cards
  {
    if xs != [] {
      var n := |xs| - 1;
      GatherAll(xs[..n], f, cards[..n]);
      assert cards == cards[..n] + [cards[n]];
    }
  }

  // ---------------------------------------------------------------- TSV

  /** One line of `_parse_tsv_lines`: strip, skip a line without a tab,
      split at the first tab, clean both sides. */
  function TsvCard(raw: string): (r: Option<Card>)
    ensures r.Some? ==> Emitted(r.value)
  {
    var line := Strip(raw);
    if line == [] then None
    else
      match SplitOnce(line, "\t")
      case None => None
      case Some((q, a)) => Accept(CleanPiece(q), CleanPiece(a))
  }

  /** `_parse_tsv_lines` */
  function ParseTsv(text: string): (r: seq<Card>)
    ensures forall c :: c in r ==> Emitted(c)
    ensures |r| <= |SplitLines(text)|
  {
    Gather(SplitLines(text), TsvCard)
  }

  method ParseTsvLines(text: string) returns (out: seq<Card>)
    ensures out == ParseTsv(text)
  {
    out := [];
    var lines := SplitLines(text);
    for i := 0 to |lines|
      invariant out == Gather(lines[..i], TsvCard)
    {
      GatherStep(lines, i, TsvCard);
      match TsvCard(lines[i]) {
        case Some(c) => out := out + [c];
        case None => assert out + [] == out;
      }
    }
    assert lines[..|lines|] == lines;
  }

  /** A line without a tab never yields a card. */
  lemma {:induction false} TsvSkipsLineWithoutTab(raw: string)
    requires '\t' !in raw
    ensures TsvCard(raw) == None
  {
    var line := Strip(raw);
    StripChars(raw);
    forall k | 0 <= k <= |line| ensures !OccursAt(line, "\t", k) {
      if k < |line| {
        assert line[k] in line;
        assert line[k..k + 1][0] == line[k];
      }
    }
  }

  /** Only the first tab separates: the question is everything before it,
      and later tabs stay in the answer. */
  lemma {:induction false} TsvSplitsAtFirstTab(raw: string, q: string, a: string)
    requires Strip(raw) == q + "\t" + a
    requires '\t' !in q
    ensures TsvCard(raw) == Accept(CleanPiece(q), CleanPiece(a))
  {
    var line := q + "\t" + a;
    assert line[|q|..|q| + 1] == "\t";
    forall j | 0 <= j < |q| ensures !OccursAt(line, "\t", j) {
      assert line[j..j + 1][0] == q[j];
      assert q[j] in q;
    }
    SplitOnceAt(line, "\t", |q|);
    assert line[..|q|] == q && line[|q| + 1..] == a;
  }

  /** Inside an answer a tab is whitespace, so cleaning turns it into a space. */
  lemma TabCollapsed()
    ensures CleanPiece("b\tc") == "b c"
  {
    var s := "b\tc";
    assert SkipSpace(s, 0, 3) == 0 && SkipSpaceBack(s, 0, 3) == 3;
    NoPrefixes(s, 0, 3);
    assert SkipSpace(s, 2, 3) == 2;
    assert Collapse(s, 0, 3) == "b c";
    StrippedFixed("b c");
  }

  // ---------------------------------------------------------- Q: .. A: ..

  /** `q = line.split(":", 1)[1].split(marker, 1)[0]` and
      `a = line.split(marker, 1)[1]`; an IndexError, which the source catches
      and skips, is None. */
  function LabelledSplit(line: string, marker: string): (r: Option<Card>)
    requires marker != []
    ensures r.Some? ==> Emitted(r.value)
  {
    match (SplitOnce(line, ":"), SplitOnce(line, marker))
    case (Some((_, afterColon)), Some((_, a))) => Accept(CleanPiece(Before(afterColon, marker)), CleanPiece(a))
    case _ => None
  }

  /** One line of `_parse_q_a_one_line`: `q:` is matched case-insensitively,
      the ` A:` / ` Answer:` separator case-sensitively. */
  function OneLineCard(raw: string): (r: Option<Card>)
    ensures r.Some? ==> Emitted(r.value)
  {
    var line := Strip(raw);
    if line == [] then None
    else if Contains(line, " A:") && LowerStartsWith(line, "q:") then
      LabelledSplit(line, " A:")
    else if Contains(line, " Answer:") && (LowerStartsWith(line, "q:") || LowerStartsWith(line, "question:")) then
      LabelledSplit(line, " Answer:")
    else None
  }

  /** `_parse_q_a_one_line` */
  function ParseOneLine(text: string): (r: seq<Card>)
    ensures forall c :: c in r ==> Emitted(c)
    ensures |r| <= |SplitLines(text)|
  {
    Gather(SplitLines(text), OneLineCard)
  }

  method ParseQAOneLine(text: string) returns (out: seq<Card>)
    ensures out == ParseOneLine(text)
  {
    out := [];
    var lines := SplitLines(text);
    for i := 0 to |lines|
      invariant out == Gather(lines[..i], OneLineCard)
    {
      GatherStep(lines, i, OneLineCard);
      match OneLineCard(lines[i]) {
        case Some(c) => out := out + [c];
        case None => assert out + [] == out;
      }
    }
    assert lines[..|lines|] == lines;
  }

  /** A line `Q:<q> A:<a>` whose question holds no colon yields the card of
      its two cleaned sides. */
  lemma OneLineShape(raw: string, q: string, a: string)
    requires Strip(raw) == "Q:" + q + " A:" + a
    requires ':' !in q
    ensures OneLineCard(raw) == Accept(CleanPiece(q), CleanPiece(a))
  {
    var after := q + " A:" + a;
    var line := "Q:" + after;
    assert line == "Q:" + q + " A:" + a;
    assert LowerStartsWith(line, "q:");
    ColonFirst(after);
    MarkerAfter(q, a);
    SplitOnceAt(after, " A:", |q|);
    assert after[..|q|] == q && after[|q| + 3..] == a;
    MarkerInLine(q, a);
    assert Contains(line, " A:");
    assert LabelledSplit(line, " A:") == Accept(CleanPiece(q), CleanPiece(a));
  }

  /** The first colon of `Q:<rest>` is the label's. */
  lemma ColonFirst(rest: string)
    ensures SplitOnce("Q:" + rest, ":") == Some(("Q", rest))
  {
    var line := "Q:" + rest;
    assert line[1..2] == ":";
    assert !OccursAt(line, ":", 0) by {
      assert line[0..1][0] == 'Q';
    }
    SplitOnceAt(line, ":", 1);
    assert line[..1] == "Q" && line[2..] == rest;
  }

  /** The first " A:" of `Q:<q> A:<a>` is the one after `q` when `q` has no colon. */
  lemma MarkerInLine(q: string, a: string)
    requires ':' !in q
    ensures SplitOnce("Q:" + (q + " A:" + a), " A:") == Some(("Q:" + q, a))
  {
    var after := q + " A:" + a;
    var line := "Q:" + after;
    var n := |q|;
    MarkerAfter(q, a);
    assert line[n + 2..n + 5] == after[n..n + 3];
    forall j | 0 <= j < n + 2 ensures !OccursAt(line, " A:", j) {
      if j >= 2 {
        assert !OccursAt(after, " A:", j - 2);
        if j + 3 <= |line| {
          assert line[j..j + 3] == after[j - 2..j + 1];
        }
      } else {
        assert j + 3 <= |line| ==> line[j..j + 3][0] == line[j];
      }
    }
    SplitOnceAt(line, " A:", n + 2);
    assert line[..n + 2] == "Q:" + q && line[n + 5..] == a;
  }

  /** In `q + " A:" + a` with no colon in `q`, the first " A:" is the one after `q`. */
  lemma MarkerAfter(q: string, a: string)
    requires ':' !in q
    ensures OccursAt(q + " A:" + a, " A:", |q|)
    ensures forall j :: 0 <= j < |q| ==> !OccursAt(q + " A:" + a, " A:", j)
  {
    var s := q + " A:" + a;
    assert s[|q|..|q| + 3] == " A:";
    forall j | 0 <= j < |q| ensures !OccursAt(s, " A:", j) {
      if j + 3 <= |s| {
        assert s[j..j + 3][2] == s[j + 2];
        if j + 2 < |q| {
          assert s[j + 2] == q[j + 2];
        }
      }
    }
  }

  /** A line that does not start with `q:` / `question:` in any case never yields. */
  lemma {:induction false} OneLineNeedsQuestionLabel(raw: string)
    requires !LowerStartsWith(Strip(raw), "q:") && !LowerStartsWith(Strip(raw), "question:")
    ensures OneLineCard(raw) == None
  {
  }

  /** The answer separator is case-sensitive: a lower-case ` a:` is not one. */
  lemma {:induction false} OneLineAnswerLabelIsCaseSensitive(raw: string)
    requires !Contains(Strip(raw), " A:") && !Contains(Strip(raw), " Answer:")
    ensures OneLineCard(raw) == None
  {
  }

  // ------------------------------------------------------ Q: / A: on two lines

  /** A line carrying a question label followed by one carrying an answer label. */
  predicate IsLabelledPair(l1: string, l2: string) {
    QPrefixEnd(l1, 0, |l1|) > 0 && APrefixEnd(l2, 0, |l2|) > 0
  }

  /** The card of a labelled pair: both lines without their labels, cleaned. */
  function PairCard(l1: string, l2: string): (r: Option<Card>)
    ensures r.Some? ==> Emitted(r.value)
  {
    Accept(CleanPiece(l1[QPrefixEnd(l1, 0, |l1|)..]), CleanPiece(l2[APrefixEnd(l2, 0, |l2|)..]))
  }

  /** A line `Q:<q>` followed by a line `A:<a>` is a labelled pair, and its
      card is that of the two cleaned sides. */
  lemma PairShape(q: string, a: string)
    ensures IsLabelledPair("Q:" + q, "A:" + a)
    ensures PairCard("Q:" + q, "A:" + a) == Accept(CleanPiece(q), CleanPiece(a))
  {
    var l1, l2 := "Q:" + q, "A:" + a;
    assert l1[2..] == q && l2[2..] == a;
    LetterLabelEnd(l1, 'q', "uestion");
    LetterLabelEnd(l2, 'a', "nswer");
    CleanAfterLabel(l1, q, QPrefixEnd(l1, 0, |l1|));
    CleanAfterLabel(l2, a, APrefixEnd(l2, 0, |l2|));
  }

  /** The `while` loop of `_parse_q_a_two_lines` from index `i` of `ls`,
      with the pair test and the card of a pair as parameters: a pair is
      consumed as two lines (and yields at most one card); any other line is
      skipped alone. */
  function PairWalk(ls: seq<string>, i: nat, isPair: (string, string) -> bool,
                    card: (string, string) -> Option<Card>): (r: seq<Card>)
    requires i <= |ls|
    ensures |r| <= (|ls| - i) / 2
    decreases |ls| - i
  {
    if i + 1 >= |ls| then []
    else if isPair(ls[i], ls[i + 1]) then
      (match card(ls[i], ls[i + 1]) case Some(c) => [c] case None => []) + PairWalk(ls, i + 2, isPair, card)
    else PairWalk(ls, i + 1, isPair, card)
  }

  /** `_parse_q_a_two_lines` */
  function ParseTwoLines(text: string): (r: seq<Card>)
    ensures forall c :: c in r ==> Emitted(c)
    ensures |r| <= |NonBlank(SplitLines(text))| / 2
  {
    var lines := NonBlank(SplitLines(text));
    PairWalkEmitted(lines, 0);
    PairWalk(lines, 0, IsLabelledPair, PairCard)
  }

  /** Every card of the two-line walk is a kept card. */
  lemma {:induction false} PairWalkEmitted(ls: seq<string>, i: nat)
    requires i <= |ls|
    ensures forall c :: c in PairWalk(ls, i, IsLabelledPair, PairCard) ==> Emitted(c)
    decreases |ls| - i
  {
    if i + 1 < |ls| {
      if IsLabelledPair(ls[i], ls[i + 1]) {
        PairWalkEmitted(ls, i + 2);
      } else {
        PairWalkEmitted(ls, i + 1);
      }
    }
  }

  method ParseQATwoLines(text: string) returns (out: seq<Card>)
    ensures out == ParseTwoLines(text)
  {
    var lines := NonBlank(SplitLines(text));
    out := WalkPairs(lines, IsLabelledPair, PairCard);
  }

  /** The loop itself, over the non-blank lines. */
  method WalkPairs(lines: seq<string>, isPair: (string, string) -> bool,
                   card: (string, string) -> Option<Card>) returns (out: seq<Card>)
    ensures out == PairWalk(lines, 0, isPair, card)
  {
    out := [];
    var i := 0;
    while i < |lines| - 1
      invariant 0 <= i <= |lines|
      invariant out + PairWalk(lines, i, isPair, card) == PairWalk(lines, 0, isPair, card)
    {
      var l1, l2 := lines[i], lines[i + 1];
      if isPair(l1, l2) {
        var c := card(l1, l2);
        ghost var m: seq<Card> := if c.Some? then [c.value] else [];
        ghost var w := PairWalk(lines, i + 2, isPair, card);
        assert PairWalk(lines, i, isPair, card) == m + w;
        var next := if c.Some? then out + [c.value] else out;
        assert next == out + m;
        assert next + w == out + (m + w);
        out, i := next, i + 2;
      } else {
        i := i + 1;
      }
    }
  }

  /** A matched Q/A pair consumes both lines even when it is rejected as
      empty, so a following third line (an `A:` line, say) is not paired
      with anything. `QuestionThenEmptyAnswer` gives such a pair. */
  lemma {:induction false} RejectedPairStillConsumed(l1: string, l2: string, next: string)
    requires IsLabelledPair(l1, l2) && PairCard(l1, l2) == None
    ensures PairWalk([l1, l2, next], 0, IsLabelledPair, PairCard) == []
  {
    var ls := [l1, l2, next];
    assert ls[0] == l1 && ls[1] == l2;
    assert PairWalk(ls, 2, IsLabelledPair, PairCard) == [];
  }

  lemma QuestionThenEmptyAnswer()
    ensures IsLabelledPair("Q: x", "A:") && PairCard("Q: x", "A:") == None
  {
    QuestionLabelEnd();
    BareAnswerLabelEnd();
    EmptyAnswerRejected("Q: x", "A:");
  }

  /** A pair whose answer line is only its label yields no card. */
  lemma EmptyAnswerRejected(l1: string, l2: string)
    requires APrefixEnd(l2, 0, |l2|) == |l2|
    ensures PairCard(l1, l2) == None
  {
    assert l2[|l2|..] == [];
    assert CleanPiece([]) == [];
  }

  lemma QuestionLabelEnd()
    ensures QPrefixEnd("Q: x", 0, 4) == 3
  {
    assert SkipSpace("Q: x", 0, 4) == 0 && SkipSpace("Q: x", 2, 4) == 3;
  }

  lemma BareAnswerLabelEnd()
    ensures APrefixEnd("A:", 0, 2) == 2
  {
    assert SkipSpace("A:", 0, 2) == 0 && SkipSpace("A:", 2, 2) == 2;
  }

  // ------------------------------------------------------ numbered / bulleted

  /** The separators of `_parse_numbered_pairs`, in the order they are tried:
      hyphen, em dash (U+2014), colon, en dash (U+2013), each between spaces. */
  const Separators: seq<string> := [" - ", " \U{2014} ", " : ", " \U{2013} "]

  const QuestionLabels: seq<string> := ["q:", "question:"]
  const AnswerLabels: seq<string> := ["a:", "answer:"]

  lemma SeparatorLength(j: nat)
    requires j < |Separators|
    ensures |Separators[j]| == 3
  {
  }

  /** `x` after `_clean_piece`, and a second `_clean_piece` if it then
      starts with one of `labels` (case-insensitively). */
  function CleanLabelled(x: string, labels: seq<string>): (r: string)
    ensures IsClean(r)
  {
    var c := CleanPiece(x);
    if exists k :: 0 <= k < |labels| && LowerStartsWith(c, labels[k]) then CleanPiece(c) else c
  }

  /** The inner `for sep in [...]` loop from separator `j` on: split at the
      first separator in list order that occurs anywhere in the line, then
      stop. */
  function SplitAtSeparator(line: string, j: nat): (r: Option<Card>)
    requires j <= |Separators|
    ensures r.Some? ==> Emitted(r.value)
    decreases |Separators| - j
  {
    if j == |Separators| then None
    else
      SeparatorLength(j);
      match SplitOnce(line, Separators[j])
      case None => SplitAtSeparator(line, j + 1)
      case Some((q, a)) => Accept(CleanLabelled(q, QuestionLabels), CleanLabelled(a, AnswerLabels))
  }

  /** One line of `_parse_numbered_pairs`: strip, drop one numbering/bullet
      prefix, split at a separator. */
  function NumberedCard(raw: string): (r: Option<Card>)
    ensures r.Some? ==> Emitted(r.value)
  {
    var line := Strip(raw);
    if line == [] then None
    else SplitAtSeparator(line[NumPrefixEnd(line, 0, |line|)..], 0)
  }

  /** A line `<n>) <q> - <a>`, with `n` ASCII digits and a question that
      does not start with whitespace and holds no hyphen, loses its
      numbering and is split at the hyphen: the card of the two cleaned
      sides (each cleaned once more if it then starts with a Q or A label). */
  lemma NumberedShape(raw: string, n: string, q: string, a: string)
    requires Strip(raw) == n + ") " + q + " - " + a
    requires n != [] && forall k :: 0 <= k < |n| ==> '0' <= n[k] <= '9'
    requires q != [] && !IsSpace(q[0]) && '-' !in q
    ensures NumberedCard(raw) == Accept(CleanLabelled(q, QuestionLabels), CleanLabelled(a, AnswerLabels))
  {
    var rest := q + " - " + a;
    var line := n + ") " + rest;
    assert line == n + ") " + q + " - " + a;
    assert rest[0] == q[0];
    NumberingEnd(n, rest);
    assert line[|n| + 2..] == rest;
    HyphenFirst(q, a);
    assert Separators[0] == " - ";
  }

  /** `<n>) ` is one numbering prefix, the space after it included. */
  lemma NumberingEnd(n: string, rest: string)
    requires n != [] && forall k :: 0 <= k < |n| ==> '0' <= n[k] <= '9'
    requires rest != [] && !IsSpace(rest[0])
    ensures var line := n + ") " + rest;
            NumPrefixEnd(line, 0, |line|) == |n| + 2
  {
    var line := n + ") " + rest;
    var m := |n|;
    assert line[0] == n[0] && line[m] == ')' && line[m + 1] == ' ' && line[m + 2] == rest[0];
    assert SkipSpace(line, 0, |line|) == 0;
    forall k | 0 <= k < m ensures IsDecimalDigit(line[k]) {
      assert line[k] == n[k];
    }
    SkipDigitsTo(line, 0, m, |line|);
    assert NumberOrBulletLen(line, 0, |line|) == m + 1;
    assert SkipSpace(line, m + 2, |line|) == m + 2;
  }

  /** In `q + " - " + a` with no hyphen in `q`, the first " - " is the one after `q`. */
  lemma HyphenFirst(q: string, a: string)
    requires '-' !in q
    ensures SplitOnce(q + " - " + a, " - ") == Some((q, a))
  {
    var s := q + " - " + a;
    assert s[|q|..|q| + 3] == " - ";
    forall j | 0 <= j < |q| ensures !OccursAt(s, " - ", j) {
      if j + 3 <= |s| {
        assert s[j..j + 3][1] == s[j + 1];
        if j + 1 < |q| {
          assert s[j + 1] == q[j + 1];
        }
      }
    }
    SplitOnceAt(s, " - ", |q|);
    assert s[..|q|] == q && s[|q| + 3..] == a;
  }

  /** `_parse_numbered_pairs` */
  function ParseNumbered(text: string): (r: seq<Card>)
    ensures forall c :: c in r ==> Emitted(c)
    ensures |r| <= |SplitLines(text)|
  {
    Gather(SplitLines(text), NumberedCard)
  }

  /** The inner `for sep in [...]` loop of `_parse_numbered_pairs` on one
      line whose prefix has been dropped. */
  method SplitLine(line: string) returns (card: Option<Card>)
    ensures card == SplitAtSeparator(line, 0)
  {
    var j := 0;
    while j < |Separators|
      invariant 0 <= j <= |Separators|
      invariant SplitAtSeparator(line, j) == SplitAtSeparator(line, 0)
    {
      var sep := Separators[j];
      SeparatorLength(j);
      if Contains(line, sep) {
        var (q, a) := SplitOnce(line, sep).value;
        return Accept(CleanLabelled(q, QuestionLabels), CleanLabelled(a, AnswerLabels));
      }
      j := j + 1;
    }
    return None;
  }

  method ParseNumberedPairs(text: string) returns (out: seq<Card>)
    ensures out == ParseNumbered(text)
  {
    out := [];
    var lines := SplitLines(text);
    for i := 0 to |lines|
      invariant out == Gather(lines[..i], NumberedCard)
    {
      GatherStep(lines, i, NumberedCard);
      var line := Strip(lines[i]);
      if line == [] {
        assert out + [] == out;
        continue;
      }
      line := line[NumPrefixEnd(line, 0, |line|)..];
      var card := SplitLine(line);
      if card.Some? {
        out := out + [card.value];
      } else {
        assert out + [] == out;
      }
    }
    assert lines[..|lines|] == lines;
  }

  /** The separator is chosen by list order, not by position: " - " wins
      over an earlier " : ". */
  lemma NumberedSeparatorByListOrder()
    ensures SplitAtSeparator("x : y - z", 0) == Some(Card("x : y", "z", 0))
  {
    SplitAtHyphen();
    PlainXY();
    PlainZ();
  }

  lemma PlainXY()
    ensures CleanLabelled("x : y", QuestionLabels) == "x : y"
  {
    var x := "x : y";
    assert IsClean(x) by {
      assert !SpacePairAt(x, 1) && !SpacePairAt(x, 2) && !SpacePairAt(x, 3);
    }
    NoPrefixes(x, 0, 5);
    assert x[0..5] == x;
    CleanRangeFixed(x, 0, 5);
  }

  lemma PlainZ()
    ensures CleanLabelled("z", AnswerLabels) == "z"
  {
    NoPrefixes("z", 0, 1);
    assert "z"[0..1] == "z";
    CleanRangeFixed("z", 0, 1);
  }

  lemma SplitAtHyphen()
    ensures SplitOnce("x : y - z", " - ") == Some(("x : y", "z"))
  {
    var line := "x : y - z";
    assert line[5..8] == " - ";
    forall j | 0 <= j < 5 ensures !OccursAt(line, " - ", j) {
      assert line[j..j + 3][1] == line[j + 1] != '-';
    }
    SplitOnceAt(line, " - ", 5);
    assert line[..5] == "x : y" && line[8..] == "z";
  }

  // ---------------------------------------------------------------- JSON

  /** A decoded JSON value. Numbers carry the text Python's `str()` gives them. */
  datatype Json =
    | JNull
    | JBool(b: bool)
    | JNumber(text: string)
    | JString(s: string)
    | JArray(items: seq<Json>)
    | JObject(fields: map<string, Json>)

  /** Python's `str()` of a decoded value; lists and dicts are rendered by `reprOf`. */
  function PyStr(v: Json, reprOf: Json -> string): string {
    match v
    case JString(s) => s
    case JNull => "None"
    case JBool(b) => if b then "True" else "False"
    case JNumber(t) => t
    case _ => reprOf(v)
  }

  /** `str(item.get(key, ""))` */
  function Field(fields: map<string, Json>, key: string, reprOf: Json -> string): string {
    if key in fields then PyStr(fields[key], reprOf) else ""
  }

  /** One item of the decoded list: only dicts count, read at "question" and "answer". */
  function JsonItemCard(item: Json, reprOf: Json -> string): (r: Option<Card>)
    ensures r.Some? ==> Emitted(r.value)
    ensures !item.JObject? ==> r == None
  {
    match item
    case JObject(fields) =>
      Accept(CleanPiece(Field(fields, "question", reprOf)), CleanPiece(Field(fields, "answer", reprOf)))
    case _ => None
  }

  /** `c` occurs at `i` and nowhere before. */
  predicate FirstAt(s: string, c: char, i: int) {
    0 <= i < |s| && s[i] == c && c !in s[..i]
  }

  /** `c` occurs at `j` and nowhere after. */
  predicate LastAt(s: string, c: char, j: int) {
    0 <= j < |s| && s[j] == c && c !in s[j + 1..]
  }

  lemma FirstAtUnique(s: string, c: char, i: int)
    ensures forall k :: FirstAt(s, c, i) && FirstAt(s, c, k) ==> k == i
  {
    forall k | FirstAt(s, c, i) && FirstAt(s, c, k) ensures k == i {
      assert forall m :: 0 <= m < i ==> s[..i][m] == s[m];
      assert forall m :: 0 <= m < k ==> s[..k][m] == s[m];
    }
  }

  lemma LastAtUnique(s: string, c: char, j: int)
    ensures forall k :: LastAt(s, c, j) && LastAt(s, c, k) ==> k == j
  {
    forall k | LastAt(s, c, j) && LastAt(s, c, k) ensures k == j {
      assert forall m :: j < m < |s| ==> s[j + 1..][m - j - 1] == s[m];
      assert forall m :: k < m < |s| ==> s[k + 1..][m - k - 1] == s[m];
    }
  }

  /** The value `_parse_json_list` works on: `loads(text)`, or when that
      fails, `loads` of the slice from the first "[" to the last "]"; None
      when neither decodes. `loads` stands for `json.loads`. */
  function JsonPayload(text: string, loads: string -> Option<Json>): (r: Option<Json>)
    ensures loads(text).Some? ==> r == loads(text)
    ensures loads(text).None? && ('[' !in text || ']' !in text) ==> r == None
    ensures forall i, j :: loads(text).None? && FirstAt(text, '[', i) && LastAt(text, ']', j) ==>
              r == if i < j then loads(text[i..j + 1]) else None
  {
    FirstAtUnique(text, '[', FindChar(text, '['));
    LastAtUnique(text, ']', RFindChar(text, ']'));
    match loads(text)
    case Some(v) => Some(v)
    case None =>
      var start, end := FindChar(text, '['), RFindChar(text, ']');
      if start != -1 && end != -1 && end > start then loads(text[start..end + 1]) else None
  }

  /** `_parse_json_list` */
  function ParseJson(text: string, loads: string -> Option<Json>, reprOf: Json -> string): (r: seq<Card>)
    ensures forall c :: c in r ==> Emitted(c)
  {
    match JsonPayload(text, loads)
    case Some(JArray(items)) => Gather(items, (item: Json) => JsonItemCard(item, reprOf))
    case _ => []
  }

  /** A dict whose "question" and "answer" are the strings `q` and `a`. */
  predicate IsQA(item: Json, q: string, a: string) {
    && item.JObject?
    && "question" in item.fields && item.fields["question"] == JString(q)
    && "answer" in item.fields && item.fields["answer"] == JString(a)
  }

  /** Such a dict yields the card of the two cleaned strings. */
  lemma JsonItemShape(item: Json, q: string, a: string, reprOf: Json -> string)
    requires IsQA(item, q, a)
    ensures JsonItemCard(item, reprOf) == Accept(CleanPiece(q), CleanPiece(a))
  {
    var fields := item.fields;
    assert Field(fields, "question", reprOf) == PyStr(JString(q), reprOf) == q;
    assert Field(fields, "answer", reprOf) == PyStr(JString(a), reprOf) == a;
  }

  /** A reply that decodes to a list of such dicts, each with something
      left on both sides after cleaning, yields one card per dict, in order. */
  lemma JsonListShape(text: string, loads: string -> Option<Json>, reprOf: Json -> string,
                      items: seq<Json>, qs: seq<string>, ans: seq<string>)
    requires loads(text) == Some(JArray(items))
    requires |qs| == |items| && |ans| == |items|
    requires forall i :: 0 <= i < |items| ==> IsQA(items[i], qs[i], ans[i])
    requires forall i :: 0 <= i < |items| ==> CleanPiece(qs[i]) != [] && CleanPiece(ans[i]) != []
    ensures ParseJson(text, loads, reprOf)
            == seq(|items|, i requires 0 <= i < |items| => Card(CleanPiece(qs[i]), CleanPiece(ans[i]), 0))
  {
    var cards := seq(|items|, i requires 0 <= i < |items| => Card(CleanPiece(qs[i]), CleanPiece(ans[i]), 0));
    var f := (item: Json) => JsonItemCard(item, reprOf);
    forall i | 0 <= i < |items| ensures f(items[i]) == Some(cards[i]) {
      JsonItemShape(items[i], qs[i], ans[i], reprOf);
    }
    GatherAll(items, f, cards);
  }

  /** The `try` / `except JSONDecodeError` part of `_parse_json_list`. */
  method LoadPayload(text: string, loads: string -> Option<Json>) returns (data: Option<Json>)
    ensures data == JsonPayload(text, loads)
  {
    data := loads(text);
    if data.None? {
      var start, end := FindChar(text, '['), RFindChar(text, ']');
      if start != -1 && end != -1 && end > start {
        data := loads(text[start..end + 1]);
      }
    }
  }

  method ParseJsonList(text: string, loads: string -> Option<Json>, reprOf: Json -> string) returns (out: seq<Card>)
    ensures out == ParseJson(text, loads, reprOf)
  {
    var data := LoadPayload(text, loads);
    if data.None? || !data.value.JArray? {
      return [];
    }
    var items := data.value.items;
    var f := (item: Json) => JsonItemCard(item, reprOf);
    out := [];
    for i := 0 to |items|
      invariant out == Gather(items[..i], f)
    {
      GatherStep(items, i, f);
      var card := ItemCard(items[i], reprOf);
      if card.Some? {
        out := out + [card.value];
      } else {
        assert out + [] == out;
      }
    }
    assert items[..|items|] == items;
  }

  /** The loop body of `_parse_json_list` for one item. */
  method ItemCard(item: Json, reprOf: Json -> string) returns (card: Option<Card>)
    ensures card == JsonItemCard(item, reprOf)
  {
    card := None;
    if item.JObject? {
      var q := CleanPiece(Field(item.fields, "question", reprOf));
      var a := CleanPiece(Field(item.fields, "answer", reprOf));
      if q != [] && a != [] {
        card := Some(Card(q, a, 0));
      }
    }
  }
}
