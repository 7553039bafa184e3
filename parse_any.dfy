/** `_robust_parse_any` of utils/llm.py: the five extractors tried in a
    fixed order, strict formats first; the first one that finds any card
    decides the result on its own. */
module Robust {
  import opened Wrappers
  import opened Text
  import opened Prefixes
  import opened Extractors

  /** The extractors in the order they are tried: TSV, one-line Q/A,
      two-line Q/A, numbered pairs, JSON list. `loads` stands for
      `json.loads` and `reprOf` for `str()` of a list or dict. */
  function Parsers(loads: string -> Option<Json>, reprOf: Json -> string): (ps: seq<string -> seq<Card>>)
    ensures |ps| == 5
  {
    [ParseTsv, ParseOneLine, ParseTwoLines, ParseNumbered, (t: string) => ParseJson(t, loads, reprOf)]
  }

  /** What each of `parsers` gives on `text`, in order. */
  function Outputs(parsers: seq<string -> seq<Card>>, text: string): (rs: seq<seq<Card>>)
    ensures |rs| == |parsers| && forall k :: 0 <= k < |rs| ==> rs[k] == parsers[k](text)
  {
    seq(|parsers|, k requires 0 <= k < |parsers| => parsers[k](text))
  }

  /** The first non-empty result of `rs`, or `[]` when all are empty. */
  function FirstNonEmpty(rs: seq<seq<Card>>): (r: seq<Card>)
    ensures r == [] <==> forall k :: 0 <= k < |rs| ==> rs[k] == []
    ensures r != [] ==> exists k :: 0 <= k < |rs| && r == rs[k] && forall j :: 0 <= j < k ==> rs[j] == []
  {
    if rs == [] then []
    else if rs[0] != [] then rs[0]
    else
      var r := FirstNonEmpty(rs[1..]);
      assert forall k :: 0 < k < |rs| ==> rs[k] == rs[1..][k - 1];
      r
  }

  /** `_robust_parse_any` */
  function ParseAny(text: string, loads: string -> Option<Json>, reprOf: Json -> string): (r: seq<Card>)
    ensures forall c :: c in r ==> Emitted(c)
  {
    var rs := Outputs(Parsers(loads, reprOf), text);
    var r := FirstNonEmpty(rs);
    assert r != [] ==> r in rs;
    r
  }

  /** The loop with its early return. */
  method RobustParseAny(text: string, loads: string -> Option<Json>, reprOf: Json -> string) returns (cards: seq<Card>)
    ensures cards == ParseAny(text, loads, reprOf)
  {
    cards := FirstFound(Parsers(loads, reprOf), text);
  }

  /** `for p in parsers: cards = p(text); if cards: return cards`, then `return []`. */
  method FirstFound(parsers: seq<string -> seq<Card>>, text: string) returns (cards: seq<Card>)
    ensures cards == FirstNonEmpty(Outputs(parsers, text))
  {
    ghost var rs := Outputs(parsers, text);
    for i := 0 to |parsers|
      invariant forall j :: 0 <= j < i ==> rs[j] == []
    {
      cards := parsers[i](text);
      if cards != [] {
        FirstNonEmptyAt(rs, i);
        return;
      }
    }
    return [];
  }

  /** What each extractor gives, by position. */
  lemma OutputsInOrder(text: string, loads: string -> Option<Json>, reprOf: Json -> string)
    ensures var rs := Outputs(Parsers(loads, reprOf), text);
            && |rs| == 5
            && rs[0] == ParseTsv(text) && rs[1] == ParseOneLine(text) && rs[2] == ParseTwoLines(text)
            && rs[3] == ParseNumbered(text) && rs[4] == ParseJson(text, loads, reprOf)
  {
    var ps := Parsers(loads, reprOf);
    var rs := Outputs(ps, text);
    assert ps[0] == ParseTsv && ps[1] == ParseOneLine && ps[2] == ParseTwoLines && ps[3] == ParseNumbered;
    assert rs[4] == ps[4](text);
  }

  /** The first non-empty result is the one at the first index whose result is non-empty. */
  lemma {:induction false} FirstNonEmptyAt(rs: seq<seq<Card>>, i: nat)
    requires i < |rs| && rs[i] != []
    requires forall j :: 0 <= j < i ==> rs[j] == []
    ensures FirstNonEmpty(rs) == rs[i]
  {
    if i > 0 {
      assert rs[0] == [];
      FirstNonEmptyAt(rs[1..], i - 1);
    }
  }

  /** A reply with TSV cards is read as TSV only, whatever else it holds. */
  lemma TsvWins(text: string, loads: string -> Option<Json>, reprOf: Json -> string)
    requires ParseTsv(text) != []
    ensures ParseAny(text, loads, reprOf) == ParseTsv(text)
  {
    FirstNonEmptyAt(Outputs(Parsers(loads, reprOf), text), 0);
  }

  /** The JSON extractor decides only when all four line formats find nothing. */
  lemma JsonLast(text: string, loads: string -> Option<Json>, reprOf: Json -> string)
    requires ParseTsv(text) == [] && ParseOneLine(text) == [] && ParseTwoLines(text) == [] && ParseNumbered(text) == []
    ensures ParseAny(text, loads, reprOf) == ParseJson(text, loads, reprOf)
  {
    var rs := Outputs(Parsers(loads, reprOf), text);
    assert rs[0] == [] && rs[1] == [] && rs[2] == [] && rs[3] == [];
    LastDecides(rs);
  }

  lemma LastDecides(rs: seq<seq<Card>>)
    requires |rs| == 5 && rs[0] == [] && rs[1] == [] && rs[2] == [] && rs[3] == []
    ensures FirstNonEmpty(rs) == rs[4]
  {
    if rs[4] != [] {
      FirstNonEmptyAt(rs, 4);
    }
  }

  /** Results are never merged: the answer is exactly one extractor's
      output, and every extractor tried before it found nothing. */
  lemma NeverMerged(text: string, loads: string -> Option<Json>, reprOf: Json -> string)
    ensures var rs := Outputs(Parsers(loads, reprOf), text);
            var r := ParseAny(text, loads, reprOf);
            (r == [] && forall k :: 0 <= k < 5 ==> rs[k] == [])
            || exists k :: 0 <= k < 5 && r == rs[k] && forall j :: 0 <= j < k ==> rs[j] == []
  {
  }

  // ---------------------------------------------------------------
  // Two worked examples
  // ---------------------------------------------------------------

  /** "Q: What is 2+2? A: 4" is read by the one-line extractor as the card
      ("What is 2+2?", "4"); the TSV extractor, tried first, finds nothing. */
  lemma OneLineExample(text: string, loads: string -> Option<Json>, reprOf: Json -> string)
    requires text == "Q: What is 2+2? A: 4"
    ensures ParseAny(text, loads, reprOf) == [Card("What is 2+2?", "4", 0)]
  {
    var w1, w2 := "What is 2+2?", "4";
    OneLineExampleText(text, w1, w2);
    ExampleQuestion(w1);
    ExampleAnswer(w2);
    LabelledLine(text, w1, w2);
    OneLineOnly(text, " " + w1, " " + w2);
    SecondDecides(text, loads, reprOf);
  }

  lemma OneLineExampleText(text: string, w1: string, w2: string)
    requires text == "Q: What is 2+2? A: 4" && w1 == "What is 2+2?" && w2 == "4"
    ensures text == "Q:" + (" " + w1) + " A:" + (" " + w2) && ':' !in w1
  {
  }

  /** `Q: q A: a` with clean non-empty sides is one stripped line without a tab. */
  lemma LabelledLine(text: string, q: string, a: string)
    requires text == "Q:" + (" " + q) + " A:" + (" " + a)
    requires IsClean(q) && IsClean(a) && q != [] && a != []
    ensures NoLineBreak(text) && '\t' !in text && IsStripped(text) && text != []
  {
    assert SingleSpaced("Q:") && SingleSpaced(" ") && SingleSpaced(" A:");
    SingleSpacedAppend("Q:", " ");
    SingleSpacedAppend("Q:" + " ", q);
    SingleSpacedAppend("Q:" + " " + q, " A:");
    SingleSpacedAppend("Q:" + " " + q + " A:", " ");
    SingleSpacedAppend("Q:" + " " + q + " A:" + " ", a);
    assert text == "Q:" + " " + q + " A:" + " " + a;
    SingleSpacedLine(text);
    assert text[|text| - 1] == a[|a| - 1];
  }

  /** A single stripped line `Q:q A:a` with non-empty cleaned sides is read
      by the one-line extractor as their card, and not as TSV. */
  lemma OneLineOnly(text: string, q: string, a: string)
    requires text == "Q:" + q + " A:" + a && NoLineBreak(text) && '\t' !in text && IsStripped(text)
    requires ':' !in q && CleanPiece(q) != [] && CleanPiece(a) != []
    ensures ParseTsv(text) == []
    ensures ParseOneLine(text) == [Card(CleanPiece(q), CleanPiece(a), 0)]
  {
    SingleLine(text);
    TsvSkipsLineWithoutTab(text);
    StrippedFixed(text);
    OneLineShape(text, q, a);
    GatherOne(text, OneLineCard);
    GatherOne(text, TsvCard);
  }

  /** "1) Photosynthesis - converts light to energy" is read by the numbered
      extractor as the card ("Photosynthesis", "converts light to energy");
      the three extractors tried before it find nothing. */
  lemma NumberedExample(text: string, loads: string -> Option<Json>, reprOf: Json -> string)
    requires text == "1) " + "Photosynthesis" + " - " + "converts light to energy"
    ensures ParseAny(text, loads, reprOf) == [Card("Photosynthesis", "converts light to energy", 0)]
  {
    var q, a := "Photosynthesis", "converts light to energy";
    NumberedExampleSides(q, a);
    PlainSide(q);
    PlainSide(a);
    NumberedLine(text, q, a);
    NumberedLineOnly(text, q, a);
    FourthDecides(text, loads, reprOf);
  }

  lemma NumberedExampleSides(q: string, a: string)
    requires q == "Photosynthesis" && a == "converts light to energy"
    ensures IsClean(q) && IsClean(a) && q != [] && a != []
    ensures q[0] == 'P' && a[0] == 'c' && '-' !in q
  {
    ExampleWords([q], q);
    ExampleWords(["converts", "light", "to", "energy"], a);
  }

  /** `1) q - a` with clean non-empty sides is one stripped line without a tab. */
  lemma NumberedLine(text: string, q: string, a: string)
    requires text == "1) " + q + " - " + a
    requires IsClean(q) && IsClean(a) && q != [] && a != []
    ensures text == "1" + ") " + q + " - " + a
    ensures NoLineBreak(text) && '\t' !in text && IsStripped(text) && text != [] && text[0] == '1'
  {
    assert "1) " == "1" + ") ";
    assert SingleSpaced("1) ") && SingleSpaced(" - ");
    SingleSpacedAppend("1) ", q);
    SingleSpacedAppend("1) " + q, " - ");
    SingleSpacedAppend("1) " + q + " - ", a);
    SingleSpacedLine(text);
    assert text[|text| - 1] == a[|a| - 1];
  }

  /** A single stripped line `1) q - a` with clean sides is read by the
      numbered extractor alone. */
  lemma NumberedLineOnly(text: string, q: string, a: string)
    requires text == "1" + ") " + q + " - " + a && NoLineBreak(text) && '\t' !in text && IsStripped(text)
    requires text != [] && text[0] == '1'
    requires q != [] && !IsSpace(q[0]) && '-' !in q && a != []
    requires CleanLabelled(q, QuestionLabels) == q && CleanLabelled(a, AnswerLabels) == a
    ensures ParseTsv(text) == [] && ParseOneLine(text) == [] && ParseTwoLines(text) == []
    ensures ParseNumbered(text) == [Card(q, a, 0)]
  {
    SingleLine(text);
    TsvSkipsLineWithoutTab(text);
    StrippedFixed(text);
    NumberedExampleUnlabelled(text);
    OneLineNeedsQuestionLabel(text);
    NumberedShape(text, "1", q, a);
    GatherOne(text, NumberedCard);
    GatherOne(text, OneLineCard);
    GatherOne(text, TsvCard);
  }

  lemma NumberedExampleUnlabelled(text: string)
    requires text != [] && text[0] == '1'
    ensures !LowerStartsWith(text, "q:") && !LowerStartsWith(text, "question:")
  {
    assert AsciiUpper('q') == 'Q';
  }

  /** The one-line extractor decides when the TSV extractor finds nothing and it finds something. */
  lemma SecondDecides(text: string, loads: string -> Option<Json>, reprOf: Json -> string)
    requires ParseTsv(text) == [] && ParseOneLine(text) != []
    ensures ParseAny(text, loads, reprOf) == ParseOneLine(text)
  {
    var rs := Outputs(Parsers(loads, reprOf), text);
    OutputsInOrder(text, loads, reprOf);
    FirstNonEmptyAt(rs, 1);
  }

  /** The numbered extractor decides when the three extractors before it find nothing and it finds something. */
  lemma FourthDecides(text: string, loads: string -> Option<Json>, reprOf: Json -> string)
    requires ParseTsv(text) == [] && ParseOneLine(text) == [] && ParseTwoLines(text) == [] && ParseNumbered(text) != []
    ensures ParseAny(text, loads, reprOf) == ParseNumbered(text)
  {
    var rs := Outputs(Parsers(loads, reprOf), text);
    OutputsInOrder(text, loads, reprOf);
    FirstNonEmptyAt(rs, 3);
  }

  /** One line gives the card its rule gives, or none. */
  lemma GatherOne<T>(x: T, f: T -> Option<Card>)
    ensures Gather([x], f) == if f(x).Some? then [f(x).value] else []
  {
    assert [x][..0] == [];
  }

  /** A text without line boundaries is one line. */
  lemma SingleLine(s: string)
    requires s != [] && NoLineBreak(s)
    ensures SplitLines(s) == [s]
  {
    NoBreakFirstBreak(s);
  }

  lemma ExampleQuestion(w: string)
    requires w == "What is 2+2?"
    ensures CleanPiece(" " + w) == w && IsClean(w) && w != []
  {
    ExampleWords(["What", "is", "2+2?"], w);
    assert w[0] == 'W';
    NoPrefixes(w, 0, |w|);
    assert w[0..|w|] == w;
    CleanRangeFixed(w, 0, |w|);
    CleanAfterSpace(w);
  }

  /** A space in front of a side changes nothing. */
  lemma CleanAfterSpace(w: string)
    ensures CleanPiece(" " + w) == CleanPiece(w)
  {
    var q := " " + w;
    assert q[1..] == w;
    CleanPieceDropSpace(q, 1);
  }

  lemma ExampleAnswer(w: string)
    requires w == "4"
    ensures CleanPiece(" " + w) == w && IsClean(w) && w != []
  {
    CleanAfterSpace(w);
    assert SkipSpace(w, 0, 1) == 0 && SkipDigits(w, 0, 1) == 1;
    assert PrefixesEnd(w, 0, 1) == 0;
    assert w[0..1] == w;
    CleanRangeFixed(w, 0, 1);
  }

  /** A clean side that starts with a letter other than q or a is left as
      it is, labels included. */
  lemma PlainSide(x: string)
    requires IsClean(x) && x != [] && ('b' <= x[0] <= 'z' || 'B' <= x[0] <= 'Z')
    requires x[0] != 'q' && x[0] != 'Q'
    ensures CleanLabelled(x, QuestionLabels) == x && CleanLabelled(x, AnswerLabels) == x
  {
    NoPrefixes(x, 0, |x|);
    assert x[0..|x|] == x;
    CleanRangeFixed(x, 0, |x|);
  }

  /** The example sides are words joined by single spaces. */
  lemma ExampleWords(ws: seq<string>, x: string)
    requires ws == ["What", "is", "2+2?"] || ws == ["Photosynthesis"] || ws == ["converts", "light", "to", "energy"]
    requires x == Join(ws, " ")
    ensures IsClean(x)
  {
    forall i | 0 <= i < |ws| ensures IsWord(ws[i]) {
    }
    WordsClean(ws);
  }
}
