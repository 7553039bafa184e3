/** utils/export.py: the Anki text export and the column choice of the
    CSV export. */
module Export {
  import opened Wrappers
  import opened Text
  import opened Prefixes
  import opened Extractors
  import opened Formatting

  /** Decimal digits of `n`, as Python's `str` of a whole number prints them. */
  function NatDigits(n: nat): (r: string)
    ensures r != [] && forall k :: 0 <= k < |r| ==> '0' <= r[k] <= '9'
  {
    var d := ['0' + (n % 10) as char];
    if n < 10 then d else NatDigits(n / 10) + d
  }

  /** `f"{cell}"`: text as it is, a number in decimal, a missing cell as `None`. */
  function Show(c: Cell): (r: string)
    ensures c.Text? ==> r == c.s
    ensures c.Number? ==> && r != []
                          && (r[0] == '-' <==> c.n < 0)
                          && forall k :: 0 < k < |r| ==> '0' <= r[k] <= '9'
  {
    match c
    case Text(s) => s
    case Number(n) => if n < 0 then "-" + NatDigits(-n) else NatDigits(n)
    case Missing => "None"
  }

  /** `f"{q}\t{a}"` for one row. */
  function AnkiLine(row: Row): (line: string)
    ensures '\t' in line
  {
    var line := Show(Get(row, "question")) + "\t" + Show(Get(row, "answer"));
    assert line[|Show(Get(row, "question"))|] == '\t';
    line
  }

  /** `to_anki_txt_bytes`: one line per row, in row order, joined by "\n"
      with no trailing newline. The question and answer columns must exist. */
  function AnkiText(t: Table): (txt: string)
    requires "question" in t.columns && "answer" in t.columns
    ensures txt == [] <==> t.rows == []
  {
    var lines := seq(|t.rows|, i requires 0 <= i < |t.rows| => AnkiLine(t.rows[i]));
    JoinEmpty(lines);
    Join(lines, "\n")
  }

  /** A join of lines that each hold a tab is empty only when there are no lines. */
  lemma JoinEmpty(lines: seq<string>)
    requires forall k :: 0 <= k < |lines| ==> '\t' in lines[k]
    ensures Join(lines, "\n") == [] <==> lines == []
  {
    if |lines| > 1 {
      assert Join(lines, "\n") == lines[0] + "\n" + Join(lines[1..], "\n");
    }
  }

  /** Only the question and answer cells reach the Anki text: two tables
      that agree on them export the same text, whatever their other
      columns hold. */
  lemma AnkiIgnoresOtherColumns(t: Table, u: Table)
    requires "question" in t.columns && "answer" in t.columns
    requires "question" in u.columns && "answer" in u.columns
    requires |t.rows| == |u.rows|
    requires forall i :: 0 <= i < |t.rows| ==>
               Get(t.rows[i], "question") == Get(u.rows[i], "question") && Get(t.rows[i], "answer") == Get(u.rows[i], "answer")
    ensures AnkiText(t) == AnkiText(u)
  {
    var lt := seq(|t.rows|, i requires 0 <= i < |t.rows| => AnkiLine(t.rows[i]));
    var lu := seq(|u.rows|, i requires 0 <= i < |u.rows| => AnkiLine(u.rows[i]));
    assert lt == lu;
  }

  /** A side that survives the trip through the Anki text unchanged: non-empty,
      one line, no tab, and already in the form `_clean_piece` produces. */
  predicate Portable(s: string) {
    s != [] && NoLineBreak(s) && '\t' !in s && CleanPiece(s) == s
  }

  /** The text cards that a table holds, in row order. */
  function TextCards(t: Table): seq<Card>
    requires forall i :: 0 <= i < |t.rows| ==> Get(t.rows[i], "question").Text? && Get(t.rows[i], "answer").Text?
  {
    seq(|t.rows|, i requires 0 <= i < |t.rows| => Card(Get(t.rows[i], "question").s, Get(t.rows[i], "answer").s, 0))
  }

  /** Reading the Anki text back with the TSV extractor gives every row's
      question and answer, in order, with chunk 0, when each side is
      portable. */
  lemma AnkiRoundTrip(t: Table)
    requires "question" in t.columns && "answer" in t.columns
    requires forall i :: 0 <= i < |t.rows| ==>
               && Get(t.rows[i], "question").Text? && Portable(Get(t.rows[i], "question").s)
               && Get(t.rows[i], "answer").Text? && Portable(Get(t.rows[i], "answer").s)
    ensures ParseTsv(AnkiText(t)) == TextCards(t)
  {
    var lines := seq(|t.rows|, i requires 0 <= i < |t.rows| => AnkiLine(t.rows[i]));
    var cards := TextCards(t);
    forall i | 0 <= i < |lines|
      ensures NoLineBreak(lines[i]) && lines[i] != [] && TsvCard(lines[i]) == Some(cards[i])
    {
      LineRoundTrip(Get(t.rows[i], "question").s, Get(t.rows[i], "answer").s);
    }
    SplitLinesOfJoin(lines);
    GatherAll(lines, TsvCard, cards);
  }

  /** One line `q + "\t" + a` reads back as the card (q, a). */
  lemma LineRoundTrip(q: string, a: string)
    requires Portable(q) && Portable(a)
    ensures var line := q + "\t" + a;
            NoLineBreak(line) && line != [] && TsvCard(line) == Some(Card(q, a, 0))
  {
    assert IsClean(CleanPiece(q)) && IsClean(CleanPiece(a));
    LineShape(q, a);
    StrippedFixed(q + "\t" + a);
    TsvSplitsAtFirstTab(q + "\t" + a, q, a);
  }

  /** Two stripped one-line sides joined by a tab make a stripped line. */
  lemma LineShape(q: string, a: string)
    requires q != [] && a != [] && IsStripped(q) && IsStripped(a)
    requires NoLineBreak(q) && NoLineBreak(a) && '\t' !in q
    ensures var line := q + "\t" + a;
            NoLineBreak(line) && IsStripped(line)
  {
    var line := q + "\t" + a;
    assert forall k :: 0 <= k < |line| ==> line[k] == (if k < |q| then q[k] else if k == |q| then '\t' else a[k - |q| - 1]);
    assert line[0] == q[0] && line[|line| - 1] == a[|a| - 1];
  }

  // ---------------------------------------------------------------
  // to_csv_bytes: which columns are written
  // ---------------------------------------------------------------

  /** The exported columns: `front`/`back` when the table has both,
      otherwise `question`/`answer` renamed to `front`/`back`; a table with
      neither pair is the KeyError, here None. */
  function CsvColumns(t: Table): (r: Option<Table>)
    ensures r.Some? ==> r.value.columns == ["front", "back"] && |r.value.rows| == |t.rows|
    ensures r.Some? ==> forall i :: 0 <= i < |t.rows| ==> r.value.rows[i].Keys == {"front", "back"}
  {
    if "front" in t.columns && "back" in t.columns then
      Some(Table(["front", "back"], seq(|t.rows|, i requires 0 <= i < |t.rows| => Pick(t.rows[i], "front", "back"))))
    else if "question" in t.columns && "answer" in t.columns then
      Some(Table(["front", "back"], seq(|t.rows|, i requires 0 <= i < |t.rows| => Pick(t.rows[i], "question", "answer"))))
    else None
  }

  /** Row `row` reduced to the cells of columns `f` and `b`, named front and back. */
  function Pick(row: Row, f: string, b: string): (r: Row)
    ensures r.Keys == {"front", "back"} && r["front"] == Get(row, f) && r["back"] == Get(row, b)
  {
    map["front" := Get(row, f), "back" := Get(row, b)]
  }

  /** Which source columns feed the export, and that there is no other outcome. */
  lemma CsvColumnChoice(t: Table)
    ensures ("front" in t.columns && "back" in t.columns) ==>
              CsvColumns(t).Some? && forall i :: 0 <= i < |t.rows| ==>
                CsvColumns(t).value.rows[i] == map["front" := Get(t.rows[i], "front"), "back" := Get(t.rows[i], "back")]
    ensures !("front" in t.columns && "back" in t.columns) && "question" in t.columns && "answer" in t.columns ==>
              CsvColumns(t).Some? && forall i :: 0 <= i < |t.rows| ==>
                CsvColumns(t).value.rows[i] == map["front" := Get(t.rows[i], "question"), "back" := Get(t.rows[i], "answer")]
    ensures CsvColumns(t).None? <==>
              !("front" in t.columns && "back" in t.columns) && !("question" in t.columns && "answer" in t.columns)
  {
  }
}
