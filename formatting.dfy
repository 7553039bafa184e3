/** utils/formatting.py: the card table and the checks run on it before
    export. A pandas DataFrame is a sequence of rows, each row a map from
    column name to cell; a cell that a row lacks reads as missing, as a
    DataFrame built from records fills absent keys with NaN. */
module Formatting {
  import opened Wrappers
  import opened Extractors

  /** One cell of the table: text, a whole number, or missing (NaN/None). */
  datatype Cell = Text(s: string) | Number(n: int) | Missing

  type Row = map<string, Cell>

  datatype Table = Table(columns: seq<string>, rows: seq<Row>)

  /** The three columns of a card table, in display order. */
  const CardColumns: seq<string> := ["question", "answer", "source_chunk"]

  /** `row[c]`, with a key the row lacks read as missing. */
  function Get(row: Row, c: string): Cell {
    if c in row then row[c] else Missing
  }

  /** The keys of all records, the columns `pd.DataFrame(records)` has. */
  function AllKeys(cards: seq<Row>): (keys: set<string>)
    ensures forall c :: c in keys <==> exists i :: 0 <= i < |cards| && c in cards[i]
  {
    if cards == [] then {}
    else
      var rest := AllKeys(cards[1..]);
      assert forall i :: 1 <= i < |cards| ==> cards[i] == cards[1..][i - 1];
      cards[0].Keys + rest
  }

  /** A record projected to the three card columns. */
  function Project(row: Row): (r: Row)
    ensures r.Keys == {"question", "answer", "source_chunk"}
    ensures forall c :: c in r ==> r[c] == Get(row, c)
  {
    map c | c in {"question", "answer", "source_chunk"} :: Get(row, c)
  }

  /** `cards_to_dataframe`: no records, or records without any key, give
      the empty table with the three columns; otherwise the records in
      order projected to the three columns. A column that no record has is
      the KeyError of `df[[...]]`, here None. */
  function CardsToFrame(cards: seq<Row>): (r: Option<Table>)
    ensures (cards == [] || AllKeys(cards) == {}) ==> r == Some(Table(CardColumns, []))
    ensures r.None? <==> AllKeys(cards) != {} && !({"question", "answer", "source_chunk"} <= AllKeys(cards))
    ensures r.Some? ==> r.value.columns == CardColumns
    ensures r.Some? && AllKeys(cards) != {} ==>
              |r.value.rows| == |cards|
              && forall i, c :: 0 <= i < |cards| && c in CardColumns ==> Get(r.value.rows[i], c) == Get(cards[i], c)
  {
    var keys := AllKeys(cards);
    if keys == {} then Some(Table(CardColumns, []))
    else if !({"question", "answer", "source_chunk"} <= keys) then None
    else Some(Table(CardColumns, seq(|cards|, i requires 0 <= i < |cards| => Project(cards[i]))))
  }

  /** A generated card as the record the generator returns. */
  function CardRow(c: Card): Row {
    map["question" := Text(c.question), "answer" := Text(c.answer), "source_chunk" := Number(c.sourceChunk)]
  }

  /** A non-empty list of generated cards becomes a table with one row per
      card, in order, holding that card's question, answer and chunk. */
  lemma CardsFrame(cards: seq<Card>)
    requires cards != []
    ensures var t := CardsToFrame(seq(|cards|, i requires 0 <= i < |cards| => CardRow(cards[i])));
            && t.Some? && |t.value.rows| == |cards|
            && forall i :: 0 <= i < |cards| ==>
                 && Get(t.value.rows[i], "question") == Text(cards[i].question)
                 && Get(t.value.rows[i], "answer") == Text(cards[i].answer)
                 && Get(t.value.rows[i], "source_chunk") == Number(cards[i].sourceChunk)
  {
    var rows := seq(|cards|, i requires 0 <= i < |cards| => CardRow(cards[i]));
    assert "question" in rows[0] && "answer" in rows[0] && "source_chunk" in rows[0];
  }

  // ---------------------------------------------------------------
  // validate_cards
  // ---------------------------------------------------------------

  const NoCardsMsg := "no cards to show yet"
  const LongQuestionMsg := "some questions are too long (>600 chars). try editing or regenerating."
  const LongAnswerMsg := "some answers are very long (>1500 chars). consider trimming."
  const EmptyCellMsg := "found empty question/answer cells. fill or delete them before exporting."
  const OkMsg := "ok"

  /** `.fillna("").str.len()` of one cell: a missing cell counts as "",
      and a number has no string length (NaN). */
  function CellLen(c: Cell): Option<nat> {
    match c
    case Text(s) => Some(|s|)
    case Missing => Some(0)
    case Number(_) => None
  }

  /** `.max()` of the lengths of column `c`, skipping NaN; None when no
      cell has a length. */
  function ColumnMax(rows: seq<Row>, c: string): (r: Option<nat>)
    ensures r.None? <==> forall i :: 0 <= i < |rows| ==> CellLen(Get(rows[i], c)).None?
    ensures r.Some? ==> exists i :: 0 <= i < |rows| && CellLen(Get(rows[i], c)) == r
    ensures r.Some? ==> forall i :: 0 <= i < |rows| && CellLen(Get(rows[i], c)).Some? ==>
                          CellLen(Get(rows[i], c)).value <= r.value
  {
    if rows == [] then None
    else
      var rest := ColumnMax(rows[1..], c);
      assert forall i :: 1 <= i < |rows| ==> rows[i] == rows[1..][i - 1];
      match CellLen(Get(rows[0], c))
      case None => rest
      case Some(n) =>
        if rest.Some? && rest.value > n then rest else Some(n)
  }

  /** Some cell of column `c` is text longer than `limit`. */
  predicate LongerThan(rows: seq<Row>, c: string, limit: nat) {
    exists i :: 0 <= i < |rows| && Get(rows[i], c).Text? && |Get(rows[i], c).s| > limit
  }

  /** A question or answer cell is missing or the empty string. */
  predicate IsEmptyCell(c: Cell) {
    c == Missing || c == Text("")
  }

  predicate HasEmptyCell(rows: seq<Row>) {
    exists i :: 0 <= i < |rows| && (IsEmptyCell(Get(rows[i], "question")) || IsEmptyCell(Get(rows[i], "answer")))
  }

  /** `(df[c].fillna("").str.len().max() > limit)`: the maximum exceeds the
      limit exactly when some text cell does. */
  lemma MaxOverLimit(rows: seq<Row>, c: string, limit: nat)
    ensures (ColumnMax(rows, c).Some? && ColumnMax(rows, c).value > limit) <==> LongerThan(rows, c, limit)
  {
    var m := ColumnMax(rows, c);
    if m.Some? && m.value > limit {
      var i :| 0 <= i < |rows| && CellLen(Get(rows[i], c)) == m;
      assert Get(rows[i], c).Text?;
    }
    if LongerThan(rows, c, limit) {
      var i :| 0 <= i < |rows| && Get(rows[i], c).Text? && |Get(rows[i], c).s| > limit;
      assert CellLen(Get(rows[i], c)).Some?;
    }
  }

  /** `any()` over the question and answer cells compared with "". */
  function AnyEmpty(rows: seq<Row>): (r: bool)
    ensures r <==> HasEmptyCell(rows)
  {
    if rows == [] then false
    else
      assert forall i :: 1 <= i < |rows| ==> rows[i] == rows[1..][i - 1];
      IsEmptyCell(Get(rows[0], "question")) || IsEmptyCell(Get(rows[0], "answer")) || AnyEmpty(rows[1..])
  }

  /** `df.empty`: the frame has no rows or no columns. */
  predicate FrameEmpty(t: Table) {
    t.rows == [] || t.columns == []
  }

  /** `validate_cards`: the four checks in their order, each with its
      message. An empty frame (no rows or no columns) is answered before
      any column is read; any other must have the question and answer
      columns (a KeyError otherwise). */
  function ValidateCards(t: Table): (r: (bool, string))
    requires !FrameEmpty(t) ==> "question" in t.columns && "answer" in t.columns
    ensures r.0 <==> r.1 == OkMsg
    ensures FrameEmpty(t) ==> r == (false, NoCardsMsg)
    ensures !FrameEmpty(t) && LongerThan(t.rows, "question", 600) ==> r == (false, LongQuestionMsg)
    ensures !FrameEmpty(t) && !LongerThan(t.rows, "question", 600) && LongerThan(t.rows, "answer", 1500) ==>
              r == (false, LongAnswerMsg)
    ensures (!FrameEmpty(t) && !LongerThan(t.rows, "question", 600) && !LongerThan(t.rows, "answer", 1500)
             && HasEmptyCell(t.rows)) ==> r == (false, EmptyCellMsg)
    ensures r.0 <==> !FrameEmpty(t) && !LongerThan(t.rows, "question", 600) && !LongerThan(t.rows, "answer", 1500)
                     && !HasEmptyCell(t.rows)
  {
    MaxOverLimit(t.rows, "question", 600);
    MaxOverLimit(t.rows, "answer", 1500);
    if FrameEmpty(t) then (false, NoCardsMsg)
    else
      var longQ := ColumnMax(t.rows, "question");
      var longA := ColumnMax(t.rows, "answer");
      if longQ.Some? && longQ.value > 600 then (false, LongQuestionMsg)
      else if longA.Some? && longA.value > 1500 then (false, LongAnswerMsg)
      else if AnyEmpty(t.rows) then (false, EmptyCellMsg)
      else (true, OkMsg)
  }

  /** Rows without any column make an empty frame: "no cards to show yet",
      with no KeyError. */
  lemma RowsWithoutColumns(t: Table)
    requires t.rows != [] && t.columns == []
    ensures ValidateCards(t) == (false, NoCardsMsg)
  {
  }

  /** A deck whose questions are exactly 600 characters long and whose
      answers are exactly 1500 long passes: both limits are strict. */
  lemma LimitsAreStrict(t: Table, q: string, a: string)
    requires "question" in t.columns && "answer" in t.columns
    requires |q| == 600 && |a| == 1500
    requires t.rows != [] && forall i :: 0 <= i < |t.rows| ==> Get(t.rows[i], "question") == Text(q) && Get(t.rows[i], "answer") == Text(a)
    ensures ValidateCards(t) == (true, OkMsg)
  {
    assert !HasEmptyCell(t.rows) by {
      assert q != [] && a != [];
    }
  }
}
