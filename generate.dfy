/** The accept-or-retry rule of `generate_flashcards_turbo` in
    utils/llm.py. The chat completion is an injected function from the
    user prompt to the reply's content (`None` when the reply has none);
    the prompt template is an injected function of the corpus and the
    card count. */
module Generate {
  import opened Wrappers
  import opened Text
  import opened Extractors
  import opened Robust
  import opened Sampling

  /** What the generator depends on but does not compute itself. */
  datatype Deps = Deps(
    render: (string, int) -> string,      // `USER_TURBO.format(corpus=..., n_total=...)`
    ask: string -> Option<string>,        // one chat completion on a user prompt
    loads: string -> Option<Json>,        // `json.loads`
    reprOf: Json -> string)               // `str()` of a list or dict

  /** The line appended to the prompt for the second attempt. */
  const RetryReminder: string := "\nRespond TSV only: question\\tanswer per line; no extra text."

  /** The result: the cards returned and the user prompts sent, in order. */
  datatype Outcome = Outcome(cards: seq<Card>, prompts: seq<string>)

  /** Python's `xs[:n]`: the first `n` items, or all but the last `-n`
      when `n` is negative, clamped to the list. */
  function Take<T>(xs: seq<T>, n: int): (r: seq<T>)
    ensures |r| == (if n >= 0 then (if n <= |xs| then n else |xs|)
                    else if |xs| + n >= 0 then |xs| + n else 0)
    ensures r == xs[..|r|]
  {
    if n >= 0 then (if n <= |xs| then xs[..n] else xs)
    else if |xs| + n >= 0 then xs[..|xs| + n] else []
  }

  /** `max(1, n_total // 2)`: the number of cards that makes a first reply good enough. */
  function Threshold(nTotal: int): (t: int)
    ensures nTotal >= 2 ==> 2 * t <= nTotal < 2 * t + 2
    ensures nTotal < 2 ==> t == 1
  {
    var h := nTotal / 2;
    if h >= 1 then h else 1
  }

  /** The compressed notes, with the topics appended when there are any. */
  function Corpus(fullText: string, topics: seq<string>): (r: string)
    ensures var c := Compress(fullText, 12000, 8); |c| <= |r| && r[..|c|] == c
    ensures topics == [] <==> |r| == |Compress(fullText, 12000, 8)|
  {
    Compress(fullText, 12000, 8)
      + (if topics != [] then "\nFocus on: " + Join(topics, ", ") else "")
  }

  /** `resp.choices[0].message.content or ""` */
  function Reply(deps: Deps, prompt: string): string {
    deps.ask(prompt).GetOr("")
  }

  /** `generate_flashcards_turbo` */
  function GenerateTurbo(deps: Deps, fullText: string, nTotal: int, topics: seq<string>): (o: Outcome)
    ensures nTotal >= 0 ==> |o.cards| <= nTotal
    ensures forall c :: c in o.cards ==> Emitted(c)
    ensures 1 <= |o.prompts| <= 2
  {
    var user := deps.render(Corpus(fullText, topics), nTotal);
    var cards := ParseAny(Reply(deps, user), deps.loads, deps.reprOf);
    if |cards| >= Threshold(nTotal) then
      Outcome(Take(cards, nTotal), [user])
    else
      var retry := user + RetryReminder;
      var cards2 := ParseAny(Reply(deps, retry), deps.loads, deps.reprOf);
      Outcome(Take(cards2, nTotal), [user, retry])
  }

  /** The first reply is kept exactly when it yields at least
      `max(1, n_total // 2)` cards; then it is the only call and its cards,
      cut to `n_total`, are the result. */
  lemma AcceptIff(deps: Deps, fullText: string, nTotal: int, topics: seq<string>)
    ensures var user := deps.render(Corpus(fullText, topics), nTotal);
            var first := ParseAny(Reply(deps, user), deps.loads, deps.reprOf);
            var o := GenerateTurbo(deps, fullText, nTotal, topics);
            && (|o.prompts| == 1 <==> |first| >= Threshold(nTotal))
            && (|o.prompts| == 1 ==> o.prompts == [user] && o.cards == Take(first, nTotal))
  {
  }

  /** Otherwise exactly one more call is made, with the reminder appended,
      and its cards, cut to `n_total`, are returned whatever their number,
      even none. */
  lemma RetryOnce(deps: Deps, fullText: string, nTotal: int, topics: seq<string>)
    ensures var user := deps.render(Corpus(fullText, topics), nTotal);
            var first := ParseAny(Reply(deps, user), deps.loads, deps.reprOf);
            var retry := user + RetryReminder;
            var second := ParseAny(Reply(deps, retry), deps.loads, deps.reprOf);
            var o := GenerateTurbo(deps, fullText, nTotal, topics);
            |first| < Threshold(nTotal) ==>
              o.prompts == [user, retry] && o.cards == Take(second, nTotal)
  {
  }

  /** A reply with no content reads as no cards, so it always forces the
      retry (`json.loads("")` fails, so `loads` is taken to reject it). */
  lemma EmptyReplyRetries(deps: Deps, fullText: string, nTotal: int, topics: seq<string>)
    requires deps.ask(deps.render(Corpus(fullText, topics), nTotal)) == None
    requires deps.loads("") == None
    ensures |GenerateTurbo(deps, fullText, nTotal, topics).prompts| == 2
  {
    NothingFromEmpty(deps.loads, deps.reprOf);
  }

  /** No extractor finds a card in an empty reply. */
  lemma NothingFromEmpty(loads: string -> Option<Json>, reprOf: Json -> string)
    requires loads("") == None
    ensures ParseAny("", loads, reprOf) == []
  {
    assert SplitLines("") == [];
    assert NonBlank([]) == [];
    assert ParseJson("", loads, reprOf) == [];
    LastDecides(Outputs(Parsers(loads, reprOf), ""));
  }
}
