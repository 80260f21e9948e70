/**
 * The interactive refinement loop of the movie CLI: the y/n validator, the
 * initial-query prompt and the session of at most three search rounds, each
 * followed (unless the user is satisfied) by a two-question probing step.
 *
 * Everything outside the process is an oracle: `lines` is the finite script of
 * what the user types, `search(round, query)` is what the vector store answers
 * in that round, and `chat(call, prompt)` is the chat model's reply to its
 * `call`-th request. When the script runs out the session waits for ever; the
 * model ends it there with outcome `InputEnded`.
 */
module CliController {
  import opened Wrappers
  import opened Text
  import opened Helpers

  const MaxAttempts: nat := 3

  /** `response.trim().toLowerCase()`. */
  function Normalize(line: string): (n: string)
    ensures n == "y" <==> Trim(line) == "y" || Trim(line) == "Y"
    ensures n == "n" <==> Trim(line) == "n" || Trim(line) == "N"
  {
    LowerIsLetter(Trim(line), 'y');
    LowerIsLetter(Trim(line), 'n');
    ToLower(Trim(line))
  }

  /** The validator accepts a line that normalises to exactly "y" or "n". */
  predicate IsYesNo(line: string) {
    Normalize(line) == "y" || Normalize(line) == "n"
  }

  /** `!answer.trim()`: the initial query is rejected when it is blank. */
  predicate IsBlank(line: string) {
    Trim(line) == []
  }

  /** The accepted lines are "y", "Y", "n" and "N", with any whitespace around them. */
  lemma YesNoAccepts(line: string)
    ensures IsYesNo(line) <==> Trim(line) in ["y", "Y", "n", "N"]
  {
    LowerIsLetter(Trim(line), 'y');
    LowerIsLetter(Trim(line), 'n');
  }

  /** A blank line is exactly one made of whitespace only. */
  lemma BlankIsWhitespace(line: string)
    ensures IsBlank(line) <==> AllSpace(line)
  {
    TrimEmpty(line);
  }

  /**
   * `getYesNoResponse`: reads lines from `from` on until one normalises to "y" or
   * "n" and returns that normalised form; every line before it was rejected.
   * `None` means the script ended first.
   */
  method GetYesNoResponse(lines: seq<string>, from: nat) returns (response: Option<string>, next: nat)
    requires from <= |lines|
    ensures from <= next <= |lines|
    ensures response.Some? ==>
              from < next && IsYesNo(lines[next - 1]) && response.value == Normalize(lines[next - 1])
    ensures response.Some? ==> response.value == "y" || response.value == "n"
    ensures response.None? ==> next == |lines|
    ensures forall j :: from <= j < next && (response.None? || j < next - 1) ==> !IsYesNo(lines[j])
  {
    next := from;
    while next < |lines|
      invariant from <= next <= |lines|
      invariant forall j :: from <= j < next ==> !IsYesNo(lines[j])
    {
      var cleanResponse := Normalize(lines[next]);
      next := next + 1;
      if cleanResponse == "y" || cleanResponse == "n" {
        return Some(cleanResponse), next;
      }
    }
    return None, next;
  }

  /**
   * The prompt of `getUserInput`: a blank answer is rejected and asked again.
   * Returns the first line that is not blank, with the position after it.
   */
  method ReadInitialQuery(lines: seq<string>) returns (query: Option<string>, next: nat)
    ensures next <= |lines|
    ensures query.Some? ==> 0 < next && query.value == lines[next - 1] && !IsBlank(query.value)
    ensures query.None? ==> next == |lines|
    ensures forall j :: 0 <= j < next && (query.None? || j < next - 1) ==> IsBlank(lines[j])
  {
    next := 0;
    while next < |lines|
      invariant next <= |lines|
      invariant forall j :: 0 <= j < next ==> IsBlank(lines[j])
    {
      var answer := lines[next];
      next := next + 1;
      if !IsBlank(answer) {
        return Some(answer), next;
      }
    }
    return None, next;
  }

  /** What `saveUserLog` is handed; the model records the dispatch, not its completion. */
  datatype LogRecord = LogRecord(
    originalQuery: string, suggestedMovies: seq<string>, probingContext: seq<string>, success: bool)

  /**
   * How a session ends: no non-blank query before the script ended; the user said
   * "y"; three rounds passed; the script ended inside a round; or the search threw
   * (the controller does not catch it, so the session stops there unlogged).
   */
  datatype Outcome = NoQuery | Satisfied | Exhausted | InputEnded | SearchFailed

  /** One answer of the vector store: thrown, or a result. */
  datatype SearchOutcome = SearchThrew | Searched(result: SearchResult)

  /**
   * One round: the search string, the movies found, the lines read at the y/n
   * prompt (none when nothing was found) and the feedback ("" when the script
   * ended at the prompt).
   */
  datatype Round = Round(query: string, movies: seq<Candidate>, yesNoLines: seq<string>, feedback: string)

  /** One probing exchange: the question shown, the user's answer and the refined query. */
  datatype Exchange = Exchange(question: string, response: string, refined: string)

  /**
   * The observable record of a session: how it ended, the number of script lines
   * read up to and including the one that gave the original query, the controller's
   * locals when the loop stopped (`final.pos` is the number of lines read in all)
   * and the logs handed to `saveUserLog`.
   */
  datatype Session = Session(
    outcome: Outcome, afterQuery: nat, originalQuery: string, final: Progress, logs: seq<LogRecord>)

  /**
   * `previousQueries` at the top of round `i`: `[answer]` in the first round; after
   * that the reset `[answer]` with the two queries the previous round's probing pushed.
   */
  function PreviousQueries(original: string, probingContext: seq<string>, i: nat): seq<string>
    requires 2 * i <= |probingContext|
  {
    if i == 0 then [original]
    else [original, probingContext[2 * i - 2], probingContext[2 * i - 1]]
  }

  /** The search string of round `i`: `previousQueries.join(" ")`. */
  function RoundQuery(original: string, probingContext: seq<string>, i: nat): string
    requires 2 * i <= |probingContext|
  {
    Join(PreviousQueries(original, probingContext, i), " ")
  }

  /**
   * The first round searches the original query alone; a later one, the original query
   * and the two refined queries of the round before it, separated by single spaces.
   */
  lemma RoundQueryParts(original: string, probingContext: seq<string>, i: nat)
    requires 2 * i <= |probingContext|
    ensures i == 0 ==> RoundQuery(original, probingContext, i) == original
    ensures i > 0 ==>
              RoundQuery(original, probingContext, i)
              == original + " " + probingContext[2 * i - 2] + " " + probingContext[2 * i - 1]
  {
    if i > 0 {
      var parts := PreviousQueries(original, probingContext, i);
      assert parts[1..] == [probingContext[2 * i - 2], probingContext[2 * i - 1]];
      assert parts[1..][1..] == [probingContext[2 * i - 1]];
      assert Join(parts[1..], " ") == probingContext[2 * i - 2] + " " + probingContext[2 * i - 1];
    }
  }

  /** Each round searched with its round's query and shows what the store returned for it. */
  ghost predicate RoundsFollowSearch(
    original: string, rounds: seq<Round>, probingContext: seq<string>, search: (nat, string) -> SearchOutcome)
  {
    forall i :: 0 <= i < |rounds| ==>
      && 2 * i <= |probingContext|
      && rounds[i].query == RoundQuery(original, probingContext, i)
      && search(i, rounds[i].query).Searched?
      && rounds[i].movies == Recommendations(search(i, rounds[i].query).result)
  }

  /**
   * The feedback rule of a round: no prompt and "n" when nothing was found;
   * otherwise every rejected line is invalid and the decisive one gives the feedback.
   */
  predicate FeedbackRule(r: Round) {
    if r.movies == [] then r.yesNoLines == [] && r.feedback == "n"
    else
      && (forall j :: 0 <= j < |r.yesNoLines| - 1 ==> !IsYesNo(r.yesNoLines[j]))
      && (r.feedback == "" <==> (r.yesNoLines == [] || !IsYesNo(r.yesNoLines[|r.yesNoLines| - 1])))
      && (r.feedback != "" ==> r.feedback == Normalize(r.yesNoLines[|r.yesNoLines| - 1]))
  }

  /**
   * The first exchange of a round, made with chat calls `calls` and `calls + 1`: the
   * question is made of the original query, and the refinement is shown `[original]`.
   */
  function FirstExchange(original: string, calls: nat, response: string, chat: (nat, Prompt) -> Completion): (e: Exchange)
    ensures e.response == response && e.question != []
  {
    var question := FirstFollowUpQuestion(chat(calls, FirstQuestionPrompt(original)));
    Exchange(question, response, RefinedQuery(chat(calls + 1, RefinementPrompt([original], question, response)), response))
  }

  /**
   * The second exchange of a round: the question is made of the previous question and
   * answer, and the refinement is shown `[original, previous.refined]`.
   */
  function NextExchange(
    original: string, previous: Exchange, calls: nat, response: string, chat: (nat, Prompt) -> Completion): (e: Exchange)
    ensures e.response == response && e.question != []
  {
    var question := NextFollowUpQuestion(chat(calls, NextQuestionPrompt(previous.question, previous.response)));
    Exchange(
      question, response,
      RefinedQuery(chat(calls + 1, RefinementPrompt([original, previous.refined], question, response)), response))
  }

  /** Exchange `j` is what the helpers make of chat calls `2j` and `2j + 1` and the user's answer. */
  ghost predicate ExchangeFollowsChat(original: string, exchanges: seq<Exchange>, j: nat, chat: (nat, Prompt) -> Completion)
    requires j < |exchanges|
  {
    exchanges[j] == if j % 2 == 0 then FirstExchange(original, 2 * j, exchanges[j].response, chat)
                    else NextExchange(original, exchanges[j - 1], 2 * j, exchanges[j].response, chat)
  }

  ghost predicate ExchangesFollowChat(original: string, exchanges: seq<Exchange>, chat: (nat, Prompt) -> Completion) {
    forall j :: 0 <= j < |exchanges| ==> ExchangeFollowsChat(original, exchanges, j, chat)
  }

  /** The refined queries of the exchanges, in order: what `probingContext` collects. */
  function Refined(exchanges: seq<Exchange>): (r: seq<string>)
    ensures |r| == |exchanges|
    ensures forall j :: 0 <= j < |exchanges| ==> r[j] == exchanges[j].refined
  {
    seq(|exchanges|, j requires 0 <= j < |exchanges| => exchanges[j].refined)
  }

  lemma RefinedAppend(a: seq<Exchange>, b: seq<Exchange>)
    ensures Refined(a + b) == Refined(a) + Refined(b)
  {
    assert forall j :: 0 <= j < |a + b| ==> Refined(a + b)[j] == (Refined(a) + Refined(b))[j];
  }

  /** The user's answers in the exchanges, in order. */
  function Responses(exchanges: seq<Exchange>): seq<string>
    decreases |exchanges|
  {
    if exchanges == [] then []
    else Responses(exchanges[..|exchanges| - 1]) + [exchanges[|exchanges| - 1].response]
  }

  /** The answers of a probing step are the script lines it read. */
  lemma ProbeRead(lines: seq<string>, pos: nat, next: nat, added: seq<Exchange>)
    requires |added| <= 2 && next == pos + |added| && next <= |lines|
    requires |added| >= 1 ==> added[0].response == lines[pos]
    requires |added| == 2 ==> added[1].response == lines[pos + 1]
    ensures Responses(added) == lines[pos..next]
  {
    if |added| >= 1 {
      assert added[..1][..0] == [];
      assert Responses(added[..1]) == [added[0].response];
    }
    if |added| == 1 {
      assert added == added[..1];
      assert lines[pos..next] == [lines[pos]];
    } else if |added| == 2 {
      assert Responses(added) == Responses(added[..1]) + [added[1].response];
      assert lines[pos..next] == [lines[pos], lines[pos + 1]];
    }
  }

  lemma {:induction false} ResponsesAppend(a: seq<Exchange>, b: seq<Exchange>)
    ensures Responses(a + b) == Responses(a) + Responses(b)
    decreases |b|
  {
    if b == [] {
      assert a + b == a;
    } else {
      var n := |b| - 1;
      ResponsesAppend(a, b[..n]);
      assert (a + b)[..|a + b| - 1] == a + b[..n];
    }
  }

  /**
   * The script lines the rounds read, in order: for each round the lines read at its
   * y/n prompt, then the answers of its probing step. Round `i` probes with exchanges
   * `2i` and `2i + 1`, so the last round owns whatever follows exchange `2(n - 1)`.
   */
  function Read(rounds: seq<Round>, exchanges: seq<Exchange>): seq<string>
    requires |exchanges| <= 2 * |rounds|
    decreases |rounds|
  {
    if rounds == [] then []
    else
      var k := if |exchanges| < 2 * (|rounds| - 1) then |exchanges| else 2 * (|rounds| - 1);
      Read(rounds[..|rounds| - 1], exchanges[..k]) + rounds[|rounds| - 1].yesNoLines + Responses(exchanges[k..])
  }

  /** The first round's y/n lines are the first lines the rounds read. */
  lemma {:induction false} ReadStarts(rounds: seq<Round>, exchanges: seq<Exchange>)
    requires rounds != [] && |exchanges| <= 2 * |rounds|
    ensures |rounds[0].yesNoLines| <= |Read(rounds, exchanges)|
    ensures Read(rounds, exchanges)[..|rounds[0].yesNoLines|] == rounds[0].yesNoLines
    decreases |rounds|
  {
    var n := |rounds|;
    var k := ReadLast(rounds, exchanges);
    var m := |rounds[0].yesNoLines|;
    if n == 1 {
      PrefixOfAppend(rounds[0].yesNoLines, Responses(exchanges[k..]), m);
    } else {
      ReadStarts(rounds[..n - 1], exchanges[..k]);
      assert rounds[..n - 1][0] == rounds[0];
      PrefixOfAppend(Read(rounds[..n - 1], exchanges[..k]), rounds[n - 1].yesNoLines + Responses(exchanges[k..]), m);
    }
  }

  /** The last round's lines, and the probe answers past the earlier rounds' share, are read last. */
  lemma ReadLast(rounds: seq<Round>, exchanges: seq<Exchange>) returns (k: nat)
    requires rounds != [] && |exchanges| <= 2 * |rounds|
    ensures k <= |exchanges| && k <= 2 * (|rounds| - 1)
    ensures Read(rounds, exchanges)
              == Read(rounds[..|rounds| - 1], exchanges[..k]) + rounds[|rounds| - 1].yesNoLines + Responses(exchanges[k..])
    ensures |rounds| == 1 ==> Read(rounds, exchanges) == rounds[0].yesNoLines + Responses(exchanges[k..])
  {
    k := if |exchanges| < 2 * (|rounds| - 1) then |exchanges| else 2 * (|rounds| - 1);
    if |rounds| == 1 {
      assert Read(rounds[..0], exchanges[..k]) == [];
    }
  }

  /** Appending leaves a prefix of `a` alone. */
  lemma PrefixOfAppend(a: seq<string>, b: seq<string>, m: nat)
    requires m <= |a|
    ensures m <= |a + b| && (a + b)[..m] == a[..m]
  {
  }

  /** A new round after fully probed rounds reads its y/n lines after everything read so far. */
  lemma ReadAddRound(rounds: seq<Round>, exchanges: seq<Exchange>, r: Round)
    requires |exchanges| == 2 * |rounds|
    ensures Read(rounds + [r], exchanges) == Read(rounds, exchanges) + r.yesNoLines
  {
    assert (rounds + [r])[..|rounds|] == rounds;
    assert exchanges[..|exchanges|] == exchanges;
    assert Responses(exchanges[|exchanges|..]) == [];
  }

  /** The answers of the last round's probing are read after everything read so far. */
  lemma ReadAddExchanges(rounds: seq<Round>, exchanges: seq<Exchange>, added: seq<Exchange>)
    requires rounds != [] && 2 * (|rounds| - 1) <= |exchanges| && |exchanges| + |added| <= 2 * |rounds|
    ensures Read(rounds, exchanges + added) == Read(rounds, exchanges) + Responses(added)
  {
    var k := 2 * (|rounds| - 1);
    assert (exchanges + added)[..k] == exchanges[..k];
    assert (exchanges + added)[k..] == exchanges[k..] + added;
    ResponsesAppend(exchanges[k..], added);
  }

  /** Reading `a` up to `mid` and then `b` up to `to` is reading `a + b`. */
  lemma ReadOn(lines: seq<string>, from: nat, mid: nat, to: nat, a: seq<string>, b: seq<string>)
    requires from <= mid <= to <= |lines| && lines[from..mid] == a && lines[mid..to] == b
    ensures lines[from..to] == a + b
  {
    assert lines[from..to] == lines[from..mid] + lines[mid..to];
  }

  /** The script read up to `mid`, then a new round's y/n lines up to `to`. */
  lemma ScriptAddRound(
    lines: seq<string>, from: nat, mid: nat, to: nat, rounds: seq<Round>, exchanges: seq<Exchange>, r: Round)
    requires from <= mid <= to <= |lines| && |exchanges| == 2 * |rounds|
    requires lines[from..mid] == Read(rounds, exchanges) && r.yesNoLines == lines[mid..to]
    ensures lines[from..to] == Read(rounds + [r], exchanges)
  {
    ReadAddRound(rounds, exchanges, r);
    ReadOn(lines, from, mid, to, Read(rounds, exchanges), r.yesNoLines);
  }

  /** The script read up to `mid`, then the answers of the last round's probing up to `to`. */
  lemma ScriptAddExchanges(
    lines: seq<string>, from: nat, mid: nat, to: nat, rounds: seq<Round>, exchanges: seq<Exchange>,
    added: seq<Exchange>)
    requires from <= mid <= to <= |lines|
    requires rounds != [] && 2 * (|rounds| - 1) <= |exchanges| && |exchanges| + |added| <= 2 * |rounds|
    requires lines[from..mid] == Read(rounds, exchanges) && Responses(added) == lines[mid..to]
    ensures lines[from..to] == Read(rounds, exchanges + added)
  {
    ReadAddExchanges(rounds, exchanges, added);
    ReadOn(lines, from, mid, to, Read(rounds, exchanges), Responses(added));
  }

  /** `suggestedMovies`: the titles of the last round that found something, else []. */
  function LastSuggested(rounds: seq<Round>): (titles: seq<string>)
    ensures titles == [] <==> forall i :: 0 <= i < |rounds| ==> rounds[i].movies == []
  {
    if rounds == [] then []
    else if rounds[|rounds| - 1].movies != [] then Titles(rounds[|rounds| - 1].movies)
    else LastSuggested(rounds[..|rounds| - 1])
  }

  /** `suggestedMovies` holds the titles of the latest round that found movies. */
  lemma {:induction false} LastSuggestedIsLatest(rounds: seq<Round>, i: nat)
    requires i < |rounds| && rounds[i].movies != []
    requires forall j :: i < j < |rounds| ==> rounds[j].movies == []
    ensures LastSuggested(rounds) == Titles(rounds[i].movies)
    decreases |rounds|
  {
    if i < |rounds| - 1 {
      var init := rounds[..|rounds| - 1];
      assert init[i] == rounds[i];
      assert forall j :: i < j < |init| ==> init[j] == rounds[j];
      LastSuggestedIsLatest(init, i);
    }
  }

  /** The original query is line `n - 1`, the first non-blank line of the script. */
  ghost predicate QueryLine(lines: seq<string>, n: nat, query: string) {
    0 < n <= |lines| && lines[n - 1] == query && !IsBlank(query) && forall j :: 0 <= j < n - 1 ==> IsBlank(lines[j])
  }

  /** Every exchange but the new last one is where it was, so it still follows the chat model. */
  lemma ExtendExchanges(original: string, exchanges: seq<Exchange>, e: Exchange, chat: (nat, Prompt) -> Completion)
    requires ExchangesFollowChat(original, exchanges, chat)
    requires ExchangeFollowsChat(original, exchanges + [e], |exchanges|, chat)
    ensures ExchangesFollowChat(original, exchanges + [e], chat)
  {
    var longer := exchanges + [e];
    forall j | 0 <= j < |exchanges|
      ensures ExchangeFollowsChat(original, longer, j, chat)
    {
      assert ExchangeFollowsChat(original, exchanges, j, chat);
      assert longer[j] == exchanges[j];
      if j > 0 {
        assert longer[j - 1] == exchanges[j - 1];
      }
    }
  }

  /** The first exchange of a round, made with the next two chat calls, keeps the list following the chat model. */
  lemma ExtendFirst(original: string, exchanges: seq<Exchange>, response: string, chat: (nat, Prompt) -> Completion)
    requires ExchangesFollowChat(original, exchanges, chat) && |exchanges| % 2 == 0
    ensures ExchangesFollowChat(original, exchanges + [FirstExchange(original, 2 * |exchanges|, response, chat)], chat)
  {
    var e := FirstExchange(original, 2 * |exchanges|, response, chat);
    assert (exchanges + [e])[|exchanges|] == e;
    ExtendExchanges(original, exchanges, e, chat);
  }

  /** The second exchange of a round, which follows the first, keeps the list following the chat model. */
  lemma ExtendNext(original: string, exchanges: seq<Exchange>, response: string, chat: (nat, Prompt) -> Completion)
    requires ExchangesFollowChat(original, exchanges, chat) && |exchanges| % 2 == 1
    ensures ExchangesFollowChat(
      original, exchanges + [NextExchange(original, exchanges[|exchanges| - 1], 2 * |exchanges|, response, chat)], chat)
  {
    var e := NextExchange(original, exchanges[|exchanges| - 1], 2 * |exchanges|, response, chat);
    var longer := exchanges + [e];
    assert longer[|exchanges|] == e && longer[|exchanges| - 1] == exchanges[|exchanges| - 1];
    ExtendExchanges(original, exchanges, e, chat);
  }

  /**
   * Solver hints for `Probe`, kept as lemmas as `EvenDouble` is: the same facts
   * asserted inside `Probe` cost it far more.
   */
  lemma OddAfterEven(n: nat)
    requires n % 2 == 0
    ensures (n + 1) % 2 == 1
  {
  }

  lemma AppendTwo(xs: seq<Exchange>, x: Exchange, y: Exchange)
    ensures xs + [x] + [y] == xs + [x, y]
  {
  }

  /**
   * The probing step: a first question, an answer, a refinement, a next question,
   * an answer, a refinement. Fewer than two exchanges means the script ended.
   */
  method Probe(lines: seq<string>, pos: nat, answer: string, exchanges: seq<Exchange>, chat: (nat, Prompt) -> Completion)
    returns (added: seq<Exchange>, next: nat)
    requires pos <= |lines| && |exchanges| % 2 == 0
    requires ExchangesFollowChat(answer, exchanges, chat)
    ensures ExchangesFollowChat(answer, exchanges + added, chat)
    ensures |added| <= 2 && next == pos + |added| && next <= |lines|
    ensures |added| < 2 ==> next == |lines|
    ensures |added| >= 1 ==> added[0].response == lines[pos]
    ensures |added| == 2 ==> added[1].response == lines[pos + 1]
  {
    if pos == |lines| {
      assert exchanges + [] == exchanges;
      return [], pos;
    }
    var first := FirstExchange(answer, 2 * |exchanges|, lines[pos], chat);
    ExtendFirst(answer, exchanges, lines[pos], chat);
    if pos + 1 == |lines| {
      return [first], pos + 1;
    }
    var sofar := exchanges + [first];
    OddAfterEven(|exchanges|);
    var second := NextExchange(answer, sofar[|sofar| - 1], 2 * |sofar|, lines[pos + 1], chat);
    ExtendNext(answer, sofar, lines[pos + 1], chat);
    AppendTwo(exchanges, first, second);
    return [first, second], pos + 2;
  }

  /** Queries of earlier rounds only read the start of `probingContext`, so growing it keeps them. */
  lemma RoundsKeepQueries(
    original: string, rounds: seq<Round>, probingContext: seq<string>, more: seq<string>,
    search: (nat, string) -> SearchOutcome)
    requires RoundsFollowSearch(original, rounds, probingContext, search)
    ensures RoundsFollowSearch(original, rounds, probingContext + more, search)
  {
    forall i | 0 <= i < |rounds| && i > 0
      ensures RoundQuery(original, probingContext + more, i) == RoundQuery(original, probingContext, i)
    {
      assert (probingContext + more)[2 * i - 2] == probingContext[2 * i - 2];
      assert (probingContext + more)[2 * i - 1] == probingContext[2 * i - 1];
    }
  }

  /** A round made with the next query and the store's answer to it extends the rounds. */
  lemma ExtendRounds(
    original: string, rounds: seq<Round>, probingContext: seq<string>, r: Round,
    search: (nat, string) -> SearchOutcome)
    requires RoundsFollowSearch(original, rounds, probingContext, search)
    requires 2 * |rounds| <= |probingContext| && r.query == RoundQuery(original, probingContext, |rounds|)
    requires search(|rounds|, r.query).Searched? && r.movies == Recommendations(search(|rounds|, r.query).result)
    ensures RoundsFollowSearch(original, rounds + [r], probingContext, search)
  {
    assert forall i :: 0 <= i < |rounds| ==> (rounds + [r])[i] == rounds[i];
  }

  lemma LastSuggestedExtend(rounds: seq<Round>, r: Round)
    ensures LastSuggested(rounds + [r]) == if r.movies != [] then Titles(r.movies) else LastSuggested(rounds)
  {
    assert (rounds + [r])[..|rounds|] == rounds;
  }

  /** The lines the y/n prompt read, and what it returned, obey the feedback rule. */
  lemma PromptFeedback(
    lines: seq<string>, from: nat, next: nat, response: Option<string>, query: string, movies: seq<Candidate>)
    requires from <= next <= |lines| && movies != []
    requires response.Some? ==>
               from < next && IsYesNo(lines[next - 1]) && response.value == Normalize(lines[next - 1])
    requires response.None? ==> next == |lines|
    requires forall j :: from <= j < next && (response.None? || j < next - 1) ==> !IsYesNo(lines[j])
    ensures FeedbackRule(Round(query, movies, lines[from..next], response.GetOr("")))
  {
    var read := lines[from..next];
    assert forall j :: 0 <= j < |read| ==> read[j] == lines[from + j];
    if response.Some? {
      assert read[|read| - 1] == lines[next - 1];
      assert response.GetOr("") != "";
    } else if read != [] {
      assert !IsYesNo(read[|read| - 1]);
    }
  }

  /**
   * The y/n step of a round: with movies to show, the prompt decides the feedback
   * ("" when the script ends first); with none, the feedback is "n" and nothing is read.
   */
  method AskFeedback(lines: seq<string>, pos: nat, query: string, movies: seq<Candidate>)
    returns (round: Round, next: nat)
    requires pos <= |lines|
    ensures round.query == query && round.movies == movies && FeedbackRule(round)
    ensures round.feedback == "" || round.feedback == "y" || round.feedback == "n"
    ensures pos <= next <= |lines| && (round.feedback == "" ==> next == |lines|)
    ensures round.yesNoLines == lines[pos..next]
  {
    if |movies| > 0 {
      var response, after := GetYesNoResponse(lines, pos);
      PromptFeedback(lines, pos, after, response, query, movies);
      return Round(query, movies, lines[pos..after], response.GetOr("")), after;
    }
    return Round(query, movies, [], "n"), pos;
  }

  /** The search string after a full probing step is the next round's query. */
  lemma NextRoundQuery(answer: string, probingContext: seq<string>, attempts: nat, added: seq<Exchange>)
    requires |probingContext| == 2 * attempts && |added| == 2
    ensures [answer] + Refined(added) == PreviousQueries(answer, probingContext + Refined(added), attempts + 1)
    ensures Join([answer] + Refined(added), " ") == RoundQuery(answer, probingContext + Refined(added), attempts + 1)
  {
    var longer := probingContext + Refined(added);
    assert [answer] + Refined(added) == [answer, longer[2 * attempts], longer[2 * attempts + 1]];
  }

  /** The locals of `getUserInput` at the top of its loop, with the rounds and exchanges so far. */
  datatype Progress = Progress(
    pos: nat,
    attempts: nat,
    previousQueries: seq<string>,
    suggestedMovies: seq<string>,
    probingContext: seq<string>,
    rounds: seq<Round>,
    exchanges: seq<Exchange>)

  /** The rounds read exactly the script lines from `from` up to `pos`. */
  ghost predicate Script(lines: seq<string>, from: nat, p: Progress) {
    from <= p.pos <= |lines| && |p.exchanges| <= 2 * |p.rounds| && lines[from..p.pos] == Read(p.rounds, p.exchanges)
  }

  /**
   * What every round, exchange and local obeys, whether or not the session goes on;
   * the rounds began reading the script at line `from`.
   */
  ghost predicate Consistent(
    lines: seq<string>, from: nat, answer: string, search: (nat, string) -> SearchOutcome,
    chat: (nat, Prompt) -> Completion, p: Progress)
  {
    && p.attempts <= MaxAttempts && Script(lines, from, p)
    && p.probingContext == Refined(p.exchanges)
    && RoundsFollowSearch(answer, p.rounds, p.probingContext, search)
    && (forall i :: 0 <= i < |p.rounds| ==> FeedbackRule(p.rounds[i]))
    && (forall i :: 0 <= i < |p.rounds| - 1 ==> p.rounds[i].feedback == "n")
    && ExchangesFollowChat(answer, p.exchanges, chat)
    && p.suggestedMovies == LastSuggested(p.rounds)
  }

  /** The loop invariant: `attempts` rounds, each answered "n" and probed twice. */
  ghost predicate Between(
    lines: seq<string>, from: nat, answer: string, search: (nat, string) -> SearchOutcome,
    chat: (nat, Prompt) -> Completion, p: Progress)
  {
    && Consistent(lines, from, answer, search, chat, p)
    && |p.rounds| == p.attempts && |p.exchanges| == 2 * p.attempts
    && (forall i :: 0 <= i < |p.rounds| ==> p.rounds[i].feedback == "n")
    && p.previousQueries == PreviousQueries(answer, p.probingContext, p.attempts)
  }

  /**
   * Where the script ran out in the last round: at the y/n prompt, before any
   * probing, or during the probing that follows an "n".
   */
  predicate PromptOrProbe(p: Progress)
    requires |p.rounds| == p.attempts + 1
  {
    || (p.rounds[p.attempts].feedback == "" && |p.exchanges| == 2 * p.attempts)
    || p.rounds[p.attempts].feedback == "n"
  }

  /**
   * `previousQueries` when the script ran out in the last round: untouched at the
   * y/n prompt; during the probing, the reset `[answer]` and what it pushed so far.
   */
  predicate CutOffQueries(answer: string, p: Progress)
    requires |p.rounds| == p.attempts + 1 && 2 * p.attempts <= |p.probingContext|
  {
    if p.rounds[p.attempts].feedback == "n" then p.previousQueries == [answer] + p.probingContext[2 * p.attempts..]
    else p.previousQueries == PreviousQueries(answer, p.probingContext, p.attempts)
  }

  /** How far a session got when a round ends it with `outcome`. */
  ghost predicate StoppedBy(
    outcome: Outcome, lines: seq<string>, search: (nat, string) -> SearchOutcome, answer: string, p: Progress)
  {
    match outcome
    case Satisfied =>
      && |p.rounds| == p.attempts + 1 && |p.exchanges| == 2 * p.attempts && |p.probingContext| == 2 * p.attempts
      && p.rounds[p.attempts].movies != [] && p.rounds[p.attempts].feedback == "y"
      && p.previousQueries == PreviousQueries(answer, p.probingContext, p.attempts)
    case InputEnded =>
      && |p.rounds| == p.attempts + 1 && 2 * p.attempts <= |p.exchanges| <= 2 * p.attempts + 1
      && 2 * p.attempts <= |p.probingContext|
      && p.pos == |lines| && PromptOrProbe(p) && CutOffQueries(answer, p)
    case SearchFailed =>
      && |p.rounds| == p.attempts && |p.exchanges| == 2 * p.attempts && |p.probingContext| == 2 * p.attempts
      && (p.attempts > 0 ==> p.rounds[p.attempts - 1].feedback == "n")
      && p.previousQueries == PreviousQueries(answer, p.probingContext, p.attempts)
      && search(p.attempts, RoundQuery(answer, p.probingContext, p.attempts)).SearchThrew?
    case _ => false
  }

  /** A round that obeys the feedback rule, after rounds that do, keeps every round obeying it. */
  lemma FeedbackRuleExtend(rounds: seq<Round>, round: Round)
    requires forall i :: 0 <= i < |rounds| ==> FeedbackRule(rounds[i])
    requires FeedbackRule(round)
    ensures forall i :: 0 <= i < |rounds + [round]| ==> FeedbackRule((rounds + [round])[i])
  {
    assert forall i :: 0 <= i < |rounds| ==> (rounds + [round])[i] == rounds[i];
  }

  /** A round after rounds all answered "n" leaves every round but the last answered "n". */
  lemma DeclinedExtend(rounds: seq<Round>, round: Round)
    requires forall i :: 0 <= i < |rounds| ==> rounds[i].feedback == "n"
    ensures forall i :: 0 <= i < |rounds + [round]| - 1 ==> (rounds + [round])[i].feedback == "n"
  {
    assert forall i :: 0 <= i < |rounds| ==> (rounds + [round])[i] == rounds[i];
  }

  /** One more round answered "n" leaves every round answered "n". */
  lemma AllDeclinedExtend(rounds: seq<Round>, round: Round)
    requires forall i :: 0 <= i < |rounds| ==> rounds[i].feedback == "n"
    requires round.feedback == "n"
    ensures forall i :: 0 <= i < |rounds + [round]| ==> (rounds + [round])[i].feedback == "n"
  {
    assert forall i :: 0 <= i < |rounds| ==> (rounds + [round])[i] == rounds[i];
  }

  /** Adding a round that follows the search and the feedback rule keeps the session consistent. */
  lemma AddRound(
    lines: seq<string>, from: nat, answer: string, search: (nat, string) -> SearchOutcome,
    chat: (nat, Prompt) -> Completion, p: Progress, round: Round, q: Progress)
    requires Between(lines, from, answer, search, chat, p) && p.attempts < MaxAttempts
    requires round.query == RoundQuery(answer, p.probingContext, p.attempts) && FeedbackRule(round)
    requires search(p.attempts, round.query).Searched?
    requires round.movies == Recommendations(search(p.attempts, round.query).result)
    requires p.pos <= q.pos <= |lines| && round.yesNoLines == lines[p.pos..q.pos]
    requires q == p.(pos := q.pos, rounds := p.rounds + [round],
                     suggestedMovies := if round.movies != [] then Titles(round.movies) else p.suggestedMovies)
    ensures Consistent(lines, from, answer, search, chat, q)
    ensures |q.rounds| == q.attempts + 1 && q.rounds[q.attempts] == round
    ensures |q.exchanges| == 2 * q.attempts && |q.exchanges| % 2 == 0
    ensures forall i :: 0 <= i < q.attempts ==> q.rounds[i].feedback == "n"
  {
    ExtendRounds(answer, p.rounds, p.probingContext, round, search);
    LastSuggestedExtend(p.rounds, round);
    FeedbackRuleExtend(p.rounds, round);
    DeclinedExtend(p.rounds, round);
    ScriptAddRound(lines, from, p.pos, q.pos, p.rounds, p.exchanges, round);
    EvenDouble(p.attempts);
  }

  /** Kept as a lemma: the same fact asserted inside `AddRound` sends the solver into nonlinear search. */
  lemma EvenDouble(n: nat)
    ensures (2 * n) % 2 == 0
  {
  }

  /** Adding the answers of the last round's probing, and their refined queries, keeps the session consistent. */
  lemma AddExchanges(
    lines: seq<string>, from: nat, answer: string, search: (nat, string) -> SearchOutcome,
    chat: (nat, Prompt) -> Completion, p: Progress, added: seq<Exchange>, q: Progress)
    requires Consistent(lines, from, answer, search, chat, p)
    requires |p.rounds| == p.attempts + 1 && |p.exchanges| == 2 * p.attempts && |added| <= 2
    requires p.pos <= q.pos <= |lines| && Responses(added) == lines[p.pos..q.pos]
    requires ExchangesFollowChat(answer, p.exchanges + added, chat)
    requires q == p.(pos := q.pos, exchanges := p.exchanges + added, probingContext := p.probingContext + Refined(added))
    ensures Consistent(lines, from, answer, search, chat, q)
  {
    RefinedAppend(p.exchanges, added);
    RoundsKeepQueries(answer, p.rounds, p.probingContext, Refined(added), search);
    ScriptAddExchanges(lines, from, p.pos, q.pos, p.rounds, p.exchanges, added);
  }

  /** After a declined round fully probed, the next attempt starts from a state between rounds. */
  lemma NextAttempt(
    lines: seq<string>, from: nat, answer: string, search: (nat, string) -> SearchOutcome,
    chat: (nat, Prompt) -> Completion, p: Progress, before: seq<Exchange>, added: seq<Exchange>, q: Progress)
    requires Consistent(lines, from, answer, search, chat, p) && p.attempts < MaxAttempts
    requires |p.rounds| == p.attempts + 1 && |before| == 2 * p.attempts && |added| == 2
    requires p.exchanges == before + added
    requires forall i :: 0 <= i < |p.rounds| ==> p.rounds[i].feedback == "n"
    requires q == p.(attempts := p.attempts + 1, previousQueries := [answer] + Refined(added))
    ensures Between(lines, from, answer, search, chat, q)
  {
    RefinedAppend(before, added);
    NextRoundQuery(answer, Refined(before), p.attempts, added);
  }

  /**
   * One pass of the loop body: search, show, ask, and on "n" probe twice. The lines
   * it reads follow those of the rounds before it.
   */
  method PlayRound(
    lines: seq<string>, from: nat, answer: string, search: (nat, string) -> SearchOutcome,
    chat: (nat, Prompt) -> Completion, p: Progress)
    returns (stop: Option<Outcome>, q: Progress)
    requires Between(lines, from, answer, search, chat, p) && p.attempts < MaxAttempts
    ensures stop.None? ==> Between(lines, from, answer, search, chat, q) && q.attempts == p.attempts + 1
    ensures stop.Some? ==>
              && Consistent(lines, from, answer, search, chat, q) && q.attempts == p.attempts
              && StoppedBy(stop.value, lines, search, answer, q)
  {
    var fullQuery := Join(p.previousQueries, " ");
    var found := search(p.attempts, fullQuery);
    if found.SearchThrew? {
      SearchStops(lines, from, answer, search, chat, p);
      return Some(SearchFailed), p;
    }
    var movies := Recommendations(found.result);
    var suggestedMovies := p.suggestedMovies;
    if |movies| > 0 {
      suggestedMovies := Titles(movies);
    }
    var round, pos := AskFeedback(lines, p.pos, fullQuery, movies);
    var shown := p.(pos := pos, suggestedMovies := suggestedMovies, rounds := p.rounds + [round]);
    AddRound(lines, from, answer, search, chat, p, round, shown);
    if round.feedback == "" || round.feedback == "y" {
      stop := Some(if round.feedback == "" then InputEnded else Satisfied);
      PromptStops(lines, answer, search, round, shown, stop.value);
      return stop, shown;
    }
    AllDeclinedExtend(p.rounds, round);
    stop, q := Refine(lines, from, answer, search, chat, shown);
  }

  /** A search that throws ends the session between rounds. */
  lemma SearchStops(
    lines: seq<string>, from: nat, answer: string, search: (nat, string) -> SearchOutcome,
    chat: (nat, Prompt) -> Completion, p: Progress)
    requires Between(lines, from, answer, search, chat, p)
    requires search(p.attempts, Join(p.previousQueries, " ")).SearchThrew?
    ensures Consistent(lines, from, answer, search, chat, p)
    ensures StoppedBy(SearchFailed, lines, search, answer, p)
  {
  }

  /** A round whose prompt read "y", or ran out of script, ends the session there. */
  lemma PromptStops(lines: seq<string>, answer: string, search: (nat, string) -> SearchOutcome, round: Round, q: Progress, outcome: Outcome)
    requires |q.rounds| == q.attempts + 1 && q.rounds[q.attempts] == round
    requires |q.exchanges| == 2 * q.attempts && |q.probingContext| == 2 * q.attempts
    requires FeedbackRule(round) && (round.feedback == "" ==> q.pos == |lines|)
    requires q.previousQueries == PreviousQueries(answer, q.probingContext, q.attempts)
    requires round.feedback == "" || round.feedback == "y"
    requires outcome == if round.feedback == "" then InputEnded else Satisfied
    ensures StoppedBy(outcome, lines, search, answer, q)
  {
  }

  /**
   * The `feedback === "n"` branch and `attempts++`: two questions, two answers, two
   * refined queries that become the next round's search string.
   */
  method Refine(
    lines: seq<string>, from: nat, answer: string, search: (nat, string) -> SearchOutcome,
    chat: (nat, Prompt) -> Completion, shown: Progress)
    returns (stop: Option<Outcome>, q: Progress)
    requires Consistent(lines, from, answer, search, chat, shown) && shown.attempts < MaxAttempts
    requires |shown.rounds| == shown.attempts + 1 && |shown.exchanges| == 2 * shown.attempts
    requires forall i :: 0 <= i < |shown.rounds| ==> shown.rounds[i].feedback == "n"
    ensures stop.None? ==> Between(lines, from, answer, search, chat, q) && q.attempts == shown.attempts + 1
    ensures stop.Some? ==>
              && stop.value == InputEnded && Consistent(lines, from, answer, search, chat, q)
              && q.attempts == shown.attempts && StoppedBy(InputEnded, lines, search, answer, q)
  {
    EvenDouble(shown.attempts);
    var added, next := Probe(lines, shown.pos, answer, shown.exchanges, chat);
    q := shown.(
      pos := next, attempts := if |added| < 2 then shown.attempts else shown.attempts + 1,
      exchanges := shown.exchanges + added, probingContext := shown.probingContext + Refined(added),
      previousQueries := [answer] + Refined(added));
    stop := if |added| < 2 then Some(InputEnded) else None;
    Probed(lines, from, answer, search, chat, shown, added, stop, q);
  }

  /** Either the probing got both answers and the next attempt begins, or the script ran out during it. */
  lemma Probed(
    lines: seq<string>, from: nat, answer: string, search: (nat, string) -> SearchOutcome,
    chat: (nat, Prompt) -> Completion, shown: Progress, added: seq<Exchange>, stop: Option<Outcome>, q: Progress)
    requires Consistent(lines, from, answer, search, chat, shown) && shown.attempts < MaxAttempts
    requires |shown.rounds| == shown.attempts + 1 && |shown.exchanges| == 2 * shown.attempts
    requires forall i :: 0 <= i < |shown.rounds| ==> shown.rounds[i].feedback == "n"
    requires ExchangesFollowChat(answer, shown.exchanges + added, chat)
    requires |added| <= 2 && q.pos == shown.pos + |added| && q.pos <= |lines| && (|added| < 2 ==> q.pos == |lines|)
    requires |added| >= 1 ==> added[0].response == lines[shown.pos]
    requires |added| == 2 ==> added[1].response == lines[shown.pos + 1]
    requires stop == if |added| < 2 then Some(InputEnded) else None
    requires q == shown.(
      pos := q.pos, attempts := if |added| < 2 then shown.attempts else shown.attempts + 1,
      exchanges := shown.exchanges + added, probingContext := shown.probingContext + Refined(added),
      previousQueries := [answer] + Refined(added))
    ensures stop.None? ==> Between(lines, from, answer, search, chat, q) && q.attempts == shown.attempts + 1
    ensures stop.Some? ==>
              && stop.value == InputEnded && Consistent(lines, from, answer, search, chat, q)
              && q.attempts == shown.attempts && StoppedBy(InputEnded, lines, search, answer, q)
  {
    if |added| < 2 {
      ProbedCutOff(lines, from, answer, search, chat, shown, added, q);
    } else {
      ProbedFully(lines, from, answer, search, chat, shown, added, q);
    }
  }

  /** Both answers given: the probing's exchanges are recorded and the next attempt begins. */
  lemma ProbedFully(
    lines: seq<string>, from: nat, answer: string, search: (nat, string) -> SearchOutcome,
    chat: (nat, Prompt) -> Completion, shown: Progress, added: seq<Exchange>, q: Progress)
    requires Consistent(lines, from, answer, search, chat, shown) && shown.attempts < MaxAttempts
    requires |shown.rounds| == shown.attempts + 1 && |shown.exchanges| == 2 * shown.attempts
    requires forall i :: 0 <= i < |shown.rounds| ==> shown.rounds[i].feedback == "n"
    requires ExchangesFollowChat(answer, shown.exchanges + added, chat)
    requires |added| == 2 && shown.pos + 2 <= |lines|
    requires added[0].response == lines[shown.pos] && added[1].response == lines[shown.pos + 1]
    requires q == shown.(
      pos := shown.pos + 2, attempts := shown.attempts + 1, exchanges := shown.exchanges + added,
      probingContext := shown.probingContext + Refined(added), previousQueries := [answer] + Refined(added))
    ensures Between(lines, from, answer, search, chat, q)
  {
    ProbeRead(lines, shown.pos, q.pos, added);
    var probed := q.(attempts := shown.attempts, previousQueries := shown.previousQueries);
    AddExchanges(lines, from, answer, search, chat, shown, added, probed);
    NextAttempt(lines, from, answer, search, chat, probed, shown.exchanges, added, q);
  }

  /** The script ran out during the probing: what was answered is recorded, and the session stops. */
  lemma ProbedCutOff(
    lines: seq<string>, from: nat, answer: string, search: (nat, string) -> SearchOutcome,
    chat: (nat, Prompt) -> Completion, shown: Progress, added: seq<Exchange>, q: Progress)
    requires Consistent(lines, from, answer, search, chat, shown) && shown.attempts < MaxAttempts
    requires |shown.rounds| == shown.attempts + 1 && |shown.exchanges| == 2 * shown.attempts
    requires forall i :: 0 <= i < |shown.rounds| ==> shown.rounds[i].feedback == "n"
    requires ExchangesFollowChat(answer, shown.exchanges + added, chat)
    requires |added| < 2 && shown.pos + |added| == |lines|
    requires |added| == 1 ==> added[0].response == lines[shown.pos]
    requires q == shown.(
      pos := |lines|, exchanges := shown.exchanges + added,
      probingContext := shown.probingContext + Refined(added), previousQueries := [answer] + Refined(added))
    ensures Consistent(lines, from, answer, search, chat, q)
    ensures StoppedBy(InputEnded, lines, search, answer, q)
  {
    ProbeRead(lines, shown.pos, q.pos, added);
    var probed := q.(previousQueries := shown.previousQueries);
    AddExchanges(lines, from, answer, search, chat, shown, added, probed);
    CutOff(lines, from, answer, search, chat, probed, shown.probingContext, added, q);
  }

  /**
   * The script ran out during the probing: `previousQueries` is the reset `[answer]`
   * with the refined queries pushed so far, and the session stops there.
   */
  lemma CutOff(
    lines: seq<string>, from: nat, answer: string, search: (nat, string) -> SearchOutcome,
    chat: (nat, Prompt) -> Completion, probed: Progress, before: seq<string>, added: seq<Exchange>, q: Progress)
    requires Consistent(lines, from, answer, search, chat, probed)
    requires |probed.rounds| == probed.attempts + 1 && probed.rounds[probed.attempts].feedback == "n"
    requires |before| == 2 * probed.attempts && probed.probingContext == before + Refined(added)
    requires |probed.exchanges| == 2 * probed.attempts + |added| && |added| < 2 && probed.pos == |lines|
    requires q == probed.(previousQueries := [answer] + Refined(added))
    ensures Consistent(lines, from, answer, search, chat, q)
    ensures StoppedBy(InputEnded, lines, search, answer, q)
  {
    assert q.probingContext[2 * q.attempts..] == Refined(added);
  }

  /**
   * How the loop leaves the session: the rounds read the script from line `from`
   * on and follow the searches, the feedback rule and the chat model, and the
   * outcome fixes how far they got.
   */
  ghost predicate Ended(
    lines: seq<string>, from: nat, answer: string, search: (nat, string) -> SearchOutcome,
    chat: (nat, Prompt) -> Completion, outcome: Outcome, p: Progress)
  {
    && outcome != NoQuery && p.attempts <= MaxAttempts && |p.rounds| <= MaxAttempts
    && (outcome != Exhausted ==> p.attempts < MaxAttempts)
    && from <= p.pos <= |lines| && |p.exchanges| <= 2 * |p.rounds| && lines[from..p.pos] == Read(p.rounds, p.exchanges)
    && RoundsFollowSearch(answer, p.rounds, p.probingContext, search)
    && (forall i :: 0 <= i < |p.rounds| ==> FeedbackRule(p.rounds[i]))
    && (forall i :: 0 <= i < |p.rounds| - 1 ==> p.rounds[i].feedback == "n")
    && p.probingContext == Refined(p.exchanges)
    && ExchangesFollowChat(answer, p.exchanges, chat)
    && p.suggestedMovies == LastSuggested(p.rounds)
    && (outcome == Satisfied ==>
          && |p.rounds| == p.attempts + 1 && |p.exchanges| == 2 * p.attempts
          && p.rounds[p.attempts].movies != [] && p.rounds[p.attempts].feedback == "y"
          && p.previousQueries == PreviousQueries(answer, p.probingContext, p.attempts))
    && (outcome == Exhausted ==>
          && p.attempts == MaxAttempts && |p.rounds| == MaxAttempts && |p.exchanges| == 2 * MaxAttempts
          && p.rounds[MaxAttempts - 1].feedback == "n"
          && p.previousQueries == PreviousQueries(answer, p.probingContext, MaxAttempts))
    && (outcome == InputEnded ==>
          && |p.rounds| == p.attempts + 1 && 2 * p.attempts <= |p.exchanges| <= 2 * p.attempts + 1
          && p.pos == |lines| && PromptOrProbe(p) && CutOffQueries(answer, p))
    && (outcome == SearchFailed ==>
          && |p.rounds| == p.attempts && |p.exchanges| == 2 * p.attempts
          && (p.attempts > 0 ==> p.rounds[p.attempts - 1].feedback == "n")
          && p.previousQueries == PreviousQueries(answer, p.probingContext, p.attempts)
          && search(p.attempts, RoundQuery(answer, p.probingContext, p.attempts)).SearchThrew?)
  }

  /** Either way out of the loop, three declined rounds or a round that stopped it, ends it as `Ended` says. */
  lemma Conclude(
    lines: seq<string>, from: nat, answer: string, search: (nat, string) -> SearchOutcome,
    chat: (nat, Prompt) -> Completion, outcome: Outcome, p: Progress)
    requires outcome == Exhausted ==> Between(lines, from, answer, search, chat, p) && p.attempts == MaxAttempts
    requires outcome != Exhausted ==>
               && Consistent(lines, from, answer, search, chat, p) && p.attempts < MaxAttempts
               && StoppedBy(outcome, lines, search, answer, p)
    ensures Ended(lines, from, answer, search, chat, outcome, p)
  {
  }

  /**
   * The `while (attempts < 3)` loop: it runs out of attempts after three
   * declined rounds, or a round stops it earlier, before `attempts` reaches three.
   */
  method PlayRounds(
    lines: seq<string>, from: nat, answer: string, search: (nat, string) -> SearchOutcome,
    chat: (nat, Prompt) -> Completion, start: Progress)
    returns (outcome: Outcome, p: Progress)
    requires Between(lines, from, answer, search, chat, start)
    ensures Ended(lines, from, answer, search, chat, outcome, p)
  {
    p := start;
    while p.attempts < MaxAttempts
      invariant Between(lines, from, answer, search, chat, p)
      decreases MaxAttempts - p.attempts
    {
      var stop;
      stop, p := PlayRound(lines, from, answer, search, chat, p);
      if stop.Some? {
        Conclude(lines, from, answer, search, chat, stop.value, p);
        return stop.value, p;
      }
    }
    Conclude(lines, from, answer, search, chat, Exhausted, p);
    return Exhausted, p;
  }

  /**
   * `previousQueries` always starts with the original query and holds at most two
   * refined queries after it; after a round fully probed it holds exactly two.
   */
  lemma PreviousQueriesShape(
    lines: seq<string>, from: nat, answer: string, search: (nat, string) -> SearchOutcome,
    chat: (nat, Prompt) -> Completion, outcome: Outcome, p: Progress)
    requires Ended(lines, from, answer, search, chat, outcome, p)
    ensures 1 <= |p.previousQueries| <= 3 && p.previousQueries[0] == answer
    ensures outcome != InputEnded ==> |p.previousQueries| == if p.attempts == 0 then 1 else 3
  {
    var cut := outcome == InputEnded && p.rounds[p.attempts].feedback == "n";
    QueriesShape(answer, p.probingContext, p.previousQueries, p.attempts, cut);
  }

  /**
   * The two forms `previousQueries` takes, at the top of a round or cut off during
   * its probing: the original query, then the latest refined queries since the reset.
   */
  lemma QueriesShape(answer: string, pc: seq<string>, pq: seq<string>, a: nat, cut: bool)
    requires cut ==> 2 * a <= |pc| <= 2 * a + 1 && pq == [answer] + pc[2 * a..]
    requires !cut ==> |pc| == 2 * a && pq == PreviousQueries(answer, pc, a)
    ensures 1 <= |pq| <= 3 && pq[0] == answer && |pq| - 1 <= |pc|
    ensures pq == [answer] + pc[|pc| - (|pq| - 1)..]
    ensures !cut ==> |pq| == if a == 0 then 1 else 3
  {
    if !cut && a > 0 {
      assert pc[|pc| - 2..] == [pc[2 * a - 2], pc[2 * a - 1]];
    }
  }

  /**
   * The session body of `getUserInput`. What the user typed decides it: the lines
   * it reads are blank lines, the initial query, then exactly what the rounds read.
   * Exactly one log is handed over, and only when a "y" or the last declined round
   * ends the loop.
   */
  method RunSession(lines: seq<string>, search: (nat, string) -> SearchOutcome, chat: (nat, Prompt) -> Completion)
    returns (s: Session)
    ensures s.outcome == NoQuery <==> forall i :: 0 <= i < |lines| ==> IsBlank(lines[i])
    ensures s.outcome == NoQuery ==> s.final == Progress(|lines|, 0, [], [], [], [], []) && s.logs == []
    ensures s.outcome != NoQuery ==>
              && QueryLine(lines, s.afterQuery, s.originalQuery)
              && Ended(lines, s.afterQuery, s.originalQuery, search, chat, s.outcome, s.final)
    ensures s.outcome == Satisfied ==>
              s.logs == [LogRecord(s.originalQuery, s.final.suggestedMovies, s.final.probingContext, true)]
    ensures s.outcome == Exhausted ==>
              s.logs == [LogRecord(s.originalQuery, s.final.suggestedMovies, s.final.probingContext, false)]
    ensures s.outcome == InputEnded || s.outcome == SearchFailed ==> s.logs == []
  {
    var query, pos := ReadInitialQuery(lines);
    if query.None? {
      return Session(NoQuery, 0, "", Progress(pos, 0, [], [], [], [], []), []);
    }
    var answer := query.value;
    assert QueryLine(lines, pos, answer);

    var p := Progress(pos, 0, [answer], [], [], [], []);
    var outcome;
    outcome, p := PlayRounds(lines, pos, answer, search, chat, p);
    var logs := if outcome == Satisfied then [LogRecord(answer, p.suggestedMovies, p.probingContext, true)]
                else if outcome == Exhausted then [LogRecord(answer, p.suggestedMovies, p.probingContext, false)]
                else [];
    return Session(outcome, pos, answer, p, logs);
  }

  /**
   * What `Ended` says about the first round when the first search finds movies: it
   * shows them and asks for feedback; a prompt left unanswered is the last thing
   * read; a "y" makes it the only round of a satisfied session.
   */
  lemma FirstRoundEnds(
    lines: seq<string>, from: nat, answer: string, search: (nat, string) -> SearchOutcome,
    chat: (nat, Prompt) -> Completion, outcome: Outcome, p: Progress)
    requires Ended(lines, from, answer, search, chat, outcome, p)
    requires search(0, answer).Searched? && Recommendations(search(0, answer).result) != []
    ensures p.rounds != [] && p.rounds[0].movies != [] && FeedbackRule(p.rounds[0])
    ensures from <= p.pos <= |lines| && |p.exchanges| <= 2 * |p.rounds| && lines[from..p.pos] == Read(p.rounds, p.exchanges)
    ensures p.rounds[0].feedback == "" ==> p.pos == |lines| && p.exchanges == [] && |p.rounds| == 1
    ensures p.rounds[0].feedback == "y" ==> outcome == Satisfied && |p.rounds| == 1
  {
    assert RoundQuery(answer, p.probingContext, 0) == answer;
    if p.rounds == [] {
      assert false;
    }
  }

  /** One round with no probe reads exactly its prompt's lines. */
  lemma ReadOneRound(rounds: seq<Round>, exchanges: seq<Exchange>)
    requires |rounds| == 1 && exchanges == []
    ensures Read(rounds, exchanges) == rounds[0].yesNoLines
  {
    assert Read(rounds, exchanges) == Read([], []) + rounds[0].yesNoLines + Responses([]);
  }

  /** A first prompt whose first line is a valid answer reads only that line and takes its answer. */
  lemma FirstPromptAnswer(lines: seq<string>, from: nat, pos: nat, rounds: seq<Round>, exchanges: seq<Exchange>)
    requires rounds != [] && |exchanges| <= 2 * |rounds| && from <= pos <= |lines|
    requires lines[from..pos] == Read(rounds, exchanges) && from < |lines| && IsYesNo(lines[from])
    requires rounds[0].movies != [] && FeedbackRule(rounds[0]) && rounds[0].yesNoLines != []
    ensures rounds[0].yesNoLines == [lines[from]] && rounds[0].feedback == Normalize(lines[from])
  {
    ReadStarts(rounds, exchanges);
    var yn := rounds[0].yesNoLines;
    assert yn[0] == Read(rounds, exchanges)[0] == lines[from];
    assert |yn| == 1;
  }

  /**
   * The user's side decides the session: when the first search finds movies and the
   * line after the query is "y" (in either case, with any whitespace), every session
   * that `RunSession` may return is satisfied after that one round.
   */
  lemma SatisfiedOnFirstYes(
    lines: seq<string>, search: (nat, string) -> SearchOutcome, chat: (nat, Prompt) -> Completion, s: Session)
    requires s.outcome != NoQuery && QueryLine(lines, s.afterQuery, s.originalQuery)
    requires Ended(lines, s.afterQuery, s.originalQuery, search, chat, s.outcome, s.final)
    requires s.afterQuery < |lines| && Normalize(lines[s.afterQuery]) == "y"
    requires search(0, s.originalQuery).Searched? && Recommendations(search(0, s.originalQuery).result) != []
    ensures s.outcome == Satisfied && |s.final.rounds| == 1
    ensures s.final.rounds[0].yesNoLines == [lines[s.afterQuery]] && s.final.rounds[0].feedback == "y"
  {
    var p := s.final;
    FirstRoundEnds(lines, s.afterQuery, s.originalQuery, search, chat, s.outcome, p);
    if p.rounds[0].yesNoLines == [] {
      ReadOneRound(p.rounds, p.exchanges);
      assert false;
    }
    FirstPromptAnswer(lines, s.afterQuery, p.pos, p.rounds, p.exchanges);
  }

}
