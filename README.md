# Movie recommendation agent: a verified model of its own logic

The movie recommendation agent is a command-line program. It asks the user what they
want to watch, searches a vector store of movies, and asks whether the user is satisfied.
When the user is not, it asks two follow-up questions generated by a chat model. It turns
each answer into a refined query and searches again, for at most three rounds. A separate
ingestion script reads a CSV file of movies into that vector store, one batch of embeddings
at a time.

This project models, in Dafny, the parts of the program that are its own logic rather than
calls into other services:

- `text.dfy` (module `Text`): the JavaScript string primitives the core relies on. These are
  `String.prototype.trim` and the regular-expression class `\s`, `toLowerCase`, and
  `Array.prototype.join`.
- `helpers.dfy` (module `Helpers`): what `src/cli/helpers.ts` does with the text the chat model
  returns. It strips leading formatting characters, trims, and falls back to the user's answer
  or to a fixed default question. It also shows how the refinement prompt lists earlier
  queries, and how a search result is unwrapped.
- `cli_controller.dfy` (module `CliController`): `src/cli/cli.controller.ts`. This covers the
  yes/no validation loop, the check for a blank initial query, and the session loop with its
  rounds, attempts, search strings, probing step, collected refined queries, suggested titles
  and the single log dispatch.
- `movie_collection.dfy` (module `MovieCollection`): `src/knowledge_base/movie-collection.ts`.
  This covers the CSV row handler (de-duplication by id, the 100000 cap, field defaults) and
  the batch loop (slicing, dropping empty embeddings, the aligned arrays handed to `add`).
- `wrappers.dfy` (module `Wrappers`): an `Option` type.

Everything outside the process is an input to the model:

- the lines the user types are a finite sequence of strings;
- each vector-store answer is a function of the round and the query;
- each chat-model reply is a function of the call number and the prompt;
- embeddings are a function from text to a vector of an unspecified element type;
- the CSV file is a sequence of parsed rows.

The model records a log dispatch as a value; it does not perform it.

The imperative code stays imperative:

- `GetYesNoResponse`, `ReadInitialQuery`, `PlayRounds`, `ReadMovies` and `PopulateCollection`
  are methods with loops over those inputs. `PlayRounds` is the `while (attempts < 3)` loop;
  `PlayRound` and `Refine` are one pass of its body, and `RunSession` runs the whole session.
- Each one is proved against functions and predicates that state what the source promises.

The string post-processing of the helpers is pure and is modelled by functions.

## Model

| member | source | states |
|---|---|---|
| Text.Trim | src/cli/helpers.ts:44 | `trim` never lengthens a string, and its result has no whitespace at either end |
| Text.TrimPadded | src/cli/helpers.ts:44 | `Trim(s)` sits in `s` with only whitespace before and after it |
| Text.TrimUnique | src/cli/helpers.ts:44 | any piece of `s` that has no whitespace at its ends and only whitespace around it is `Trim(s)`, so `trim` is characterised exactly |
| Text.TrimIdempotent | src/cli/helpers.ts:45 | trimming twice is trimming once, so the re-trim in `generateRefinedQuery` only matters after the strip |
| Text.ToLowerAt | src/cli/cli.controller.ts:29 | `toLowerCase` works character by character: character `i` of the result is character `i` of the input, lowercased |
| Text.ToLower | src/cli/cli.controller.ts:29 | `toLowerCase` keeps the length of the text and leaves no ASCII capital letter in it |
| Text.JoinAt | src/cli/cli.controller.ts:58 | the joined string holds every element in order, each one after the separator except the first |
| Text.JoinLength | src/cli/cli.controller.ts:58 | the joined string is exactly as long as its elements together with one separator between each two neighbours |
| Helpers.StripLeading | src/cli/helpers.ts:45 | replacing `^[class]+` by "" never lengthens the text and leaves it not starting with a class character |
| Helpers.StripLeadingShape | src/cli/helpers.ts:45 | the removed part is a run of class characters at the front, and what is kept is the rest of the text |
| Helpers.StripLeadingUnique | src/cli/helpers.ts:45 | the longest leading run is the only run whose removal leaves a text that does not start with a class character |
| Helpers.StripBullet | src/cli/helpers.ts:84 | `replace(/^[-\d\.\•]+\s*/, "")` leaves a text that does not start with a bullet character unchanged, and otherwise leaves no leading whitespace |
| Helpers.StripBulletShape | src/cli/helpers.ts:84 | for a text starting with a bullet character, what is removed is the longest leading run of bullet characters and then whitespace only; what is kept is the rest of the text |
| Helpers.RefinedQuery | src/cli/helpers.ts:36-51 | when the chat call throws the answer comes back unchanged; any reply gives a result with no whitespace at either end |
| Helpers.StripThenTrimIsSubstring | src/cli/helpers.ts:45 | stripping the leading artifact run and re-trimming leaves a substring of the trimmed text |
| Helpers.RefinedQueryShape | src/cli/helpers.ts:44-47 | the success-path result is trimmed and is a substring of the trimmed reply, or of the trimmed answer when the reply is missing or blank |
| Helpers.RefinedQueryKeepsCleanReply | src/cli/helpers.ts:44-45 | a reply that does not start with an artifact character comes back as the trimmed reply itself |
| Helpers.RefinedQueryMayBeEmpty | src/cli/helpers.ts:44-47 | the reply "1." gives the empty refined query, because the result is not checked again after the strip |
| Helpers.FollowUpQuestion | src/cli/helpers.ts:81-90 | a thrown call, missing content, or content that is empty after trim and strip gives the default; a result other than the default is non-empty and comes from the reply |
| Helpers.FollowUpQuestionShape | src/cli/helpers.ts:81-85 | a question taken from the reply is a non-empty tail of the trimmed reply with no whitespace around it |
| Helpers.FirstFollowUpQuestion | src/cli/helpers.ts:74-90 | never empty, and "What specific type of comedy movies do you enjoy?" when the call throws or the content is missing |
| Helpers.NextFollowUpQuestion | src/cli/helpers.ts:116-132 | never empty, and "Do you prefer lighthearted comedy or satire?" when the call throws or the content is missing |
| Helpers.FollowUpArtifactReplyFallsBack | src/cli/helpers.ts:81-85 | a reply made only of bullet characters once trimmed gives the default question |
| Helpers.FollowUpKeepsCleanReply | src/cli/helpers.ts:81-84 | a reply that does not start with a bullet character comes back trimmed and otherwise intact |
| Helpers.BulletListInOrder | src/cli/helpers.ts:24 | the prompt's list shows every previous query in order, one `• q` line each, separated by newlines |
| Helpers.BulletListAppend | src/cli/helpers.ts:24 | one more previous query adds exactly one line at the end of the list |
| Helpers.BulletList | src/cli/helpers.ts:24 | with no previous queries the list is empty; otherwise it begins with the first query's `• q` line and ends with the last query's |
| Helpers.RecommendationsFromStore | src/cli/helpers.ts:146-147 | `metadatas?.[0] \|\| []` gives movies exactly when the store answered with a non-empty first list, and every movie it gives is from that list |
| CliController.YesNoAccepts | src/cli/cli.controller.ts:29-31 | the validator accepts exactly "y", "Y", "n" and "N", with any whitespace around them |
| CliController.Normalize | src/cli/cli.controller.ts:29 | the cleaned response is "y" exactly when the trimmed line is "y" or "Y", and "n" exactly when it is "n" or "N" |
| CliController.GetYesNoResponse | src/cli/cli.controller.ts:23-37 | the result is "y" or "n", namely the normalised form of the first line that normalises to one of them; every earlier line was rejected, and the input is read no further |
| CliController.BlankIsWhitespace | src/cli/cli.controller.ts:46 | an initial query is rejected exactly when it is whitespace only |
| CliController.ReadInitialQuery | src/cli/cli.controller.ts:43-49 | the query is the first line that is not blank; every line before it was blank and was asked again |
| CliController.FirstExchange | src/cli/cli.controller.ts:94-110 | the first probing exchange keeps the user's response and shows a non-empty question |
| CliController.NextExchange | src/cli/cli.controller.ts:112-129 | the second probing exchange keeps the user's response and shows a non-empty question |
| CliController.Probe | src/cli/cli.controller.ts:94-129 | the probing step adds at most two exchanges, and each one is the helpers' result for the next chat calls and the next input line; fewer than two means the input ended |
| CliController.AskFeedback | src/cli/cli.controller.ts:61-87 | with movies to show, the y/n prompt decides the feedback; with none, the feedback is "n" and no line is read |
| CliController.RefinedAppend | src/cli/cli.controller.ts:104-129 | more exchanges add exactly their refined queries, in order, at the end of `probingContext` |
| CliController.LastSuggested | src/cli/cli.controller.ts:53-63 | `suggestedMovies` is empty exactly when no round so far found a movie |
| CliController.LastSuggestedIsLatest | src/cli/cli.controller.ts:53-63 | `suggestedMovies` holds the titles of the latest round that found movies, in the order the store returned them |
| CliController.NextRoundQuery | src/cli/cli.controller.ts:58-128 | after a declined round, the next search string is the original query and the round's two refined queries, joined by single spaces |
| CliController.RoundQueryParts | src/cli/cli.controller.ts:58 | the first round searches with the original query alone; a later round searches with the original query and the two refined queries of the round before, separated by single spaces |
| CliController.NextAttempt | src/cli/cli.controller.ts:94-132 | after a declined and fully probed round, `attempts` rises by one, and `previousQueries` is the original query followed by the two new refined queries |
| CliController.Refine | src/cli/cli.controller.ts:89-132 | after a declined round, `previousQueries` is reset to the original query and gets each refined query pushed; either both follow-up questions are answered and `attempts` rises by one with the loop invariant kept (`previousQueries` is then the original query and the two new refined queries), or the input has run out, every line is read, and the session stops with `previousQueries` holding the original query and what was pushed so far |
| CliController.QueriesShape | src/cli/cli.controller.ts:94-128 | `previousQueries` is the original query followed by the latest refined queries since the reset, at most two; at the top of a round it holds one entry in the first round and three after that |
| CliController.PreviousQueriesShape | src/cli/cli.controller.ts:51-128 | however the session ends, `previousQueries` starts with the original query and has between one and three entries; unless the input ran out, it holds one entry when no round was probed and three otherwise |
| CliController.PlayRound | src/cli/cli.controller.ts:58-132 | one pass of the loop either ends the session (satisfied after "y", input ended only once every line is read, search threw) or raises `attempts` by exactly one and keeps the loop invariant; the lines read so far are exactly the y/n lines and answers of the rounds, in order |
| CliController.PlayRounds | src/cli/cli.controller.ts:57-133 | the loop either ends after three declined, fully probed rounds with `attempts` at 3, or is stopped by a round while `attempts` is still below 3; the lines it read are exactly the rounds' y/n lines and probe answers, and it stops on missing input only at the end of the input |
| CliController.RunSession | src/cli/cli.controller.ts:42-145 | no query exactly when every line is blank. Otherwise the query is the first non-blank line, and the lines read after it are exactly the rounds' y/n lines and answers. At most 3 rounds; each searches with its query and obeys the feedback rule, and every round but the last was declined. `probingContext` is every refined query, `suggestedMovies` the latest titles, and `previousQueries` the original query with the refined queries pushed since the last reset. One log is dispatched after a "y" (success) or after 3 declined rounds (failure), and none when the input or the search ends the session |
| CliController.ReadStarts | src/cli/cli.controller.ts:57-71 | the first lines read after the query are the first round's y/n prompt lines |
| CliController.FirstRoundEnds | src/cli/cli.controller.ts:57-83 | when the first search finds movies, the first round shows them and asks; an unanswered prompt ends the input with nothing read after it; a "y" makes it the only round of a satisfied session |
| CliController.FirstPromptAnswer | src/cli/cli.controller.ts:23-37 | when the first line read by the prompt is a valid answer, the prompt reads that line only and takes its answer |
| CliController.SatisfiedOnFirstYes | src/cli/cli.controller.ts:57-83 | when the first search finds movies and the line after the query is "y", every session `RunSession` can return is satisfied after one round that read just that line |
| MovieCollection.BeforeDash | src/knowledge_base/movie-collection.ts:34 | `split("-")[0]` is a prefix with no "-" that ends at the first "-" or at the end |
| MovieCollection.BeforeDashUnique | src/knowledge_base/movie-collection.ts:34 | that prefix is the only one with these properties |
| MovieCollection.ToMovie | src/knowledge_base/movie-collection.ts:29-40 | fields copied, year before the first "-" of the release date (absent when the date is absent), empty rating to "N/A", empty keywords, credits, tagline and companies to "" |
| MovieCollection.YearOfReleaseDate | src/knowledge_base/movie-collection.ts:34 | the release date "YYYY-rest" gives the year "YYYY" |
| MovieCollection.HandleRow | src/knowledge_base/movie-collection.ts:23-42 | a row never changes or removes a movie already held; it adds at most one movie, its own, exactly when the cap is not reached and its id is new; below the cap its id is seen afterwards |
| MovieCollection.Load | src/knowledge_base/movie-collection.ts:16-42 | the list built holds at most one movie per row and never more than 100000 |
| MovieCollection.LoadShape | src/knowledge_base/movie-collection.ts:19-29 | the seen-id set is exactly the ids held, so ignored rows never enlarge it; ids are pairwise distinct; at most 100000 movies |
| MovieCollection.LoadFollowsFirstOccurrences | src/knowledge_base/movie-collection.ts:23-42 | below the cap the catalog is every first occurrence and has seen every id; at the cap it is the first 100000 first occurrences |
| MovieCollection.LoadIsFirstOccurrences | src/knowledge_base/movie-collection.ts:23-42 | the catalog is the first 100000 rows with an id not seen before, mapped to movies, in input order |
| MovieCollection.ReadMovies | src/knowledge_base/movie-collection.ts:16-51 | the row handler run over every row yields the first 100000 first occurrences in input order, with distinct ids |
| MovieCollection.EmbeddingTextFields | src/knowledge_base/movie-collection.ts:76 | the embedded text holds the nine fields in order, separated by single spaces starting from the title, with a missing field written as "undefined" |
| MovieCollection.BatchesConcat | src/knowledge_base/movie-collection.ts:70-71 | the batches, put back together, are the movie list |
| MovieCollection.BatchSizes | src/knowledge_base/movie-collection.ts:70-71 | every batch holds `BATCH_SIZE` movies, except the last, which holds between 1 and `BATCH_SIZE` |
| MovieCollection.EmbedBatchFaithful | src/knowledge_base/movie-collection.ts:74-80 | element `k` of `batchEmbeddings` carries movie `k` of the batch, its id, and the embedding of its text |
| MovieCollection.NonEmpty | src/knowledge_base/movie-collection.ts:82 | the filter keeps no more elements than it is given, and only elements with a non-empty embedding |
| MovieCollection.NonEmptyNone | src/knowledge_base/movie-collection.ts:82 | the filter keeps nothing exactly when every embedding is empty |
| MovieCollection.InsertForShape | src/knowledge_base/movie-collection.ts:82-91 | a batch produces no `add` call exactly when every embedding in it is empty; a call it makes has aligned arrays and at most as many entries as the batch has movies |
| MovieCollection.InsertOfAligned | src/knowledge_base/movie-collection.ts:85-89 | the ids, metadatas and embeddings arrays have equal, non-zero length, and entry `k` of each belongs to the same movie |
| MovieCollection.InsertOf | src/knowledge_base/movie-collection.ts:85-89 | each of the three arrays has exactly one entry per kept element |
| MovieCollection.BatchMetadatas | src/knowledge_base/movie-collection.ts:82-89 | one batch inserts exactly its movies with a non-empty embedding, in order |
| MovieCollection.InsertsMetadatas | src/knowledge_base/movie-collection.ts:70-91 | over all batches, the inserted movies are the movies with a non-empty embedding, in batch order |
| MovieCollection.InsertsAligned | src/knowledge_base/movie-collection.ts:70-91 | every `add` call has aligned, non-empty arrays |
| MovieCollection.AddBatch | src/knowledge_base/movie-collection.ts:71-91 | one pass of the loop body adds the batch's call, if any, and keeps the loop invariant |
| MovieCollection.PopulateCollection | src/knowledge_base/movie-collection.ts:70-92 | the loop makes one `add` call per batch that has a non-empty embedding. Each call is aligned, and together the calls insert exactly the movies with a non-empty embedding, in order |

## Left out

- Prompt wording: the fixed text of the three prompts (the rules lists) is not modelled. A prompt is a value carrying its variable parts, and the chat model is an input.
- Chat-model, embedding and vector-store calls (`openai`, `chromadb`) are inputs to the model. Their results are not modelled, and embedding values are an unspecified element type of which only the length matters. The embedding function maps a text to one vector, so two movies with the same text get the same result, both empty or both not; the program makes one call per movie, and two such calls could fail differently. No property here depends on this.
- The collection listing, deletion and creation before the batch loop (`src/knowledge_base/movie-collection.ts:60-68`) are vector-store I/O and are left out.
- `saveUserLog`, `runInBackgroundTask` and `process.exit`: MongoDB persistence and process lifecycle. The model records the log that is dispatched, with the same arguments, and not its completion. `probingContext` is passed as the list of refined query strings, as the controller does.
- Terminal output (`chalk`, `figlet`, `gradient-string`, `console.log`) and the printed movie list are presentation and are left out.
- CSV parsing and `fs` streams: the row handler receives a sequence of already parsed rows. Stream errors (`reject`) are left out.
- CliController.RunSession: when the input script runs out, the real program waits for input for ever. The model ends the session there instead, with no log: with outcome `NoQuery` when it runs out before a non-blank query was typed, and with outcome `InputEnded` when it runs out later, at a y/n prompt or a follow-up question.
- CliController.RunSession: a vector-store failure is not caught anywhere in the controller (`src/cli/cli.controller.ts:59`, `src/cli/helpers.ts:146`, `src/knowledge_base/vector-search.ts`). The model follows the code: the session stops with outcome `SearchFailed` and no log. A failed search is not treated as a round with no matches.
- Text.ToLower: it lowercases ASCII letters only. No other character lowercases to "y" or "n", so the validator's decisions are unaffected.
- MovieCollection.PopulateCollection: the embeddings of one batch are requested concurrently (`Promise.all`). The model computes them in batch order, which matches the order `Promise.all` returns them in. Embedding failures appear only as empty embeddings, which is what `generateEmbedding` returns on error.
- MovieCollection.PopulateCollection: every `collection.add` call is assumed to succeed. In the program a rejected call ends the loop, and the error is caught and logged at `src/knowledge_base/movie-collection.ts:97-99`, so later batches are never added. The model records a call for every batch with a non-empty embedding.
- MovieCollection.PopulateCollection: `BATCH_SIZE` (1000 in `src/config/constants.ts`) is a parameter, required to be positive.
- `startCLI` and the recursion of `getUserInput` after a blank query are the same loop as `ReadInitialQuery`. The banner and the readline interface are left out.
