/**
 * Catalog ingestion (`src/knowledge_base/movie-collection.ts`): the CSV row handler of
 * `readMoviesFromCSV`, which de-duplicates rows by id, caps the catalog and fills in
 * field defaults, and the batch loop of `setupAndPopulateCollection`, which embeds
 * each movie and inserts the movies whose embedding is not empty.
 *
 * The CSV parser, the embedding service and the vector store are outside the model:
 * rows are a sequence, the embedding service is a function from text to a vector of
 * an unspecified element type, and every `collection.add` call is recorded as a value.
 */
module MovieCollection {
  import opened Wrappers
  import opened Text

  /** The catalog stops growing once it holds this many movies. */
  const MaxMovies: nat := 100000

  function Min(a: int, b: int): int {
    if a < b then a else b
  }

  /** A parsed CSV row; `None` is a column the row does not have (JavaScript `undefined`). */
  datatype Row = Row(
    id: Option<string>,
    title: Option<string>,
    genres: Option<string>,
    overview: Option<string>,
    releaseDate: Option<string>,
    voteAverage: Option<string>,
    keywords: Option<string>,
    credits: Option<string>,
    tagline: Option<string>,
    productionCompanies: Option<string>)

  /** The movie record the row handler pushes, which is also the metadata stored with its embedding. */
  datatype Movie = Movie(
    id: Option<string>,
    title: Option<string>,
    genre: Option<string>,
    description: Option<string>,
    year: Option<string>,
    rating: string,
    keywords: string,
    credits: string,
    tagline: string,
    productionCompanies: string)

  /** A column JavaScript treats as false: missing or the empty string. */
  predicate Falsy(x: Option<string>) {
    x.None? || x.value == ""
  }

  /** `x || fallback` on a column. */
  function OrElse(x: Option<string>, fallback: string): (r: string)
    ensures Falsy(x) ==> r == fallback
    ensures !Falsy(x) ==> r == x.value
  {
    if Falsy(x) then fallback else x.value
  }

  /** `s.split("-")[0]`: the text before the first "-", or all of `s` when it has none. */
  function BeforeDash(s: string): (r: string)
    ensures r <= s && '-' !in r
    ensures |r| < |s| ==> s[|r|] == '-'
  {
    if s == [] || s[0] == '-' then [] else [s[0]] + BeforeDash(s[1..])
  }

  /** `BeforeDash` is the only prefix with no "-" that ends at a "-" or at the end. */
  lemma {:induction false} BeforeDashUnique(s: string, r: string)
    requires r <= s && '-' !in r
    requires |r| < |s| ==> s[|r|] == '-'
    ensures BeforeDash(s) == r
    decreases |s|
  {
    if r != [] {
      assert s[0] == r[0] && r[0] != '-';
      assert r[1..] <= s[1..] && '-' !in r[1..] by {
        assert forall k :: 0 <= k < |r| - 1 ==> r[1..][k] == r[k + 1];
      }
      BeforeDashUnique(s[1..], r[1..]);
      assert r == [s[0]] + r[1..];
    }
  }

  /** The object literal built from a row, with its defaults. */
  function ToMovie(row: Row): (m: Movie)
    ensures m.id == row.id && m.title == row.title && m.genre == row.genres && m.description == row.overview
    ensures row.releaseDate.None? <==> m.year.None?
    ensures m.year.Some? ==>
              var date := row.releaseDate.value;
              m.year.value <= date && '-' !in m.year.value &&
              (|m.year.value| < |date| ==> date[|m.year.value|] == '-')
    ensures m.rating == (if Falsy(row.voteAverage) then "N/A" else row.voteAverage.value)
    ensures m.rating != ""
    ensures m.keywords == (if Falsy(row.keywords) then "" else row.keywords.value)
    ensures m.credits == (if Falsy(row.credits) then "" else row.credits.value)
    ensures m.tagline == (if Falsy(row.tagline) then "" else row.tagline.value)
    ensures m.productionCompanies == (if Falsy(row.productionCompanies) then "" else row.productionCompanies.value)
  {
    Movie(
      row.id, row.title, row.genres, row.overview,
      if row.releaseDate.Some? then Some(BeforeDash(row.releaseDate.value)) else None,
      OrElse(row.voteAverage, "N/A"),
      OrElse(row.keywords, ""), OrElse(row.credits, ""), OrElse(row.tagline, ""),
      OrElse(row.productionCompanies, ""))
  }

  /** The year is the part of the release date before its first "-" (e.g. "1999" of "1999-03-31"). */
  lemma YearOfReleaseDate(row: Row, year: string, rest: string)
    requires row.releaseDate == Some(year + "-" + rest) && '-' !in year
    ensures ToMovie(row).year == Some(year)
  {
    var s := year + "-" + rest;
    assert year <= s && s[|year|] == '-';
    BeforeDashUnique(s, year);
  }

  // ---- readMoviesFromCSV ----

  /** The two locals the row handler changes: the movie list and the set of ids seen. */
  datatype Catalog = Catalog(movies: seq<Movie>, uniqueIds: set<Option<string>>)

  /**
   * One call of the `data` handler: the movies held are kept, and at most one is added,
   * the row's own, exactly when the cap is not reached and its id was not seen. Below the
   * cap the row's id is seen afterwards.
   */
  function HandleRow(c: Catalog, row: Row): (r: Catalog)
    ensures c.movies <= r.movies && |r.movies| <= |c.movies| + 1
    ensures c.uniqueIds <= r.uniqueIds
    ensures |r.movies| == |c.movies| + 1 <==> |c.movies| < MaxMovies && row.id !in c.uniqueIds
    ensures |r.movies| == |c.movies| + 1 ==> r.movies[|c.movies|] == ToMovie(row) && r.uniqueIds == c.uniqueIds + {row.id}
    ensures |r.movies| == |c.movies| ==> r == c
    ensures |c.movies| < MaxMovies ==> row.id in r.uniqueIds
  {
    if |c.movies| >= MaxMovies then c
    else if row.id in c.uniqueIds then c
    else Catalog(c.movies + [ToMovie(row)], c.uniqueIds + {row.id})
  }

  /** The catalog after the handler has seen every row, in order. */
  function Load(rows: seq<Row>): (c: Catalog)
    ensures |c.movies| <= |rows| && |c.movies| <= MaxMovies
    decreases |rows|
  {
    if rows == [] then Catalog([], {}) else HandleRow(Load(rows[..|rows| - 1]), rows[|rows| - 1])
  }

  /** The ids of some rows. */
  function RowIds(rows: seq<Row>): set<Option<string>>
    decreases |rows|
  {
    if rows == [] then {} else RowIds(rows[..|rows| - 1]) + {rows[|rows| - 1].id}
  }

  /** The ids of some movies. */
  function MovieIds(movies: seq<Movie>): set<Option<string>>
    decreases |movies|
  {
    if movies == [] then {} else MovieIds(movies[..|movies| - 1]) + {movies[|movies| - 1].id}
  }

  /** Every movie's id is among the ids of the list, and nothing else is. */
  lemma {:induction false} MovieIdsMembers(movies: seq<Movie>, x: Option<string>)
    ensures x in MovieIds(movies) <==> exists i :: 0 <= i < |movies| && movies[i].id == x
    decreases |movies|
  {
    if movies != [] {
      var init := movies[..|movies| - 1];
      MovieIdsMembers(init, x);
      if x in MovieIds(init) {
        var i :| 0 <= i < |init| && init[i].id == x;
        assert movies[i].id == x;
      }
      if exists i :: 0 <= i < |movies| && movies[i].id == x {
        var i :| 0 <= i < |movies| && movies[i].id == x;
        if i < |init| {
          assert init[i].id == x;
        }
      }
    }
  }

  predicate DistinctIds(movies: seq<Movie>) {
    forall i, j :: 0 <= i < j < |movies| ==> movies[i].id != movies[j].id
  }

  /** The rows whose id no earlier row has, in input order: a reference definition of the de-duplication. */
  function FirstOccurrences(rows: seq<Row>): (r: seq<Row>)
    ensures |r| <= |rows|
    decreases |rows|
  {
    if rows == [] then []
    else
      var init := rows[..|rows| - 1];
      FirstOccurrences(init) + (if rows[|rows| - 1].id in RowIds(init) then [] else [rows[|rows| - 1]])
  }

  function ToMovies(rows: seq<Row>): (r: seq<Movie>)
    ensures |r| == |rows|
    decreases |rows|
  {
    if rows == [] then [] else ToMovies(rows[..|rows| - 1]) + [ToMovie(rows[|rows| - 1])]
  }

  lemma MovieIdsAppend(movies: seq<Movie>, m: Movie)
    ensures MovieIds(movies + [m]) == MovieIds(movies) + {m.id}
  {
    assert (movies + [m])[..|movies|] == movies;
  }

  /** A movie whose id is new keeps the ids distinct. */
  lemma DistinctAppend(movies: seq<Movie>, m: Movie)
    requires DistinctIds(movies) && m.id !in MovieIds(movies)
    ensures DistinctIds(movies + [m])
  {
    var longer := movies + [m];
    forall i, j | 0 <= i < j < |longer| ensures longer[i].id != longer[j].id {
      assert longer[i] == movies[i];
      if j == |movies| {
        MovieIdsMembers(movies, movies[i].id);
      } else {
        assert longer[j] == movies[j];
      }
    }
  }

  /**
   * The seen-id set is exactly the ids of the movies held (ignored rows never enlarge it),
   * the ids held are pairwise distinct, and the catalog holds at most `MaxMovies` movies.
   */
  lemma {:induction false} LoadShape(rows: seq<Row>)
    ensures Load(rows).uniqueIds == MovieIds(Load(rows).movies)
    ensures DistinctIds(Load(rows).movies)
    ensures |Load(rows).movies| <= MaxMovies
    decreases |rows|
  {
    if rows == [] {
      assert MovieIds([]) == {};
    } else {
      var init := rows[..|rows| - 1];
      var row := rows[|rows| - 1];
      var c := Load(init);
      LoadShape(init);
      if |c.movies| < MaxMovies && row.id !in c.uniqueIds {
        MovieIdsAppend(c.movies, ToMovie(row));
        DistinctAppend(c.movies, ToMovie(row));
      }
    }
  }

  lemma ToMoviesSnoc(rows: seq<Row>, row: Row)
    ensures ToMovies(rows + [row]) == ToMovies(rows) + [ToMovie(row)]
  {
    assert (rows + [row])[..|rows|] == rows;
  }

  lemma PrefixOfAppend<T>(a: seq<T>, b: seq<T>, k: nat)
    requires k <= |a|
    ensures (a + b)[..k] == a[..k]
  {
  }

  /**
   * Below the cap the catalog is every first occurrence and has seen every id; at
   * the cap it is the first `MaxMovies` first occurrences.
   */
  ghost predicate FollowsFirstOccurrences(rows: seq<Row>) {
    var c := Load(rows);
    var firsts := FirstOccurrences(rows);
    && (|c.movies| < MaxMovies ==> c.movies == ToMovies(firsts) && c.uniqueIds == RowIds(rows))
    && (|c.movies| >= MaxMovies ==> MaxMovies <= |firsts| && c.movies == ToMovies(firsts[..MaxMovies]))
  }

  /** A row arriving at the cap changes nothing, and the first occurrences beyond the cap do not matter. */
  lemma LoadStepAtCap(rows: seq<Row>)
    requires rows != [] && FollowsFirstOccurrences(rows[..|rows| - 1])
    requires |Load(rows[..|rows| - 1]).movies| >= MaxMovies
    ensures FollowsFirstOccurrences(rows)
  {
    var init := rows[..|rows| - 1];
    var row := rows[|rows| - 1];
    var firsts := FirstOccurrences(init);
    var more := if row.id in RowIds(init) then [] else [row];
    assert FirstOccurrences(rows) == firsts + more;
    PrefixOfAppend(firsts, more, MaxMovies);
  }

  /** A row with a new id below the cap is the next first occurrence. */
  lemma LoadStepNew(rows: seq<Row>)
    requires rows != [] && FollowsFirstOccurrences(rows[..|rows| - 1])
    requires |Load(rows[..|rows| - 1]).movies| < MaxMovies
    requires rows[|rows| - 1].id !in Load(rows[..|rows| - 1]).uniqueIds
    ensures FollowsFirstOccurrences(rows)
  {
    LoadStepNewAll(rows);
    var firsts := FirstOccurrences(rows);
    assert |firsts| == |Load(rows).movies|;
    assert firsts[..|firsts|] == firsts;
  }

  /** Below the cap, a row with a new id extends both the catalog and the first occurrences by itself. */
  lemma LoadStepNewAll(rows: seq<Row>)
    requires rows != [] && FollowsFirstOccurrences(rows[..|rows| - 1])
    requires |Load(rows[..|rows| - 1]).movies| < MaxMovies
    requires rows[|rows| - 1].id !in Load(rows[..|rows| - 1]).uniqueIds
    ensures Load(rows).movies == ToMovies(FirstOccurrences(rows)) && Load(rows).uniqueIds == RowIds(rows)
  {
    var init := rows[..|rows| - 1];
    var row := rows[|rows| - 1];
    var c := Load(init);
    var firsts := FirstOccurrences(init);
    assert c.movies == ToMovies(firsts) && c.uniqueIds == RowIds(init);
    assert FirstOccurrences(rows) == firsts + [row];
    ToMoviesSnoc(firsts, row);
  }

  /** A row with an id seen before, below the cap, is no first occurrence. */
  lemma LoadStepSeen(rows: seq<Row>)
    requires rows != [] && FollowsFirstOccurrences(rows[..|rows| - 1])
    requires |Load(rows[..|rows| - 1]).movies| < MaxMovies
    requires rows[|rows| - 1].id in Load(rows[..|rows| - 1]).uniqueIds
    ensures FollowsFirstOccurrences(rows)
  {
    var init := rows[..|rows| - 1];
    var row := rows[|rows| - 1];
    var c := Load(init);
    var firsts := FirstOccurrences(init);
    assert c.movies == ToMovies(firsts) && c.uniqueIds == RowIds(init);
    assert Load(rows) == c;
    assert FirstOccurrences(rows) == firsts + [];
    assert firsts + [] == firsts;
    assert RowIds(rows) == RowIds(init);
  }

  lemma {:induction false} LoadFollowsFirstOccurrences(rows: seq<Row>)
    ensures FollowsFirstOccurrences(rows)
    decreases |rows|
  {
    if rows == [] {
      assert RowIds([]) == {};
    } else {
      var init := rows[..|rows| - 1];
      LoadFollowsFirstOccurrences(init);
      if |Load(init).movies| >= MaxMovies {
        LoadStepAtCap(rows);
      } else if rows[|rows| - 1].id !in Load(init).uniqueIds {
        LoadStepNew(rows);
      } else {
        LoadStepSeen(rows);
      }
    }
  }

  /** The catalog is the first `MaxMovies` rows with a new id, mapped to movies and kept in input order. */
  lemma LoadIsFirstOccurrences(rows: seq<Row>)
    ensures var firsts := FirstOccurrences(rows);
      Load(rows).movies == ToMovies(firsts[..Min(|firsts|, MaxMovies)])
  {
    LoadFollowsFirstOccurrences(rows);
    var firsts := FirstOccurrences(rows);
    if |Load(rows).movies| < MaxMovies {
      assert firsts[..|firsts|] == firsts;
      assert |firsts| < MaxMovies;
    }
  }

  /** `readMoviesFromCSV`: the `data` handler applied to every row, then the list it built. */
  method ReadMovies(rows: seq<Row>) returns (movies: seq<Movie>)
    ensures movies == Load(rows).movies
    ensures |movies| <= MaxMovies && DistinctIds(movies)
    ensures movies == ToMovies(FirstOccurrences(rows)[..Min(|FirstOccurrences(rows)|, MaxMovies)])
  {
    movies := [];
    var uniqueIds: set<Option<string>> := {};
    var i := 0;
    while i < |rows|
      invariant 0 <= i <= |rows|
      invariant Catalog(movies, uniqueIds) == Load(rows[..i])
    {
      var row := rows[i];
      assert rows[..i + 1][..i] == rows[..i];
      ghost var next := HandleRow(Catalog(movies, uniqueIds), row);
      assert Load(rows[..i + 1]) == next;
      if |movies| < MaxMovies {
        var movieId := row.id;
        if movieId !in uniqueIds {
          uniqueIds := uniqueIds + {movieId};
          movies := movies + [ToMovie(row)];
        }
      }
      i := i + 1;
    }
    assert rows[..|rows|] == rows;
    LoadShape(rows);
    LoadIsFirstOccurrences(rows);
  }

  // ---- setupAndPopulateCollection ----

  /** A template-literal slot: a missing column prints as "undefined". */
  function Shown(x: Option<string>): string {
    if x.Some? then x.value else "undefined"
  }

  /** The nine slots of the embedding text's template literal, in order. */
  function EmbeddingFields(m: Movie): (fs: seq<string>)
    ensures |fs| == 9
  {
    [Shown(m.title), Shown(m.genre), Shown(m.description), Shown(m.year), m.rating,
     m.keywords, m.credits, m.tagline, m.productionCompanies]
  }

  /** The text embedded for a movie. */
  function EmbeddingText(m: Movie): string {
    Join(EmbeddingFields(m), " ")
  }

  /**
   * The text holds the nine fields in order, each after a single space except the
   * title, which starts it; a missing title, genre, overview or year is written as "undefined".
   */
  lemma EmbeddingTextFields(m: Movie, i: nat)
    requires i < 9
    ensures OccursAt(EmbeddingFields(m)[i], EmbeddingText(m), Offset(EmbeddingFields(m), " ", i))
    ensures i > 0 ==> EmbeddingText(m)[Offset(EmbeddingFields(m), " ", i) - 1] == ' '
    ensures i == 0 ==> Offset(EmbeddingFields(m), " ", i) == 0
  {
    JoinAt(EmbeddingFields(m), " ", i);
  }

  /** `movies.slice(i, i + size)` for `i = from, from + size, ...` while `i < movies.length`. */
  function BatchesFrom(xs: seq<Movie>, from: nat, size: nat): (bs: seq<seq<Movie>>)
    requires size > 0
    ensures from < |xs| <==> bs != []
    decreases |xs| - from
  {
    if from >= |xs| then [] else [xs[from..Min(from + size, |xs|)]] + BatchesFrom(xs, from + size, size)
  }

  /** The batches of the whole movie list. */
  function Batches(xs: seq<Movie>, size: nat): seq<seq<Movie>>
    requires size > 0
  {
    BatchesFrom(xs, 0, size)
  }

  function Concat(bs: seq<seq<Movie>>): seq<Movie>
    decreases |bs|
  {
    if bs == [] then [] else bs[0] + Concat(bs[1..])
  }

  /** The batches from `from` on, put back together, are the rest of the movie list. */
  lemma {:induction false} BatchesFromConcat(xs: seq<Movie>, from: nat, size: nat)
    requires size > 0 && from <= |xs|
    ensures Concat(BatchesFrom(xs, from, size)) == xs[from..]
    decreases |xs| - from
  {
    if from < |xs| {
      var next := Min(from + size, |xs|);
      var bs := BatchesFrom(xs, from, size);
      BatchesFromConcat(xs, next, size);
      assert bs[0] == xs[from..next] && bs[1..] == BatchesFrom(xs, next, size);
      assert xs[from..next] + xs[next..] == xs[from..];
    }
  }

  /** The batches, put back together, are the movie list. */
  lemma BatchesConcat(xs: seq<Movie>, size: nat)
    requires size > 0
    ensures Concat(Batches(xs, size)) == xs
  {
    BatchesFromConcat(xs, 0, size);
    assert xs[0..] == xs;
  }

  /** Every batch holds `size` movies, except the last, which holds between 1 and `size`. */
  lemma {:induction false} BatchesFromSizes(xs: seq<Movie>, from: nat, size: nat, k: nat)
    requires size > 0 && k < |BatchesFrom(xs, from, size)|
    ensures 0 < |BatchesFrom(xs, from, size)[k]| <= size
    ensures k < |BatchesFrom(xs, from, size)| - 1 ==> |BatchesFrom(xs, from, size)[k]| == size
    decreases k
  {
    var next := Min(from + size, |xs|);
    var rest := BatchesFrom(xs, from + size, size);
    assert BatchesFrom(xs, from, size) == [xs[from..next]] + rest;
    if k > 0 {
      BatchesFromSizes(xs, from + size, size, k - 1);
    } else if rest != [] {
      assert from + size < |xs|;
    }
  }

  lemma BatchSizes(xs: seq<Movie>, size: nat, k: nat)
    requires size > 0 && k < |Batches(xs, size)|
    ensures 0 < |Batches(xs, size)[k]| <= size
    ensures k < |Batches(xs, size)| - 1 ==> |Batches(xs, size)[k]| == size
  {
    BatchesFromSizes(xs, 0, size, k);
  }

  /** One element of `batchEmbeddings`. */
  datatype Embedded<V> = Embedded(id: Option<string>, metadata: Movie, embedding: seq<V>)

  /** One `collection.add` call: three index-aligned arrays. */
  datatype Insert<V> = Insert(ids: seq<Option<string>>, metadatas: seq<Movie>, embeddings: seq<seq<V>>)

  /** `batch.map(...)`: each movie with the embedding of its text. */
  function EmbedBatch<V>(batch: seq<Movie>, embed: string -> seq<V>): (es: seq<Embedded<V>>)
    ensures |es| == |batch|
  {
    seq(|batch|, k requires 0 <= k < |batch| => Embedded(batch[k].id, batch[k], embed(EmbeddingText(batch[k]))))
  }

  /** `filter((m) => m.embedding.length > 0)`. */
  function NonEmpty<V>(es: seq<Embedded<V>>): (r: seq<Embedded<V>>)
    ensures |r| <= |es|
    ensures forall k :: 0 <= k < |r| ==> |r[k].embedding| > 0
    decreases |es|
  {
    if es == [] then []
    else (if |es[0].embedding| > 0 then [es[0]] else []) + NonEmpty(es[1..])
  }

  /** An element of `batchEmbeddings` built from its own movie. */
  ghost predicate Faithful<V>(e: Embedded<V>, embed: string -> seq<V>) {
    e.id == e.metadata.id && e.embedding == embed(EmbeddingText(e.metadata))
  }

  /** Every element of `batchEmbeddings` is its movie, that movie's id and the embedding of its text. */
  lemma EmbedBatchFaithful<V>(batch: seq<Movie>, embed: string -> seq<V>)
    ensures forall j :: 0 <= j < |batch| ==>
              EmbedBatch(batch, embed)[j].metadata == batch[j] && Faithful(EmbedBatch(batch, embed)[j], embed)
  {
  }

  /** What the filter keeps comes from its input and has a non-empty embedding. */
  lemma {:induction false} NonEmptyFaithful<V>(es: seq<Embedded<V>>, embed: string -> seq<V>)
    requires forall j :: 0 <= j < |es| ==> Faithful(es[j], embed)
    ensures forall k :: 0 <= k < |NonEmpty(es)| ==>
              Faithful(NonEmpty(es)[k], embed) && |NonEmpty(es)[k].embedding| > 0
    decreases |es|
  {
    if es != [] {
      var head := if |es[0].embedding| > 0 then [es[0]] else [];
      var rest := NonEmpty(es[1..]);
      assert forall j :: 0 <= j < |es| - 1 ==> es[1..][j] == es[j + 1];
      NonEmptyFaithful(es[1..], embed);
      assert forall k :: |head| <= k < |head + rest| ==> (head + rest)[k] == rest[k - |head|];
    }
  }

  /** The filter lets nothing through exactly when every embedding is empty. */
  lemma {:induction false} NonEmptyNone<V>(es: seq<Embedded<V>>)
    ensures NonEmpty(es) == [] <==> forall k :: 0 <= k < |es| ==> es[k].embedding == []
    decreases |es|
  {
    if es != [] {
      NonEmptyNone(es[1..]);
      assert forall k :: 1 <= k < |es| ==> es[k] == es[1..][k - 1];
    }
  }

  /** The `add` arguments made of the kept movies. */
  function InsertOf<V>(valid: seq<Embedded<V>>): (ins: Insert<V>)
    ensures |ins.ids| == |valid| && |ins.metadatas| == |valid| && |ins.embeddings| == |valid|
  {
    Insert(
      seq(|valid|, k requires 0 <= k < |valid| => valid[k].id),
      seq(|valid|, k requires 0 <= k < |valid| => valid[k].metadata),
      seq(|valid|, k requires 0 <= k < |valid| => valid[k].embedding))
  }

  /** What one pass of the loop body hands to `collection.add`, if anything. */
  function InsertFor<V>(batch: seq<Movie>, embed: string -> seq<V>): Option<Insert<V>> {
    var valid := NonEmpty(EmbedBatch(batch, embed));
    if |valid| > 0 then Some(InsertOf(valid)) else None
  }

  /** The three arrays of an insert are non-empty and aligned: entry `k` is one movie, its id and its non-empty embedding. */
  ghost predicate Aligned<V>(ins: Insert<V>, embed: string -> seq<V>) {
    && |ins.ids| == |ins.metadatas| == |ins.embeddings| > 0
    && forall k :: 0 <= k < |ins.metadatas| ==>
         && ins.ids[k] == ins.metadatas[k].id
         && ins.embeddings[k] == embed(EmbeddingText(ins.metadatas[k]))
         && |ins.embeddings[k]| > 0
  }

  /** The arrays built from faithful, non-empty elements are aligned. */
  lemma InsertOfAligned<V>(valid: seq<Embedded<V>>, embed: string -> seq<V>)
    requires |valid| > 0
    requires forall k :: 0 <= k < |valid| ==> Faithful(valid[k], embed) && |valid[k].embedding| > 0
    ensures Aligned(InsertOf(valid), embed)
  {
    var ins := InsertOf(valid);
    forall k | 0 <= k < |ins.metadatas|
      ensures ins.ids[k] == ins.metadatas[k].id
      ensures ins.embeddings[k] == embed(EmbeddingText(ins.metadatas[k])) && |ins.embeddings[k]| > 0
    {
      assert ins.ids[k] == valid[k].id && ins.metadatas[k] == valid[k].metadata;
      assert ins.embeddings[k] == valid[k].embedding;
    }
  }

  /** An insert happens exactly when some movie of the batch has a non-empty embedding, and it is aligned. */
  lemma InsertForShape<V>(batch: seq<Movie>, embed: string -> seq<V>)
    ensures InsertFor(batch, embed).None? <==>
              forall k :: 0 <= k < |batch| ==> embed(EmbeddingText(batch[k])) == []
    ensures InsertFor(batch, embed).Some? ==> Aligned(InsertFor(batch, embed).value, embed)
    ensures InsertFor(batch, embed).Some? ==> |InsertFor(batch, embed).value.ids| <= |batch|
  {
    var es := EmbedBatch(batch, embed);
    NonEmptyNone(es);
    assert forall k :: 0 <= k < |batch| ==> es[k].embedding == embed(EmbeddingText(batch[k]));
    var valid := NonEmpty(es);
    if |valid| > 0 {
      EmbedBatchFaithful(batch, embed);
      NonEmptyFaithful(es, embed);
      InsertOfAligned(valid, embed);
    }
  }

  /** The movies whose embedding is not empty, in order: a reference definition of what gets inserted. */
  function Kept<V>(xs: seq<Movie>, embed: string -> seq<V>): seq<Movie>
    decreases |xs|
  {
    if xs == [] then []
    else (if |embed(EmbeddingText(xs[0]))| > 0 then [xs[0]] else []) + Kept(xs[1..], embed)
  }

  lemma {:induction false} KeptAppend<V>(xs: seq<Movie>, ys: seq<Movie>, embed: string -> seq<V>)
    ensures Kept(xs + ys, embed) == Kept(xs, embed) + Kept(ys, embed)
    decreases |xs|
  {
    if xs != [] {
      assert (xs + ys)[1..] == xs[1..] + ys;
      KeptAppend(xs[1..], ys, embed);
    } else {
      assert xs + ys == ys;
    }
  }

  function Metas<V>(es: seq<Embedded<V>>): (ms: seq<Movie>)
    ensures |ms| == |es|
    decreases |es|
  {
    if es == [] then [] else [es[0].metadata] + Metas(es[1..])
  }

  lemma {:induction false} MetasAppend<V>(a: seq<Embedded<V>>, b: seq<Embedded<V>>)
    ensures Metas(a + b) == Metas(a) + Metas(b)
    decreases |a|
  {
    if a != [] {
      assert (a + b)[1..] == a[1..] + b;
      MetasAppend(a[1..], b);
    } else {
      assert a + b == b;
    }
  }

  lemma {:induction false} MetasAt<V>(es: seq<Embedded<V>>, k: nat)
    requires k < |es|
    ensures Metas(es)[k] == es[k].metadata
    decreases k
  {
    if k > 0 {
      MetasAt(es[1..], k - 1);
    }
  }

  /** Filtering the embedded batch and taking the metadatas keeps the movies with a non-empty embedding. */
  lemma {:induction false} KeptIsMetas<V>(batch: seq<Movie>, embed: string -> seq<V>)
    ensures Metas(NonEmpty(EmbedBatch(batch, embed))) == Kept(batch, embed)
    decreases |batch|
  {
    if batch != [] {
      var es := EmbedBatch(batch, embed);
      assert es[1..] == EmbedBatch(batch[1..], embed);
      KeptIsMetas(batch[1..], embed);
      MetasAppend(if |es[0].embedding| > 0 then [es[0]] else [], NonEmpty(es[1..]));
    }
  }

  /** The metadatas passed to `add` for one batch are the batch's movies with a non-empty embedding. */
  lemma BatchMetadatas<V>(batch: seq<Movie>, embed: string -> seq<V>)
    ensures InsertedOf(InsertFor(batch, embed)) == Kept(batch, embed)
  {
    var valid := NonEmpty(EmbedBatch(batch, embed));
    KeptIsMetas(batch, embed);
    if |valid| > 0 {
      var ms := InsertOf(valid).metadatas;
      forall k | 0 <= k < |valid| ensures ms[k] == Metas(valid)[k] {
        MetasAt(valid, k);
      }
    }
  }

  /** The `add` calls made for a list of batches, in batch order. */
  function Inserts<V>(bs: seq<seq<Movie>>, embed: string -> seq<V>): seq<Insert<V>>
    decreases |bs|
  {
    if bs == [] then [] else Calls(InsertFor(bs[0], embed)) + Inserts(bs[1..], embed)
  }

  /** No call or one call. */
  function Calls<V>(call: Option<Insert<V>>): seq<Insert<V>> {
    if call.Some? then [call.value] else []
  }

  /** The metadatas a possible call inserts. */
  function InsertedOf<V>(call: Option<Insert<V>>): seq<Movie> {
    if call.Some? then call.value.metadatas else []
  }

  /** Every metadata passed to `add`, call after call. */
  function AllMetadatas<V>(inserts: seq<Insert<V>>): seq<Movie>
    decreases |inserts|
  {
    if inserts == [] then [] else inserts[0].metadatas + AllMetadatas(inserts[1..])
  }

  /** Over all batches, the inserted movies are the movies with a non-empty embedding, in batch order. */
  lemma {:induction false} InsertsMetadatas<V>(bs: seq<seq<Movie>>, embed: string -> seq<V>)
    ensures AllMetadatas(Inserts(bs, embed)) == Kept(Concat(bs), embed)
    decreases |bs|
  {
    if bs != [] {
      var call := InsertFor(bs[0], embed);
      var rest := Inserts(bs[1..], embed);
      InsertsMetadatas(bs[1..], embed);
      BatchMetadatas(bs[0], embed);
      KeptAppend(bs[0], Concat(bs[1..]), embed);
      if call.Some? {
        assert ([call.value] + rest)[1..] == rest;
      } else {
        assert [] + rest == rest;
      }
    }
  }

  /** Every call of a list of batches has aligned, non-empty arrays. */
  lemma {:induction false} InsertsAligned<V>(bs: seq<seq<Movie>>, embed: string -> seq<V>)
    ensures forall k :: 0 <= k < |Inserts(bs, embed)| ==> Aligned(Inserts(bs, embed)[k], embed)
    decreases |bs|
  {
    if bs != [] {
      var calls := Calls(InsertFor(bs[0], embed));
      var rest := Inserts(bs[1..], embed);
      InsertsAligned(bs[1..], embed);
      InsertForShape(bs[0], embed);
      assert forall k :: |calls| <= k < |calls + rest| ==> (calls + rest)[k] == rest[k - |calls|];
    }
  }

  /** The loop invariant of `PopulateCollection`: the calls made so far, then those of the batches from `i` on, are all the calls. */
  ghost predicate PopulatedUpTo<V>(movies: seq<Movie>, i: nat, size: nat, embed: string -> seq<V>, done: seq<Insert<V>>)
    requires size > 0
  {
    done + Inserts(BatchesFrom(movies, i, size), embed) == Inserts(Batches(movies, size), embed)
  }

  /** The loop invariant survives one pass, with or without an `add` call. */
  lemma PopulateStep<V>(movies: seq<Movie>, i: nat, size: nat, embed: string -> seq<V>, done: seq<Insert<V>>)
    requires i < |movies| && size > 0
    requires PopulatedUpTo(movies, i, size, embed, done)
    ensures var valid := NonEmpty(EmbedBatch(movies[i..Min(i + size, |movies|)], embed));
            && (|valid| > 0 ==> PopulatedUpTo(movies, i + size, size, embed, done + [InsertOf(valid)]))
            && (|valid| == 0 ==> PopulatedUpTo(movies, i + size, size, embed, done))
  {
    var bs := BatchesFrom(movies, i, size);
    assert bs[0] == movies[i..Min(i + size, |movies|)] && bs[1..] == BatchesFrom(movies, i + size, size);
    var call := Calls(InsertFor(bs[0], embed));
    var rest := Inserts(bs[1..], embed);
    assert done + (call + rest) == (done + call) + rest;
    assert call == [] ==> call + rest == rest;
  }

  /** Once `i` has passed the end, the calls made so far are all the calls. */
  lemma PopulateDone<V>(movies: seq<Movie>, i: nat, size: nat, embed: string -> seq<V>, done: seq<Insert<V>>)
    requires |movies| <= i && size > 0
    requires PopulatedUpTo(movies, i, size, embed, done)
    ensures done == Inserts(Batches(movies, size), embed)
  {
    assert BatchesFrom(movies, i, size) == [];
    assert done + [] == done;
  }

  /** Every `add` call is aligned, and together they insert exactly the movies with a non-empty embedding, in order. */
  lemma PopulateShape<V>(movies: seq<Movie>, size: nat, embed: string -> seq<V>)
    requires size > 0
    ensures var inserts := Inserts(Batches(movies, size), embed);
            && (forall k :: 0 <= k < |inserts| ==> Aligned(inserts[k], embed))
            && AllMetadatas(inserts) == Kept(movies, embed)
  {
    InsertsAligned(Batches(movies, size), embed);
    InsertsMetadatas(Batches(movies, size), embed);
    BatchesConcat(movies, size);
  }

  /** One pass of the batch loop: slice, embed every movie, keep the non-empty embeddings and, when there are any, call `add`. */
  method AddBatch<V>(movies: seq<Movie>, i: nat, size: nat, embed: string -> seq<V>, inserts: seq<Insert<V>>)
    returns (more: seq<Insert<V>>)
    requires i < |movies| && size > 0
    requires PopulatedUpTo(movies, i, size, embed, inserts)
    ensures more == inserts + Calls(InsertFor(movies[i..Min(i + size, |movies|)], embed))
    ensures PopulatedUpTo(movies, i + size, size, embed, more)
  {
    var batch := movies[i..Min(i + size, |movies|)];
    var batchEmbeddings := EmbedBatch(batch, embed);
    var validMovies := NonEmpty(batchEmbeddings);
    PopulateStep(movies, i, size, embed, inserts);
    more := inserts;
    if |validMovies| > 0 {
      more := more + [InsertOf(validMovies)];
    } else {
      assert inserts + [] == inserts;
    }
  }

  /** The batch loop of `setupAndPopulateCollection`. */
  method PopulateCollection<V>(movies: seq<Movie>, batchSize: nat, embed: string -> seq<V>)
    returns (inserts: seq<Insert<V>>)
    requires batchSize > 0
    ensures inserts == Inserts(Batches(movies, batchSize), embed)
    ensures forall k :: 0 <= k < |inserts| ==> Aligned(inserts[k], embed)
    ensures AllMetadatas(inserts) == Kept(movies, embed)
  {
    inserts := [];
    var i := 0;
    while i < |movies|
      invariant 0 <= i
      invariant PopulatedUpTo(movies, i, batchSize, embed, inserts)
      decreases |movies| - i
    {
      inserts := AddBatch(movies, i, batchSize, embed, inserts);
      i := i + batchSize;
    }
    PopulateDone(movies, i, batchSize, embed, inserts);
    PopulateShape(movies, batchSize, embed);
  }
}
