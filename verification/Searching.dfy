/**
 The search of the handle, one thread at a time: the dimension gate, the empty store, the
 index that may first have to be materialized. Its answers are accounted for by the stored
 map, without saying which index gave them.
 */
module Searching {
  import opened Wrappers
  import opened Types
  import opened RowStore
  import opened AnyIndex
  import opened CoreState
  import opened CoreSteps
  import opened FlatSearch

  /** What a search with an admitted query answers when nothing else runs. */
  function Answer(env: Env, c: Core, query: seq<f32>, params: SearchParams): SearchResult {
    if c.rows == [] then Success([])
    else
      var (ready, made) := EnsureReady(env, c);
      match made
      case Failure(e) => Failure(e)
      case Success(_) => IndexSearch(env, ready.layer.index, query, params)
  }

  /** A trained index of the given shape that holds exactly `m`. */
  ghost predicate Serves(idx: Index, shape: Shape, m: map<VectorId, Stored>) {
    && idx.kind == shape.kind && idx.dim == shape.dim && idx.metric == shape.metric
    && !idx.NeedsTraining() && Distinct(idx.Rows()) && Contents(idx.Rows()) == m
  }

  /** The error of an index that cannot be built. */
  function Refusal(env: Env, shape: Shape): IndexError {
    if shape.dim == 0 || !env.accepts(shape.kind, shape.dim, shape.metric) then InvalidConfig else TrainingFailed
  }

  /** The rows are those of `m` in some order, and the index constructor or the training refuses them. */
  ghost predicate Unbuildable(env: Env, shape: Shape, m: map<VectorId, Stored>, rows: seq<Row>, e: IndexError) {
    && Distinct(rows) && Contents(rows) == m
    && Unbuilt(env, shape.kind, shape.dim, shape.metric, rows)
    && e == Refusal(env, shape)
  }

  /**
   What a database holding `m` may answer: a refusal of the query's dimension, nothing when
   nothing is stored, the answer of a trained index that holds exactly `m`, or - for IVF -
   the failure to build one.
   */
  ghost predicate Accounted(
    env: Env, shape: Shape, m: map<VectorId, Stored>, query: seq<f32>, params: SearchParams, result: SearchResult)
  {
    if |query| != shape.dim then result == Failure(DimensionMismatch(shape.dim, |query|))
    else if m == map[] then result == Success([])
    else
      || (exists idx :: Serves(idx, shape, m) && result == IndexSearch(env, idx, query, params))
      || (shape.kind.Ivf? && result.Failure? && exists rows :: Unbuildable(env, shape, m, rows, result.error))
  }

  /**
   An index that a search reaches is trained and holds exactly the stored map, whatever the
   search then reports; on a flat database an answer is the exact top k of that map.
   */
  lemma AnswerReflectsStore(env: Env, c: Core, query: seq<f32>, params: SearchParams)
    requires Sound(env, c) && c.rows != [] && EnsureReady(env, c).1.Success?
    ensures var idx := EnsureReady(env, c).0.layer.index;
            && Serves(idx, ShapeOf(c), View(c))
            && Answer(env, c, query, params) == IndexSearch(env, idx, query, params)
            && (c.kind.Flat? && Answer(env, c, query, params).Success? ==>
                 TopK(env, View(c), query, params, Answer(env, c, query, params).value))
  {
    hide EnsureReady, Contents, Nearest, Live, Distinct, TopK;
    EnsureReadyStep(env, c);
    var idx := EnsureReady(env, c).0.layer.index;
    if c.kind.Flat? { NearestIsTopK(env, idx.Rows(), query, params); }
  }

  /** A search through the cache answers what `Answer` says and keeps the core sound and its rows. */
  lemma AskStep(env: Env, c: Core, query: seq<f32>, params: SearchParams)
    requires Sound(env, c)
    ensures var (d, r) := Ask(env, c, query, params);
            && Sound(env, d) && d.rows == c.rows && ShapeOf(d) == ShapeOf(c) && d.cacheCfg == c.cacheCfg
            && r == (if |query| == c.dim then Answer(env, c, query, params)
                     else Failure(DimensionMismatch(c.dim, |query|)))
            && (if |query| != c.dim || c.rows == [] || EnsureReady(env, c).1.Failure? then d == c
                else !d.dirty && d.layer.index == EnsureReady(env, c).0.layer.index)
  {
    hide EnsureReady, Contents, Distinct, IndexSearch, Sound, Search;
    EnsureReadyStep(env, c);
    SearchStep(env, EnsureReady(env, c).0, query, params);
  }

  /**
   The answer in terms of the index that is in place afterwards: it is trained, holds exactly
   the stored map, and is asked for the very same query, k and filter - unless nothing is
   stored or an index that is due cannot be built.
   */
  lemma AskAnswers(env: Env, c: Core, query: seq<f32>, params: SearchParams)
    requires Sound(env, c) && |query| == c.dim
    ensures var (d, r) := Ask(env, c, query, params);
            if View(c) == map[] then r == Success([])
            else if c.dirty && Unbuilt(env, c.kind, c.dim, c.metric, c.rows) then
              r == Failure(Refusal(env, ShapeOf(c)))
            else
              && Serves(d.layer.index, ShapeOf(c), View(c)) && !d.dirty
              && if params.filter.Some? && !env.wellFormed(params.filter.value) then r == Failure(InvalidFilter)
                 else if c.kind.Flat? then r.Success? && TopK(env, View(c), query, params, r.value)
                 else r == env.approximate(d.layer.index, query, params)
  {
    hide Contents, IndexSearch, Rebuilt, Search, Serves, Unbuilt, EnsureReady, TopK, Ask, Coupled;
    AskStep(env, c, query, params);
    EmptyStore(c.rows);
    EnsureReadyStep(env, c);
    if c.rows != [] && EnsureReady(env, c).1.Success? {
      AnswerReflectsStore(env, c, query, params);
      var idx := EnsureReady(env, c).0.layer.index;
      IndexAnswers(env, idx, query, params);
      assert idx.dim == c.dim && idx.kind == c.kind && !idx.NeedsTraining() by {
        ServesParts(idx, ShapeOf(c), View(c));
      }
      if c.kind.Flat? && (params.filter.None? || env.wellFormed(params.filter.value)) {
        FlatSucceeds(env, idx, query, params);
      }
    }
  }

  lemma ServesParts(idx: Index, shape: Shape, m: map<VectorId, Stored>)
    requires Serves(idx, shape, m)
    ensures idx.kind == shape.kind && idx.dim == shape.dim && !idx.NeedsTraining()
  {
  }

  lemma FlatSucceeds(env: Env, idx: Index, query: seq<f32>, params: SearchParams)
    requires idx.kind.Flat? && |query| == idx.dim
    requires params.filter.None? || env.wellFormed(params.filter.value)
    ensures IndexSearch(env, idx, query, params).Success?
  {
  }

  lemma AskIsAccounted(env: Env, c: Core, query: seq<f32>, params: SearchParams)
    requires Sound(env, c)
    ensures Accounted(env, ShapeOf(c), View(c), query, params, Ask(env, c, query, params).1)
  {
    hide Contents, IndexSearch, Rebuilt, Search, Serves, Unbuilt, EnsureReady;
    AskStep(env, c, query, params);
    EmptyStore(c.rows);
    if |query| == c.dim && c.rows != [] {
      if EnsureReady(env, c).1.Success? {
        AnswerReflectsStore(env, c, query, params);
      } else {
        EnsureReadyStep(env, c);
        assert Unbuildable(env, ShapeOf(c), View(c), c.rows, EnsureReady(env, c).1.error);
      }
    }
  }

  lemma EmptyStore(rows: seq<Row>)
    ensures rows == [] <==> Contents(rows) == map[]
  {
    if rows != [] { Lookup(rows, rows[0].id); }
  }

  /** A flat database answers an admitted query with the exact top k, or refuses a bad filter. */
  lemma FlatAnswers(
    env: Env, shape: Shape, m: map<VectorId, Stored>, query: seq<f32>, params: SearchParams, result: SearchResult)
    requires Accounted(env, shape, m, query, params, result) && shape.kind.Flat? && |query| == shape.dim
    ensures result.Success? ==> TopK(env, m, query, params, result.value)
    ensures result.Failure? <==> m != map[] && params.filter.Some? && !env.wellFormed(params.filter.value)
    ensures result.Failure? ==> result.error == InvalidFilter
  {
    hide Contents, Distinct, Nearest, Live;
    if m == map[] {
    } else {
      var idx :| Serves(idx, shape, m) && result == IndexSearch(env, idx, query, params);
      NearestIsTopK(env, idx.Rows(), query, params);
    }
  }

  /**
   An HNSW or IVF database answers an admitted query with what a trained index that holds
   exactly the map finds for the very same query, k and filter, or refuses a bad filter, or
   fails to build an IVF index.
   */
  lemma ApproximateAnswers(
    env: Env, shape: Shape, m: map<VectorId, Stored>, query: seq<f32>, params: SearchParams, result: SearchResult)
    requires Accounted(env, shape, m, query, params, result) && !shape.kind.Flat? && |query| == shape.dim
    ensures m == map[] ==> result == Success([])
    ensures m != map[] ==>
              || (if params.filter.Some? && !env.wellFormed(params.filter.value) then result == Failure(InvalidFilter)
                  else exists idx :: Serves(idx, shape, m) && result == env.approximate(idx, query, params))
              || (shape.kind.Ivf? && result.Failure? && exists rows :: Unbuildable(env, shape, m, rows, result.error))
  {
    hide Contents, Distinct, Unbuildable;
  }

  /**
   Writes do not ask for a rebuild: after a delete, or an insert, on a clean core the next
   search over the remaining rows is answered by the index as it is, trained on what it was
   trained on before.
   */
  lemma WritesNeedNoRebuild(env: Env, c: Core, row: Row, id: VectorId, query: seq<f32>, params: SearchParams)
    requires Sound(env, c) && !c.dirty && |query| == c.dim && |row.vector| == c.dim
    ensures var d := Delete(c, id).0;
            && d.layer.index.sample == c.layer.index.sample
            && (d.rows != [] ==> Ask(env, d, query, params).1 == IndexSearch(env, d.layer.index, query, params))
            && Ask(env, d, query, params).0.layer.index == d.layer.index
    ensures var d := Insert(c, row).0;
            && d.layer.index.sample == c.layer.index.sample
            && Ask(env, d, query, params).1 == IndexSearch(env, d.layer.index, query, params)
            && Ask(env, d, query, params).0.layer.index == d.layer.index
  {
    hide Contents, Distinct, IndexSearch, Insert, Delete, Ask, Rebuilt, Position, Live;
    DeleteStep(env, c, id);
    InsertStep(env, c, row);
    SoundAgain(env, c, row);
    AskStep(env, Delete(c, id).0, query, params);
    AskStep(env, Insert(c, row).0, query, params);
    NotEmptied(c.rows, row);
  }

  lemma SoundAgain(env: Env, c: Core, row: Row)
    requires Sound(env, c) && |row.vector| == c.dim
    ensures Sound(env, Insert(c, row).0)
  {
    hide Contents, Distinct, IndexSearch, Insert, Position, Live, Coupled;
    InsertStep(env, c, row);
  }

  lemma NotEmptied(rows: seq<Row>, row: Row)
    ensures UpsertRows(rows, row) != []
  {
  }
}
