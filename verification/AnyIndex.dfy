/**
 The derived index and its optional result cache. The index implementations live in other
 crates; here an index is what it was built with and the mutations it accepted, and `Env`
 stands for everything those crates decide: any deterministic implementation is an
 instance.
 */
module AnyIndex {
  import opened Wrappers
  import opened Types
  import opened RowStore

  datatype IndexError =
    | NotFound
    | Duplicate
    | DimensionMismatch(expected: nat, found: nat)
    | InvalidConfig
    | InvalidVector
    | TrainingFailed
    | NotTrained
    | InvalidFilter

  datatype CacheConfig = CacheConfig(capacity: nat)

  /** A filter expression, identified by a number; `Env` gives its meaning. */
  type Filter = nat

  datatype SearchParams = SearchParams(k: nat, metric: DistanceMetric, filter: Option<Filter>)

  /** Distances are integers: only their order matters. */
  datatype Hit = Hit(id: VectorId, distance: int)

  type SearchResult = Result<seq<Hit>, IndexError>

  datatype Mutation = Put(row: Row) | Drop(id: VectorId)

  datatype Index = Index(
    kind: IndexKind, dim: nat, metric: DistanceMetric,
    sample: Option<seq<seq<f32>>>, history: seq<Mutation>)
  {
    predicate NeedsTraining() { kind.Ivf? && sample.None? }

    /** The rows held, in insertion order. */
    function Rows(): seq<Row> { Live(history) }
  }

  datatype CacheKey = CacheKey(query: seq<f32>, params: SearchParams)

  datatype Env = Env(
    accepts: (IndexKind, nat, DistanceMetric) -> bool,
    trains: (IndexKind, nat, DistanceMetric, seq<seq<f32>>) -> bool,
    approximate: (Index, seq<f32>, SearchParams) -> SearchResult,
    distance: (DistanceMetric, seq<f32>, seq<f32>) -> int,
    wellFormed: Filter -> bool,
    matches: (Filter, Option<Metadata>) -> bool,
    evicts: (CacheConfig, seq<CacheKey>) -> set<CacheKey>)

  function Without(rows: seq<Row>, id: VectorId): seq<Row> {
    if rows == [] then []
    else if rows[0].id == id then Without(rows[1..], id)
    else [rows[0]] + Without(rows[1..], id)
  }

  function Live(history: seq<Mutation>): seq<Row> {
    if history == [] then []
    else
      var before := Live(history[..|history| - 1]);
      match history[|history| - 1]
      case Put(row) => before + [row]
      case Drop(id) => Without(before, id)
  }

  // -- The index operations ------------------------------------------------

  function New(env: Env, kind: IndexKind, dim: nat, metric: DistanceMetric): Result<Index, IndexError> {
    if dim == 0 || !env.accepts(kind, dim, metric) then Failure(InvalidConfig)
    else Success(Index(kind, dim, metric, None, []))
  }

  function Train(env: Env, idx: Index, sample: seq<seq<f32>>): Result<Index, IndexError> {
    if !idx.kind.Ivf? then Success(idx)
    else if env.trains(idx.kind, idx.dim, idx.metric, sample) then Success(idx.(sample := Some(sample)))
    else Failure(TrainingFailed)
  }

  function IndexInsert(idx: Index, row: Row): Result<Index, IndexError> {
    if idx.NeedsTraining() then Failure(NotTrained)
    else if |row.vector| != idx.dim then Failure(DimensionMismatch(idx.dim, |row.vector|))
    else if row.id in Contents(idx.Rows()) then Failure(Duplicate)
    else Success(idx.(history := idx.history + [Put(row)]))
  }

  function IndexDelete(idx: Index, id: VectorId): Result<Index, IndexError> {
    if id !in Contents(idx.Rows()) then Failure(NotFound)
    else Success(idx.(history := idx.history + [Drop(id)]))
  }

  function IndexSearch(env: Env, idx: Index, query: seq<f32>, params: SearchParams): SearchResult {
    if |query| != idx.dim then Failure(DimensionMismatch(idx.dim, |query|))
    else if idx.NeedsTraining() then Failure(NotTrained)
    else if params.filter.Some? && !env.wellFormed(params.filter.value) then Failure(InvalidFilter)
    else if idx.kind.Flat? then Success(Nearest(env, idx.Rows(), query, params))
    else env.approximate(idx, query, params)
  }

  /** Insert the rows one by one, stopping at the first that is refused. */
  function BuildInto(idx: Index, rows: seq<Row>): Result<Index, IndexError>
    decreases |rows|
  {
    if rows == [] then Success(idx)
    else
      match IndexInsert(idx, rows[0])
      case Failure(e) => Failure(e)
      case Success(next) => BuildInto(next, rows[1..])
  }

  // -- Exact search --------------------------------------------------------

  /** Behind every hit at most as far: equal distances stay in insertion order. */
  function Rank(hits: seq<Hit>, h: Hit): seq<Hit> {
    if hits == [] || h.distance < hits[0].distance then [h] + hits else [hits[0]] + Rank(hits[1..], h)
  }

  predicate Selected(env: Env, row: Row, params: SearchParams) {
    params.filter.None? || env.matches(params.filter.value, row.meta)
  }

  function HitOf(env: Env, row: Row, query: seq<f32>, params: SearchParams): Hit {
    Hit(row.id, env.distance(params.metric, query, row.vector))
  }

  function Ranked(env: Env, rows: seq<Row>, query: seq<f32>, params: SearchParams): seq<Hit> {
    if rows == [] then []
    else
      var before, row := Ranked(env, rows[..|rows| - 1], query, params), rows[|rows| - 1];
      if Selected(env, row, params) then Rank(before, HitOf(env, row, query, params)) else before
  }

  function Nearest(env: Env, rows: seq<Row>, query: seq<f32>, params: SearchParams): seq<Hit> {
    var all := Ranked(env, rows, query, params);
    if params.k < |all| then all[..params.k] else all
  }

  // -- The cache layer -------------------------------------------------------

  /** `recent` are the lookups since the last mutation; eviction may depend on them and on nothing else. */
  datatype CacheLayer =
    | Plain(index: Index)
    | Cached(index: Index, config: CacheConfig, entries: map<CacheKey, seq<Hit>>, recent: seq<CacheKey>)
  {
    /** Every mutation attempt invalidates the whole cache. */
    function WithIndex(next: Index): CacheLayer {
      match this
      case Plain(_) => Plain(next)
      case Cached(_, config, _, _) => Cached(next, config, map[], [])
    }

    function Insert(row: Row): (CacheLayer, Result<(), IndexError>) {
      match IndexInsert(index, row)
      case Success(next) => (WithIndex(next), Success(()))
      case Failure(e) => (WithIndex(index), Failure(e))
    }

    function Delete(id: VectorId): (CacheLayer, Result<(), IndexError>) {
      match IndexDelete(index, id)
      case Success(next) => (WithIndex(next), Success(()))
      case Failure(e) => (WithIndex(index), Failure(e))
    }

    function Search(env: Env, query: seq<f32>, params: SearchParams): (CacheLayer, SearchResult) {
      match this
      case Plain(_) => (this, IndexSearch(env, index, query, params))
      case Cached(_, config, _, _) =>
        var key := CacheKey(query, params);
        var used := recent + [key];
        if key in entries then (this.(recent := used), Success(entries[key]))
        else
          match IndexSearch(env, index, query, params)
          case Failure(e) => (this.(recent := used), Failure(e))
          case Success(hits) =>
            (this.(entries := entries[key := hits] - env.evicts(config, used), recent := used), Success(hits))
    }

    /** No cached answer differs from what the index answers now. */
    ghost predicate Fresh(env: Env) {
      Cached? ==>
        forall key :: key in entries ==> IndexSearch(env, index, key.query, key.params) == Success(entries[key])
    }
  }

  function Wrap(idx: Index, cache: Option<CacheConfig>): CacheLayer {
    match cache
    case Some(config) => Cached(idx, config, map[], [])
    case None => Plain(idx)
  }

  /** A search through the cache layer answers what the bare index answers, and stays fresh. */
  lemma CachedSearchIsSearch(env: Env, layer: CacheLayer, query: seq<f32>, params: SearchParams)
    requires layer.Fresh(env)
    ensures layer.Search(env, query, params).1 == IndexSearch(env, layer.index, query, params)
    ensures layer.Search(env, query, params).0.Fresh(env)
    ensures layer.Search(env, query, params).0.index == layer.index
  {
    hide IndexSearch;
  }

  /** An answer that is not evicted is there for the same query the next time, until a mutation is attempted. */
  lemma CacheRemembers(env: Env, layer: CacheLayer, query: seq<f32>, params: SearchParams, row: Row, id: VectorId)
    requires layer.Cached? && layer.Fresh(env) && layer.Search(env, query, params).1.Success?
    ensures var (after, r) := layer.Search(env, query, params);
            var key := CacheKey(query, params);
            && after.Cached? && after.config == layer.config && after.recent == layer.recent + [key]
            && (key !in layer.entries ==> after.entries.Keys !! env.evicts(layer.config, after.recent))
            && (key in layer.entries || key !in env.evicts(layer.config, layer.recent + [key]) ==>
                 key in after.entries && after.entries[key] == r.value)
    ensures layer.Insert(row).0 == Cached(layer.Insert(row).0.index, layer.config, map[], [])
    ensures layer.Delete(id).0 == Cached(layer.Delete(id).0.index, layer.config, map[], [])
  {
    hide IndexSearch;
  }

  // -- What the operations do to the rows held -------------------------------

  lemma {:induction false} WithoutContents(rows: seq<Row>, id: VectorId)
    requires Distinct(rows)
    ensures Distinct(Without(rows, id))
    ensures Contents(Without(rows, id)) == Contents(rows) - {id}
  {
    hide Contents, Position;
    var after, m := Without(rows, id), Contents(rows) - {id};
    forall x ensures SameAt(after, m, x) {
      Lookup(rows, x);
      WithoutPosition(rows, id, x);
      if x in Contents(rows) { PositionOf(rows, Position(rows, x)); }
    }
    WithoutDistinct(rows, id);
    SameEverywhere(after, m);
  }

  lemma {:induction false} WithoutDistinct(rows: seq<Row>, id: VectorId)
    requires Distinct(rows)
    ensures Distinct(Without(rows, id))
    ensures forall row :: row in Without(rows, id) ==> row in rows
  {
    if rows == [] {
    } else {
      WithoutDistinct(rows[1..], id);
      var tail := Without(rows[1..], id);
      forall j | 0 <= j < |tail| ensures tail[j].id != rows[0].id {
        assert tail[j] in tail && tail[j] in rows[1..];
      }
    }
  }

  lemma {:induction false} WithoutPosition(rows: seq<Row>, id: VectorId, x: VectorId)
    ensures var after := Without(rows, id);
            && (Position(after, x) < |after| <==> x != id && Position(rows, x) < |rows|)
            && (Position(after, x) < |after| ==> after[Position(after, x)] == rows[Position(rows, x)])
  {
    hide Position;
    if rows == [] {
      assert Without(rows, id) == rows;
    } else {
      var row, rest, tail := rows[0], rows[1..], Without(rows[1..], id);
      WithoutPosition(rest, id, x);
      assert rows == [row] + rest;
      PositionCons(row, rest, x);
      PositionCons(row, tail, x);
    }
  }

  lemma {:induction false} NothingWithout(rows: seq<Row>, id: VectorId)
    requires forall k :: 0 <= k < |rows| ==> rows[k].id != id
    ensures Without(rows, id) == rows
  {
    if rows == [] {
    } else {
      NothingWithout(rows[1..], id);
      assert rows == [rows[0]] + rows[1..];
    }
  }

  lemma PositionCons(row: Row, rest: seq<Row>, x: VectorId)
    ensures Position([row] + rest, x) == if row.id == x then 0 else 1 + Position(rest, x)
  {
    assert ([row] + rest)[1..] == rest;
  }

  lemma AppendContents(rows: seq<Row>, row: Row)
    requires Distinct(rows) && row.id !in Contents(rows)
    ensures Distinct(rows + [row])
    ensures Contents(rows + [row]) == Contents(rows)[row.id := Of(row)]
  {
    hide Contents, Position;
    Lookup(rows, row.id);
    UpsertDistinct(rows, row);
    UpsertIsUpdate(rows, row);
  }

  lemma InsertAddsRow(idx: Index, row: Row)
    requires Distinct(idx.Rows()) && IndexInsert(idx, row).Success?
    ensures IndexInsert(idx, row).value.Rows() == idx.Rows() + [row]
    ensures Distinct(idx.Rows() + [row])
    ensures Contents(idx.Rows() + [row]) == Contents(idx.Rows())[row.id := Of(row)]
  {
    hide Contents, Distinct;
    assert (idx.history + [Put(row)])[..|idx.history|] == idx.history;
    AppendContents(idx.Rows(), row);
  }

  lemma DeleteDropsRow(idx: Index, id: VectorId)
    requires Distinct(idx.Rows()) && IndexDelete(idx, id).Success?
    ensures IndexDelete(idx, id).value.Rows() == Without(idx.Rows(), id)
    ensures Distinct(Without(idx.Rows(), id))
    ensures Contents(Without(idx.Rows(), id)) == Contents(idx.Rows()) - {id}
  {
    hide Contents, Distinct;
    assert (idx.history + [Drop(id)])[..|idx.history|] == idx.history;
    WithoutContents(idx.Rows(), id);
  }

  function Puts(rows: seq<Row>): (h: seq<Mutation>)
    ensures |h| == |rows|
  {
    if rows == [] then [] else [Put(rows[0])] + Puts(rows[1..])
  }

  lemma NewBehind(rows: seq<Row>, row: Row, more: seq<Row>)
    requires Distinct(rows + [row] + more)
    ensures Distinct(rows) && row.id !in Contents(rows)
  {
    hide Position, Contents;
    var all := rows + [row] + more;
    assert forall k :: 0 <= k < |rows| ==> all[k] == rows[k];
    assert all[|rows|] == row;
    Lookup(rows, row.id);
  }

  /** Bulk loading never fails on a ready index when the rows are new to it and have its dimension. */
  lemma {:induction false} BuildSucceeds(idx: Index, rows: seq<Row>)
    requires !idx.NeedsTraining()
    requires Distinct(idx.Rows() + rows)
    requires forall row :: row in rows ==> |row.vector| == idx.dim
    ensures BuildInto(idx, rows) == Success(idx.(history := idx.history + Puts(rows)))
    ensures BuildInto(idx, rows).value.Rows() == idx.Rows() + rows
    decreases |rows|
  {
    hide Contents, Position, Distinct, Live;
    if rows == [] {
      assert idx.history + [] == idx.history && idx.Rows() + [] == idx.Rows();
    } else {
      var row := rows[0];
      assert idx.Rows() + rows == idx.Rows() + [row] + rows[1..];
      NewBehind(idx.Rows(), row, rows[1..]);
      var next := IndexInsert(idx, row).value;
      InsertAddsRow(idx, row);
      BuildSucceeds(next, rows[1..]);
      assert next.history + Puts(rows[1..]) == idx.history + Puts(rows);
    }
  }
}
