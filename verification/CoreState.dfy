/**
 The core engine as a state and its transitions: the authoritative rows, the derived index
 behind its cache layer, and the flag that asks for the index to be rebuilt.
 */
module CoreState {
  import opened Wrappers
  import opened Bytes
  import opened Types
  import opened PayloadFormat
  import opened RowStore
  import opened AnyIndex

  datatype Core = Core(
    kind: IndexKind, dim: nat, metric: DistanceMetric,
    rows: seq<Row>, layer: CacheLayer, cacheCfg: Option<CacheConfig>, dirty: bool)

  /** What no operation changes, and what the snapshot remembers beside the rows. */
  datatype Shape = Shape(kind: IndexKind, dim: nat, metric: DistanceMetric)

  function ShapeOf(c: Core): Shape { Shape(c.kind, c.dim, c.metric) }

  type Outcome = Result<(), IndexError>

  // -- Transitions -----------------------------------------------------------

  function Create(env: Env, kind: IndexKind, dim: nat, metric: DistanceMetric, cache: Option<CacheConfig>)
    : Result<Core, IndexError>
  {
    match New(env, kind, dim, metric)
    case Failure(e) => Failure(e)
    case Success(idx) => Success(Core(kind, dim, metric, [], Wrap(idx, cache), cache, idx.NeedsTraining()))
  }

  /** Delete from the index, an absent id being no error. */
  function DropStale(layer: CacheLayer, id: VectorId): (CacheLayer, Outcome) {
    var (after, r) := layer.Delete(id);
    if r == Failure(NotFound) then (after, Success(())) else (after, r)
  }

  function Insert(c: Core, row: Row): (Core, Outcome) {
    var newly := Position(c.rows, row.id) == |c.rows|;
    var stored := c.(rows := UpsertRows(c.rows, row));
    if c.layer.index.NeedsTraining() then (stored.(dirty := true), Success(()))
    else
      var (cleared, dropped) := if newly then (c.layer, Success(())) else DropStale(c.layer, row.id);
      if dropped.Failure? then (stored.(layer := cleared), dropped)
      else
        var (filled, r) := cleared.Insert(row);
        (stored.(layer := filled), r)
  }

  function Delete(c: Core, id: VectorId): (Core, Outcome) {
    var stored := c.(rows := RemoveRows(c.rows, id));
    if c.layer.index.NeedsTraining() then (stored.(dirty := true), Success(()))
    else
      var (after, r) := DropStale(c.layer, id);
      (stored.(layer := after), r)
  }

  function Vectors(rows: seq<Row>): seq<seq<f32>> { seq(|rows|, i requires 0 <= i < |rows| => rows[i].vector) }

  /** The vector of every row, in the order of the rows. */
  predicate IsSample(sample: seq<seq<f32>>, rows: seq<Row>) {
    |sample| == |rows| && forall i :: 0 <= i < |rows| ==> sample[i] == rows[i].vector
  }

  /** A fresh index of the core's kind, trained if need be, holding the core's rows in order. */
  function Rebuilt(env: Env, kind: IndexKind, dim: nat, metric: DistanceMetric, rows: seq<Row>)
    : Result<Index, IndexError>
  {
    match New(env, kind, dim, metric)
    case Failure(e) => Failure(e)
    case Success(empty) =>
      match if empty.NeedsTraining() then Train(env, empty, Vectors(rows)) else Success(empty)
      case Failure(e) => Failure(e)
      case Success(ready) => BuildInto(ready, rows)
  }

  function EnsureReady(env: Env, c: Core): (Core, Outcome) {
    if !c.dirty || c.rows == [] then (c, Success(()))
    else
      match Rebuilt(env, c.kind, c.dim, c.metric, c.rows)
      case Failure(e) => (c, Failure(e))
      case Success(idx) => (c.(layer := Wrap(idx, c.cacheCfg), dirty := false), Success(()))
  }

  function Optimize(env: Env, c: Core): (Core, Outcome) {
    EnsureReady(env, if c.kind.Ivf? then c.(dirty := true) else c)
  }

  function SetCache(env: Env, c: Core, cache: Option<CacheConfig>): (Core, Outcome) {
    match New(env, Flat, c.dim, c.metric)
    case Failure(e) => (c, Failure(e))
    case Success(_) => (c.(cacheCfg := cache, layer := Wrap(c.layer.index, cache)), Success(()))
  }

  function Search(env: Env, c: Core, query: seq<f32>, params: SearchParams): (Core, SearchResult) {
    var (layer, r) := c.layer.Search(env, query, params);
    (c.(layer := layer), r)
  }

  /** The body of a search at the handle: nothing to find in an empty store, otherwise materialize and search. */
  function MaterializeAndSearch(env: Env, c: Core, query: seq<f32>, params: SearchParams): (Core, SearchResult) {
    if c.rows == [] then (c, Success([]))
    else
      var (ready, made) := EnsureReady(env, c);
      match made
      case Failure(e) => (ready, Failure(e))
      case Success(_) => Search(env, ready, query, params)
  }

  /** A search at the handle: the dimension gate in front of everything else. */
  function Ask(env: Env, c: Core, query: seq<f32>, params: SearchParams): (Core, SearchResult) {
    if |query| != c.dim then (c, Failure(DimensionMismatch(c.dim, |query|)))
    else MaterializeAndSearch(env, c, query, params)
  }

  function GetRow(c: Core, id: VectorId): Option<Stored> {
    var p := Position(c.rows, id);
    if p < |c.rows| then Some(Of(c.rows[p])) else None
  }

  // -- Persistence -----------------------------------------------------------

  datatype LoadError = Persist(persist: PersistError) | Refused(index: IndexError)

  function Save(c: Core): Written { EncPayload(c.kind, c.dim, c.metric, c.rows) }

  /** Upsert the rows one by one into an empty store. */
  function Deduplicate(rows: seq<Row>): seq<Row> {
    if rows == [] then [] else UpsertRows(Deduplicate(rows[..|rows| - 1]), rows[|rows| - 1])
  }

  function FromPayload(env: Env, p: Payload): Result<Core, LoadError> {
    var rows := Deduplicate(p.rows);
    match New(env, p.kind, p.dim, p.metric)
    case Failure(e) => Failure(Refused(e))
    case Success(empty) =>
      if empty.NeedsTraining() then
        Success(Core(p.kind, p.dim, p.metric, rows, Plain(empty), None, true))
      else
        match BuildInto(empty, rows)
        case Failure(e) => Failure(Refused(e))
        case Success(idx) => Success(Core(p.kind, p.dim, p.metric, rows, Plain(idx), None, false))
  }

  function Load(env: Env, bytes: seq<byte>): Result<Core, LoadError> {
    match ParsePayload(bytes, 0)
    case Err(e) => Failure(Persist(e))
    case Ok(p, _) => FromPayload(env, p)
  }

  // -- The coupling invariant --------------------------------------------------

  /**
   An index that still needs training is empty and marked dirty; any other index holds
   exactly the stored rows. Only IVF is ever dirty.
   */
  ghost predicate Coupled(c: Core) {
    var idx := c.layer.index;
    && idx.kind == c.kind && idx.dim == c.dim && idx.metric == c.metric
    && Distinct(c.rows) && AllDim(c.rows, c.dim)
    && c.cacheCfg == (if c.layer.Cached? then Some(c.layer.config) else None)
    && (c.dirty ==> c.kind.Ivf?)
    && if idx.NeedsTraining() then c.dirty && idx.history == []
       else Distinct(idx.Rows()) && Contents(idx.Rows()) == Contents(c.rows)
  }

  ghost predicate Sound(env: Env, c: Core) { Coupled(c) && c.layer.Fresh(env) }

  function View(c: Core): map<VectorId, Stored> { Contents(c.rows) }
}

/** What every transition of the core keeps and what it does to the stored map. */
module CoreSteps {
  import opened Wrappers
  import opened Types
  import opened PayloadFormat
  import opened RowStore
  import opened AnyIndex
  import opened CoreState

  /** A row looked up in the store is the answer of the stored map. */
  lemma GetIsAnswer(c: Core, id: VectorId)
    ensures GetRow(c, id) == Find(View(c), id)
  {
    hide Position;
    Lookup(c.rows, id);
  }

  /** A new core is refused exactly for dimension 0 or a configuration that the index refuses. */
  lemma CreateSound(env: Env, kind: IndexKind, dim: nat, metric: DistanceMetric, cache: Option<CacheConfig>)
    ensures var r := Create(env, kind, dim, metric, cache);
            && (r.Failure? <==> dim == 0 || !env.accepts(kind, dim, metric))
            && (r.Failure? ==> r.error == InvalidConfig)
            && (r.Success? ==>
                 var c := r.value;
                 && Sound(env, c) && View(c) == map[] && c.rows == []
                 && ShapeOf(c) == Shape(kind, dim, metric) && c.cacheCfg == cache
                 && c.layer.index.sample == None && (c.dirty <==> kind.Ivf?))
  {
  }

  lemma UpsertDim(rows: seq<Row>, row: Row, dim: nat)
    requires AllDim(rows, dim)
    ensures AllDim(UpsertRows(rows, row), dim) <==> |row.vector| == dim
  {
    hide Position;
    var p := Position(rows, row.id);
    assert UpsertRows(rows, row)[p] == row;
  }

  lemma RemoveDim(rows: seq<Row>, id: VectorId, dim: nat)
    requires AllDim(rows, dim)
    ensures AllDim(RemoveRows(rows, id), dim)
  {
    hide Position;
  }

  /** The index side of an insert on a ready index. */
  lemma ReplaceInIndex(c: Core, row: Row)
    requires Coupled(c) && !c.layer.index.NeedsTraining()
    ensures var (c', r) := Insert(c, row);
            var idx := c'.layer.index;
            && c'.rows == UpsertRows(c.rows, row)
            && c' == c.(rows := c'.rows, layer := c.layer.WithIndex(idx))
            && idx == c.layer.index.(history := idx.history)
            && Distinct(idx.Rows())
            && r == (if |row.vector| == c.dim then Success(()) else Failure(DimensionMismatch(c.dim, |row.vector|)))
            && idx.Rows() == Without(c.layer.index.Rows(), row.id) + (if r.Success? then [row] else [])
            && Contents(idx.Rows()) == if r.Success? then View(c)[row.id := Of(row)] else View(c) - {row.id}
  {
    hide Contents, Distinct, Position, UpsertRows, Live;
    Lookup(c.rows, row.id);
    var idx := c.layer.index;
    if row.id in View(c) {
      DeleteDropsRow(idx, row.id);
      var dropped := IndexDelete(idx, row.id).value;
      if |row.vector| == c.dim { InsertAddsRow(dropped, row); }
    } else {
      assert View(c) - {row.id} == View(c);
      Lookup(idx.Rows(), row.id);
      NothingWithout(idx.Rows(), row.id);
      if |row.vector| == c.dim { InsertAddsRow(idx, row); }
    }
  }

  /**
   The index side of a delete on a ready index: the index loses the id, present or absent,
   and keeps the order of the other rows and what it was trained on; the flag stays as it is.
   */
  lemma DeleteInIndex(c: Core, id: VectorId)
    requires Coupled(c) && !c.layer.index.NeedsTraining()
    ensures var (c', r) := Delete(c, id);
            var idx := c'.layer.index;
            && r == Success(())
            && c'.rows == RemoveRows(c.rows, id)
            && c' == c.(rows := c'.rows, layer := c.layer.WithIndex(idx))
            && idx == c.layer.index.(history := idx.history)
            && idx.Rows() == Without(c.layer.index.Rows(), id)
            && Distinct(idx.Rows()) && Contents(idx.Rows()) == View(c) - {id}
  {
    hide Contents, Distinct, Position, RemoveRows, Live;
    var idx := c.layer.index;
    if id in View(c) {
      DeleteDropsRow(idx, id);
    } else {
      assert View(c) - {id} == View(c);
      Lookup(idx.Rows(), id);
      NothingWithout(idx.Rows(), id);
    }
  }

  /**
   An insert of a row with the right dimension succeeds, keeps the core sound and updates
   the stored map. With any other dimension the row is stored all the same, whether or not
   the index refuses it, and the coupling is lost: the dimension check belongs to the caller.
   */
  lemma InsertStep(env: Env, c: Core, row: Row)
    requires Sound(env, c)
    ensures var (c', r) := Insert(c, row);
            && View(c') == View(c)[row.id := Of(row)]
            && c'.rows == UpsertRows(c.rows, row)
            && c' == c.(rows := c'.rows, layer := c'.layer)
            && c'.layer.index == c.layer.index.(history := c'.layer.index.history)
            && (c.layer.index.NeedsTraining() ==> c'.layer == c.layer)
            && c'.layer.Fresh(env)
            && (Coupled(c') <==> |row.vector| == c.dim)
            && r == (if |row.vector| == c.dim || c.layer.index.NeedsTraining() then Success(())
                     else Failure(DimensionMismatch(c.dim, |row.vector|)))
  {
    hide Contents, Distinct, Position, UpsertRows, Live, IndexSearch;
    UpsertIsUpdate(c.rows, row);
    UpsertDistinct(c.rows, row);
    UpsertDim(c.rows, row, c.dim);
    if !c.layer.index.NeedsTraining() { ReplaceInIndex(c, row); }
  }

  /**
   A delete always succeeds, present or absent, keeps the core sound and removes the id. It
   touches nothing but the rows and the contents of the index.
   */
  lemma DeleteStep(env: Env, c: Core, id: VectorId)
    requires Sound(env, c)
    ensures var (c', r) := Delete(c, id);
            && r == Success(())
            && Sound(env, c')
            && View(c') == View(c) - {id}
            && c'.rows == RemoveRows(c.rows, id)
            && c' == c.(rows := c'.rows, layer := c'.layer)
            && c'.layer.index == c.layer.index.(history := c'.layer.index.history)
            && (c.layer.index.NeedsTraining() ==> c'.layer == c.layer)
  {
    hide Contents, Distinct, Position, RemoveRows, Live, IndexSearch;
    RemoveIsSubtract(c.rows, id);
    RemoveDistinct(c.rows, id);
    RemoveDim(c.rows, id, c.dim);
    if !c.layer.index.NeedsTraining() { DeleteInIndex(c, id); }
  }

  /** A rebuilt index holds the rows in storage order; the only failures are refusal and training. */
  lemma RebuiltHoldsRows(env: Env, kind: IndexKind, dim: nat, metric: DistanceMetric, rows: seq<Row>)
    requires Distinct(rows) && AllDim(rows, dim)
    ensures var r := Rebuilt(env, kind, dim, metric, rows);
            && (r.Failure? <==> Unbuilt(env, kind, dim, metric, rows))
            && (r.Failure? ==>
                 r.error == if New(env, kind, dim, metric).Failure? then InvalidConfig else TrainingFailed)
            && (r.Success? ==> HoldsInOrder(r.value, kind, dim, metric, rows))
            && (r.Success? ==> r.value.history == Puts(rows))
  {
    hide Distinct;
    assert IsSample(Vectors(rows), rows);
    forall s | IsSample(s, rows) ensures s == Vectors(rows) {}
    var ready := Index(kind, dim, metric, if kind.Ivf? then Some(Vectors(rows)) else None, []);
    assert ready.Rows() + rows == rows && [] + Puts(rows) == Puts(rows);
    BuildSucceeds(ready, rows);
  }

  /** The constructor refuses, or an IVF index cannot be trained on the vectors of the rows. */
  ghost predicate Unbuilt(env: Env, kind: IndexKind, dim: nat, metric: DistanceMetric, rows: seq<Row>) {
    || dim == 0 || !env.accepts(kind, dim, metric)
    || (kind.Ivf? && exists sample :: IsSample(sample, rows) && !env.trains(kind, dim, metric, sample))
  }

  /** There is but one sample for given rows. */
  lemma UnbuiltBySample(
    env: Env, kind: IndexKind, dim: nat, metric: DistanceMetric, rows: seq<Row>, sample: seq<seq<f32>>)
    requires IsSample(sample, rows)
    ensures Unbuilt(env, kind, dim, metric, rows) <==>
            dim == 0 || !env.accepts(kind, dim, metric) || (kind.Ivf? && !env.trains(kind, dim, metric, sample))
  {
    forall s | IsSample(s, rows) ensures s == sample {}
  }

  /** Built for these rows: they are in it in order, and an IVF index was trained on their vectors. */
  predicate HoldsInOrder(idx: Index, kind: IndexKind, dim: nat, metric: DistanceMetric, rows: seq<Row>) {
    && idx.kind == kind && idx.dim == dim && idx.metric == metric && idx.Rows() == rows
    && (if kind.Ivf? then idx.sample.Some? && IsSample(idx.sample.value, rows) else idx.sample.None?)
  }

  /**
   Materializing the index keeps the stored rows and the core sound. It fails exactly when
   there is something to rebuild and the index constructor or the training refuses, and
   then nothing at all has changed. When there was something to rebuild, the new index
   holds the rows in storage order, was trained on their vectors, and is no longer dirty.
   */
  lemma EnsureReadyStep(env: Env, c: Core)
    requires Sound(env, c)
    ensures var (c', r) := EnsureReady(env, c);
            && Sound(env, c')
            && c' == c.(layer := c'.layer, dirty := c'.dirty)
            && (!c.dirty || c.rows == [] ==> c' == c && r == Success(()))
            && (r.Failure? <==> c.dirty && c.rows != [] && Unbuilt(env, c.kind, c.dim, c.metric, c.rows))
            && (r.Failure? ==>
                 && c' == c
                 && r.error == if New(env, c.kind, c.dim, c.metric).Failure? then InvalidConfig else TrainingFailed)
            && (r.Success? && c.rows != [] ==> !c'.dirty && !c'.layer.index.NeedsTraining())
            && (r.Success? && c.rows != [] && c.dirty ==>
                 HoldsInOrder(c'.layer.index, c.kind, c.dim, c.metric, c.rows))
  {
    hide IndexSearch, BuildInto, Contents, Distinct, Rebuilt, Live, IsSample, Unbuilt;
    RebuiltHoldsRows(env, c.kind, c.dim, c.metric, c.rows);
  }

  /**
   Optimizing fails exactly on a non-empty IVF core whose index constructor or training
   refuses, and leaves at most the dirty flag behind. When it succeeds, a non-empty IVF core
   has an index trained on the vectors of its rows and is clean; an empty one stays dirty.
   */
  lemma OptimizeStep(env: Env, c: Core)
    requires Sound(env, c)
    ensures var (c', r) := Optimize(env, c);
            && Sound(env, c')
            && c' == c.(layer := c'.layer, dirty := c'.dirty)
            && (r.Failure? <==> c.kind.Ivf? && c.rows != [] && Unbuilt(env, c.kind, c.dim, c.metric, c.rows))
            && (r.Failure? ==>
                 && c' == c.(dirty := true)
                 && r.error == if New(env, c.kind, c.dim, c.metric).Failure? then InvalidConfig else TrainingFailed)
            && (!c.kind.Ivf? ==> c' == c && r == Success(()))
            && (r.Success? ==> (c'.dirty <==> c.kind.Ivf? && c.rows == []))
            && (c.kind.Ivf? && c.rows == [] ==> c' == c.(dirty := true))
            && (c.kind.Ivf? && c.rows != [] && r.Success? ==>
                 !c'.dirty && HoldsInOrder(c'.layer.index, c.kind, c.dim, c.metric, c.rows))
  {
    hide IndexSearch, EnsureReady, Contents, Distinct, HoldsInOrder, Unbuilt;
    EnsureReadyStep(env, if c.kind.Ivf? then c.(dirty := true) else c);
    if !c.kind.Ivf? { NeverDirty(env, c); }
  }

  lemma NeverDirty(env: Env, c: Core)
    requires Coupled(c) && !c.kind.Ivf?
    ensures EnsureReady(env, c) == (c, Success(()))
  {
  }

  /** Re-wrapping the index changes nothing but the cache; refused, it changes nothing. */
  lemma SetCacheStep(env: Env, c: Core, cache: Option<CacheConfig>)
    requires Sound(env, c)
    ensures var (c', r) := SetCache(env, c, cache);
            && Sound(env, c')
            && c'.rows == c.rows && c'.layer.index == c.layer.index && c'.dirty == c.dirty
            && c'.cacheCfg == (if r.Success? then cache else c.cacheCfg)
            && c' == c.(layer := c'.layer, cacheCfg := c'.cacheCfg)
            && (r.Failure? <==> c.dim == 0 || !env.accepts(Flat, c.dim, c.metric))
            && (r.Failure? ==> c' == c && r.error == InvalidConfig)
            && (r.Success? && cache.Some? ==> c'.layer == Cached(c.layer.index, cache.value, map[], []))
  {
    hide IndexSearch, Contents, Distinct;
  }

  /** An index refuses queries in this order and hands everything else, filter included, to its implementation. */
  lemma IndexAnswers(env: Env, idx: Index, query: seq<f32>, params: SearchParams)
    ensures var r := IndexSearch(env, idx, query, params);
            && (|query| != idx.dim ==> r == Failure(DimensionMismatch(idx.dim, |query|)))
            && (|query| == idx.dim && idx.NeedsTraining() ==> r == Failure(NotTrained))
            && (|query| == idx.dim && !idx.NeedsTraining() ==>
                 if params.filter.Some? && !env.wellFormed(params.filter.value) then r == Failure(InvalidFilter)
                 else !idx.kind.Flat? ==> r == env.approximate(idx, query, params))
  {
    hide Nearest, Live;
  }

  lemma SearchStep(env: Env, c: Core, query: seq<f32>, params: SearchParams)
    requires Sound(env, c)
    ensures var (c', r) := Search(env, c, query, params);
            && Sound(env, c')
            && c' == c.(layer := c'.layer) && c'.layer.index == c.layer.index
            && r == IndexSearch(env, c.layer.index, query, params)
            && (|query| != c.dim ==> r == Failure(DimensionMismatch(c.dim, |query|)))
            && (|query| == c.dim && c.layer.index.NeedsTraining() ==> r == Failure(NotTrained))
            && (|query| == c.dim && !c.layer.index.NeedsTraining() ==>
                 if params.filter.Some? && !env.wellFormed(params.filter.value) then r == Failure(InvalidFilter)
                 else !c.kind.Flat? ==> r == env.approximate(c.layer.index, query, params))
  {
    hide IndexSearch, Contents, Distinct;
    CachedSearchIsSearch(env, c.layer, query, params);
    IndexAnswers(env, c.layer.index, query, params);
  }
}
