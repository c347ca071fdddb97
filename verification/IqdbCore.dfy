/** The core engine, updated in place: the row store, the index behind its cache layer, the dirty flag. */
module IqdbCore {
  import opened Wrappers
  import opened Types
  import opened PayloadFormat
  import opened AnyIndex
  import opened Encoder
  import opened Decoder
  import opened CoreSteps
  import opened CorePersistence
  import opened FlatSearch
  import opened PayloadLayout
  import RS = RowStore
  import S = CoreState

  class IqdbCore {
    const env: Env
    const kind: IndexKind
    const dim: nat
    const metric: DistanceMetric
    const store: RS.RowStore
    var layer: CacheLayer
    var cacheCfg: Option<CacheConfig>
    var ivfDirty: bool

    ghost function Abs(): S.Core reads this, store {
      S.Core(kind, dim, metric, store.rows, layer, cacheCfg, ivfDirty)
    }

    ghost function View(): map<VectorId, RS.Stored> reads this, store { S.View(Abs()) }

    ghost predicate Valid() reads this, store { store.Valid() && S.Sound(env, Abs()) }

    constructor (env: Env, kind: IndexKind, dim: nat, metric: DistanceMetric,
                 store: RS.RowStore, layer: CacheLayer, cacheCfg: Option<CacheConfig>, ivfDirty: bool)
      ensures this.env == env && this.store == store
      ensures Abs() == S.Core(kind, dim, metric, store.rows, layer, cacheCfg, ivfDirty)
    {
      this.env, this.kind, this.dim, this.metric := env, kind, dim, metric;
      this.store, this.layer, this.cacheCfg, this.ivfDirty := store, layer, cacheCfg, ivfDirty;
    }

    static method Create(env: Env, dim: nat, metric: DistanceMetric, kind: IndexKind, cache: Option<CacheConfig>)
      returns (r: Result<IqdbCore, IndexError>)
      ensures r.Success? <==> S.Create(env, kind, dim, metric, cache).Success?
      ensures r.Failure? ==> S.Create(env, kind, dim, metric, cache) == Failure(r.error)
      ensures r.Success? ==> fresh(r.value) && fresh(r.value.store) && r.value.Valid() && r.value.env == env
      ensures r.Success? ==> S.Create(env, kind, dim, metric, cache) == Success(r.value.Abs())
      ensures r.Success? ==> r.value.View() == map[]
    {
      var idx := New(env, kind, dim, metric);
      if idx.Failure? { return Failure(idx.error); }
      var dirty := idx.value.NeedsTraining();
      var store := new RS.RowStore();
      var core := new IqdbCore(env, kind, dim, metric, store, Wrap(idx.value, cache), cache, dirty);
      CreateSound(env, kind, dim, metric, cache);
      r := Success(core);
    }

    method Len() returns (n: nat)
      requires Valid()
      ensures n == |View()|
    {
      n := store.Len();
    }

    method Contains(id: VectorId) returns (b: bool)
      requires Valid()
      ensures b <==> id in View()
    {
      b := store.Contains(id);
    }

    method GetRow(id: VectorId) returns (r: Option<RS.Stored>)
      requires Valid()
      ensures r == RS.Find(View(), id)
    {
      var row := store.Get(id);
      r := if row.None? then None else Some(RS.Of(row.value));
    }

    /**
     After this the index holds the id no more and the other rows as before, in their order,
     whether it held the id or not; no cached answer is left. It never fails.
     */
    method IndexReplaceDelete(id: VectorId) returns (r: S.Outcome)
      modifies this
      ensures Abs() == old(Abs()).(layer := layer)
      ensures r == Success(())
      ensures layer == old(layer).WithIndex(layer.index) && (layer.Cached? ==> layer.entries == map[])
      ensures id !in RS.Contents(old(layer.index.Rows())) ==> layer.index == old(layer.index)
      ensures id in RS.Contents(old(layer.index.Rows())) ==>
                layer.index == old(layer.index).(history := old(layer.index.history) + [Drop(id)])
      ensures RS.Distinct(old(layer.index.Rows())) ==>
                && layer.index.Rows() == Without(old(layer.index.Rows()), id)
                && RS.Contents(layer.index.Rows()) == RS.Contents(old(layer.index.Rows())) - {id}
    {
      hide RS.Contents, RS.Distinct, RS.Position, Live;
      if RS.Distinct(layer.index.Rows()) { DroppedRows(layer.index, id); }
      var (after, outcome) := layer.Delete(id);
      layer := after;
      r := if outcome == Failure(NotFound) then Success(()) else outcome;
    }

    /**
     The complete authoritative write. On a sound core it is a map update and succeeds,
     provided the vector has the core's dimension; without it the store changes all the same
     and the core is no longer sound.
     */
    method Insert(row: Row) returns (r: S.Outcome)
      requires store.Valid()
      modifies this, store
      ensures store.Valid() && (Abs(), r) == S.Insert(old(Abs()), row)
      ensures View() == old(View())[row.id := RS.Of(row)]
      ensures old(Valid()) ==> (Valid() <==> |row.vector| == dim)
      ensures old(Valid()) && |row.vector| == dim ==> r == Success(())
      ensures old(Valid()) ==> ivfDirty == old(ivfDirty) && cacheCfg == old(cacheCfg)
      ensures old(Valid()) ==> layer.index == old(layer.index).(history := layer.index.history)
    {
      hide RS.Position, RS.UpsertRows, RS.Contents, Live, IndexInsert, S.Coupled;
      RS.Lookup(store.rows, row.id);
      ghost var before := Abs();
      if S.Sound(env, before) {
        InsertStep(env, before, row);
        SoundParts(env, S.Insert(before, row).0);
        SoundParts(env, before);
      }
      var newly := store.Upsert(row);
      if layer.index.NeedsTraining() {
        ivfDirty := true;
        return Success(());
      }
      if !newly {
        var dropped := IndexReplaceDelete(row.id);
        if dropped.Failure? { return dropped; }
      }
      var (filled, outcome) := layer.Insert(row);
      layer := filled;
      r := outcome;
    }

    /** Delete from the store and the index; always succeeds on a sound core, present or absent. */
    method Delete(id: VectorId) returns (r: S.Outcome)
      requires store.Valid()
      modifies this, store
      ensures store.Valid() && (Abs(), r) == S.Delete(old(Abs()), id)
      ensures View() == old(View()) - {id}
      ensures old(Valid()) ==> Valid() && r == Success(())
      ensures old(Valid()) ==> ivfDirty == old(ivfDirty) && cacheCfg == old(cacheCfg)
      ensures old(Valid()) ==> layer.index == old(layer.index).(history := layer.index.history)
    {
      hide RS.Position, RS.RemoveRows, RS.Contents, Live, S.Coupled;
      ghost var before := Abs();
      if S.Sound(env, before) { DeleteStep(env, before, id); }
      var existed := store.Remove(id);
      if layer.index.NeedsTraining() {
        ivfDirty := true;
        return Success(());
      }
      r := IndexReplaceDelete(id);
    }

    /** Afterwards a non-empty core has a trained index; a sound core that fails is as it was. */
    method EnsureReady() returns (r: S.Outcome)
      requires store.Valid()
      modifies this
      ensures (Abs(), r) == S.EnsureReady(env, old(Abs()))
      ensures old(Valid()) ==> Valid()
      ensures View() == old(View()) && cacheCfg == old(cacheCfg)
      ensures old(Valid()) && r.Failure? ==> Abs() == old(Abs())
      ensures old(Valid()) && r.Success? && store.rows != [] ==> !layer.index.NeedsTraining() && !ivfDirty
      ensures old(Valid()) && r.Success? && store.rows != [] && old(ivfDirty) ==>
                HoldsInOrder(layer.index, kind, dim, metric, store.rows)
    {
      hide BuildInto, RS.Contents, S.Coupled;
      ghost var before := Abs();
      if S.Sound(env, before) { EnsureReadyStep(env, before); }
      if !ivfDirty || store.rows == [] { return Success(()); }
      var empty := New(env, kind, dim, metric);
      if empty.Failure? { return Failure(empty.error); }
      var idx := empty.value;
      if idx.NeedsTraining() {
        var trained := Train(env, idx, S.Vectors(store.rows));
        if trained.Failure? { return Failure(trained.error); }
        idx := trained.value;
      }
      var built := BuildInto(idx, store.rows);
      if built.Failure? { return Failure(built.error); }
      layer := Wrap(built.value, cacheCfg);
      ivfDirty := false;
      r := Success(());
    }

    /** Retrain and rebuild an IVF index; a failure leaves at most the dirty flag. */
    method Optimize() returns (r: S.Outcome)
      requires store.Valid()
      modifies this
      ensures (Abs(), r) == S.Optimize(env, old(Abs()))
      ensures old(Valid()) ==> Valid()
      ensures View() == old(View())
      ensures old(Valid()) && r.Failure? ==> Abs() == old(Abs()).(dirty := true)
      ensures old(Valid()) && r.Success? ==> (ivfDirty <==> kind.Ivf? && store.rows == [])
      ensures old(Valid()) && r.Success? && kind.Ivf? && store.rows != [] ==>
                HoldsInOrder(layer.index, kind, dim, metric, store.rows)
    {
      hide S.EnsureReady, RS.Contents, S.Coupled;
      ghost var before := Abs();
      if S.Sound(env, before) { OptimizeStep(env, before); }
      if kind.Ivf? { ivfDirty := true; }
      r := EnsureReady();
    }

    /** Re-wrap the live index; a failure changes nothing. */
    method SetCache(cache: Option<CacheConfig>) returns (r: S.Outcome)
      requires store.Valid()
      modifies this
      ensures (Abs(), r) == S.SetCache(env, old(Abs()), cache)
      ensures old(Valid()) ==> Valid()
      ensures View() == old(View()) && layer.index == old(layer.index)
      ensures r.Failure? ==> Abs() == old(Abs())
    {
      hide S.Coupled;
      ghost var before := Abs();
      if S.Sound(env, before) { SetCacheStep(env, before, cache); }
      var placeholder := New(env, Flat, dim, metric);
      if placeholder.Failure? { return Failure(placeholder.error); }
      var current := layer;
      layer := Wrap(placeholder.value, None);
      cacheCfg := cache;
      layer := Wrap(current.index, cacheCfg);
      r := Success(());
    }

    /**
     A ready index refuses a bad filter and otherwise answers: a flat one with the exact top
     k of what is stored, another one with what it finds for the same query, k and filter.
     */
    method Search(query: seq<f32>, params: SearchParams) returns (r: SearchResult)
      requires Valid()
      modifies this
      ensures (Abs(), r) == S.Search(env, old(Abs()), query, params)
      ensures Valid() && View() == old(View()) && layer.index == old(layer.index)
      ensures r == IndexSearch(env, layer.index, query, params)
      ensures |query| != dim ==> r == Failure(DimensionMismatch(dim, |query|))
      ensures |query| == dim && layer.index.NeedsTraining() ==> r == Failure(NotTrained)
      ensures |query| == dim && !layer.index.NeedsTraining() ==>
                if params.filter.Some? && !env.wellFormed(params.filter.value) then r == Failure(InvalidFilter)
                else if kind.Flat? then r.Success? && TopK(env, View(), query, params, r.value)
                else r == env.approximate(layer.index, query, params)
    {
      hide S.Sound, IndexSearch, TopK, RS.Contents;
      SearchStep(env, Abs(), query, params);
      if kind.Flat? && |query| == dim { FlatIsTopK(env, Abs(), query, params); }
      var (after, result) := layer.Search(env, query, params);
      layer := after;
      r := result;
    }

    method SaveTo(w: Writer) returns (st: Status)
      requires Valid() && w.Valid()
      modifies w
      ensures w.Valid() && (w.buf, st) == Emit(old(w.buf), w.limit, S.Save(Abs()))
      ensures |old(w.buf)| <= |w.buf| && (st.Failed? ==> ParsePayload(w.buf, |old(w.buf)|).Err?)
      ensures st.Done? ==> IsPayload(w.buf[|old(w.buf)|..], kind, dim, metric, store.rows)
    {
      hide Emit, EncPayload, ParsePayload, AllStorable;
      st := Encode(w, kind, dim, metric, store.rows);
    }

    /** Decode a payload, fill a store row by row and bring up the index it names. */
    static method LoadFrom(env: Env, reader: Reader) returns (r: Result<IqdbCore, S.LoadError>)
      requires reader.Valid() && reader.pos == 0
      modifies reader
      ensures r.Failure? ==> S.Load(env, reader.bytes) == Failure(r.error)
      ensures r.Success? ==> fresh(r.value) && fresh(r.value.store) && r.value.Valid() && r.value.env == env
      ensures r.Success? ==> S.Load(env, reader.bytes) == Success(r.value.Abs())
    {
      hide ParsePayload, BuildInto, S.Sound, RS.UpsertRows, Metered;
      var decoded := reader.Decode();
      if decoded.Failure? { return Failure(S.Persist(decoded.error)); }
      var p := decoded.value;
      var store := new RS.RowStore();
      for k := 0 to |p.rows|
        invariant store.Valid() && fresh(store) && store.rows == S.Deduplicate(p.rows[..k])
      {
        var _ := store.Upsert(p.rows[k]);
        assert p.rows[..k + 1][..k] == p.rows[..k];
      }
      assert p.rows[..|p.rows|] == p.rows;
      if S.Load(env, reader.bytes).Success? { LoadNormalizes(env, reader.bytes); }
      var idx := New(env, p.kind, p.dim, p.metric);
      if idx.Failure? { return Failure(S.Refused(idx.error)); }
      var core;
      if idx.value.NeedsTraining() {
        core := new IqdbCore(env, p.kind, p.dim, p.metric, store, Wrap(idx.value, None), None, true);
      } else {
        var built := BuildInto(idx.value, store.rows);
        if built.Failure? { return Failure(S.Refused(built.error)); }
        core := new IqdbCore(env, p.kind, p.dim, p.metric, store, Wrap(built.value, None), None, false);
      }
      r := Success(core);
    }
  }

  /** The rows after a delete, of an id that is held or of one that is not. */
  lemma DroppedRows(idx: Index, id: VectorId)
    requires RS.Distinct(idx.Rows())
    ensures IndexDelete(idx, id).Success? ==> IndexDelete(idx, id).value.Rows() == Without(idx.Rows(), id)
    ensures IndexDelete(idx, id).Failure? ==> idx.Rows() == Without(idx.Rows(), id)
    ensures RS.Contents(Without(idx.Rows(), id)) == RS.Contents(idx.Rows()) - {id}
  {
    hide RS.Contents, RS.Distinct, RS.Position, Live;
    if IndexDelete(idx, id).Success? {
      DeleteDropsRow(idx, id);
    } else {
      RS.Lookup(idx.Rows(), id);
      NothingWithout(idx.Rows(), id);
    }
  }

  lemma FlatIsTopK(env: Env, c: S.Core, query: seq<f32>, params: SearchParams)
    requires S.Sound(env, c) && c.kind.Flat? && |query| == c.dim
    ensures var r := IndexSearch(env, c.layer.index, query, params);
            if params.filter.Some? && !env.wellFormed(params.filter.value) then r == Failure(InvalidFilter)
            else r.Success? && TopK(env, S.View(c), query, params, r.value)
  {
    hide RS.Contents, RS.Distinct, TopK, Nearest;
    NearestIsTopK(env, c.layer.index.Rows(), query, params);
  }

  lemma SoundParts(env: Env, c: S.Core)
    ensures S.Sound(env, c) <==> S.Coupled(c) && c.layer.Fresh(env)
  {
  }
}
