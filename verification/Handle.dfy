/**
 The database handle with its backend, used by one thread at a time; ConcurrentSearch
 treats interleavings. A durable backend keeps a snapshot and a log beside the core.
 */
module Handle {
  import opened Wrappers
  import opened Types
  import opened PayloadFormat
  import opened AnyIndex
  import opened Encoder
  import opened Decoder
  import opened Durability
  import opened Searching
  import opened FlatSearch
  import opened CoreSteps
  import RS = RowStore
  import S = CoreState
  import C = IqdbCore

  datatype Error =
    | ZeroDim
    | ConfigMismatch
    | IndexFailed(index: IndexError)
    | PersistFailed(persist: PersistError)
    | OpenFailed(open: OpenError)

  class Iqdb {
    const env: Env
    const dim: nat
    const metric: DistanceMetric
    const core: C.IqdbCore
    const durable: bool
    var disk: Disk
    /** The rows the current snapshot was taken of. */
    ghost var written: seq<Row>

    ghost function View(): Table reads this, core, core.store { core.View() }

    /** The core is sound and of the handle's shape, and a durable backend's files stand for the same map. */
    ghost predicate Valid() reads this, core, core.store {
      && core.Valid() && core.env == env && core.dim == dim && core.metric == metric
      && New(env, core.kind, dim, metric).Success?
      && (durable ==> Holds(env, disk, written, S.Shape(core.kind, dim, metric), View()))
    }

    constructor (core: C.IqdbCore, durable: bool, disk: Disk, ghost written: seq<Row>)
      ensures this.env == core.env && this.dim == core.dim && this.metric == core.metric
      ensures this.core == core && this.durable == durable && this.disk == disk && this.written == written
    {
      this.env, this.dim, this.metric := core.env, core.dim, core.metric;
      this.core, this.durable, this.disk, this.written := core, durable, disk, written;
    }

    static method OpenInMemory(env: Env, kind: IndexKind, cfg: Config) returns (r: Result<Iqdb, Error>)
      ensures r.Success? <==> cfg.dim != 0 && env.accepts(kind, cfg.dim, cfg.metric)
      ensures r.Failure? ==> r.error == if cfg.dim == 0 then ZeroDim else IndexFailed(InvalidConfig)
      ensures r.Success? ==> fresh(r.value) && r.value.Valid() && !r.value.durable && r.value.View() == map[]
      ensures r.Success? ==> S.Create(env, kind, cfg.dim, cfg.metric, cfg.cache) == Success(r.value.core.Abs())
    {
      if cfg.dim == 0 { return Failure(ZeroDim); }
      var core := C.IqdbCore.Create(env, cfg.dim, cfg.metric, kind, cfg.cache);
      if core.Failure? { return Failure(IndexFailed(core.error)); }
      var db := new Iqdb(core.value, false, Disk([], []), []);
      r := Success(db);
    }

    /** A fresh durable database: an empty core and its first snapshot, written to a device with `room` bytes. */
    static method CreateAt(env: Env, kind: IndexKind, cfg: Config, room: nat) returns (r: Result<Iqdb, Error>)
      ensures r.Success? <==>
                cfg.dim != 0 && S.Create(env, kind, cfg.dim, cfg.metric, cfg.cache).Success?
                && Fits(S.Save(S.Create(env, kind, cfg.dim, cfg.metric, cfg.cache).value), room)
      ensures r.Failure? ==>
                if cfg.dim == 0 then r.error == ZeroDim
                else if !env.accepts(kind, cfg.dim, cfg.metric) then r.error == IndexFailed(InvalidConfig)
                else
                  var empty := S.Create(env, kind, cfg.dim, cfg.metric, cfg.cache).value;
                  r.error == PersistFailed(WhyNot(S.Save(empty), room))
      ensures r.Success? ==> fresh(r.value) && r.value.Valid() && r.value.durable && r.value.View() == map[]
      ensures r.Success? ==> S.Create(env, kind, cfg.dim, cfg.metric, cfg.cache) == Success(r.value.core.Abs())
    {
      hide Emit, S.Save, S.Load, S.Sound, S.Create, RS.Contents, Holds, Fits, WhyNot, ParsePayload;
      CreateSound(env, kind, cfg.dim, cfg.metric, cfg.cache);
      if cfg.dim == 0 { return Failure(ZeroDim); }
      var core := C.IqdbCore.Create(env, cfg.dim, cfg.metric, kind, cfg.cache);
      if core.Failure? { return Failure(IndexFailed(core.error)); }
      var w := new Writer(room);
      var st := core.value.SaveTo(w);
      EmittedInFull(S.Save(core.value.Abs()), room);
      if st.Failed? { return Failure(PersistFailed(st.error)); }
      var snapshot := Disk(w.buf, []);
      FirstSnapshot(env, core.value.Abs());
      var db := new Iqdb(core.value, true, snapshot, core.value.store.rows);
      r := Success(db);
    }

    /** Reopen existing files: load, replay, compare the shape, re-apply the cache. */
    static method OpenAt(env: Env, disk: Disk, cfg: Config) returns (r: Result<Iqdb, Error>)
      ensures r.Success? <==> cfg.dim != 0 && Durability.Open(env, disk, cfg).Success?
      ensures r.Failure? ==>
                r.error == if cfg.dim == 0 then ZeroDim
                           else if Durability.Open(env, disk, cfg).error == ShapeMismatch then ConfigMismatch
                           else OpenFailed(Durability.Open(env, disk, cfg).error)
      ensures r.Success? ==> fresh(r.value) && r.value.durable && r.value.disk == disk
      ensures r.Success? ==> Durability.Open(env, disk, cfg) == Success(r.value.core.Abs())
      ensures r.Success? && AllAdmitted(disk.log, cfg.dim) ==> r.value.Valid()
    {
      hide S.Load, S.Sound, Replay, ApplyAll, RS.Contents, AllStorable, S.SetCache;
      if cfg.dim == 0 { return Failure(ZeroDim); }
      var reader := new Reader(disk.snapshot);
      var loaded := C.IqdbCore.LoadFrom(env, reader);
      if loaded.Failure? { return Failure(OpenFailed(Unreadable(loaded.error))); }
      var core := loaded.value;
      ghost var c0 := core.Abs();
      ghost var rows := core.store.rows;
      var replayed := ReplayLog(core, disk.log);
      if replayed.Failure? { return Failure(OpenFailed(ReplayFailed(replayed.error))); }
      if core.dim != cfg.dim || core.metric != cfg.metric { return Failure(ConfigMismatch); }
      if cfg.cache.Some? {
        var cached := core.SetCache(cfg.cache);
        if cached.Failure? { return Failure(OpenFailed(CacheRefused(cached.error))); }
      }
      var db := new Iqdb(core, true, disk, rows);
      if AllAdmitted(disk.log, cfg.dim) {
        LoadedIsSound(env, disk.snapshot);
        ReplayStep(env, c0, disk.log);
        SetCacheView(env, Replay(c0, disk.log).value, cfg.cache);
        assert Holds(env, disk, rows, S.Shape(core.kind, cfg.dim, cfg.metric), db.View());
        assert core.store.Valid();
      }
      r := Success(db);
    }

    /** Apply the log record by record through `insert` and `delete`. */
    static method ReplayLog(core: C.IqdbCore, log: seq<Record>) returns (r: S.Outcome)
      requires core.store.Valid()
      modifies core, core.store
      ensures core.store.Valid()
      ensures r.Failure? ==> Replay(old(core.Abs()), log) == Failure(r.error)
      ensures r.Success? ==> Replay(old(core.Abs()), log) == Success(core.Abs())
    {
      hide S.Insert, S.Delete;
      r := Success(());
      for k := 0 to |log|
        invariant core.store.Valid() && r.Success?
        invariant Replay(old(core.Abs()), log) == Replay(core.Abs(), log[k..])
      {
        assert log[k..][0] == log[k] && log[k..][1..] == log[k + 1..];
        match log[k] {
          case Upsert(row) => r := core.Insert(row);
          case Remove(id) => r := core.Delete(id);
        }
        if r.Failure? { return; }
      }
    }

    method CheckDim(found: nat) returns (r: Result<(), Error>)
      ensures r.Success? <==> found == dim
      ensures r.Failure? ==> r.error == IndexFailed(DimensionMismatch(dim, found))
    {
      r := if found == dim then Success(()) else Failure(IndexFailed(DimensionMismatch(dim, found)));
    }

    method Len() returns (n: nat)
      requires Valid()
      ensures n == |View()|
    {
      n := core.Len();
    }

    /**
     The stored row, its vector validated again on the way out. That
     refuses nothing as long as every stored vector is valid, as those that clients wrote are.
     */
    method Get(id: VectorId) returns (r: Result<Option<(Vector, Option<Metadata>)>, Error>)
      requires Valid()
      ensures id !in View() ==> r == Success(None)
      ensures id in View() ==>
                if ValidVector(View()[id].vector) then r == Success(Some((View()[id].vector, View()[id].meta)))
                else r == Failure(IndexFailed(InvalidVector))
      ensures AllValid(View()) ==> r.Success?
    {
      hide S.Sound, Holds, RS.Contents, RS.Position;
      var row := core.GetRow(id);
      if row.None? { return Success(None); }
      if !ValidVector(row.value.vector) { return Failure(IndexFailed(InvalidVector)); }
      r := Success(Some((row.value.vector, row.value.meta)));
    }

    /**
     Insert or replace: refused without effect on a wrong dimension or when the log takes no
     more (`logFailure`), otherwise logged, then applied.
     */
    method Upsert(id: VectorId, vector: Vector, meta: Option<Metadata>, logFailure: Option<PersistError>)
      returns (r: Result<(), Error>)
      requires Valid()
      modifies this, core, core.store
      ensures Valid() && written == old(written) && disk.snapshot == old(disk).snapshot
      ensures r.Success? <==> |vector| == dim && (durable ==> logFailure.None?)
      ensures |vector| != dim ==> r == Failure(IndexFailed(DimensionMismatch(dim, |vector|)))
      ensures r.Failure? && |vector| == dim ==> r == Failure(PersistFailed(logFailure.value))
      ensures r.Failure? ==> core.Abs() == old(core.Abs()) && View() == old(View()) && disk == old(disk)
      ensures r.Success? ==> View() == old(View())[id := RS.Stored(vector, meta)]
      ensures r.Success? && durable ==> disk.log == old(disk).log + [Record.Upsert(Row(id, vector, meta))]
      ensures old(AllValid(View())) ==> AllValid(View())
      ensures core.ivfDirty == old(core.ivfDirty) && core.cacheCfg == old(core.cacheCfg)
      ensures core.layer.index == old(core.layer.index).(history := core.layer.index.history)
    {
      hide S.Sound, Holds, RS.Contents, S.Insert;
      var checked := CheckDim(|vector|);
      if checked.Failure? { return Failure(checked.error); }
      var row := Row(id, vector, meta);
      if durable {
        if logFailure.Some? { return Failure(PersistFailed(logFailure.value)); }
        Logging(env, disk, written, S.Shape(core.kind, dim, metric), View(), Record.Upsert(row));
        disk := disk.(log := disk.log + [Record.Upsert(row)]);
      }
      var done := core.Insert(row);
      match done
      case Failure(e) => r := Failure(IndexFailed(e));
      case Success(_) => r := Success(());
    }

    /**
     Delete and report whether the id was there; without effect when the log takes no more.
     The index stays trained on what it was trained on and does not ask for a rebuild.
     */
    method Delete(id: VectorId, logFailure: Option<PersistError>) returns (r: Result<bool, Error>)
      requires Valid()
      modifies this, core, core.store
      ensures Valid() && written == old(written) && disk.snapshot == old(disk).snapshot
      ensures r.Success? <==> (durable ==> logFailure.None?)
      ensures r.Failure? ==> r == Failure(PersistFailed(logFailure.value))
      ensures r.Failure? ==> core.Abs() == old(core.Abs()) && View() == old(View()) && disk == old(disk)
      ensures r.Success? ==> r == Success(id in old(View())) && View() == old(View()) - {id}
      ensures r.Success? && durable ==> disk.log == old(disk).log + [Remove(id)]
      ensures old(AllValid(View())) ==> AllValid(View())
      ensures core.ivfDirty == old(core.ivfDirty) && core.cacheCfg == old(core.cacheCfg)
      ensures core.layer.index == old(core.layer.index).(history := core.layer.index.history)
    {
      hide S.Sound, Holds, RS.Contents, S.Delete;
      var existed := core.Contains(id);
      if durable {
        if logFailure.Some? { return Failure(PersistFailed(logFailure.value)); }
        Logging(env, disk, written, S.Shape(core.kind, dim, metric), View(), Remove(id));
        disk := disk.(log := disk.log + [Remove(id)]);
      }
      var done := core.Delete(id);
      match done
      case Failure(e) => r := Failure(IndexFailed(e));
      case Success(_) => r := Success(existed);
    }

    /** Fails exactly on a non-empty IVF database whose rows cannot be trained on, and then marks it dirty. */
    method Optimize() returns (r: Result<(), Error>)
      requires Valid()
      modifies core
      ensures Valid() && View() == old(View())
      ensures forall sample ::
                |sample| == |core.store.rows|
                && (forall i :: 0 <= i < |sample| ==> sample[i] == core.store.rows[i].vector)
                ==> (r.Failure? <==>
                      core.kind.Ivf? && core.store.rows != [] && !env.trains(core.kind, dim, metric, sample))
      ensures r.Failure? ==> r.error == IndexFailed(TrainingFailed)
      ensures r.Failure? ==> core.Abs() == old(core.Abs()).(dirty := true)
      ensures r.Success? ==> (core.ivfDirty <==> core.kind.Ivf? && core.store.rows == [])
      ensures r.Success? && core.kind.Ivf? && core.store.rows != [] ==>
                && core.layer.index.Rows() == core.store.rows && core.layer.index.sample.Some?
                && |core.layer.index.sample.value| == |core.store.rows|
                && forall i :: 0 <= i < |core.store.rows| ==>
                     core.layer.index.sample.value[i] == core.store.rows[i].vector
    {
      hide S.Sound, Holds, RS.Contents, S.Optimize;
      OptimizeStep(env, core.Abs());
      forall sample | S.IsSample(sample, core.store.rows)
        ensures Unbuilt(env, core.kind, dim, metric, core.store.rows)
                <==> core.kind.Ivf? && !env.trains(core.kind, dim, metric, sample)
      {
        UnbuiltBySample(env, core.kind, dim, metric, core.store.rows, sample);
      }
      var done := core.Optimize();
      r := if done.Failure? then Failure(IndexFailed(done.error)) else Success(());
    }

    /**
     Compact: write a snapshot, replace the old one, reset the log. If the snapshot cannot be
     written nothing has changed; otherwise it alone stands for the map. `flush` and `close`
     are this call.
     */
    method Checkpoint(room: nat) returns (r: Result<(), Error>)
      requires Valid()
      modifies this
      ensures Valid() && View() == old(View())
      ensures r.Failure? || !durable ==> disk == old(disk) && written == old(written)
      ensures r.Success? <==> !durable || Fits(S.Save(core.Abs()), room)
      ensures r.Failure? ==> r.error == PersistFailed(WhyNot(S.Save(core.Abs()), room))
      ensures r.Success? && durable ==> disk == Disk(S.Save(core.Abs()).bytes, []) && written == core.store.rows
    {
      hide S.Sound, Holds, RS.Contents, Emit, S.Save;
      if !durable { return Success(()); }
      var w := new Writer(room);
      var st := core.SaveTo(w);
      EmittedInFull(S.Save(core.Abs()), room);
      if st.Failed? { return Failure(PersistFailed(st.error)); }
      SnapshotReplaced(env, disk, written, core.Abs());
      disk, written := disk.(snapshot := w.buf), core.store.rows;
      disk := disk.(log := []);
      r := Success(());
    }

    /**
     Top-k search: the dimension gate, then the read path unless the index must be
     materialized, then the write path. One thread alone gets the sequential answer.
     */
    method Search(query: Vector, k: nat, filter: Option<Filter>) returns (r: Result<seq<Hit>, Error>)
      requires Valid()
      modifies core
      ensures Valid() && View() == old(View())
      ensures core.Abs() == S.Ask(env, old(core.Abs()), query, SearchParams(k, metric, filter)).0
      ensures |query| != dim ==> r == Failure(IndexFailed(DimensionMismatch(dim, |query|)))
      ensures |query| == dim ==>
        match Answer(env, old(core.Abs()), query, SearchParams(k, metric, filter))
        case Success(hits) => r == Success(hits)
        case Failure(e) => r == Failure(IndexFailed(e))
      ensures |query| == dim && old(View()) == map[] ==> r == Success([])
      ensures |query| == dim && old(View()) != map[] ==>
                if old(core.ivfDirty) && Unbuilt(env, core.kind, dim, metric, core.store.rows) then
                  r == Failure(IndexFailed(TrainingFailed))
                else
                  && Serves(core.layer.index, S.Shape(core.kind, dim, metric), old(View())) && !core.ivfDirty
                  && if filter.Some? && !env.wellFormed(filter.value) then r == Failure(IndexFailed(InvalidFilter))
                     else if core.kind.Flat? then
                       r.Success? && TopK(env, old(View()), query, SearchParams(k, metric, filter), r.value)
                     else r == AsHandle(env.approximate(core.layer.index, query, SearchParams(k, metric, filter)))
    {
      hide S.Sound, Holds, RS.Contents, S.Search, S.Rebuilt, IndexSearch, TopK, Serves, Unbuilt;
      var checked := CheckDim(|query|);
      if checked.Failure? { return Failure(checked.error); }
      var params := SearchParams(k, metric, filter);
      ghost var before := core.Abs();
      AskStep(env, before, query, params);
      AskAnswers(env, before, query, params);
      if core.store.rows == [] { return Success([]); }
      if !core.ivfDirty {
        var found := core.Search(query, params);
        return if found.Failure? then Failure(IndexFailed(found.error)) else Success(found.value);
      }
      EnsureReadyStep(env, before);
      var made := core.EnsureReady();
      if made.Failure? { return Failure(IndexFailed(made.error)); }
      var found := core.Search(query, params);
      r := if found.Failure? then Failure(IndexFailed(found.error)) else Success(found.value);
    }
  }

  function AsHandle(r: SearchResult): Result<seq<Hit>, Error> {
    match r
    case Success(hits) => Success(hits)
    case Failure(e) => Failure(IndexFailed(e))
  }

  /** Every stored vector would be accepted from a client. */
  predicate AllValid(m: Table) { forall id :: id in m ==> ValidVector(m[id].vector) }

  /** The encoding finishes and a device with `room` bytes can take it. */
  predicate Fits(w: Written, room: nat) { w.status.Done? && |w.bytes| <= room }

  /** Why an encoding did not get onto a device with `room` bytes: the device was full, or the encoder stopped. */
  function WhyNot(w: Written, room: nat): PersistError
    requires !Fits(w, room)
  {
    if |w.bytes| <= room then w.status.error else Io
  }

  lemma EmittedInFull(w: Written, room: nat)
    ensures Emit([], room, w).1.Done? <==> Fits(w, room)
    ensures !Fits(w, room) ==> Emit([], room, w).1 == Failed(WhyNot(w, room))
    ensures Fits(w, room) ==> Emit([], room, w).0 == w.bytes && w.status.Done?
  {
    assert [] + w.bytes == w.bytes;
  }

  /** The snapshot of a just created core stands for the empty map. */
  lemma FirstSnapshot(env: Env, c: S.Core)
    requires S.Sound(env, c) && c.rows == [] && S.Save(c).status.Done? && New(env, c.kind, c.dim, c.metric).Success?
    ensures Holds(env, Disk(S.Save(c).bytes, []), c.rows, S.ShapeOf(c), S.View(c))
  {
    hide S.Save, S.Load, S.Sound, RS.Contents;
    CorePersistence.SaveThenLoad(env, c);
  }
}
