/**
 The durable backend: a snapshot and a write-ahead log. What the persistence crate does is
 assumed as the handle's comments state it: a write is logged before it is applied, a
 checkpoint replaces the snapshot atomically and resets the log in a second step, opening
 loads the snapshot and replays the log through `insert` and `delete`, and a torn record at
 the end of the log is dropped.
 */
module Durability {
  import opened Wrappers
  import opened Bytes
  import opened Types
  import opened PayloadFormat
  import opened RowStore
  import opened AnyIndex
  import opened CoreState
  import opened CoreSteps
  import opened CorePersistence

  type Table = map<VectorId, Stored>

  datatype Record = Upsert(row: Row) | Remove(id: VectorId)

  /** The complete records of the log; bytes of a torn one never become part of it. */
  datatype Disk = Disk(snapshot: seq<byte>, log: seq<Record>)

  // -- Records on the plain map ------------------------------------------------

  function Apply(m: Table, r: Record): Table {
    match r
    case Upsert(row) => m[row.id := Of(row)]
    case Remove(id) => m - {id}
  }

  function ApplyAll(m: Table, log: seq<Record>): Table {
    if log == [] then m else Apply(ApplyAll(m, log[..|log| - 1]), log[|log| - 1])
  }

  function Key(r: Record): VectorId { match r case Upsert(row) => row.id case Remove(id) => id }

  predicate Touches(log: seq<Record>, id: VectorId) { exists k :: 0 <= k < |log| && Key(log[k]) == id }

  /** Both maps have `id` with the same value, or neither has it. */
  predicate SameEntry(m: Table, n: Table, id: VectorId) {
    (id in m <==> id in n) && (id in m ==> m[id] == n[id])
  }

  /** A touched id ends up the same whatever the log was applied to; an untouched one keeps its entry. */
  lemma {:induction false} LastRecordDecides(m: Table, n: Table, log: seq<Record>, id: VectorId)
    ensures Touches(log, id) ==> SameEntry(ApplyAll(m, log), ApplyAll(n, log), id)
    ensures !Touches(log, id) ==> SameEntry(ApplyAll(m, log), m, id)
  {
    if log == [] {
    } else {
      var front, last := log[..|log| - 1], log[|log| - 1];
      LastRecordDecides(m, n, front, id);
      assert Touches(log, id) <==> Touches(front, id) || Key(last) == id by {
        assert forall k :: 0 <= k < |front| ==> front[k] == log[k];
        if Key(last) == id { assert Key(log[|log| - 1]) == id; }
      }
    }
  }

  lemma {:induction false} ApplyConcat(m: Table, p: seq<Record>, s: seq<Record>)
    ensures ApplyAll(m, p + s) == ApplyAll(ApplyAll(m, p), s)
    decreases |s|
  {
    if s == [] {
      assert p + s == p;
    } else {
      var front := s[..|s| - 1];
      assert (p + s)[..|p + s| - 1] == p + front;
      ApplyConcat(m, p, front);
    }
  }

  lemma SameTable(m: Table, n: Table)
    requires forall id :: SameEntry(m, n, id)
    ensures m == n
  {
    forall id ensures id in m <==> id in n { assert SameEntry(m, n, id); }
    forall id | id in m ensures m[id] == n[id] { assert SameEntry(m, n, id); }
  }

  /** Replaying a log whose prefix is already in the snapshot gives what replaying the rest gives. */
  lemma ReplayAbsorbsPrefix(m: Table, p: seq<Record>, s: seq<Record>)
    ensures ApplyAll(ApplyAll(m, p), p + s) == ApplyAll(ApplyAll(m, p), s)
  {
    hide Touches;
    var once := ApplyAll(m, p);
    ApplyConcat(once, p, s);
    var twice := ApplyAll(once, p);
    forall id ensures SameEntry(twice, once, id) {
      LastRecordDecides(once, m, p, id);
    }
    SameTable(twice, once);
  }

  // -- Records on the core -------------------------------------------------------

  /** The handle's dimension gate, the only check before a write is logged. */
  predicate Admitted(r: Record, dim: nat) { r.Upsert? ==> |r.row.vector| == dim }

  predicate AllAdmitted(log: seq<Record>, dim: nat) { forall r :: r in log ==> Admitted(r, dim) }

  function ApplyToCore(c: Core, r: Record): (Core, Outcome) {
    match r
    case Upsert(row) => Insert(c, row)
    case Remove(id) => Delete(c, id)
  }

  function Replay(c: Core, log: seq<Record>): Result<Core, IndexError>
    decreases |log|
  {
    if log == [] then Success(c)
    else
      var (next, r) := ApplyToCore(c, log[0]);
      if r.Failure? then Failure(r.error) else Replay(next, log[1..])
  }

  lemma ApplyStep(env: Env, c: Core, r: Record)
    requires Sound(env, c) && Admitted(r, c.dim)
    ensures var (d, out) := ApplyToCore(c, r);
            && out == Success(()) && Sound(env, d) && ShapeOf(d) == ShapeOf(c) && d.cacheCfg == c.cacheCfg
            && View(d) == Apply(View(c), r)
  {
    hide Contents, Distinct, IndexSearch, Position, Live;
    match r
    case Upsert(row) => InsertStep(env, c, row);
    case Remove(id) => DeleteStep(env, c, id);
  }

  /** The gate is exact: it admits the writes that keep a sound core sound, and no others. */
  lemma GateIsExact(env: Env, c: Core, r: Record)
    requires Sound(env, c)
    ensures Admitted(r, c.dim) <==> Sound(env, ApplyToCore(c, r).0)
  {
    hide Contents, Distinct, IndexSearch, Position, Live, Insert, Delete, Coupled;
    match r
    case Upsert(row) => InsertStep(env, c, row);
    case Remove(id) => DeleteStep(env, c, id);
  }

  /** Replay never fails, and its effect on the stored map is the fold of the records. */
  lemma {:induction false} ReplayStep(env: Env, c: Core, log: seq<Record>)
    requires Sound(env, c) && AllAdmitted(log, c.dim)
    ensures Replay(c, log).Success?
    ensures var d := Replay(c, log).value;
            && Sound(env, d) && ShapeOf(d) == ShapeOf(c) && d.cacheCfg == c.cacheCfg
            && View(d) == ApplyAll(View(c), log)
    decreases |log|
  {
    hide Sound, View, ApplyToCore, Admitted;
    if log == [] {
    } else {
      var d := ApplyToCore(c, log[0]).0;
      ApplyStep(env, c, log[0]);
      ReplayStep(env, d, log[1..]);
      assert log == [log[0]] + log[1..];
      ApplyConcat(View(c), [log[0]], log[1..]);
      assert [log[0]][..0] == [];
      assert ApplyAll(View(c), [log[0]]) == Apply(View(c), log[0]);
    }
  }

  /** Replay applies the records in order and stops at the first that is refused, with its error. */
  lemma {:induction false} ReplayStops(c: Core, front: seq<Record>, r: Record, rest: seq<Record>)
    requires Replay(c, front).Success?
    ensures var (next, out) := ApplyToCore(Replay(c, front).value, r);
            Replay(c, front + [r] + rest) == if out.Failure? then Failure(out.error) else Replay(next, rest)
    decreases |front|
  {
    hide ApplyToCore;
    var all := front + [r] + rest;
    if front == [] {
      assert all[1..] == rest;
    } else {
      assert all[0] == front[0] && all[1..] == front[1..] + [r] + rest;
      ReplayStops(ApplyToCore(c, front[0]).0, front[1..], r, rest);
    }
  }

  // -- Opening -------------------------------------------------------------------

  datatype Config = Config(dim: nat, metric: DistanceMetric, cache: Option<CacheConfig>)

  datatype OpenError =
    | Unreadable(load: LoadError)
    | ReplayFailed(index: IndexError)
    | ShapeMismatch
    | CacheRefused(index: IndexError)

  /** Load the snapshot, replay the log, check the requested shape, then re-apply the cache. */
  function Open(env: Env, disk: Disk, cfg: Config): Result<Core, OpenError> {
    match Load(env, disk.snapshot)
    case Failure(e) => Failure(Unreadable(e))
    case Success(loaded) =>
      match Replay(loaded, disk.log)
      case Failure(e) => Failure(ReplayFailed(e))
      case Success(core) =>
        if core.dim != cfg.dim || core.metric != cfg.metric then Failure(ShapeMismatch)
        else if cfg.cache.None? then Success(core)
        else
          var (cached, r) := SetCache(env, core, cfg.cache);
          if r.Failure? then Failure(CacheRefused(r.error)) else Success(cached)
  }

  /** A requested cache is wrapped around the index while a flat placeholder stands in for it, which may be refused. */
  predicate CacheAllowed(env: Env, cfg: Config) {
    cfg.cache.None? || New(env, Flat, cfg.dim, cfg.metric).Success?
  }

  /**
   The files stand for `m`: `written` are the rows the snapshot was taken of, and the log
   leads from them to `m`. The snapshot can be loaded exactly when no written id is an
   empty key.
   */
  predicate Holds(env: Env, disk: Disk, written: seq<Row>, shape: Shape, m: Table) {
    var r := Load(env, disk.snapshot);
    && (r.Success? <==> AllStorable(written))
    && (r.Success? ==> ShapeOf(r.value) == shape && View(r.value) == Contents(written))
    && AllAdmitted(disk.log, shape.dim)
    && ApplyAll(Contents(written), disk.log) == m
  }

  lemma LoadedIsSound(env: Env, bytes: seq<byte>)
    requires Load(env, bytes).Success?
    ensures var c := Load(env, bytes).value;
            Sound(env, c) && c.cacheCfg == None && AllStorable(c.rows) && New(env, c.kind, c.dim, c.metric).Success?
  {
    hide AllDim, AllStorable, Distinct, Contents, IndexSearch, FromPayload, Deduplicate, ParsePayload;
    ParsedRows(bytes);
    var p := ParsePayload(bytes, 0).value;
    FromPayloadStep(env, p);
    DeduplicateShape(p.rows, p.dim);
  }

  /**
   Files that stand for `m` open exactly when their snapshot is free of empty keys, the
   requested dimension and metric are theirs and the requested cache can be wrapped; they
   then give `m`.
   */
  lemma OpenRestores(env: Env, disk: Disk, written: seq<Row>, shape: Shape, cfg: Config, m: Table)
    requires Holds(env, disk, written, shape, m)
    ensures Open(env, disk, cfg).Success? <==>
            AllStorable(written) && cfg.dim == shape.dim && cfg.metric == shape.metric && CacheAllowed(env, cfg)
    ensures var r := Open(env, disk, cfg);
            r.Failure? ==>
              if !AllStorable(written) then r.error.Unreadable?
              else if cfg.dim != shape.dim || cfg.metric != shape.metric then r.error == ShapeMismatch
              else r.error == CacheRefused(InvalidConfig)
    ensures Open(env, disk, cfg).Success? ==>
              var c := Open(env, disk, cfg).value;
              && Sound(env, c) && View(c) == m && ShapeOf(c) == shape
              && c.cacheCfg == cfg.cache && New(env, c.kind, c.dim, c.metric).Success?
  {
    hide Load, Replay, View, AllStorable, Sound, SetCache, ApplyAll, AllAdmitted;
    if AllStorable(written) {
      LoadedIsSound(env, disk.snapshot);
      var loaded := Load(env, disk.snapshot).value;
      ReplayStep(env, loaded, disk.log);
      var core := Replay(loaded, disk.log).value;
      SetCacheView(env, core, cfg.cache);
      var r := SetCache(env, core, cfg.cache).1;
      assert r.Success? <==> New(env, Flat, core.dim, core.metric).Success?;
    }
  }

  lemma SetCacheView(env: Env, c: Core, cache: Option<CacheConfig>)
    requires Sound(env, c)
    ensures var (d, r) := SetCache(env, c, cache);
            && (r.Success? <==> New(env, Flat, c.dim, c.metric).Success?)
            && (r.Failure? ==> r.error == InvalidConfig)
            && Sound(env, d) && d.rows == c.rows && View(d) == View(c) && ShapeOf(d) == ShapeOf(c)
            && (r.Success? ==> d.cacheCfg == cache)
  {
    hide Sound;
    SetCacheStep(env, c, cache);
  }

  /** Reopening with another dimension or metric is refused. */
  lemma OpenChecksShape(env: Env, disk: Disk, written: seq<Row>, shape: Shape, cfg: Config, m: Table)
    requires Holds(env, disk, written, shape, m) && AllStorable(written)
    requires cfg.dim != shape.dim || cfg.metric != shape.metric
    ensures Open(env, disk, cfg) == Failure(ShapeMismatch)
  {
    hide Load, Replay, View, AllStorable, Sound, ApplyAll;
    LoadedIsSound(env, disk.snapshot);
    ReplayStep(env, Load(env, disk.snapshot).value, disk.log);
  }

  // -- Writing ---------------------------------------------------------------------

  lemma Logging(env: Env, disk: Disk, written: seq<Row>, shape: Shape, m: Table, r: Record)
    requires Holds(env, disk, written, shape, m) && Admitted(r, shape.dim)
    ensures Holds(env, disk.(log := disk.log + [r]), written, shape, Apply(m, r))
  {
    hide Load, View, Contents, AllStorable;
    assert (disk.log + [r])[..|disk.log|] == disk.log;
  }

  /**
   The first half of a checkpoint: with the new snapshot in place the files stand for the
   same map, both while the log is still there and once it is reset.
   */
  lemma SnapshotReplaced(env: Env, disk: Disk, written: seq<Row>, c: Core)
    requires Sound(env, c) && New(env, c.kind, c.dim, c.metric).Success? && Save(c).status.Done?
    requires Holds(env, disk, written, ShapeOf(c), View(c))
    ensures Holds(env, Disk(Save(c).bytes, disk.log), c.rows, ShapeOf(c), View(c))
    ensures Holds(env, Disk(Save(c).bytes, []), c.rows, ShapeOf(c), View(c))
  {
    hide Load, AllStorable, Save, Contents, Sound;
    SaveThenLoad(env, c);
    ReplayAbsorbsPrefix(Contents(written), disk.log, []);
    assert disk.log + [] == disk.log;
  }
}
