/** The steps of a durable run one by one: when they are possible and what they leave. */
module CrashSteps {
  import opened Wrappers
  import opened Bytes
  import opened Types
  import opened PayloadFormat
  import opened RowStore
  import opened AnyIndex
  import opened CoreState
  import opened CoreSteps
  import opened Durability
  import opened Searching
  import opened CrashRuns

  /** A running database between two operations; `m` is the map that accounts for its trace. */
  ghost predicate Ready(env: Env, shape: Shape, s: System, m: Table) {
    Inv(env, shape, s) && s.memory.Up? && s.memory.activity.Idle? && Model(env, shape, s.trace) == Some(m)
  }

  /** What the client is told of a completed write on `m`. */
  function Acknowledged(m: Table, record: Record): Event {
    match record
    case Upsert(row) => Upserted(row)
    case Remove(id) => Deleted(id, id in m)
  }

  /**
   A database can be created exactly for an accepted configuration whose dimension and
   metric have a place in the payload, and starts with the snapshot of an empty core.
   */
  lemma StartPossible(env: Env, shape: Shape, cache: Option<CacheConfig>)
    ensures var r := Start(env, shape, cache);
            && (r.Some? <==>
                 && shape.dim != 0 && env.accepts(shape.kind, shape.dim, shape.metric)
                 && shape.dim < 0x1_0000_0000_0000_0000 && !shape.metric.Other?)
            && (r.Some? ==>
                 && r.value.disk == Disk(EncPayload(shape.kind, shape.dim, shape.metric, []).bytes, [])
                 && r.value.written == [] && r.value.trace == []
                 && r.value.memory.Up? && r.value.memory.activity == Idle
                 && r.value.memory.core.cacheCfg == cache)
  {
    hide Le, EncKind;
  }

  /**
   An admitted write can always be made. Its record goes behind the log before anything
   else; then it is either applied and acknowledged, or a crash leaves the record behind.
   */
  lemma WriteCompletes(env: Env, shape: Shape, s: System, m: Table, record: Record)
    requires Ready(env, shape, s, m) && Admitted(record, shape.dim)
    ensures var r := Next(env, shape, s, Log(record));
            && r.Some? && r.value.disk == Disk(s.disk.snapshot, s.disk.log + [record])
            && r.value.written == s.written && r.value.trace == s.trace
            && (var done := Next(env, shape, r.value, FinishWrite);
                && done.Some? && done.value.disk == r.value.disk && done.value.written == s.written
                && done.value.trace == s.trace + [Acknowledged(m, record)]
                && done.value.memory.Up? && done.value.memory.activity == Idle
                && View(done.value.memory.core) == Apply(m, record))
            && (var down := Next(env, shape, r.value, Crash);
                && down.Some? && down.value.disk == r.value.disk && down.value.memory == Down
                && down.value.trace == s.trace + [Interrupted(record, true)])
  {
    hide Holds, Sound, View, GetRow, Admitted, ApplyToCore, Model, Apply;
    var core := s.memory.core;
    GetIsAnswer(core, Key(record));
    ApplyStep(env, core, record);
  }

  /** A record that did not get onto the log in full leaves everything but the trace as it was. */
  lemma WriteRefused(env: Env, shape: Shape, s: System, m: Table, record: Record)
    requires Ready(env, shape, s, m)
    ensures Next(env, shape, s, RefuseWrite(record)) == Some(s.(trace := s.trace + [NotWritten(record)]))
    ensures Next(env, shape, s, TornWrite(record)) ==
            if Admitted(record, shape.dim)
            then Some(s.(memory := Down, trace := s.trace + [Interrupted(record, false)])) else None
    ensures !Admitted(record, shape.dim) ==> Next(env, shape, s, Log(record)) == None
  {
    hide Inv, Admitted, Model;
  }

  /** A checkpoint can be made whenever the payload can be encoded; a crash between its halves leaves the log. */
  lemma CheckpointCompletes(env: Env, shape: Shape, s: System, m: Table)
    requires Ready(env, shape, s, m)
    ensures var r := Next(env, shape, s, ReplaceSnapshot);
            var bytes := Save(s.memory.core).bytes;
            && (r.Some? <==> Save(s.memory.core).status.Done?)
            && (r.Some? ==>
                 && r.value.disk == Disk(bytes, s.disk.log) && r.value.written == s.memory.core.rows
                 && r.value.trace == s.trace
                 && Next(env, shape, r.value, ResetLog)
                    == Some(System(Disk(bytes, []), s.memory.core.rows, s.memory, s.trace))
                 && Next(env, shape, r.value, Crash)
                    == Some(System(Disk(bytes, s.disk.log), s.memory.core.rows, Down, s.trace)))
  {
    hide Inv, Save, Model;
  }

  /** Reads are always possible, touch no file and are answered from the map. */
  lemma ReadsAnswered(env: Env, shape: Shape, s: System, m: Table, id: VectorId, query: seq<f32>, params: SearchParams)
    requires Ready(env, shape, s, m)
    ensures Next(env, shape, s, ReadRow(id)) == Some(s.(trace := s.trace + [Got(id, Find(m, id))]))
    ensures Next(env, shape, s, Count) == Some(s.(trace := s.trace + [Counted(|m|)]))
    ensures var r := Next(env, shape, s, Query(query, params));
            && r.Some? && r.value.disk == s.disk && r.value.written == s.written && r.value.memory.Up?
            && r.value.memory.activity == Idle
            && exists result :: Accounted(env, shape, m, query, params, result)
                                && r.value.trace == s.trace + [Searched(query, params, result)]
  {
    hide Holds, Running, GetRow, Ask, Accounted, Model;
    var core := s.memory.core;
    RunningView(env, shape, core, m);
    GetIsAnswer(core, id);
    QueryKeeps(env, shape, core, m, query, params);
  }

  /** A rebuild is always possible, and a crash too, which leaves the files as they are. */
  lemma RebuildOrCrash(env: Env, shape: Shape, s: System, m: Table)
    requires Ready(env, shape, s, m)
    ensures Next(env, shape, s, Rebuild) == Some(s.(memory := Up(Optimize(env, s.memory.core).0, Idle)))
    ensures Next(env, shape, s, Crash) == Some(s.(memory := Down))
  {
    hide Inv, Model, Optimize;
  }

  /** A crashed database can only be reopened, and reopening is possible as the files and the request allow. */
  lemma ReopenPossible(env: Env, shape: Shape, s: System, step: Step)
    requires Inv(env, shape, s) && s.memory.Down?
    ensures var r := Next(env, shape, s, step);
            && (r.Some? <==>
                 step.Reopen? && AllStorable(s.written) && step.cfg.dim == shape.dim && step.cfg.metric == shape.metric
                 && CacheAllowed(env, step.cfg))
            && (r.Some? ==>
                 && r.value.disk == s.disk && r.value.written == s.written && r.value.trace == s.trace + [Reopened]
                 && r.value.memory.Up? && r.value.memory.activity == Idle
                 && r.value.memory.core.cacheCfg == step.cfg.cache)
  {
    hide Holds, Open, AllStorable, CacheAllowed, Model;
    if step.Reopen? { OpenRestores(env, s.disk, s.written, shape, step.cfg, Model(env, shape, s.trace).value); }
  }
}
