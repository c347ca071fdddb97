/**
 Whole runs of a durable database: writes, reads, both halves of a checkpoint, torn log
 tails, crashes at any point and reopens, in any order. Every run is explained by a plain
 map from id to vector and metadata.
 */
module CrashRuns {
  import opened Wrappers
  import opened Bytes
  import opened Types
  import opened PayloadFormat
  import opened RowStore
  import opened AnyIndex
  import opened CoreState
  import opened CoreSteps
  import opened CorePersistence
  import opened Durability
  import opened Searching

  /** Where the write guard's holder stands. */
  datatype Activity =
    | Idle
    | Logged(record: Record, existed: bool)  // on the log, not yet applied
    | Replaced                               // new snapshot in place, log not yet reset

  datatype Memory = Down | Up(core: Core, activity: Activity)

  /** What a client sees; for an interrupted write it does not see whether it survived. */
  datatype Event =
    | Upserted(row: Row)
    | Deleted(id: VectorId, existed: bool)
    | Got(id: VectorId, answer: Option<Stored>)
    | Counted(n: nat)
    | Searched(query: seq<f32>, params: SearchParams, result: SearchResult)
    | NotWritten(record: Record)
    | Interrupted(record: Record, survived: bool)
    | Reopened

  /** `written` records which rows the current snapshot was taken of; no step reads it. */
  datatype System = System(disk: Disk, written: seq<Row>, memory: Memory, trace: seq<Event>)

  datatype Step =
    | Log(record: Record)
    | FinishWrite
    | TornWrite(record: Record)
    | RefuseWrite(record: Record)  // stopped by the dimension gate, or by a log that takes nothing more
    | ReplaceSnapshot
    | ResetLog
    | Crash
    | Reopen(cfg: Config)
    | ReadRow(id: VectorId)
    | Count
    | Rebuild
    | Query(query: seq<f32>, params: SearchParams)

  /** Create the database: an empty core and its snapshot. */
  function Start(env: Env, shape: Shape, cache: Option<CacheConfig>): Option<System> {
    match Create(env, shape.kind, shape.dim, shape.metric, cache)
    case Failure(_) => None
    case Success(core) =>
      if Save(core).status.Failed? then None
      else Some(System(Disk(Save(core).bytes, []), core.rows, Up(core, Idle), []))
  }

  /** What a completed write reports. */
  function Report(record: Record, existed: bool): Event {
    match record
    case Upsert(row) => Upserted(row)
    case Remove(id) => Deleted(id, existed)
  }

  /** One step, or `None` when it is not possible in this state. */
  function Next(env: Env, shape: Shape, s: System, step: Step): Option<System> {
    match s.memory
    case Down =>
      if !step.Reopen? then None
      else
        (match Open(env, s.disk, step.cfg)
         case Failure(_) => None
         case Success(core) => Some(s.(memory := Up(core, Idle), trace := s.trace + [Reopened])))
    case Up(core, Logged(record, existed)) =>
      if step.Crash? then Some(s.(memory := Down, trace := s.trace + [Interrupted(record, true)]))
      else if step.FinishWrite? && ApplyToCore(core, record).1.Success? then
        Some(s.(memory := Up(ApplyToCore(core, record).0, Idle), trace := s.trace + [Report(record, existed)]))
      else None
    case Up(core, Replaced) =>
      if step.Crash? then Some(s.(memory := Down))
      else if step.ResetLog? then Some(s.(disk := s.disk.(log := []), memory := Up(core, Idle)))
      else None
    case Up(core, Idle) => NextIdle(env, shape, s, core, step)
  }

  function NextIdle(env: Env, shape: Shape, s: System, core: Core, step: Step): Option<System> {
    match step
    case Log(record) =>
      if !Admitted(record, shape.dim) then None
      else
        Some(s.(disk := s.disk.(log := s.disk.log + [record]),
                memory := Up(core, Logged(record, GetRow(core, Key(record)).Some?))))
    case TornWrite(record) =>
      if !Admitted(record, shape.dim) then None
      else Some(s.(memory := Down, trace := s.trace + [Interrupted(record, false)]))
    case ReplaceSnapshot =>
      if Save(core).status.Failed? then None
      else Some(s.(disk := s.disk.(snapshot := Save(core).bytes), written := core.rows, memory := Up(core, Replaced)))
    case Crash => Some(s.(memory := Down))
    case ReadRow(id) => Some(s.(trace := s.trace + [Got(id, GetRow(core, id))]))
    case Count => Some(s.(trace := s.trace + [Counted(|core.rows|)]))
    case Rebuild => Some(s.(memory := Up(Optimize(env, core).0, Idle)))
    case RefuseWrite(record) => Some(s.(trace := s.trace + [NotWritten(record)]))
    case Query(query, params) =>
      var (after, r) := Ask(env, core, query, params);
      Some(s.(memory := Up(after, Idle), trace := s.trace + [Searched(query, params, r)]))
    case _ => None
  }

  function Run(env: Env, shape: Shape, s: System, steps: seq<Step>): Option<System> {
    if steps == [] then Some(s)
    else
      match Run(env, shape, s, steps[..|steps| - 1])
      case None => None
      case Some(t) => Next(env, shape, t, steps[|steps| - 1])
  }

  // -- The plain map that explains a run ------------------------------------------

  /** One event on a plain map; `None` when the map cannot account for the answer. */
  ghost function Explain(env: Env, shape: Shape, m: Table, e: Event): Option<Table> {
    match e
    case Upserted(row) => Some(m[row.id := Of(row)])
    case Deleted(id, existed) => if existed == (id in m) then Some(m - {id}) else None
    case Got(id, answer) => if answer == Find(m, id) then Some(m) else None
    case Counted(n) => if n == |m| then Some(m) else None
    case Searched(query, params, result) =>
      if Accounted(env, shape, m, query, params, result) then Some(m) else None
    case NotWritten(_) => Some(m)
    case Interrupted(record, survived) => Some(if survived then Apply(m, record) else m)
    case Reopened => Some(m)
  }

  ghost function Model(env: Env, shape: Shape, trace: seq<Event>): Option<Table> {
    if trace == [] then Some(map[])
    else
      match Model(env, shape, trace[..|trace| - 1])
      case None => None
      case Some(m) => Explain(env, shape, m, trace[|trace| - 1])
  }

  // -- The invariant of every run -----------------------------------------------------

  ghost predicate Running(env: Env, shape: Shape, core: Core, m: Table) {
    && Sound(env, core) && ShapeOf(core) == shape
    && New(env, core.kind, core.dim, core.metric).Success?
    && View(core) == m
  }

  ghost predicate Inv(env: Env, shape: Shape, s: System) {
    var model := Model(env, shape, s.trace);
    && model.Some?
    && var m := model.value;
    match s.memory
    case Down => Holds(env, s.disk, s.written, shape, m)
    case Up(core, activity) =>
      && Running(env, shape, core, m)
      && (match activity
          case Idle => Holds(env, s.disk, s.written, shape, m)
          case Logged(record, existed) =>
            && Admitted(record, shape.dim) && (existed <==> Key(record) in m)
            && Holds(env, s.disk, s.written, shape, Apply(m, record))
          case Replaced =>
            && Holds(env, s.disk, s.written, shape, m)
            && Holds(env, s.disk.(log := []), s.written, shape, m))
  }

  lemma ModelSnoc(env: Env, shape: Shape, trace: seq<Event>, e: Event)
    requires Model(env, shape, trace).Some?
    ensures Model(env, shape, trace + [e]) == Explain(env, shape, Model(env, shape, trace).value, e)
  {
    assert (trace + [e])[..|trace|] == trace;
  }

  lemma StartInv(env: Env, shape: Shape, initial: Option<CacheConfig>)
    requires Start(env, shape, initial).Some?
    ensures Inv(env, shape, Start(env, shape, initial).value)
  {
    hide Save, Load, Sound, Contents;
    var core := Create(env, shape.kind, shape.dim, shape.metric, initial).value;
    CreateSound(env, shape.kind, shape.dim, shape.metric, initial);
    assert core.rows == [] && ShapeOf(core) == shape;
    SaveThenLoad(env, core);
  }

  lemma StepDown(env: Env, shape: Shape, s: System, step: Step)
    requires Inv(env, shape, s) && s.memory.Down? && Next(env, shape, s, step).Some?
    ensures Inv(env, shape, Next(env, shape, s, step).value)
  {
    hide Open, Holds, Sound, View, AllStorable;
    ModelSnoc(env, shape, s.trace, Reopened);
    OpenRestores(env, s.disk, s.written, shape, step.cfg, Model(env, shape, s.trace).value);
  }

  /** Both reports of a logged write, the acknowledged and the interrupted, stand for the write. */
  lemma ReportApplies(env: Env, shape: Shape, m: Table, record: Record, existed: bool)
    requires existed <==> Key(record) in m
    ensures Explain(env, shape, m, Report(record, existed)) == Some(Apply(m, record))
    ensures Explain(env, shape, m, Interrupted(record, true)) == Some(Apply(m, record))
  {
  }

  lemma LoggedApplies(env: Env, shape: Shape, core: Core, m: Table, record: Record)
    requires Running(env, shape, core, m) && Admitted(record, shape.dim)
    ensures Running(env, shape, ApplyToCore(core, record).0, Apply(m, record))
  {
    hide Sound, View, ApplyToCore, Apply;
    ApplyStep(env, core, record);
  }

  lemma StepLogged(env: Env, shape: Shape, s: System, step: Step)
    requires Inv(env, shape, s) && s.memory.Up? && s.memory.activity.Logged? && Next(env, shape, s, step).Some?
    ensures Inv(env, shape, Next(env, shape, s, step).value)
  {
    hide Holds, Running, ApplyToCore, Model, Explain, Apply, Report;
    var Up(core, Logged(record, existed)) := s.memory;
    var m := Model(env, shape, s.trace).value;
    ReportApplies(env, shape, m, record, existed);
    ModelSnoc(env, shape, s.trace, Interrupted(record, true));
    ModelSnoc(env, shape, s.trace, Report(record, existed));
    LoggedApplies(env, shape, core, m, record);
  }

  lemma StepReplace(env: Env, shape: Shape, s: System)
    requires Inv(env, shape, s) && s.memory.Up? && s.memory.activity.Idle?
    requires Next(env, shape, s, ReplaceSnapshot).Some?
    ensures Inv(env, shape, Next(env, shape, s, ReplaceSnapshot).value)
  {
    hide Holds, Sound, View, AllStorable, Save;
    SnapshotReplaced(env, s.disk, s.written, s.memory.core);
  }

  lemma StepLog(env: Env, shape: Shape, s: System, record: Record)
    requires Inv(env, shape, s) && s.memory.Up? && s.memory.activity.Idle? && Admitted(record, shape.dim)
    ensures Inv(env, shape, Next(env, shape, s, Log(record)).value)
  {
    hide Holds, Running, Admitted, GetRow, Apply, Model, Explain;
    GetIsAnswer(s.memory.core, Key(record));
    var m := Model(env, shape, s.trace).value;
    assert View(s.memory.core) == m by { RunningView(env, shape, s.memory.core, m); }
    Logging(env, s.disk, s.written, shape, m, record);
  }

  lemma RunningView(env: Env, shape: Shape, core: Core, m: Table)
    requires Running(env, shape, core, m)
    ensures View(core) == m && |core.rows| == |m|
  {
    hide Contents;
    ContentsSize(core.rows);
  }

  lemma StepCrash(env: Env, shape: Shape, s: System, step: Step)
    requires Inv(env, shape, s) && s.memory.Up? && s.memory.activity.Idle? && Next(env, shape, s, step).Some?
    requires step.TornWrite? || step.Crash?
    ensures Inv(env, shape, Next(env, shape, s, step).value)
  {
    hide Holds, Running, Admitted;
    if step.TornWrite? { ModelSnoc(env, shape, s.trace, Interrupted(step.record, false)); }
  }

  /** An answer that the map accounts for, from a core that still holds it. */
  lemma Noted(env: Env, shape: Shape, s: System, core: Core, e: Event)
    requires Inv(env, shape, s) && s.memory.Up? && s.memory.activity.Idle?
    requires var m := Model(env, shape, s.trace).value;
             Running(env, shape, core, m) && Explain(env, shape, m, e) == Some(m)
    ensures Inv(env, shape, s.(memory := Up(core, Idle), trace := s.trace + [e]))
  {
    hide Holds, Running, Explain;
    ModelSnoc(env, shape, s.trace, e);
  }

  lemma RunningNow(env: Env, shape: Shape, s: System)
    requires Inv(env, shape, s) && s.memory.Up?
    ensures Model(env, shape, s.trace).Some?
    ensures Running(env, shape, s.memory.core, Model(env, shape, s.trace).value)
  {
    hide Running, Model, Holds;
  }

  lemma StepReadRow(env: Env, shape: Shape, s: System, id: VectorId)
    requires Inv(env, shape, s) && s.memory.Up? && s.memory.activity.Idle?
    ensures Inv(env, shape, Next(env, shape, s, ReadRow(id)).value)
  {
    hide Inv, Running, GetRow, Model, Accounted;
    RunningNow(env, shape, s);
    RunningView(env, shape, s.memory.core, Model(env, shape, s.trace).value);
    GetIsAnswer(s.memory.core, id);
    Noted(env, shape, s, s.memory.core, Got(id, GetRow(s.memory.core, id)));
  }

  lemma StepCount(env: Env, shape: Shape, s: System)
    requires Inv(env, shape, s) && s.memory.Up? && s.memory.activity.Idle?
    ensures Inv(env, shape, Next(env, shape, s, Count).value)
  {
    hide Inv, Running, Model, Accounted;
    RunningNow(env, shape, s);
    RunningView(env, shape, s.memory.core, Model(env, shape, s.trace).value);
    Noted(env, shape, s, s.memory.core, Counted(|s.memory.core.rows|));
  }

  lemma StepRefuse(env: Env, shape: Shape, s: System, record: Record)
    requires Inv(env, shape, s) && s.memory.Up? && s.memory.activity.Idle?
    ensures Inv(env, shape, Next(env, shape, s, RefuseWrite(record)).value)
  {
    hide Inv, Running, Model, Accounted;
    RunningNow(env, shape, s);
    Noted(env, shape, s, s.memory.core, NotWritten(record));
  }

  lemma StepQuery(env: Env, shape: Shape, s: System, step: Step)
    requires Inv(env, shape, s) && s.memory.Up? && s.memory.activity.Idle? && step.Query?
    ensures Inv(env, shape, Next(env, shape, s, step).value)
  {
    hide Inv, Running, GetRow, Ask, Accounted, Model, Open, ApplyToCore, Save, Optimize, Admitted;
    RunningNow(env, shape, s);
    var core, m := s.memory.core, Model(env, shape, s.trace).value;
    var (after, r) := Ask(env, core, step.query, step.params);
    QueryKeeps(env, shape, core, m, step.query, step.params);
    Noted(env, shape, s, after, Searched(step.query, step.params, r));
  }

  lemma RebuildKeeps(env: Env, shape: Shape, core: Core, m: Table)
    requires Running(env, shape, core, m)
    ensures Running(env, shape, Optimize(env, core).0, m)
  {
    hide Sound, Contents, Optimize;
    OptimizeStep(env, core);
  }

  lemma QueryKeeps(env: Env, shape: Shape, core: Core, m: Table, query: seq<f32>, params: SearchParams)
    requires Running(env, shape, core, m)
    ensures Running(env, shape, Ask(env, core, query, params).0, m)
    ensures Accounted(env, shape, m, query, params, Ask(env, core, query, params).1)
  {
    hide Sound, Contents, Ask, Accounted;
    AskStep(env, core, query, params);
    AskIsAccounted(env, core, query, params);
  }

  lemma StepInv(env: Env, shape: Shape, s: System, step: Step)
    requires Inv(env, shape, s) && Next(env, shape, s, step).Some?
    ensures Inv(env, shape, Next(env, shape, s, step).value)
  {
    hide Holds, Running;
    if s.memory.Down? {
      StepDown(env, shape, s, step);
    } else if s.memory.activity.Logged? {
      StepLogged(env, shape, s, step);
    } else if s.memory.activity.Idle? {
      if step.ReplaceSnapshot? { StepReplace(env, shape, s); }
      else if step.Log? { StepLog(env, shape, s, step.record); }
      else if step.TornWrite? || step.Crash? { StepCrash(env, shape, s, step); }
      else if step.Rebuild? { RebuildKeeps(env, shape, s.memory.core, Model(env, shape, s.trace).value); }
      else if step.Query? { StepQuery(env, shape, s, step); }
      else if step.ReadRow? { StepReadRow(env, shape, s, step.id); }
      else if step.Count? { StepCount(env, shape, s); }
      else { StepRefuse(env, shape, s, step.record); }
    }
  }

  lemma {:induction false} RunInv(env: Env, shape: Shape, s: System, steps: seq<Step>)
    requires Inv(env, shape, s) && Run(env, shape, s, steps).Some?
    ensures Inv(env, shape, Run(env, shape, s, steps).value)
  {
    hide Inv, Next;
    if steps == [] {
    } else {
      RunInv(env, shape, s, steps[..|steps| - 1]);
      StepInv(env, shape, Run(env, shape, s, steps[..|steps| - 1]).value, steps[|steps| - 1]);
    }
  }

  /** Of the configured shape, coupled, every row of the right dimension, holding exactly `m`. */
  ghost predicate Matches(c: Core, shape: Shape, m: Table) {
    ShapeOf(c) == shape && Coupled(c) && AllDim(c.rows, shape.dim) && View(c) == m
  }

  lemma SoundMatches(env: Env, c: Core, shape: Shape, m: Table)
    requires Sound(env, c) && ShapeOf(c) == shape && View(c) == m
    ensures Matches(c, shape, m)
  {
    hide Contents, Distinct;
  }

  /**
   Crash safety and whole-run refinement. After any run the plain map accounts for every
   answer given so far. A crashed database opens again exactly when its snapshot holds no
   empty key, the requested dimension and metric are its own and the requested cache can be
   wrapped. What it then holds - like what a running one holds - is that map: every
   acknowledged write, and of each interrupted write either all or nothing.
   */
  lemma EveryRunIsExplained(env: Env, shape: Shape, initial: Option<CacheConfig>, steps: seq<Step>, cfg: Config)
    requires Start(env, shape, initial).Some? && Run(env, shape, Start(env, shape, initial).value, steps).Some?
    ensures var s := Run(env, shape, Start(env, shape, initial).value, steps).value;
            && Model(env, shape, s.trace).Some?
            && (s.memory.Up? ==> Matches(s.memory.core, shape, Model(env, shape, s.trace).value))
            && (s.memory.Down? ==>
                 var r := Open(env, s.disk, cfg);
                 && (r.Success? <==>
                      AllStorable(s.written) && cfg.dim == shape.dim && cfg.metric == shape.metric
                      && CacheAllowed(env, cfg))
                 && (r.Success? ==> Matches(r.value, shape, Model(env, shape, s.trace).value)))
  {
    hide Open, Holds, View, Sound, Matches, Next, Start, Run, Model, AllStorable, CacheAllowed;
    StartInv(env, shape, initial);
    RunInv(env, shape, Start(env, shape, initial).value, steps);
    var s := Run(env, shape, Start(env, shape, initial).value, steps).value;
    var m := Model(env, shape, s.trace).value;
    if s.memory.Up? {
      SoundMatches(env, s.memory.core, shape, m);
    } else {
      OpenRestores(env, s.disk, s.written, shape, cfg, m);
      var r := Open(env, s.disk, cfg);
      if r.Success? { SoundMatches(env, r.value, shape, m); }
    }
  }

  /** A write that reached the log is always applied and acknowledged: nothing after the append can refuse it. */
  lemma LoggedWritesFinish(env: Env, shape: Shape, initial: Option<CacheConfig>, steps: seq<Step>)
    requires Start(env, shape, initial).Some? && Run(env, shape, Start(env, shape, initial).value, steps).Some?
    ensures var s := Run(env, shape, Start(env, shape, initial).value, steps).value;
            s.memory.Up? && s.memory.activity.Logged? ==> Next(env, shape, s, FinishWrite).Some?
  {
    hide Holds, View, Sound, Start, Run, Model, ApplyToCore;
    StartInv(env, shape, initial);
    RunInv(env, shape, Start(env, shape, initial).value, steps);
    var s := Run(env, shape, Start(env, shape, initial).value, steps).value;
    if s.memory.Up? && s.memory.activity.Logged? { ApplyStep(env, s.memory.core, s.memory.activity.record); }
  }

  // -- Runs without empty keys -----------------------------------------------------

  predicate CleanRecord(r: Record) { r.Upsert? ==> Storable(r.row.id) }

  predicate CleanLog(log: seq<Record>) { forall r :: r in log ==> CleanRecord(r) }

  predicate CleanSteps(steps: seq<Step>) { forall step :: step in steps && step.Log? ==> CleanRecord(step.record) }

  predicate Clean(s: System) {
    && AllStorable(s.written) && CleanLog(s.disk.log)
    && (s.memory.Up? ==> AllStorable(s.memory.core.rows))
    && (s.memory.Up? && s.memory.activity.Logged? ==> CleanRecord(s.memory.activity.record))
  }

  lemma CleanApply(c: Core, r: Record)
    requires AllStorable(c.rows) && CleanRecord(r)
    ensures AllStorable(ApplyToCore(c, r).0.rows)
  {
    hide Position, Contents;
  }

  lemma {:induction false} CleanReplay(c: Core, log: seq<Record>)
    requires AllStorable(c.rows) && CleanLog(log) && Replay(c, log).Success?
    ensures AllStorable(Replay(c, log).value.rows)
    decreases |log|
  {
    hide AllStorable, ApplyToCore, CleanRecord;
    if log == [] {
    } else {
      CleanApply(c, log[0]);
      CleanReplay(ApplyToCore(c, log[0]).0, log[1..]);
    }
  }

  lemma CleanOpen(env: Env, disk: Disk, cfg: Config)
    requires CleanLog(disk.log) && Open(env, disk, cfg).Success?
    ensures AllStorable(Open(env, disk, cfg).value.rows)
  {
    hide AllStorable, Load, Replay, CleanLog, Sound;
    LoadedIsSound(env, disk.snapshot);
    CleanReplay(Load(env, disk.snapshot).value, disk.log);
  }

  lemma CleanNext(env: Env, shape: Shape, s: System, step: Step)
    requires Clean(s) && CleanSteps([step]) && Next(env, shape, s, step).Some?
    ensures Clean(Next(env, shape, s, step).value)
  {
    hide AllStorable, Open, ApplyToCore, Rebuilt, Save, Admitted, CleanRecord;
    if s.memory.Down? {
      CleanOpen(env, s.disk, step.cfg);
    } else if s.memory.activity.Logged? {
      CleanApply(s.memory.core, s.memory.activity.record);
    } else if step.Log? {
      assert step in [step];
    }
  }

  lemma {:induction false} CleanRun(env: Env, shape: Shape, s: System, steps: seq<Step>)
    requires Clean(s) && CleanSteps(steps) && Run(env, shape, s, steps).Some?
    ensures Clean(Run(env, shape, s, steps).value)
  {
    hide Clean, Next, CleanRecord;
    if steps == [] {
    } else {
      CleanRun(env, shape, s, steps[..|steps| - 1]);
      CleanNext(env, shape, Run(env, shape, s, steps[..|steps| - 1]).value, steps[|steps| - 1]);
    }
  }

  /** Without empty keys every crash is recoverable, under any cache that can be wrapped. */
  lemma CleanRunsRecover(env: Env, shape: Shape, initial: Option<CacheConfig>, steps: seq<Step>, cfg: Config)
    requires Start(env, shape, initial).Some? && Run(env, shape, Start(env, shape, initial).value, steps).Some?
    requires CleanSteps(steps) && cfg.dim == shape.dim && cfg.metric == shape.metric
    ensures var s := Run(env, shape, Start(env, shape, initial).value, steps).value;
            s.memory.Down? ==> (Open(env, s.disk, cfg).Success? <==> CacheAllowed(env, cfg))
  {
    hide Open, Run, Model, Matches, CleanSteps, Save, CacheAllowed;
    EveryRunIsExplained(env, shape, initial, steps, cfg);
    CleanRun(env, shape, Start(env, shape, initial).value, steps);
  }

  // -- A run with one ------------------------------------------------------------------

  function EmptyKeyRow(v: seq<f32>): Row { Row(VectorId.Bytes([]), v, None) }

  /** Insert under the empty key, checkpoint, crash. */
  function EmptyKeySteps(v: seq<f32>): seq<Step> {
    [Log(Upsert(EmptyKeyRow(v))), FinishWrite, ReplaceSnapshot, ResetLog, Crash]
  }

  lemma RunFive(env: Env, shape: Shape, s: seq<System>, f: seq<Step>)
    requires |f| == 5 && |s| == 6
    requires forall k :: 0 <= k < 5 ==> Next(env, shape, s[k], f[k]) == Some(s[k + 1])
    ensures Run(env, shape, s[0], f) == Some(s[5])
  {
    hide Next;
    assert f[..4][..3] == f[..3] && f[..3][..2] == f[..2] && f[..2][..1] == f[..1] && f[..1][..0] == [];
    assert Run(env, shape, s[0], f[..1]) == Some(s[1]);
    assert Run(env, shape, s[0], f[..2]) == Some(s[2]);
    assert Run(env, shape, s[0], f[..3]) == Some(s[3]);
    assert Run(env, shape, s[0], f[..4]) == Some(s[4]);
  }

  lemma EmptyKeySaves(c: Core, v: seq<f32>)
    requires Save(c).status.Done? && c.rows == []
    ensures var d := ApplyToCore(c, Upsert(EmptyKeyRow(v))).0;
            Save(d).status.Done? && d.rows == [EmptyKeyRow(v)] && !AllStorable(d.rows)
  {
    hide Le, EncKind, EncComponents, Contents;
    var row := EmptyKeyRow(v);
    assert UpsertRows([], row) == [row];
    assert [row][1..] == [] && EncRow(row).status.Done? && EncRows([]).status.Done?;
    assert EncRows([row]).status.Done?;
    assert row in [row];
  }

  lemma EmptyKeyRun(env: Env, shape: Shape, initial: Option<CacheConfig>, v: seq<f32>)
    requires Start(env, shape, initial).Some? && |v| == shape.dim
    ensures var r := Run(env, shape, Start(env, shape, initial).value, EmptyKeySteps(v));
            && r.Some? && r.value.memory.Down? && r.value.trace == [Upserted(EmptyKeyRow(v))]
            && !AllStorable(r.value.written)
  {
    hide ApplyToCore, Save, Contents, AllStorable, GetRow, View, Run, Sound;
    var s0, row := Start(env, shape, initial).value, EmptyKeyRow(v);
    var c0, log := s0.memory.core, [Upsert(row)];
    var c1 := ApplyToCore(c0, Upsert(row)).0;
    CreateSound(env, shape.kind, shape.dim, shape.metric, initial);
    EmptyKeySaves(c0, v);
    ApplyStep(env, c0, Upsert(row));
    assert [] + log == log && [] + [Upserted(row)] == [Upserted(row)];
    var existed := GetRow(c0, row.id).Some?;
    var s1 := s0.(disk := s0.disk.(log := log), memory := Up(c0, Logged(Upsert(row), existed)));
    var s2 := s1.(memory := Up(c1, Idle), trace := [Upserted(row)]);
    var s3 := s2.(disk := s2.disk.(snapshot := Save(c1).bytes), written := c1.rows, memory := Up(c1, Replaced));
    var s4 := s3.(disk := s3.disk.(log := []), memory := Up(c1, Idle));
    var s5 := s4.(memory := Down);
    RunFive(env, shape, [s0, s1, s2, s3, s4, s5], EmptyKeySteps(v));
  }

  /**
   The condition is needed: the handle admits an insert under the empty `Bytes` key, the
   checkpoint after it succeeds, and the database it leaves behind opens no more.
   */
  lemma EmptyKeyBlocksReopen(env: Env, shape: Shape, initial: Option<CacheConfig>, v: seq<f32>, cfg: Config)
    requires Start(env, shape, initial).Some? && |v| == shape.dim
    ensures var r := Run(env, shape, Start(env, shape, initial).value, EmptyKeySteps(v));
            && r.Some? && r.value.memory.Down?
            && Model(env, shape, r.value.trace) == Some(map[VectorId.Bytes([]) := Of(EmptyKeyRow(v))])
            && Open(env, r.value.disk, cfg).Failure?
  {
    hide Open, AllStorable, Matches, CacheAllowed, Run, Start, EmptyKeySteps;
    var row := EmptyKeyRow(v);
    EmptyKeyRun(env, shape, initial, v);
    assert [] + [Upserted(row)] == [Upserted(row)];
    ModelSnoc(env, shape, [], Upserted(row));
    EveryRunIsExplained(env, shape, initial, EmptyKeySteps(v), cfg);
  }

  // -- One write per crash -----------------------------------------------------------

  /** An interrupted write is the last thing before the next reopen. */
  predicate OnePerCrash(s: System) {
    && (forall k :: 1 <= k < |s.trace| && s.trace[k - 1].Interrupted? ==> s.trace[k] == Reopened)
    && (s.trace != [] && s.trace[|s.trace| - 1].Interrupted? ==> s.memory.Down?)
  }

  lemma CrashStep(env: Env, shape: Shape, s: System, step: Step)
    requires OnePerCrash(s) && Next(env, shape, s, step).Some?
    ensures OnePerCrash(Next(env, shape, s, step).value)
  {
    hide Open, ApplyToCore, Save, Admitted, Optimize, Ask, GetRow;
    var t := Next(env, shape, s, step).value;
    var n := |s.trace|;
    assert t.trace == s.trace || (|t.trace| == n + 1 && t.trace == s.trace + [t.trace[n]]);
  }

  lemma {:induction false} AtMostOneWriteInFlight(env: Env, shape: Shape, s: System, steps: seq<Step>)
    requires OnePerCrash(s) && Run(env, shape, s, steps).Some?
    ensures OnePerCrash(Run(env, shape, s, steps).value)
  {
    hide Next, OnePerCrash;
    if steps == [] {
    } else {
      AtMostOneWriteInFlight(env, shape, s, steps[..|steps| - 1]);
      CrashStep(env, shape, Run(env, shape, s, steps[..|steps| - 1]).value, steps[|steps| - 1]);
    }
  }
}
