/**
 What a failed `optimize` leads to. The flag it leaves behind asks for a rebuild that keeps
 failing, so until a row is written every search fails, although the index still holds every
 row.
 */
module Retraining {
  import opened Wrappers
  import opened Bytes
  import opened Types
  import opened PayloadFormat
  import opened RowStore
  import opened AnyIndex
  import opened CoreState
  import opened CoreSteps
  import opened CorePersistence
  import opened Searching
  import opened CoreRuns

  /** Rows that wait for a rebuild that fails with `e`. */
  ghost predicate Stuck(env: Env, c: Core, e: IndexError) {
    Sound(env, c) && c.dirty && c.rows != [] && Rebuilt(env, c.kind, c.dim, c.metric, c.rows) == Failure(e)
  }

  predicate Quiet(op: Op) { !op.DoInsert? && !op.DoDelete? }

  /** Materializing, optimizing and every admitted search are answered with `e`. */
  predicate Refuses(op: Op, dim: nat, reply: Reply, e: IndexError) {
    match op
    case DoMaterialize => reply == Wrote(Failure(e))
    case DoOptimize => reply == Wrote(Failure(e))
    case DoAsk(query, _) => |query| == dim ==> reply == Answered(Failure(e))
    case _ => true
  }

  predicate RefusesAll(ops: seq<Op>, dim: nat, replies: seq<Reply>, e: IndexError)
    decreases |ops|
  {
    if ops == [] then true
    else if ops[0].DoSetCache? then RefusesAll(ops[1..], dim, replies, e)
    else replies != [] && Refuses(ops[0], dim, replies[0], e) && RefusesAll(ops[1..], dim, replies[1..], e)
  }

  /** A failed optimize leaves a stuck core behind, with every row still in an index that was trained before. */
  lemma FailedOptimizeSticks(env: Env, c: Core)
    requires Sound(env, c) && Optimize(env, c).1.Failure?
    ensures var d := Optimize(env, c).0;
            && Stuck(env, d, Optimize(env, c).1.error) && d.rows == c.rows && d.layer == c.layer
            && (!c.layer.index.NeedsTraining() ==> Contents(d.layer.index.Rows()) == View(d))
  {
    hide Rebuilt, Contents, Distinct, IndexSearch;
    OptimizeStep(env, c);
  }

  lemma StuckReload(env: Env, c: Core, e: IndexError)
    requires Stuck(env, c, e)
    ensures Stuck(env, Reload(env, c).0, e) && ShapeOf(Reload(env, c).0) == ShapeOf(c)
  {
    hide Load, Save, AllStorable, Rebuilt, Contents, Distinct, IndexSearch;
    if Reload(env, c).1.ok {
      LoadedIsAccepted(env, c);
      SaveThenLoad(env, c);
      LoadedIvfIsDirty(env, Save(c).bytes);
    }
  }

  /** Nothing but a write gets a stuck core going again: not a search, another attempt, a new cache or a reload. */
  lemma StuckStep(env: Env, c: Core, op: Op, e: IndexError)
    requires Stuck(env, c, e) && Quiet(op)
    ensures var (d, r) := Exec(env, c, op);
            && Stuck(env, d, e) && ShapeOf(d) == ShapeOf(c)
            && Refuses(op, c.dim, r, e)
  {
    hide Rebuilt, Contents, Distinct, IndexSearch, Reload;
    match op
    case DoSearch(query, params) => SearchStep(env, c, query, params);
    case DoSetCache(cache) => SetCacheStep(env, c, cache);
    case DoReload => StuckReload(env, c, e);
    case _ =>
  }

  /** In every run without writes. */
  lemma {:induction false} StuckUntilWritten(env: Env, c: Core, ops: seq<Op>, e: IndexError)
    requires Stuck(env, c, e) && forall op :: op in ops ==> Quiet(op)
    ensures Stuck(env, RunOps(env, c, ops).0, e)
    ensures RefusesAll(ops, c.dim, RunOps(env, c, ops).1, e)
    decreases |ops|
  {
    hide Stuck, Exec, Refuses, Quiet;
    if ops == [] {
    } else {
      StuckStep(env, c, ops[0], e);
      StuckUntilWritten(env, Exec(env, c, ops[0]).0, ops[1..], e);
    }
  }

  /**
   After an `optimize` that failed, every search, materialization and further `optimize` of
   a run without writes reports the very same failure.
   */
  lemma FailedOptimizeBlocksSearch(env: Env, c: Core, ops: seq<Op>, query: seq<f32>, params: SearchParams)
    requires Sound(env, c) && Optimize(env, c).1.Failure?
    requires forall op :: op in ops ==> Quiet(op)
    ensures var (failed, r) := Optimize(env, c);
            && RefusesAll(ops, c.dim, RunOps(env, failed, ops).1, r.error)
            && Answer(env, RunOps(env, failed, ops).0, query, params) == Failure(r.error)
  {
    hide Quiet, Rebuilt, Sound, Optimize, RunOps, RefusesAll;
    var (failed, r) := Optimize(env, c);
    FailedOptimizeSticks(env, c);
    assert failed.dim == c.dim by { OptimizeStep(env, c); }
    StuckUntilWritten(env, failed, ops, r.error);
  }

  // -- A run that gets there ----------------------------------------------------------

  const SmallIvf := Ivf(IvfConfig(1, 1, 1, false, None, 0, 0))

  /** An environment in which one vector can be trained on and two cannot. */
  function FewOnly(): Env {
    Env((kind, dim, metric) => true,
        (kind, dim, metric, sample) => |sample| <= 1,
        (idx, query, params) => Success([]),
        (metric, query, vector) => 0,
        filter => true,
        (filter, meta) => true,
        (config, used) => {})
  }

  function Unit(n: u64): Row { Row(VectorId.U64(n), [0], None) }

  /** One row, materialized by the first search; then a second row, which the trained index takes. */
  function FirstOps(query: seq<f32>, params: SearchParams): seq<Op> {
    [DoInsert(Unit(1)), DoAsk(query, params), DoInsert(Unit(2))]
  }

  function TrainedOn(rows: seq<Row>, history: seq<Mutation>): Core {
    Core(SmallIvf, 1, Cosine, rows, Plain(Index(SmallIvf, 1, Cosine, Some([[0]]), history)), None, false)
  }

  lemma FirstInsert(query: seq<f32>, params: SearchParams)
    requires |query| == 1
    ensures var c0 := Create(FewOnly(), SmallIvf, 1, Cosine, None).value;
            var c1 := Insert(c0, Unit(1)).0;
            Ask(FewOnly(), c1, query, params) == (TrainedOn([Unit(1)], [Put(Unit(1))]), Success([]))
  {
    var rows := [Unit(1)];
    assert UpsertRows([], Unit(1)) == rows && Vectors(rows) == [[0]];
    assert Live([]) == [] && Contents([]) == map[];
    assert rows[1..] == [] && [] + [Put(Unit(1))] == [Put(Unit(1))];
  }

  lemma SecondInsert()
    ensures Insert(TrainedOn([Unit(1)], [Put(Unit(1))]), Unit(2))
            == (TrainedOn([Unit(1), Unit(2)], [Put(Unit(1)), Put(Unit(2))]), Success(()))
  {
    hide Contents;
    var h := [Put(Unit(1))];
    assert h[..0] == [] && Live(h) == [Unit(1)];
    assert Position([Unit(1)], VectorId.U64(2)) == 1;
    Lookup([Unit(1)], VectorId.U64(2));
    assert [Unit(1)] + [Unit(2)] == [Unit(1), Unit(2)] && h + [Put(Unit(2))] == [Put(Unit(1)), Put(Unit(2))];
  }

  function BothHeld(): Core { TrainedOn([Unit(1), Unit(2)], [Put(Unit(1)), Put(Unit(2))]) }

  /** Both rows are too many to train on. */
  lemma BothTooMany(query: seq<f32>, params: SearchParams)
    requires |query| == 1 && Sound(FewOnly(), BothHeld())
    ensures Ask(FewOnly(), BothHeld(), query, params).1 == Success([])
    ensures Optimize(FewOnly(), BothHeld()).1 == Failure(TrainingFailed)
    ensures Ask(FewOnly(), Optimize(FewOnly(), BothHeld()).0, query, params).1 == Failure(TrainingFailed)
  {
    hide Contents, Live, Distinct, Rebuilt;
    RebuiltHoldsRows(FewOnly(), SmallIvf, 1, Cosine, BothHeld().rows);
  }

  /** Such a run exists: the searches before the failed `optimize` succeed, the same search after it fails. */
  lemma OptimizeCanBlockSearch(query: seq<f32>, params: SearchParams)
    requires |query| == 1
    ensures Create(FewOnly(), SmallIvf, 1, Cosine, None).Success?
    ensures var c := RunOps(FewOnly(), Create(FewOnly(), SmallIvf, 1, Cosine, None).value, FirstOps(query, params)).0;
            && Sound(FewOnly(), c) && Contents(c.layer.index.Rows()) == View(c)
            && Ask(FewOnly(), c, query, params).1 == Success([])
            && Optimize(FewOnly(), c).1 == Failure(TrainingFailed)
            && Ask(FewOnly(), Optimize(FewOnly(), c).0, query, params).1 == Failure(TrainingFailed)
  {
    hide Insert, Contents, Live, Distinct, RightDim, RunOps, Ask, Optimize;
    var env, ops := FewOnly(), FirstOps(query, params);
    var c0 := Create(env, SmallIvf, 1, Cosine, None).value;
    CreateSound(env, SmallIvf, 1, Cosine, None);
    FirstInsert(query, params);
    SecondInsert();
    RunThree(env, c0, ops);
    assert forall op :: op in ops ==> RightDim(op, 1) by { SmallOps(query, params); }
    RunRefinesMap(env, c0, ops);
    BothTooMany(query, params);
  }

  lemma SmallOps(query: seq<f32>, params: SearchParams)
    ensures forall op :: op in FirstOps(query, params) ==> RightDim(op, 1)
  {
  }

  lemma RunThree(env: Env, c: Core, ops: seq<Op>)
    requires |ops| == 3
    ensures RunOps(env, c, ops).0 == Exec(env, Exec(env, Exec(env, c, ops[0]).0, ops[1]).0, ops[2]).0
  {
    hide Exec;
    var d := Exec(env, c, ops[0]).0;
    assert ops[1..][0] == ops[1] && ops[1..][1..] == ops[2..] && ops[2..][0] == ops[2] && ops[2..][1..] == [];
    assert RunOps(env, c, ops).0 == RunOps(env, d, ops[1..]).0;
    assert RunOps(env, d, ops[1..]).0 == RunOps(env, Exec(env, d, ops[1]).0, ops[2..]).0;
  }
}
