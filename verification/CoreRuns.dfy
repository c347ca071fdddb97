/** Whole runs of the core engine: the coupling invariant at every point, and a cache nobody can observe. */
module CoreRuns {
  import opened Wrappers
  import opened Types
  import opened PayloadFormat
  import opened RowStore
  import opened AnyIndex
  import opened CoreState
  import opened CoreSteps
  import opened CorePersistence
  import opened Searching

  datatype Op =
    | DoInsert(row: Row)
    | DoDelete(id: VectorId)
    | DoGet(id: VectorId)
    | DoLen
    | DoSearch(query: seq<f32>, params: SearchParams)  // the core's own search
    | DoAsk(query: seq<f32>, params: SearchParams)     // the handle's search
    | DoMaterialize
    | DoOptimize
    | DoReload
    | DoSetCache(cache: Option<CacheConfig>)

  datatype Reply =
    | Wrote(outcome: Outcome)
    | Removed(existed: bool, outcome: Outcome)
    | Got(answer: Option<Stored>)
    | Counted(n: nat)
    | Answered(result: SearchResult)
    | Reloaded(ok: bool)

  function Reload(env: Env, c: Core): (Core, Reply) {
    if Save(c).status.Failed? then (c, Reloaded(false))
    else
      match Load(env, Save(c).bytes)
      case Failure(_) => (c, Reloaded(false))
      case Success(d) => (d, Reloaded(true))
  }

  function Exec(env: Env, c: Core, op: Op): (Core, Reply) {
    match op
    case DoInsert(row) => var (d, r) := Insert(c, row); (d, Wrote(r))
    case DoDelete(id) => var (d, r) := Delete(c, id); (d, Removed(GetRow(c, id).Some?, r))
    case DoGet(id) => (c, Got(GetRow(c, id)))
    case DoLen => (c, Counted(|c.rows|))
    case DoSearch(query, params) => var (d, r) := Search(env, c, query, params); (d, Answered(r))
    case DoAsk(query, params) => var (d, r) := Ask(env, c, query, params); (d, Answered(r))
    case DoMaterialize => var (d, r) := EnsureReady(env, c); (d, Wrote(r))
    case DoOptimize => var (d, r) := Optimize(env, c); (d, Wrote(r))
    case DoReload => Reload(env, c)
    case DoSetCache(cache) => var (d, r) := SetCache(env, c, cache); (d, Wrote(r))
  }

  /** The final core and the replies to everything but cache reconfiguration, in order. */
  function RunOps(env: Env, c: Core, ops: seq<Op>): (Core, seq<Reply>)
    decreases |ops|
  {
    if ops == [] then (c, [])
    else
      var (d, r) := Exec(env, c, ops[0]);
      var (e, rest) := RunOps(env, d, ops[1..]);
      (e, if ops[0].DoSetCache? then rest else [r] + rest)
  }

  // -- Soundness and the stored map ------------------------------------------------

  predicate RightDim(op: Op, dim: nat) { op.DoInsert? ==> |op.row.vector| == dim }

  function Effect(m: map<VectorId, Stored>, op: Op): map<VectorId, Stored> {
    match op
    case DoInsert(row) => m[row.id := Of(row)]
    case DoDelete(id) => m - {id}
    case _ => m
  }

  function Effects(m: map<VectorId, Stored>, ops: seq<Op>): map<VectorId, Stored>
    decreases |ops|
  {
    if ops == [] then m else Effects(Effect(m, ops[0]), ops[1..])
  }

  /** What a plain map replies, for the operations whose reply it determines. */
  function MapReply(m: map<VectorId, Stored>, op: Op): Option<Reply> {
    match op
    case DoInsert(_) => Some(Wrote(Success(())))
    case DoDelete(id) => Some(Removed(id in m, Success(())))
    case DoGet(id) => Some(Got(Find(m, id)))
    case DoLen => Some(Counted(|m|))
    case _ => None
  }

  /** The map `m` accounts for the reply. */
  ghost predicate Fitting(env: Env, shape: Shape, m: map<VectorId, Stored>, op: Op, reply: Reply) {
    && (MapReply(m, op).Some? ==> reply == MapReply(m, op).value)
    && (op.DoAsk? ==> reply.Answered? && Accounted(env, shape, m, op.query, op.params, reply.result))
  }

  /** The replies to a run are those of a plain map, wherever it determines them, or accounted for by it. */
  ghost predicate Refines(env: Env, shape: Shape, m: map<VectorId, Stored>, ops: seq<Op>, replies: seq<Reply>)
    decreases |ops|
  {
    if ops == [] then replies == []
    else if ops[0].DoSetCache? then Refines(env, shape, m, ops[1..], replies)
    else
      && replies != []
      && Fitting(env, shape, m, ops[0], replies[0])
      && Refines(env, shape, Effect(m, ops[0]), ops[1..], replies[1..])
  }

  lemma ReplyStep(env: Env, c: Core, op: Op)
    requires Sound(env, c) && RightDim(op, c.dim)
    ensures Fitting(env, ShapeOf(c), View(c), op, Exec(env, c, op).1)
  {
    hide Contents, IndexSearch, Insert, Delete, GetRow, EnsureReady, Reload, Distinct, Live, Ask, Accounted;
    match op
    case DoInsert(row) => InsertStep(env, c, row);
    case DoDelete(id) => DeleteStep(env, c, id); GetIsAnswer(c, id);
    case DoGet(id) => GetIsAnswer(c, id);
    case DoLen => ContentsSize(c.rows);
    case DoAsk(query, params) => AskIsAccounted(env, c, query, params);
    case _ =>
  }

  /** The payload can be written, no id is an empty key, and the index accepts the configuration. */
  predicate Reloadable(env: Env, c: Core) {
    Save(c).status.Done? && AllStorable(c.rows) && c.dim != 0 && env.accepts(c.kind, c.dim, c.metric)
  }

  /**
   What the remaining operations report and leave behind: a rebuild fails exactly when one is
   due and refused, and otherwise leaves an index built of the rows; a reload succeeds
   exactly when the payload can be written, no id is an empty key and the index is accepted.
   */
  lemma ExecReports(env: Env, c: Core, op: Op)
    requires Sound(env, c)
    ensures var (d, r) := Exec(env, c, op);
            var refused := c.rows != [] && Unbuilt(env, c.kind, c.dim, c.metric, c.rows);
            && (op.DoSearch? ==>
                 && d == c.(layer := d.layer) && d.layer.index == c.layer.index
                 && r == Answered(IndexSearch(env, c.layer.index, op.query, op.params)))
            && (op.DoAsk? && |op.query| == c.dim && c.rows != [] && !(c.dirty && refused) ==>
                 !d.dirty && d.layer.index == EnsureReady(env, c).0.layer.index)
            && (op.DoMaterialize? ==>
                 && r.Wrote? && (r.outcome.Failure? <==> c.dirty && refused)
                 && (c.dirty && c.rows != [] && !refused ==>
                      !d.dirty && HoldsInOrder(d.layer.index, c.kind, c.dim, c.metric, c.rows)))
            && (op.DoOptimize? ==>
                 && r.Wrote? && (r.outcome.Failure? <==> c.kind.Ivf? && refused)
                 && (c.kind.Ivf? && c.rows != [] && !refused ==>
                      !d.dirty && HoldsInOrder(d.layer.index, c.kind, c.dim, c.metric, c.rows)))
            && (op.DoReload? ==>
                 && r.Reloaded?
                 && (r.ok <==> Reloadable(env, c))
                 && (r.ok ==> d.rows == c.rows && d.cacheCfg == None && (d.dirty <==> c.kind.Ivf?)))
            && (op.DoSetCache? ==>
                 && r.Wrote? && (r.outcome.Success? <==> c.dim != 0 && env.accepts(Flat, c.dim, c.metric))
                 && d.layer.index == c.layer.index
                 && d.cacheCfg == if r.outcome.Success? then op.cache else c.cacheCfg)
  {
    hide Sound, EnsureReady, Optimize, SetCache, Save, Load, AllStorable, Unbuilt, HoldsInOrder;
    hide Insert, Delete, Search, Ask, IndexSearch;
    match op
    case DoMaterialize => EnsureReadyStep(env, c);
    case DoOptimize => OptimizeStep(env, c);
    case DoReload => ReloadReports(env, c);
    case DoSetCache(cache) => SetCacheStep(env, c, cache);
    case DoSearch(query, params) => SearchStep(env, c, query, params);
    case DoAsk(query, params) => AskStep(env, c, query, params); EnsureReadyStep(env, c);
    case _ =>
  }

  /** A run is its operations one after the other. */
  lemma {:induction false} RunConcat(env: Env, c: Core, a: seq<Op>, b: seq<Op>)
    ensures var (d, first) := RunOps(env, c, a);
            var (e, second) := RunOps(env, d, b);
            RunOps(env, c, a + b) == (e, first + second)
    decreases |a|
  {
    hide Exec;
    if a == [] {
      assert a + b == b;
      assert [] + RunOps(env, c, b).1 == RunOps(env, c, b).1;
    } else {
      var (d, r) := Exec(env, c, a[0]);
      assert (a + b)[0] == a[0] && (a + b)[1..] == a[1..] + b;
      RunConcat(env, d, a[1..], b);
      var (e, rest) := RunOps(env, d, a[1..]);
      assert [r] + (rest + RunOps(env, e, b).1) == ([r] + rest) + RunOps(env, e, b).1;
    }
  }

  lemma RunOne(env: Env, c: Core, op: Op)
    ensures RunOps(env, c, [op]) == (Exec(env, c, op).0, if op.DoSetCache? then [] else [Exec(env, c, op).1])
  {
    hide Exec;
    var (d, r) := Exec(env, c, op);
    assert [op][1..] == [] && RunOps(env, d, [op][1..]) == (d, []) && [r] + [] == [r];
  }

  lemma ReloadReports(env: Env, c: Core)
    requires Sound(env, c)
    ensures var (d, r) := Reload(env, c);
            && r.Reloaded?
            && (r.ok <==> Reloadable(env, c))
            && (r.ok ==> d.rows == c.rows && d.cacheCfg == None && (d.dirty <==> c.kind.Ivf?))
  {
    hide Sound, Save, Load, AllStorable;
    if Save(c).status.Done? {
      if New(env, c.kind, c.dim, c.metric).Success? { SaveThenLoad(env, c); }
      if Load(env, Save(c).bytes).Success? {
        LoadedIsAccepted(env, c);
        LoadedIvfIsDirty(env, Save(c).bytes);
      }
    }
  }

  lemma ReloadKeeps(env: Env, c: Core)
    requires Sound(env, c)
    ensures var d := Reload(env, c).0;
            Sound(env, d) && d.rows == c.rows && ShapeOf(d) == ShapeOf(c)
  {
    hide Sound, Load, Save, AllStorable;
    if Reload(env, c).1.ok {
      LoadedIsAccepted(env, c);
      SaveThenLoad(env, c);
    }
  }

  lemma ExecStep(env: Env, c: Core, op: Op)
    requires Sound(env, c) && RightDim(op, c.dim)
    ensures var (d, r) := Exec(env, c, op);
            Sound(env, d) && ShapeOf(d) == ShapeOf(c) && View(d) == Effect(View(c), op)
  {
    hide Contents, Distinct, IndexSearch, Position, Live, EnsureReady, Rebuilt, Save, Load, Ask;
    match op
    case DoInsert(row) => InsertStep(env, c, row);
    case DoDelete(id) => DeleteStep(env, c, id);
    case DoGet(_) =>
    case DoLen =>
    case DoSearch(query, params) => SearchStep(env, c, query, params);
    case DoAsk(query, params) => AskStep(env, c, query, params);
    case DoMaterialize => EnsureReadyStep(env, c);
    case DoOptimize => OptimizeStep(env, c);
    case DoReload => ReloadKeeps(env, c);
    case DoSetCache(cache) => SetCacheStep(env, c, cache);
  }

  /**
   Whole-run refinement of a plain map. At the end of every run the coupling invariant holds
   and the store is the fold of the writes; every insert, delete, lookup and count on the
   way is answered as the map answers it, and every search of the handle is accounted for by
   the map of that moment, whatever the kind of index, its training state and its cache.
   */
  lemma {:induction false} RunRefinesMap(env: Env, c: Core, ops: seq<Op>)
    requires Sound(env, c) && forall op :: op in ops ==> RightDim(op, c.dim)
    ensures Sound(env, RunOps(env, c, ops).0)
    ensures View(RunOps(env, c, ops).0) == Effects(View(c), ops)
    ensures Refines(env, ShapeOf(c), View(c), ops, RunOps(env, c, ops).1)
    decreases |ops|
  {
    hide Sound, View, Exec, Fitting;
    if ops == [] {
    } else {
      ExecStep(env, c, ops[0]);
      ReplyStep(env, c, ops[0]);
      RunRefinesMap(env, Exec(env, c, ops[0]).0, ops[1..]);
    }
  }

  // -- Cache transparency --------------------------------------------------------------

  /** The same core without its cache. */
  function Strip(c: Core): Core { c.(layer := Plain(c.layer.index), cacheCfg := None) }

  function WithoutCacheOps(ops: seq<Op>): seq<Op>
    decreases |ops|
  {
    if ops == [] then []
    else if ops[0].DoSetCache? then WithoutCacheOps(ops[1..])
    else [ops[0]] + WithoutCacheOps(ops[1..])
  }

  lemma InsertTransparent(env: Env, c: Core, row: Row)
    requires c.layer.Fresh(env)
    ensures var (d, r) := Insert(c, row);
            d.layer.Fresh(env) && Insert(Strip(c), row) == (Strip(d), r)
  {
    hide IndexSearch, IndexInsert, IndexDelete, UpsertRows, Position;
  }

  lemma DeleteTransparent(env: Env, c: Core, id: VectorId)
    requires c.layer.Fresh(env)
    ensures var (d, r) := Delete(c, id);
            d.layer.Fresh(env) && Delete(Strip(c), id) == (Strip(d), r)
  {
    hide IndexSearch, IndexDelete, RemoveRows;
  }

  lemma RebuildTransparent(env: Env, c: Core, op: Op)
    requires c.layer.Fresh(env) && (op.DoMaterialize? || op.DoOptimize?)
    ensures var (d, r) := Exec(env, c, op);
            d.layer.Fresh(env) && Exec(env, Strip(c), op) == (Strip(d), r)
  {
    hide IndexSearch, Rebuilt;
  }

  lemma AskTransparent(env: Env, c: Core, query: seq<f32>, params: SearchParams)
    requires c.layer.Fresh(env)
    ensures var (d, r) := Ask(env, c, query, params);
            d.layer.Fresh(env) && Ask(env, Strip(c), query, params) == (Strip(d), r)
  {
    hide IndexSearch, Rebuilt;
    CachedSearchIsSearch(env, EnsureReady(env, c).0.layer, query, params);
  }

  lemma ReloadTransparent(env: Env, c: Core)
    requires c.layer.Fresh(env)
    ensures var (d, r) := Reload(env, c);
            d.layer.Fresh(env) && Reload(env, Strip(c)) == (Strip(d), r)
  {
    hide IndexSearch, ParsePayload, BuildInto, Deduplicate, EncPayload;
  }

  lemma ExecTransparent(env: Env, c: Core, op: Op)
    requires c.layer.Fresh(env)
    ensures var (d, r) := Exec(env, c, op);
            && d.layer.Fresh(env)
            && (op.DoSetCache? ==> Strip(d) == Strip(c))
            && (!op.DoSetCache? ==> Exec(env, Strip(c), op) == (Strip(d), r))
  {
    hide IndexSearch, Insert, Delete, EnsureReady, Reload, Ask;
    match op
    case DoInsert(row) => InsertTransparent(env, c, row);
    case DoDelete(id) => DeleteTransparent(env, c, id);
    case DoMaterialize => RebuildTransparent(env, c, op);
    case DoOptimize => RebuildTransparent(env, c, op);
    case DoReload => ReloadTransparent(env, c);
    case DoGet(_) =>
    case DoLen =>
    case DoSearch(query, params) => CachedSearchIsSearch(env, c.layer, query, params);
    case DoAsk(query, params) => AskTransparent(env, c, query, params);
    case DoSetCache(_) =>
  }

  /**
   No run can tell whether there is a cache: every reply, and the state apart from the
   cache, is that of the same run without a cache and without cache reconfiguration. This
   holds of every core whose cache is fresh and every operation, well-dimensioned or not.
   */
  lemma {:induction false} CacheIsTransparent(env: Env, c: Core, ops: seq<Op>)
    requires c.layer.Fresh(env)
    ensures var (d, replies) := RunOps(env, c, ops);
            RunOps(env, Strip(c), WithoutCacheOps(ops)) == (Strip(d), replies)
    decreases |ops|
  {
    hide Exec, Strip;
    if ops == [] {
    } else {
      var (d, r) := Exec(env, c, ops[0]);
      ExecTransparent(env, c, ops[0]);
      CacheIsTransparent(env, d, ops[1..]);
      if !ops[0].DoSetCache? {
        assert WithoutCacheOps(ops)[1..] == WithoutCacheOps(ops[1..]);
      }
    }
  }
}
