/**
 Any number of threads searching one database while others write to it. A search holds the
 read guard first; when the index must be materialized it lets go and takes the write guard,
 and other threads may run in the gap. Each guarded section is one step.
 */
module ConcurrentSearch {
  import opened Wrappers
  import opened Types
  import opened RowStore
  import opened AnyIndex
  import opened CoreState
  import opened CoreSteps
  import opened Durability
  import opened Searching

  /** Positions in `past` mark the instants of a call; `searched` is the index it searched, if it got to one. */
  datatype Thread =
    | Called(query: seq<f32>, params: SearchParams, start: nat)
    | Between(query: seq<f32>, params: SearchParams, start: nat)
    | Returned(query: seq<f32>, params: SearchParams, start: nat, at: nat, end: nat,
               searched: Option<Index>, result: SearchResult)

  /** `past` are all states of the core so far, the current one last. */
  datatype Shared = Shared(past: seq<Core>, threads: map<nat, Thread>)

  datatype Step =
    | Call(thread: nat, query: seq<f32>, params: SearchParams)
    | ReadSection(thread: nat)
    | WriteSection(thread: nat)
    | Write(record: Record)
    | Rebuild

  function Now(s: Shared): Core requires s.past != [] { s.past[|s.past| - 1] }

  /** The section under the read guard, ended early by a return or by letting go of the guard. */
  function UnderRead(env: Env, s: Shared, t: nat, th: Thread): Shared
    requires s.past != [] && th.Called?
  {
    var c, at := Now(s), |s.past| - 1;
    if c.rows == [] then
      s.(threads := s.threads[t := Returned(th.query, th.params, th.start, at, at, None, Success([]))])
    else if !c.dirty then
      var (after, r) := Search(env, c, th.query, th.params);
      var th' := Returned(th.query, th.params, th.start, at, at + 1, Some(c.layer.index), r);
      Shared(s.past + [after], s.threads[t := th'])
    else s.(threads := s.threads[t := Between(th.query, th.params, th.start)])
  }

  /** The section under the write guard: look again, materialize, search. */
  function UnderWrite(env: Env, s: Shared, t: nat, th: Thread): Shared
    requires s.past != [] && th.Between?
  {
    var c, at := Now(s), |s.past| - 1;
    if c.rows == [] then
      s.(threads := s.threads[t := Returned(th.query, th.params, th.start, at, at, None, Success([]))])
    else
      var (ready, made) := EnsureReady(env, c);
      match made
      case Failure(e) =>
        var th' := Returned(th.query, th.params, th.start, at, at + 1, None, Failure(e));
        Shared(s.past + [ready], s.threads[t := th'])
      case Success(_) =>
        var (after, r) := Search(env, ready, th.query, th.params);
        var th' := Returned(th.query, th.params, th.start, at, at + 1, Some(ready.layer.index), r);
        Shared(s.past + [after], s.threads[t := th'])
  }

  function Next(env: Env, s: Shared, step: Step): (r: Option<Shared>)
    requires s.past != []
    ensures r.Some? ==> r.value.past != []
  {
    var c := Now(s);
    match step
    case Call(t, query, params) =>
      if |query| != c.dim then None
      else Some(s.(threads := s.threads[t := Called(query, params, |s.past| - 1)]))
    case ReadSection(t) =>
      if t in s.threads && s.threads[t].Called? then Some(UnderRead(env, s, t, s.threads[t])) else None
    case WriteSection(t) =>
      if t in s.threads && s.threads[t].Between? then Some(UnderWrite(env, s, t, s.threads[t])) else None
    case Write(record) =>
      if Admitted(record, c.dim) then Some(s.(past := s.past + [ApplyToCore(c, record).0])) else None
    case Rebuild => Some(s.(past := s.past + [Optimize(env, c).0]))
  }

  function Run(env: Env, s: Shared, steps: seq<Step>): (r: Option<Shared>)
    requires s.past != []
    ensures r.Some? ==> r.value.past != []
    decreases |steps|
  {
    if steps == [] then Some(s)
    else
      match Run(env, s, steps[..|steps| - 1])
      case None => None
      case Some(t) => Next(env, t, steps[|steps| - 1])
  }

  // -- Linearizability ---------------------------------------------------------------

  /** Where an answer came from: a trained index with exactly the stored rows, or no index at all. */
  ghost predicate Grounded(
    env: Env, c: Core, searched: Option<Index>, query: seq<f32>, params: SearchParams, result: SearchResult)
  {
    match searched
    case Some(idx) => c.rows != [] && Serves(idx, ShapeOf(c), View(c)) && result == IndexSearch(env, idx, query, params)
    case None =>
      if c.rows == [] then result == Success([])
      else EnsureReady(env, c).1.Failure? && result == Failure(EnsureReady(env, c).1.error)
  }

  /** A returned search answered what a sequential one would have at an instant within the call. */
  ghost predicate Linearized(env: Env, past: seq<Core>, th: Thread) {
    match th
    case Returned(query, params, start, at, end, searched, result) =>
      && start <= at <= end < |past|
      && result == Answer(env, past[at], query, params)
      && Grounded(env, past[at], searched, query, params, result)
    case _ => th.start < |past|
  }

  ghost predicate Inv(env: Env, s: Shared) {
    && s.past != []
    && (forall i :: 0 <= i < |s.past| ==> Sound(env, s.past[i]))
    && (forall t :: t in s.threads ==> Linearized(env, s.past, s.threads[t]))
  }

  lemma StillLinearized(env: Env, past: seq<Core>, more: seq<Core>, th: Thread)
    requires Linearized(env, past, th)
    ensures Linearized(env, past + more, th)
  {
    hide Answer, Grounded;
  }

  /** A core that is not dirty answers through its cache what it answers sequentially, from a trained index. */
  lemma CleanAnswer(env: Env, c: Core, query: seq<f32>, params: SearchParams)
    requires Sound(env, c) && c.rows != [] && !c.dirty
    ensures Search(env, c, query, params).1 == Answer(env, c, query, params)
    ensures Grounded(env, c, Some(c.layer.index), query, params, Search(env, c, query, params).1)
    ensures Sound(env, Search(env, c, query, params).0)
  {
    hide IndexSearch, Contents, Distinct;
    SearchStep(env, c, query, params);
  }

  lemma Grow(env: Env, s: Shared, next: Core, t: nat, th: Thread)
    requires Inv(env, s) && Sound(env, next) && Linearized(env, s.past + [next], th)
    ensures Inv(env, Shared(s.past + [next], s.threads)) && Inv(env, Shared(s.past + [next], s.threads[t := th]))
  {
    hide Sound, Linearized;
    forall u | u in s.threads ensures Linearized(env, s.past + [next], s.threads[u]) {
      StillLinearized(env, s.past, [next], s.threads[u]);
    }
  }

  lemma ReadKeeps(env: Env, s: Shared, t: nat)
    requires Inv(env, s) && t in s.threads && s.threads[t].Called?
    ensures Inv(env, UnderRead(env, s, t, s.threads[t]))
  {
    hide Sound, EnsureReady, IndexSearch, Search;
    var c, th := Now(s), s.threads[t];
    assert Linearized(env, s.past, th);
    if c.rows != [] && !c.dirty {
      CleanAnswer(env, c, th.query, th.params);
      var (after, r) := Search(env, c, th.query, th.params);
      Grow(env, s, after, t,
           Returned(th.query, th.params, th.start, |s.past| - 1, |s.past|, Some(c.layer.index), r));
    }
  }

  lemma WriteKeeps(env: Env, s: Shared, t: nat)
    requires Inv(env, s) && t in s.threads && s.threads[t].Between?
    ensures Inv(env, UnderWrite(env, s, t, s.threads[t]))
  {
    hide Sound, EnsureReady, IndexSearch, Search;
    var c, th := Now(s), s.threads[t];
    assert Linearized(env, s.past, th);
    if c.rows != [] {
      EnsureReadyStep(env, c);
      var (ready, made) := EnsureReady(env, c);
      var n := |s.past|;
      if made.Failure? {
        Grow(env, s, ready, t, Returned(th.query, th.params, th.start, n - 1, n, None, Failure(made.error)));
      } else {
        SearchStep(env, ready, th.query, th.params);
        var (after, r) := Search(env, ready, th.query, th.params);
        AnswerReflectsStore(env, c, th.query, th.params);
        Grow(env, s, after, t, Returned(th.query, th.params, th.start, n - 1, n, Some(ready.layer.index), r));
      }
    }
  }

  lemma StepKeeps(env: Env, s: Shared, step: Step)
    requires Inv(env, s) && Next(env, s, step).Some?
    ensures Inv(env, Next(env, s, step).value)
  {
    hide Sound, UnderRead, UnderWrite, ApplyToCore, Optimize, Answer, Grounded;
    var c := Now(s);
    match step
    case Call(t, query, params) =>
    case ReadSection(t) => ReadKeeps(env, s, t);
    case WriteSection(t) => WriteKeeps(env, s, t);
    case Write(record) =>
      ApplyStep(env, c, record);
      Grow(env, s, ApplyToCore(c, record).0, 0, Called([], SearchParams(0, c.metric, None), 0));
    case Rebuild =>
      OptimizeStep(env, c);
      Grow(env, s, Optimize(env, c).0, 0, Called([], SearchParams(0, c.metric, None), 0));
  }

  lemma {:induction false} RunKeeps(env: Env, s: Shared, steps: seq<Step>)
    requires Inv(env, s) && Run(env, s, steps).Some?
    ensures Inv(env, Run(env, s, steps).value)
    decreases |steps|
  {
    hide Inv, Next;
    assert s.past != [] by { PastNonempty(env, s); }
    if steps == [] {
    } else {
      RunKeeps(env, s, steps[..|steps| - 1]);
      StepKeeps(env, Run(env, s, steps[..|steps| - 1]).value, steps[|steps| - 1]);
    }
  }

  lemma PastNonempty(env: Env, s: Shared)
    requires Inv(env, s)
    ensures s.past != []
  {
  }

  /**
   Concurrent searches linearize. In every interleaving, each search that returned gave the
   sequential answer at one instant between its call and its return, on a state whose
   coupling invariant holds. If it searched an index at all, that index was trained and held
   exactly the rows stored at that instant; otherwise nothing was stored or the index could
   not be built.
   */
  lemma SearchesLinearize(env: Env, c: Core, steps: seq<Step>, t: nat)
    requires Sound(env, c)
    requires Run(env, Shared([c], map[]), steps).Some?
    requires t in Run(env, Shared([c], map[]), steps).value.threads
    requires Run(env, Shared([c], map[]), steps).value.threads[t].Returned?
    ensures var s := Run(env, Shared([c], map[]), steps).value;
            var th := s.threads[t];
            && th.start <= th.at <= th.end < |s.past|
            && Sound(env, s.past[th.at])
            && th.result == Answer(env, s.past[th.at], th.query, th.params)
            && Grounded(env, s.past[th.at], th.searched, th.query, th.params, th.result)
            && (th.searched.Some? ==> !th.searched.value.NeedsTraining())
  {
    hide Sound, Answer, Run, EnsureReady, IndexSearch;
    RunKeeps(env, Shared([c], map[]), steps);
    var s := Run(env, Shared([c], map[]), steps).value;
    assert Linearized(env, s.past, s.threads[t]);
  }

  // -- What the steps do to the thread and to the rest -------------------------------------

  /**
   What a guarded section leaves: the same stored map, every other thread where it was, and
   its own thread either returned, with the answer of this instant, or - only from the read
   guard, only when an index must be built - waiting for the write guard.
   */
  lemma SectionEffect(env: Env, s: Shared, t: nat)
    requires Inv(env, s) && t in s.threads && !s.threads[t].Returned?
    ensures var th, c := s.threads[t], Now(s);
            var u := if th.Called? then UnderRead(env, s, t, th) else UnderWrite(env, s, t, th);
            && u.past != [] && t in u.threads && u.threads == s.threads[t := u.threads[t]]
            && (u.past == s.past || u.past == s.past + [Now(u)])
            && View(Now(u)) == View(c) && ShapeOf(Now(u)) == ShapeOf(c)
            && u.threads[t].query == th.query && u.threads[t].params == th.params
            && (if th.Called? && c.rows != [] && c.dirty then u.threads[t].Between?
                else
                  && u.threads[t].Returned? && u.threads[t].at == |s.past| - 1
                  && u.threads[t].result == Answer(env, c, th.query, th.params))
  {
    hide Sound, EnsureReady, IndexSearch, Search, Contents;
    var c, th := Now(s), s.threads[t];
    if th.Called? {
      if c.rows != [] && !c.dirty {
        CleanAnswer(env, c, th.query, th.params);
        SearchStep(env, c, th.query, th.params);
      }
    } else if c.rows != [] {
      EnsureReadyStep(env, c);
      if EnsureReady(env, c).1.Success? { SearchStep(env, EnsureReady(env, c).0, th.query, th.params); }
    }
  }

  /** When each step can be taken: the thread is due for it, and a query or a write is admitted. */
  lemma StepsPossible(env: Env, s: Shared, step: Step)
    requires Inv(env, s)
    ensures Next(env, s, step).Some? <==>
            match step
            case Call(t, query, params) => |query| == Now(s).dim
            case ReadSection(t) => t in s.threads && s.threads[t].Called?
            case WriteSection(t) => t in s.threads && s.threads[t].Between?
            case Write(record) => Admitted(record, Now(s).dim)
            case Rebuild => true
  {
    hide UnderRead, UnderWrite, ApplyToCore, Optimize;
  }

  /**
   A write or a rebuild leaves every thread where it was and adds one state: the written map
   under the same training, or the same map in an index newly trained on all of its rows.
   */
  lemma WriterEffect(env: Env, s: Shared, step: Step)
    requires Inv(env, s) && (step.Write? || step.Rebuild?) && Next(env, s, step).Some?
    ensures var u, c := Next(env, s, step).value, Now(s);
            var d := Now(u);
            && u.threads == s.threads && u.past == s.past + [d] && ShapeOf(d) == ShapeOf(c) && d.cacheCfg == c.cacheCfg
            && (step.Write? ==>
                 && View(d) == Apply(View(c), step.record)
                 && d.dirty == c.dirty && d.layer.index.sample == c.layer.index.sample)
            && (step.Rebuild? ==>
                 && d.rows == c.rows
                 && (c.kind.Ivf? && c.rows != [] ==>
                      if Unbuilt(env, c.kind, c.dim, c.metric, c.rows) then d == c.(dirty := true)
                      else !d.dirty && HoldsInOrder(d.layer.index, c.kind, c.dim, c.metric, c.rows)))
  {
    hide Sound, Insert, Delete, Optimize, Unbuilt, HoldsInOrder, Contents, Linearized;
    var c := Now(s);
    match step
    case Write(record) =>
      ApplyStep(env, c, record);
      match record {
        case Upsert(row) => InsertStep(env, c, row);
        case Remove(id) => DeleteStep(env, c, id);
      }
    case Rebuild => OptimizeStep(env, c);
  }

  // -- The writes of a run -------------------------------------------------------------------

  function Writes(steps: seq<Step>): seq<Record> {
    if steps == [] then []
    else
      var front, last := Writes(steps[..|steps| - 1]), steps[|steps| - 1];
      if last.Write? then front + [last.record] else front
  }

  /** The plain map after the writes of `steps`. */
  function TableAfter(c: Core, steps: seq<Step>): Table { ApplyAll(View(c), Writes(steps)) }

  predicate LastCall(steps: seq<Step>, t: nat, p: int) {
    && 0 <= p < |steps| && steps[p].Call? && steps[p].thread == t
    && forall q :: p < q < |steps| ==> !(steps[q].Call? && steps[q].thread == t)
  }

  /** `steps[j]` is a section of the thread, behind its call at `p`, and `m` the map of the writes before it. */
  predicate EndsAt(c: Core, steps: seq<Step>, t: nat, p: int, j: int, m: Table) {
    && 0 <= p < j < |steps| && (steps[j] == ReadSection(t) || steps[j] == WriteSection(t))
    && m == TableAfter(c, steps[..j])
  }

  /**
   The thread is on the query of its last call. If it has returned, it did so at a section
   of its own behind that call, and its answer is accounted for by the map of exactly the
   writes before that section.
   */
  ghost predicate Traced(env: Env, c: Core, steps: seq<Step>, past: seq<Core>, t: nat, th: Thread) {
    exists p ::
      && LastCall(steps, t, p) && steps[p] == Call(t, th.query, th.params) && |th.query| == c.dim
      && (th.Returned? ==>
           exists j, m ::
             && EndsAt(c, steps, t, p, j, m)
             && th.at < |past| && View(past[th.at]) == m
             && Accounted(env, ShapeOf(c), m, th.query, th.params, th.result))
  }

  predicate DatedBy(c: Core, steps: seq<Step>, d: Core, j: int) {
    0 <= j <= |steps| && View(d) == TableAfter(c, steps[..j])
  }

  /** A state of the core from after some of the steps: it holds the map of the writes among them. */
  ghost predicate Dated(c: Core, steps: seq<Step>, d: Core) { exists j :: DatedBy(c, steps, d, j) }

  ghost predicate Follows(env: Env, c: Core, steps: seq<Step>, s: Shared) {
    && s.past != []
    && View(Now(s)) == TableAfter(c, steps) && ShapeOf(Now(s)) == ShapeOf(c)
    && (forall i :: 0 <= i < |s.past| ==> Dated(c, steps, s.past[i]))
    && (forall t :: t in s.threads ==> Traced(env, c, steps, s.past, t, s.threads[t]))
  }

  lemma DatedGrows(c: Core, steps: seq<Step>, step: Step, d: Core)
    requires Dated(c, steps, d)
    ensures Dated(c, steps + [step], d)
  {
    hide TableAfter, View;
    var j :| DatedBy(c, steps, d, j);
    assert (steps + [step])[..j] == steps[..j];
    assert DatedBy(c, steps + [step], d, j);
  }

  lemma TracedGrows(
    env: Env, c: Core, steps: seq<Step>, step: Step, past: seq<Core>, more: seq<Core>, t: nat, th: Thread)
    requires Traced(env, c, steps, past, t, th) && !(step.Call? && step.thread == t)
    ensures Traced(env, c, steps + [step], past + more, t, th)
  {
    hide TableAfter, View, Accounted;
    var after := steps + [step];
    var p :| LastCall(steps, t, p) && steps[p] == Call(t, th.query, th.params)
             && (th.Returned? ==>
                  exists j, m ::
                    && EndsAt(c, steps, t, p, j, m)
                    && th.at < |past| && View(past[th.at]) == m
                    && Accounted(env, ShapeOf(c), m, th.query, th.params, th.result));
    assert LastCall(after, t, p);
    if th.Returned? {
      var j, m :| EndsAt(c, steps, t, p, j, m) && th.at < |past| && View(past[th.at]) == m
                  && Accounted(env, ShapeOf(c), m, th.query, th.params, th.result);
      assert after[..j] == steps[..j];
      assert EndsAt(c, after, t, p, j, m);
      assert (past + more)[th.at] == past[th.at];
    }
  }

  lemma TableGrows(c: Core, steps: seq<Step>, step: Step)
    ensures TableAfter(c, steps + [step])
            == if step.Write? then Apply(TableAfter(c, steps), step.record) else TableAfter(c, steps)
  {
    assert (steps + [step])[..|steps|] == steps;
    if step.Write? {
      var w := Writes(steps);
      assert (w + [step.record])[..|w|] == w;
    }
  }

  /** The new state, if there is one, is dated by all the steps. */
  lemma StatesDated(c: Core, steps: seq<Step>, step: Step, past: seq<Core>, now: seq<Core>)
    requires forall i :: 0 <= i < |past| ==> Dated(c, steps, past[i])
    requires |now| <= 1 && forall d :: d in now ==> View(d) == TableAfter(c, steps + [step])
    ensures forall i :: 0 <= i < |past + now| ==> Dated(c, steps + [step], (past + now)[i])
  {
    hide TableAfter, View;
    var after := steps + [step];
    forall i | 0 <= i < |past + now| ensures Dated(c, after, (past + now)[i]) {
      if i < |past| {
        DatedGrows(c, steps, step, past[i]);
      } else {
        assert after[..|after|] == after && now[0] in now;
        assert DatedBy(c, after, now[0], |after|);
      }
    }
  }

  lemma CallFollows(env: Env, c: Core, steps: seq<Step>, s: Shared, step: Step)
    requires Inv(env, s) && Follows(env, c, steps, s) && step.Call? && Next(env, s, step).Some?
    ensures Follows(env, c, steps + [step], Next(env, s, step).value)
  {
    hide TableAfter, View, Accounted, Inv, Dated;
    var Call(t, query, params) := step;
    var u, after := Next(env, s, step).value, steps + [step];
    TableGrows(c, steps, step);
    StatesDated(c, steps, step, s.past, []);
    assert s.past + [] == s.past;
    assert LastCall(after, t, |steps|) && after[|steps|] == step;
    assert Traced(env, c, after, u.past, t, u.threads[t]);
    forall v | v in u.threads && v != t ensures Traced(env, c, after, u.past, v, u.threads[v]) {
      TracedGrows(env, c, steps, step, s.past, [], v, s.threads[v]);
    }
  }

  /** A section traces its own thread. */
  lemma SectionTraced(env: Env, c: Core, steps: seq<Step>, s: Shared, step: Step)
    requires Inv(env, s) && Follows(env, c, steps, s) && (step.ReadSection? || step.WriteSection?)
    requires Next(env, s, step).Some?
    ensures var u := Next(env, s, step).value;
            Traced(env, c, steps + [step], u.past, step.thread, u.threads[step.thread])
  {
    hide TableAfter, View, Accounted, Sound, Answer, UnderRead, UnderWrite;
    var t, after := step.thread, steps + [step];
    var th, d, u := s.threads[t], Now(s), Next(env, s, step).value;
    SectionEffect(env, s, t);
    assert Traced(env, c, steps, s.past, t, th);
    var p :| LastCall(steps, t, p) && steps[p] == Call(t, th.query, th.params) && |th.query| == c.dim;
    assert LastCall(after, t, p);
    if u.threads[t].Returned? {
      AskStep(env, d, th.query, th.params);
      AskIsAccounted(env, d, th.query, th.params);
      assert after[..|steps|] == steps && after[|steps|] == step;
      assert EndsAt(c, after, t, p, |steps|, View(d));
      assert u.past[u.threads[t].at] == d;
    }
  }

  lemma SectionFollows(env: Env, c: Core, steps: seq<Step>, s: Shared, step: Step)
    requires Inv(env, s) && Follows(env, c, steps, s) && (step.ReadSection? || step.WriteSection?)
    requires Next(env, s, step).Some?
    ensures Follows(env, c, steps + [step], Next(env, s, step).value)
  {
    hide TableAfter, View, Accounted, Sound, Answer, UnderRead, UnderWrite, Traced, Dated;
    var t, u := step.thread, Next(env, s, step).value;
    SectionEffect(env, s, t);
    SectionTraced(env, c, steps, s, step);
    TableGrows(c, steps, step);
    var now := if u.past == s.past then [] else [Now(u)];
    assert u.past == s.past + now;
    StatesDated(c, steps, step, s.past, now);
    forall v | v in u.threads && v != t ensures Traced(env, c, steps + [step], u.past, v, u.threads[v]) {
      TracedGrows(env, c, steps, step, s.past, now, v, s.threads[v]);
    }
  }

  lemma WriteFollows(env: Env, c: Core, steps: seq<Step>, s: Shared, step: Step)
    requires Inv(env, s) && Follows(env, c, steps, s) && (step.Write? || step.Rebuild?)
    requires Next(env, s, step).Some?
    ensures Follows(env, c, steps + [step], Next(env, s, step).value)
  {
    hide TableAfter, View, Accounted, Sound, ApplyToCore, Optimize, Traced, Apply, Dated;
    var d, u := Now(s), Next(env, s, step).value;
    TableGrows(c, steps, step);
    if step.Write? { ApplyStep(env, d, step.record); } else { OptimizeView(env, d); }
    assert u.past == s.past + [Now(u)];
    StatesDated(c, steps, step, s.past, [Now(u)]);
    forall v | v in u.threads ensures Traced(env, c, steps + [step], u.past, v, u.threads[v]) {
      TracedGrows(env, c, steps, step, s.past, [Now(u)], v, s.threads[v]);
    }
  }

  lemma OptimizeView(env: Env, c: Core)
    requires Sound(env, c)
    ensures View(Optimize(env, c).0) == View(c) && ShapeOf(Optimize(env, c).0) == ShapeOf(c)
  {
    hide Sound, Optimize;
    OptimizeStep(env, c);
  }

  lemma {:induction false} RunFollows(env: Env, c: Core, steps: seq<Step>)
    requires Sound(env, c) && Run(env, Shared([c], map[]), steps).Some?
    ensures Inv(env, Run(env, Shared([c], map[]), steps).value)
    ensures Follows(env, c, steps, Run(env, Shared([c], map[]), steps).value)
    decreases |steps|
  {
    hide Next, Sound, View, Traced;
    var start := Shared([c], map[]);
    RunKeeps(env, start, steps);
    if steps == [] {
      assert steps[..0] == [] && TableAfter(c, []) == View(c);
      assert DatedBy(c, steps, c, 0);
    } else {
      var front, step := steps[..|steps| - 1], steps[|steps| - 1];
      RunFollows(env, c, front);
      RunKeeps(env, start, front);
      var s := Run(env, start, front).value;
      assert front + [step] == steps;
      match step
      case Call(_, _, _) => CallFollows(env, c, front, s, step);
      case ReadSection(_) => SectionFollows(env, c, front, s, step);
      case WriteSection(_) => SectionFollows(env, c, front, s, step);
      case Write(_) => WriteFollows(env, c, front, s, step);
      case Rebuild => WriteFollows(env, c, front, s, step);
    }
  }

  /**
   No search misses a write. Whatever the interleaving, every state that the database went
   through is the plain map of the writes taken until then, in order; and a search that
   returned was answered at a section of its own thread behind its last call, with an
   answer that the map of exactly the writes before that section accounts for.
   */
  lemma SearchesSeeWrites(env: Env, c: Core, steps: seq<Step>)
    requires Sound(env, c) && Run(env, Shared([c], map[]), steps).Some?
    ensures var s := Run(env, Shared([c], map[]), steps).value;
            && View(Now(s)) == ApplyAll(View(c), Writes(steps))
            && (forall i :: 0 <= i < |s.past| ==> Dated(c, steps, s.past[i]))
            && (forall t :: t in s.threads ==> Traced(env, c, steps, s.past, t, s.threads[t]))
  {
    hide Sound, Run, Traced, View, Dated;
    RunFollows(env, c, steps);
  }

  /** A search with nobody else about is answered, in one section or two, as it would be sequentially. */
  lemma LoneSearch(env: Env, c: Core, t: nat, query: seq<f32>, params: SearchParams)
    requires Sound(env, c) && |query| == c.dim
    ensures var short := [Call(t, query, params), ReadSection(t)];
            var steps := if c.rows != [] && c.dirty then short + [WriteSection(t)] else short;
            var r := Run(env, Shared([c], map[]), steps);
            && r.Some? && t in r.value.threads && r.value.threads[t].Returned?
            && r.value.threads[t].result == Answer(env, c, query, params)
  {
    hide Sound, Answer, UnderRead, UnderWrite, Inv;
    var s0 := Shared([c], map[]);
    var s1 := s0.(threads := map[t := Called(query, params, 0)]);
    var short := [Call(t, query, params), ReadSection(t)];
    assert Inv(env, s0) by { AloneInv(env, c); }
    assert short[..1] == [short[0]] && short[..1][..0] == [];
    assert Run(env, s0, short[..1]) == Some(s1);
    StepKeeps(env, s0, short[0]);
    SectionEffect(env, s1, t);
    var s2 := UnderRead(env, s1, t, s1.threads[t]);
    assert Run(env, s0, short) == Some(s2);
    if c.rows != [] && c.dirty {
      var long := short + [WriteSection(t)];
      StepKeeps(env, s1, ReadSection(t));
      SectionEffect(env, s2, t);
      WaitingChangesNothing(env, s1, t);
      assert long[..2] == short;
      assert Run(env, s0, long) == Some(UnderWrite(env, s2, t, s2.threads[t]));
    }
  }

  lemma AloneInv(env: Env, c: Core)
    requires Sound(env, c)
    ensures Inv(env, Shared([c], map[]))
  {
  }

  lemma WaitingChangesNothing(env: Env, s: Shared, t: nat)
    requires s.past != [] && t in s.threads && s.threads[t].Called? && Now(s).rows != [] && Now(s).dirty
    ensures UnderRead(env, s, t, s.threads[t]).past == s.past
  {
  }
}
