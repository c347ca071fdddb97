/** Saving and loading the core: what comes back, what is normalized, and how an index is rebuilt. */
module CorePersistence {
  import opened Wrappers
  import opened Bytes
  import opened Types
  import opened PayloadFormat
  import opened PayloadReadBack
  import opened PayloadNormal
  import opened RowStore
  import opened AnyIndex
  import opened CoreState
  import opened CoreSteps

  // -- Loading row by row ------------------------------------------------------

  lemma {:induction false} RowsConcat(a: seq<Row>, b: seq<Row>)
    ensures var wa, wb, w := EncRows(a), EncRows(b), EncRows(a + b);
            && (w.status.Done? <==> wa.status.Done? && wb.status.Done?)
            && (w.status.Done? ==> |w.bytes| == |wa.bytes| + |wb.bytes|)
  {
    hide EncRow;
    if a == [] {
      assert a + b == b;
    } else {
      RowsConcat(a[1..], b);
      RowsCons(a[0], a[1..]);
      RowsCons(a[0], a[1..] + b);
      assert [a[0]] + a[1..] == a && [a[0]] + (a[1..] + b) == a + b;
    }
  }

  lemma ReplaceWithin(front: seq<Row>, gone: Row, row: Row, back: seq<Row>)
    requires EncRows(front + ([gone] + back)).status.Done? && EncRows([row]).status.Done?
    ensures Within(EncRows(front + ([row] + back)), |EncRows(front + ([gone] + back)).bytes| + |EncRows([row]).bytes|)
  {
    hide EncRows;
    RowsConcat(front, [gone] + back);
    RowsConcat([gone], back);
    RowsConcat(front, [row] + back);
    RowsConcat([row], back);
  }

  /** A replaced row gives its bytes back. */
  lemma UpsertWithin(rows: seq<Row>, row: Row)
    requires EncRows(rows).status.Done? && EncRows([row]).status.Done?
    ensures Within(EncRows(UpsertRows(rows, row)), |EncRows(rows).bytes| + |EncRows([row]).bytes|)
  {
    hide EncRows, Position;
    var p := Position(rows, row.id);
    if p == |rows| {
      RowsConcat(rows, [row]);
    } else {
      assert rows == rows[..p] + ([rows[p]] + rows[p + 1..]);
      assert rows[p := row] == rows[..p] + ([row] + rows[p + 1..]);
      ReplaceWithin(rows[..p], rows[p], row, rows[p + 1..]);
    }
  }

  lemma {:induction false} DeduplicateShape(rows: seq<Row>, dim: nat)
    requires AllDim(rows, dim)
    ensures Distinct(Deduplicate(rows)) && AllDim(Deduplicate(rows), dim)
    ensures |Deduplicate(rows)| <= |rows|
    ensures AllStorable(rows) ==> AllStorable(Deduplicate(rows))
  {
    hide Position;
    if rows == [] {
    } else {
      var front, last := rows[..|rows| - 1], rows[|rows| - 1];
      DeduplicateShape(front, dim);
      UpsertDistinct(Deduplicate(front), last);
      UpsertDim(Deduplicate(front), last, dim);
    }
  }

  lemma {:induction false} DeduplicateWithin(rows: seq<Row>)
    requires EncRows(rows).status.Done?
    ensures Within(EncRows(Deduplicate(rows)), |EncRows(rows).bytes|)
  {
    hide EncRows, UpsertRows;
    if rows == [] {
    } else {
      var front, last := rows[..|rows| - 1], rows[|rows| - 1];
      assert rows == front + [last];
      RowsConcat(front, [last]);
      DeduplicateWithin(front);
      UpsertWithin(Deduplicate(front), last);
    }
  }

  /** Rows that are already distinct are loaded as they are, in order. */
  lemma {:induction false} DeduplicateDistinct(rows: seq<Row>)
    requires Distinct(rows)
    ensures Deduplicate(rows) == rows
  {
    hide Position;
    if rows == [] {
    } else {
      var front, last := rows[..|rows| - 1], rows[|rows| - 1];
      DeduplicateDistinct(front);
      assert Position(front, last.id) == |front|;
      assert front + [last] == rows;
    }
  }

  /** The last row with the id. */
  predicate LastAt(rows: seq<Row>, k: int, id: VectorId) {
    0 <= k < |rows| && rows[k].id == id && forall j :: k < j < |rows| ==> rows[j].id != id
  }

  /** Of several rows with one id the last one is loaded, and an id without a row is not. */
  lemma {:induction false} DeduplicateLastWins(rows: seq<Row>, id: VectorId)
    ensures Distinct(Deduplicate(rows))
    ensures forall k :: LastAt(rows, k, id) ==> Find(Contents(Deduplicate(rows)), id) == Some(Of(rows[k]))
    ensures (forall k :: !LastAt(rows, k, id)) ==> Find(Contents(Deduplicate(rows)), id) == None
  {
    hide Position, Contents, UpsertRows;
    if rows == [] {
      Lookup(Deduplicate(rows), id);
    } else {
      var front, last := rows[..|rows| - 1], rows[|rows| - 1];
      DeduplicateLastWins(front, id);
      UpsertDistinct(Deduplicate(front), last);
      UpsertIsUpdate(Deduplicate(front), last);
      if id == last.id {
        assert LastAt(rows, |rows| - 1, id);
      } else {
        forall k ensures LastAt(rows, k, id) <==> LastAt(front, k, id) {}
      }
    }
  }

  /** Ids are loaded in the order of their first rows. */
  lemma {:induction false} DeduplicateFirstOrder(rows: seq<Row>, x: VectorId, y: VectorId)
    ensures Position(Deduplicate(rows), x) < |Deduplicate(rows)| <==> Position(rows, x) < |rows|
    ensures Position(rows, x) < |rows| && Position(rows, y) < |rows| ==>
              (Position(Deduplicate(rows), x) < Position(Deduplicate(rows), y)
               <==> Position(rows, x) < Position(rows, y))
  {
    hide Position;
    if rows == [] {
    } else {
      var front, last := rows[..|rows| - 1], rows[|rows| - 1];
      assert rows == front + [last];
      DeduplicateFirstOrder(front, x, y);
      DeduplicateFirstOrder(front, y, x);
      DeduplicateFirstOrder(front, last.id, x);
      UpsertPosition(Deduplicate(front), last, x);
      UpsertPosition(Deduplicate(front), last, y);
      AppendPosition(front, last, x);
      AppendPosition(front, last, y);
    }
  }

  lemma AppendPosition(rows: seq<Row>, row: Row, x: VectorId)
    ensures Position(rows + [row], x)
            == if Position(rows, x) < |rows| then Position(rows, x) else if x == row.id then |rows| else |rows| + 1
  {
    hide Position;
    var all, p, q := rows + [row], Position(rows, x), Position(rows + [row], x);
    assert all[|rows|] == row && forall k :: 0 <= k < |rows| ==> all[k] == rows[k];
    if p < |rows| { assert all[p].id == x; }
    if q < |rows| { assert rows[q].id == x; }
  }

  lemma UpsertPosition(rows: seq<Row>, row: Row, x: VectorId)
    ensures Position(UpsertRows(rows, row), x) ==
            if Position(rows, x) < |rows| then Position(rows, x)
            else if x == row.id then |rows| else |UpsertRows(rows, row)|
  {
    hide Position;
    var p := Position(rows, row.id);
    if p == |rows| {
      AppendPosition(rows, row, x);
    } else {
      var after, q := rows[p := row], Position(rows, x);
      assert forall k :: 0 <= k < |rows| ==> after[k].id == rows[k].id;
      if q < |rows| { assert after[q].id == x; }
      if Position(after, x) < |rows| { assert rows[Position(after, x)].id == x; }
    }
  }

  /** Loading decoded rows fails only when the index constructor refuses; the result is sound. */
  lemma FromPayloadStep(env: Env, p: Payload)
    requires AllDim(p.rows, p.dim)
    ensures var r := FromPayload(env, p);
            && (r.Failure? <==> p.dim == 0 || !env.accepts(p.kind, p.dim, p.metric))
            && (r.Failure? ==> r.error == Refused(InvalidConfig))
            && (r.Success? ==>
                 && r.value.layer.index.sample == None
                 && Sound(env, r.value) && r.value.rows == Deduplicate(p.rows)
                 && r.value.kind == p.kind && r.value.dim == p.dim && r.value.metric == p.metric
                 && r.value.cacheCfg == None && (r.value.dirty <==> p.kind.Ivf?)
                 && (!p.kind.Ivf? ==> r.value.layer.index.Rows() == r.value.rows))
  {
    hide IndexSearch, BuildInto, Contents, Distinct, Deduplicate;
    DeduplicateShape(p.rows, p.dim);
    var rows := Deduplicate(p.rows);
    var empty := Index(p.kind, p.dim, p.metric, None, []);
    assert empty.Rows() + rows == rows;
    if !p.kind.Ivf? { BuildSucceeds(empty, rows); }
  }

  /** Loading fails as parsing fails, or because the index is refused; it loads the last row of each id. */
  lemma LoadOutcome(env: Env, bytes: seq<byte>, id: VectorId)
    ensures var p, r := ParsePayload(bytes, 0), Load(env, bytes);
            && (p.Err? ==> r == Failure(Persist(p.error)))
            && (p.Ok? ==>
                 if p.value.dim == 0 || !env.accepts(p.value.kind, p.value.dim, p.value.metric)
                 then r == Failure(Refused(InvalidConfig)) else r.Success?)
            && (r.Success? ==>
                 && ShapeOf(r.value) == Shape(p.value.kind, p.value.dim, p.value.metric)
                 && (forall k :: LastAt(p.value.rows, k, id) ==> Find(View(r.value), id) == Some(Of(p.value.rows[k])))
                 && ((forall k :: !LastAt(p.value.rows, k, id)) ==> Find(View(r.value), id) == None))
  {
    hide ParsePayload, Contents, Distinct, IndexSearch, FromPayload, Deduplicate, AllDim, AllStorable, EncRows;
    if ParsePayload(bytes, 0).Ok? {
      ParsedRows(bytes);
      FromPayloadStep(env, ParsePayload(bytes, 0).value);
      DeduplicateLastWins(ParsePayload(bytes, 0).value.rows, id);
    }
  }

  // -- Round trips ---------------------------------------------------------------

  /**
   For every payload that encodes, whatever its rows: decoding gives it back exactly when
   each vector has `dim` components and no id is an empty key.
   */
  lemma RoundTripIff(kind: IndexKind, dim: nat, metric: DistanceMetric, rows: seq<Row>)
    requires EncPayload(kind, dim, metric, rows).status.Done?
    ensures var bytes := EncPayload(kind, dim, metric, rows).bytes;
            (ParsePayload(bytes, 0) == Ok(Payload(kind, dim, metric, rows), |bytes|))
            <==> (AllDim(rows, dim) && AllStorable(rows))
  {
    hide At, EncPayload, ParsePayload, AllDim, AllStorable;
    var bytes := EncPayload(kind, dim, metric, rows).bytes;
    if ParsePayload(bytes, 0).Ok? { ParsedRows(bytes); }
    if AllDim(rows, dim) {
      AtWindow(bytes, 0, bytes);
      assert bytes[0..|bytes|] == bytes;
      ReadsPayload(bytes, 0, kind, dim, metric, rows);
    }
  }

  /**
   A saved core loads again exactly when no id is an empty key, and comes back with the same
   kind, parameters, dimension, metric and row sequence. The stored rows decide, not the
   index, so an IVF core that was never materialized comes back in full.
   */
  lemma SaveThenLoad(env: Env, c: Core)
    requires Sound(env, c) && Save(c).status.Done? && New(env, c.kind, c.dim, c.metric).Success?
    ensures var r := Load(env, Save(c).bytes);
            && (r.Success? <==> AllStorable(c.rows))
            && (r.Success? ==>
                 && r.value.rows == c.rows && ShapeOf(r.value) == ShapeOf(c)
                 && Sound(env, r.value) && r.value.cacheCfg == None
                 && (!c.kind.Ivf? ==> r.value.layer.index.Rows() == c.rows))
  {
    hide At, EncPayload, ParsePayload, FromPayload, AllDim, AllStorable, Distinct, Contents, IndexSearch;
    var bytes := Save(c).bytes;
    AtWindow(bytes, 0, bytes);
    assert bytes[0..|bytes|] == bytes;
    ReadsPayload(bytes, 0, c.kind, c.dim, c.metric, c.rows);
    if AllStorable(c.rows) {
      FromPayloadStep(env, Payload(c.kind, c.dim, c.metric, c.rows));
      DeduplicateDistinct(c.rows);
    }
  }

  /**
   Loading normalizes. Any accepted input, canonical or not, yields a core that saves in at
   most the bytes consumed and loads back to the very same state.
   */
  lemma LoadNormalizes(env: Env, bytes: seq<byte>)
    requires Load(env, bytes).Success?
    ensures var c := Load(env, bytes).value;
            && Sound(env, c)
            && Within(Save(c), ParsePayload(bytes, 0).next)
            && Load(env, Save(c).bytes) == Success(c)
  {
    hide At, EncPayload, EncRows, AllDim, AllStorable, Distinct, Contents, IndexSearch, FromPayload, Deduplicate;
    var p := ParsePayload(bytes, 0).value;
    ParsedRows(bytes);
    FromPayloadStep(env, p);
    var c := Load(env, bytes).value;
    DeduplicateShape(p.rows, p.dim);
    DeduplicateWithin(p.rows);
    FitsPayload(bytes, 0, c.rows);
    var again := Save(c).bytes;
    AtWindow(again, 0, again);
    assert again[0..|again|] == again;
    ReadsPayload(again, 0, c.kind, c.dim, c.metric, c.rows);
    DeduplicateDistinct(c.rows);
    FromPayloadSameRows(env, p, c.rows);
  }

  lemma FromPayloadSameRows(env: Env, p: Payload, rows: seq<Row>)
    requires Deduplicate(p.rows) == Deduplicate(rows)
    ensures FromPayload(env, p) == FromPayload(env, p.(rows := rows))
  {
  }

  /** What every decoded payload satisfies. */
  lemma ParsedRows(bytes: seq<byte>)
    requires ParsePayload(bytes, 0).Ok?
    ensures var p := ParsePayload(bytes, 0).value;
            AllDim(p.rows, p.dim) && AllStorable(p.rows) && EncRows(p.rows).status.Done?
  {
    hide ParseHeader, ParseKind, ParseU64, ParseMetric, ParseRows, EncRows, AllStorable;
    var j := ParseKind(bytes, 8).next;
    var n, dim := ParseU64(bytes, j + 9).value, ParseU64(bytes, j).value;
    ParsedStorable(bytes, j + 17, n, dim);
    FitsRows(bytes, j + 17, n, dim);
  }

  /**
   A non-empty IVF database is rebuilt to the same index by `optimize` in place and by the
   first materialization after a save and a load: same parameters, same training sample,
   same insertion sequence - and both fail together.
   */
  lemma RebuildIsDeterministic(env: Env, c: Core)
    requires Sound(env, c) && c.kind.Ivf? && c.rows != []
    requires Save(c).status.Done? && Load(env, Save(c).bytes).Success?
    ensures var (live, r) := Optimize(env, c);
            var (reloaded, q) := EnsureReady(env, Load(env, Save(c).bytes).value);
            r == q && (r.Success? ==> live.layer.index == reloaded.layer.index)
  {
    hide EncPayload, Rebuilt, Contents, Distinct, IndexSearch, AllStorable;
    assert New(env, c.kind, c.dim, c.metric).Success? by { LoadedIsAccepted(env, c); }
    SaveThenLoad(env, c);
    LoadedIvfIsDirty(env, Save(c).bytes);
  }

  lemma LoadedIsAccepted(env: Env, c: Core)
    requires Sound(env, c) && Save(c).status.Done? && Load(env, Save(c).bytes).Success?
    ensures New(env, c.kind, c.dim, c.metric).Success?
  {
    hide At, EncPayload, ParsePayload, AllDim, AllStorable, Distinct, Contents, IndexSearch;
    var bytes := Save(c).bytes;
    AtWindow(bytes, 0, bytes);
    assert bytes[0..|bytes|] == bytes;
    ReadsPayload(bytes, 0, c.kind, c.dim, c.metric, c.rows);
  }

  lemma LoadedIvfIsDirty(env: Env, bytes: seq<byte>)
    requires Load(env, bytes).Success?
    ensures Load(env, bytes).value.dirty <==> Load(env, bytes).value.kind.Ivf?
  {
    hide ParsePayload, BuildInto, Deduplicate;
  }
}
