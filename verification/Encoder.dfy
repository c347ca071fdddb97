/** The encoder over a mutable writer, and what its output means when it stops early. */
module Encoder {
  import opened Wrappers
  import opened Bytes
  import opened Types
  import opened PayloadFormat
  import opened PayloadReadBack
  import opened PayloadLocality
  import opened PayloadLayout

  /** A writer that accepts `limit` bytes in all and fails on the write that would exceed them. */
  class Writer {
    const limit: nat
    var buf: seq<byte>

    predicate Valid() reads this { |buf| <= limit }

    constructor (limit: nat)
      ensures Valid() && buf == [] && this.limit == limit
    {
      this.limit := limit;
      buf := [];
    }

    method WriteAll(bytes: seq<byte>) returns (st: Status)
      requires Valid()
      modifies this
      ensures Valid() && (buf, st) == Emit(old(buf), limit, Raw(bytes))
    {
      var room := limit - |buf|;
      if |bytes| <= room {
        buf, st := buf + bytes, Done;
      } else {
        assert buf + bytes[..room] == (buf + bytes)[..limit];
        buf, st := buf + bytes[..room], Failed(Io);
      }
    }
  }

  /** The buffer and outcome after `w` is written behind `buf` with `limit` bytes in all. */
  function Emit(buf: seq<byte>, limit: nat, w: Written): (r: (seq<byte>, Status))
    requires |buf| <= limit
    ensures |r.0| <= limit
  {
    var full := buf + w.bytes;
    if |full| <= limit then (full, w.status) else (full[..limit], Failed(Io))
  }

  lemma EmitThen(buf: seq<byte>, limit: nat, a: Written, b: Written)
    requires |buf| <= limit
    ensures var first := Emit(buf, limit, a);
            Emit(buf, limit, a.Then(b)) == if first.1.Failed? then first else Emit(first.0, limit, b)
  {
    if a.status.Done? {
      var both := buf + (a.bytes + b.bytes);
      assert both == (buf + a.bytes) + b.bytes;
      if |buf + a.bytes| > limit { assert both[..limit] == (buf + a.bytes)[..limit]; }
    }
  }

  lemma EmitGrows(buf: seq<byte>, limit: nat, w: Written)
    requires |buf| <= limit
    ensures |buf| <= |Emit(buf, limit, w).0|
  {
  }

  lemma EmitNothing(buf: seq<byte>, limit: nat)
    requires |buf| <= limit
    ensures Emit(buf, limit, Raw([])) == (buf, Done)
  {
    assert buf + [] == buf;
  }

  method EncodeU32(w: Writer, n: nat, what: Reason) returns (st: Status)
    requires w.Valid()
    modifies w
    ensures w.Valid() && (w.buf, st) == Emit(old(w.buf), w.limit, EncU32(n, what))
    ensures st.Done? ==> U32At(w.buf, |old(w.buf)|, n) && |w.buf| == |old(w.buf)| + 4
  {
    if n >= 0x1_0000_0000 {
      assert w.buf + [] == w.buf;
      return Failed(InvalidPayload(what));
    }
    ghost var before := w.buf;
    st := w.WriteAll(Le(n, 4));
    if st.Done? {
      assert w.buf[|before|..|before| + 4] == Le(n, 4);
      Spelled32(w.buf, |before|, n);
    }
  }

  method EncodeU64(w: Writer, n: nat, what: Reason) returns (st: Status)
    requires w.Valid()
    modifies w
    ensures w.Valid() && (w.buf, st) == Emit(old(w.buf), w.limit, EncU64(n, what))
    ensures st.Done? ==> U64At(w.buf, |old(w.buf)|, n) && |w.buf| == |old(w.buf)| + 8
  {
    if n >= 0x1_0000_0000_0000_0000 {
      assert w.buf + [] == w.buf;
      return Failed(InvalidPayload(what));
    }
    ghost var before := w.buf;
    st := w.WriteAll(Le(n, 8));
    if st.Done? {
      assert w.buf[|before|..|before| + 8] == Le(n, 8);
      Spelled64(w.buf, |before|, n);
    }
  }

  method EncodeStr(w: Writer, s: Text) returns (st: Status)
    requires w.Valid()
    modifies w
    ensures w.Valid() && (w.buf, st) == Emit(old(w.buf), w.limit, EncStr(s))
  {
    hide Emit;
    EmitThen(w.buf, w.limit, EncU32(|s|, StringLength), Raw(s));
    st := EncodeU32(w, |s|, StringLength);
    if st.Failed? { return; }
    st := w.WriteAll(s);
  }

  method EncodeValue(w: Writer, value: Value) returns (st: Status)
    requires w.Valid()
    modifies w
    ensures w.Valid() && (w.buf, st) == Emit(old(w.buf), w.limit, EncValue(value))
  {
    hide Emit, EncStr, Le;
    match value
    case String(s) =>
      EmitThen(w.buf, w.limit, Raw([0]), EncStr(s));
      st := w.WriteAll([0]);
      if st.Failed? { return; }
      st := EncodeStr(w, s);
    case Int(i) =>
      EmitThen(w.buf, w.limit, Raw([1]), Raw(Le(ToTwos(i), 8)));
      st := w.WriteAll([1]);
      if st.Failed? { return; }
      st := w.WriteAll(Le(ToTwos(i), 8));
    case Float(f) =>
      EmitThen(w.buf, w.limit, Raw([2]), Raw(Le(f, 8)));
      st := w.WriteAll([2]);
      if st.Failed? { return; }
      st := w.WriteAll(Le(f, 8));
    case Bool(b) =>
      EmitThen(w.buf, w.limit, Raw([3]), Raw([Flag(b)]));
      st := w.WriteAll([3]);
      if st.Failed? { return; }
      st := w.WriteAll([Flag(b)]);
    case Null =>
      st := w.WriteAll([4]);
  }

  method EncodeEntry(w: Writer, e: Entry) returns (st: Status)
    requires w.Valid()
    modifies w
    ensures w.Valid() && (w.buf, st) == Emit(old(w.buf), w.limit, EncEntry(e))
  {
    hide Emit, EncStr, EncValue;
    EmitThen(w.buf, w.limit, EncStr(e.key), EncValue(e.value));
    st := EncodeStr(w, e.key);
    if st.Failed? { return; }
    st := EncodeValue(w, e.value);
  }

  method EncodeMeta(w: Writer, meta: Option<Metadata>) returns (st: Status)
    requires w.Valid()
    modifies w
    ensures w.Valid() && (w.buf, st) == Emit(old(w.buf), w.limit, EncMeta(meta))
  {
    hide Emit, EncEntry, EncU32;
    match meta
    case None => st := w.WriteAll([0]);
    case Some(m) =>
      EmitThen(w.buf, w.limit, Raw([1]), EncU32(|m|, MetadataEntries).Then(EncEntries(m)));
      st := w.WriteAll([1]);
      if st.Failed? { return; }
      EmitThen(w.buf, w.limit, EncU32(|m|, MetadataEntries), EncEntries(m));
      st := EncodeU32(w, |m|, MetadataEntries);
      if st.Failed? { return; }
      ghost var start := w.buf;
      for k := 0 to |m|
        invariant w.Valid() && st == Done
        invariant Emit(start, w.limit, EncEntries(m)) == Emit(w.buf, w.limit, EncEntries(m[k..]))
      {
        assert m[k..][0] == m[k] && m[k..][1..] == m[k + 1..];
        EmitThen(w.buf, w.limit, EncEntry(m[k]), EncEntries(m[k + 1..]));
        st := EncodeEntry(w, m[k]);
        if st.Failed? { return; }
      }
      EmitNothing(w.buf, w.limit);
  }

  method EncodeId(w: Writer, id: VectorId) returns (st: Status)
    requires w.Valid()
    modifies w
    ensures w.Valid() && (w.buf, st) == Emit(old(w.buf), w.limit, EncId(id))
  {
    hide Emit, Le, EncU32;
    match id
    case U64(n) =>
      EmitThen(w.buf, w.limit, Raw([0]), Raw(Le(n, 8)));
      st := w.WriteAll([0]);
      if st.Failed? { return; }
      st := w.WriteAll(Le(n, 8));
    case Bytes(bytes) =>
      EmitThen(w.buf, w.limit, Raw([1]), EncU32(|bytes|, IdBytesLen).Then(Raw(bytes)));
      st := w.WriteAll([1]);
      if st.Failed? { return; }
      EmitThen(w.buf, w.limit, EncU32(|bytes|, IdBytesLen), Raw(bytes));
      st := EncodeU32(w, |bytes|, IdBytesLen);
      if st.Failed? { return; }
      st := w.WriteAll(bytes);
  }

  method EncodeU64s(w: Writer, fields: seq<u64>) returns (st: Status)
    requires w.Valid()
    modifies w
    ensures w.Valid() && (w.buf, st) == Emit(old(w.buf), w.limit, Raw(EncU64s(fields)))
  {
    hide Emit, Le;
    st := Done;
    for k := 0 to |fields|
      invariant w.Valid() && st == Done
      invariant Emit(old(w.buf), w.limit, Raw(EncU64s(fields))) == Emit(w.buf, w.limit, Raw(EncU64s(fields[k..])))
    {
      assert fields[k..][0] == fields[k] && fields[k..][1..] == fields[k + 1..];
      EmitThen(w.buf, w.limit, Raw(Le(fields[k], 8)), Raw(EncU64s(fields[k + 1..])));
      st := w.WriteAll(Le(fields[k], 8));
      if st.Failed? { return; }
    }
    EmitNothing(w.buf, w.limit);
  }

  method EncodeKind(w: Writer, kind: IndexKind) returns (st: Status)
    requires w.Valid()
    modifies w
    ensures w.Valid() && (w.buf, st) == Emit(old(w.buf), w.limit, Raw(EncKind(kind)))
  {
    hide Emit, Le, EncU64s, EncOption;
    match kind
    case Flat => st := w.WriteAll([0]);
    case Hnsw(c) =>
      var fields := [c.m, c.efConstruction, c.efSearch, c.filterWiden, c.seed];
      EmitThen(w.buf, w.limit, Raw([1]), Raw(EncU64s(fields)));
      st := w.WriteAll([1]);
      if st.Failed? { return; }
      st := EncodeU64s(w, fields);
    case Ivf(c) =>
      var fields := [c.nClusters, c.nProbes, c.trainingSampleSize];
      var sub, refine, seed := EncOption(c.pqSubvectors), Le(c.pqRefineFactor, 4), Le(c.seed, 8);
      EmitThen(w.buf, w.limit, Raw([2]), Raw(EncU64s(fields) + ([Flag(c.usePq)] + (sub + (refine + seed)))));
      st := w.WriteAll([2]);
      if st.Failed? { return; }
      EmitThen(w.buf, w.limit, Raw(EncU64s(fields)), Raw([Flag(c.usePq)] + (sub + (refine + seed))));
      st := EncodeU64s(w, fields);
      if st.Failed? { return; }
      EmitThen(w.buf, w.limit, Raw([Flag(c.usePq)]), Raw(sub + (refine + seed)));
      st := w.WriteAll([Flag(c.usePq)]);
      if st.Failed? { return; }
      EmitThen(w.buf, w.limit, Raw(sub), Raw(refine + seed));
      st := EncodeOption(w, c.pqSubvectors);
      if st.Failed? { return; }
      EmitThen(w.buf, w.limit, Raw(refine), Raw(seed));
      st := w.WriteAll(refine);
      if st.Failed? { return; }
      st := w.WriteAll(seed);
  }

  method EncodeOption(w: Writer, o: Option<u64>) returns (st: Status)
    requires w.Valid()
    modifies w
    ensures w.Valid() && (w.buf, st) == Emit(old(w.buf), w.limit, Raw(EncOption(o)))
  {
    hide Emit, Le;
    match o
    case Some(m) =>
      EmitThen(w.buf, w.limit, Raw([1]), Raw(Le(m, 8)));
      st := w.WriteAll([1]);
      if st.Failed? { return; }
      st := w.WriteAll(Le(m, 8));
    case None => st := w.WriteAll([0]);
  }

  method EncodeRow(w: Writer, row: Row) returns (st: Status)
    requires w.Valid()
    modifies w
    ensures w.Valid() && (w.buf, st) == Emit(old(w.buf), w.limit, EncRow(row))
  {
    hide Emit, Le, EncId, EncMeta;
    var v := row.vector;
    EmitThen(w.buf, w.limit, EncId(row.id), Raw(EncComponents(v)).Then(EncMeta(row.meta)));
    st := EncodeId(w, row.id);
    if st.Failed? { return; }
    EmitThen(w.buf, w.limit, Raw(EncComponents(v)), EncMeta(row.meta));
    ghost var start := w.buf;
    for k := 0 to |v|
      invariant w.Valid() && st == Done
      invariant Emit(start, w.limit, Raw(EncComponents(v))) == Emit(w.buf, w.limit, Raw(EncComponents(v[k..])))
    {
      assert v[k..][0] == v[k] && v[k..][1..] == v[k + 1..];
      EmitThen(w.buf, w.limit, Raw(Le(v[k], 4)), Raw(EncComponents(v[k + 1..])));
      st := w.WriteAll(Le(v[k], 4));
      if st.Failed? { return; }
    }
    EmitNothing(w.buf, w.limit);
    st := EncodeMeta(w, row.meta);
  }

  method EncodeMetric(w: Writer, metric: DistanceMetric) returns (st: Status)
    requires w.Valid()
    modifies w
    ensures w.Valid() && (w.buf, st) == Emit(old(w.buf), w.limit, EncMetric(metric))
  {
    match metric
    case Cosine => st := w.WriteAll([0]);
    case DotProduct => st := w.WriteAll([1]);
    case Euclidean => st := w.WriteAll([2]);
    case Manhattan => st := w.WriteAll([3]);
    case Hamming => st := w.WriteAll([4]);
    case Other(_) => assert w.buf + [] == w.buf; st := Failed(UnsupportedMetric(metric));
  }

  /**
   What this leaves in the writer, finished or cut short, is decoded to exactly the payload
   or not decoded at all, provided every vector has `dim` components: the bytes of a vector
   do not say how long it is.
   */
  method Encode(w: Writer, kind: IndexKind, dim: nat, metric: DistanceMetric, rows: seq<Row>) returns (st: Status)
    requires w.Valid()
    modifies w
    ensures w.Valid() && (w.buf, st) == Emit(old(w.buf), w.limit, EncPayload(kind, dim, metric, rows))
    ensures |old(w.buf)| <= |w.buf|
    ensures st.Done? ==> IsPayload(w.buf[|old(w.buf)|..], kind, dim, metric, rows)
    ensures AllDim(rows, dim) ==> (ParsePayload(w.buf, |old(w.buf)|).Ok? <==> st.Done? && AllStorable(rows))
    ensures AllDim(rows, dim) && ParsePayload(w.buf, |old(w.buf)|).Ok? ==>
      ParsePayload(w.buf, |old(w.buf)|) == Ok(Payload(kind, dim, metric, rows), |w.buf|)
  {
    hide EncPayload, IsPayload;
    if AllDim(rows, dim) { EncodedIsAllOrNothing(w.buf, w.limit, kind, dim, metric, rows); }
    ghost var before := w.buf;
    st := EncodeFields(w, kind, dim, metric, rows);
    if st.Done? {
      assert w.buf[|before|..] == EncPayload(kind, dim, metric, rows).bytes;
      EncodedIsLayout(kind, dim, metric, rows, w.buf[|before|..]);
    }
  }

  method EncodeFields(w: Writer, kind: IndexKind, dim: nat, metric: DistanceMetric, rows: seq<Row>) returns (st: Status)
    requires w.Valid()
    modifies w
    ensures w.Valid() && (w.buf, st) == Emit(old(w.buf), w.limit, EncPayload(kind, dim, metric, rows))
    ensures |old(w.buf)| <= |w.buf|
  {
    EmitGrows(w.buf, w.limit, EncPayload(kind, dim, metric, rows));
    hide Emit, Le, EncU64, EncKind, EncMetric, EncRows, U64At;
    ghost var wCount := EncU64(|rows|, NRows);
    ghost var fromMetric := EncMetric(metric).Then(wCount.Then(EncRows(rows)));
    ghost var fromKind := Raw(EncKind(kind)).Then(EncU64(dim, Dim).Then(fromMetric));
    EmitThen(w.buf, w.limit, Raw(MAGIC), Raw(Le(VERSION, 4)).Then(fromKind));
    st := w.WriteAll(MAGIC);
    if st.Failed? { return; }
    EmitThen(w.buf, w.limit, Raw(Le(VERSION, 4)), fromKind);
    st := w.WriteAll(Le(VERSION, 4));
    if st.Failed? { return; }
    EmitThen(w.buf, w.limit, Raw(EncKind(kind)), EncU64(dim, Dim).Then(fromMetric));
    st := EncodeKind(w, kind);
    if st.Failed? { return; }
    EmitThen(w.buf, w.limit, EncU64(dim, Dim), fromMetric);
    st := EncodeU64(w, dim, Dim);
    if st.Failed? { return; }
    EmitThen(w.buf, w.limit, EncMetric(metric), wCount.Then(EncRows(rows)));
    st := EncodeMetric(w, metric);
    if st.Failed? { return; }
    EmitThen(w.buf, w.limit, wCount, EncRows(rows));
    st := EncodeU64(w, |rows|, NRows);
    if st.Failed? { return; }
    st := EncodeRows(w, rows);
  }

  /** The row loop. */
  method EncodeRows(w: Writer, rows: seq<Row>) returns (st: Status)
    requires w.Valid()
    modifies w
    ensures w.Valid() && (w.buf, st) == Emit(old(w.buf), w.limit, EncRows(rows))
  {
    hide Emit, EncRow;
    st := Done;
    for k := 0 to |rows|
      invariant w.Valid() && st == Done
      invariant Emit(old(w.buf), w.limit, EncRows(rows)) == Emit(w.buf, w.limit, EncRows(rows[k..]))
    {
      assert rows[k..][0] == rows[k] && rows[k..][1..] == rows[k + 1..];
      EmitThen(w.buf, w.limit, EncRow(rows[k]), EncRows(rows[k + 1..]));
      st := EncodeRow(w, rows[k]);
      if st.Failed? { return; }
    }
    EmitNothing(w.buf, w.limit);
  }

  /**
   Whatever made the encoder stop - an oversized length, an unsupported metric, a writer
   that ran full at any byte - what it left behind is rejected. When it finished, its output
   is accepted exactly when no id is an empty key, and then it gives the payload back.
   */
  lemma EncodedIsAllOrNothing(
    pre: seq<byte>, limit: nat, kind: IndexKind, dim: nat, metric: DistanceMetric, rows: seq<Row>)
    requires |pre| <= limit && AllDim(rows, dim)
    ensures var (buf, st) := Emit(pre, limit, EncPayload(kind, dim, metric, rows));
            |pre| <= |buf| &&
            if st.Done? && AllStorable(rows)
            then ParsePayload(buf, |pre|) == Ok(Payload(kind, dim, metric, rows), |buf|)
            else ParsePayload(buf, |pre|).Err?
  {
    hide EncPayload, ParsePayload, At, AllDim, AllStorable;
    var w := EncPayload(kind, dim, metric, rows);
    var full := pre + w.bytes;
    var (buf, st) := Emit(pre, limit, w);
    AtWindow(full, |pre|, w.bytes);
    ReadsPayload(full, |pre|, kind, dim, metric, rows);
    if |full| > limit && ParsePayload(buf, |pre|).Ok? {
      LocalPayload(buf, full, |pre|);
    }
  }

  /** Every proper prefix of an encoding is rejected. */
  lemma TruncationRejected(kind: IndexKind, dim: nat, metric: DistanceMetric, rows: seq<Row>, cut: nat)
    requires AllDim(rows, dim) && cut < |EncPayload(kind, dim, metric, rows).bytes|
    ensures ParsePayload(EncPayload(kind, dim, metric, rows).bytes[..cut], 0).Err?
  {
    hide EncPayload, ParsePayload, AllDim;
    var bytes := EncPayload(kind, dim, metric, rows).bytes;
    EncodedIsAllOrNothing([], cut, kind, dim, metric, rows);
    assert [] + bytes == bytes;
  }
}
