/**
 The documented byte layout, stated field by field and without the encoder or the parser:
 which bytes stand for a payload. The encoder writes exactly those, and one complete file is
 spelled out.
 */
module PayloadLayout {
  import opened Wrappers
  import opened Bytes
  import opened Types
  import opened PayloadFormat

  // -- The layout --------------------------------------------------------------------

  predicate IsStr(b: seq<byte>, s: Text) { |b| == 4 + |s| && U32At(b, 0, |s|) && b[4..] == s }

  predicate IsValue(b: seq<byte>, v: Value) {
    match v
    case String(s) => b != [] && b[0] == 0 && IsStr(b[1..], s)
    case Int(i) => |b| == 9 && b[0] == 1 && U64At(b, 1, i % 0x1_0000_0000_0000_0000)
    case Float(f) => |b| == 9 && b[0] == 2 && U64At(b, 1, f)
    case Bool(t) => b == [3, if t then 1 else 0]
    case Null => b == [4]
  }

  predicate IsEntry(b: seq<byte>, e: Entry) {
    var n := 4 + |e.key|;
    n <= |b| && IsStr(b[..n], e.key) && IsValue(b[n..], e.value)
  }

  predicate IsEntries(b: seq<byte>, m: seq<Entry>)
    decreases |m|
  {
    if m == [] then b == []
    else exists n :: 0 <= n <= |b| && IsEntry(b[..n], m[0]) && IsEntries(b[n..], m[1..])
  }

  predicate IsMeta(b: seq<byte>, meta: Option<seq<Entry>>) {
    match meta
    case None => b == [0]
    case Some(m) => |b| >= 5 && b[0] == 1 && U32At(b, 1, |m|) && IsEntries(b[5..], m)
  }

  predicate IsId(b: seq<byte>, id: VectorId) {
    match id
    case U64(n) => |b| == 9 && b[0] == 0 && U64At(b, 1, n)
    case Bytes(key) => |b| == 5 + |key| && b[0] == 1 && U32At(b, 1, |key|) && b[5..] == key
  }

  /** The components follow each other without a count. */
  predicate AreComponents(b: seq<byte>, v: seq<f32>) {
    |b| == 4 * |v| && forall k :: 0 <= k < |v| ==> U32At(b, 4 * k, v[k])
  }

  predicate IsRow(b: seq<byte>, row: Row) {
    var width := 4 * |row.vector|;
    exists n ::
      0 <= n <= |b| - width
      && IsId(b[..n], row.id) && AreComponents(b[n..n + width], row.vector) && IsMeta(b[n + width..], row.meta)
  }

  predicate IsRows(b: seq<byte>, rows: seq<Row>)
    decreases |rows|
  {
    if rows == [] then b == []
    else exists n :: 0 <= n <= |b| && IsRow(b[..n], rows[0]) && IsRows(b[n..], rows[1..])
  }

  predicate IsKind(b: seq<byte>, kind: IndexKind) {
    match kind
    case Flat => b == [0]
    case Hnsw(c) =>
      && |b| == 41 && b[0] == 1
      && U64At(b, 1, c.m) && U64At(b, 9, c.efConstruction) && U64At(b, 17, c.efSearch)
      && U64At(b, 25, c.filterWiden) && U64At(b, 33, c.seed)
    case Ivf(c) =>
      var rest := if c.pqSubvectors.Some? then 35 else 27;
      && |b| == rest + 12 && b[0] == 2
      && U64At(b, 1, c.nClusters) && U64At(b, 9, c.nProbes) && U64At(b, 17, c.trainingSampleSize)
      && b[25] == (if c.usePq then 1 else 0)
      && b[26] == (if c.pqSubvectors.Some? then 1 else 0)
      && (c.pqSubvectors.Some? ==> U64At(b, 27, c.pqSubvectors.value))
      && U32At(b, rest, c.pqRefineFactor) && U64At(b, rest + 4, c.seed)
  }

  predicate IsMetric(b: byte, metric: DistanceMetric) {
    match metric
    case Cosine => b == 0
    case DotProduct => b == 1
    case Euclidean => b == 2
    case Manhattan => b == 3
    case Hamming => b == 4
    case Other(_) => false
  }

  /** "IQDC", version 1, the index kind, the dimension, the metric, the number of rows, the rows. */
  predicate IsPayload(b: seq<byte>, kind: IndexKind, dim: nat, metric: DistanceMetric, rows: seq<Row>) {
    exists n ::
      8 <= n <= |b| - 17
      && b[..8] == [0x49, 0x51, 0x44, 0x43, 0x01, 0x00, 0x00, 0x00]
      && IsKind(b[8..n], kind)
      && U64At(b, n, dim)
      && IsMetric(b[n + 8], metric)
      && U64At(b, n + 9, |rows|)
      && IsRows(b[n + 17..], rows)
  }

  // -- What the encoder writes ---------------------------------------------------------

  /** `w` finished and wrote `b`. */
  predicate Wrote(w: Written, b: seq<byte>) { w.status.Done? && w.bytes == b }

  lemma WroteThen(a: Written, c: Written, b: seq<byte>)
    ensures Wrote(a.Then(c), b) <==> exists n :: 0 <= n <= |b| && Wrote(a, b[..n]) && Wrote(c, b[n..])
  {
    if Wrote(a.Then(c), b) {
      var n := |a.bytes|;
      assert b[..n] == a.bytes && b[n..] == c.bytes;
    }
    if n :| 0 <= n <= |b| && Wrote(a, b[..n]) && Wrote(c, b[n..]) { assert b == b[..n] + b[n..]; }
  }

  /** The same with a first part of known length. */
  lemma WroteAfter(a: Written, c: Written, b: seq<byte>)
    requires a.status.Done?
    ensures Wrote(a.Then(c), b) <==> |a.bytes| <= |b| && b[..|a.bytes|] == a.bytes && Wrote(c, b[|a.bytes|..])
  {
    WroteThen(a, c, b);
  }

  lemma Spelled32(b: seq<byte>, i: nat, n: int)
    ensures U32At(b, i, n) <==> i + 4 <= |b| && 0 <= n < 0x1_0000_0000 && b[i..i + 4] == Le(n, 4)
  {
    if i + 4 <= |b| {
      var w := b[i..i + 4];
      assert U32At(b, i, n) <==> U32At(w, 0, n);
      if n >= 0 { LeSpelled(n); }
    }
  }

  lemma Spelled64(b: seq<byte>, i: nat, n: int)
    ensures U64At(b, i, n) <==> i + 8 <= |b| && 0 <= n < 0x1_0000_0000_0000_0000 && b[i..i + 8] == Le(n, 8)
  {
    if i + 8 <= |b| {
      var w := b[i..i + 8];
      assert U64At(b, i, n) <==> U64At(w, 0, n);
      if n >= 0 { LeSpelled(n); }
    }
  }

  lemma StrWritten(s: Text, b: seq<byte>)
    ensures Wrote(EncStr(s), b) <==> IsStr(b, s)
  {
    hide IsUtf8, Le, U32At;
    Spelled32(b, 0, |s|);
    if |s| < 0x1_0000_0000 { WroteAfter(EncU32(|s|, StringLength), Raw(s), b); }
  }

  lemma ValueWritten(v: Value, b: seq<byte>)
    ensures Wrote(EncValue(v), b) <==> IsValue(b, v)
  {
    hide IsUtf8, Le, U64At, EncStr, IsStr;
    match v
    case String(s) =>
      WroteAfter(Raw([0]), EncStr(s), b);
      if b != [] { StrWritten(s, b[1..]); }
    case Int(i) =>
      WroteAfter(Raw([1]), Raw(Le(ToTwos(i), 8)), b);
      TwosIsModular(i);
      Spelled64(b, 1, ToTwos(i));
    case Float(f) =>
      WroteAfter(Raw([2]), Raw(Le(f, 8)), b);
      Spelled64(b, 1, f);
    case Bool(t) => WroteAfter(Raw([3]), Raw([Flag(t)]), b);
    case Null =>
  }

  lemma EntryWritten(e: Entry, b: seq<byte>)
    ensures Wrote(EncEntry(e), b) <==> IsEntry(b, e)
  {
    hide IsUtf8, EncStr, EncValue, IsValue;
    WroteThen(EncStr(e.key), EncValue(e.value), b);
    forall n | 0 <= n <= |b|
      ensures Wrote(EncStr(e.key), b[..n]) <==> IsStr(b[..n], e.key)
      ensures Wrote(EncValue(e.value), b[n..]) <==> IsValue(b[n..], e.value)
    {
      StrWritten(e.key, b[..n]);
      ValueWritten(e.value, b[n..]);
    }
  }

  lemma {:induction false} EntriesWritten(m: seq<Entry>, b: seq<byte>)
    ensures Wrote(EncEntries(m), b) <==> IsEntries(b, m)
    decreases |m|
  {
    hide EncEntry, IsEntry;
    if m == [] {
    } else {
      WroteThen(EncEntry(m[0]), EncEntries(m[1..]), b);
      forall n | 0 <= n <= |b|
        ensures Wrote(EncEntry(m[0]), b[..n]) <==> IsEntry(b[..n], m[0])
        ensures Wrote(EncEntries(m[1..]), b[n..]) <==> IsEntries(b[n..], m[1..])
      {
        EntryWritten(m[0], b[..n]);
        EntriesWritten(m[1..], b[n..]);
      }
    }
  }

  lemma MetaWritten(meta: Option<Metadata>, b: seq<byte>)
    ensures Wrote(EncMeta(meta), b) <==> IsMeta(b, meta)
  {
    hide Le, U32At, EncEntries, IsEntries;
    match meta
    case None =>
    case Some(m) =>
      Spelled32(b, 1, |m|);
      var count := EncU32(|m|, MetadataEntries);
      WroteAfter(Raw([1]), count.Then(EncEntries(m)), b);
      if b != [] && count.status.Done? {
        WroteAfter(count, EncEntries(m), b[1..]);
        if |b| >= 5 {
          assert b[1..][..4] == b[1..5] && b[1..][4..] == b[5..];
          EntriesWritten(m, b[5..]);
        }
      }
  }

  lemma IdWritten(id: VectorId, b: seq<byte>)
    ensures Wrote(EncId(id), b) <==> IsId(b, id)
  {
    hide Le, U32At, U64At;
    match id
    case U64(n) =>
      Spelled64(b, 1, n);
      WroteAfter(Raw([0]), Raw(Le(n, 8)), b);
    case Bytes(key) =>
      Spelled32(b, 1, |key|);
      var len := EncU32(|key|, IdBytesLen);
      WroteAfter(Raw([1]), len.Then(Raw(key)), b);
      if b != [] && len.status.Done? {
        WroteAfter(len, Raw(key), b[1..]);
        if |b| >= 5 { assert b[1..][..4] == b[1..5] && b[1..][4..] == b[5..]; }
      }
  }

  lemma {:induction false} ComponentsWritten(v: seq<f32>, b: seq<byte>)
    ensures b == EncComponents(v) <==> AreComponents(b, v)
    decreases |v|
  {
    hide Le, U32At;
    if v == [] {
    } else if |b| == 4 * |v| {
      var rest := b[4..];
      ComponentsWritten(v[1..], rest);
      Spelled32(b, 0, v[0]);
      assert b == b[..4] + rest;
      forall k | 1 <= k < |v| ensures U32At(b, 4 * k, v[k]) <==> U32At(rest, 4 * (k - 1), v[1..][k - 1]) {
        Spelled32(b, 4 * k, v[k]);
        Spelled32(rest, 4 * (k - 1), v[k]);
        assert b[4 * k..4 * k + 4] == rest[4 * (k - 1)..4 * (k - 1) + 4];
      }
    }
  }

  lemma RowWritten(row: Row, b: seq<byte>)
    ensures Wrote(EncRow(row), b) <==> IsRow(b, row)
  {
    hide EncId, IsId, EncComponents, AreComponents, EncMeta, IsMeta;
    var vector, meta := Raw(EncComponents(row.vector)), EncMeta(row.meta);
    var width := 4 * |row.vector|;
    WroteThen(EncId(row.id), vector.Then(meta), b);
    forall n | 0 <= n <= |b|
      ensures Wrote(EncId(row.id), b[..n]) <==> IsId(b[..n], row.id)
      ensures Wrote(vector.Then(meta), b[n..]) <==>
              n + width <= |b| && AreComponents(b[n..n + width], row.vector) && IsMeta(b[n + width..], row.meta)
    {
      IdWritten(row.id, b[..n]);
      WroteAfter(vector, meta, b[n..]);
      if n + width <= |b| {
        assert b[n..][..width] == b[n..n + width] && b[n..][width..] == b[n + width..];
        ComponentsWritten(row.vector, b[n..n + width]);
        MetaWritten(row.meta, b[n + width..]);
      }
    }
  }

  lemma {:induction false} RowsWritten(rows: seq<Row>, b: seq<byte>)
    ensures Wrote(EncRows(rows), b) <==> IsRows(b, rows)
    decreases |rows|
  {
    hide EncRow, IsRow;
    if rows == [] {
    } else {
      WroteThen(EncRow(rows[0]), EncRows(rows[1..]), b);
      forall n | 0 <= n <= |b|
        ensures Wrote(EncRow(rows[0]), b[..n]) <==> IsRow(b[..n], rows[0])
        ensures Wrote(EncRows(rows[1..]), b[n..]) <==> IsRows(b[n..], rows[1..])
      {
        RowWritten(rows[0], b[..n]);
        RowsWritten(rows[1..], b[n..]);
      }
    }
  }

  lemma {:induction false} FieldsWritten(fields: seq<u64>, b: seq<byte>)
    ensures b == EncU64s(fields) <==>
            |b| == 8 * |fields| && forall k :: 0 <= k < |fields| ==> U64At(b, 8 * k, fields[k])
    decreases |fields|
  {
    hide Le, U64At;
    if fields == [] {
    } else if |b| == 8 * |fields| {
      var rest := b[8..];
      FieldsWritten(fields[1..], rest);
      Spelled64(b, 0, fields[0]);
      assert b == b[..8] + rest;
      forall k | 1 <= k < |fields|
        ensures U64At(b, 8 * k, fields[k]) <==> U64At(rest, 8 * (k - 1), fields[1..][k - 1])
      {
        Spelled64(b, 8 * k, fields[k]);
        Spelled64(rest, 8 * (k - 1), fields[k]);
        assert b[8 * k..8 * k + 8] == rest[8 * (k - 1)..8 * (k - 1) + 8];
      }
    }
  }

  lemma FieldsAt(b: seq<byte>, from: nat, fields: seq<u64>)
    requires from + 8 * |fields| <= |b|
    ensures b[from..from + 8 * |fields|] == EncU64s(fields)
            <==> forall k :: 0 <= k < |fields| ==> U64At(b, from + 8 * k, fields[k])
  {
    hide Le, U64At, EncU64s;
    var w := b[from..from + 8 * |fields|];
    FieldsWritten(fields, w);
    forall k | 0 <= k < |fields| ensures U64At(w, 8 * k, fields[k]) <==> U64At(b, from + 8 * k, fields[k]) {
      Window64(b, from, from + 8 * |fields|, 8 * k, fields[k]);
    }
  }

  lemma Window64(b: seq<byte>, lo: nat, hi: nat, i: nat, n: int)
    requires lo <= hi <= |b| && i + 8 <= hi - lo
    ensures U64At(b[lo..hi], i, n) <==> U64At(b, lo + i, n)
  {
  }

  lemma Five(b: seq<byte>, from: nat, f: seq<u64>)
    requires |f| == 5 && from + 40 <= |b|
    ensures b[from..from + 40] == EncU64s(f) <==>
            && U64At(b, from, f[0]) && U64At(b, from + 8, f[1]) && U64At(b, from + 16, f[2])
            && U64At(b, from + 24, f[3]) && U64At(b, from + 32, f[4])
  {
    hide U64At, EncU64s;
    FieldsAt(b, from, f);
    assert f[0] in f && f[1] in f && f[2] in f && f[3] in f && f[4] in f;
  }

  lemma Three(b: seq<byte>, from: nat, f: seq<u64>)
    requires |f| == 3 && from + 24 <= |b|
    ensures b[from..from + 24] == EncU64s(f) <==>
            U64At(b, from, f[0]) && U64At(b, from + 8, f[1]) && U64At(b, from + 16, f[2])
  {
    hide U64At, EncU64s;
    FieldsAt(b, from, f);
    assert f[0] in f && f[1] in f && f[2] in f;
  }

  lemma HnswWritten(c: HnswConfig, b: seq<byte>)
    ensures b == EncKind(Hnsw(c)) <==> IsKind(b, Hnsw(c))
  {
    hide Le, U64At, EncU64s;
    if |b| == 41 {
      Five(b, 1, [c.m, c.efConstruction, c.efSearch, c.filterWiden, c.seed]);
      assert b == [b[0]] + b[1..41];
    }
  }

  lemma OptionWritten(o: Option<u64>, b: seq<byte>)
    ensures b == EncOption(o) <==>
            match o
            case Some(m) => |b| == 9 && b[0] == 1 && U64At(b, 1, m)
            case None => b == [0]
  {
    hide Le, U64At;
    if o.Some? && |b| == 9 {
      Spelled64(b, 1, o.value);
      assert b == [b[0]] + b[1..9];
    }
  }

  lemma IvfWritten(c: IvfConfig, b: seq<byte>)
    ensures b == EncKind(Ivf(c)) <==> IsKind(b, Ivf(c))
  {
    hide Le, U32At, U64At, EncU64s, EncOption;
    var rest := if c.pqSubvectors.Some? then 35 else 27;
    OptionWritten(c.pqSubvectors, EncOption(c.pqSubvectors));
    if |b| == rest + 12 {
      Three(b, 1, [c.nClusters, c.nProbes, c.trainingSampleSize]);
      var o := b[26..rest];
      OptionWritten(c.pqSubvectors, o);
      if c.pqSubvectors.Some? {
        Spelled64(b, 27, c.pqSubvectors.value);
        Spelled64(o, 1, c.pqSubvectors.value);
        assert o[1..9] == b[27..35];
      }
      Spelled32(b, rest, c.pqRefineFactor);
      Spelled64(b, rest + 4, c.seed);
      assert b == [b[0]] + (b[1..25] + ([b[25]] + (o + (b[rest..rest + 4] + b[rest + 4..rest + 12]))));
      IvfParts(c, b[0], b[1..25], b[25], o, b[rest..rest + 4], b[rest + 4..rest + 12]);
    }
  }

  lemma IvfParts(c: IvfConfig, tag: byte, f: seq<byte>, pq: byte, o: seq<byte>, refine: seq<byte>, seed: seq<byte>)
    requires |f| == 24 && |o| == |EncOption(c.pqSubvectors)| && |refine| == 4 && |seed| == 8
    ensures [tag] + (f + ([pq] + (o + (refine + seed)))) == EncKind(Ivf(c)) <==>
            && tag == 2 && f == EncU64s([c.nClusters, c.nProbes, c.trainingSampleSize]) && pq == Flag(c.usePq)
            && o == EncOption(c.pqSubvectors) && refine == Le(c.pqRefineFactor, 4) && seed == Le(c.seed, 8)
  {
    hide Le, EncU64s, EncOption;
    var g := EncU64s([c.nClusters, c.nProbes, c.trainingSampleSize]);
    var p := EncOption(c.pqSubvectors);
    var x, y := Le(c.pqRefineFactor, 4), Le(c.seed, 8);
    SameParts([tag], [2], f + ([pq] + (o + (refine + seed))), g + ([Flag(c.usePq)] + (p + (x + y))));
    SameParts(f, g, [pq] + (o + (refine + seed)), [Flag(c.usePq)] + (p + (x + y)));
    SameParts([pq], [Flag(c.usePq)], o + (refine + seed), p + (x + y));
    SameParts(o, p, refine + seed, x + y);
    SameParts(refine, x, seed, y);
  }

  lemma SameParts(a: seq<byte>, b: seq<byte>, c: seq<byte>, d: seq<byte>)
    requires |a| == |b|
    ensures a + c == b + d <==> a == b && c == d
  {
    if a + c == b + d {
      assert a == (a + c)[..|a|] && b == (b + d)[..|b|];
      assert c == (a + c)[|a|..] && d == (b + d)[|b|..];
    }
  }

  lemma KindWritten(kind: IndexKind, b: seq<byte>)
    ensures b == EncKind(kind) <==> IsKind(b, kind)
  {
    hide IsKind, EncKind;
    match kind
    case Flat => FlatWritten(b);
    case Hnsw(c) => HnswWritten(c, b);
    case Ivf(c) => IvfWritten(c, b);
  }

  lemma FlatWritten(b: seq<byte>)
    ensures b == EncKind(Flat) <==> IsKind(b, Flat)
  {
  }

  lemma MetricWritten(metric: DistanceMetric, b: seq<byte>)
    ensures Wrote(EncMetric(metric), b) <==> |b| == 1 && IsMetric(b[0], metric)
  {
  }

  /** The rows behind the count. */
  lemma BodyWritten(rows: seq<Row>, b: seq<byte>)
    ensures Wrote(EncU64(|rows|, NRows).Then(EncRows(rows)), b) <==>
            |b| >= 8 && U64At(b, 0, |rows|) && IsRows(b[8..], rows)
  {
    hide Le, U64At, EncRows, IsRows;
    Spelled64(b, 0, |rows|);
    if EncU64(|rows|, NRows).status.Done? {
      WroteAfter(EncU64(|rows|, NRows), EncRows(rows), b);
      if |b| >= 8 { RowsWritten(rows, b[8..]); }
    }
  }

  /** What follows the index kind. */
  lemma TailWritten(dim: nat, metric: DistanceMetric, rows: seq<Row>, b: seq<byte>)
    ensures Wrote(EncU64(dim, Dim).Then(EncMetric(metric).Then(EncU64(|rows|, NRows).Then(EncRows(rows)))), b) <==>
            |b| >= 17 && U64At(b, 0, dim) && IsMetric(b[8], metric) && U64At(b, 9, |rows|) && IsRows(b[17..], rows)
  {
    hide Le, U64At, EncRows, IsRows, EncMetric, IsMetric;
    var body := EncU64(|rows|, NRows).Then(EncRows(rows));
    Spelled64(b, 0, dim);
    if EncU64(dim, Dim).status.Done? && |b| >= 8 {
      var c := b[8..];
      WroteAfter(EncU64(dim, Dim), EncMetric(metric).Then(body), b);
      MetricThen(metric, body, c);
      if |c| >= 1 {
        assert c[1..] == b[9..];
        BodyWritten(rows, b[9..]);
        if |b| >= 17 {
          Spelled64(b, 9, |rows|);
          Spelled64(b[9..], 0, |rows|);
          assert b[9..][0..8] == b[9..17] && b[9..][8..] == b[17..];
        }
      }
    }
  }

  lemma MetricThen(metric: DistanceMetric, rest: Written, c: seq<byte>)
    ensures Wrote(EncMetric(metric).Then(rest), c) <==> |c| >= 1 && IsMetric(c[0], metric) && Wrote(rest, c[1..])
  {
    hide EncMetric, IsMetric;
    WroteThen(EncMetric(metric), rest, c);
    if |c| >= 1 { MetricWritten(metric, c[..1]); }
    forall n | 0 <= n <= |c| ensures Wrote(EncMetric(metric), c[..n]) <==> n == 1 && IsMetric(c[0], metric) {
      MetricWritten(metric, c[..n]);
    }
  }

  /**
   A payload is encoded to the bytes that the layout gives it, and to no others; and a
   payload that cannot be encoded has none.
   */
  lemma EncodedIsLayout(kind: IndexKind, dim: nat, metric: DistanceMetric, rows: seq<Row>, b: seq<byte>)
    ensures Wrote(EncPayload(kind, dim, metric, rows), b) <==> IsPayload(b, kind, dim, metric, rows)
  {
    hide Le, EncKind, IsKind, EncRows, IsRows, EncMetric, IsMetric, EncU64, U64At;
    var tail := EncU64(dim, Dim).Then(EncMetric(metric).Then(EncU64(|rows|, NRows).Then(EncRows(rows))));
    var k := EncKind(kind);
    WroteAfter(Raw(MAGIC), Raw(Le(VERSION, 4)).Then(Raw(k).Then(tail)), b);
    VersionWord();
    if |b| >= 8 {
      WroteAfter(Raw(Le(VERSION, 4)), Raw(k).Then(tail), b[4..]);
      assert b[4..][..4] == b[4..8] && b[4..][4..] == b[8..] && b[..8] == b[..4] + b[4..8];
      KindThen(kind, dim, metric, rows, b);
    }
  }

  /** Behind the header. */
  lemma KindThen(kind: IndexKind, dim: nat, metric: DistanceMetric, rows: seq<Row>, b: seq<byte>)
    requires |b| >= 8
    ensures var tail := EncU64(dim, Dim).Then(EncMetric(metric).Then(EncU64(|rows|, NRows).Then(EncRows(rows))));
            Wrote(Raw(EncKind(kind)).Then(tail), b[8..]) <==>
            exists n ::
              8 <= n <= |b| - 17 && IsKind(b[8..n], kind) && U64At(b, n, dim) && IsMetric(b[n + 8], metric)
              && U64At(b, n + 9, |rows|) && IsRows(b[n + 17..], rows)
  {
    hide Le, EncKind, IsKind, EncRows, IsRows, EncMetric, IsMetric, EncU64, U64At, Wrote;
    var tail := EncU64(dim, Dim).Then(EncMetric(metric).Then(EncU64(|rows|, NRows).Then(EncRows(rows))));
    var head, c := Raw(EncKind(kind)), b[8..];
    WroteThen(head, tail, c);
    if Wrote(head.Then(tail), c) {
      var i :| 0 <= i <= |c| && Wrote(head, c[..i]) && Wrote(tail, c[i..]);
      KindAt(kind, dim, metric, rows, b, i + 8);
      assert c[..i] == b[8..i + 8] && c[i..] == b[i + 8..];
    }
    if n :| 8 <= n <= |b| - 17 && IsKind(b[8..n], kind) && U64At(b, n, dim) && IsMetric(b[n + 8], metric)
            && U64At(b, n + 9, |rows|) && IsRows(b[n + 17..], rows)
    {
      KindAt(kind, dim, metric, rows, b, n);
      assert c[..n - 8] == b[8..n] && c[n - 8..] == b[n..];
    }
  }

  lemma KindAt(kind: IndexKind, dim: nat, metric: DistanceMetric, rows: seq<Row>, b: seq<byte>, n: nat)
    requires 8 <= n <= |b|
    ensures Wrote(Raw(EncKind(kind)), b[8..n]) <==> IsKind(b[8..n], kind)
    ensures Wrote(EncU64(dim, Dim).Then(EncMetric(metric).Then(EncU64(|rows|, NRows).Then(EncRows(rows)))), b[n..]) <==>
              && |b| >= n + 17 && U64At(b, n, dim) && IsMetric(b[n + 8], metric)
              && U64At(b, n + 9, |rows|) && IsRows(b[n + 17..], rows)
  {
    hide Le, EncKind, IsKind, EncRows, IsRows, EncMetric, IsMetric, EncU64, U64At;
    KindWritten(kind, b[8..n]);
    TailWritten(dim, metric, rows, b[n..]);
    TailAt(b, n, dim, |rows|);
  }

  lemma TailAt(b: seq<byte>, n: nat, dim: nat, count: nat)
    requires n <= |b|
    ensures U64At(b[n..], 0, dim) <==> U64At(b, n, dim)
    ensures U64At(b[n..], 9, count) <==> U64At(b, n + 9, count)
    ensures |b| >= n + 17 ==> b[n..][8] == b[n + 8] && b[n..][17..] == b[n + 17..]
  {
  }

  lemma VersionWord()
    ensures Le(VERSION, 4) == [0x01, 0x00, 0x00, 0x00]
  {
    LeSpelled(1);
    assert U32At([1, 0, 0, 0], 0, 1);
  }
}
