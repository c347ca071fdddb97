/**
 Reading back what was written. One lemma per encoder covers both outcomes: a finished
 encoding is parsed to the value it came from, and an encoding that stopped early leaves
 bytes that no parse accepts.
 */
module PayloadReadBack {
  import opened Wrappers
  import opened Bytes
  import opened Types
  import opened MetadataMap
  import opened PayloadFormat

  /** `w.bytes` stands at `i`; an unfinished encoding has nothing after it. */
  predicate Left(s: seq<byte>, i: nat, w: Written) {
    At(s, i, w.bytes) && (w.status.Failed? ==> |s| == i + |w.bytes|)
  }

  lemma LeftThen(s: seq<byte>, i: nat, a: Written, b: Written)
    requires Left(s, i, a.Then(b))
    ensures Left(s, i, a)
    ensures a.status.Done? ==> Left(s, i + |a.bytes|, b)
  {
    if a.status.Done? { AtConcat(s, i, a.bytes, b.bytes); }
  }

  lemma ReadsTag(s: seq<byte>, i: nat, tag: byte)
    requires At(s, i, [tag])
    ensures ParseU8(s, i) == Ok(tag, i + 1)
  {
  }

  lemma ReadsU32(s: seq<byte>, i: nat, n: nat, what: Reason)
    requires Left(s, i, EncU32(n, what))
    ensures ParseU32(s, i) == if n < 0x1_0000_0000 then Ok(n, i + 4) else Err(Io)
  {
    Widths();
    if n < 0x1_0000_0000 { FromLeOfLe(n, 4); AtWindow(s, i, Le(n, 4)); }
  }

  lemma ReadsU64(s: seq<byte>, i: nat, n: u64)
    requires At(s, i, Le(n, 8))
    ensures ParseU64(s, i) == Ok(n, i + 8)
  {
    Widths();
    FromLeOfLe(n, 8);
    AtWindow(s, i, Le(n, 8));
  }

  lemma ReadsCount(s: seq<byte>, i: nat, n: nat, what: Reason)
    requires Left(s, i, EncU64(n, what))
    ensures if EncU64(n, what).status.Done? then ParseU64(s, i) == Ok(n, i + 8) && |EncU64(n, what).bytes| == 8
            else ParseU64(s, i).Err?
  {
    if n < 0x1_0000_0000_0000_0000 { ReadsU64(s, i, n); }
  }

  lemma ReadsStr(s: seq<byte>, i: nat, t: Text)
    requires Left(s, i, EncStr(t))
    ensures if EncStr(t).status.Done? then ParseStr(s, i) == Ok(t, i + |EncStr(t).bytes|) else ParseStr(s, i).Err?
  {
    LeftThen(s, i, EncU32(|t|, StringLength), Raw(t));
    ReadsU32(s, i, |t|, StringLength);
    if |t| < 0x1_0000_0000 { AtWindow(s, i + 4, t); }
  }

  lemma ReadsValue(s: seq<byte>, i: nat, v: Value)
    requires Left(s, i, EncValue(v))
    ensures if EncValue(v).status.Done? then ParseValue(s, i) == Ok(v, i + |EncValue(v).bytes|)
            else ParseValue(s, i).Err?
  {
    hide Le, At, ParseU8, ParseU64, ParseStr, EncStr;
    match v
    case String(t) => LeftThen(s, i, Raw([0]), EncStr(t)); ReadsStr(s, i + 1, t); ReadsTag(s, i, 0);
    case Int(n) => LeftThen(s, i, Raw([1]), Raw(Le(ToTwos(n), 8))); ReadsU64(s, i + 1, ToTwos(n)); ReadsTag(s, i, 1);
    case Float(f) => LeftThen(s, i, Raw([2]), Raw(Le(f, 8))); ReadsU64(s, i + 1, f); ReadsTag(s, i, 2);
    case Bool(b) => LeftThen(s, i, Raw([3]), Raw([Flag(b)])); ReadsTag(s, i, 3); ReadsTag(s, i + 1, Flag(b));
    case Null => ReadsTag(s, i, 4);
  }

  lemma ReadsEntry(s: seq<byte>, i: nat, e: Entry)
    requires Left(s, i, EncEntry(e))
    ensures if EncEntry(e).status.Done? then ParseEntry(s, i) == Ok(e, i + |EncEntry(e).bytes|)
            else ParseEntry(s, i).Err?
  {
    hide At, EncStr, EncValue, ParseStr, ParseValue;
    LeftThen(s, i, EncStr(e.key), EncValue(e.value));
    ReadsStr(s, i, e.key);
    if EncStr(e.key).status.Done? { ReadsValue(s, i + |EncStr(e.key).bytes|, e.value); }
  }

  lemma {:induction false} ReadsEntries(s: seq<byte>, i: nat, m: seq<Entry>)
    requires Left(s, i, EncEntries(m))
    ensures if EncEntries(m).status.Done? then ParseEntries(s, i, |m|) == Ok(m, i + |EncEntries(m).bytes|)
            else ParseEntries(s, i, |m|).Err?
    decreases |m|
  {
    hide At, EncEntry, ParseEntry;
    if m == [] {
    } else {
      LeftThen(s, i, EncEntry(m[0]), EncEntries(m[1..]));
      ReadsEntry(s, i, m[0]);
      if EncEntry(m[0]).status.Done? {
        ReadsEntries(s, i + |EncEntry(m[0]).bytes|, m[1..]);
        assert m == [m[0]] + m[1..];
      }
    }
  }

  lemma ReadsMeta(s: seq<byte>, i: nat, meta: Option<Metadata>)
    requires Left(s, i, EncMeta(meta))
    ensures if EncMeta(meta).status.Done? then ParseMeta(s, i) == Ok(meta, i + |EncMeta(meta).bytes|)
            else ParseMeta(s, i).Err?
  {
    hide At, Le, ParseU8, ParseU32, EncEntries, ParseEntries, Collect;
    match meta
    case None => ReadsTag(s, i, 0);
    case Some(m) =>
      var count, entries := EncU32(|m|, MetadataEntries), EncEntries(m);
      LeftThen(s, i, Raw([1]), count.Then(entries));
      ReadsTag(s, i, 1);
      LeftThen(s, i + 1, count, entries);
      ReadsU32(s, i + 1, |m|, MetadataEntries);
      if count.status.Done? {
        ReadsEntries(s, i + 5, m);
        CollectAscending(m);
      }
  }

  /** An id reads back except for one encodable shape: the empty `Bytes` key. */
  lemma ReadsId(s: seq<byte>, i: nat, id: VectorId)
    requires Left(s, i, EncId(id))
    ensures if EncId(id).status.Done? && Storable(id) then ParseId(s, i) == Ok(id, i + |EncId(id).bytes|)
            else ParseId(s, i).Err?
  {
    hide Le, ParseU8, ParseU32, ParseU64;
    match id
    case U64(n) => LeftThen(s, i, Raw([0]), Raw(Le(n, 8))); ReadsU64(s, i + 1, n); ReadsTag(s, i, 0);
    case Bytes(b) =>
      var len := EncU32(|b|, IdBytesLen);
      LeftThen(s, i, Raw([1]), len.Then(Raw(b)));
      ReadsTag(s, i, 1);
      LeftThen(s, i + 1, len, Raw(b));
      ReadsU32(s, i + 1, |b|, IdBytesLen);
      if |b| < 0x1_0000_0000 { AtWindow(s, i + 5, b); }
  }

  lemma {:induction false} ReadsComponents(s: seq<byte>, i: nat, v: seq<f32>)
    requires At(s, i, EncComponents(v))
    ensures ParseComponents(s, i, |v|) == Ok(v, i + 4 * |v|)
    decreases |v|
  {
    hide Le, ParseU32;
    if v == [] {
    } else {
      AtConcat(s, i, Le(v[0], 4), EncComponents(v[1..]));
      ReadsU32(s, i, v[0], StringLength);
      ReadsComponents(s, i + 4, v[1..]);
      assert v == [v[0]] + v[1..];
    }
  }

  lemma ReadsRow(s: seq<byte>, i: nat, row: Row)
    requires Left(s, i, EncRow(row))
    ensures if EncRow(row).status.Done? && Storable(row.id)
            then ParseRow(s, i, |row.vector|) == Ok(row, i + |EncRow(row).bytes|)
            else ParseRow(s, i, |row.vector|).Err?
  {
    hide EncId, EncMeta, EncComponents, ParseId, ParseMeta, ParseComponents, At;
    var id, vector, meta := EncId(row.id), Raw(EncComponents(row.vector)), EncMeta(row.meta);
    LeftThen(s, i, id, vector.Then(meta));
    ReadsId(s, i, row.id);
    if id.status.Done? && Storable(row.id) {
      var j := i + |id.bytes|;
      LeftThen(s, j, vector, meta);
      ReadsComponents(s, j, row.vector);
      ReadsMeta(s, j + |vector.bytes|, row.meta);
    }
  }

  lemma {:induction false} ReadsRows(s: seq<byte>, i: nat, rows: seq<Row>, dim: nat)
    requires Left(s, i, EncRows(rows)) && AllDim(rows, dim)
    ensures if EncRows(rows).status.Done? && AllStorable(rows)
            then ParseRows(s, i, |rows|, dim) == Ok(rows, i + |EncRows(rows).bytes|)
            else ParseRows(s, i, |rows|, dim).Err?
    decreases |rows|
  {
    hide At, EncRow, ParseRow;
    if rows == [] {
    } else {
      assert rows[0] in rows;
      var first, rest := EncRow(rows[0]), EncRows(rows[1..]);
      LeftThen(s, i, first, rest);
      ReadsRow(s, i, rows[0]);
      if first.status.Done? && Storable(rows[0].id) {
        ReadsRows(s, i + |first.bytes|, rows[1..], dim);
        assert rows == [rows[0]] + rows[1..];
        assert AllStorable(rows) <==> AllStorable(rows[1..]) by {
          assert forall row :: row in rows <==> row == rows[0] || row in rows[1..];
        }
      }
    }
  }

  lemma {:induction false} ReadsU64s(s: seq<byte>, i: nat, f: seq<u64>)
    requires At(s, i, EncU64s(f))
    ensures ParseU64s(s, i, |f|) == Ok(f, i + 8 * |f|)
    decreases |f|
  {
    hide Le, ParseU64;
    if f == [] {
    } else {
      AtConcat(s, i, Le(f[0], 8), EncU64s(f[1..]));
      ReadsU64(s, i, f[0]);
      ReadsU64s(s, i + 8, f[1..]);
      assert f == [f[0]] + f[1..];
    }
  }

  lemma ReadsOption(s: seq<byte>, i: nat, o: Option<u64>)
    requires At(s, i, EncOption(o))
    ensures ParseOption(s, i) == Ok(o, i + |EncOption(o)|)
  {
    match o
    case None => ReadsTag(s, i, 0);
    case Some(m) => AtConcat(s, i, [1], Le(m, 8)); ReadsTag(s, i, 1); ReadsU64(s, i + 1, m);
  }

  lemma ReadsHnsw(s: seq<byte>, i: nat, c: HnswConfig)
    requires At(s, i, EncKind(Hnsw(c)))
    ensures ParseKind(s, i) == Ok(Hnsw(c), i + |EncKind(Hnsw(c))|)
  {
    hide At, EncU64s, ParseU8, ParseU64s;
    var f := [c.m, c.efConstruction, c.efSearch, c.filterWiden, c.seed];
    AtConcat(s, i, [1], EncU64s(f));
    ReadsTag(s, i, 1);
    ReadsU64s(s, i + 1, f);
  }

  lemma ReadsIvf(s: seq<byte>, i: nat, c: IvfConfig)
    requires At(s, i, EncKind(Ivf(c)))
    ensures ParseKind(s, i) == Ok(Ivf(c), i + |EncKind(Ivf(c))|)
  {
    hide At, Le, EncU64s, EncOption, ParseU8, ParseU32, ParseU64, ParseU64s, ParseOption;
    var f := [c.nClusters, c.nProbes, c.trainingSampleSize];
    var sub := EncOption(c.pqSubvectors);
    var tail := Le(c.pqRefineFactor, 4) + Le(c.seed, 8);
    var rest := [Flag(c.usePq)] + (sub + tail);
    AtConcat(s, i, [2], EncU64s(f) + rest);
    ReadsTag(s, i, 2);
    AtConcat(s, i + 1, EncU64s(f), rest);
    ReadsU64s(s, i + 1, f);
    AtConcat(s, i + 25, [Flag(c.usePq)], sub + tail);
    ReadsTag(s, i + 25, Flag(c.usePq));
    AtConcat(s, i + 26, sub, tail);
    ReadsOption(s, i + 26, c.pqSubvectors);
    var j := i + 26 + |sub|;
    AtConcat(s, j, Le(c.pqRefineFactor, 4), Le(c.seed, 8));
    ReadsU32(s, j, c.pqRefineFactor, StringLength);
    ReadsU64(s, j + 4, c.seed);
  }

  lemma ReadsKind(s: seq<byte>, i: nat, kind: IndexKind)
    requires At(s, i, EncKind(kind))
    ensures ParseKind(s, i) == Ok(kind, i + |EncKind(kind)|)
  {
    match kind
    case Flat => ReadsTag(s, i, 0);
    case Hnsw(c) => ReadsHnsw(s, i, c);
    case Ivf(c) => ReadsIvf(s, i, c);
  }

  lemma ReadsMetric(s: seq<byte>, i: nat, metric: DistanceMetric)
    requires Left(s, i, EncMetric(metric))
    ensures if EncMetric(metric).status.Done? then ParseMetric(s, i) == Ok(metric, i + 1) else ParseMetric(s, i).Err?
    ensures EncMetric(metric).status.Done? ==> |EncMetric(metric).bytes| == 1
  {
    if !metric.Other? {
      assert EncMetric(metric).bytes == [EncMetric(metric).bytes[0]];
      ReadsTag(s, i, EncMetric(metric).bytes[0]);
    }
  }

  lemma ReadsHeader(s: seq<byte>, i: nat)
    requires At(s, i, MAGIC) && At(s, i + 4, Le(VERSION, 4))
    ensures ParseHeader(s, i) == Ok((), i + 8)
  {
    AtWindow(s, i, MAGIC);
    ReadsU32(s, i + 4, VERSION, StringLength);
  }

  /**
   What the decoder makes of the encoder's output, finished or not: the very payload that
   was encoded when the encoder finished and no id is an empty key, an error in every
   other case.
   */
  lemma ReadsPayload(s: seq<byte>, i: nat, kind: IndexKind, dim: nat, metric: DistanceMetric, rows: seq<Row>)
    requires AllDim(rows, dim) && Left(s, i, EncPayload(kind, dim, metric, rows))
    ensures var w := EncPayload(kind, dim, metric, rows);
            if w.status.Done? && AllStorable(rows)
            then ParsePayload(s, i) == Ok(Payload(kind, dim, metric, rows), i + |w.bytes|)
            else ParsePayload(s, i).Err?
  {
    hide At, Le, EncU64, EncKind, EncMetric, EncRows, ParseHeader, ParseU64, ParseKind, ParseMetric, ParseRows;
    var wRows := EncRows(rows);
    var wCount := EncU64(|rows|, NRows);
    var wMetric := EncMetric(metric);
    var wDim := EncU64(dim, Dim);
    var wKind := Raw(EncKind(kind));
    var wVersion := Raw(Le(VERSION, 4));
    var afterDim := wMetric.Then(wCount.Then(wRows));
    LeftThen(s, i, Raw(MAGIC), wVersion.Then(wKind.Then(wDim.Then(afterDim))));
    LeftThen(s, i + 4, wVersion, wKind.Then(wDim.Then(afterDim)));
    ReadsHeader(s, i);
    LeftThen(s, i + 8, wKind, wDim.Then(afterDim));
    ReadsKind(s, i + 8, kind);
    var j := i + 8 + |EncKind(kind)|;
    LeftThen(s, j, wDim, afterDim);
    ReadsCount(s, j, dim, Dim);
    if wDim.status.Done? {
      LeftThen(s, j + 8, wMetric, wCount.Then(wRows));
      ReadsMetric(s, j + 8, metric);
      if wMetric.status.Done? {
        LeftThen(s, j + 9, wCount, wRows);
        ReadsCount(s, j + 9, |rows|, NRows);
        if wCount.status.Done? { ReadsRows(s, j + 17, rows, dim); }
      }
    }
  }
}
