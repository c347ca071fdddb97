/**
 Encoding what was parsed. Whatever spelling the input used, the value it parsed to can be
 encoded again, in no more bytes than the parse consumed.
 */
module PayloadNormal {
  import opened Bytes
  import opened Types
  import opened MetadataMap
  import opened PayloadFormat

  /** `w` finished within `n` bytes. */
  predicate Within(w: Written, n: int) { w.status.Done? && |w.bytes| <= n }

  lemma FitsStr(s: seq<byte>, i: nat)
    requires i <= |s| && ParseStr(s, i).Ok?
    ensures Within(EncStr(ParseStr(s, i).value), ParseStr(s, i).next - i)
  {
    hide IsUtf8, Le;
  }

  lemma FitsValue(s: seq<byte>, i: nat)
    requires i <= |s| && ParseValue(s, i).Ok?
    ensures Within(EncValue(ParseValue(s, i).value), ParseValue(s, i).next - i)
  {
    hide ParseStr, ParseU64, EncStr, Le;
    if s[i] == 0 { FitsStr(s, i + 1); }
  }

  lemma EntriesCons(e: Entry, m: seq<Entry>)
    ensures var a, b, ab := EncEntry(e), EncEntries(m), EncEntries([e] + m);
            && (ab.status.Done? <==> a.status.Done? && b.status.Done?)
            && (ab.status.Done? ==> |ab.bytes| == |a.bytes| + |b.bytes|)
  {
    hide EncEntry;
    assert ([e] + m)[1..] == m;
  }

  lemma {:induction false} EntriesSnoc(m: seq<Entry>, e: Entry)
    ensures var a, b, ab := EncEntries(m), EncEntry(e), EncEntries(m + [e]);
            && (ab.status.Done? <==> a.status.Done? && b.status.Done?)
            && (ab.status.Done? ==> |ab.bytes| == |a.bytes| + |b.bytes|)
  {
    hide EncEntry;
    if m == [] {
      EntriesCons(e, []);
      assert [] + [e] == [e] + [];
    } else {
      EntriesCons(m[0], m[1..]);
      EntriesCons(m[0], m[1..] + [e]);
      EntriesSnoc(m[1..], e);
      assert [m[0]] + m[1..] == m && [m[0]] + (m[1..] + [e]) == m + [e];
    }
  }

  /** Inserting an entry costs at most that entry: an overwritten one gives its bytes back. */
  lemma {:induction false} InsertWithin(m: seq<Entry>, e: Entry)
    requires EncEntries(m).status.Done? && EncEntry(e).status.Done?
    ensures Within(EncEntries(Insert(m, e)), |EncEntries(m).bytes| + |EncEntry(e).bytes|)
  {
    hide EncEntry, EncEntries, Less;
    EntriesCons(e, m);
    if m == [] {
      assert [e] + m == [e];
    } else {
      EntriesCons(m[0], m[1..]);
      assert [m[0]] + m[1..] == m;
      EntriesCons(e, m[1..]);
      InsertWithin(m[1..], e);
      EntriesCons(m[0], Insert(m[1..], e));
    }
  }

  lemma {:induction false} CollectWithin(entries: seq<Entry>)
    requires EncEntries(entries).status.Done?
    ensures Within(EncEntries(Collect(entries)), |EncEntries(entries).bytes|)
  {
    hide EncEntry, EncEntries, Insert;
    if entries == [] {
    } else {
      var front, last := entries[..|entries| - 1], entries[|entries| - 1];
      assert front + [last] == entries;
      EntriesSnoc(front, last);
      CollectWithin(front);
      InsertWithin(Collect(front), last);
    }
  }

  lemma FitsEntry(s: seq<byte>, i: nat)
    requires i <= |s| && ParseEntry(s, i).Ok?
    ensures Within(EncEntry(ParseEntry(s, i).value), ParseEntry(s, i).next - i)
  {
    hide ParseStr, ParseValue, EncStr, EncValue;
    FitsStr(s, i);
    FitsValue(s, ParseStr(s, i).next);
  }

  lemma {:induction false} FitsEntries(s: seq<byte>, i: nat, count: nat)
    requires i <= |s| && ParseEntries(s, i, count).Ok?
    ensures Within(EncEntries(ParseEntries(s, i, count).value), ParseEntries(s, i, count).next - i)
    decreases count
  {
    hide ParseEntry, EncEntry;
    if count == 0 {
    } else {
      var (e, j) := ParseEntry(s, i).Extract();
      FitsEntry(s, i);
      FitsEntries(s, j, count - 1);
      EntriesCons(e, ParseEntries(s, j, count - 1).value);
    }
  }

  lemma FitsMeta(s: seq<byte>, i: nat)
    requires i <= |s| && ParseMeta(s, i).Ok?
    ensures Within(EncMeta(ParseMeta(s, i).value), ParseMeta(s, i).next - i)
  {
    hide ParseU32, ParseEntries, EncEntries, Collect, Le;
    if s[i] == 1 {
      var count := ParseU32(s, i + 1).value;
      FitsEntries(s, i + 5, count);
      CollectWithin(ParseEntries(s, i + 5, count).value);
    }
  }

  lemma FitsId(s: seq<byte>, i: nat)
    requires i <= |s| && ParseId(s, i).Ok?
    ensures Within(EncId(ParseId(s, i).value), ParseId(s, i).next - i)
    ensures Storable(ParseId(s, i).value)
  {
    hide ParseU32, ParseU64, Le;
  }

  lemma FitsRow(s: seq<byte>, i: nat, dim: nat)
    requires i <= |s| && ParseRow(s, i, dim).Ok?
    ensures Within(EncRow(ParseRow(s, i, dim).value), ParseRow(s, i, dim).next - i)
    ensures Storable(ParseRow(s, i, dim).value.id)
  {
    hide ParseId, ParseComponents, ParseMeta, EncId, EncComponents, EncMeta;
    var j := ParseId(s, i).next;
    FitsId(s, i);
    FitsMeta(s, j + 4 * dim);
  }

  lemma RowsCons(row: Row, rows: seq<Row>)
    ensures var a, b, ab := EncRow(row), EncRows(rows), EncRows([row] + rows);
            && (ab.status.Done? <==> a.status.Done? && b.status.Done?)
            && (ab.status.Done? ==> |ab.bytes| == |a.bytes| + |b.bytes|)
  {
    hide EncRow;
    assert ([row] + rows)[1..] == rows;
  }

  lemma {:induction false} FitsRows(s: seq<byte>, i: nat, n: nat, dim: nat)
    requires i <= |s| && ParseRows(s, i, n, dim).Ok?
    ensures Within(EncRows(ParseRows(s, i, n, dim).value), ParseRows(s, i, n, dim).next - i)
    decreases n
  {
    hide ParseRow, EncRow, RowFloor;
    if n == 0 {
    } else {
      FitsRow(s, i, dim);
      var (row, j) := ParseRow(s, i, dim).Extract();
      FitsRows(s, j, n - 1, dim);
      RowsCons(row, ParseRows(s, j, n - 1, dim).value);
    }
  }

  /** Every parsed row has an id that can be parsed again. */
  lemma {:induction false} ParsedStorable(s: seq<byte>, i: nat, n: nat, dim: nat)
    requires i <= |s| && ParseRows(s, i, n, dim).Ok?
    ensures AllStorable(ParseRows(s, i, n, dim).value)
    decreases n
  {
    hide ParseRow, RowFloor;
    if n == 0 {
    } else {
      FitsRow(s, i, dim);
      ParsedStorable(s, ParseRow(s, i, dim).next, n - 1, dim);
    }
  }

  lemma FitsKind(s: seq<byte>, i: nat)
    requires i <= |s| && ParseKind(s, i).Ok?
    ensures |EncKind(ParseKind(s, i).value)| <= ParseKind(s, i).next - i
  {
    hide ParseU64s, ParseU32, ParseU64, EncU64s, Le;
  }

  lemma FitsMetric(s: seq<byte>, i: nat)
    requires i <= |s| && ParseMetric(s, i).Ok?
    ensures Within(EncMetric(ParseMetric(s, i).value), 1)
  {
  }

  /**
   The payload around a parsed header can be encoded again with any rows that need no more
   room than the parsed ones.
   */
  lemma FitsPayload(s: seq<byte>, i: nat, rows: seq<Row>)
    requires i <= |s| && ParsePayload(s, i).Ok? && |rows| <= |ParsePayload(s, i).value.rows|
    requires Within(EncRows(rows), |EncRows(ParsePayload(s, i).value.rows).bytes|)
    ensures var p := ParsePayload(s, i).value;
            Within(EncPayload(p.kind, p.dim, p.metric, rows), ParsePayload(s, i).next - i)
  {
    hide ParseHeader, ParseKind, ParseU64, ParseMetric, ParseRows, EncPayload, EncKind, EncMetric, EncRows, RowFloor;
    var p := ParsePayload(s, i).value;
    var h := ParseHeader(s, i).next;
    var j := ParseKind(s, h).next;
    FitsKind(s, h);
    FitsMetric(s, j + 8);
    FitsRows(s, j + 17, ParseU64(s, j + 9).value, p.dim);
    PayloadSize(p.kind, p.dim, p.metric, rows);
  }

  lemma PayloadSize(kind: IndexKind, dim: u64, metric: DistanceMetric, rows: seq<Row>)
    requires |rows| < 0x1_0000_0000_0000_0000
    requires EncRows(rows).status.Done? && Within(EncMetric(metric), 1)
    ensures Within(EncPayload(kind, dim, metric, rows), 25 + |EncKind(kind)| + |EncRows(rows).bytes|)
  {
    hide Le, EncKind, EncMetric, EncRows;
  }

  /** What an accepted input costs at least, whatever counts it declares. */
  lemma ConsumptionBound(s: seq<byte>, i: nat)
    requires i <= |s| && ParsePayload(s, i).Ok?
    ensures var p := ParsePayload(s, i).value;
            i + 26 + |p.rows| * (7 + 4 * p.dim) <= ParsePayload(s, i).next
  {
    hide ParseHeader, ParseKind, ParseU64, ParseMetric, ParseRows;
    var j := ParseKind(s, ParseHeader(s, i).next).next;
    var rows := ParseRows(s, j + 17, ParseU64(s, j + 9).value, ParseU64(s, j).value);
    assert |rows.value| * RowFloor(ParseU64(s, j).value) <= rows.next - (j + 17);
  }
}
