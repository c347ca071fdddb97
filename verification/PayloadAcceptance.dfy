/**
 What the parser makes of bytes that no encoder wrote: the spellings it accepts beside the
 canonical one, and how it refuses the rest.
 */
module PayloadAcceptance {
  import opened Bytes
  import opened Types
  import opened MetadataMap
  import opened PayloadFormat
  import opened PayloadReadBack
  import opened PayloadLocality
  import opened PayloadLayout

  /** Bytes in the documented layout are read as the payload they stand for, all of them. */
  lemma LayoutIsRead(b: seq<byte>, kind: IndexKind, dim: nat, metric: DistanceMetric, rows: seq<Row>)
    requires IsPayload(b, kind, dim, metric, rows) && AllDim(rows, dim) && AllStorable(rows)
    ensures ParsePayload(b, 0) == Ok(Payload(kind, dim, metric, rows), |b|)
  {
    hide EncPayload, IsPayload, ParsePayload, At, AllDim, AllStorable;
    EncodedIsLayout(kind, dim, metric, rows, b);
    AtWindow(b, 0, b);
    assert b[0..|b|] == b;
    ReadsPayload(b, 0, kind, dim, metric, rows);
  }

  // -- Numbers -------------------------------------------------------------------------

  /** A four-byte or eight-byte field is read as the number that its bytes spell, lowest byte first. */
  lemma NumbersRead(s: seq<byte>, i: nat)
    requires i <= |s|
    ensures ParseU8(s, i) == if i < |s| then Ok(s[i], i + 1) else Err(Io)
    ensures if i + 4 <= |s| then ParseU32(s, i).Ok? && U32At(s, i, ParseU32(s, i).value) else ParseU32(s, i) == Err(Io)
    ensures if i + 8 <= |s| then ParseU64(s, i).Ok? && U64At(s, i, ParseU64(s, i).value) else ParseU64(s, i) == Err(Io)
  {
    hide U32At, U64At;
    if i + 4 <= |s| {
      FromLeSpelled(s[i..i + 4]);
      Window32(s, i, FromLe(s[i..i + 4]));
    }
    if i + 8 <= |s| {
      FromLeSpelled(s[i..i + 8]);
      Window64(s, i, i + 8, 0, FromLe(s[i..i + 8]));
    }
  }

  lemma Window32(s: seq<byte>, i: nat, n: int)
    requires i + 4 <= |s|
    ensures U32At(s[i..i + 4], 0, n) <==> U32At(s, i, n)
  {
  }

  // -- The header ----------------------------------------------------------------------

  /** The payload is refused unless it starts with "IQDC" and version 1, and the error says which is missing. */
  lemma HeaderRead(s: seq<byte>)
    ensures ParsePayload(s, 0).Ok? ==> |s| >= 25 && s[..8] == [0x49, 0x51, 0x44, 0x43, 0x01, 0x00, 0x00, 0x00]
    ensures |s| < 4 ==> ParsePayload(s, 0) == Err(Io)
    ensures |s| >= 4 && s[..4] != [0x49, 0x51, 0x44, 0x43] ==> ParsePayload(s, 0) == Err(InvalidPayload(MagicMismatch))
    ensures 4 <= |s| < 8 && s[..4] == [0x49, 0x51, 0x44, 0x43] ==> ParsePayload(s, 0) == Err(Io)
    ensures |s| >= 8 && s[..4] == [0x49, 0x51, 0x44, 0x43] && s[4..8] != [0x01, 0x00, 0x00, 0x00]
            ==> ParsePayload(s, 0) == Err(InvalidPayload(UnsupportedVersion))
  {
    hide ParseU32, ParseU64, ParseKind, ParseMetric, ParseRows, FromLe, Le;
    NumbersRead(s, 0);
    if |s| >= 4 {
      NumbersRead(s, 4);
      Spelled32(s, 4, VERSION);
      VersionWord();
      if |s| >= 8 {
        assert s[..8] == s[..4] + s[4..8];
        Unique32(s, 4, ParseU32(s, 4).value, VERSION);
      }
    }
  }

  lemma Unique32(s: seq<byte>, i: nat, m: int, n: int)
    requires U32At(s, i, m)
    ensures U32At(s, i, n) <==> m == n
  {
  }

  // -- Spellings beside the canonical one --------------------------------------------------

  /** Any byte but 0 reads as true. */
  lemma BooleansRead(s: seq<byte>, i: nat)
    requires i + 2 <= |s| && s[i] == 3
    ensures ParseValue(s, i) == Ok(Bool(s[i + 1] != 0), i + 2)
  {
  }

  /** So does the quantization flag of an IVF block. */
  lemma IvfFlagRead(b: seq<byte>, c: IvfConfig, flag: byte)
    requires IsKind(b, Ivf(c))
    ensures ParseKind(b[25 := flag], 0) == Ok(Ivf(c.(usePq := flag != 0)), |b|)
  {
    hide IsKind, EncKind, ParseU64s, FromLe, At;
    assert |b| >= 39 by { IvfLength(b, c); }
    var t := b[25 := flag];
    KindWritten(Ivf(c), b);
    assert b[0..|b|] == b;
    AtWindow(b, 0, b);
    ReadsKind(b, 0, Ivf(c));
    LocalU64s(b, t, 1, 3);
    forall lo, hi | 26 <= lo <= hi <= |b| ensures t[lo..hi] == b[lo..hi] {}
  }

  lemma IvfLength(b: seq<byte>, c: IvfConfig)
    requires IsKind(b, Ivf(c))
    ensures |b| >= 39 && b[0] == 2
  {
  }

  /** Repeated or unordered keys: the metadata read is the map in which the last of equal keys wins, in key order. */
  lemma MetaRead(b: seq<byte>, es: seq<Entry>)
    requires |b| >= 5 && b[0] == 1 && U32At(b, 1, |es|) && IsEntries(b[5..], es)
    ensures var p := ParseMeta(b, 0);
            && p.Ok? && p.next == |b| && p.value.Some?
            && AsMap(p.value.value) == LastWins(es)
  {
    hide At, IsEntries, EncEntries, ParseEntries, ParseU32, Collect, U32At;
    EntriesWritten(es, b[5..]);
    AtWindow(b, 5, b[5..]);
    assert b[5..5 + |b[5..]|] == b[5..];
    ReadsEntries(b, 5, es);
    NumbersRead(b, 1);
    Unique32(b, 1, ParseU32(b, 1).value, |es|);
    CollectIsLastWins(es);
  }

  // -- Refusals ----------------------------------------------------------------------------

  /** Tags without a meaning are refused, each with its own error. */
  lemma TagsRefused(s: seq<byte>, i: nat)
    requires i < |s|
    ensures s[i] > 2 ==> ParseKind(s, i) == Err(InvalidPayload(UnknownIndexKindTag))
    ensures s[i] > 1 ==> ParseOption(s, i) == Err(InvalidPayload(PqSubvectorsTag))
    ensures s[i] > 4 ==> ParseMetric(s, i) == Err(InvalidMetric(s[i]))
    ensures s[i] > 1 ==> ParseId(s, i) == Err(InvalidPayload(UnknownIdTag))
    ensures s[i] > 1 ==> ParseMeta(s, i) == Err(InvalidPayload(UnknownPresenceTag))
    ensures s[i] > 4 ==> ParseValue(s, i) == Err(InvalidPayload(UnknownValueTag))
  {
    hide ParseU32, ParseU64, ParseVec, ParseStr, ParseEntries, ParseU64s;
  }

  /** An announced length is held against what is there; an empty key and text that is no UTF-8 are refused. */
  lemma LengthsRefused(s: seq<byte>, i: nat, n: nat)
    requires i < |s| && U32At(s, i + 1, n)
    ensures var left := |s| - i - 5;
            && (n > left ==> ParseStr(s, i + 1) == Err(TruncatedPayload(n, left)))
            && (n <= left && !IsUtf8(s[i + 5..i + 5 + n]) ==> ParseStr(s, i + 1) == Err(InvalidPayload(NotUtf8)))
            && (n == 0 && s[i] == 1 ==> ParseId(s, i) == Err(InvalidPayload(EmptyIdKey)))
            && (n > left && s[i] == 1 ==> ParseId(s, i) == Err(TruncatedPayload(n, left)))
  {
    hide ParseU32, U32At, IsUtf8, ParseU64;
    assert i + 5 <= |s| by { Spelled32(s, i + 1, n); }
    NumbersRead(s, i + 1);
    Unique32(s, i + 1, ParseU32(s, i + 1).value, n);
  }

  // -- What can be encoded ------------------------------------------------------------------

  predicate Short(n: nat) { n < 0x1_0000_0000 }

  /** Every length that has four bytes in the payload fits them. */
  predicate Encodable(row: Row) {
    && (row.id.Bytes? ==> Short(|row.id.bytes|))
    && (row.meta.Some? ==>
         Short(|row.meta.value|)
         && forall k :: 0 <= k < |row.meta.value| ==>
              Short(|row.meta.value[k].key|)
              && (row.meta.value[k].value.String? ==> Short(|row.meta.value[k].value.s|)))
  }

  lemma {:induction false} EntriesEncodable(m: seq<Entry>)
    ensures EncEntries(m).status.Done? <==>
            forall k :: 0 <= k < |m| ==> Short(|m[k].key|) && (m[k].value.String? ==> Short(|m[k].value.s|))
    decreases |m|
  {
    hide Le, IsUtf8;
    if m == [] {
    } else {
      EntriesEncodable(m[1..]);
      assert forall k :: 1 <= k < |m| ==> m[k] == m[1..][k - 1];
      assert EncEntry(m[0]).status.Done? <==> Short(|m[0].key|) && (m[0].value.String? ==> Short(|m[0].value.s|));
    }
  }

  lemma RowEncodable(row: Row)
    ensures EncRow(row).status.Done? <==> Encodable(row)
  {
    hide Le, EncEntries, EncComponents;
    if row.meta.Some? { EntriesEncodable(row.meta.value); }
  }

  lemma {:induction false} RowsEncodable(rows: seq<Row>)
    ensures EncRows(rows).status.Done? <==> forall k :: 0 <= k < |rows| ==> Encodable(rows[k])
    decreases |rows|
  {
    hide EncRow, Encodable;
    if rows == [] {
    } else {
      RowEncodable(rows[0]);
      RowsEncodable(rows[1..]);
      assert forall k :: 1 <= k < |rows| ==> rows[k] == rows[1..][k - 1];
    }
  }

  /** A payload can be encoded exactly when every length and count fits its field and the metric has a tag. */
  lemma EncodesIff(kind: IndexKind, dim: nat, metric: DistanceMetric, rows: seq<Row>)
    ensures EncPayload(kind, dim, metric, rows).status.Done? <==>
            && dim < 0x1_0000_0000_0000_0000 && !metric.Other? && |rows| < 0x1_0000_0000_0000_0000
            && forall k :: 0 <= k < |rows| ==> Encodable(rows[k])
  {
    hide Le, EncKind, EncRows, Encodable;
    RowsEncodable(rows);
  }

  /** Why the encoding of a row stops, in the order of its fields. */
  lemma RowErrors(row: Row, s: Text)
    ensures !Short(|s|) ==> EncStr(s).status == Failed(InvalidPayload(StringLength))
    ensures row.id.Bytes? && !Short(|row.id.bytes|) ==> EncRow(row).status == Failed(InvalidPayload(IdBytesLen))
    ensures (row.id.Bytes? ==> Short(|row.id.bytes|)) && row.meta.Some? && !Short(|row.meta.value|)
            ==> EncRow(row).status == Failed(InvalidPayload(MetadataEntries))
  {
    hide Le, EncEntries, EncComponents;
  }

  /** Why the encoding of a payload stops, in the order of its fields. */
  lemma PayloadErrors(kind: IndexKind, dim: nat, metric: DistanceMetric, rows: seq<Row>)
    ensures var st := EncPayload(kind, dim, metric, rows).status;
            if dim >= 0x1_0000_0000_0000_0000 then st == Failed(InvalidPayload(Dim))
            else if metric.Other? then st == Failed(UnsupportedMetric(metric))
            else if |rows| >= 0x1_0000_0000_0000_0000 then st == Failed(InvalidPayload(NRows))
            else st == EncRows(rows).status
  {
    hide Le, EncKind, EncRows;
  }

  /** The first row that cannot be encoded stops it. */
  lemma {:induction false} FirstRowStops(rows: seq<Row>, k: nat)
    requires k < |rows| && EncRow(rows[k]).status.Failed? && forall i :: 0 <= i < k ==> EncRow(rows[i]).status.Done?
    ensures EncRows(rows).status == EncRow(rows[k]).status
    decreases k
  {
    hide EncRow;
    if k == 0 {
    } else {
      FirstRowStops(rows[1..], k - 1);
    }
  }
}
