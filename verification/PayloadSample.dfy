/** One complete payload, byte by byte: an IVF database of dimension 1 with two rows and every kind of value. */
module PayloadSample {
  import opened Wrappers
  import opened Bytes
  import opened Types
  import opened PayloadFormat
  import opened PayloadLayout
  import opened PayloadAcceptance

  const SampleKind := Ivf(IvfConfig(2, 1, 256, true, Some(8), 3, 42))

  function Key(k: byte): (t: Text)
    requires k < 0x80
    ensures t == [k]
  {
    assert CharWidth([k], 0) == 1;
    assert Utf8From([k], 1);
    [k]
  }

  /** e with an acute accent. */
  function Accented(): (t: Text)
    ensures t == [0xC3, 0xA9]
  {
    assert CharWidth([0xC3, 0xA9], 0) == 2;
    assert Utf8From([0xC3, 0xA9], 2);
    [0xC3, 0xA9]
  }

  function SampleEntries(): seq<Entry> {
    [Entry(Key(0x61), Int(-2)), Entry(Key(0x62), String(Accented())), Entry(Key(0x63), Bool(true)),
     Entry(Key(0x64), Float(0x3FE0_0000_0000_0000)), Entry(Key(0x65), Null)]
  }

  lemma SampleAscending()
    ensures Ascending(SampleEntries())
  {
  }

  function SampleMeta(): (m: Metadata)
    ensures m == SampleEntries()
  {
    SampleAscending();
    SampleEntries()
  }

  /** The number 7 with the vector [1.0], and the key DE AD with the vector [-1.0] and metadata. */
  function SampleRows(): seq<Row> {
    [Row(VectorId.U64(7), [0x3F80_0000], None), Row(VectorId.Bytes([0xDE, 0xAD]), [0xBF80_0000], Some(SampleMeta()))]
  }

  function KindBytes(): seq<byte> {
    [2] + ([2, 0, 0, 0, 0, 0, 0, 0, 1, 0, 0, 0, 0, 0, 0, 0, 0, 1, 0, 0, 0, 0, 0, 0]
    + ([1] + ([1, 8, 0, 0, 0, 0, 0, 0, 0] + ([3, 0, 0, 0] + [42, 0, 0, 0, 0, 0, 0, 0]))))
  }

  function ValueBytes(k: nat): seq<byte> {
    match k
    case 0 => [1, 0xFE, 0xFF, 0xFF, 0xFF, 0xFF, 0xFF, 0xFF, 0xFF]
    case 1 => [0, 2, 0, 0, 0, 0xC3, 0xA9]
    case 2 => [3, 1]
    case 3 => [2, 0, 0, 0, 0, 0, 0, 0xE0, 0x3F]
    case _ => [4]
  }

  /** The entries from the given one on, with the keys "a" to "e". */
  function EntryBytes(k: nat): seq<byte>
    decreases 5 - k
  {
    if k >= 5 then [] else [1, 0, 0, 0, 0x61 + k] + ValueBytes(k) + EntryBytes(k + 1)
  }

  function RowBytes(k: nat): seq<byte> {
    match k
    case 0 => [0, 7, 0, 0, 0, 0, 0, 0, 0, 0, 0, 0x80, 0x3F, 0]
    case 1 => [1, 2, 0, 0, 0, 0xDE, 0xAD, 0, 0, 0x80, 0xBF, 1, 5, 0, 0, 0] + EntryBytes(0)
    case _ => []
  }

  /** Header, kind, dimension 1, metric 2, two rows. */
  function SampleBytes(): seq<byte> {
    [0x49, 0x51, 0x44, 0x43, 1, 0, 0, 0] + KindBytes()
    + [1, 0, 0, 0, 0, 0, 0, 0, 2, 2, 0, 0, 0, 0, 0, 0, 0] + (RowBytes(0) + RowBytes(1))
  }

  lemma Word32(n: u32, b: seq<byte>)
    requires |b| == 4 && U32At(b, 0, n)
    ensures Le(n, 4) == b
  {
    LeSpelled(n);
  }

  lemma Word64(n: u64, b: seq<byte>)
    requires |b| == 8 && U64At(b, 0, n)
    ensures Le(n, 8) == b
  {
    LeSpelled(n);
  }

  lemma FieldThen(n: u64, fields: seq<u64>, b: seq<byte>, bytes: seq<byte>)
    requires fields != [] && fields[0] == n && |b| == 8 && U64At(b, 0, n)
    requires bytes == b + EncU64s(fields[1..])
    ensures EncU64s(fields) == bytes
  {
    hide Le, U64At;
    Word64(n, b);
  }

  lemma SampleFields()
    ensures EncU64s([2, 1, 256])
            == [2, 0, 0, 0, 0, 0, 0, 0, 1, 0, 0, 0, 0, 0, 0, 0, 0, 1, 0, 0, 0, 0, 0, 0]
  {
    hide EncU64s;
    var f: seq<u64> := [2, 1, 256];
    assert f[1..] == [1, 256] && f[1..][1..] == [256] && f[1..][1..][1..] == [];
    NoFields();
    FieldThen(256, f[1..][1..], [0, 1, 0, 0, 0, 0, 0, 0], [0, 1, 0, 0, 0, 0, 0, 0]);
    FieldThen(1, f[1..], [1, 0, 0, 0, 0, 0, 0, 0], [1, 0, 0, 0, 0, 0, 0, 0, 0, 1, 0, 0, 0, 0, 0, 0]);
    FieldThen(2, f, [2, 0, 0, 0, 0, 0, 0, 0],
              [2, 0, 0, 0, 0, 0, 0, 0, 1, 0, 0, 0, 0, 0, 0, 0, 0, 1, 0, 0, 0, 0, 0, 0]);
  }

  lemma NoFields()
    ensures EncU64s([]) == []
  {
  }

  lemma SampleKindEncoded()
    ensures EncKind(SampleKind) == KindBytes()
  {
    hide Le, EncU64s, U64At, U32At;
    SampleFields();
    SmallWords();
    var o: seq<byte> := [1, 8, 0, 0, 0, 0, 0, 0, 0];
    assert EncOption(Some(8)) == o;
    IvfParts(SampleKind.ivf, 2, EncU64s([2, 1, 256]), 1, o, [3, 0, 0, 0], [42, 0, 0, 0, 0, 0, 0, 0]);
  }

  lemma SmallWords()
    ensures Le(8, 8) == [8, 0, 0, 0, 0, 0, 0, 0] && Le(42, 8) == [42, 0, 0, 0, 0, 0, 0, 0]
    ensures Le(3, 4) == [3, 0, 0, 0]
  {
    Word64(8, [8, 0, 0, 0, 0, 0, 0, 0]);
    Word32(3, [3, 0, 0, 0]);
    Word64(42, [42, 0, 0, 0, 0, 0, 0, 0]);
  }

  // -- The second row's metadata ----------------------------------------------------------

  lemma EntryThen(k: byte, m: seq<Entry>, b: seq<byte>, bytes: seq<byte>)
    requires k < 0x80 && m != [] && m[0].key == [k] && EncValue(m[0].value) == Raw(b)
    requires EncEntries(m[1..]).status.Done? && bytes == [1, 0, 0, 0, k] + b + EncEntries(m[1..]).bytes
    ensures EncEntries(m) == Raw(bytes)
  {
    hide Le, EncValue;
    Word32(1, [1, 0, 0, 0]);
    assert EncEntry(m[0]).bytes == [1, 0, 0, 0, k] + b;
  }

  lemma SampleValue(k: nat)
    requires k < 5
    ensures SampleEntries()[k].key == [0x61 + k]
    ensures EncValue(SampleEntries()[k].value) == Raw(ValueBytes(k))
  {
    hide Le;
    match k
    case 0 => Word64(0xFFFF_FFFF_FFFF_FFFE, [0xFE, 0xFF, 0xFF, 0xFF, 0xFF, 0xFF, 0xFF, 0xFF]);
    case 1 => Word32(2, [2, 0, 0, 0]);
    case 2 =>
    case 3 => Word64(0x3FE0_0000_0000_0000, [0, 0, 0, 0, 0, 0, 0xE0, 0x3F]);
    case 4 =>
  }

  /** Each entry in front of the ones behind it. */
  lemma {:induction false} EntriesEncoded(k: nat)
    requires k <= 5
    ensures EncEntries(SampleEntries()[k..]) == Raw(EntryBytes(k))
    decreases 5 - k
  {
    hide EncEntries, EncValue, Key, Accented, ValueBytes;
    var m := SampleEntries();
    if k == 5 {
      NoEntries();
    } else {
      EntriesEncoded(k + 1);
      SampleValue(k);
      assert m[k..][1..] == m[k + 1..];
      EntryThen(0x61 + k, m[k..], ValueBytes(k), EntryBytes(k));
    }
  }

  lemma NoEntries()
    ensures EncEntries([]) == Raw([])
  {
  }

  // -- The whole file ------------------------------------------------------------------------

  lemma SampleMetaEncoded()
    ensures EncMeta(Some(SampleMeta())) == Raw([1, 5, 0, 0, 0] + EntryBytes(0))
  {
    hide Le, EncEntries, EntryBytes, SampleEntries;
    EntriesEncoded(0);
    assert SampleEntries()[0..] == SampleEntries();
    assert |SampleEntries()| == 5 by { FiveEntries(); }
    Word32(5, [5, 0, 0, 0]);
  }

  lemma FiveEntries()
    ensures |SampleEntries()| == 5
  {
  }

  lemma SampleRowsEncoded()
    ensures EncRow(SampleRows()[0]) == Raw(RowBytes(0)) && EncRow(SampleRows()[1]) == Raw(RowBytes(1))
  {
    hide Le, EncMeta, EntryBytes, EncEntries;
    var one, minusOne: seq<f32> := [0x3F80_0000], [0xBF80_0000];
    Word64(7, [7, 0, 0, 0, 0, 0, 0, 0]);
    Word32(2, [2, 0, 0, 0]);
    Word32(0x3F80_0000, [0, 0, 0x80, 0x3F]);
    Word32(0xBF80_0000, [0, 0, 0x80, 0xBF]);
    assert EncComponents(one) == [0, 0, 0x80, 0x3F] by { assert one[1..] == []; }
    assert EncComponents(minusOne) == [0, 0, 0x80, 0xBF] by { assert minusOne[1..] == []; }
    assert EncMeta(None) == Raw([0]) by { NoMeta(); }
    SampleMetaEncoded();
  }

  lemma NoMeta()
    ensures EncMeta(None) == Raw([0])
  {
  }

  /** The encoder writes exactly these bytes, and the parser reads them as exactly this payload. */
  lemma SampleFile()
    ensures EncPayload(SampleKind, 1, Euclidean, SampleRows()) == Raw(SampleBytes())
    ensures ParsePayload(SampleBytes(), 0)
            == Ok(Payload(SampleKind, 1, Euclidean, SampleRows()), |SampleBytes()|)
  {
    hide Le, EncKind, KindBytes, EncRow, RowBytes, ParsePayload, IsPayload, SampleRows;
    var rows, b := SampleRows(), SampleBytes();
    SampleKindEncoded();
    SampleRowsEncoded();
    TwoRows();
    VersionWord();
    Word64(1, [1, 0, 0, 0, 0, 0, 0, 0]);
    Word64(2, [2, 0, 0, 0, 0, 0, 0, 0]);
    var counts := [1, 0, 0, 0, 0, 0, 0, 0] + ([2] + ([2, 0, 0, 0, 0, 0, 0, 0] + (RowBytes(0) + RowBytes(1))));
    assert EncPayload(SampleKind, 1, Euclidean, rows).bytes == MAGIC + ([1, 0, 0, 0] + (KindBytes() + counts));
    assert b == MAGIC + ([1, 0, 0, 0] + (KindBytes() + counts));
    EncodedIsLayout(SampleKind, 1, Euclidean, rows, b);
    LayoutIsRead(b, SampleKind, 1, Euclidean, rows);
  }

  lemma TwoRows()
    ensures |SampleRows()| == 2 && AllDim(SampleRows(), 1) && AllStorable(SampleRows())
    ensures EncRows(SampleRows()) == EncRow(SampleRows()[0]).Then(EncRow(SampleRows()[1]).Then(Raw([])))
  {
    hide EncRow;
    var rows := SampleRows();
    assert rows[1..][0] == rows[1] && rows[1..][1..] == [];
  }
}
