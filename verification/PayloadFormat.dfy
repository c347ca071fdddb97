/**
 The payload format as two families of functions: `Enc*` gives the bytes an encoder
 hands to its writer together with how it ended, `Parse*` reads from a position of a
 byte sequence and gives a value with the position after it.
 */
module PayloadFormat {
  import opened Wrappers
  import opened Bytes
  import opened Types
  import opened MetadataMap

  const MAGIC: seq<byte> := [0x49, 0x51, 0x44, 0x43]
  const VERSION: u32 := 1

  // -- What an encoder leaves behind --------------------------------------

  datatype Status = Done | Failed(error: PersistError)

  /** The bytes written, complete when `status` is `Done` and cut short otherwise. */
  datatype Written = Written(bytes: seq<byte>, status: Status) {
    /** Stop at the first failure, as the `?` operator does. */
    function Then(rest: Written): Written {
      if status.Failed? then this else Written(bytes + rest.bytes, rest.status)
    }
  }

  function Raw(bytes: seq<byte>): Written { Written(bytes, Done) }

  function EncU32(n: nat, what: Reason): Written {
    if n < 0x1_0000_0000 then Raw(Le(n, 4)) else Written([], Failed(InvalidPayload(what)))
  }

  function EncU64(n: nat, what: Reason): Written {
    if n < 0x1_0000_0000_0000_0000 then Raw(Le(n, 8)) else Written([], Failed(InvalidPayload(what)))
  }

  function Flag(b: bool): byte { if b then 1 else 0 }

  function EncStr(s: Text): Written {
    EncU32(|s|, StringLength).Then(Raw(s))
  }

  function EncValue(v: Value): Written {
    match v
    case String(s) => Raw([0]).Then(EncStr(s))
    case Int(i) => Raw([1]).Then(Raw(Le(ToTwos(i), 8)))
    case Float(f) => Raw([2]).Then(Raw(Le(f, 8)))
    case Bool(b) => Raw([3]).Then(Raw([Flag(b)]))
    case Null => Raw([4])
  }

  function EncEntry(e: Entry): Written { EncStr(e.key).Then(EncValue(e.value)) }

  function EncEntries(m: seq<Entry>): Written {
    if m == [] then Raw([]) else EncEntry(m[0]).Then(EncEntries(m[1..]))
  }

  function EncMeta(meta: Option<seq<Entry>>): Written {
    match meta
    case None => Raw([0])
    case Some(m) => Raw([1]).Then(EncU32(|m|, MetadataEntries).Then(EncEntries(m)))
  }

  function EncId(id: VectorId): Written {
    match id
    case U64(n) => Raw([0]).Then(Raw(Le(n, 8)))
    case Bytes(b) => Raw([1]).Then(EncU32(|b|, IdBytesLen).Then(Raw(b)))
  }

  function EncComponents(v: seq<f32>): (b: seq<byte>)
    ensures |b| == 4 * |v|
  {
    if v == [] then [] else Le(v[0], 4) + EncComponents(v[1..])
  }

  function EncRow(row: Row): Written {
    EncId(row.id).Then(Raw(EncComponents(row.vector)).Then(EncMeta(row.meta)))
  }

  function EncRows(rows: seq<Row>): Written {
    if rows == [] then Raw([]) else EncRow(rows[0]).Then(EncRows(rows[1..]))
  }

  function EncU64s(fields: seq<u64>): (b: seq<byte>)
    ensures |b| == 8 * |fields|
  {
    if fields == [] then [] else Le(fields[0], 8) + EncU64s(fields[1..])
  }

  function EncOption(o: Option<u64>): seq<byte> {
    match o
    case Some(m) => [1] + Le(m, 8)
    case None => [0]
  }

  function EncKind(kind: IndexKind): seq<byte> {
    match kind
    case Flat => [0]
    case Hnsw(c) => [1] + EncU64s([c.m, c.efConstruction, c.efSearch, c.filterWiden, c.seed])
    case Ivf(c) =>
      [2] + (EncU64s([c.nClusters, c.nProbes, c.trainingSampleSize])
      + ([Flag(c.usePq)] + (EncOption(c.pqSubvectors) + (Le(c.pqRefineFactor, 4) + Le(c.seed, 8)))))
  }

  function EncMetric(metric: DistanceMetric): Written {
    match metric
    case Cosine => Raw([0])
    case DotProduct => Raw([1])
    case Euclidean => Raw([2])
    case Manhattan => Raw([3])
    case Hamming => Raw([4])
    case Other(_) => Written([], Failed(UnsupportedMetric(metric)))
  }

  function EncPayload(kind: IndexKind, dim: nat, metric: DistanceMetric, rows: seq<Row>): Written {
    Raw(MAGIC).Then(Raw(Le(VERSION, 4)).Then(Raw(EncKind(kind)).Then(EncU64(dim, Dim).Then(
      EncMetric(metric).Then(EncU64(|rows|, NRows).Then(EncRows(rows)))))))
  }

  // -- What a decoder makes of the bytes -----------------------------------

  datatype Parsed<+T> = Ok(value: T, next: nat) | Err(error: PersistError) {
    predicate IsFailure() { Err? }
    function PropagateFailure<U>(): Parsed<U> requires Err? { Err(error) }
    function Extract(): (T, nat) requires Ok? { (value, next) }
  }

  datatype Payload = Payload(kind: IndexKind, dim: nat, metric: DistanceMetric, rows: seq<Row>)

  function ParseExact(s: seq<byte>, i: nat, n: nat): (p: Parsed<seq<byte>>)
    requires i <= |s|
    ensures p.Ok? ==> p.next == i + n <= |s| && |p.value| == n
  {
    if i + n <= |s| then Ok(s[i..i + n], i + n) else Err(Io)
  }

  function ParseU8(s: seq<byte>, i: nat): (p: Parsed<byte>)
    requires i <= |s|
    ensures p.Ok? ==> p.next == i + 1 <= |s|
  {
    if i < |s| then Ok(s[i], i + 1) else Err(Io)
  }

  function ParseU32(s: seq<byte>, i: nat): (p: Parsed<u32>)
    requires i <= |s|
    ensures p.Ok? ==> p.next == i + 4 <= |s|
  {
    if i + 4 <= |s| then Widths(); Ok(FromLe(s[i..i + 4]), i + 4) else Err(Io)
  }

  function ParseU64(s: seq<byte>, i: nat): (p: Parsed<u64>)
    requires i <= |s|
    ensures p.Ok? ==> p.next == i + 8 <= |s|
  {
    if i + 8 <= |s| then Widths(); Ok(FromLe(s[i..i + 8]), i + 8) else Err(Io)
  }

  function ParseVec(s: seq<byte>, i: nat, len: nat): (p: Parsed<seq<byte>>)
    requires i <= |s|
    ensures p.Ok? ==> p.next == i + len <= |s| && |p.value| == len
  {
    if i + len <= |s| then Ok(s[i..i + len], i + len) else Err(TruncatedPayload(len, |s| - i))
  }

  function ParseStr(s: seq<byte>, i: nat): (p: Parsed<Text>)
    requires i <= |s|
    ensures p.Ok? ==> p.next == i + 4 + |p.value| <= |s| && |p.value| < 0x1_0000_0000
  {
    var (len, j) :- ParseU32(s, i);
    var (bytes, k) :- ParseVec(s, j, len);
    if IsUtf8(bytes) then Ok(bytes, k) else Err(InvalidPayload(NotUtf8))
  }

  function ParseValue(s: seq<byte>, i: nat): (p: Parsed<Value>)
    requires i <= |s|
    ensures p.Ok? ==> i + 1 <= p.next <= |s|
  {
    var (tag, j) :- ParseU8(s, i);
    if tag == 0 then
      var (t, k) :- ParseStr(s, j); Ok(String(t), k)
    else if tag == 1 then
      var (u, k) :- ParseU64(s, j); Ok(Int(FromTwos(u)), k)
    else if tag == 2 then
      var (u, k) :- ParseU64(s, j); Ok(Float(u), k)
    else if tag == 3 then
      var (b, k) :- ParseU8(s, j); Ok(Bool(b != 0), k)
    else if tag == 4 then Ok(Null, j)
    else Err(InvalidPayload(UnknownValueTag))
  }

  function ParseEntry(s: seq<byte>, i: nat): (p: Parsed<Entry>)
    requires i <= |s|
    ensures p.Ok? ==> i + 5 <= p.next <= |s|
  {
    var (key, j) :- ParseStr(s, i);
    var (value, k) :- ParseValue(s, j);
    Ok(Entry(key, value), k)
  }

  function ParseEntries(s: seq<byte>, i: nat, count: nat): (p: Parsed<seq<Entry>>)
    requires i <= |s|
    ensures p.Ok? ==> |p.value| == count && i + 5 * count <= p.next <= |s|
    decreases count
  {
    if count == 0 then Ok([], i)
    else
      var (e, j) :- ParseEntry(s, i);
      var (rest, k) :- ParseEntries(s, j, count - 1);
      Ok([e] + rest, k)
  }

  function ParseMeta(s: seq<byte>, i: nat): (p: Parsed<Option<Metadata>>)
    requires i <= |s|
    ensures p.Ok? ==> i + 1 <= p.next <= |s|
  {
    var (tag, j) :- ParseU8(s, i);
    if tag == 0 then Ok(None, j)
    else if tag == 1 then
      var (count, k) :- ParseU32(s, j);
      var (entries, l) :- ParseEntries(s, k, count);
      Ok(Some(Collect(entries)), l)
    else Err(InvalidPayload(UnknownPresenceTag))
  }

  function ParseId(s: seq<byte>, i: nat): (p: Parsed<VectorId>)
    requires i <= |s|
    ensures p.Ok? ==> i + 6 <= p.next <= |s|
  {
    var (tag, j) :- ParseU8(s, i);
    if tag == 0 then
      var (n, k) :- ParseU64(s, j); Ok(VectorId.U64(n), k)
    else if tag == 1 then
      var (len, k) :- ParseU32(s, j);
      if len == 0 then Err(InvalidPayload(EmptyIdKey))
      else var (bytes, l) :- ParseVec(s, k, len); Ok(VectorId.Bytes(bytes), l)
    else Err(InvalidPayload(UnknownIdTag))
  }

  function ParseComponents(s: seq<byte>, i: nat, dim: nat): (p: Parsed<seq<f32>>)
    requires i <= |s|
    ensures p.Ok? ==> |p.value| == dim && p.next == i + 4 * dim <= |s|
    decreases dim
  {
    if dim == 0 then Ok([], i)
    else
      var (c, j) :- ParseU32(s, i);
      var (rest, k) :- ParseComponents(s, j, dim - 1);
      Ok([c] + rest, k)
  }

  function ParseRow(s: seq<byte>, i: nat, dim: nat): (p: Parsed<Row>)
    requires i <= |s|
    ensures p.Ok? ==> |p.value.vector| == dim && i + RowFloor(dim) <= p.next <= |s|
  {
    var (id, j) :- ParseId(s, i);
    var (vector, k) :- ParseComponents(s, j, dim);
    var (meta, l) :- ParseMeta(s, k);
    Ok(Row(id, vector, meta), l)
  }

  /** The least a row costs: six bytes of id, its components, one presence byte. */
  function RowFloor(dim: nat): nat { 7 + 4 * dim }

  function ParseRows(s: seq<byte>, i: nat, n: nat, dim: nat): (p: Parsed<seq<Row>>)
    requires i <= |s|
    ensures p.Ok? ==> |p.value| == n && i <= p.next <= |s|
    ensures p.Ok? ==> i + n * RowFloor(dim) <= p.next
    ensures p.Ok? ==> forall row :: row in p.value ==> |row.vector| == dim
    decreases n
  {
    if n == 0 then Ok([], i)
    else
      var (row, j) :- ParseRow(s, i, dim);
      var (rest, k) :- ParseRows(s, j, n - 1, dim);
      assert n * RowFloor(dim) == RowFloor(dim) + (n - 1) * RowFloor(dim);
      Ok([row] + rest, k)
  }

  function ParseU64s(s: seq<byte>, i: nat, n: nat): (p: Parsed<seq<u64>>)
    requires i <= |s|
    ensures p.Ok? ==> |p.value| == n && p.next == i + 8 * n <= |s|
    decreases n
  {
    if n == 0 then Ok([], i)
    else
      var (f, j) :- ParseU64(s, i);
      var (rest, k) :- ParseU64s(s, j, n - 1);
      Ok([f] + rest, k)
  }

  function ParseOption(s: seq<byte>, i: nat): (p: Parsed<Option<u64>>)
    requires i <= |s|
    ensures p.Ok? ==> i + 1 <= p.next <= |s|
  {
    var (tag, j) :- ParseU8(s, i);
    if tag == 0 then Ok(None, j)
    else if tag == 1 then
      var (m, k) :- ParseU64(s, j); Ok(Some(m), k)
    else Err(InvalidPayload(PqSubvectorsTag))
  }

  function ParseKind(s: seq<byte>, i: nat): (p: Parsed<IndexKind>)
    requires i <= |s|
    ensures p.Ok? ==> i + 1 <= p.next <= |s|
  {
    var (tag, j) :- ParseU8(s, i);
    if tag == 0 then Ok(Flat, j)
    else if tag == 1 then
      var (f, k) :- ParseU64s(s, j, 5);
      Ok(Hnsw(HnswConfig(f[0], f[1], f[2], f[3], f[4])), k)
    else if tag == 2 then
      var (f, k) :- ParseU64s(s, j, 3);
      var (pq, l) :- ParseU8(s, k);
      var (sub, m) :- ParseOption(s, l);
      var (refine, n) :- ParseU32(s, m);
      var (seed, o) :- ParseU64(s, n);
      Ok(Ivf(IvfConfig(f[0], f[1], f[2], pq != 0, sub, refine, seed)), o)
    else Err(InvalidPayload(UnknownIndexKindTag))
  }

  function MetricOf(tag: byte): Option<DistanceMetric> {
    match tag
    case 0 => Some(Cosine)
    case 1 => Some(DotProduct)
    case 2 => Some(Euclidean)
    case 3 => Some(Manhattan)
    case 4 => Some(Hamming)
    case _ => None
  }

  function ParseMetric(s: seq<byte>, i: nat): (p: Parsed<DistanceMetric>)
    requires i <= |s|
    ensures p.Ok? ==> p.next == i + 1 <= |s|
  {
    var (tag, j) :- ParseU8(s, i);
    match MetricOf(tag)
    case Some(m) => Ok(m, j)
    case None => Err(InvalidMetric(tag))
  }

  function ParseHeader(s: seq<byte>, i: nat): (p: Parsed<()>)
    requires i <= |s|
    ensures p.Ok? ==> p.next == i + 8 <= |s|
  {
    var (magic, j) :- ParseExact(s, i, 4);
    if magic != MAGIC then Err(InvalidPayload(MagicMismatch))
    else
      var (version, k) :- ParseU32(s, j);
      if version != VERSION then Err(InvalidPayload(UnsupportedVersion)) else Ok((), k)
  }

  function ParsePayload(s: seq<byte>, i: nat): (p: Parsed<Payload>)
    requires i <= |s|
    ensures p.Ok? ==> p.next <= |s|
  {
    var (_, h) :- ParseHeader(s, i);
    var (kind, j) :- ParseKind(s, h);
    var (dim, k) :- ParseU64(s, j);
    var (metric, l) :- ParseMetric(s, k);
    var (n, m) :- ParseU64(s, l);
    var (rows, o) :- ParseRows(s, m, n, dim);
    Ok(Payload(kind, dim, metric, rows), o)
  }

  /** A row whose id the decoder takes back: `Bytes` keys must not be empty. */
  predicate Storable(id: VectorId) { id.Bytes? ==> id.bytes != [] }

  predicate AllStorable(rows: seq<Row>) { forall row :: row in rows ==> Storable(row.id) }

  predicate AllDim(rows: seq<Row>, dim: nat) { forall row :: row in rows ==> |row.vector| == dim }
}
