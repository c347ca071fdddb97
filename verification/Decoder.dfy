/**
 The decoder over a mutable reader. Besides the value it computes, every method accounts
 for what it asked the allocator for and how often its loops ran.
 */
module Decoder {
  import opened Wrappers
  import opened Bytes
  import opened Types
  import opened MetadataMap
  import opened PayloadFormat
  import opened PayloadAcceptance

  /** Upper bound on what a length field may reserve before its bytes arrive. */
  const MAX_PREALLOC: nat := 4096

  function Clamp(n: nat): nat { if n < MAX_PREALLOC then n else MAX_PREALLOC }

  /** Slots a vector of capacity hint `cap` still holds empty at length `len`. */
  function Pending(len: nat, cap: nat): nat { if len < cap then cap - len else 0 }

  /**
   `unfilled`: slots reserved by capacity hints and not yet filled; `peak`: its maximum so
   far; `filled`: elements pushed; `steps`: loop iterations entered.
   */
  datatype Ledger = Ledger(unfilled: int, peak: int, filled: int, steps: int) {
    function Reserve(cap: nat): Ledger {
      this.(unfilled := unfilled + cap, peak := if unfilled + cap > peak then unfilled + cap else peak)
    }
    function Push(len: nat, cap: nat): Ledger {
      this.(unfilled := unfilled - Pending(len, cap) + Pending(len + 1, cap), filled := filled + 1)
    }
    /** `read_to_end` fills a vector of hint `cap` with `n` bytes at once, and the call returns or drops it. */
    function FillAndClose(n: nat, cap: nat): Ledger { this.(unfilled := unfilled - cap, filled := filled + n) }
    function Close(len: nat, cap: nat): Ledger { this.(unfilled := unfilled - Pending(len, cap)) }
    function Step(): Ledger { this.(steps := steps + 1) }
  }

  /**
   From `l` to `m` while reading from `i` to `j`: nothing stays reserved, at most `depth`
   hints were open at once, pushed elements are paid for by bytes, and so are iterations
   except for at most `misses` that failed.
   */
  predicate Metered(l: Ledger, i: nat, m: Ledger, j: nat, depth: nat, misses: nat) {
    && i <= j
    && m.unfilled == l.unfilled
    && Peaked(l, m, depth)
    && l.filled <= m.filled <= l.filled + (j - i)
    && l.steps <= m.steps <= l.steps + (j - i) + misses
  }

  /** At least `n` elements were pushed and `n` iterations made. */
  predicate Floored(l: Ledger, m: Ledger, n: int) { l.filled + n <= m.filled && l.steps + n <= m.steps }

  predicate Peaked(l: Ledger, m: Ledger, depth: nat) {
    l.peak <= m.peak && (m.peak <= l.peak || m.peak <= l.unfilled + depth * MAX_PREALLOC)
  }

  /** The outcome and the reader's position are those of the parse. */
  predicate Agrees<T(==)>(res: Result<T, PersistError>, pos: nat, p: Parsed<T>) {
    match p
    case Ok(v, n) => res == Success(v) && pos == n
    case Err(e) => res == Failure(e)
  }

  function Prepend<T>(xs: seq<T>, p: Parsed<seq<T>>): Parsed<seq<T>> {
    match p
    case Ok(ys, n) => Ok(xs + ys, n)
    case Err(e) => Err(e)
  }

  lemma PrependSnoc<T>(xs: seq<T>, x: T, p: Parsed<seq<T>>)
    ensures Prepend(xs, Prepend([x], p)) == Prepend(xs + [x], p)
  {
    if p.Ok? { assert xs + ([x] + p.value) == xs + [x] + p.value; }
  }

  lemma PrependNone<T>(p: Parsed<seq<T>>)
    ensures Prepend([], p) == p
  {
    if p.Ok? { assert [] + p.value == p.value; }
  }

  class Reader {
    const bytes: seq<byte>
    var pos: nat
    ghost var ledger: Ledger

    predicate Valid() reads this { pos <= |bytes| }

    constructor (bytes: seq<byte>)
      ensures Valid() && pos == 0 && this.bytes == bytes && ledger == Ledger(0, 0, 0, 0)
    {
      this.bytes := bytes;
      pos := 0;
      ledger := Ledger(0, 0, 0, 0);
    }

    method ReadExact(n: nat) returns (r: Result<seq<byte>, PersistError>)
      requires Valid()
      modifies this
      ensures Valid() && Agrees(r, pos, ParseExact(bytes, old(pos), n))
      ensures ledger == old(ledger) && old(pos) <= pos
    {
      if pos + n > |bytes| { return Failure(Io); }
      r := Success(bytes[pos..pos + n]);
      pos := pos + n;
    }

    method ReadU8() returns (r: Result<byte, PersistError>)
      requires Valid()
      modifies this
      ensures Valid() && Agrees(r, pos, ParseU8(bytes, old(pos)))
      ensures ledger == old(ledger) && old(pos) <= pos
    {
      var b := ReadExact(1);
      if b.Failure? { return Failure(b.error); }
      r := Success(b.value[0]);
    }

    method ReadU32() returns (r: Result<u32, PersistError>)
      requires Valid()
      modifies this
      ensures Valid() && Agrees(r, pos, ParseU32(bytes, old(pos)))
      ensures r.Success? ==> U32At(bytes, old(pos), r.value)
      ensures ledger == old(ledger) && old(pos) <= pos
    {
      var b := ReadExact(4);
      if b.Failure? { return Failure(b.error); }
      Widths();
      NumbersRead(bytes, pos - 4);
      r := Success(FromLe(b.value));
    }

    method ReadU64() returns (r: Result<u64, PersistError>)
      requires Valid()
      modifies this
      ensures Valid() && Agrees(r, pos, ParseU64(bytes, old(pos)))
      ensures r.Success? ==> U64At(bytes, old(pos), r.value)
      ensures ledger == old(ledger) && old(pos) <= pos
    {
      var b := ReadExact(8);
      if b.Failure? { return Failure(b.error); }
      Widths();
      NumbersRead(bytes, pos - 8);
      r := Success(FromLe(b.value));
    }

    /** Read at most `len` bytes into a buffer grown from a clamped hint. */
    method ReadVec(len: nat) returns (r: Result<seq<byte>, PersistError>)
      requires Valid()
      modifies this
      ensures Valid() && Agrees(r, pos, ParseVec(bytes, old(pos), len))
      ensures Metered(old(ledger), old(pos), ledger, pos, 1, 0) && ledger.steps == old(ledger).steps
      ensures ledger.filled == old(ledger).filled + (pos - old(pos)) && ledger.peak >= old(ledger).unfilled + Clamp(len)
    {
      var cap := Clamp(len);
      ledger := ledger.Reserve(cap);
      var found := if pos + len <= |bytes| then len else |bytes| - pos;
      var buf := bytes[pos..pos + found];
      pos := pos + found;
      ledger := ledger.FillAndClose(found, cap);
      r := if found != len then Failure(TruncatedPayload(len, found)) else Success(buf);
    }

    method DecodeStr() returns (r: Result<Text, PersistError>)
      requires Valid()
      modifies this
      ensures Valid() && Agrees(r, pos, ParseStr(bytes, old(pos)))
      ensures Metered(old(ledger), old(pos), ledger, pos, 1, 0) && ledger.steps == old(ledger).steps
      ensures r.Success? ==> ledger.filled + 4 <= old(ledger).filled + (pos - old(pos))
    {
      hide IsUtf8, ParseU32, ParseVec;
      var len := ReadU32();
      if len.Failure? { return Failure(len.error); }
      var buf := ReadVec(len.value);
      if buf.Failure? { return Failure(buf.error); }
      r := if IsUtf8(buf.value) then Success(buf.value) else Failure(InvalidPayload(NotUtf8));
    }

    method DecodeValue() returns (r: Result<Value, PersistError>)
      requires Valid()
      modifies this
      ensures Valid() && Agrees(r, pos, ParseValue(bytes, old(pos)))
      ensures Metered(old(ledger), old(pos), ledger, pos, 1, 0) && ledger.steps == old(ledger).steps
    {
      hide ParseU64, ParseStr, ParseU8;
      var tag := ReadU8();
      if tag.Failure? { return Failure(tag.error); }
      match tag.value
      case 0 =>
        var s := DecodeStr();
        r := if s.Failure? then Failure(s.error) else Success(String(s.value));
      case 1 =>
        var u := ReadU64();
        r := if u.Failure? then Failure(u.error) else Success(Int(FromTwos(u.value)));
      case 2 =>
        var u := ReadU64();
        r := if u.Failure? then Failure(u.error) else Success(Float(u.value));
      case 3 =>
        var b := ReadU8();
        r := if b.Failure? then Failure(b.error) else Success(Bool(b.value != 0));
      case 4 => r := Success(Null);
      case _ => r := Failure(InvalidPayload(UnknownValueTag));
    }

    method DecodeEntry() returns (r: Result<Entry, PersistError>)
      requires Valid()
      modifies this
      ensures Valid() && Agrees(r, pos, ParseEntry(bytes, old(pos)))
      ensures Metered(old(ledger), old(pos), ledger, pos, 1, 0) && ledger.steps == old(ledger).steps
      ensures r.Success? ==> ledger.filled + 4 <= old(ledger).filled + (pos - old(pos))
    {
      hide ParseStr, ParseValue;
      var key := DecodeStr();
      if key.Failure? { return Failure(key.error); }
      var value := DecodeValue();
      r := if value.Failure? then Failure(value.error) else Success(Entry(key.value, value.value));
    }

    method DecodeEntries(count: nat) returns (r: Result<seq<Entry>, PersistError>)
      requires Valid()
      modifies this
      ensures Valid() && Agrees(r, pos, ParseEntries(bytes, old(pos), count))
      ensures Metered(old(ledger), old(pos), ledger, pos, 2, if r.Success? then 0 else 1)
      ensures r.Success? ==> Floored(old(ledger), ledger, count)
      ensures ledger.peak >= old(ledger).unfilled + Clamp(count)
    {
      hide ParseEntry;
      ghost var start := ledger;
      var cap := Clamp(count);
      var entries: seq<Entry> := [];
      PrependNone(ParseEntries(bytes, pos, count));
      ledger := ledger.Reserve(cap);
      for k := 0 to count
        invariant Valid() && |entries| == k && old(pos) + 5 * k <= pos
        invariant ParseEntries(bytes, old(pos), count) == Prepend(entries, ParseEntries(bytes, pos, count - k))
        invariant ledger.unfilled == start.unfilled + Pending(k, cap) && Peaked(start, ledger, 2)
        invariant start.filled <= ledger.filled <= start.filled + (pos - old(pos))
        invariant start.steps <= ledger.steps <= start.steps + (pos - old(pos))
        invariant Floored(start, ledger, k) && ledger.peak >= start.unfilled + cap
      {
        ledger := ledger.Step();
        var e := DecodeEntry();
        if e.Failure? { ledger := ledger.Close(k, cap); return Failure(e.error); }
        PrependSnoc(entries, e.value, ParseEntries(bytes, pos, count - k - 1));
        entries := entries + [e.value];
        ledger := ledger.Push(k, cap);
      }
      assert entries + [] == entries;
      r := Success(entries);
    }

    method DecodeMeta() returns (r: Result<Option<Metadata>, PersistError>)
      requires Valid()
      modifies this
      ensures Valid() && Agrees(r, pos, ParseMeta(bytes, old(pos)))
      ensures Metered(old(ledger), old(pos), ledger, pos, 2, if r.Success? then 0 else 1)
    {
      hide ParseU8, ParseU32, ParseEntries, Collect;
      var tag := ReadU8();
      if tag.Failure? { return Failure(tag.error); }
      match tag.value
      case 0 => r := Success(None);
      case 1 =>
        var count := ReadU32();
        if count.Failure? { return Failure(count.error); }
        var entries := DecodeEntries(count.value);
        r := if entries.Failure? then Failure(entries.error) else Success(Some(Collect(entries.value)));
      case _ => r := Failure(InvalidPayload(UnknownPresenceTag));
    }

    method DecodeId() returns (r: Result<VectorId, PersistError>)
      requires Valid()
      modifies this
      ensures Valid() && Agrees(r, pos, ParseId(bytes, old(pos)))
      ensures Metered(old(ledger), old(pos), ledger, pos, 1, 0) && ledger.steps == old(ledger).steps
      ensures r.Success? ==> ledger.filled + 5 <= old(ledger).filled + (pos - old(pos))
    {
      hide ParseU8, ParseU32, ParseU64, ParseVec;
      var tag := ReadU8();
      if tag.Failure? { return Failure(tag.error); }
      match tag.value
      case 0 =>
        var n := ReadU64();
        r := if n.Failure? then Failure(n.error) else Success(VectorId.U64(n.value));
      case 1 =>
        var len := ReadU32();
        if len.Failure? { return Failure(len.error); }
        if len.value == 0 { return Failure(InvalidPayload(EmptyIdKey)); }
        var key := ReadVec(len.value);
        r := if key.Failure? then Failure(key.error) else Success(VectorId.Bytes(key.value));
      case _ => r := Failure(InvalidPayload(UnknownIdTag));
    }

    method DecodeComponents(dim: nat) returns (r: Result<seq<f32>, PersistError>)
      requires Valid()
      modifies this
      ensures Valid() && Agrees(r, pos, ParseComponents(bytes, old(pos), dim))
      ensures Metered(old(ledger), old(pos), ledger, pos, 1, if r.Success? then 0 else 1)
      ensures r.Success? ==> Floored(old(ledger), ledger, dim)
      ensures ledger.peak >= old(ledger).unfilled + Clamp(dim)
    {
      hide ParseU32;
      ghost var start := ledger;
      var cap := Clamp(dim);
      var buf: seq<f32> := [];
      PrependNone(ParseComponents(bytes, pos, dim));
      ledger := ledger.Reserve(cap);
      for k := 0 to dim
        invariant Valid() && |buf| == k && pos == old(pos) + 4 * k
        invariant ParseComponents(bytes, old(pos), dim) == Prepend(buf, ParseComponents(bytes, pos, dim - k))
        invariant ledger.unfilled == start.unfilled + Pending(k, cap) && Peaked(start, ledger, 1)
        invariant ledger.filled == start.filled + k && ledger.steps == start.steps + k
        invariant ledger.peak >= start.unfilled + cap
      {
        ledger := ledger.Step();
        var c := ReadU32();
        if c.Failure? { ledger := ledger.Close(k, cap); return Failure(c.error); }
        PrependSnoc(buf, c.value, ParseComponents(bytes, pos, dim - k - 1));
        buf := buf + [c.value];
        ledger := ledger.Push(k, cap);
      }
      assert buf + [] == buf;
      r := Success(buf);
    }

    /** The body of the row loop: an id, `dim` components without a count, optional metadata. */
    method DecodeRow(dim: nat) returns (r: Result<Row, PersistError>)
      requires Valid()
      modifies this
      ensures Valid() && Agrees(r, pos, ParseRow(bytes, old(pos), dim))
      ensures Metered(old(ledger), old(pos), ledger, pos, 2, if r.Success? then 0 else 1)
      ensures r.Success? ==> ledger.steps < old(ledger).steps + (pos - old(pos))
      ensures r.Success? ==> ledger.filled < old(ledger).filled + (pos - old(pos))
      ensures r.Success? ==> Floored(old(ledger), ledger, dim)
    {
      hide ParseId, ParseComponents, ParseMeta;
      var id := DecodeId();
      if id.Failure? { return Failure(id.error); }
      var vector := DecodeComponents(dim);
      if vector.Failure? { return Failure(vector.error); }
      var meta := DecodeMeta();
      if meta.Failure? { return Failure(meta.error); }
      r := Success(Row(id.value, vector.value, meta.value));
    }

    method DecodeRows(n: nat, dim: nat) returns (r: Result<seq<Row>, PersistError>)
      requires Valid()
      modifies this
      ensures Valid() && Agrees(r, pos, ParseRows(bytes, old(pos), n, dim))
      ensures Metered(old(ledger), old(pos), ledger, pos, 3, if r.Success? then 0 else 2)
      ensures r.Success? ==> Floored(old(ledger), ledger, n * (1 + dim))
      ensures ledger.peak >= old(ledger).unfilled + Clamp(n)
    {
      hide ParseRow, RowFloor;
      ghost var start := ledger;
      var cap := Clamp(n);
      var rows: seq<Row> := [];
      PrependNone(ParseRows(bytes, pos, n, dim));
      ledger := ledger.Reserve(cap);
      for k := 0 to n
        invariant Valid() && |rows| == k && old(pos) <= pos
        invariant ParseRows(bytes, old(pos), n, dim) == Prepend(rows, ParseRows(bytes, pos, n - k, dim))
        invariant ledger.unfilled == start.unfilled + Pending(k, cap) && Peaked(start, ledger, 3)
        invariant start.filled <= ledger.filled <= start.filled + (pos - old(pos))
        invariant start.steps <= ledger.steps <= start.steps + (pos - old(pos))
        invariant Floored(start, ledger, k * (1 + dim)) && ledger.peak >= start.unfilled + cap
      {
        assert (k + 1) * (1 + dim) == k * (1 + dim) + 1 + dim;
        ledger := ledger.Step();
        var row := DecodeRow(dim);
        if row.Failure? { ledger := ledger.Close(k, cap); return Failure(row.error); }
        PrependSnoc(rows, row.value, ParseRows(bytes, pos, n - k - 1, dim));
        rows := rows + [row.value];
        ledger := ledger.Push(k, cap);
      }
      assert rows + [] == rows;
      r := Success(rows);
    }

    method DecodeKind() returns (r: Result<IndexKind, PersistError>)
      requires Valid()
      modifies this
      ensures Valid() && Agrees(r, pos, ParseKind(bytes, old(pos)))
      ensures ledger == old(ledger) && old(pos) <= pos
    {
      hide ParseU8, ParseU32, ParseU64, ParseU64s, ParseOption;
      var tag := ReadU8();
      if tag.Failure? { return Failure(tag.error); }
      match tag.value
      case 0 => r := Success(Flat);
      case 1 =>
        var f := ReadU64s(5);
        r := if f.Failure? then Failure(f.error)
             else Success(Hnsw(HnswConfig(f.value[0], f.value[1], f.value[2], f.value[3], f.value[4])));
      case 2 =>
        var f := ReadU64s(3);
        if f.Failure? { return Failure(f.error); }
        var pq := ReadU8();
        if pq.Failure? { return Failure(pq.error); }
        var sub := DecodeOption();
        if sub.Failure? { return Failure(sub.error); }
        var refine := ReadU32();
        if refine.Failure? { return Failure(refine.error); }
        var seed := ReadU64();
        if seed.Failure? { return Failure(seed.error); }
        r := Success(Ivf(IvfConfig(
          f.value[0], f.value[1], f.value[2], pq.value != 0, sub.value, refine.value, seed.value)));
      case _ => r := Failure(InvalidPayload(UnknownIndexKindTag));
    }

    /** The consecutive `read_usize` calls of one index kind. */
    method ReadU64s(n: nat) returns (r: Result<seq<u64>, PersistError>)
      requires Valid()
      modifies this
      ensures Valid() && Agrees(r, pos, ParseU64s(bytes, old(pos), n))
      ensures ledger == old(ledger) && old(pos) <= pos
    {
      hide ParseU64;
      var fields: seq<u64> := [];
      PrependNone(ParseU64s(bytes, pos, n));
      for k := 0 to n
        invariant Valid() && |fields| == k && old(pos) <= pos && ledger == old(ledger)
        invariant ParseU64s(bytes, old(pos), n) == Prepend(fields, ParseU64s(bytes, pos, n - k))
      {
        var f := ReadU64();
        if f.Failure? { return Failure(f.error); }
        PrependSnoc(fields, f.value, ParseU64s(bytes, pos, n - k - 1));
        fields := fields + [f.value];
      }
      assert fields + [] == fields;
      r := Success(fields);
    }

    method DecodeOption() returns (r: Result<Option<u64>, PersistError>)
      requires Valid()
      modifies this
      ensures Valid() && Agrees(r, pos, ParseOption(bytes, old(pos)))
      ensures ledger == old(ledger) && old(pos) <= pos
    {
      hide ParseU8, ParseU64;
      var tag := ReadU8();
      if tag.Failure? { return Failure(tag.error); }
      match tag.value
      case 0 => r := Success(None);
      case 1 =>
        var m := ReadU64();
        r := if m.Failure? then Failure(m.error) else Success(Some(m.value));
      case _ => r := Failure(InvalidPayload(PqSubvectorsTag));
    }

    /**
     Read one payload. On any input at all, hints never hold more than three clamped
     reservations open, and neither pushed elements nor loop iterations outrun the bytes.
     */
    method Decode() returns (r: Result<Payload, PersistError>)
      requires Valid()
      modifies this
      ensures Valid() && Agrees(r, pos, ParsePayload(bytes, old(pos)))
      ensures Metered(old(ledger), old(pos), ledger, pos, 3, if r.Success? then 0 else 2)
      ensures r.Success? ==> Floored(old(ledger), ledger, |r.value.rows| * (1 + r.value.dim))
      ensures r.Success? ==> ledger.peak >= old(ledger).unfilled + Clamp(|r.value.rows|)
    {
      hide ParseU32, ParseU64, ParseKind, ParseRows, U32At, U64At, Floored, Clamp;
      var magic := ReadExact(4);
      if magic.Failure? { return Failure(magic.error); }
      if magic.value != MAGIC { return Failure(InvalidPayload(MagicMismatch)); }
      var version := ReadU32();
      if version.Failure? { return Failure(version.error); }
      if version.value != VERSION { return Failure(InvalidPayload(UnsupportedVersion)); }
      var kind := DecodeKind();
      if kind.Failure? { return Failure(kind.error); }
      var dim := ReadU64();
      if dim.Failure? { return Failure(dim.error); }
      var tag := ReadU8();
      if tag.Failure? { return Failure(tag.error); }
      var metric := MetricOf(tag.value);
      if metric.None? { return Failure(InvalidMetric(tag.value)); }
      var n := ReadU64();
      if n.Failure? { return Failure(n.error); }
      var rows := DecodeRows(n.value, dim.value);
      if rows.Failure? { return Failure(rows.error); }
      r := Success(Payload(kind.value, dim.value, metric.value, rows.value));
    }
  }

  /**
   Decode a byte string from its start. Whatever it contains, at most three clamped hints of
   4096 slots are ever open at once, no more elements are pushed than there are bytes, and
   the loops enter at most two iterations more than there are bytes. The account is not
   empty: every row and every component of an accepted payload is in it.
   */
  method DecodeBytes(bytes: seq<byte>) returns (r: Result<Payload, PersistError>, consumed: nat, ghost cost: Ledger)
    ensures Agrees(r, consumed, ParsePayload(bytes, 0)) && consumed <= |bytes|
    ensures r.Success? ==> |bytes| >= 25 && bytes[..8] == [0x49, 0x51, 0x44, 0x43, 0x01, 0x00, 0x00, 0x00]
    ensures cost.unfilled == 0 && cost.peak <= 3 * 4096
    ensures cost.filled <= consumed && cost.steps <= consumed + 2
    ensures r.Success? ==>
              var n, dim := |r.value.rows|, r.value.dim;
              && cost.filled >= n * (1 + dim) && cost.steps >= n * (1 + dim)
              && cost.peak >= if n < 4096 then n else 4096
  {
    hide ParsePayload;
    HeaderRead(bytes);
    var reader := new Reader(bytes);
    r := reader.Decode();
    consumed, cost := reader.pos, reader.ledger;
  }
}
