/**
 A parse depends on nothing but the bytes it consumes: it gives the same answer on every
 sequence that agrees with the input up to the end of what was consumed.
 */
module PayloadLocality {
  import opened Bytes
  import opened Types
  import opened MetadataMap
  import opened PayloadFormat

  lemma LocalU32(s: seq<byte>, t: seq<byte>, i: nat)
    requires i <= |s| && i <= |t| && ParseU32(s, i).Ok? && AgreeUpTo(s, t, i + 4)
    ensures ParseU32(t, i) == ParseU32(s, i)
  {
    AgreeWindow(s, t, i + 4, i, i + 4);
  }

  lemma LocalU64(s: seq<byte>, t: seq<byte>, i: nat)
    requires i <= |s| && i <= |t| && ParseU64(s, i).Ok? && AgreeUpTo(s, t, i + 8)
    ensures ParseU64(t, i) == ParseU64(s, i)
  {
    AgreeWindow(s, t, i + 8, i, i + 8);
  }

  lemma LocalStr(s: seq<byte>, t: seq<byte>, i: nat)
    requires i <= |s| && i <= |t| && ParseStr(s, i).Ok? && AgreeUpTo(s, t, ParseStr(s, i).next)
    ensures ParseStr(t, i) == ParseStr(s, i)
  {
    hide IsUtf8;
    LocalU32(s, t, i);
    AgreeWindow(s, t, ParseStr(s, i).next, i + 4, ParseStr(s, i).next);
  }

  lemma LocalValue(s: seq<byte>, t: seq<byte>, i: nat)
    requires i <= |s| && i <= |t| && ParseValue(s, i).Ok? && AgreeUpTo(s, t, ParseValue(s, i).next)
    ensures ParseValue(t, i) == ParseValue(s, i)
  {
    hide ParseStr, ParseU64;
    if s[i] == 0 {
      LocalStr(s, t, i + 1);
    } else if s[i] == 1 || s[i] == 2 {
      LocalU64(s, t, i + 1);
    }
  }

  lemma LocalEntry(s: seq<byte>, t: seq<byte>, i: nat)
    requires i <= |s| && i <= |t| && ParseEntry(s, i).Ok? && AgreeUpTo(s, t, ParseEntry(s, i).next)
    ensures ParseEntry(t, i) == ParseEntry(s, i)
  {
    hide ParseStr, ParseValue, AgreeUpTo;
    var j := ParseStr(s, i).next;
    AgreeLess(s, t, ParseEntry(s, i).next, j);
    LocalStr(s, t, i);
    LocalValue(s, t, j);
  }

  lemma {:induction false} LocalEntries(s: seq<byte>, t: seq<byte>, i: nat, count: nat)
    requires i <= |s| && i <= |t| && ParseEntries(s, i, count).Ok?
    requires AgreeUpTo(s, t, ParseEntries(s, i, count).next)
    ensures ParseEntries(t, i, count) == ParseEntries(s, i, count)
    decreases count
  {
    hide ParseEntry, AgreeUpTo;
    if count == 0 {
    } else {
      var j := ParseEntry(s, i).next;
      AgreeLess(s, t, ParseEntries(s, i, count).next, j);
      LocalEntry(s, t, i);
      LocalEntries(s, t, j, count - 1);
    }
  }

  lemma LocalMeta(s: seq<byte>, t: seq<byte>, i: nat)
    requires i <= |s| && i <= |t| && ParseMeta(s, i).Ok? && AgreeUpTo(s, t, ParseMeta(s, i).next)
    ensures ParseMeta(t, i) == ParseMeta(s, i)
  {
    hide ParseU32, ParseEntries, Collect;
    if s[i] == 1 {
      LocalU32(s, t, i + 1);
      LocalEntries(s, t, i + 5, ParseU32(s, i + 1).value);
    }
  }

  lemma LocalId(s: seq<byte>, t: seq<byte>, i: nat)
    requires i <= |s| && i <= |t| && ParseId(s, i).Ok? && AgreeUpTo(s, t, ParseId(s, i).next)
    ensures ParseId(t, i) == ParseId(s, i)
  {
    hide ParseU32, ParseU64;
    if s[i] == 0 {
      LocalU64(s, t, i + 1);
    } else {
      LocalU32(s, t, i + 1);
      AgreeWindow(s, t, ParseId(s, i).next, i + 5, ParseId(s, i).next);
    }
  }

  lemma {:induction false} LocalComponents(s: seq<byte>, t: seq<byte>, i: nat, dim: nat)
    requires i <= |s| && i <= |t| && ParseComponents(s, i, dim).Ok? && AgreeUpTo(s, t, i + 4 * dim)
    ensures ParseComponents(t, i, dim) == ParseComponents(s, i, dim)
    decreases dim
  {
    hide ParseU32;
    if dim == 0 {
    } else {
      LocalU32(s, t, i);
      LocalComponents(s, t, i + 4, dim - 1);
    }
  }

  lemma LocalRow(s: seq<byte>, t: seq<byte>, i: nat, dim: nat)
    requires i <= |s| && i <= |t| && ParseRow(s, i, dim).Ok? && AgreeUpTo(s, t, ParseRow(s, i, dim).next)
    ensures ParseRow(t, i, dim) == ParseRow(s, i, dim)
  {
    hide ParseId, ParseComponents, ParseMeta, AgreeUpTo;
    var n := ParseRow(s, i, dim).next;
    var j := ParseId(s, i).next;
    AgreeLess(s, t, n, j);
    LocalId(s, t, i);
    AgreeLess(s, t, n, j + 4 * dim);
    LocalComponents(s, t, j, dim);
    LocalMeta(s, t, j + 4 * dim);
  }

  lemma {:induction false} LocalRows(s: seq<byte>, t: seq<byte>, i: nat, n: nat, dim: nat)
    requires i <= |s| && i <= |t| && ParseRows(s, i, n, dim).Ok? && AgreeUpTo(s, t, ParseRows(s, i, n, dim).next)
    ensures ParseRows(t, i, n, dim) == ParseRows(s, i, n, dim)
    decreases n
  {
    hide ParseRow, AgreeUpTo, RowFloor;
    if n == 0 {
    } else {
      var j := ParseRow(s, i, dim).next;
      AgreeLess(s, t, ParseRows(s, i, n, dim).next, j);
      LocalRow(s, t, i, dim);
      LocalRows(s, t, j, n - 1, dim);
    }
  }

  lemma {:induction false} LocalU64s(s: seq<byte>, t: seq<byte>, i: nat, n: nat)
    requires i <= |s| && i <= |t| && ParseU64s(s, i, n).Ok? && AgreeUpTo(s, t, i + 8 * n)
    ensures ParseU64s(t, i, n) == ParseU64s(s, i, n)
    decreases n
  {
    hide ParseU64;
    if n == 0 {
    } else {
      LocalU64(s, t, i);
      LocalU64s(s, t, i + 8, n - 1);
    }
  }

  lemma LocalOption(s: seq<byte>, t: seq<byte>, i: nat)
    requires i <= |s| && i <= |t| && ParseOption(s, i).Ok? && AgreeUpTo(s, t, ParseOption(s, i).next)
    ensures ParseOption(t, i) == ParseOption(s, i)
  {
    hide ParseU64;
    if s[i] == 1 { LocalU64(s, t, i + 1); }
  }

  lemma LocalKind(s: seq<byte>, t: seq<byte>, i: nat)
    requires i <= |s| && i <= |t| && ParseKind(s, i).Ok? && AgreeUpTo(s, t, ParseKind(s, i).next)
    ensures ParseKind(t, i) == ParseKind(s, i)
  {
    hide ParseU64s, ParseOption, ParseU32, ParseU64;
    if s[i] == 1 {
      LocalU64s(s, t, i + 1, 5);
    } else if s[i] == 2 {
      LocalU64s(s, t, i + 1, 3);
      LocalOption(s, t, i + 26);
      var j := ParseOption(s, i + 26).next;
      LocalU32(s, t, j);
      LocalU64(s, t, j + 4);
    }
  }

  lemma LocalHeader(s: seq<byte>, t: seq<byte>, i: nat)
    requires i <= |s| && i <= |t| && ParseHeader(s, i).Ok? && AgreeUpTo(s, t, i + 8)
    ensures ParseHeader(t, i) == ParseHeader(s, i)
  {
    hide ParseU32;
    AgreeWindow(s, t, i + 8, i, i + 4);
    LocalU32(s, t, i + 4);
  }

  /** Decoding depends only on the bytes it consumes. */
  lemma LocalPayload(s: seq<byte>, t: seq<byte>, i: nat)
    requires i <= |s| && i <= |t| && ParsePayload(s, i).Ok? && AgreeUpTo(s, t, ParsePayload(s, i).next)
    ensures ParsePayload(t, i) == ParsePayload(s, i)
  {
    hide ParseHeader, ParseKind, ParseU64, ParseRows, AgreeUpTo;
    var end := ParsePayload(s, i).next;
    var h := ParseHeader(s, i).next;
    var j := ParseKind(s, h).next;
    var rows := j + 17;
    AgreeLess(s, t, end, h);
    LocalHeader(s, t, i);
    AgreeLess(s, t, end, j);
    LocalKind(s, t, h);
    AgreeLess(s, t, end, j + 8);
    LocalU64(s, t, j);
    AgreeLess(s, t, end, j + 17);
    assert s[j + 8] == t[j + 8] by {
      AgreeWindow(s, t, end, j + 8, j + 9);
      assert s[j + 8..j + 9][0] == t[j + 8..j + 9][0];
    }
    LocalU64(s, t, j + 9);
    LocalRows(s, t, rows, ParseU64(s, j + 9).value, ParseU64(s, j).value);
  }

  /** An accepted input extends freely to the right and tolerates no cut inside what was consumed. */
  lemma PrefixFree(s: seq<byte>, i: nat, tail: seq<byte>, cut: nat)
    requires i <= |s| && ParsePayload(s, i).Ok? && i <= cut < ParsePayload(s, i).next
    ensures ParsePayload(s[..ParsePayload(s, i).next] + tail, i) == ParsePayload(s, i)
    ensures ParsePayload(s[..cut], i).Err?
  {
    hide ParsePayload;
    LocalPayload(s, s[..ParsePayload(s, i).next] + tail, i);
    var short := s[..cut];
    if ParsePayload(short, i).Ok? {
      LocalPayload(short, s, i);
    }
  }
}
