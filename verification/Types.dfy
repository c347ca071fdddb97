/** Result types shared by every component. */
module Wrappers {
  datatype Option<+T> = None | Some(value: T)

  datatype Result<+T, +E> = Success(value: T) | Failure(error: E)
}

/** The vocabulary of the database: ids, metadata, rows, index kinds and errors. */
module Types {
  import opened Bytes
  import opened Wrappers

  // -- Text -------------------------------------------------------------

  predicate Tail(b: byte) { 0x80 <= b <= 0xBF }

  /** The length of the UTF-8 character at `i`, or 0: the grammar of section 4 of RFC 3629. */
  function CharWidth(s: seq<byte>, i: nat): (w: nat)
    requires i < |s|
    ensures i + w <= |s|
  {
    var left := |s| - i;
    if s[i] <= 0x7F then 1
    else if 0xC2 <= s[i] <= 0xDF && left >= 2 && Tail(s[i + 1]) then 2
    else if 0xE0 <= s[i] <= 0xEF && left >= 3 && Tail(s[i + 1]) && Tail(s[i + 2])
         && (s[i] == 0xE0 ==> s[i + 1] >= 0xA0) && (s[i] == 0xED ==> s[i + 1] <= 0x9F) then 3
    else if 0xF0 <= s[i] <= 0xF4 && left >= 4 && Tail(s[i + 1]) && Tail(s[i + 2]) && Tail(s[i + 3])
         && (s[i] == 0xF0 ==> s[i + 1] >= 0x90) && (s[i] == 0xF4 ==> s[i + 1] <= 0x8F) then 4
    else 0
  }

  /** The number that a lead byte and its tail bytes spell, in the bit layout for width `w`. */
  function Scalar(s: seq<byte>, i: nat, w: nat): int
    requires 1 <= w <= 4 && i + w <= |s|
  {
    var lead: int := s[i];
    if w == 1 then lead
    else
      var b: int := s[i + 1];
      if w == 2 then (lead - 0xC0) * 0x40 + (b - 0x80)
      else
        var c: int := s[i + 2];
        if w == 3 then (lead - 0xE0) * 0x1000 + (b - 0x80) * 0x40 + (c - 0x80)
        else
          var d: int := s[i + 3];
          (lead - 0xF0) * 0x4_0000 + (b - 0x80) * 0x1000 + (c - 0x80) * 0x40 + (d - 0x80)
  }

  /** The lead byte announces width `w` and tail bytes follow. */
  predicate Spelled(s: seq<byte>, i: nat, w: nat) {
    && 1 <= w <= 4 && i + w <= |s|
    && (w >= 2 ==> Tail(s[i + 1])) && (w >= 3 ==> Tail(s[i + 2])) && (w == 4 ==> Tail(s[i + 3]))
    && (match w
        case 1 => s[i] <= 0x7F
        case 2 => 0xC0 <= s[i] <= 0xDF
        case 3 => 0xE0 <= s[i] <= 0xEF
        case _ => 0xF0 <= s[i] <= 0xF7)
  }

  /** The Unicode scalar values whose shortest form has width `w`. */
  predicate ScalarOfWidth(c: int, w: nat) {
    match w
    case 1 => 0 <= c < 0x80
    case 2 => 0x80 <= c < 0x800
    case 3 => 0x800 <= c < 0x1_0000 && !(0xD800 <= c < 0xE000)
    case 4 => 0x1_0000 <= c < 0x11_0000
    case _ => false
  }

  /** A character is accepted exactly when it is the shortest form of a scalar value that is no surrogate. */
  lemma AcceptedIsShortestScalar(s: seq<byte>, i: nat, w: nat)
    requires i < |s| && w > 0
    ensures CharWidth(s, i) == w <==> Spelled(s, i, w) && ScalarOfWidth(Scalar(s, i, w), w)
  {
  }

  predicate Utf8From(s: seq<byte>, i: nat)
    requires i <= |s|
    decreases |s| - i
  {
    i == |s| || (CharWidth(s, i) > 0 && Utf8From(s, i + CharWidth(s, i)))
  }

  predicate IsUtf8(s: seq<byte>) { Utf8From(s, 0) }

  function Flatten(cs: seq<seq<byte>>): seq<byte> { if cs == [] then [] else cs[0] + Flatten(cs[1..]) }

  /** The shortest form of one Unicode scalar value, and nothing else. */
  predicate IsCharacter(c: seq<byte>) { Spelled(c, 0, |c|) && ScalarOfWidth(Scalar(c, 0, |c|), |c|) }

  /** The characters follow each other to the very end of `s`. */
  predicate Splits(s: seq<byte>, cs: seq<seq<byte>>) {
    Flatten(cs) == s && forall k :: 0 <= k < |cs| ==> IsCharacter(cs[k])
  }

  lemma CharacterAt(s: seq<byte>, i: nat, w: nat)
    requires i < |s| && w > 0 && i + w <= |s|
    ensures CharWidth(s, i) == w <==> IsCharacter(s[i..i + w])
  {
    AcceptedIsShortestScalar(s, i, w);
    var c := s[i..i + w];
    assert forall k :: 0 <= k < w ==> c[k] == s[i + k];
  }

  lemma SplitsCons(s: seq<byte>, w: nat, cs: seq<seq<byte>>)
    requires w <= |s| && IsCharacter(s[..w]) && Splits(s[w..], cs)
    ensures Splits(s, [s[..w]] + cs)
  {
    hide IsCharacter;
    var all := [s[..w]] + cs;
    assert all[1..] == cs && s == s[..w] + s[w..];
  }

  lemma {:induction false} AcceptedSplits(s: seq<byte>, i: nat)
    requires i <= |s| && Utf8From(s, i)
    ensures exists cs :: Splits(s[i..], cs)
    decreases |s| - i
  {
    hide IsCharacter, CharWidth;
    if i == |s| {
      assert Splits(s[i..], []);
    } else {
      var w := CharWidth(s, i);
      AcceptedSplits(s, i + w);
      var cs :| Splits(s[i + w..], cs);
      CharacterAt(s, i, w);
      assert s[i..][..w] == s[i..i + w] && s[i..][w..] == s[i + w..];
      SplitsCons(s[i..], w, cs);
    }
  }

  lemma {:induction false} SplitIsAccepted(s: seq<byte>, i: nat, cs: seq<seq<byte>>)
    requires i <= |s| && Splits(s[i..], cs)
    ensures Utf8From(s, i)
    decreases |cs|
  {
    hide IsCharacter, CharWidth;
    if cs == [] {
      assert |s[i..]| == 0;
    } else {
      var w := |cs[0]|;
      assert IsCharacter(cs[0]) && w > 0 by { CharacterNotEmpty(cs[0]); }
      assert s[i..] == cs[0] + Flatten(cs[1..]);
      assert s[i..i + w] == cs[0] && s[i + w..] == Flatten(cs[1..]);
      CharacterAt(s, i, w);
      SplitIsAccepted(s, i + w, cs[1..]);
    }
  }

  lemma CharacterNotEmpty(c: seq<byte>)
    requires IsCharacter(c)
    ensures c != []
  {
  }

  /** Text is accepted exactly when it splits into characters. */
  lemma TextSplits(s: seq<byte>)
    ensures IsUtf8(s) <==> exists cs :: Splits(s, cs)
  {
    hide Splits;
    assert s[0..] == s;
    if IsUtf8(s) { AcceptedSplits(s, 0); }
    if cs :| Splits(s, cs) { SplitIsAccepted(s, 0, cs); }
  }

  type Text = s: seq<byte> | IsUtf8(s) witness []

  /** Strings are ordered byte by byte, a proper prefix first. */
  predicate Less(a: seq<byte>, b: seq<byte>) {
    b != [] && (a == [] || a[0] < b[0] || (a[0] == b[0] && Less(a[1..], b[1..])))
  }

  lemma {:induction false} LessTrichotomy(a: seq<byte>, b: seq<byte>)
    ensures a == b || Less(a, b) || Less(b, a)
    ensures !(Less(a, b) && Less(b, a)) && !Less(a, a)
  {
    if a == [] {
    } else {
      LessTrichotomy(a[1..], a[1..]);
      if b != [] {
        LessTrichotomy(a[1..], b[1..]);
        assert a == [a[0]] + a[1..] && b == [b[0]] + b[1..];
      }
    }
  }

  lemma {:induction false} LessTransitive(a: seq<byte>, b: seq<byte>, c: seq<byte>)
    requires Less(a, b) && Less(b, c)
    ensures Less(a, c)
  {
    if a == [] {
    } else if a[0] == b[0] && b[0] == c[0] {
      LessTransitive(a[1..], b[1..], c[1..]);
    }
  }

  /** The first position where two strings part decides, and a string that is not longer there comes first. */
  lemma {:induction false} LessAtFirstDifference(a: seq<byte>, b: seq<byte>, k: nat)
    requires k <= |a| && k <= |b| && a[..k] == b[..k] && (k < |a| && k < |b| ==> a[k] != b[k])
    ensures Less(a, b) <==> k < |b| && (k == |a| || a[k] < b[k])
  {
    if k == 0 {
    } else {
      assert a[0] == a[..k][0] && b[0] == b[..k][0];
      assert a[1..][..k - 1] == a[..k][1..] && b[1..][..k - 1] == b[..k][1..];
      LessAtFirstDifference(a[1..], b[1..], k - 1);
    }
  }

  // -- Values, metadata, rows -------------------------------------------

  /** Floating-point payloads are their IEEE bit patterns. */
  type f32 = u32
  type f64 = u64

  /** Neither an infinity nor NaN: the exponent is not all ones. */
  predicate Finite(x: f32) { (x / 0x80_0000) % 0x100 != 0xFF }

  /** Over sign, exponent and mantissa: only the largest exponent is not finite. */
  lemma FiniteByExponent(sign: int, exponent: int, mantissa: int)
    requires 0 <= sign < 2 && 0 <= exponent < 256 && 0 <= mantissa < 0x80_0000
    ensures Finite(sign * 0x8000_0000 + exponent * 0x80_0000 + mantissa) <==> exponent != 255
  {
  }

  predicate ValidVector(v: seq<f32>) { v != [] && forall k :: 0 <= k < |v| ==> Finite(v[k]) }

  /** A vector as a client hands it over: validated when it was built. */
  type Vector = v: seq<f32> | ValidVector(v) witness [0]

  datatype Value = String(s: Text) | Int(i: i64) | Float(f: f64) | Bool(b: bool) | Null

  datatype Entry = Entry(key: Text, value: Value)

  /** The key order in which metadata is iterated. */
  predicate Ascending(m: seq<Entry>) {
    forall i, j :: 0 <= i < j < |m| ==> Less(m[i].key, m[j].key)
  }

  /** Metadata is a finite map, held as its entries in iteration order. */
  type Metadata = m: seq<Entry> | Ascending(m) witness []

  datatype VectorId = U64(n: u64) | Bytes(bytes: seq<byte>)

  datatype Row = Row(id: VectorId, vector: seq<f32>, meta: Option<Metadata>)

  // -- Index kinds and metrics -------------------------------------------

  datatype HnswConfig = HnswConfig(m: u64, efConstruction: u64, efSearch: u64, filterWiden: u64, seed: u64)

  datatype IvfConfig = IvfConfig(
    nClusters: u64, nProbes: u64, trainingSampleSize: u64,
    usePq: bool, pqSubvectors: Option<u64>, pqRefineFactor: u32, seed: u64)

  datatype IndexKind = Flat | Hnsw(hnsw: HnswConfig) | Ivf(ivf: IvfConfig)

  /** `Other` stands for the metrics a later release of the vocabulary may add. */
  datatype DistanceMetric = Cosine | DotProduct | Euclidean | Manhattan | Hamming | Other(code: nat)

  // -- Errors ------------------------------------------------------------

  datatype Reason =
    | Dim | NRows | IdBytesLen | MetadataEntries | StringLength
    | MagicMismatch | UnsupportedVersion | UnknownIndexKindTag | PqSubvectorsTag
    | EmptyIdKey | UnknownIdTag | UnknownPresenceTag | UnknownValueTag | NotUtf8

  datatype PersistError =
    | InvalidPayload(reason: Reason)
    | Io
    | TruncatedPayload(needed: nat, found: nat)
    | UnsupportedMetric(metric: DistanceMetric)
    | InvalidMetric(tag: byte)
}
