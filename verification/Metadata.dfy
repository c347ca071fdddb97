/** Metadata as a map: insertion in key order, and collecting a list of pairs with the last one winning. */
module MetadataMap {
  import opened Types

  /** The map that a metadata list stands for. */
  function AsMap(m: seq<Entry>): map<Text, Value> {
    if m == [] then map[] else AsMap(m[1..])[m[0].key := m[0].value]
  }

  /** The map that a list of pairs defines when later pairs overwrite earlier ones. */
  function LastWins(entries: seq<Entry>): map<Text, Value> {
    if entries == [] then map[]
    else
      var last := entries[|entries| - 1];
      LastWins(entries[..|entries| - 1])[last.key := last.value]
  }

  /** Map insertion: replace the value under an equal key, otherwise keep the key order. */
  function Insert(m: seq<Entry>, e: Entry): (r: seq<Entry>)
    ensures |r| <= |m| + 1
  {
    if m == [] then [e]
    else if m[0].key == e.key then [e] + m[1..]
    else if Less(e.key, m[0].key) then [e] + m
    else [m[0]] + Insert(m[1..], e)
  }

  lemma {:induction false} InsertKeys(m: seq<Entry>, e: Entry)
    ensures forall x :: x in Insert(m, e) ==> x == e || x in m
  {
    if m == [] {
    } else {
      InsertKeys(m[1..], e);
    }
  }

  lemma {:induction false} InsertAscending(m: seq<Entry>, e: Entry)
    requires Ascending(m)
    ensures Ascending(Insert(m, e))
  {
    if m == [] {
    } else {
      LessTrichotomy(e.key, m[0].key);
      if Less(e.key, m[0].key) {
        forall j | 0 <= j < |m| ensures Less(e.key, m[j].key) {
          if j > 0 { LessTransitive(e.key, m[0].key, m[j].key); }
        }
      } else if m[0].key != e.key {
        InsertAscending(m[1..], e);
        InsertKeys(m[1..], e);
        var t := Insert(m[1..], e);
        forall j | 0 <= j < |t| ensures Less(m[0].key, t[j].key) {
          assert t[j] in t;
        }
      }
    }
  }

  /** `entries.into_iter().collect()`. */
  function Collect(entries: seq<Entry>): (m: seq<Entry>)
    ensures Ascending(m) && |m| <= |entries|
  {
    if entries == [] then []
    else
      var front := Collect(entries[..|entries| - 1]);
      InsertAscending(front, entries[|entries| - 1]);
      Insert(front, entries[|entries| - 1])
  }

  lemma {:induction false} InsertAtEnd(m: seq<Entry>, e: Entry)
    requires forall x :: x in m ==> Less(x.key, e.key)
    ensures Insert(m, e) == m + [e]
  {
    if m == [] {
    } else {
      assert m[0] in m;
      LessTrichotomy(m[0].key, e.key);
      InsertAtEnd(m[1..], e);
      assert [m[0]] + (m[1..] + [e]) == m + [e];
    }
  }

  /** Collecting entries that already ascend changes nothing. */
  lemma {:induction false} CollectAscending(m: seq<Entry>)
    requires Ascending(m)
    ensures Collect(m) == m
  {
    if m == [] {
    } else {
      var front := m[..|m| - 1];
      CollectAscending(front);
      InsertAtEnd(front, m[|m| - 1]);
    }
  }

  /** Insertion is the map update, wherever in the key order the entry lands. */
  lemma {:induction false} InsertIsUpdate(m: seq<Entry>, e: Entry)
    ensures AsMap(Insert(m, e)) == AsMap(m)[e.key := e.value]
  {
    hide Less;
    if m == [] {
    } else {
      var r := Insert(m, e);
      InsertIsUpdate(m[1..], e);
      if m[0].key == e.key {
        assert r[1..] == m[1..];
      } else if Less(e.key, m[0].key) {
        assert r[1..] == m;
      } else {
        assert r[1..] == Insert(m[1..], e);
      }
    }
  }

  lemma {:induction false} CollectIsLastWins(entries: seq<Entry>)
    ensures AsMap(Collect(entries)) == LastWins(entries)
  {
    if entries == [] {
    } else {
      var front := entries[..|entries| - 1];
      CollectIsLastWins(front);
      InsertIsUpdate(Collect(front), entries[|entries| - 1]);
    }
  }

  lemma {:induction false} KeysOf(m: seq<Entry>, key: Text)
    ensures key in AsMap(m) <==> exists i :: 0 <= i < |m| && m[i].key == key
  {
    if m == [] {
    } else {
      KeysOf(m[1..], key);
      if key in AsMap(m[1..]) {
        var i :| 0 <= i < |m| - 1 && m[1..][i].key == key;
        assert m[i + 1].key == key;
      }
      if i :| 0 <= i < |m| && m[i].key == key {
        if i > 0 { assert m[1..][i - 1].key == key; } else { assert m[0].key == key; }
      }
    }
  }

  lemma HeadIsLeast(m: seq<Entry>, key: Text)
    requires m != [] && Ascending(m) && key in AsMap(m)
    ensures key == m[0].key || Less(m[0].key, key)
    ensures m[0].key in AsMap(m) && m[0].key !in AsMap(m[1..])
  {
    hide Less, IsUtf8;
    KeysOf(m, key);
    KeysOf(m[1..], m[0].key);
    if m[0].key in AsMap(m[1..]) {
      var i :| 0 <= i < |m| - 1 && m[1..][i].key == m[0].key;
      assert Less(m[0].key, m[i + 1].key);
      LessTrichotomy(m[0].key, m[0].key);
    }
  }

  lemma OnlyEmptyIsEmpty(m: seq<Entry>)
    ensures AsMap(m) == map[] <==> m == []
  {
    if m != [] { assert m[0].key in AsMap(m); }
  }

  /** Metadata lists in key order are equal exactly when they stand for the same map. */
  lemma {:induction false} SameMapSameMetadata(a: seq<Entry>, b: seq<Entry>)
    requires Ascending(a) && Ascending(b) && AsMap(a) == AsMap(b)
    ensures a == b
    decreases |a|
  {
    hide Less, IsUtf8;
    OnlyEmptyIsEmpty(a);
    OnlyEmptyIsEmpty(b);
    if a == [] {
    } else {
      assert a[0].key in AsMap(a);
      assert b[0].key in AsMap(b);
      HeadIsLeast(a, b[0].key);
      HeadIsLeast(b, a[0].key);
      LessTrichotomy(a[0].key, b[0].key);
      assert AsMap(a[1..]) == AsMap(a) - {a[0].key} && AsMap(b[1..]) == AsMap(b) - {b[0].key};
      SameMapSameMetadata(a[1..], b[1..]);
      assert a == [a[0]] + a[1..] && b == [b[0]] + b[1..];
    }
  }
}
