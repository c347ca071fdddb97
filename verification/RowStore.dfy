/** The authoritative row store: a vector of rows with a map from id to position. */
module RowStore {
  import opened Wrappers
  import opened Types

  datatype Stored = Stored(vector: seq<f32>, meta: Option<Metadata>)

  function Of(row: Row): Stored { Stored(row.vector, row.meta) }

  predicate Distinct(rows: seq<Row>) {
    forall i, j :: 0 <= i < j < |rows| ==> rows[i].id != rows[j].id
  }

  function Ids(rows: seq<Row>): set<VectorId> { set i | 0 <= i < |rows| :: rows[i].id }

  /** The first position of `id`, or `|rows|` when it is absent. */
  function Position(rows: seq<Row>, id: VectorId): (p: nat)
    ensures p <= |rows|
    ensures p < |rows| ==> rows[p].id == id
    ensures forall k :: 0 <= k < p ==> rows[k].id != id
  {
    if rows == [] || rows[0].id == id then 0 else 1 + Position(rows[1..], id)
  }

  /** What the rows say, whatever their order. */
  function Contents(rows: seq<Row>): map<VectorId, Stored> {
    map id | id in Ids(rows) :: Of(rows[Position(rows, id)])
  }

  function Find(m: map<VectorId, Stored>, id: VectorId): Option<Stored> { if id in m then Some(m[id]) else None }

  /** Replace in place, or append. */
  function UpsertRows(rows: seq<Row>, row: Row): seq<Row> {
    var p := Position(rows, row.id);
    if p < |rows| then rows[p := row] else rows + [row]
  }

  /** Move the last row into the vacated slot. */
  function RemoveRows(rows: seq<Row>, id: VectorId): seq<Row> {
    var p := Position(rows, id);
    if p == |rows| then rows else rows[p := rows[|rows| - 1]][..|rows| - 1]
  }

  lemma PositionOf(rows: seq<Row>, k: nat)
    requires Distinct(rows) && k < |rows|
    ensures Position(rows, rows[k].id) == k && rows[k].id in Contents(rows)
    ensures Contents(rows)[rows[k].id] == Of(rows[k])
  {
    hide Position;
    assert rows[k].id in Ids(rows);
  }

  lemma Lookup(rows: seq<Row>, id: VectorId)
    ensures id in Contents(rows) <==> Position(rows, id) < |rows|
  {
    hide Position;
    if Position(rows, id) < |rows| { assert rows[Position(rows, id)].id in Ids(rows); }
  }

  lemma UpsertDistinct(rows: seq<Row>, row: Row)
    requires Distinct(rows)
    ensures Distinct(UpsertRows(rows, row))
  {
    hide Position;
  }

  lemma RemoveDistinct(rows: seq<Row>, id: VectorId)
    requires Distinct(rows)
    ensures Distinct(RemoveRows(rows, id))
    ensures Position(RemoveRows(rows, id), id) == |RemoveRows(rows, id)|
  {
    hide Position;
  }

  /** `m` gives for `id` what a lookup in the rows gives. */
  predicate SameAt(rows: seq<Row>, m: map<VectorId, Stored>, id: VectorId) {
    var p := Position(rows, id);
    (id in m <==> p < |rows|) && (id in m ==> m[id] == Of(rows[p]))
  }

  lemma SameEverywhere(rows: seq<Row>, m: map<VectorId, Stored>)
    requires forall id :: SameAt(rows, m, id)
    ensures Contents(rows) == m
  {
    hide Position;
    forall id ensures id in Contents(rows) <==> id in m {
      Lookup(rows, id);
      assert SameAt(rows, m, id);
    }
    forall id | id in m ensures Contents(rows)[id] == m[id] {
      assert SameAt(rows, m, id);
    }
  }

  lemma UpsertIsUpdate(rows: seq<Row>, row: Row)
    requires Distinct(rows)
    ensures Contents(UpsertRows(rows, row)) == Contents(rows)[row.id := Of(row)]
  {
    hide Position, Contents;
    var after, m := UpsertRows(rows, row), Contents(rows)[row.id := Of(row)];
    UpsertDistinct(rows, row);
    forall id ensures SameAt(after, m, id) {
      Lookup(rows, id);
      if id == row.id {
        PositionOf(after, Position(rows, id));
      } else if id in Contents(rows) {
        PositionOf(rows, Position(rows, id));
        PositionOf(after, Position(rows, id));
      }
    }
    SameEverywhere(after, m);
  }

  lemma RemoveIsSubtract(rows: seq<Row>, id: VectorId)
    requires Distinct(rows)
    ensures Contents(RemoveRows(rows, id)) == Contents(rows) - {id}
  {
    hide Position, Contents;
    var after, m := RemoveRows(rows, id), Contents(rows) - {id};
    RemoveDistinct(rows, id);
    forall x ensures SameAt(after, m, x) {
      Lookup(rows, x);
      if x != id && x in Contents(rows) {
        var p := Position(rows, x);
        PositionOf(rows, p);
        PositionOf(after, if p < |after| then p else Position(rows, id));
      }
    }
    SameEverywhere(after, m);
  }

  lemma {:induction false} IdsSize(rows: seq<Row>)
    requires Distinct(rows)
    ensures |Ids(rows)| == |rows|
  {
    if rows == [] {
    } else {
      var front, last := rows[..|rows| - 1], rows[|rows| - 1];
      IdsSize(front);
      assert Ids(rows) == Ids(front) + {last.id};
    }
  }

  lemma ContentsSize(rows: seq<Row>)
    requires Distinct(rows)
    ensures |Contents(rows)| == |rows|
  {
    hide Position, Ids;
    IdsSize(rows);
    assert Contents(rows).Keys == Ids(rows);
  }

  class RowStore {
    var rows: seq<Row>
    var index: map<VectorId, nat>

    /** The position map is exactly the inverse of the row vector. */
    ghost predicate Valid() reads this {
      && (forall k :: 0 <= k < |rows| ==> rows[k].id in index && index[rows[k].id] == k)
      && (forall id :: id in index ==> index[id] < |rows| && rows[index[id]].id == id)
    }

    lemma IndexIsPosition(id: VectorId)
      requires Valid()
      ensures Distinct(rows) && (id in index <==> id in Contents(rows))
      ensures Position(rows, id) == if id in index then index[id] else |rows|
    {
      hide Position;
      Lookup(rows, id);
    }

    constructor ()
      ensures Valid() && rows == []
    {
      rows, index := [], map[];
    }

    method Len() returns (n: nat)
      requires Valid()
      ensures n == |Contents(rows)|
    {
      n := |rows|;
      assert Distinct(rows);
      ContentsSize(rows);
    }

    method IsEmpty() returns (b: bool)
      ensures b <==> Contents(rows) == map[]
    {
      b := rows == [];
      if !b { Lookup(rows, rows[0].id); }
    }

    method Contains(id: VectorId) returns (b: bool)
      requires Valid()
      ensures b <==> id in Contents(rows)
    {
      IndexIsPosition(id);
      b := id in index;
    }

    method Get(id: VectorId) returns (r: Option<Row>)
      requires Valid()
      ensures r.Some? <==> id in Contents(rows)
      ensures r.Some? ==> r.value.id == id && Of(r.value) == Contents(rows)[id]
    {
      hide Position;
      IndexIsPosition(id);
      r := if id in index then Some(rows[index[id]]) else None;
    }

    /** Insert or replace; a replaced row keeps its position and every other row keeps its own. */
    method Upsert(row: Row) returns (newly: bool)
      requires Valid()
      modifies this
      ensures Valid() && rows == UpsertRows(old(rows), row)
      ensures newly <==> row.id !in old(Contents(rows))
      ensures Contents(rows) == old(Contents(rows))[row.id := Of(row)]
      ensures forall k :: 0 <= k < |old(rows)| && old(rows)[k].id != row.id ==> rows[k] == old(rows)[k]
    {
      hide Contents, Distinct, Position;
      IndexIsPosition(row.id);
      UpsertIsUpdate(rows, row);
      if row.id in index {
        rows := rows[index[row.id] := row];
        newly := false;
      } else {
        index := index[row.id := |rows|];
        rows := rows + [row];
        newly := true;
      }
    }

    /** Remove by swapping the last row into the slot; no other position changes. */
    method Remove(id: VectorId) returns (existed: bool)
      requires Valid()
      modifies this
      ensures Valid() && rows == RemoveRows(old(rows), id)
      ensures existed <==> id in old(Contents(rows))
      ensures Contents(rows) == old(Contents(rows)) - {id}
      ensures forall k :: 0 <= k < |rows| && old(rows)[k].id != id ==> rows[k] == old(rows)[k]
    {
      hide Contents, Distinct, Position;
      IndexIsPosition(id);
      RemoveIsSubtract(rows, id);
      if id !in index {
        assert Contents(rows) - {id} == Contents(rows);
        return false;
      }
      var pos := index[id];
      index := index - {id};
      var last := |rows| - 1;
      rows := rows[pos := rows[last]][..last];
      if pos < |rows| {
        index := index[rows[pos].id := pos];
      }
      existed := true;
    }
  }
}
