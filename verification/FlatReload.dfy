/**
 Exact search across a save and a load. The live index and the store may hold the same rows
 in different orders, and that shows exactly where equally distant hits meet the answer.
 */
module FlatReload {
  import opened Wrappers
  import opened Bytes
  import opened Types
  import opened PayloadFormat
  import opened RowStore
  import opened AnyIndex
  import opened CoreState
  import opened CorePersistence
  import opened FlatSearch

  /**
   A flat database after a reload: the same distances; the same answer exactly when the
   store keeps the ties of the hits that the live index returns; and in any case the same
   hits, except for those that tie with the first one left out.
   */
  lemma FlatSurvivesReload(env: Env, c: Core, query: seq<f32>, params: SearchParams)
    requires Sound(env, c) && c.kind.Flat?
    requires Save(c).status.Done? && Load(env, Save(c).bytes).Success?
    ensures var live, reloaded := c.layer.index, Load(env, Save(c).bytes).value.layer.index;
            var all := Ranked(env, live.Rows(), query, params);
            var before, after := IndexSearch(env, live, query, params), IndexSearch(env, reloaded, query, params);
            && (before.Failure? ==> after == before)
            && (before.Success? ==>
                 && after.Success? && Distances(after.value) == Distances(before.value)
                 && (after == before <==> SameTopTies(env, live.Rows(), c.rows, query, params))
                 && (forall h :: h in before.value
                                 && (|before.value| < |all| ==> h.distance < all[|before.value|].distance)
                       ==> h in after.value))
            && (NoTies(all) ==> after == before)
  {
    hide Load, EncPayload, Contents, Distinct, Nearest, Ranked, Distances, AllStorable, SameTopTies;
    LoadedIsAccepted(env, c);
    SaveThenLoad(env, c);
    OrderOnlyBreaksTies(env, c.layer.index.Rows(), c.rows, query, params);
    NearestAgreeIff(env, c.layer.index.Rows(), c.rows, query, params);
    OnlyTheCutDiffers(env, c.layer.index.Rows(), c.rows, query, params);
  }

  /** The whole ranking, and with it the answer for every k, is the same exactly when the ties are in one order. */
  lemma FlatRankingSurvivesReload(env: Env, c: Core, query: seq<f32>, params: SearchParams)
    requires Sound(env, c) && c.kind.Flat?
    requires Save(c).status.Done? && Load(env, Save(c).bytes).Success?
    ensures var live, reloaded := c.layer.index, Load(env, Save(c).bytes).value.layer.index;
            Ranked(env, reloaded.Rows(), query, params) == Ranked(env, live.Rows(), query, params)
            <==> SameTieOrder(env, live.Rows(), c.rows, query, params)
  {
    hide Load, EncPayload, Contents, Distinct, Ranked, AllStorable, SameTieOrder;
    LoadedIsAccepted(env, c);
    SaveThenLoad(env, c);
    RankedAgreeIff(env, c.layer.index.Rows(), c.rows, query, params);
  }

  // -- A database with a tie -----------------------------------------------------------

  function Twin(n: u64): Row { Row(VectorId.U64(n), [0], None) }

  /** Replacing the first of two equally distant rows: the live index moves it behind, the store does not. */
  function Replaced(): Core {
    Core(Flat, 1, Cosine, [Twin(1), Twin(2)],
         Plain(Index(Flat, 1, Cosine, None, [Put(Twin(1)), Put(Twin(2)), Drop(VectorId.U64(1)), Put(Twin(1))])),
         None, false)
  }

  lemma ReplacedIsSound(env: Env)
    ensures Sound(env, Replaced()) && Replaced().layer.index.Rows() == [Twin(2), Twin(1)]
  {
    LiveReplaced();
    var a, b := [Twin(1), Twin(2)], [Twin(2), Twin(1)];
    hide Position, Live;
    forall id ensures SameAt(a, Contents(b), id) {
      if id == VectorId.U64(1) {
        PositionOf(a, 0);
        PositionOf(b, 1);
      } else if id == VectorId.U64(2) {
        PositionOf(a, 1);
        PositionOf(b, 0);
      } else {
        Lookup(b, id);
      }
    }
    SameEverywhere(a, Contents(b));
  }

  lemma LiveReplaced()
    ensures Replaced().layer.index.Rows() == [Twin(2), Twin(1)]
  {
    LivePrefixes();
    assert Replaced().layer.index.history[..3] + [Put(Twin(1))] == Replaced().layer.index.history;
  }

  function FlatCore(rows: seq<Row>, history: seq<Mutation>): Core {
    Core(Flat, 1, Cosine, rows, Plain(Index(Flat, 1, Cosine, None, history)), None, false)
  }

  lemma InsertNew(rows: seq<Row>, history: seq<Mutation>, row: Row)
    requires row.id !in Contents(rows) && Live(history) == rows && |row.vector| == 1
    ensures Insert(FlatCore(rows, history), row).0 == FlatCore(rows + [row], history + [Put(row)])
  {
    hide Contents, Position, Live;
    Lookup(rows, row.id);
  }

  /** The core that inserting 1, 2 and 1 again leads to. */
  lemma ReplacedIsReached(env: Env)
    requires env.accepts(Flat, 1, Cosine)
    ensures Create(env, Flat, 1, Cosine, None).Success?
    ensures var c := Create(env, Flat, 1, Cosine, None).value;
            Insert(Insert(Insert(c, Twin(1)).0, Twin(2)).0, Twin(1)).0 == Replaced()
  {
    hide Contents, Position, Live, Insert;
    var h := Replaced().layer.index.history;
    var a1, a2 := [Twin(1)], [Twin(1), Twin(2)];
    LivePrefixes();
    Lookup([], VectorId.U64(1));
    Lookup(a1, VectorId.U64(2));
    assert h[..1] == h[..0] + [h[0]] && h[..2] == h[..1] + [h[1]] && a1 == [] + [Twin(1)] && a2 == a1 + [Twin(2)];
    assert Create(env, Flat, 1, Cosine, None).value == FlatCore([], h[..0]);
    InsertNew([], h[..0], Twin(1));
    InsertNew(a1, h[..1], Twin(2));
    ReplaceTwin();
  }

  lemma ReplaceTwin()
    ensures var h := Replaced().layer.index.history;
            Insert(FlatCore([Twin(1), Twin(2)], h[..2]), Twin(1)).0 == Replaced()
  {
    hide Contents, Position, Live;
    var h := Replaced().layer.index.history;
    var rows := [Twin(1), Twin(2)];
    LivePrefixes();
    PositionOf(rows, 0);
    Lookup([Twin(2)], VectorId.U64(1));
    assert h[..3] == h[..2] + [h[2]] && h == h[..3] + [h[3]] && rows[0 := Twin(1)] == rows;
  }

  lemma LivePrefixes()
    ensures var h := Replaced().layer.index.history;
            && Live(h[..0]) == [] && Live(h[..1]) == [Twin(1)]
            && Live(h[..2]) == [Twin(1), Twin(2)] && Live(h[..3]) == [Twin(2)]
  {
    var h := Replaced().layer.index.history;
    assert h[..3][..2] == h[..2] && h[..2][..1] == h[..1] && h[..1][..0] == h[..0];
    assert Live(h[..1]) == [] + [Twin(1)];
    assert Live(h[..2]) == [Twin(1)] + [Twin(2)];
    assert [Twin(1), Twin(2)][1..] == [Twin(2)] && [Twin(2)][1..] == [];
    assert Without([Twin(2)], VectorId.U64(1)) == [Twin(2)];
  }

  lemma RankTwins(env: Env, x: u64, y: u64, query: seq<f32>, params: SearchParams)
    requires params.filter.None?
    ensures Ranked(env, [Twin(x), Twin(y)], query, params)
            == [HitOf(env, Twin(x), query, params), HitOf(env, Twin(y), query, params)]
  {
    var h, g := HitOf(env, Twin(x), query, params), HitOf(env, Twin(y), query, params);
    assert [Twin(x), Twin(y)][..1] == [Twin(x)] && [Twin(x)][..0] == [];
    assert Ranked(env, [], query, params) == [];
    assert Ranked(env, [Twin(x)], query, params) == Rank([], h) == [h];
    assert Ranked(env, [Twin(x), Twin(y)], query, params) == Rank([h], g);
    assert [h][1..] == [] && Rank([], g) == [g];
  }

  lemma NearestTwins(env: Env, x: u64, y: u64, query: seq<f32>, params: SearchParams)
    requires params.filter.None? && 1 <= params.k <= 2
    ensures var h, g := HitOf(env, Twin(x), query, params), HitOf(env, Twin(y), query, params);
            Nearest(env, [Twin(x), Twin(y)], query, params) == if params.k == 1 then [h] else [h, g]
  {
    hide Ranked, HitOf;
    RankTwins(env, x, y, query, params);
  }

  lemma ReplacedSaves()
    ensures Save(Replaced()).status.Done? && AllStorable(Replaced().rows)
  {
    hide Le, EncKind, EncComponents;
    var rows := [Twin(1), Twin(2)];
    assert rows[1..] == [Twin(2)] && [Twin(2)][1..] == [];
    assert EncRow(Twin(1)).status.Done? && EncRow(Twin(2)).status.Done?;
    assert EncRows([]).status.Done?;
    assert EncRows([Twin(2)]).status.Done?;
    assert EncRows(rows).status.Done?;
  }

  /**
   With a tie, ids do come back in another order: here 2 before 1, and after a reload 1
   before 2. And with k = 1 another hit comes back: 2, and after a reload 1.
   */
  lemma ReloadMayReorderTies(env: Env, query: seq<f32>)
    requires env.accepts(Flat, 1, Cosine) && |query| == 1
    ensures Save(Replaced()).status.Done? && Load(env, Save(Replaced()).bytes).Success?
    ensures var two, one := SearchParams(2, Cosine, None), SearchParams(1, Cosine, None);
            var live, reloaded := Replaced().layer.index, Load(env, Save(Replaced()).bytes).value.layer.index;
            && IndexSearch(env, live, query, two)
               == Success([HitOf(env, Twin(2), query, two), HitOf(env, Twin(1), query, two)])
            && IndexSearch(env, reloaded, query, two)
               == Success([HitOf(env, Twin(1), query, two), HitOf(env, Twin(2), query, two)])
            && IndexSearch(env, live, query, one) == Success([HitOf(env, Twin(2), query, one)])
            && IndexSearch(env, reloaded, query, one) == Success([HitOf(env, Twin(1), query, one)])
  {
    hide Load, Save, Distinct, Contents, AllStorable, Nearest, HitOf, Live;
    var two, one := SearchParams(2, Cosine, None), SearchParams(1, Cosine, None);
    ReplacedSaves();
    ReplacedIsSound(env);
    SaveThenLoad(env, Replaced());
    NearestTwins(env, 2, 1, query, two);
    NearestTwins(env, 1, 2, query, two);
    NearestTwins(env, 2, 1, query, one);
    NearestTwins(env, 1, 2, query, one);
  }
}
