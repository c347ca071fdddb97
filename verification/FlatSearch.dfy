/**
 Exact search. The answer is the exact top k of the stored map; the order of the rows decides
 how equally distant hits are ordered and, when the cut falls between such hits, which of
 them are returned.
 */
module FlatSearch {
  import opened Types
  import opened RowStore
  import opened AnyIndex

  predicate Sorted(hits: seq<Hit>) {
    forall i, j :: 0 <= i < j < |hits| ==> hits[i].distance <= hits[j].distance
  }

  function Distances(hits: seq<Hit>): (d: seq<int>)
    ensures |d| == |hits|
  {
    seq(|hits|, i requires 0 <= i < |hits| => hits[i].distance)
  }

  predicate NoTies(hits: seq<Hit>) {
    forall i, j :: 0 <= i < j < |hits| ==> hits[i].distance != hits[j].distance
  }

  /** `h` is the hit of a stored row that passes the filter. */
  predicate Expected(env: Env, m: map<VectorId, Stored>, query: seq<f32>, params: SearchParams, h: Hit) {
    && h.id in m
    && (params.filter.None? || env.matches(params.filter.value, m[h.id].meta))
    && h.distance == env.distance(params.metric, query, m[h.id].vector)
  }

  lemma {:induction false} RankAdds(hits: seq<Hit>, h: Hit)
    ensures multiset(Rank(hits, h)) == multiset(hits) + multiset{h}
  {
    if hits == [] || h.distance < hits[0].distance {
    } else {
      RankAdds(hits[1..], h);
      assert hits == [hits[0]] + hits[1..];
    }
  }

  lemma {:induction false} RankSorted(hits: seq<Hit>, h: Hit)
    requires Sorted(hits)
    ensures Sorted(Rank(hits, h))
  {
    if hits == [] || h.distance < hits[0].distance {
    } else {
      var tail := Rank(hits[1..], h);
      RankSorted(hits[1..], h);
      RankAdds(hits[1..], h);
      forall j | 0 <= j < |tail| ensures hits[0].distance <= tail[j].distance {
        assert tail[j] in multiset(tail);
        assert tail[j] == h || tail[j] in hits[1..];
      }
    }
  }

  /** The ranking is sorted and holds, once each, exactly the hits the stored map calls for. */
  lemma {:induction false} RankedIsExpected(env: Env, rows: seq<Row>, query: seq<f32>, params: SearchParams)
    requires Distinct(rows)
    ensures Sorted(Ranked(env, rows, query, params))
    ensures forall h :: multiset(Ranked(env, rows, query, params))[h]
                        == if Expected(env, Contents(rows), query, params, h) then 1 else 0
  {
    hide Contents, Position, Sorted, Rank;
    if rows == [] {
      assert Contents(rows) == map[] by { EmptyContents(); }
      assert Sorted([]) by { SortedEmpty(); }
    } else {
      var front, row := rows[..|rows| - 1], rows[|rows| - 1];
      RankedIsExpected(env, front, query, params);
      Lookup(front, row.id);
      AppendContents(front, row);
      assert front + [row] == rows;
      RankAdds(Ranked(env, front, query, params), HitOf(env, row, query, params));
      RankSorted(Ranked(env, front, query, params), HitOf(env, row, query, params));
    }
  }

  lemma EmptyContents()
    ensures Contents([]) == map[]
  {
  }

  lemma SortedEmpty()
    ensures Sorted([])
  {
  }

  lemma SameMultiset(env: Env, a: seq<Row>, b: seq<Row>, query: seq<f32>, params: SearchParams)
    requires Distinct(a) && Distinct(b) && Contents(a) == Contents(b)
    ensures multiset(Ranked(env, a, query, params)) == multiset(Ranked(env, b, query, params))
  {
    hide Contents, Distinct, Ranked, Expected;
    RankedIsExpected(env, a, query, params);
    RankedIsExpected(env, b, query, params);
    var ma, mb := multiset(Ranked(env, a, query, params)), multiset(Ranked(env, b, query, params));
    forall h ensures ma[h] == mb[h] {
    }
  }

  lemma DistancesConcat(a: seq<Hit>, b: seq<Hit>)
    ensures Distances(a + b) == Distances(a) + Distances(b)
  {
  }

  lemma TakeOut(b: seq<Hit>, p: nat)
    requires p < |b|
    ensures var rest := b[..p] + b[p + 1..];
            && multiset(b) == multiset(rest) + multiset{b[p]}
            && multiset(Distances(b)) == multiset(Distances(rest)) + multiset{b[p].distance}
  {
    hide Distances;
    var front, back := b[..p], b[p + 1..];
    assert b == front + ([b[p]] + back);
    DistancesConcat(front, back);
    DistancesConcat(front, [b[p]] + back);
    DistancesConcat([b[p]], back);
    OneDistance(b[p]);
  }

  lemma OneDistance(h: Hit)
    ensures Distances([h]) == [h.distance]
  {
  }

  lemma Cancel(m: multiset<Hit>, n: multiset<Hit>, x: Hit)
    requires m + multiset{x} == n + multiset{x}
    ensures m == n
  {
    assert m == (m + multiset{x}) - multiset{x};
    assert n == (n + multiset{x}) - multiset{x};
  }

  lemma {:induction false} DistancesPermute(a: seq<Hit>, b: seq<Hit>)
    requires multiset(a) == multiset(b)
    ensures multiset(Distances(a)) == multiset(Distances(b))
    decreases |a|
  {
    hide Distances;
    if a == [] {
      assert |multiset(b)| == |b|;
    } else {
      assert a[0] in multiset(b);
      var p :| 0 <= p < |b| && b[p] == a[0];
      var rest := b[..p] + b[p + 1..];
      TakeOut(a, 0);
      TakeOut(b, p);
      assert a[..0] + a[1..] == a[1..];
      Cancel(multiset(a[1..]), multiset(rest), a[0]);
      DistancesPermute(a[1..], rest);
    }
  }

  predicate Ascends(a: seq<int>) { forall i, j :: 0 <= i < j < |a| ==> a[i] <= a[j] }

  lemma SplitLast(a: seq<int>)
    requires a != [] && Ascends(a)
    ensures var front, last := a[..|a| - 1], a[|a| - 1];
            && a == front + [last] && Ascends(front) && last in multiset(a)
            && multiset(front) == multiset(a) - multiset{last}
            && forall x :: x in multiset(a) ==> x <= last
  {
    var front, last := a[..|a| - 1], a[|a| - 1];
    assert a == front + [last];
    forall x | x in multiset(a) ensures x <= last { assert x in a; }
  }

  lemma {:induction false} SortedAndPermuted(a: seq<int>, b: seq<int>)
    requires multiset(a) == multiset(b) && Ascends(a) && Ascends(b)
    ensures a == b
    decreases |a|
  {
    hide Ascends;
    SameLength(a, b);
    if a == [] {
    } else {
      var x, y := a[|a| - 1], b[|b| - 1];
      SplitLast(a);
      SplitLast(b);
      assert x == y;
      SortedAndPermuted(a[..|a| - 1], b[..|b| - 1]);
    }
  }

  lemma SameLength(a: seq<int>, b: seq<int>)
    requires multiset(a) == multiset(b)
    ensures |a| == |b|
  {
    assert |multiset(a)| == |a| && |multiset(b)| == |b|;
  }

  lemma SameWithoutTies(a: seq<Hit>, b: seq<Hit>)
    requires multiset(a) == multiset(b) && Distances(a) == Distances(b) && NoTies(a)
    ensures a == b
  {
    forall i | 0 <= i < |a| ensures a[i] == b[i] {
      assert a[i] in multiset(b);
      var j :| 0 <= j < |b| && b[j] == a[i];
      assert Distances(b)[j] == Distances(a)[j];
    }
  }

  lemma SamePrefix(a: seq<Hit>, b: seq<Hit>, n: nat)
    requires Distances(a) == Distances(b) && n <= |a|
    ensures n <= |b| && Distances(a[..n]) == Distances(b[..n])
  {
    assert |Distances(a)| == |Distances(b)|;
    forall i | 0 <= i < n ensures Distances(a[..n])[i] == Distances(b[..n])[i] {
      assert Distances(a)[i] == Distances(b)[i];
    }
  }

  /**
   Exact search over two row orders of the same stored map: the same distances rank by
   rank, and the same hits when no two matching rows are equally far.
   */
  lemma OrderOnlyBreaksTies(env: Env, a: seq<Row>, b: seq<Row>, query: seq<f32>, params: SearchParams)
    requires Distinct(a) && Distinct(b) && Contents(a) == Contents(b)
    ensures Distances(Ranked(env, a, query, params)) == Distances(Ranked(env, b, query, params))
    ensures Distances(Nearest(env, a, query, params)) == Distances(Nearest(env, b, query, params))
    ensures NoTies(Ranked(env, a, query, params)) ==> Nearest(env, a, query, params) == Nearest(env, b, query, params)
  {
    hide Contents, Distinct, Ranked;
    var ra, rb := Ranked(env, a, query, params), Ranked(env, b, query, params);
    RankedIsExpected(env, a, query, params);
    RankedIsExpected(env, b, query, params);
    SameMultiset(env, a, b, query, params);
    DistancesPermute(ra, rb);
    SortedAndPermuted(Distances(ra), Distances(rb));
    if NoTies(ra) { SameWithoutTies(ra, rb); }
    SamePrefix(ra, rb, Cut(params, ra));
  }

  // -- The order of ties -------------------------------------------------------------

  /** How many of the ranked hits are returned. */
  function Cut(params: SearchParams, ranked: seq<Hit>): (n: nat)
    ensures n <= |ranked|
  {
    if params.k < |ranked| then params.k else |ranked|
  }

  /** Nearer, or as near and in an earlier row. */
  predicate Before(rows: seq<Row>, g: Hit, h: Hit) {
    g.distance < h.distance || (g.distance == h.distance && Position(rows, g.id) < Position(rows, h.id))
  }

  predicate Ordered(rows: seq<Row>, hits: seq<Hit>) {
    forall i, j :: 0 <= i < j < |hits| ==> Before(rows, hits[i], hits[j])
  }

  lemma {:induction false} RankOrdered(rows: seq<Row>, hits: seq<Hit>, h: Hit)
    requires Ordered(rows, hits)
    requires forall g :: g in hits ==> Position(rows, g.id) < Position(rows, h.id)
    ensures Ordered(rows, Rank(hits, h))
  {
    hide Position;
    if hits == [] || h.distance < hits[0].distance {
    } else {
      var tail := Rank(hits[1..], h);
      RankOrdered(rows, hits[1..], h);
      RankAdds(hits[1..], h);
      forall j | 0 <= j < |tail| ensures Before(rows, hits[0], tail[j]) {
        assert tail[j] in multiset(tail);
        assert hits[0] in hits && (tail[j] == h || tail[j] in hits[1..]);
      }
    }
  }

  lemma EarlierStays(rows: seq<Row>, row: Row, id: VectorId)
    requires Position(rows, id) < |rows|
    ensures Position(rows + [row], id) == Position(rows, id)
  {
    hide Position;
    var p, q := Position(rows, id), Position(rows + [row], id);
    assert (rows + [row])[p].id == id && (rows + [row])[..|rows|] == rows;
    assert q <= p;
    assert rows[q].id == id;
  }

  /** The ranking is stable: equally distant hits keep the order of their rows. */
  lemma {:induction false} RankedOrdered(env: Env, rows: seq<Row>, query: seq<f32>, params: SearchParams)
    requires Distinct(rows)
    ensures Ordered(rows, Ranked(env, rows, query, params))
    ensures forall h :: h in Ranked(env, rows, query, params) ==> Position(rows, h.id) < |rows|
  {
    hide Position, Contents;
    if rows == [] {
    } else {
      var front, row := rows[..|rows| - 1], rows[|rows| - 1];
      var before, h := Ranked(env, front, query, params), HitOf(env, row, query, params);
      assert rows == front + [row];
      RankedOrdered(env, front, query, params);
      forall g | g in before ensures Position(rows, g.id) == Position(front, g.id) {
        EarlierStays(front, row, g.id);
      }
      PositionOf(rows, |front|);
      RankOrdered(rows, before, h);
      RankAdds(before, h);
      forall g | g in Rank(before, h) ensures g == h || g in before {
        assert g in multiset(Rank(before, h));
      }
    }
  }

  /** Every one of the first `n` hits of `hits` is, in `rows`, in front of the later hits it ties with. */
  predicate KeepsTies(rows: seq<Row>, hits: seq<Hit>, n: nat)
    requires n <= |hits|
  {
    forall i, j :: 0 <= i < n && i < j < |hits| && hits[i].distance == hits[j].distance
      ==> Position(rows, hits[i].id) < Position(rows, hits[j].id)
  }

  /** Two ordered rankings of the same hits agree on the first `n` exactly when those hits keep their ties. */
  lemma {:induction false} PrefixAgrees(rows: seq<Row>, a: seq<Hit>, b: seq<Hit>, n: nat)
    requires Ordered(rows, b) && multiset(a) == multiset(b) && Distances(a) == Distances(b) && n <= |a|
    requires forall i, j :: 0 <= i < j < |a| ==> a[i] != a[j]
    ensures |a| == |b| && (a[..n] == b[..n] <==> KeepsTies(rows, a, n))
  {
    hide Position;
    assert |a| == |Distances(a)| == |b|;
    if a[..n] == b[..n] {
      forall i, j | 0 <= i < n && i < j < |a| && a[i].distance == a[j].distance ensures Before(rows, a[i], a[j]) {
        LaterStaysLater(a, b, n, i, j);
      }
    }
    if n == 0 {
    } else if KeepsTies(rows, a, n) {
      PrefixAgrees(rows, a, b, n - 1);
      NextAgrees(rows, a, b, n - 1);
      assert a[..n] == a[..n - 1] + [a[n - 1]] && b[..n] == b[..n - 1] + [b[n - 1]];
    }
  }

  lemma LaterStaysLater(a: seq<Hit>, b: seq<Hit>, n: nat, i: nat, j: nat)
    requires multiset(a) == multiset(b) && n <= |a| == |b| && a[..n] == b[..n] && i < n && i < j < |a|
    requires forall i, j :: 0 <= i < j < |a| ==> a[i] != a[j]
    ensures exists k :: i < k < |b| && b[i] == a[i] && b[k] == a[j]
  {
    assert a[j] in multiset(b);
    var k :| 0 <= k < |b| && b[k] == a[j];
    assert a[..n][i] == b[..n][i];
    if k < n { assert a[..n][k] == b[..n][k]; }
  }

  lemma NextAgrees(rows: seq<Row>, a: seq<Hit>, b: seq<Hit>, n: nat)
    requires Ordered(rows, b) && multiset(a) == multiset(b) && Distances(a) == Distances(b)
    requires n < |a| == |b| && a[..n] == b[..n] && KeepsTies(rows, a, n + 1)
    ensures a[n] == b[n]
  {
    hide Position;
    SameTails(a, b, n);
    assert a[n..][0] in multiset(b[n..]) && b[n..][0] in multiset(a[n..]);
    var k :| 0 <= k < |b| - n && b[n..][k] == a[n];
    var j :| 0 <= j < |a| - n && a[n..][j] == b[n];
    DistanceAt(a, n);
    DistanceAt(b, n);
    TiesFollowRows(rows, b, n, n + k);
  }

  lemma TiesFollowRows(rows: seq<Row>, hits: seq<Hit>, i: nat, j: nat)
    requires Ordered(rows, hits) && i < |hits| && j < |hits| && hits[i].distance == hits[j].distance
    ensures Position(rows, hits[i].id) < Position(rows, hits[j].id) <==> i < j
  {
    hide Position;
    if j < i { assert Before(rows, hits[j], hits[i]); }
  }

  lemma SameTails(a: seq<Hit>, b: seq<Hit>, n: nat)
    requires multiset(a) == multiset(b) && n <= |a| == |b| && a[..n] == b[..n]
    ensures multiset(a[n..]) == multiset(b[n..])
  {
    assert a == a[..n] + a[n..] && b == b[..n] + b[n..];
    assert multiset(a[n..]) == multiset(a) - multiset(a[..n]);
    assert multiset(b[n..]) == multiset(b) - multiset(b[..n]);
  }

  /** Equally distant hits have their rows in the same order in `a` and in `b`. */
  ghost predicate SameTieOrder(env: Env, a: seq<Row>, b: seq<Row>, query: seq<f32>, params: SearchParams) {
    forall g, h ::
      Expected(env, Contents(a), query, params, g) && Expected(env, Contents(a), query, params, h)
      && g.distance == h.distance
      ==> (Position(a, g.id) < Position(a, h.id) <==> Position(b, g.id) < Position(b, h.id))
  }

  /** Where `a` has a hit that it returns in front of another, equally distant one, `b` has it in front too. */
  ghost predicate SameTopTies(env: Env, a: seq<Row>, b: seq<Row>, query: seq<f32>, params: SearchParams) {
    forall g, h ::
      g in Nearest(env, a, query, params) && Expected(env, Contents(a), query, params, h)
      && g.distance == h.distance && Position(a, g.id) < Position(a, h.id)
      ==> Position(b, g.id) < Position(b, h.id)
  }

  /** What `PrefixAgrees` needs of the rankings over two orders of the same rows. */
  lemma RankingsCompare(env: Env, a: seq<Row>, b: seq<Row>, query: seq<f32>, params: SearchParams)
    requires Distinct(a) && Distinct(b) && Contents(a) == Contents(b)
    ensures var ra, rb := Ranked(env, a, query, params), Ranked(env, b, query, params);
            && Ordered(a, ra) && Ordered(b, rb) && multiset(ra) == multiset(rb) && Distances(ra) == Distances(rb)
            && (forall i, j :: 0 <= i < j < |ra| ==> ra[i] != ra[j])
            && forall h :: h in ra <==> Expected(env, Contents(a), query, params, h)
  {
    hide Contents, Distinct, Ranked, Expected, Position;
    var ra := Ranked(env, a, query, params);
    RankedIsExpected(env, a, query, params);
    RankedOrdered(env, a, query, params);
    RankedOrdered(env, b, query, params);
    SameMultiset(env, a, b, query, params);
    OrderOnlyBreaksTies(env, a, b, query, params);
    forall i, j | 0 <= i < j < |ra| ensures ra[i] != ra[j] { assert Before(a, ra[i], ra[j]); }
    forall h ensures h in ra <==> multiset(ra)[h] > 0 {}
  }

  /** Two row orders of the same stored map rank alike, for every k, exactly when they order all ties alike. */
  lemma RankedAgreeIff(env: Env, a: seq<Row>, b: seq<Row>, query: seq<f32>, params: SearchParams)
    requires Distinct(a) && Distinct(b) && Contents(a) == Contents(b)
    ensures Ranked(env, a, query, params) == Ranked(env, b, query, params) <==> SameTieOrder(env, a, b, query, params)
  {
    hide Contents, Distinct, Ranked, Expected, Position, Distances;
    var ra, rb := Ranked(env, a, query, params), Ranked(env, b, query, params);
    RankingsCompare(env, a, b, query, params);
    PrefixAgrees(b, ra, rb, |ra|);
    assert ra[..|ra|] == ra && rb[..|rb|] == rb;
    if ra == rb {
      forall g, h | g in ra && h in ra && g.distance == h.distance
        ensures Position(a, g.id) < Position(a, h.id) <==> Position(b, g.id) < Position(b, h.id)
      {
        var i :| 0 <= i < |ra| && ra[i] == g;
        var j :| 0 <= j < |ra| && ra[j] == h;
        TiesFollowRows(a, ra, i, j);
        TiesFollowRows(b, rb, i, j);
      }
    }
    if SameTieOrder(env, a, b, query, params) {
      forall i, j | 0 <= i < j < |ra| && ra[i].distance == ra[j].distance
        ensures Position(b, ra[i].id) < Position(b, ra[j].id)
      {
        assert Before(a, ra[i], ra[j]) && ra[i] in ra && ra[j] in ra;
      }
    }
  }

  /** Hits that tie, `g` among the first `n`, with the row of `g` in front of that of `h`. */
  predicate TopTie(rows: seq<Row>, hits: seq<Hit>, n: nat, g: Hit, h: Hit)
    requires n <= |hits|
  {
    g in hits[..n] && h in hits && g.distance == h.distance && Position(rows, g.id) < Position(rows, h.id)
  }

  lemma KeepsTiesOfHits(a: seq<Row>, b: seq<Row>, ra: seq<Hit>, n: nat)
    requires Ordered(a, ra) && n <= |ra|
    ensures KeepsTies(b, ra, n) <==> forall g, h :: TopTie(a, ra, n, g, h) ==> Position(b, g.id) < Position(b, h.id)
  {
    hide Position, Ordered;
    if KeepsTies(b, ra, n) {
      forall g, h | TopTie(a, ra, n, g, h) ensures Position(b, g.id) < Position(b, h.id) {
        var i :| 0 <= i < n && ra[..n][i] == g;
        var j :| 0 <= j < |ra| && ra[j] == h;
        TiesFollowRows(a, ra, i, j);
      }
    }
    forall i, j | 0 <= i < n && i < j < |ra| && ra[i].distance == ra[j].distance
      ensures TopTie(a, ra, n, ra[i], ra[j])
    {
      TiesFollowRows(a, ra, i, j);
      assert ra[..n][i] in ra[..n];
    }
  }

  /** For a given k, they answer alike exactly when `b` keeps the ties of the hits that `a` returns. */
  lemma NearestAgreeIff(env: Env, a: seq<Row>, b: seq<Row>, query: seq<f32>, params: SearchParams)
    requires Distinct(a) && Distinct(b) && Contents(a) == Contents(b)
    ensures Nearest(env, a, query, params) == Nearest(env, b, query, params) <==> SameTopTies(env, a, b, query, params)
  {
    hide Contents, Distinct, Ranked, Expected, Position, Distances, KeepsTies, Ordered;
    var ra, rb := Ranked(env, a, query, params), Ranked(env, b, query, params);
    var n := Cut(params, ra);
    RankingsCompare(env, a, b, query, params);
    PrefixAgrees(b, ra, rb, n);
    KeepsTiesOfHits(a, b, ra, n);
    assert ra[..|ra|] == ra && rb[..|rb|] == rb;
  }

  /** Whatever the ties, a hit stays unless it ties with the first hit left out. */
  lemma OnlyTheCutDiffers(env: Env, a: seq<Row>, b: seq<Row>, query: seq<f32>, params: SearchParams)
    requires Distinct(a) && Distinct(b) && Contents(a) == Contents(b)
    ensures var all, n := Ranked(env, a, query, params), |Nearest(env, a, query, params)|;
            forall h :: h in Nearest(env, a, query, params) && (n < |all| ==> h.distance < all[n].distance)
              ==> h in Nearest(env, b, query, params)
  {
    hide Contents, Distinct, Ranked, Expected, Position, Distances;
    var ra, rb := Ranked(env, a, query, params), Ranked(env, b, query, params);
    RankingsCompare(env, a, b, query, params);
    var n := Cut(params, ra);
    assert |ra| == |Distances(ra)| == |rb|;
    forall h | h in ra[..n] && (n < |ra| ==> h.distance < ra[n].distance) ensures h in rb[..n] {
      assert h in multiset(ra) && h in multiset(rb);
      var j :| 0 <= j < |rb| && rb[j] == h;
      if n <= j {
        assert Distances(ra)[n] == Distances(rb)[n] && (j == n || Before(b, rb[n], rb[j]));
        DistanceAt(ra, n);
        DistanceAt(rb, n);
      }
      assert j < n && rb[..n][j] == h;
    }
  }

  lemma DistanceAt(hits: seq<Hit>, i: nat)
    requires i < |hits|
    ensures Distances(hits)[i] == hits[i].distance
  {
  }

  // -- The answer against the stored map -----------------------------------------------

  /**
   The exact top k of `m`: nearest first, at most k hits, no id twice, every hit a stored
   matching row at its true distance, and no matching row left out that is nearer than a
   hit returned.
   */
  ghost predicate TopK(env: Env, m: map<VectorId, Stored>, query: seq<f32>, params: SearchParams, hits: seq<Hit>) {
    && Sorted(hits) && |hits| <= params.k
    && (forall i, j :: 0 <= i < j < |hits| ==> hits[i].id != hits[j].id)
    && (forall h :: h in hits ==> Expected(env, m, query, params, h))
    && (forall h :: Expected(env, m, query, params, h) && h !in hits
          ==> |hits| == params.k && forall g :: g in hits ==> g.distance <= h.distance)
  }

  lemma NearestIsTopK(env: Env, rows: seq<Row>, query: seq<f32>, params: SearchParams)
    requires Distinct(rows)
    ensures TopK(env, Contents(rows), query, params, Nearest(env, rows, query, params))
  {
    hide Contents, Distinct, Ranked, Expected, Sorted;
    var all, hits, m := Ranked(env, rows, query, params), Nearest(env, rows, query, params), Contents(rows);
    RankedIsExpected(env, rows, query, params);
    forall h ensures h in all <==> Expected(env, m, query, params, h) {
      assert h in all <==> multiset(all)[h] > 0;
    }
    SortedPrefix(all, |hits|);
    forall i, j | 0 <= i < j < |hits| ensures hits[i].id != hits[j].id {
      OncePerHit(all, i, j);
      assert all[i] in all && all[j] in all;
      OnePerId(env, m, query, params, all[i], all[j]);
    }
    forall h | h in all && h !in hits ensures |hits| == params.k && forall g :: g in hits ==> g.distance <= h.distance {
      LeftOutIsNoNearer(all, |hits|, h);
    }
  }

  lemma SortedPrefix(all: seq<Hit>, n: nat)
    requires Sorted(all) && n <= |all|
    ensures Sorted(all[..n])
  {
  }

  lemma LeftOutIsNoNearer(all: seq<Hit>, n: nat, h: Hit)
    requires Sorted(all) && n <= |all| && h in all && h !in all[..n]
    ensures n < |all| && forall g :: g in all[..n] ==> g.distance <= h.distance
  {
    assert all == all[..n] + all[n..];
    var p :| 0 <= p < |all| - n && all[n..][p] == h;
    assert all[n + p] == h;
  }

  lemma OnePerId(env: Env, m: map<VectorId, Stored>, query: seq<f32>, params: SearchParams, g: Hit, h: Hit)
    requires Expected(env, m, query, params, g) && Expected(env, m, query, params, h) && g != h
    ensures g.id != h.id
  {
  }

  lemma OncePerHit(all: seq<Hit>, i: nat, j: nat)
    requires i < j < |all|
    ensures all[i] == all[j] ==> multiset(all)[all[i]] >= 2
  {
    assert all == all[..i] + [all[i]] + all[i + 1..j] + [all[j]] + all[j + 1..];
  }
}
