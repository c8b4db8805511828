/** The pure side of the level generator (game.js lines 28-90): carrots,
    what a successful placement satisfies, the jittered nearest-carrot rule
    of the region grower, and the comparator-driven shuffle of the row and
    column lists. The methods that write the board are in module Game. */
module Level {
  import opened Grid
  import opened Mulberry

  /** One entry of `carrots` (line 61): a position and its colour. */
  datatype Carrot = Carrot(r: int, c: int, color: int)

  function CellOf(k: Carrot): int {
    Index(k.r, k.c)
  }

  /** What a successful attempt produces: six carrots on the board, carrot i
      with colour i, in six distinct rows and six distinct columns, no two of
      them touching. */
  ghost predicate WellPlaced(cs: seq<Carrot>) {
    && |cs| == 6
    && (forall i :: 0 <= i < 6 ==> 0 <= cs[i].r < 6 && 0 <= cs[i].c < 6 && cs[i].color == i)
    && (forall i, j :: 0 <= i < j < 6 ==>
          cs[i].r != cs[j].r && cs[i].c != cs[j].c && !Touch(cs[i].r, cs[i].c, cs[j].r, cs[j].c))
  }

  /** `boardSolution` holds exactly the cells of the carrots. */
  ghost predicate SolutionBoard(cs: seq<Carrot>, board: seq<bool>) {
    && |board| == 36
    && forall h :: 0 <= h < 36 ==> (board[h] <==> exists k :: 0 <= k < |cs| && CellOf(cs[k]) == h)
  }

  /** Values returned by `rng()`, each in [0, 1). */
  ghost predicate UnitValues(us: seq<real>) {
    forall i :: 0 <= i < |us| ==> 0.0 <= us[i] < 1.0
  }

  /** The values `rng()` returned for a run of states of the generator. */
  function ValuesOf(states: seq<bv32>): (us: seq<real>)
    ensures |us| == |states| && UnitValues(us)
  {
    seq(|states|, i requires 0 <= i < |states| => Value(states[i]))
  }

  /** One more call of the generator adds its value at the end. */
  lemma ValuesOfAppend(states: seq<bv32>, s: bv32)
    ensures ValuesOf(states + [s]) == ValuesOf(states) + [Value(s)]
  {
    assert forall i :: 0 <= i < |states| ==> (states + [s])[i] == states[i];
  }

  /** Two generators made from the same seed returned the same values on
      every call both of them made. */
  lemma SameSeedSameValues(g: Rng, h: Rng)
    requires g.Valid() && h.Valid() && g.seed == h.seed
    requires |g.drawn| <= |h.drawn|
    ensures ValuesOf(g.drawn) == ValuesOf(h.drawn)[..|g.drawn|]
  {
    SameSeedSameDraws(g, h);
  }

  lemma ValuesOfSlice(states: seq<bv32>, i: int, j: int)
    requires 0 <= i <= j <= |states|
    ensures ValuesOf(states)[i..j] == ValuesOf(states[i..j])
  {
  }

  /** The jittered distance of line 80-81 from carrot k to cell (r, c), where
      u is the value `rng()` returned for this pair. */
  function Distance(k: Carrot, r: int, c: int, u: real): real {
    (Abs(k.r - r) + Abs(k.c - c)) as real + u * 0.4
  }

  /** The pair `minDst`, `closestRegion` of lines 77-78. */
  datatype Nearest = Nearest(dist: real, region: int)

  /** `minDst` and `closestRegion` after the `forEach` of lines 79-86 has seen
      the first |us| carrots, us holding the values drawn for them. */
  function Closest(cs: seq<Carrot>, r: int, c: int, us: seq<real>): Nearest
    requires |us| <= |cs|
    decreases |us|
  {
    if |us| == 0 then Nearest(100.0, 0)
    else
      var n := |us| - 1;
      var best := Closest(cs, r, c, us[..n]);
      var d := Distance(cs[n], r, c, us[n]);
      if d < best.dist then Nearest(d, cs[n].color) else best
  }

  /** One more step of the `forEach`: the carrot after the first |us| is
      compared with the best so far. */
  lemma ClosestStep(cs: seq<Carrot>, r: int, c: int, us: seq<real>, u: real)
    requires |us| < |cs|
    ensures var best := Closest(cs, r, c, us);
            var d := Distance(cs[|us|], r, c, u);
            Closest(cs, r, c, us + [u]) == if d < best.dist then Nearest(d, cs[|us|].color) else best
  {
    assert (us + [u])[..|us|] == us;
  }

  /** An independent reference: the first carrot, in placement order, whose
      jittered distance is a minimum among the first |us| carrots. */
  function FirstMinimum(cs: seq<Carrot>, r: int, c: int, us: seq<real>): (q: nat)
    requires 1 <= |us| <= |cs|
    ensures q < |us|
    ensures forall i :: 0 <= i < q ==> Distance(cs[q], r, c, us[q]) < Distance(cs[i], r, c, us[i])
    ensures forall i :: q < i < |us| ==> Distance(cs[q], r, c, us[q]) <= Distance(cs[i], r, c, us[i])
    decreases |us|
  {
    if |us| == 1 then 0
    else
      var n := |us| - 1;
      var q := FirstMinimum(cs, r, c, us[..n]);
      if Distance(cs[n], r, c, us[n]) < Distance(cs[q], r, c, us[q]) then n else q
  }

  /** The `forEach` keeps the first carrot with the strictly smallest jittered
      distance, provided every distance is below the initial `minDst` of 100. */
  lemma {:induction false} ClosestIsFirstMinimum(cs: seq<Carrot>, r: int, c: int, us: seq<real>)
    requires 1 <= |us| <= |cs|
    requires forall i :: 0 <= i < |us| ==> Distance(cs[i], r, c, us[i]) < 100.0
    ensures var q := FirstMinimum(cs, r, c, us);
            Closest(cs, r, c, us) == Nearest(Distance(cs[q], r, c, us[q]), cs[q].color)
  {
    var n := |us| - 1;
    if n > 0 {
      var prefix := us[..n];
      assert forall i :: 0 <= i < n ==> prefix[i] == us[i];
      ClosestIsFirstMinimum(cs, r, c, prefix);
    }
  }

  /** The region of cell h (line 87): the colour kept by the `forEach` over the
      six values drawn for that cell, which come at offset h*6 of us. */
  function CellRegion(cs: seq<Carrot>, us: seq<real>, h: int): int
    requires |cs| == 6 && |us| == 216 && 0 <= h < 36
  {
    Closest(cs, Row(h), Col(h), us[h * 6..h * 6 + 6]).region
  }

  /** `regionMap` after `generateRegions(carrots, rng)` (lines 72-90), given the
      216 values `rng()` returned, in row-major cell order and then carrot order. */
  function RegionMapSpec(cs: seq<Carrot>, us: seq<real>): (m: seq<int>)
    requires |cs| == 6 && |us| == 216
    ensures |m| == 36
  {
    seq(36, h requires 0 <= h < 36 => CellRegion(cs, us, h))
  }

  /** On a board of in-range carrots every jittered distance stays far below 100. */
  lemma DistanceBelowHundred(cs: seq<Carrot>, us: seq<real>, r: int, c: int)
    requires |cs| == 6 && |us| == 6 && UnitValues(us)
    requires forall i :: 0 <= i < 6 ==> 0 <= cs[i].r < 6 && 0 <= cs[i].c < 6
    requires 0 <= r < 6 && 0 <= c < 6
    ensures forall i :: 0 <= i < 6 ==> Distance(cs[i], r, c, us[i]) < 100.0
  {
  }

  /** Every cell gets the colour of its first nearest carrot, so a value in 0..5. */
  lemma RegionIsFirstNearest(cs: seq<Carrot>, us: seq<real>, h: int)
    requires WellPlaced(cs) && |us| == 216 && UnitValues(us) && 0 <= h < 36
    ensures var q := FirstMinimum(cs, Row(h), Col(h), us[h * 6..h * 6 + 6]);
            RegionMapSpec(cs, us)[h] == cs[q].color == q
    ensures 0 <= RegionMapSpec(cs, us)[h] < 6
  {
    var cell := us[h * 6..h * 6 + 6];
    assert UnitValues(cell);
    DistanceBelowHundred(cs, cell, Row(h), Col(h));
    ClosestIsFirstMinimum(cs, Row(h), Col(h), cell);
  }

  /** A carrot's own cell is coloured with that carrot's colour: its distance
      is below 0.4 and every other carrot is at least two away. */
  lemma CarrotKeepsColour(cs: seq<Carrot>, us: seq<real>, i: int)
    requires WellPlaced(cs) && |us| == 216 && UnitValues(us) && 0 <= i < 6
    ensures 0 <= CellOf(cs[i]) < 36
    ensures RegionMapSpec(cs, us)[CellOf(cs[i])] == i
  {
    var k := cs[i];
    var h := CellOf(k);
    IndexCoordinates(k.r, k.c);
    var cell := us[h * 6..h * 6 + 6];
    assert UnitValues(cell);
    forall j | 0 <= j < 6 && j != i
      ensures Distance(k, k.r, k.c, cell[i]) < Distance(cs[j], k.r, k.c, cell[j])
    {
      ApartIsFar(cs[j].r, cs[j].c, k.r, k.c);
    }
    RegionIsFirstNearest(cs, us, h);
  }

  /** A sequence in which no value occurs twice has no repeated element. */
  lemma {:induction false} SingleCountsDistinct(s: seq<int>)
    requires forall v :: multiset(s)[v] <= 1
    ensures forall i, j :: 0 <= i < j < |s| ==> s[i] != s[j]
    decreases |s|
  {
    if |s| > 0 {
      var n := |s| - 1;
      var prefix := s[..n];
      assert s == prefix + [s[n]];
      assert forall v :: multiset(prefix)[v] <= multiset(s)[v];
      SingleCountsDistinct(prefix);
      assert multiset(prefix)[s[n]] == 0;
      forall i | 0 <= i < n
        ensures s[i] != s[n]
      {
        assert s[i] == prefix[i] && prefix[i] in multiset(prefix);
      }
    }
  }

  /** Reads the result of a sort as a permutation of 0..5: six values in range,
      no two equal. */
  lemma PermutationOfRange(p: seq<int>)
    requires multiset(p) == multiset([0, 1, 2, 3, 4, 5])
    ensures |p| == 6
    ensures forall i :: 0 <= i < 6 ==> 0 <= p[i] < 6
    ensures forall i, j :: 0 <= i < j < 6 ==> p[i] != p[j]
  {
    assert |p| == |multiset(p)| == 6;
    forall i | 0 <= i < 6
      ensures 0 <= p[i] < 6
    {
      assert p[i] in multiset(p);
    }
    forall v
      ensures multiset(p)[v] <= 1
    {
      assert multiset([0, 1, 2, 3, 4, 5])[v] <= 1;
    }
    SingleCountsDistinct(p);
  }

  /** `list.sort(() => rng() - 0.5)` (lines 42-43). The order the engine's
      sort produces with an inconsistent comparator is engine-defined; what
      holds for every engine is that the list is rearranged in place and that
      the comparator only draws from rng. This body sorts by insertion, one
      comparator call per comparison. */
  method RandomSort(a: array<int>, rng: Rng)
    requires rng.Valid()
    modifies a, rng
    ensures multiset(a[..]) == old(multiset(a[..]))
    ensures rng.Valid()
    ensures old(rng.drawn) <= rng.drawn
  {
    var i := 1;
    while i < a.Length
      invariant multiset(a[..]) == old(multiset(a[..]))
      invariant rng.Valid() && old(rng.drawn) <= rng.drawn
    {
      var j := i;
      while 0 < j
        invariant j <= i < a.Length
        invariant multiset(a[..]) == old(multiset(a[..]))
        invariant rng.Valid() && old(rng.drawn) <= rng.drawn
      {
        var x := rng.Next();
        if x - 0.5 <= 0.0 {
          break;
        }
        SwapAdjacent(a, j);
        j := j - 1;
      }
      i := i + 1;
    }
  }

  /** One exchange of the sort: a[j - 1] and a[j] trade places. */
  method SwapAdjacent(a: array<int>, j: int)
    requires 0 < j < a.Length
    modifies a
    ensures a[..] == old(a[..])[j - 1 := old(a[j])][j := old(a[j - 1])]
    ensures multiset(a[..]) == old(multiset(a[..]))
  {
    a[j - 1], a[j] := a[j], a[j - 1];
  }

  /** `let rows = [0,1,2,3,4,5]` shuffled by `rows.sort(() => rng() - 0.5)`
      (lines 39-43): whatever order the comparator produces, a permutation
      of 0..5. */
  method ShuffledRange(rng: Rng) returns (p: seq<int>)
    requires rng.Valid()
    modifies rng
    ensures multiset(p) == multiset([0, 1, 2, 3, 4, 5])
    ensures |p| == 6
    ensures forall i :: 0 <= i < 6 ==> 0 <= p[i] < 6
    ensures forall i, j :: 0 <= i < j < 6 ==> p[i] != p[j]
    ensures rng.Valid() && old(rng.drawn) <= rng.drawn
  {
    var a := new int[6](i => i);
    assert a[..] == [0, 1, 2, 3, 4, 5];
    RandomSort(a, rng);
    p := a[..];
    PermutationOfRange(p);
  }
}
