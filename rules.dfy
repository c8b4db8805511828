/** The rules `checkWin` applies to the player's holes (game.js lines
    151-202), as a verdict on a board and a region map. The effects of the
    verdict on the game (a penalty or the win) are in module Game. */
module Rules {
  import opened Grid

  datatype Option<T> = None | Some(value: T)

  /** Which message `checkWin` shows, or that it reaches `doWin`. */
  datatype Verdict =
    | Win             // every check passed (line 201)
    | WrongCount      // "Find exactly 6 carrots!" (line 162)
    | RowConflict     // "Row Conflict!" (line 178)
    | ColumnConflict  // "Column Conflict!" (line 179)
    | RegionConflict  // "Region Conflict!" (line 180)
    | Touching        // "Rabbits are touching!" (line 194)

  /** `regionMap[h]`, which is `undefined` when the map has no such entry
      (before any successful generation the map is the empty array). */
  function RegionAt(regions: seq<int>, h: int): Option<int> {
    if 0 <= h < |regions| then Some(regions[h]) else None
  }

  /** The indices of the holes, ascending (lines 155-158). */
  function Holes(board: seq<bool>): seq<int>
    decreases |board|
  {
    if |board| == 0 then []
    else
      var n := |board| - 1;
      Holes(board[..n]) + (if board[n] then [n] else [])
  }

  /** The sets `rows`, `cols` and `regions` once the first j holes have passed. */
  function RowsOf(holes: seq<int>, j: int): set<int>
    requires 0 <= j <= |holes|
  {
    set k | 0 <= k < j :: Row(holes[k])
  }

  function ColsOf(holes: seq<int>, j: int): set<int>
    requires 0 <= j <= |holes|
  {
    set k | 0 <= k < j :: Col(holes[k])
  }

  function RegionsOf(holes: seq<int>, regions: seq<int>, j: int): set<Option<int>>
    requires 0 <= j <= |holes|
  {
    set k | 0 <= k < j :: RegionAt(regions, holes[k])
  }

  /** The check hole j fails first, in the order of lines 178-196: its row,
      column and region against the earlier holes, then its distance to
      every other hole. */
  function HoleFault(holes: seq<int>, regions: seq<int>, j: int): Option<Verdict>
    requires 0 <= j < |holes|
  {
    var h := holes[j];
    if Row(h) in RowsOf(holes, j) then Some(RowConflict)
    else if Col(h) in ColsOf(holes, j) then Some(ColumnConflict)
    else if RegionAt(regions, h) in RegionsOf(holes, regions, j) then Some(RegionConflict)
    else if exists m :: 0 <= m < |holes| && holes[m] != h && Adjacent(h, holes[m]) then Some(Touching)
    else None
  }

  /** The loop of lines 172-198 from hole j on. */
  function Scan(holes: seq<int>, regions: seq<int>, j: nat): Verdict
    requires j <= |holes|
    decreases |holes| - j
  {
    if j == |holes| then Win
    else match HoleFault(holes, regions, j)
      case Some(v) => v
      case None => Scan(holes, regions, j + 1)
  }

  /** What `checkWin` decides for an active game. */
  function Judge(board: seq<bool>, regions: seq<int>): Verdict {
    var holes := Holes(board);
    if |holes| != 6 then WrongCount else Scan(holes, regions, 0)
  }

  /** Two holes that may both belong to a solution. */
  ghost predicate Compatible(a: int, b: int, regions: seq<int>) {
    Row(a) != Row(b) && Col(a) != Col(b) && RegionAt(regions, a) != RegionAt(regions, b) && !Adjacent(a, b)
  }

  /** The rules of the puzzle, stated declaratively: exactly six holes, pairwise
      in different rows, columns and regions, and no two touching. */
  ghost predicate Solved(board: seq<bool>, regions: seq<int>) {
    var holes := Holes(board);
    |holes| == 6 && forall i, j :: 0 <= i < j < |holes| ==> Compatible(holes[i], holes[j], regions)
  }

  /** The holes are exactly the marked cells, each once, in ascending order. */
  lemma {:induction false} HolesAreMarks(board: seq<bool>)
    ensures forall i :: 0 <= i < |Holes(board)| ==> 0 <= Holes(board)[i] < |board| && board[Holes(board)[i]]
    ensures forall i, j :: 0 <= i < j < |Holes(board)| ==> Holes(board)[i] < Holes(board)[j]
    ensures forall h :: 0 <= h < |board| && board[h] ==> h in Holes(board)
    decreases |board|
  {
    if |board| > 0 {
      var n := |board| - 1;
      var prefix := board[..n];
      HolesAreMarks(prefix);
      var p := Holes(prefix);
      var holes := p + (if board[n] then [n] else []);
      assert Holes(board) == holes;
      forall i | 0 <= i < |p|
        ensures p[i] < n && board[p[i]]
      {
        assert prefix[p[i]] == board[p[i]];
      }
      forall h | 0 <= h < n && board[h]
        ensures h in p
      {
        assert prefix[h] == board[h];
      }
    }
  }

  /** The scan reaches the end exactly when no hole from j on fails a check. */
  lemma {:induction false} ScanWinIff(holes: seq<int>, regions: seq<int>, j: nat)
    requires j <= |holes|
    ensures Scan(holes, regions, j) != WrongCount
    ensures Scan(holes, regions, j) == Win <==>
            forall k :: j <= k < |holes| ==> HoleFault(holes, regions, k) == None
    decreases |holes| - j
  {
    if j < |holes| {
      ScanWinIff(holes, regions, j + 1);
    }
  }

  /** Passing every per-hole check is the same as being pairwise compatible,
      for distinct holes: the uniqueness checks look back at earlier holes,
      the touching check at all the others. */
  lemma FaultFreeIffCompatible(holes: seq<int>, regions: seq<int>)
    requires forall i, j :: 0 <= i < j < |holes| ==> holes[i] < holes[j]
    ensures (forall k :: 0 <= k < |holes| ==> HoleFault(holes, regions, k) == None) <==>
            (forall i, j :: 0 <= i < j < |holes| ==> Compatible(holes[i], holes[j], regions))
  {
    if forall k :: 0 <= k < |holes| ==> HoleFault(holes, regions, k) == None {
      forall i, j | 0 <= i < j < |holes|
        ensures Compatible(holes[i], holes[j], regions)
      {
        assert HoleFault(holes, regions, j) == None;
        assert Row(holes[i]) in RowsOf(holes, j);
        assert Col(holes[i]) in ColsOf(holes, j);
        assert RegionAt(regions, holes[i]) in RegionsOf(holes, regions, j);
        assert HoleFault(holes, regions, i) == None;
      }
    }
    if forall i, j :: 0 <= i < j < |holes| ==> Compatible(holes[i], holes[j], regions) {
      forall k | 0 <= k < |holes|
        ensures HoleFault(holes, regions, k) == None
      {
        var h := holes[k];
        assert Row(h) !in RowsOf(holes, k);
        assert Col(h) !in ColsOf(holes, k);
        assert RegionAt(regions, h) !in RegionsOf(holes, regions, k);
        forall m | 0 <= m < |holes| && holes[m] != h
          ensures !Adjacent(h, holes[m])
        {
          if m < k {
            assert Compatible(holes[m], h, regions);
          } else {
            assert Compatible(h, holes[m], regions);
          }
        }
      }
    }
  }

  /** `checkWin` reaches `doWin` exactly when the holes solve the puzzle. */
  lemma JudgeWinIffSolved(board: seq<bool>, regions: seq<int>)
    ensures Judge(board, regions) == Win <==> Solved(board, regions)
  {
    var holes := Holes(board);
    HolesAreMarks(board);
    ScanWinIff(holes, regions, 0);
    FaultFreeIffCompatible(holes, regions);
  }

  /** The count is checked first and alone: a wrong number of holes is
      reported as such, and nothing else is ever reported as a wrong count. */
  lemma JudgeWrongCountIff(board: seq<bool>, regions: seq<int>)
    ensures Judge(board, regions) == WrongCount <==> |Holes(board)| != 6
  {
    ScanWinIff(Holes(board), regions, 0);
  }

  /** The per-hole order: when the first two holes touch, the first hole's
      touching check fires before any uniqueness check of the second hole
      (holes 0 and 1, for instance, report touching). */
  lemma TouchingReportedFirst(board: seq<bool>, regions: seq<int>)
    requires |Holes(board)| == 6
    requires Adjacent(Holes(board)[0], Holes(board)[1])
    ensures Judge(board, regions) == Touching
  {
    var holes := Holes(board);
    HolesAreMarks(board);
    assert holes[1] != holes[0];
    assert RowsOf(holes, 0) == {} && ColsOf(holes, 0) == {} && RegionsOf(holes, regions, 0) == {};
    assert HoleFault(holes, regions, 0) == Some(Touching);
  }

  /** When the first hole touches no other hole and the second shares its
      row, the row conflict is reported (holes 0 and 3, for instance). */
  lemma RowConflictReportedFirst(board: seq<bool>, regions: seq<int>)
    requires |Holes(board)| == 6
    requires forall m :: 1 <= m < 6 ==> !Adjacent(Holes(board)[0], Holes(board)[m])
    requires Row(Holes(board)[0]) == Row(Holes(board)[1])
    ensures Judge(board, regions) == RowConflict
  {
    var holes := Holes(board);
    HolesAreMarks(board);
    assert RowsOf(holes, 0) == {} && ColsOf(holes, 0) == {} && RegionsOf(holes, regions, 0) == {};
    assert HoleFault(holes, regions, 0) == None;
    assert Scan(holes, regions, 0) == Scan(holes, regions, 1);
    assert Row(holes[0]) in RowsOf(holes, 1);
    assert HoleFault(holes, regions, 1) == Some(RowConflict);
  }

  /** `checkWin` on arrays, as the source runs it: collect the holes, check the
      count, then walk the holes. Reads its arguments and changes nothing. */
  method Validate(board: array<bool>, regionMap: array<int>) returns (v: Verdict)
    ensures v == Judge(board[..], regionMap[..])
  {
    var holes := CollectHoles(board);
    if |holes| != 6 {
      return WrongCount;
    }
    v := ScanHoles(holes, regionMap);
  }

  /** The loop of lines 155-158: the indices of the marked cells, ascending. */
  method CollectHoles(board: array<bool>) returns (holes: seq<int>)
    ensures holes == Holes(board[..])
  {
    holes := [];
    var idx := 0;
    while idx < board.Length
      invariant 0 <= idx <= board.Length
      invariant holes == Holes(board[..idx])
    {
      assert board[..idx + 1][..idx] == board[..idx];
      if board[idx] {
        holes := holes + [idx];
      }
      idx := idx + 1;
    }
    assert board[..board.Length] == board[..];
  }

  /** The loop of lines 172-198: each hole's row, column and region against
      the sets of the earlier holes, which then grow by it, and its distance
      to every other hole. */
  method ScanHoles(holes: seq<int>, regionMap: array<int>) returns (v: Verdict)
    ensures v == Scan(holes, regionMap[..], 0)
  {
    ghost var regions := regionMap[..];
    var rows: set<int> := {};
    var cols: set<int> := {};
    var regs: set<Option<int>> := {};
    var j := 0;
    while j < |holes|
      invariant 0 <= j <= |holes|
      invariant rows == RowsOf(holes, j) && cols == ColsOf(holes, j)
      invariant regs == RegionsOf(holes, regions, j)
      invariant Scan(holes, regions, 0) == Scan(holes, regions, j)
    {
      var h := holes[j];
      var r := h / 6;
      var c := h % 6;
      var reg := if 0 <= h < regionMap.Length then Some(regionMap[h]) else None;
      assert reg == RegionAt(regions, h);
      if r in rows {
        return RowConflict;
      }
      if c in cols {
        return ColumnConflict;
      }
      if reg in regs {
        return RegionConflict;
      }
      GrowSets(holes, regions, j);
      rows := rows + {r};
      cols := cols + {c};
      regs := regs + {reg};
      var touching := TouchesOther(holes, h);
      if touching {
        return Touching;
      }
      j := j + 1;
    }
    return Win;
  }

  /** The sets after hole j are those before it with hole j's entries added. */
  lemma GrowSets(holes: seq<int>, regions: seq<int>, j: int)
    requires 0 <= j < |holes|
    ensures RowsOf(holes, j + 1) == RowsOf(holes, j) + {Row(holes[j])}
    ensures ColsOf(holes, j + 1) == ColsOf(holes, j) + {Col(holes[j])}
    ensures RegionsOf(holes, regions, j + 1) == RegionsOf(holes, regions, j) + {RegionAt(regions, holes[j])}
  {
  }

  /** The inner loop of lines 186-196: whether some other hole touches h. */
  method TouchesOther(holes: seq<int>, h: int) returns (touching: bool)
    ensures touching <==> exists m :: 0 <= m < |holes| && holes[m] != h && Adjacent(h, holes[m])
  {
    var k := 0;
    while k < |holes|
      invariant 0 <= k <= |holes|
      invariant forall m :: 0 <= m < k && holes[m] != h ==> !Adjacent(h, holes[m])
    {
      var other := holes[k];
      if h == other {
        k := k + 1;
        continue;
      }
      if Abs(h / 6 - other / 6) <= 1 && Abs(h % 6 - other % 6) <= 1 {
        return true;
      }
      k := k + 1;
    }
    return false;
  }
}
