/** The game state of game.js: the module-level variables `boardSolution`,
    `regionMap`, `playerBoard`, `penaltySeconds` and `isGameActive`
    (lines 3-9) as the fields of one object, with the functions that update
    them: `generateLevel`, `generateRegions`, `initGame`, `startGame`,
    `handleInput`, `checkWin`, `showPenalty` and `doWin`. */
module Game {
  import opened Grid
  import opened Mulberry
  import opened Level
  import opened Rules

  /** The daily seed of line 100: the sum of the character codes of the date
      text, folded from the left as `reduce` does. */
  function SeedOf(day: string): nat
    decreases |day|
  {
    if |day| == 0 then 0 else SeedOf(day[..|day| - 1]) + day[|day| - 1] as int
  }

  lemma {:induction false} SeedOfAppend(a: string, b: string)
    ensures SeedOf(a + b) == SeedOf(a) + SeedOf(b)
    decreases |b|
  {
    if |b| == 0 {
      assert a + b == a;
    } else {
      var n := |b| - 1;
      assert (a + b)[..|a + b| - 1] == a + b[..n];
      assert (a + b)[|a + b| - 1] == b[n];
      SeedOfAppend(a, b[..n]);
    }
  }

  /** The seed depends only on which characters occur, not on their order:
      two dates whose texts are rearrangements of each other (2025-01-02 and
      2025-02-01, say) get the same seed, and so the same stream of `mulberry32`. */
  lemma {:induction false} SeedOfPermutation(a: string, b: string)
    requires multiset(a) == multiset(b)
    ensures SeedOf(a) == SeedOf(b)
    decreases |a|
  {
    if |a| == 0 {
      assert |b| == |multiset(b)| == 0;
    } else {
      var n := |a| - 1;
      var x := a[n];
      assert a == a[..n] + [x];
      assert multiset(a) == multiset(a[..n]) + multiset{x};
      assert x in multiset(b);
      var p :| 0 <= p < |b| && b[p] == x;
      var rest := b[..p] + b[p + 1..];
      assert b == b[..p] + [x] + b[p + 1..];
      assert multiset(b) == multiset(b[..p]) + multiset{x} + multiset(b[p + 1..]);
      assert multiset(rest) == multiset(b[..p]) + multiset(b[p + 1..]);
      MultisetCancel(multiset(a[..n]), multiset(rest), x);
      SeedOfPermutation(a[..n], rest);
      SeedOfAppend(a[..n], [x]);
      SeedOfAppend(b[..p], [x]);
      SeedOfAppend(b[..p] + [x], b[p + 1..]);
      SeedOfAppend(b[..p], b[p + 1..]);
      assert [x][..0] == [];
    }
  }

  lemma MultisetCancel(p: multiset<char>, q: multiset<char>, x: char)
    requires p + multiset{x} == q + multiset{x}
    ensures p == q
  {
    forall y
      ensures p[y] == q[y]
    {
      assert (p + multiset{x})[y] == (q + multiset{x})[y];
    }
  }

  /** Distinct values of a sequence form a set of the same size. */
  lemma {:induction false} DistinctCardinality(s: seq<int>)
    requires forall i, j :: 0 <= i < j < |s| ==> s[i] != s[j]
    ensures |set x | x in s| == |s|
    decreases |s|
  {
    if |s| > 0 {
      var n := |s| - 1;
      var prefix := s[..n];
      DistinctCardinality(prefix);
      assert (set x | x in s) == (set x | x in prefix) + {s[n]};
      assert s[n] !in (set x | x in prefix);
    }
  }

  /** The cells of the carrots, in placement order. */
  ghost function Cells(cs: seq<Carrot>): (cells: seq<int>)
    ensures |cells| == |cs|
  {
    seq(|cs|, k requires 0 <= k < |cs| => CellOf(cs[k]))
  }

  /** The six carrots of a successful placement stand on six different cells. */
  lemma CellsDistinct(cs: seq<Carrot>)
    requires WellPlaced(cs)
    ensures forall k :: 0 <= k < 6 ==> 0 <= Cells(cs)[k] < 36
    ensures forall k, l :: 0 <= k < l < 6 ==> Cells(cs)[k] != Cells(cs)[l]
  {
    var cells := Cells(cs);
    forall k | 0 <= k < 6
      ensures 0 <= cells[k] < 36
    {
      IndexCoordinates(cs[k].r, cs[k].c);
    }
    forall k, l | 0 <= k < l < 6
      ensures cells[k] != cells[l]
    {
      IndexCoordinates(cs[k].r, cs[k].c);
      IndexCoordinates(cs[l].r, cs[l].c);
    }
  }

  /** The holes of the solution board are the carrot cells. */
  lemma HolesAreCells(cs: seq<Carrot>, board: seq<bool>)
    requires WellPlaced(cs) && SolutionBoard(cs, board)
    ensures forall h :: h in Holes(board) <==> h in Cells(cs)
    ensures forall h :: h in Holes(board) <==> exists k :: 0 <= k < 6 && CellOf(cs[k]) == h
  {
    var holes := Holes(board);
    var cells := Cells(cs);
    HolesAreMarks(board);
    CellsDistinct(cs);
    forall h
      ensures h in holes <==> h in cells
      ensures h in holes <==> exists k :: 0 <= k < 6 && CellOf(cs[k]) == h
    {
      if h in cells {
        var k :| 0 <= k < 6 && cells[k] == h;
        assert CellOf(cs[k]) == h;
        assert board[h];
      }
      if h in holes {
        var i :| 0 <= i < |holes| && holes[i] == h;
        assert 0 <= h < 36 && board[h];
        var k :| 0 <= k < 6 && CellOf(cs[k]) == h;
        assert cells[k] == h;
      }
    }
  }

  /** Two repetition-free sequences with the same elements have the same length. */
  lemma SameElementsSameLength(s: seq<int>, t: seq<int>)
    requires forall i, j :: 0 <= i < j < |s| ==> s[i] != s[j]
    requires forall i, j :: 0 <= i < j < |t| ==> t[i] != t[j]
    requires forall x :: x in s <==> x in t
    ensures |s| == |t|
  {
    assert (set x | x in s) == (set x | x in t);
    DistinctCardinality(s);
    DistinctCardinality(t);
  }

  /** A generated `boardSolution` has exactly six holes, one per carrot cell. */
  lemma SolutionHasSixHoles(cs: seq<Carrot>, board: seq<bool>)
    requires WellPlaced(cs) && SolutionBoard(cs, board)
    ensures |Holes(board)| == 6
    ensures forall h :: h in Holes(board) <==> exists k :: 0 <= k < 6 && CellOf(cs[k]) == h
  {
    HolesAreMarks(board);
    CellsDistinct(cs);
    HolesAreCells(cs, board);
    SameElementsSameLength(Holes(board), Cells(cs));
  }

  /** Two carrots of a successful placement are in different rows, columns
      and regions and do not touch. */
  lemma CarrotsCompatible(cs: seq<Carrot>, us: seq<real>, k: int, l: int)
    requires WellPlaced(cs) && |us| == 216 && UnitValues(us)
    requires 0 <= k < 6 && 0 <= l < 6 && k != l
    ensures Compatible(CellOf(cs[k]), CellOf(cs[l]), RegionMapSpec(cs, us))
  {
    IndexCoordinates(cs[k].r, cs[k].c);
    IndexCoordinates(cs[l].r, cs[l].c);
    CarrotKeepsColour(cs, us, k);
    CarrotKeepsColour(cs, us, l);
    if k < l {
      assert !Touch(cs[k].r, cs[k].c, cs[l].r, cs[l].c);
    } else {
      assert !Touch(cs[l].r, cs[l].c, cs[k].r, cs[k].c);
    }
  }

  /** The generator and the validator state the same rules: a generated
      solution, dug out exactly, is judged a win. */
  lemma GeneratedSolutionWins(cs: seq<Carrot>, board: seq<bool>, us: seq<real>)
    requires WellPlaced(cs) && SolutionBoard(cs, board)
    requires |us| == 216 && UnitValues(us)
    ensures Judge(board, RegionMapSpec(cs, us)) == Win
  {
    var holes := Holes(board);
    var regions := RegionMapSpec(cs, us);
    HolesAreMarks(board);
    SolutionHasSixHoles(cs, board);
    forall i, j | 0 <= i < j < |holes|
      ensures Compatible(holes[i], holes[j], regions)
    {
      assert holes[i] in holes && holes[j] in holes;
      var k :| 0 <= k < 6 && CellOf(cs[k]) == holes[i];
      var l :| 0 <= l < 6 && CellOf(cs[l]) == holes[j];
      CarrotsCompatible(cs, us, k, l);
    }
    JudgeWinIffSolved(board, regions);
  }

  /** Six carrots placed at (rows[k], cols[k]) with colour k, no two
      touching, from two permutations of 0..5, are a successful placement. */
  lemma PlacementWellPlaced(rows: seq<int>, cols: seq<int>, placed: seq<Carrot>)
    requires |rows| == 6 && |cols| == 6 && |placed| == 6
    requires forall i :: 0 <= i < 6 ==> 0 <= rows[i] < 6 && 0 <= cols[i] < 6
    requires forall i, j :: 0 <= i < j < 6 ==> rows[i] != rows[j] && cols[i] != cols[j]
    requires forall k :: 0 <= k < 6 ==> placed[k] == Carrot(rows[k], cols[k], k)
    requires forall k, l :: 0 <= k < l < 6 ==>
               !Touch(placed[k].r, placed[k].c, placed[l].r, placed[l].c)
    ensures WellPlaced(placed)
  {
    forall i, j | 0 <= i < j < 6
      ensures placed[i].r != placed[j].r && placed[i].c != placed[j].c
    {
      assert placed[i] == Carrot(rows[i], cols[i], i) && placed[j] == Carrot(rows[j], cols[j], j);
    }
  }

  /** The 216 values a generator whose stream comes from seed returns after
      its first n calls, in order. */
  ghost function Upcoming(seed: bv32, n: nat): (us: seq<real>)
    ensures |us| == 216 && UnitValues(us)
  {
    ValuesOf(Draws(seed, n + 216)[n..])
  }

  /** What one placement attempt did with its two shuffled lists: both are
      permutations of 0..5; carrot k went to (rows[k], cols[k]) with colour k;
      no two placed carrots touch; and the attempt failed exactly when it
      stopped early, at a carrot touching one already placed. */
  ghost predicate Tried(rows: seq<int>, cols: seq<int>, placed: seq<Carrot>, complete: bool) {
    && |rows| == 6 && multiset(rows) == multiset([0, 1, 2, 3, 4, 5])
    && |cols| == 6 && multiset(cols) == multiset([0, 1, 2, 3, 4, 5])
    && |placed| <= 6 && (complete <==> |placed| == 6)
    && (forall k :: 0 <= k < |placed| ==> placed[k] == Carrot(rows[k], cols[k], k))
    && (forall k, l :: 0 <= k < l < |placed| ==>
          !Touch(placed[k].r, placed[k].c, placed[l].r, placed[l].c))
    && (!complete ==>
          exists e :: 0 <= e < |placed| &&
            Touch(placed[e].r, placed[e].c, rows[|placed|], cols[|placed|]))
  }

  /** The seed `mulberry32` captures on the day whose date text is today
      (lines 100 and 103): the character-code sum, kept as its low 32 bits. */
  function DaySeed(today: string): bv32 {
    (SeedOf(today) % 0x1_0000_0000) as bv32
  }

  /** Once a generator made from seed has made n + j calls, the values of its
      calls after the (n + i)-th are the upcoming values i to j. */
  lemma UpcomingDrawn(seed: bv32, n: nat, i: nat, j: nat, drawn: seq<bv32>)
    requires i <= j <= 216 && drawn == Draws(seed, n + j)
    ensures ValuesOf(drawn[n + i..]) == Upcoming(seed, n)[i..j]
  {
    var all := Draws(seed, n + 216);
    DrawsPrefix(seed, n + j, n + 216);
    assert drawn[n + i..] == all[n..][i..j];
    ValuesOfSlice(all[n..], i, j);
  }

  /** The colour the `forEach` picks for cell (r, c) from the six values
      that follow the cells before it is that cell's entry of the region map
      of the upcoming values. */
  lemma DueRegion(cs: seq<Carrot>, r: int, c: int, seed: bv32, n: nat,
                  drawn: seq<bv32>, more: seq<bv32>, region: int)
    requires |cs| == 6 && 0 <= r < 6 && 0 <= c < 6
    requires |drawn| == n + Index(r, c) * 6 && |more| == 6
    requires drawn + more == Draws(seed, n + Index(r, c) * 6 + 6)
    requires region == Closest(cs, r, c, ValuesOf(more)).region
    ensures 0 <= Index(r, c) < 36
    ensures region == CellRegion(cs, Upcoming(seed, n), Index(r, c))
  {
    var idx := Index(r, c);
    IndexCoordinates(r, c);
    DueValues(seed, n, idx * 6, drawn, more);
  }

  /** The six calls after the first n + k are the upcoming values k to k + 6. */
  lemma DueValues(seed: bv32, n: nat, k: nat, drawn: seq<bv32>, more: seq<bv32>)
    requires k + 6 <= 216 && |drawn| == n + k && |more| == 6
    requires drawn + more == Draws(seed, n + k + 6)
    ensures ValuesOf(more) == Upcoming(seed, n)[k..k + 6]
  {
    UpcomingDrawn(seed, n, k, k + 6, drawn + more);
    assert (drawn + more)[n + k..] == more;
  }

  /** With every cell coloured from the upcoming values, the map is the
      region map of the values the 216 calls returned. */
  lemma RegionsDone(cs: seq<Carrot>, seed: bv32, n: nat, drawn: seq<bv32>, states: seq<bv32>, m: seq<int>)
    requires |cs| == 6 && |drawn| == n && |states| == 216 && |m| == 36
    requires drawn + states == Draws(seed, n + 216)
    requires forall h :: 0 <= h < 36 ==> m[h] == CellRegion(cs, Upcoming(seed, n), h)
    ensures m == RegionMapSpec(cs, ValuesOf(states))
  {
    UpcomingDrawn(seed, n, 0, 216, drawn + states);
    assert (drawn + states)[n..] == states;
  }

  class Game {
    var boardSolution: array<bool>
    var regionMap: array<int>
    var playerBoard: array<bool>
    var penaltySeconds: int
    var isGameActive: bool
    /** Whether the last `generateLevel` succeeded, and what it placed. */
    ghost var generated: bool
    ghost var carrots: seq<Carrot>
    /** The 216 values `generateRegions` drew, in the order it drew them. */
    ghost var jitters: seq<real>

    /** The player's board has a cell per square and is not the solution
        array; after a successful generation the solution and region map are
        those of the placed carrots and the drawn jitters. */
    ghost predicate Valid()
      reads this, boardSolution, regionMap
    {
      && playerBoard.Length == 36
      && playerBoard != boardSolution
      && (generated ==>
            && WellPlaced(carrots)
            && SolutionBoard(carrots, boardSolution[..])
            && |jitters| == 216 && UnitValues(jitters)
            && regionMap[..] == RegionMapSpec(carrots, jitters))
    }

    /** Loading the script: the initial values of lines 3-9, then the call
        `initGame()` of line 248. */
    constructor (today: string)
      ensures Valid()
      ensures fresh(playerBoard) && playerBoard[..] == seq(36, _ => false)
      ensures !isGameActive && penaltySeconds == 0
      ensures fresh(boardSolution)
      ensures generated ==> exists start: nat :: jitters == Upcoming(DaySeed(today), start)
      ensures !generated ==> regionMap.Length == 0
    {
      boardSolution := new bool[0];
      regionMap := new int[0];
      playerBoard := new bool[0];
      penaltySeconds := 0;
      isGameActive := false;
      generated := false;
      carrots := [];
      jitters := [];
      new;
      ghost var start := InitGame(today);
    }

    /** `initGame` (lines 93-110): a fresh empty board, no penalty, the game
        not yet started, and a level generated from the day's seed. */
    method InitGame(today: string) returns (ghost start: nat)
      modifies this
      ensures Valid()
      ensures fresh(playerBoard) && playerBoard[..] == seq(36, _ => false)
      ensures !isGameActive && penaltySeconds == 0
      ensures fresh(boardSolution)
      ensures generated ==> jitters == Upcoming(DaySeed(today), start)
      ensures !generated ==> regionMap == old(regionMap)
    {
      playerBoard := new bool[36](_ => false);
      isGameActive := false;
      penaltySeconds := 0;
      var seed := SeedOf(today);
      ghost var tries;
      tries, start := GenerateLevel((seed % 0x1_0000_0000) as bv32);
    }

    /** `generateLevel(seed)` (lines 28-70): a generator from the seed, the
        placement attempts, and, when one succeeded, the regions grown from the
        same generator. The solution board is the board of the last attempt;
        when every attempt fails that board is partial and the region map is
        untouched. */
    method GenerateLevel(seed: bv32) returns (ghost tries: nat, ghost start: nat)
      requires playerBoard.Length == 36
      modifies this
      ensures Valid()
      ensures playerBoard == old(playerBoard) && penaltySeconds == old(penaltySeconds)
      ensures isGameActive == old(isGameActive)
      ensures 1 <= tries <= 1000
      ensures fresh(boardSolution) && boardSolution.Length == 36
      ensures generated ==> fresh(regionMap) && jitters == ValuesOf(Draws(seed, start + 216)[start..])
      ensures !generated ==> tries == 1000 && regionMap == old(regionMap)
    {
      var rng := new Rng(seed);
      var board, placed, success, attempts := PlaceLevel(rng);
      tries := attempts;
      start := |rng.drawn|;
      if success {
        var m;
        ghost var states;
        m, states := GenerateRegions(placed, rng);
        assert states == rng.drawn[start..];
        boardSolution, regionMap := board, m;
        carrots, jitters := placed, ValuesOf(states);
      } else {
        boardSolution := board;
      }
      generated := success;
    }

    /** The attempts loop of lines 30-64, up to the call `generateRegions`
        ending the first successful attempt: each attempt takes a fresh board,
        shuffles the rows and the columns with the generator and places the
        carrots. Returns the last board, its carrots, whether they are all six,
        and how many attempts were made. */
    static method PlaceLevel(rng: Rng)
      returns (board: array<bool>, placed: seq<Carrot>, success: bool, attempts: nat)
      requires rng.Valid()
      modifies rng
      ensures rng.Valid() && old(rng.drawn) <= rng.drawn
      ensures fresh(board) && board.Length == 36 && 1 <= attempts <= 1000
      ensures success ==> WellPlaced(placed) && SolutionBoard(placed, board[..])
      ensures !success ==> attempts == 1000
    {
      attempts := 0;
      success := false;
      board := new bool[36](_ => false);
      placed := [];
      while !success && attempts < 1000
        invariant 0 <= attempts <= 1000
        invariant attempts == 0 ==> !success
        invariant rng.Valid() && old(rng.drawn) <= rng.drawn
        invariant fresh(board) && board.Length == 36
        invariant success ==> WellPlaced(placed) && SolutionBoard(placed, board[..])
      {
        attempts := attempts + 1;
        ghost var rows, cols;
        board, placed, success, rows, cols := Attempt(rng);
      }
    }

    /** One attempt, lines 35-63: shuffle the rows and the columns, then place
        the carrots on a fresh board; successful when all six were placed.
        Also returns the two shuffled lists. */
    static method Attempt(rng: Rng)
      returns (board: array<bool>, placed: seq<Carrot>, validPlacement: bool,
               ghost rows: seq<int>, ghost cols: seq<int>)
      requires rng.Valid()
      modifies rng
      ensures rng.Valid() && old(rng.drawn) <= rng.drawn
      ensures fresh(board) && board.Length == 36
      ensures Tried(rows, cols, placed, validPlacement)
      ensures SolutionBoard(placed, board[..])
      ensures validPlacement ==> WellPlaced(placed)
    {
      var shuffledRows := ShuffledRange(rng);
      var shuffledCols := ShuffledRange(rng);
      rows, cols := shuffledRows, shuffledCols;
      board, placed, validPlacement := PlaceCarrots(shuffledRows, shuffledCols);
      if validPlacement {
        PlacementWellPlaced(rows, cols, placed);
      }
    }

    /** The placement loop of lines 48-63 on a fresh, empty board: carrot i
        goes to (rows[i], cols[i]) unless it touches a carrot already placed,
        which ends the attempt. Returns the carrots placed and whether all six
        were. */
    static method PlaceCarrots(rows: seq<int>, cols: seq<int>)
      returns (board: array<bool>, placed: seq<Carrot>, validPlacement: bool)
      requires |rows| == 6 && |cols| == 6
      requires forall i :: 0 <= i < 6 ==> 0 <= rows[i] < 6 && 0 <= cols[i] < 6
      ensures fresh(board) && board.Length == 36
      ensures |placed| <= 6 && (validPlacement <==> |placed| == 6)
      ensures forall k :: 0 <= k < |placed| ==> placed[k] == Carrot(rows[k], cols[k], k)
      ensures forall k, l :: 0 <= k < l < |placed| ==>
                !Touch(placed[k].r, placed[k].c, placed[l].r, placed[l].c)
      ensures !validPlacement ==>
                exists e :: 0 <= e < |placed| &&
                  Touch(placed[e].r, placed[e].c, rows[|placed|], cols[|placed|])
      ensures SolutionBoard(placed, board[..])
    {
      board := new bool[36](_ => false);
      placed := [];
      validPlacement := true;
      var i := 0;
      while i < 6
        invariant 0 <= i <= 6 && |placed| == i && validPlacement
        invariant forall k :: 0 <= k < i ==> placed[k] == Carrot(rows[k], cols[k], k)
        invariant forall k, l :: 0 <= k < l < i ==>
                    !Touch(placed[k].r, placed[k].c, placed[l].r, placed[l].c)
        invariant forall h :: 0 <= h < 36 ==>
                    (board[h] <==> exists k :: 0 <= k < i && CellOf(placed[k]) == h)
      {
        var r := rows[i];
        var c := cols[i];
        var touching := TouchesPlaced(placed, r, c);
        if touching {
          validPlacement := false;
          break;
        }
        placed := placed + [Carrot(r, c, i)];
        IndexCoordinates(r, c);
        board[r * 6 + c] := true;
        i := i + 1;
      }
    }

    /** The inner loop of lines 53-58: whether the position (r, c) touches a
        carrot already placed. */
    static method TouchesPlaced(placed: seq<Carrot>, r: int, c: int) returns (touching: bool)
      ensures touching <==> exists e :: 0 <= e < |placed| && Touch(placed[e].r, placed[e].c, r, c)
    {
      var e := 0;
      while e < |placed|
        invariant 0 <= e <= |placed|
        invariant forall k :: 0 <= k < e ==> !Touch(placed[k].r, placed[k].c, r, c)
      {
        var existing := placed[e];
        if Abs(existing.r - r) <= 1 && Abs(existing.c - c) <= 1 {
          return true;
        }
        e := e + 1;
      }
      return false;
    }

    /** `generateRegions(carrots, rng)` (lines 72-90): the region map becomes
        a fresh array of 36 cells, all -1 at first, and each cell, in
        row-major order, gets the colour of the nearest carrot under that
        cell's jitter. Returns the 216 states the generator went through. */
    static method GenerateRegions(cs: seq<Carrot>, rng: Rng)
      returns (regionMap: array<int>, ghost states: seq<bv32>)
      requires |cs| == 6 && rng.Valid()
      modifies rng
      ensures rng.Valid() && rng.drawn == old(rng.drawn) + states && |states| == 216
      ensures fresh(regionMap) && regionMap[..] == RegionMapSpec(cs, ValuesOf(states))
    {
      var m := new int[36](_ => -1);
      states := [];
      ghost var n := |rng.drawn|;
      ghost var future := Upcoming(rng.seed, n);
      var r := 0;
      while r < 6
        invariant 0 <= r <= 6
        invariant rng.Valid() && fresh(m) && m.Length == 36
        invariant rng.drawn == old(rng.drawn) + states && |states| == r * 36
        invariant forall h :: 0 <= h < r * 6 ==> m[h] == CellRegion(cs, future, h)
      {
        var c := 0;
        while c < 6
          invariant 0 <= c <= 6
          invariant rng.Valid() && fresh(m) && m.Length == 36
          invariant rng.drawn == old(rng.drawn) + states && |states| == (r * 6 + c) * 6
          invariant forall h :: 0 <= h < r * 6 + c ==> m[h] == CellRegion(cs, future, h)
        {
          ghost var more := FillCell(cs, r, c, rng, m, n, future);
          assert old(rng.drawn) + (states + more) == (old(rng.drawn) + states) + more;
          states := states + more;
          c := c + 1;
        }
        r := r + 1;
      }
      RegionsDone(cs, rng.seed, n, old(rng.drawn), states, m[..]);
      regionMap := m;
    }

    /** One pass of the inner loop body, lines 76-87: cell (r, c) of the map
        gets the colour of its nearest carrot under the next six values of the
        generator, which are the ones due for that cell. */
    static method FillCell(cs: seq<Carrot>, r: int, c: int, rng: Rng, m: array<int>,
                           ghost n: nat, ghost future: seq<real>)
      returns (ghost more: seq<bv32>)
      requires |cs| == 6 && rng.Valid() && 0 <= r < 6 && 0 <= c < 6 && m.Length == 36
      requires future == Upcoming(rng.seed, n) && |rng.drawn| == n + Index(r, c) * 6
      modifies m, rng
      ensures rng.Valid() && rng.drawn == old(rng.drawn) + more && |more| == 6
      ensures 0 <= Index(r, c) < 36
      ensures m[Index(r, c)] == CellRegion(cs, future, Index(r, c))
      ensures forall h :: 0 <= h < 36 && h != Index(r, c) ==> m[h] == old(m[h])
    {
      var idx := Index(r, c);
      var closestRegion;
      ghost var cell;
      closestRegion, more, cell := ClosestCarrot(cs, r, c, rng);
      DueRegion(cs, r, c, rng.seed, n, old(rng.drawn), more, closestRegion);
      m[idx] := closestRegion;
    }

    /** The `forEach` of lines 77-86 for cell (r, c): one `rng()` per carrot in
        placement order, keeping the colour of the first carrot whose jittered
        distance is strictly smaller than the best so far. Returns the states
        the generator went through and the values it returned. */
    static method ClosestCarrot(cs: seq<Carrot>, r: int, c: int, rng: Rng)
      returns (closestRegion: int, ghost states: seq<bv32>, ghost cell: seq<real>)
      requires rng.Valid()
      modifies rng
      ensures rng.Valid() && rng.drawn == old(rng.drawn) + states && |states| == |cs|
      ensures cell == ValuesOf(states)
      ensures closestRegion == Closest(cs, r, c, cell).region
    {
      var minDst := 100.0;
      closestRegion := 0;
      states := [];
      cell := [];
      var j := 0;
      while j < |cs|
        invariant 0 <= j <= |cs| && |states| == j
        invariant rng.Valid() && rng.drawn == old(rng.drawn) + states
        invariant cell == ValuesOf(states)
        invariant Closest(cs, r, c, cell) == Nearest(minDst, closestRegion)
      {
        var carrot := cs[j];
        var dist := (Abs(carrot.r - r) + Abs(carrot.c - c)) as real;
        var x := rng.Next();
        dist := dist + x * 0.4;
        ClosestStep(cs, r, c, cell, x);
        if dist < minDst {
          minDst := dist;
          closestRegion := carrot.color;
        }
        ValuesOfAppend(states, rng.a);
        states := states + [rng.a];
        cell := cell + [x];
        j := j + 1;
      }
    }

    /** `startGame` (lines 123-127): the game becomes active; the timer is
        not modelled. */
    method StartGame()
      requires Valid()
      modifies this`isGameActive
      ensures Valid() && isGameActive
    {
      isGameActive := true;
    }

    /** `handleInput(idx)` (lines 138-141): digs or fills one hole while the
        game is active, and does nothing otherwise. */
    method HandleInput(idx: int)
      requires Valid() && 0 <= idx < 36
      modifies playerBoard
      ensures Valid()
      ensures old(isGameActive) ==> playerBoard[..] == old(playerBoard[..])[idx := !old(playerBoard[idx])]
      ensures !old(isGameActive) ==> playerBoard[..] == old(playerBoard[..])
    {
      if !isGameActive {
        return;
      }
      playerBoard[idx] := !playerBoard[idx];
    }

    /** `showPenalty` (line 206): ten seconds more on the clock. */
    method ShowPenalty()
      requires Valid()
      modifies this`penaltySeconds
      ensures Valid() && penaltySeconds == old(penaltySeconds) + 10
    {
      penaltySeconds := penaltySeconds + 10;
    }

    /** `doWin` (line 228): the game ends. */
    method DoWin()
      requires Valid()
      modifies this`isGameActive
      ensures Valid() && !isGameActive
    {
      isGameActive := false;
    }

    /** `checkWin` (lines 151-202): nothing while the game is inactive;
        otherwise the verdict on the player's board, a ten-second penalty for
        any failed check, and the end of the game when every check passes.
        Returns the verdict shown, if any. */
    method CheckWin() returns (shown: Option<Verdict>)
      requires Valid()
      modifies this`isGameActive, this`penaltySeconds
      ensures Valid()
      ensures !old(isGameActive) ==>
                shown == None && !isGameActive && penaltySeconds == old(penaltySeconds)
      ensures old(isGameActive) ==> shown == Some(Judge(playerBoard[..], regionMap[..]))
      ensures old(isGameActive) ==> (isGameActive <==> shown != Some(Win))
      ensures old(isGameActive) ==>
                penaltySeconds == old(penaltySeconds) + (if shown == Some(Win) then 0 else 10)
      ensures old(isGameActive) && generated && playerBoard[..] == boardSolution[..] ==>
                shown == Some(Win) && !isGameActive
    {
      if !isGameActive {
        return None;
      }
      var v := Validate(playerBoard, regionMap);
      if generated && playerBoard[..] == boardSolution[..] {
        GeneratedSolutionWins(carrots, boardSolution[..], jitters);
      }
      if v == Win {
        DoWin();
      } else {
        ShowPenalty();
      }
      shown := Some(v);
    }
  }

  /** Two clicks on the same cell of an active game leave the board as it was. */
  method HandleInputTwice(g: Game, idx: int)
    requires g.Valid() && 0 <= idx < 36
    modifies g.playerBoard
    ensures g.Valid() && g.playerBoard[..] == old(g.playerBoard[..])
  {
    g.HandleInput(idx);
    g.HandleInput(idx);
  }

  /** Loading the page, pressing start and clicking one cell: the new game is
      active and its board has exactly that cell dug. */
  method LoadStartClick(today: string, idx: int) returns (g: Game)
    requires 0 <= idx < 36
    ensures fresh(g) && g.Valid() && g.isGameActive && g.penaltySeconds == 0
    ensures g.playerBoard[..] == seq(36, i => i == idx)
  {
    g := new Game(today);
    g.StartGame();
    g.HandleInput(idx);
    assert g.playerBoard[..] == seq(36, i => i == idx);
  }
}
