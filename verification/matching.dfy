/** Match detection of GridManager: the directional line scan
    (`getLineMatches`), the seeded check (`checkChain`) and the union over a
    list of seeds (`checkMatches`), together with a declarative description of
    maximal runs that the scan-based code is proved to agree with. */
module Matching {
  import opened Block
  import opened Grid

  /** Where a scan for blocks of type t stops: the type is undefined (the start
      cell was empty or off the grid), the position is off the grid, or the
      cell there is empty or of another type. */
  predicate Stops(g: Grid, t: Cell, p: Pos)
    requires WellFormed(g)
  {
    t.None? || !InBounds(p) || At(g, p) != t
  }

  /** The cell k steps from (x, y) in direction (dc, dr). */
  function Ahead(x: int, y: int, dc: int, dr: int, k: nat): Pos
    decreases k
  {
    if k == 0 then Pos(x, y) else Ahead(x + dc, y + dr, dc, dr, k - 1)
  }

  /** Along the four cardinal directions, k steps move k cells on one axis. */
  lemma {:induction false} AheadCardinal(x: int, y: int, k: nat)
    decreases k
    ensures Ahead(x, y, 1, 0, k) == Pos(x + k, y)
    ensures Ahead(x, y, -1, 0, k) == Pos(x - k, y)
    ensures Ahead(x, y, 0, 1, k) == Pos(x, y + k)
    ensures Ahead(x, y, 0, -1, k) == Pos(x, y - k)
  {
    if k > 0 {
      AheadCardinal(x + 1, y, k - 1);
      AheadCardinal(x - 1, y, k - 1);
      AheadCardinal(x, y + 1, k - 1);
      AheadCardinal(x, y - 1, k - 1);
    }
  }

  /** How many more steps a scan in direction (dc, dr) can take from (x, y)
      before it must leave the grid. */
  function Budget(x: int, y: int, dc: int, dr: int): int
  {
    if dc > 0 then Columns - x
    else if dc < 0 then x + 1
    else if dr > 0 then Rows - y
    else y + 1
  }

  /** The loop of `getLineMatches`, from (x, y) on: the cells visited before the
      first stop, in visiting order. */
  function Scan(g: Grid, t: Cell, x: int, y: int, dc: int, dr: int): (s: seq<Pos>)
    requires WellFormed(g)
    requires dc != 0 || dr != 0
    ensures forall i :: 0 <= i < |s| ==> s[i] == Ahead(x, y, dc, dr, i)
    ensures forall i :: 0 <= i < |s| ==> InBounds(s[i]) && t.Some? && At(g, s[i]) == t
    ensures Stops(g, t, Ahead(x, y, dc, dr, |s|))
    decreases Budget(x, y, dc, dr)
  {
    if Stops(g, t, Pos(x, y)) then []
    else
      [Pos(x, y)] + Scan(g, t, x + dc, y + dr, dc, dr)
  }

  /** The type the scan compares against: `grid[col][row]?.type`, undefined
      when the row is off the grid or the cell is empty. */
  function StartCell(g: Grid, col: int, row: int): Cell
    requires WellFormed(g) && 0 <= col < Columns
  {
    if 0 <= row < Rows then g[col][row] else None
  }

  /** `getLineMatches(col, row, dc, dr)`: the blocks strictly beyond the start in
      direction (dc, dr), in order, all on the grid and of the start's type; the
      next cell in that direction ends the run (off the grid, empty, or of
      another type). The source indexes `grid[col]` before anything else, and
      its loop never ends for the zero direction, hence the requirements. */
  function GetLineMatches(g: Grid, col: int, row: int, dc: int, dr: int): (s: seq<Pos>)
    requires WellFormed(g) && 0 <= col < Columns
    requires dc != 0 || dr != 0
    ensures forall i :: 0 <= i < |s| ==> s[i] == Ahead(col, row, dc, dr, i + 1)
    ensures forall i :: 0 <= i < |s| ==>
              InBounds(s[i]) && At(g, s[i]).Some? && At(g, s[i]) == StartCell(g, col, row)
    ensures Stops(g, StartCell(g, col, row), Ahead(col, row, dc, dr, |s| + 1))
  {
    Scan(g, StartCell(g, col, row), col + dc, row + dr, dc, dr)
  }

  /** Moving along a row never leaves it, and likewise for a column. */
  lemma {:induction false} AheadOnLine(x: int, y: int, dc: int, dr: int, k: nat)
    decreases k
    ensures dr == 0 ==> Ahead(x, y, dc, dr, k).row == y
    ensures dc == 0 ==> Ahead(x, y, dc, dr, k).col == x
  {
    if k > 0 {
      AheadOnLine(x + dc, y + dr, dc, dr, k - 1);
    }
  }

  /** A horizontal scan stays in the start's row, a vertical one in its column. */
  lemma LineMatchesStayOnLine(g: Grid, col: int, row: int, dc: int, dr: int)
    requires WellFormed(g) && 0 <= col < Columns
    requires dc != 0 || dr != 0
    ensures dr == 0 ==> forall p :: p in GetLineMatches(g, col, row, dc, dr) ==> p.row == row
    ensures dc == 0 ==> forall p :: p in GetLineMatches(g, col, row, dc, dr) ==> p.col == col
  {
    var s := GetLineMatches(g, col, row, dc, dr);
    forall i | 0 <= i < |s|
      ensures dr == 0 ==> s[i].row == row
      ensures dc == 0 ==> s[i].col == col
    {
      AheadOnLine(col, row, dc, dr, i + 1);
    }
  }

  /** The horizontal candidates of `checkChain`: right scan, seed, left scan. */
  function HorizontalRun(g: Grid, col: int, row: int): seq<Pos>
    requires WellFormed(g) && InBounds(Pos(col, row))
  {
    GetLineMatches(g, col, row, 1, 0) + [Pos(col, row)] + GetLineMatches(g, col, row, -1, 0)
  }

  /** The vertical candidates of `checkChain`: upward scan, seed, downward scan. */
  function VerticalRun(g: Grid, col: int, row: int): seq<Pos>
    requires WellFormed(g) && InBounds(Pos(col, row))
  {
    GetLineMatches(g, col, row, 0, 1) + [Pos(col, row)] + GetLineMatches(g, col, row, 0, -1)
  }

  function Elems(s: seq<Pos>): set<Pos>
  {
    set p | p in s
  }

  /** `checkChain(col, row, matches)`: nothing happens for a seed off the grid
      or on an empty cell; otherwise the horizontal candidates are added when
      there are at least minCount of them, and independently the vertical ones.
      The set only grows, and every block added has the seed's type and lies in
      the seed's row or column. */
  function CheckChain(g: Grid, col: int, row: int, minCount: int, matches: set<Pos>): (r: set<Pos>)
    requires WellFormed(g)
    ensures matches <= r
    ensures !InBounds(Pos(col, row)) || g[col][row].None? ==> r == matches
    ensures forall p :: p in r && p !in matches ==>
              InBounds(Pos(col, row)) && InBounds(p) && At(g, p) == g[col][row] &&
              At(g, p).Some? && (p.col == col || p.row == row)
  {
    if !InBounds(Pos(col, row)) then matches
    else if g[col][row].None? then matches
    else
      LineMatchesStayOnLine(g, col, row, 1, 0);
      LineMatchesStayOnLine(g, col, row, -1, 0);
      LineMatchesStayOnLine(g, col, row, 0, 1);
      LineMatchesStayOnLine(g, col, row, 0, -1);
      var horizontal := HorizontalRun(g, col, row);
      var vertical := VerticalRun(g, col, row);
      var withHorizontal := if |horizontal| >= minCount then matches + Elems(horizontal) else matches;
      if |vertical| >= minCount then withHorizontal + Elems(vertical) else withHorizontal
  }

  /** What a seed contributes on its own. */
  function ChainAdds(g: Grid, seed: Pos, minCount: int): set<Pos>
    requires WellFormed(g)
  {
    CheckChain(g, seed.col, seed.row, minCount, {})
  }

  /** The contribution of a seed does not depend on what was found before it. */
  lemma CheckChainAccumulates(g: Grid, seed: Pos, minCount: int, matches: set<Pos>)
    requires WellFormed(g)
    ensures CheckChain(g, seed.col, seed.row, minCount, matches) == matches + ChainAdds(g, seed, minCount)
  {
  }

  /** Fold of `checkChain` over seeds[i..], as the `forEach` of `checkMatches`. */
  function CheckMatchesFrom(g: Grid, seeds: seq<Pos>, minCount: int, i: nat, matches: set<Pos>): (r: set<Pos>)
    requires WellFormed(g)
    requires i <= |seeds|
    ensures forall p :: p in r <==>
              p in matches || exists j :: i <= j < |seeds| && p in ChainAdds(g, seeds[j], minCount)
    decreases |seeds| - i
  {
    if i == |seeds| then matches
    else
      var next := CheckChain(g, seeds[i].col, seeds[i].row, minCount, matches);
      CheckChainAccumulates(g, seeds[i], minCount, matches);
      CheckMatchesFrom(g, seeds, minCount, i + 1, next)
  }

  /** `checkMatches(positions)`: the union of what every seed contributes; all of
      it lies on the grid and is occupied. */
  function CheckMatches(g: Grid, seeds: seq<Pos>, minCount: int): (r: set<Pos>)
    requires WellFormed(g)
    ensures forall p :: p in r <==> exists j :: 0 <= j < |seeds| && p in ChainAdds(g, seeds[j], minCount)
    ensures forall p :: p in r ==> InBounds(p) && At(g, p).Some?
  {
    CheckMatchesFrom(g, seeds, minCount, 0, {})
  }

  // Declarative runs.

  /** [lo, hi] is the maximal horizontal run through the occupied cell
      (col, row): every cell of the row from lo to hi holds the seed's type and
      the cells just outside the interval do not (or are off the grid). */
  ghost predicate IsHRun(g: Grid, col: int, row: int, lo: int, hi: int)
    requires WellFormed(g)
  {
    && InBounds(Pos(col, row)) && g[col][row].Some?
    && 0 <= lo <= col <= hi < Columns
    && (forall x :: lo <= x <= hi ==> g[x][row] == g[col][row])
    && (lo == 0 || g[lo - 1][row] != g[col][row])
    && (hi == Columns - 1 || g[hi + 1][row] != g[col][row])
  }

  /** [lo, hi] is the maximal vertical run through the occupied cell (col, row). */
  ghost predicate IsVRun(g: Grid, col: int, row: int, lo: int, hi: int)
    requires WellFormed(g)
  {
    && InBounds(Pos(col, row)) && g[col][row].Some?
    && 0 <= lo <= row <= hi < Rows
    && (forall y :: lo <= y <= hi ==> g[col][y] == g[col][row])
    && (lo == 0 || g[col][lo - 1] != g[col][row])
    && (hi == Rows - 1 || g[col][hi + 1] != g[col][row])
  }

  function HSpan(row: int, lo: int, hi: int): set<Pos>
  {
    set x | lo <= x <= hi :: Pos(x, row)
  }

  function VSpan(col: int, lo: int, hi: int): set<Pos>
  {
    set y | lo <= y <= hi :: Pos(col, y)
  }

  /** An occupied cell has at most one maximal horizontal and one maximal
      vertical run. */
  lemma RunsUnique(g: Grid, col: int, row: int, lo1: int, hi1: int, lo2: int, hi2: int)
    requires WellFormed(g)
    ensures IsHRun(g, col, row, lo1, hi1) && IsHRun(g, col, row, lo2, hi2) ==> lo1 == lo2 && hi1 == hi2
    ensures IsVRun(g, col, row, lo1, hi1) && IsVRun(g, col, row, lo2, hi2) ==> lo1 == lo2 && hi1 == hi2
  {
  }

  /** The cells the four scans of an occupied seed visit, cell by cell. */
  lemma ScanCells(g: Grid, col: int, row: int)
    requires WellFormed(g) && InBounds(Pos(col, row))
    ensures var rs := GetLineMatches(g, col, row, 1, 0);
            forall i :: 0 <= i < |rs| ==> rs[i] == Pos(col + i + 1, row)
    ensures var ls := GetLineMatches(g, col, row, -1, 0);
            forall i :: 0 <= i < |ls| ==> ls[i] == Pos(col - i - 1, row)
    ensures var us := GetLineMatches(g, col, row, 0, 1);
            forall i :: 0 <= i < |us| ==> us[i] == Pos(col, row + i + 1)
    ensures var ds := GetLineMatches(g, col, row, 0, -1);
            forall i :: 0 <= i < |ds| ==> ds[i] == Pos(col, row - i - 1)
  {
    var rs := GetLineMatches(g, col, row, 1, 0);
    var ls := GetLineMatches(g, col, row, -1, 0);
    var us := GetLineMatches(g, col, row, 0, 1);
    var ds := GetLineMatches(g, col, row, 0, -1);
    forall i | 0 <= i < |rs| ensures rs[i] == Pos(col + i + 1, row) { AheadCardinal(col, row, i + 1); }
    forall i | 0 <= i < |ls| ensures ls[i] == Pos(col - i - 1, row) { AheadCardinal(col, row, i + 1); }
    forall i | 0 <= i < |us| ensures us[i] == Pos(col, row + i + 1) { AheadCardinal(col, row, i + 1); }
    forall i | 0 <= i < |ds| ensures ds[i] == Pos(col, row - i - 1) { AheadCardinal(col, row, i + 1); }
  }

  /** The horizontal scans of an occupied seed reach exactly to the ends of its
      maximal horizontal run. */
  lemma {:induction false} HorizontalScansMaximal(g: Grid, col: int, row: int)
    requires WellFormed(g) && InBounds(Pos(col, row)) && g[col][row].Some?
    ensures IsHRun(g, col, row, col - |GetLineMatches(g, col, row, -1, 0)|,
                   col + |GetLineMatches(g, col, row, 1, 0)|)
  {
    var t := g[col][row];
    var rs := GetLineMatches(g, col, row, 1, 0);
    var ls := GetLineMatches(g, col, row, -1, 0);
    var lo, hi := col - |ls|, col + |rs|;
    assert StartCell(g, col, row) == t;
    ScanCells(g, col, row);
    assert 0 <= lo && hi < Columns by {
      if |rs| > 0 { assert InBounds(rs[|rs| - 1]); }
      if |ls| > 0 { assert InBounds(ls[|ls| - 1]); }
    }
    assert hi == Columns - 1 || g[hi + 1][row] != t by {
      AheadCardinal(col, row, |rs| + 1);
      assert Stops(g, t, Pos(hi + 1, row));
    }
    assert lo == 0 || g[lo - 1][row] != t by {
      AheadCardinal(col, row, |ls| + 1);
      assert Stops(g, t, Pos(lo - 1, row));
    }
    forall x | lo <= x <= hi
      ensures g[x][row] == t
    {
      if x > col {
        assert At(g, rs[x - col - 1]) == t;
      } else if x < col {
        assert At(g, ls[col - x - 1]) == t;
      }
    }
  }

  /** The vertical scans of an occupied seed reach exactly to the ends of its
      maximal vertical run. */
  lemma {:induction false} VerticalScansMaximal(g: Grid, col: int, row: int)
    requires WellFormed(g) && InBounds(Pos(col, row)) && g[col][row].Some?
    ensures IsVRun(g, col, row, row - |GetLineMatches(g, col, row, 0, -1)|,
                   row + |GetLineMatches(g, col, row, 0, 1)|)
  {
    var t := g[col][row];
    var us := GetLineMatches(g, col, row, 0, 1);
    var ds := GetLineMatches(g, col, row, 0, -1);
    var lo, hi := row - |ds|, row + |us|;
    assert StartCell(g, col, row) == t;
    ScanCells(g, col, row);
    assert 0 <= lo && hi < Rows by {
      if |us| > 0 { assert InBounds(us[|us| - 1]); }
      if |ds| > 0 { assert InBounds(ds[|ds| - 1]); }
    }
    assert hi == Rows - 1 || g[col][hi + 1] != t by {
      AheadCardinal(col, row, |us| + 1);
      assert Stops(g, t, Pos(col, hi + 1));
    }
    assert lo == 0 || g[col][lo - 1] != t by {
      AheadCardinal(col, row, |ds| + 1);
      assert Stops(g, t, Pos(col, lo - 1));
    }
    forall y | lo <= y <= hi
      ensures g[col][y] == t
    {
      if y > row {
        assert At(g, us[y - row - 1]) == t;
      } else if y < row {
        assert At(g, ds[row - y - 1]) == t;
      }
    }
  }

  /** The horizontal candidates of an occupied seed are exactly the cells of its
      maximal horizontal run, each listed once. */
  lemma {:induction false} HorizontalRunIsMaximal(g: Grid, col: int, row: int)
    requires WellFormed(g) && InBounds(Pos(col, row)) && g[col][row].Some?
    ensures var right := |GetLineMatches(g, col, row, 1, 0)|;
            var left := |GetLineMatches(g, col, row, -1, 0)|;
            && IsHRun(g, col, row, col - left, col + right)
            && Elems(HorizontalRun(g, col, row)) == HSpan(row, col - left, col + right)
            && |HorizontalRun(g, col, row)| == right + left + 1
  {
    HorizontalScansMaximal(g, col, row);
    ScanCells(g, col, row);
    var rs := GetLineMatches(g, col, row, 1, 0);
    var ls := GetLineMatches(g, col, row, -1, 0);
    var lo, hi := col - |ls|, col + |rs|;
    var h := HorizontalRun(g, col, row);
    forall x | lo <= x <= hi
      ensures Pos(x, row) in Elems(h)
    {
      if x > col {
        assert rs[x - col - 1] == Pos(x, row);
      } else if x < col {
        assert ls[col - x - 1] == Pos(x, row);
      } else {
        assert h[|rs|] == Pos(x, row);
      }
    }
  }

  /** The vertical candidates of an occupied seed are exactly the cells of its
      maximal vertical run, each listed once. */
  lemma {:induction false} VerticalRunIsMaximal(g: Grid, col: int, row: int)
    requires WellFormed(g) && InBounds(Pos(col, row)) && g[col][row].Some?
    ensures var up := |GetLineMatches(g, col, row, 0, 1)|;
            var down := |GetLineMatches(g, col, row, 0, -1)|;
            && IsVRun(g, col, row, row - down, row + up)
            && Elems(VerticalRun(g, col, row)) == VSpan(col, row - down, row + up)
            && |VerticalRun(g, col, row)| == up + down + 1
  {
    VerticalScansMaximal(g, col, row);
    ScanCells(g, col, row);
    var us := GetLineMatches(g, col, row, 0, 1);
    var ds := GetLineMatches(g, col, row, 0, -1);
    var lo, hi := row - |ds|, row + |us|;
    var v := VerticalRun(g, col, row);
    forall y | lo <= y <= hi
      ensures Pos(col, y) in Elems(v)
    {
      if y > row {
        assert us[y - row - 1] == Pos(col, y);
      } else if y < row {
        assert ds[row - y - 1] == Pos(col, y);
      } else {
        assert v[|us|] == Pos(col, y);
      }
    }
  }

  /** `checkChain` described without scans: given the maximal runs through an
      occupied seed, it adds the horizontal run iff it has at least minCount
      cells, and the vertical run iff it has at least minCount cells. */
  lemma CheckChainAddsQualifyingRuns(g: Grid, col: int, row: int, minCount: int, matches: set<Pos>,
                                     lo: int, hi: int, vlo: int, vhi: int)
    requires WellFormed(g)
    requires IsHRun(g, col, row, lo, hi) && IsVRun(g, col, row, vlo, vhi)
    ensures CheckChain(g, col, row, minCount, matches) ==
              matches
              + (if hi - lo + 1 >= minCount then HSpan(row, lo, hi) else {})
              + (if vhi - vlo + 1 >= minCount then VSpan(col, vlo, vhi) else {})
  {
    HorizontalRunIsMaximal(g, col, row);
    VerticalRunIsMaximal(g, col, row);
    var right := |GetLineMatches(g, col, row, 1, 0)|;
    var left := |GetLineMatches(g, col, row, -1, 0)|;
    var up := |GetLineMatches(g, col, row, 0, 1)|;
    var down := |GetLineMatches(g, col, row, 0, -1)|;
    RunsUnique(g, col, row, lo, hi, col - left, col + right);
    RunsUnique(g, col, row, vlo, vhi, row - down, row + up);
  }

  /** The match threshold: a run of at least minCount cells through the seed is
      always added in full, and the other cells of a shorter run never are. */
  lemma RunThreshold(g: Grid, col: int, row: int, minCount: int, lo: int, hi: int, vlo: int, vhi: int)
    requires WellFormed(g)
    requires IsHRun(g, col, row, lo, hi) && IsVRun(g, col, row, vlo, vhi)
    ensures hi - lo + 1 >= minCount ==> HSpan(row, lo, hi) <= ChainAdds(g, Pos(col, row), minCount)
    ensures hi - lo + 1 < minCount ==>
              forall x :: lo <= x <= hi && x != col ==> Pos(x, row) !in ChainAdds(g, Pos(col, row), minCount)
    ensures vhi - vlo + 1 >= minCount ==> VSpan(col, vlo, vhi) <= ChainAdds(g, Pos(col, row), minCount)
    ensures vhi - vlo + 1 < minCount ==>
              forall y :: vlo <= y <= vhi && y != row ==> Pos(col, y) !in ChainAdds(g, Pos(col, row), minCount)
  {
    CheckChainAddsQualifyingRuns(g, col, row, minCount, {}, lo, hi, vlo, vhi);
  }

  /** The cell p lies on a maximal run, horizontal or vertical, of at least
      minCount blocks. */
  ghost predicate QualifiesAt(g: Grid, p: Pos, minCount: int)
    requires WellFormed(g)
  {
    || (exists lo, hi :: IsHRun(g, p.col, p.row, lo, hi) && hi - lo + 1 >= minCount)
    || (exists lo, hi :: IsVRun(g, p.col, p.row, lo, hi) && hi - lo + 1 >= minCount)
  }

  /** A seed contributes something iff it lies on a qualifying run. */
  lemma ChainAddsNonEmptyIff(g: Grid, seed: Pos, minCount: int)
    requires WellFormed(g)
    ensures ChainAdds(g, seed, minCount) != {} <==> QualifiesAt(g, seed, minCount)
  {
    var col, row := seed.col, seed.row;
    if InBounds(seed) && g[col][row].Some? {
      HorizontalRunIsMaximal(g, col, row);
      VerticalRunIsMaximal(g, col, row);
      var lo := col - |GetLineMatches(g, col, row, -1, 0)|;
      var hi := col + |GetLineMatches(g, col, row, 1, 0)|;
      var vlo := row - |GetLineMatches(g, col, row, 0, -1)|;
      var vhi := row + |GetLineMatches(g, col, row, 0, 1)|;
      CheckChainAddsQualifyingRuns(g, col, row, minCount, {}, lo, hi, vlo, vhi);
      assert seed in HSpan(row, lo, hi) && seed in VSpan(col, vlo, vhi);
      if QualifiesAt(g, seed, minCount) {
        if exists l, h :: IsHRun(g, col, row, l, h) && h - l + 1 >= minCount {
          var l, h :| IsHRun(g, col, row, l, h) && h - l + 1 >= minCount;
          RunsUnique(g, col, row, l, h, lo, hi);
        } else {
          var l, h :| IsVRun(g, col, row, l, h) && h - l + 1 >= minCount;
          RunsUnique(g, col, row, l, h, vlo, vhi);
        }
      }
    }
  }

  /** Some seed of the list lies on a maximal run of at least minCount
      blocks. */
  ghost predicate SomeSeedQualifies(g: Grid, seeds: seq<Pos>, minCount: int)
    requires WellFormed(g)
  {
    exists j :: 0 <= j < |seeds| && QualifiesAt(g, seeds[j], minCount)
  }

  /** `checkMatches(seeds)` finds something iff some seed lies on a maximal
      run of at least minCount blocks. */
  lemma CheckMatchesNonEmptyIff(g: Grid, seeds: seq<Pos>, minCount: int)
    requires WellFormed(g)
    ensures CheckMatches(g, seeds, minCount) != {} <==> SomeSeedQualifies(g, seeds, minCount)
  {
    forall j | 0 <= j < |seeds|
      ensures ChainAdds(g, seeds[j], minCount) != {} <==> QualifiesAt(g, seeds[j], minCount)
    {
      ChainAddsNonEmptyIff(g, seeds[j], minCount);
    }
    if SomeSeedQualifies(g, seeds, minCount) {
      var j :| 0 <= j < |seeds| && QualifiesAt(g, seeds[j], minCount);
      var p :| p in ChainAdds(g, seeds[j], minCount);
      assert p in CheckMatches(g, seeds, minCount);
    }
  }
}
