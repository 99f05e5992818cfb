/** Column gravity of GridManager (`dropBlocks`): in every affected column the
    surviving blocks move down to the lowest rows, keeping their order, and the
    rows freed at the top are reported for refilling. */
module Gravity {
  import opened Block
  import opened Grid

  /** The blocks of a column, bottom to top, with the empty cells left out. */
  function Occupied(column: seq<Cell>): (s: seq<Cell>)
    ensures |s| <= |column|
    ensures forall i :: 0 <= i < |s| ==> s[i].Some?
  {
    if column == [] then []
    else
      var last := column[|column| - 1];
      Occupied(column[..|column| - 1]) + (if last.Some? then [last] else [])
  }

  function Empties(n: nat): (s: seq<Cell>)
    ensures |s| == n
  {
    seq(n, _ => None)
  }

  /** A column after gravity: its blocks in their order from the bottom, then
      empty cells up to the top. */
  function Compacted(column: seq<Cell>): seq<Cell>
  {
    Occupied(column) + Empties(|column| - |Occupied(column)|)
  }

  lemma {:induction false} OccupiedAppend(a: seq<Cell>, b: seq<Cell>)
    decreases |b|
    ensures Occupied(a + b) == Occupied(a) + Occupied(b)
  {
    if b != [] {
      var b' := b[..|b| - 1];
      assert (a + b)[..|a + b| - 1] == a + b';
      OccupiedAppend(a, b');
    } else {
      assert a + b == a;
    }
  }

  lemma {:induction false} OccupiedOfEmpties(n: nat)
    decreases n
    ensures Occupied(Empties(n)) == []
  {
    if n > 0 {
      assert Empties(n)[..n - 1] == Empties(n - 1);
      OccupiedOfEmpties(n - 1);
    }
  }

  lemma {:induction false} OccupiedOfBlocks(s: seq<Cell>)
    requires forall i :: 0 <= i < |s| ==> s[i].Some?
    decreases |s|
    ensures Occupied(s) == s
  {
    if s != [] {
      OccupiedOfBlocks(s[..|s| - 1]);
    }
  }

  /** Gravity keeps the blocks of a column and their order: reading the blocks
      bottom to top gives the same sequence before and after, so their number
      is kept too. */
  lemma CompactedKeepsBlocks(column: seq<Cell>)
    ensures Occupied(Compacted(column)) == Occupied(column)
    ensures |Occupied(Compacted(column))| == |Occupied(column)|
  {
    var k := |Occupied(column)|;
    OccupiedAppend(Occupied(column), Empties(|column| - k));
    OccupiedOfEmpties(|column| - k);
    OccupiedOfBlocks(Occupied(column));
  }

  /** Gravity applied to a column it has already settled changes nothing. */
  lemma CompactedIdempotent(column: seq<Cell>)
    ensures Compacted(Compacted(column)) == Compacted(column)
  {
    CompactedKeepsBlocks(column);
  }

  /** After gravity a cell is empty exactly when it lies above the column's
      blocks. */
  lemma CompactedHolesOnTop(column: seq<Cell>)
    ensures |Compacted(column)| == |column|
    ensures forall row :: 0 <= row < |column| ==>
              (Compacted(column)[row].None? <==> row >= |Occupied(column)|)
  {
    var k := |Occupied(column)|;
    forall row | 0 <= row < |column|
      ensures Compacted(column)[row].None? <==> row >= k
    {
      if row < k {
        assert Compacted(column)[row] == Occupied(column)[row];
      } else {
        assert Compacted(column)[row] == Empties(|column| - k)[row - k];
      }
    }
  }

  /** Gravity only rearranges a column: the cells before and after are the same
      multiset. */
  lemma {:induction false} CompactedPermutes(column: seq<Cell>)
    decreases |column|
    ensures multiset(Compacted(column)) == multiset(column)
  {
    if column != [] {
      var init := column[..|column| - 1];
      var last := column[|column| - 1];
      CompactedPermutes(init);
      assert column == init + [last];
      var k := |Occupied(init)|;
      if last.Some? {
        assert Compacted(column) == Occupied(init) + [last] + Empties(|init| - k);
        assert Compacted(init) == Occupied(init) + Empties(|init| - k);
      } else {
        assert Empties(|column| - k) == Empties(|init| - k) + [None];
        assert Compacted(column) == Compacted(init) + [None];
      }
    }
  }

  /** The two-pointer loop of `dropBlocks` on one column, followed by its
      second loop that empties the rows from the write pointer up and lists
      them: every block is moved down to the lowest free row, in order, and
      the freed rows are exactly the empty cells of the result. */
  method DropColumn(column: seq<Cell>) returns (out: seq<Cell>, freed: seq<int>)
    requires |column| == Rows
    ensures out == Compacted(column)
    ensures |out| == |column|
    ensures out[..|Occupied(column)|] == Occupied(column)
    ensures forall i :: 0 <= i < |freed| ==> freed[i] == |Occupied(column)| + i
    ensures |Occupied(column)| + |freed| == |column|
    ensures forall row :: 0 <= row < |out| ==> (out[row].None? <==> row in freed)
  {
    var s := column;
    var write := 0;
    var read := 0;
    while read < Rows
      invariant 0 <= write <= read <= Rows && |s| == Rows
      invariant s[..write] == Occupied(column[..read])
      invariant forall i :: write <= i < read ==> s[i].None?
      invariant s[read..] == column[read..]
    {
      assert column[..read + 1][..read] == column[..read];
      if s[read].Some? {
        if write != read {
          s := s[write := s[read]][read := None];
        }
        write := write + 1;
      }
      read := read + 1;
    }
    assert column[..Rows] == column;
    freed := [];
    var row := write;
    while row < Rows
      invariant write <= row <= Rows && |s| == Rows
      invariant s[..write] == Occupied(column)
      invariant forall i :: write <= i < Rows ==> s[i].None?
      invariant |freed| == row - write
      invariant forall i :: 0 <= i < |freed| ==> freed[i] == write + i
    {
      s := s[row := None];
      freed := freed + [row];
      row := row + 1;
    }
    out := s;
    assert out == Occupied(column) + Empties(Rows - write);
    forall r | 0 <= r < |out| && out[r].None?
      ensures r in freed
    {
      assert freed[r - write] == r;
    }
  }

  /** Settling columns only rearranges their blocks, so their types stay in
      range. */
  lemma SettledTypesInRange(g: Grid, r: Grid, settled: set<int>)
    requires WellFormed(g) && WellFormed(r) && TypesInRange(g)
    requires forall c :: 0 <= c < Columns ==> r[c] == if c in settled then Compacted(g[c]) else g[c]
    ensures TypesInRange(r)
  {
    forall p | InBounds(p) && At(r, p).Some?
      ensures 0 <= At(r, p).value < TypeCount
    {
      if p.col in settled {
        CompactedPermutes(g[p.col]);
        assert At(r, p) in multiset(g[p.col]);
        var row :| 0 <= row < Rows && g[p.col][row] == At(r, p);
        assert At(g, Pos(p.col, row)) == At(r, p);
      }
    }
  }

  /** One visit of `dropBlocks` to a column: the column is settled, the other
      columns are untouched, and the positions listed are exactly the empty
      cells of the settled column. */
  method SettleColumn(g: Grid, col: int) returns (r: Grid, listed: seq<Pos>)
    requires WellFormed(g) && 0 <= col < Columns
    ensures WellFormed(r)
    ensures r == g[col := Compacted(g[col])]
    ensures forall q :: q in listed ==> InBounds(q) && q.col == col && At(r, q).None?
    ensures forall row :: 0 <= row < Rows && r[col][row].None? ==> Pos(col, row) in listed
  {
    var settled, freed := DropColumn(g[col]);
    listed := seq(|freed|, i requires 0 <= i < |freed| => Pos(col, freed[i]));
    r := g[col := settled];
    forall row | 0 <= row < Rows && settled[row].None?
      ensures Pos(col, row) in listed
    {
      var i :| 0 <= i < |freed| && freed[i] == row;
      assert listed[i] == Pos(col, row);
    }
  }

  /** The columns of a set of positions. */
  function ColumnsOf(ps: set<Pos>): set<int>
  {
    set p | p in ps :: p.col
  }

  /** `dropBlocks(affected)`: every column holding an affected position is
      settled by gravity (a column visited again is left as it is), the other
      columns are untouched, and the list returned names exactly the empty
      cells of the settled columns (a column visited twice lists them twice). */
  method DropBlocks(g: Grid, affected: set<Pos>) returns (r: Grid, refillNeeded: seq<Pos>)
    requires WellFormed(g)
    requires forall p :: p in affected ==> 0 <= p.col < Columns
    ensures WellFormed(r)
    ensures forall c :: 0 <= c < Columns ==>
              r[c] == if c in ColumnsOf(affected) then Compacted(g[c]) else g[c]
    ensures forall p :: p in refillNeeded ==> InBounds(p) && p.col in ColumnsOf(affected) && At(r, p).None?
    ensures forall p :: InBounds(p) && p.col in ColumnsOf(affected) && At(r, p).None? ==> p in refillNeeded
    ensures TypesInRange(g) ==> TypesInRange(r)
  {
    r := g;
    refillNeeded := [];
    var rest := affected;
    ghost var done: set<int> := {};
    while rest != {}
      invariant rest <= affected
      invariant done == ColumnsOf(affected - rest)
      invariant WellFormed(r)
      invariant forall c :: 0 <= c < Columns ==> r[c] == if c in done then Compacted(g[c]) else g[c]
      invariant forall p :: p in refillNeeded ==> InBounds(p) && p.col in done && At(r, p).None?
      invariant forall p :: InBounds(p) && p.col in done && At(r, p).None? ==> p in refillNeeded
      decreases rest
    {
      var p :| p in rest;
      var col := p.col;
      if col in done {
        CompactedIdempotent(g[col]);
      }
      var listed;
      r, listed := SettleColumn(r, col);
      refillNeeded := refillNeeded + listed;
      rest := rest - {p};
      done := done + {col};
      assert done == ColumnsOf(affected - rest);
    }
    assert affected - rest == affected;
    if TypesInRange(g) {
      SettledTypesInRange(g, r, done);
    }
  }
}
