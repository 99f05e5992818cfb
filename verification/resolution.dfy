/** One round of match resolution as GridManager runs it, with every tween
    callback taken as an immediate step: `checkMatches(seeds)` finds the
    matched blocks; if there are any, `clearMatches` empties them, drops the
    affected columns, calls `refillGrid` with the matched positions, and the
    delayed `refillGrid(refillNeeded)` runs after it. Each new block is
    re-checked in the source; here the new cells together seed the next round. */
module Resolution {
  import opened Block
  import opened Grid
  import opened Matching
  import opened Gravity
  import opened Refill

  /** Some listing of a set of positions (`Array.from` of the matched set). */
  method Listing(ps: set<Pos>) returns (s: seq<Pos>)
    ensures forall p :: p in s <==> p in ps
  {
    s := [];
    var rest := ps;
    while rest != {}
      invariant rest <= ps
      invariant forall p :: p in s <==> p in ps && p !in rest
      decreases rest
    {
      var p :| p in rest;
      s := s + [p];
      rest := rest - {p};
    }
  }

  /** Refilling after a drop keeps the settled blocks of the dropped columns
      in their rows. */
  lemma SurvivorsStayPut(cleared: Grid, dropped: Grid, r: Grid, cols: set<int>)
    requires WellFormed(cleared) && WellFormed(dropped) && WellFormed(r)
    requires forall c :: c in cols ==> 0 <= c < Columns && dropped[c] == Compacted(cleared[c])
    requires forall p :: InBounds(p) && At(dropped, p).Some? ==> At(r, p) == At(dropped, p)
    ensures forall c :: c in cols ==>
              var survivors := Occupied(cleared[c]);
              |survivors| <= Rows && r[c][..|survivors|] == survivors
  {
    forall c | c in cols
      ensures var survivors := Occupied(cleared[c]);
              |survivors| <= Rows && r[c][..|survivors|] == survivors
    {
      var survivors := Occupied(cleared[c]);
      forall row | 0 <= row < |survivors|
        ensures r[c][row] == survivors[row]
      {
        assert At(dropped, Pos(c, row)).Some?;
      }
    }
  }

  /** Blocks outside the dropped columns are neither cleared, moved nor
      replaced. */
  lemma OtherColumnsKept(g: Grid, matches: set<Pos>, dropped: Grid, r: Grid)
    requires WellFormed(g) && WellFormed(dropped) && WellFormed(r)
    requires forall c :: 0 <= c < Columns && c !in ColumnsOf(matches) ==>
               dropped[c] == Clear(g, matches)[c]
    requires forall p :: InBounds(p) && At(dropped, p).Some? ==> At(r, p) == At(dropped, p)
    ensures forall p :: InBounds(p) && p.col !in ColumnsOf(matches) && At(g, p).Some? ==>
              At(r, p) == At(g, p)
  {
  }

  /** The cells one `clearMatches(matches)` fills with new blocks: in a column
      holding a matched position, every row above the blocks that survive the
      clearing; in any other column, the cells that were empty already. */
  ghost predicate Refilled(g: Grid, matches: set<Pos>, p: Pos)
    requires WellFormed(g)
  {
    && InBounds(p)
    && if p.col in ColumnsOf(matches) then p.row >= |Occupied(Clear(g, matches)[p.col])|
       else At(g, p).None?
  }

  /** What one `clearMatches(matches)` makes of g: no cell is left empty;
      outside the matched columns every block stays where it was; in a matched
      column the surviving blocks, in their old order, fill the lowest rows;
      and `created` lists, each once, exactly the cells that got a new block. */
  ghost predicate ClearedAndRefilled(g: Grid, matches: set<Pos>, r: Grid, created: seq<Pos>)
  {
    && WellFormed(g) && WellFormed(r) && Full(r)
    && (forall p :: p in matches ==> InBounds(p))
    && (forall p :: InBounds(p) && p.col !in ColumnsOf(matches) && At(g, p).Some? ==> At(r, p) == At(g, p))
    && (forall c :: 0 <= c < Columns && c in ColumnsOf(matches) ==>
          var survivors := Occupied(Clear(g, matches)[c]);
          |survivors| <= Rows && r[c][..|survivors|] == survivors)
    && (forall p :: p in created <==> Refilled(g, matches, p))
    && (forall i, j :: 0 <= i < j < |created| ==> created[i] != created[j])
  }

  /** A column with an empty cell has fewer blocks than cells. */
  lemma {:induction false} OccupiedSkipsHoles(column: seq<Cell>, i: int)
    requires 0 <= i < |column| && column[i].None?
    decreases |column|
    ensures |Occupied(column)| < |column|
  {
    var init := column[..|column| - 1];
    if i < |column| - 1 {
      OccupiedSkipsHoles(init, i);
    }
  }

  /** Clearing a non-empty set of matches always creates new blocks: the top
      cell of a matched column is refilled. */
  lemma ClearingRefillsSomething(g: Grid, matches: set<Pos>, r: Grid, created: seq<Pos>)
    requires ClearedAndRefilled(g, matches, r, created)
    requires matches != {}
    ensures created != []
  {
    var m :| m in matches;
    var column := Clear(g, matches)[m.col];
    assert column[m.row].None?;
    OccupiedSkipsHoles(column, m.row);
    assert Refilled(g, matches, Pos(m.col, Rows - 1));
  }

  /** After the matched cells are cleared and their columns dropped, the empty
      cells are exactly the cells the refill is to fill. */
  lemma RefilledAreHoles(g: Grid, matches: set<Pos>, dropped: Grid)
    requires WellFormed(g) && WellFormed(dropped)
    requires forall p :: p in matches ==> InBounds(p)
    requires forall c :: 0 <= c < Columns ==>
               dropped[c] == if c in ColumnsOf(matches) then Compacted(Clear(g, matches)[c]) else Clear(g, matches)[c]
    ensures forall p :: InBounds(p) ==> (At(dropped, p).None? <==> Refilled(g, matches, p))
  {
    forall p | InBounds(p)
      ensures At(dropped, p).None? <==> Refilled(g, matches, p)
    {
      if p.col in ColumnsOf(matches) {
        CompactedHolesOnTop(Clear(g, matches)[p.col]);
      } else {
        assert p !in matches;
      }
    }
  }

  /** A refill that fills exactly the holes of the dropped grid, once each,
      and keeps its blocks, completes a `clearMatches`. */
  lemma AssembleClear(g: Grid, matches: set<Pos>, dropped: Grid, r: Grid, created: seq<Pos>)
    requires WellFormed(g) && WellFormed(dropped) && WellFormed(r) && Full(r)
    requires forall p :: p in matches ==> InBounds(p)
    requires forall c :: 0 <= c < Columns ==>
               dropped[c] == if c in ColumnsOf(matches) then Compacted(Clear(g, matches)[c]) else Clear(g, matches)[c]
    requires forall p :: InBounds(p) && At(dropped, p).Some? ==> At(r, p) == At(dropped, p)
    requires forall p :: p in created <==> InBounds(p) && At(dropped, p).None?
    requires forall i, j :: 0 <= i < j < |created| ==> created[i] != created[j]
    ensures ClearedAndRefilled(g, matches, r, created)
  {
    SurvivorsStayPut(Clear(g, matches), dropped, r, ColumnsOf(matches));
    OtherColumnsKept(g, matches, dropped, r);
    RefilledAreHoles(g, matches, dropped);
  }

  /** The first half of `clearMatches(matches)`: empty the matched cells and
      drop the columns they are in. A matched column is settled, every other
      column is as it was, and block types stay in range. */
  method ClearAndDrop(g: Grid, matches: set<Pos>) returns (dropped: Grid, refillNeeded: seq<Pos>)
    requires WellFormed(g)
    requires forall p :: p in matches ==> InBounds(p)
    ensures WellFormed(dropped)
    ensures forall c :: 0 <= c < Columns ==>
              dropped[c] == if c in ColumnsOf(matches) then Compacted(Clear(g, matches)[c]) else Clear(g, matches)[c]
    ensures forall p :: InBounds(p) && p.col !in ColumnsOf(matches) ==> At(dropped, p) == At(g, p)
    ensures forall i :: 0 <= i < |refillNeeded| ==> InBounds(refillNeeded[i])
    ensures TypesInRange(g) ==> TypesInRange(dropped)
  {
    var cleared := Clear(g, matches);
    dropped, refillNeeded := DropBlocks(cleared, matches);
    forall p | InBounds(p) && p.col !in ColumnsOf(matches)
      ensures At(dropped, p) == At(g, p)
    {
      assert p !in matches;
    }
    if TypesInRange(g) {
      assert TypesInRange(cleared);
    }
  }

  /** `clearMatches(matches)`: empty the matched cells, drop the columns they
      are in, then `refillGrid` with the matched positions and, later,
      `refillGrid` with the rows the drop freed, which then finds nothing to
      do. The k-th block created takes its type from draw(n + k). */
  method ClearMatches(g: Grid, matches: set<Pos>, draw: nat -> int, n: nat)
    returns (r: Grid, created: seq<Pos>)
    requires WellFormed(g)
    requires forall p :: p in matches ==> InBounds(p)
    ensures ClearedAndRefilled(g, matches, r, created)
    ensures forall i :: 0 <= i < |created| ==> InBounds(created[i]) && At(r, created[i]) == NewBlock(draw, n + i)
    ensures TypesInRange(g) ==> TypesInRange(r)
  {
    var dropped, refillNeeded := ClearAndDrop(g, matches);
    var affected := Listing(matches);
    var filled;
    filled, created := RefillGrid(dropped, affected, draw, n);
    var created2;
    r, created2 := RefillGrid(filled, refillNeeded, draw, n + |created|);
    AssembleClear(g, matches, dropped, r, created);
  }

  /** `checkMatches(seeds).size > 0`, the test that decides whether a round
      runs: true iff some seed lies on a maximal run of at least minCount
      blocks. */
  method FindsMatch(g: Grid, seeds: seq<Pos>, minCount: int) returns (found: bool)
    requires WellFormed(g)
    ensures found <==> CheckMatches(g, seeds, minCount) != {}
    ensures found <==> SomeSeedQualifies(g, seeds, minCount)
  {
    found := CheckMatches(g, seeds, minCount) != {};
    CheckMatchesNonEmptyIff(g, seeds, minCount);
  }

  /** One resolution round, `checkMatches(seeds)`: without a match nothing
      changes and nothing is drawn; with one, exactly the matches found are
      cleared as above, which creates at least one new block. */
  method ResolveStep(g: Grid, seeds: seq<Pos>, minCount: int, draw: nat -> int, n: nat)
    returns (r: Grid, created: seq<Pos>)
    requires WellFormed(g)
    ensures WellFormed(r)
    ensures !SomeSeedQualifies(g, seeds, minCount) ==> r == g && created == []
    ensures SomeSeedQualifies(g, seeds, minCount) ==> Round(g, seeds, minCount, r, created) && created != []
    ensures forall i :: 0 <= i < |created| ==> InBounds(created[i]) && At(r, created[i]) == NewBlock(draw, n + i)
    ensures TypesInRange(g) ==> TypesInRange(r)
  {
    CheckMatchesNonEmptyIff(g, seeds, minCount);
    var matches := CheckMatches(g, seeds, minCount);
    if matches == {} {
      return g, [];
    }
    r, created := ClearMatches(g, matches, draw, n);
    ClearingRefillsSomething(g, matches, r, created);
  }

  /** One round of the cascade: re-checking `front` on g finds a match, and
      clearing exactly what it found gives r and creates `created`. */
  ghost predicate Round(g: Grid, front: seq<Pos>, minCount: int, r: Grid, created: seq<Pos>)
  {
    && WellFormed(g)
    && SomeSeedQualifies(g, front, minCount)
    && ClearedAndRefilled(g, CheckMatches(g, front, minCount), r, created)
  }

  function Last<T>(s: seq<T>): T
    requires |s| > 0
  {
    s[|s| - 1]
  }

  function Init<T>(s: seq<T>): seq<T>
    requires |s| > 0
  {
    s[..|s| - 1]
  }

  /** Dropping the last element keeps the others in place. */
  lemma InitKeeps<T>(s: seq<T>, i: int)
    requires 0 <= i < |s| - 1
    ensures |Init(s)| == |s| - 1 && Init(s)[i] == s[i]
    ensures i == |s| - 2 ==> Last(Init(s)) == s[i] && Last(s) == s[i + 1]
  {
  }

  /** Appending one element and dropping it again gives the sequence back. */
  lemma InitOfAppend<T>(s: seq<T>, x: T)
    ensures Init(s + [x]) == s && Last(s + [x]) == x
  {
    assert (s + [x])[..|s|] == s;
  }

  /** A record of a cascade: trace[i] is the grid before round i and fronts[i]
      the cells it re-checks, starting from g and the seeds; every round
      recorded found a match and cleared exactly what it found. */
  ghost predicate Cascade(g: Grid, seeds: seq<Pos>, minCount: int, trace: seq<Grid>, fronts: seq<seq<Pos>>)
    decreases |trace|
  {
    && |trace| == |fronts| >= 1
    && WellFormed(Last(trace))
    && if |trace| == 1 then trace[0] == g && fronts[0] == seeds
       else
         && Cascade(g, seeds, minCount, Init(trace), Init(fronts))
         && Round(Last(Init(trace)), Last(Init(fronts)), minCount, Last(trace), Last(fronts))
  }

  /** A cascade record starts from g and the seeds. */
  lemma {:induction false} CascadeStart(g: Grid, seeds: seq<Pos>, minCount: int, trace: seq<Grid>, fronts: seq<seq<Pos>>)
    requires Cascade(g, seeds, minCount, trace, fronts)
    decreases |trace|
    ensures trace[0] == g && fronts[0] == seeds
  {
    if |trace| > 1 {
      CascadeStart(g, seeds, minCount, Init(trace), Init(fronts));
      InitKeeps(trace, 0);
      InitKeeps(fronts, 0);
    }
  }

  /** A cascade record read round by round: each recorded round leads from
      one grid of the trace to the next. */
  lemma {:induction false} CascadeRounds(g: Grid, seeds: seq<Pos>, minCount: int, trace: seq<Grid>, fronts: seq<seq<Pos>>,
                                         i: int)
    requires Cascade(g, seeds, minCount, trace, fronts)
    requires 0 <= i < |trace| - 1
    decreases |trace|
    ensures Round(trace[i], fronts[i], minCount, trace[i + 1], fronts[i + 1])
  {
    InitKeeps(trace, i);
    InitKeeps(fronts, i);
    if i < |trace| - 2 {
      CascadeRounds(g, seeds, minCount, Init(trace), Init(fronts), i);
      InitKeeps(trace, i + 1);
      InitKeeps(fronts, i + 1);
    }
  }

  /** One more round that found a match and cleared it extends a cascade. */
  lemma CascadeExtend(g: Grid, seeds: seq<Pos>, minCount: int, trace: seq<Grid>, fronts: seq<seq<Pos>>,
                      r: Grid, created: seq<Pos>)
    requires Cascade(g, seeds, minCount, trace, fronts)
    requires Round(Last(trace), Last(fronts), minCount, r, created)
    ensures Cascade(g, seeds, minCount, trace + [r], fronts + [created])
  {
    InitOfAppend(trace, r);
    InitOfAppend(fronts, created);
  }

  /** The cascade: rounds are run while the cells created by the previous
      round (at first the seeds) lie on a match, for at most `fuel` rounds.
      The trace records every round; `stable` says the last frontier has no
      match, and the cascade is cut short only when the fuel runs out. When
      the first check finds no match the grid is left as it was; otherwise
      the grid ends full. */
  method Resolve(g: Grid, seeds: seq<Pos>, minCount: int, draw: nat -> int, n: nat, fuel: nat)
    returns (r: Grid, n': nat, trace: seq<Grid>, fronts: seq<seq<Pos>>, stable: bool)
    requires WellFormed(g)
    ensures Cascade(g, seeds, minCount, trace, fronts)
    ensures r == Last(trace) && |trace| <= fuel + 1
    ensures stable <==> !SomeSeedQualifies(r, Last(fronts), minCount)
    ensures stable <==> CheckMatches(r, Last(fronts), minCount) == {}
    ensures !stable ==> |trace| == fuel + 1
    ensures !SomeSeedQualifies(g, seeds, minCount) ==> r == g && n' == n
    ensures fuel > 0 && SomeSeedQualifies(g, seeds, minCount) ==> Full(r)
    ensures Full(g) ==> Full(r)
    ensures TypesInRange(g) ==> TypesInRange(r)
  {
    r, n' := g, n;
    trace, fronts := [g], [seeds];
    var found := FindsMatch(g, seeds, minCount);
    while found && |trace| <= fuel
      invariant Cascade(g, seeds, minCount, trace, fronts)
      invariant r == Last(trace) && |trace| <= fuel + 1
      invariant found <==> SomeSeedQualifies(r, Last(fronts), minCount)
      invariant |trace| == 1 ==> r == g && n' == n && fronts == [seeds]
      invariant |trace| > 1 ==> SomeSeedQualifies(g, seeds, minCount) && Full(r)
      invariant Full(g) ==> Full(r)
      invariant TypesInRange(g) ==> TypesInRange(r)
      decreases fuel + 1 - |trace|
    {
      var next, created := ResolveStep(r, Last(fronts), minCount, draw, n');
      CascadeExtend(g, seeds, minCount, trace, fronts, next, created);
      InitOfAppend(trace, next);
      InitOfAppend(fronts, created);
      r, n' := next, n' + |created|;
      trace, fronts := trace + [next], fronts + [created];
      found := FindsMatch(r, created, minCount);
    }
    stable := !found;
    CheckMatchesNonEmptyIff(r, Last(fronts), minCount);
  }
}
