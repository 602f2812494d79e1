/** Day 3, "Crossed Wires": two wires are laid out on a grid from a
    central port by moves such as `R8` or `U5`. Part 1 finds the crossing
    nearest the port by Manhattan distance, part 2 the crossing reached in
    the fewest combined steps. */
module CrossedWires {
  import opened Wrappers
  import opened Sequences

  /** One token of a wire: its direction letter and its length. */
  datatype Move = Move(dir: char, len: nat)

  /** A grid position (x, y). */
  type Cell = (int, int)

  const Origin: Cell := (0, 0)

  /** The four letters the walks act on. */
  predicate Known(d: char)
  {
    d == 'L' || d == 'R' || d == 'U' || d == 'D'
  }

  /** Where a move from p ends; a letter other than L, R, U, D leaves p. */
  function Step(p: Cell, m: Move): Cell
  {
    if m.dir == 'L' then (p.0 - m.len, p.1)
    else if m.dir == 'R' then (p.0 + m.len, p.1)
    else if m.dir == 'U' then (p.0, p.1 + m.len)
    else if m.dir == 'D' then (p.0, p.1 - m.len)
    else p
  }

  /** Where the wire ends after the given moves. */
  function Walk(moves: seq<Move>): Cell
  {
    if moves == [] then Origin
    else Step(Walk(moves[..|moves| - 1]), moves[|moves| - 1])
  }

  // ---------------------------------------------------------------------
  // Part 1: calculate_intersections and shortest_manhattan_distance
  // ---------------------------------------------------------------------

  /** The cells part 1 records for a move from p: going left or down the
      range stops short of the start, going right or up it includes it. */
  predicate OnMove(p: Cell, m: Move, c: Cell)
  {
    if m.dir == 'L' then c.1 == p.1 && p.0 - m.len <= c.0 < p.0
    else if m.dir == 'R' then c.1 == p.1 && p.0 <= c.0 <= p.0 + m.len
    else if m.dir == 'U' then c.0 == p.0 && p.1 <= c.1 <= p.1 + m.len
    else if m.dir == 'D' then c.0 == p.0 && p.1 - m.len <= c.1 < p.1
    else false
  }

  /** The cell is in the coordinate set part 1 builds for the moves. */
  predicate Visited(moves: seq<Move>, c: Cell)
  {
    && moves != []
    && (|| Visited(moves[..|moves| - 1], c)
        || OnMove(Walk(moves[..|moves| - 1]), moves[|moves| - 1], c))
  }

  /** A horizontal move records only cells of its row, a vertical one only
      cells of its column; the end is recorded unless the move goes left
      or down by 0; an unknown letter records nothing and stays put. */
  lemma MoveShape(p: Cell, m: Move, c: Cell)
    ensures (m.dir == 'L' || m.dir == 'R') && OnMove(p, m, c) ==> c.1 == p.1
    ensures (m.dir == 'U' || m.dir == 'D') && OnMove(p, m, c) ==> c.0 == p.0
    ensures (m.dir == 'R' || m.dir == 'U' || ((m.dir == 'L' || m.dir == 'D') && m.len > 0)) ==>
      OnMove(p, m, Step(p, m))
    ensures !Known(m.dir) ==>
      Step(p, m) == p && !OnMove(p, m, c)
  {
  }

  lemma WalkSnoc(moves: seq<Move>, k: nat)
    requires k < |moves|
    ensures Walk(moves[..k + 1]) == Step(Walk(moves[..k]), moves[k])
    ensures forall c :: Visited(moves[..k + 1], c) <==> Visited(moves[..k], c) || OnMove(Walk(moves[..k]), moves[k], c)
  {
    assert moves[..k + 1][..k] == moves[..k];
  }

  /** The body of the `for step in line` loop: move the position and add
      the cells of the move to the set. */
  method AddMoveCells(coords: set<Cell>, x: int, y: int, m: Move) returns (coords': set<Cell>, x': int, y': int)
    ensures (x', y') == Step((x, y), m)
    ensures forall c :: c in coords' <==> c in coords || OnMove((x, y), m, c)
  {
    var position := (x, y);
    coords', x', y' := coords, x, y;
    var direction, length := m.dir, m.len;
    if direction == 'L' {
      x' := x' - length;
      for i := x' to position.0
        invariant forall c :: c in coords' <==> c in coords || (c.1 == y' && x' <= c.0 < i)
      {
        coords' := coords' + {(i, y')};
      }
    } else if direction == 'R' {
      x' := x' + length;
      for i := position.0 to x' + 1
        invariant forall c :: c in coords' <==> c in coords || (c.1 == y' && position.0 <= c.0 < i)
      {
        coords' := coords' + {(i, y')};
      }
    } else if direction == 'U' {
      y' := y' + length;
      for i := position.1 to y' + 1
        invariant forall c :: c in coords' <==> c in coords || (c.0 == x' && position.1 <= c.1 < i)
      {
        coords' := coords' + {(x', i)};
      }
    } else if direction == 'D' {
      y' := y' - length;
      for i := y' to position.1
        invariant forall c :: c in coords' <==> c in coords || (c.0 == x' && y' <= c.1 < i)
      {
        coords' := coords' + {(x', i)};
      }
    }
  }

  /** One wire's loop of `calculate_intersections`. */
  method TraceCells(moves: seq<Move>) returns (coords: set<Cell>)
    ensures forall c :: c in coords <==> Visited(moves, c)
  {
    var x, y := 0, 0;
    coords := {};
    for k := 0 to |moves|
      invariant (x, y) == Walk(moves[..k])
      invariant forall c :: c in coords <==> Visited(moves[..k], c)
    {
      WalkSnoc(moves, k);
      coords, x, y := AddMoveCells(coords, x, y, moves[k]);
    }
    assert moves[..|moves|] == moves;
  }

  /** `calculate_intersections(line1, line2)`: the cells both wires record.
      The source repeats the tracing loop for the second wire. */
  method CalculateIntersections(line1: seq<Move>, line2: seq<Move>) returns (r: set<Cell>)
    ensures forall c :: c in r <==> Visited(line1, c) && Visited(line2, c)
  {
    var coords1 := TraceCells(line1);
    var coords2 := TraceCells(line2);
    r := coords1 * coords2;
  }

  function Abs(n: int): nat
  {
    if n < 0 then -n else n
  }

  function Manhattan(c: Cell): nat
  {
    Abs(c.0) + Abs(c.1)
  }

  /** The starting value of `shortest`. */
  const Cap := 1000000

  /** Cells on neither axis. */
  predicate OffAxes(c: Cell)
  {
    c.0 != 0 && c.1 != 0
  }

  /** `shortest` is the smallest distance of a crossing off both axes,
      capped at Cap. */
  predicate Nearest(intersections: set<Cell>, shortest: nat)
  {
    && shortest <= Cap
    && (forall c :: c in intersections && OffAxes(c) ==> shortest <= Manhattan(c))
    && (shortest == Cap || exists c :: c in intersections && OffAxes(c) && shortest == Manhattan(c))
  }

  /** At most one distance is the nearest. */
  lemma NearestUnique(intersections: set<Cell>, a: nat, b: nat)
    requires Nearest(intersections, a) && Nearest(intersections, b)
    ensures a == b
  {
    if a != Cap {
      var c :| c in intersections && OffAxes(c) && a == Manhattan(c);
    }
    if b != Cap {
      var c :| c in intersections && OffAxes(c) && b == Manhattan(c);
    }
  }

  /** `shortest_manhattan_distance(intersections)`: the smallest distance
      of a crossing off both axes, capped at Cap. */
  method ShortestManhattan(intersections: set<Cell>) returns (shortest: nat)
    ensures Nearest(intersections, shortest)
  {
    shortest := Cap;
    var rest := intersections;
    ghost var nearest := Origin;
    while rest != {}
      invariant rest <= intersections && shortest <= Cap
      invariant forall c :: c in intersections - rest && OffAxes(c) ==> shortest <= Manhattan(c)
      invariant shortest == Cap || (nearest in intersections - rest && OffAxes(nearest) && shortest == Manhattan(nearest))
      decreases |rest|
    {
      var item :| item in rest;
      if item.0 != 0 && item.1 != 0 {
        var manhattan := Abs(item.0) + Abs(item.1);
        if manhattan < shortest {
          nearest := item;
        }
        shortest := if manhattan < shortest then manhattan else shortest;
      }
      rest := rest - {item};
    }
  }

  // ---------------------------------------------------------------------
  // Part 2: calculate_intersections_counting_steps
  // ---------------------------------------------------------------------

  /** The cells a move from p enters, in order; the start is not entered
      again, whatever the direction. */
  function Segment(p: Cell, m: Move): (s: seq<Cell>)
  {
    if m.dir == 'L' then seq(m.len, j => (p.0 - 1 - j, p.1))
    else if m.dir == 'R' then seq(m.len, j => (p.0 + 1 + j, p.1))
    else if m.dir == 'U' then seq(m.len, j => (p.0, p.1 + 1 + j))
    else if m.dir == 'D' then seq(m.len, j => (p.0, p.1 - 1 - j))
    else []
  }

  /** Every cell the wire enters, in order: the k-th is entered at step k + 1. */
  function Path(moves: seq<Move>): seq<Cell>
  {
    if moves == [] then []
    else Path(moves[..|moves| - 1]) + Segment(Walk(moves[..|moves| - 1]), moves[|moves| - 1])
  }

  /** The step dict of part 2 after the wire has entered the cells of
      `path`: the origin preset to 0, and each other cell mapped to the
      step of its first visit. */
  function FirstVisits(path: seq<Cell>): map<Cell, nat>
  {
    if path == [] then map[Origin := 0]
    else
      var m := FirstVisits(path[..|path| - 1]);
      var c := path[|path| - 1];
      if c in m then m else m[c := |path|]
  }

  lemma FirstVisitsSnoc(path: seq<Cell>, c: Cell)
    ensures FirstVisits(path + [c]) ==
      if c in FirstVisits(path) then FirstVisits(path) else FirstVisits(path)[c := |path| + 1]
  {
    assert (path + [c])[..|path|] == path;
  }

  /** Entering cell c after the cells of `walked`, the (j+1)-th of seg. */
  lemma EnterCell(path: seq<Cell>, seg: seq<Cell>, j: nat, walked: seq<Cell>)
    requires j < |seg| && walked == path + seg[..j]
    ensures walked + [seg[j]] == path + seg[..j + 1]
  {
    assert seg[..j + 1] == seg[..j] + [seg[j]];
  }

  /** Going left from (x, y) by `length`: the cells x - 1 down to
      x - length of row y, one step each. */
  method StepsLeft(ghost path: seq<Cell>, steps: map<Cell, nat>, step: nat, x: int, y: int, length: nat)
    returns (steps': map<Cell, nat>, step': nat)
    requires steps == FirstVisits(path) && step == |path|
    ensures steps' == FirstVisits(path + seq(length, j => (x - 1 - j, y))) && step' == |path| + length
  {
    ghost var seg := seq(length, j => (x - 1 - j, y));
    ghost var walked := path;
    assert path + seg[..0] == path;
    steps', step' := steps, step;
    var i := x - 1;
    while i > x - length - 1
      invariant x - length - 1 <= i <= x - 1
      invariant walked == path + seg[..x - 1 - i]
      invariant steps' == FirstVisits(walked) && step' == |walked|
    {
      EnterCell(path, seg, x - 1 - i, walked);
      FirstVisitsSnoc(walked, (i, y));
      walked := walked + [(i, y)];
      step' := step' + 1;
      if (i, y) !in steps' {
        steps' := steps'[(i, y) := step'];
      }
      i := i - 1;
    }
    assert seg[..|seg|] == seg;
  }

  /** Going right from (x, y) by `length`: the cells x + 1 up to
      x + length of row y. */
  method StepsRight(ghost path: seq<Cell>, steps: map<Cell, nat>, step: nat, x: int, y: int, length: nat)
    returns (steps': map<Cell, nat>, step': nat)
    requires steps == FirstVisits(path) && step == |path|
    ensures steps' == FirstVisits(path + seq(length, j => (x + 1 + j, y))) && step' == |path| + length
  {
    ghost var seg := seq(length, j => (x + 1 + j, y));
    ghost var walked := path;
    assert path + seg[..0] == path;
    steps', step' := steps, step;
    for i := x + 1 to x + length + 1
      invariant walked == path + seg[..i - x - 1]
      invariant steps' == FirstVisits(walked) && step' == |walked|
    {
      EnterCell(path, seg, i - x - 1, walked);
      FirstVisitsSnoc(walked, (i, y));
      walked := walked + [(i, y)];
      step' := step' + 1;
      if (i, y) !in steps' {
        steps' := steps'[(i, y) := step'];
      }
    }
    assert seg[..|seg|] == seg;
  }

  /** Going up from (x, y) by `length`: the cells y + 1 up to y + length
      of column x. */
  method StepsUp(ghost path: seq<Cell>, steps: map<Cell, nat>, step: nat, x: int, y: int, length: nat)
    returns (steps': map<Cell, nat>, step': nat)
    requires steps == FirstVisits(path) && step == |path|
    ensures steps' == FirstVisits(path + seq(length, j => (x, y + 1 + j))) && step' == |path| + length
  {
    ghost var seg := seq(length, j => (x, y + 1 + j));
    ghost var walked := path;
    assert path + seg[..0] == path;
    steps', step' := steps, step;
    for i := y + 1 to y + length + 1
      invariant walked == path + seg[..i - y - 1]
      invariant steps' == FirstVisits(walked) && step' == |walked|
    {
      EnterCell(path, seg, i - y - 1, walked);
      FirstVisitsSnoc(walked, (x, i));
      walked := walked + [(x, i)];
      step' := step' + 1;
      if (x, i) !in steps' {
        steps' := steps'[(x, i) := step'];
      }
    }
    assert seg[..|seg|] == seg;
  }

  /** Going down from (x, y) by `length`: the cells y - 1 down to
      y - length of column x. */
  method StepsDown(ghost path: seq<Cell>, steps: map<Cell, nat>, step: nat, x: int, y: int, length: nat)
    returns (steps': map<Cell, nat>, step': nat)
    requires steps == FirstVisits(path) && step == |path|
    ensures steps' == FirstVisits(path + seq(length, j => (x, y - 1 - j))) && step' == |path| + length
  {
    ghost var seg := seq(length, j => (x, y - 1 - j));
    ghost var walked := path;
    assert path + seg[..0] == path;
    steps', step' := steps, step;
    var i := y - 1;
    while i > y - length - 1
      invariant y - length - 1 <= i <= y - 1
      invariant walked == path + seg[..y - 1 - i]
      invariant steps' == FirstVisits(walked) && step' == |walked|
    {
      EnterCell(path, seg, y - 1 - i, walked);
      FirstVisitsSnoc(walked, (x, i));
      walked := walked + [(x, i)];
      step' := step' + 1;
      if (x, i) !in steps' {
        steps' := steps'[(x, i) := step'];
      }
      i := i - 1;
    }
    assert seg[..|seg|] == seg;
  }

  /** The body of the `for item in line` loop of part 2: move the position
      and walk the cells of the move, counting steps and recording first
      visits. */
  method AddMoveSteps(ghost path: seq<Cell>, steps: map<Cell, nat>, step: nat, x: int, y: int, m: Move)
    returns (steps': map<Cell, nat>, step': nat, x': int, y': int)
    requires steps == FirstVisits(path) && step == |path|
    ensures (x', y') == Step((x, y), m)
    ensures steps' == FirstVisits(path + Segment((x, y), m)) && step' == |path + Segment((x, y), m)|
  {
    steps', step', x', y' := steps, step, x, y;
    var direction, length := m.dir, m.len;
    if direction == 'L' {
      x' := x - length;
      steps', step' := StepsLeft(path, steps, step, x, y, length);
    } else if direction == 'R' {
      x' := x + length;
      steps', step' := StepsRight(path, steps, step, x, y, length);
    } else if direction == 'U' {
      y' := y + length;
      steps', step' := StepsUp(path, steps, step, x, y, length);
    } else if direction == 'D' {
      y' := y - length;
      steps', step' := StepsDown(path, steps, step, x, y, length);
    } else {
      assert path + [] == path;
    }
  }

  lemma PathSnoc(moves: seq<Move>, k: nat)
    requires k < |moves|
    ensures Path(moves[..k + 1]) == Path(moves[..k]) + Segment(Walk(moves[..k]), moves[k])
    ensures Walk(moves[..k + 1]) == Step(Walk(moves[..k]), moves[k])
  {
    assert moves[..k + 1][..k] == moves[..k];
  }

  /** One wire's loop of part 2, with the step counter starting at 0 (it
      is reset before the second wire). */
  method TraceSteps(moves: seq<Move>) returns (steps: map<Cell, nat>, step: nat)
    ensures steps == FirstVisits(Path(moves)) && step == |Path(moves)|
  {
    var x, y := 0, 0;
    steps, step := map[Origin := 0], 0;
    for k := 0 to |moves|
      invariant (x, y) == Walk(moves[..k])
      invariant steps == FirstVisits(Path(moves[..k])) && step == |Path(moves[..k])|
    {
      PathSnoc(moves, k);
      steps, step, x, y := AddMoveSteps(Path(moves[..k]), steps, step, x, y, moves[k]);
    }
    assert moves[..|moves|] == moves;
  }

  /** A crossing of part 2: recorded by both wires and not the origin. */
  predicate Crossing(s1: map<Cell, nat>, s2: map<Cell, nat>, c: Cell)
  {
    c in s1 && c in s2 && c != Origin
  }

  /** The `intersections` dict: the combined steps of every crossing. */
  method CombinedSteps(s1: map<Cell, nat>, s2: map<Cell, nat>) returns (intersections: map<Cell, nat>)
    ensures forall c :: c in intersections <==> Crossing(s1, s2, c)
    ensures forall c :: c in intersections ==> c in s1 && c in s2 && intersections[c] == s1[c] + s2[c]
  {
    intersections := map[];
    var keys := s1.Keys;
    while keys != {}
      invariant keys <= s1.Keys
      invariant forall c :: c in intersections <==> Crossing(s1, s2, c) && c !in keys
      invariant forall c :: c in intersections ==> c in s1 && c in s2 && intersections[c] == s1[c] + s2[c]
      decreases |keys|
    {
      var k :| k in keys;
      if k in s2 && k != Origin {
        intersections := intersections[k := s1[k] + s2[k]];
      }
      keys := keys - {k};
    }
  }

  /** `min(d.values())`; None stands for the ValueError on no values. */
  method MinValue(d: map<Cell, nat>) returns (r: Option<nat>)
    ensures r.None? <==> d == map[]
    ensures r.Some? ==> (exists c :: c in d && d[c] == r.value) && forall c :: c in d ==> r.value <= d[c]
  {
    r := None;
    var keys := d.Keys;
    while keys != {}
      invariant keys <= d.Keys
      invariant r.None? <==> d.Keys - keys == {}
      invariant r.Some? ==> (exists c :: c in d.Keys - keys && d[c] == r.value)
      invariant r.Some? ==> forall c :: c in d.Keys - keys ==> r.value <= d[c]
      decreases |keys|
    {
      var k :| k in keys;
      if r.None? || d[k] < r.value {
        r := Some(d[k]);
      }
      keys := keys - {k};
    }
    if r.None? {
      assert d.Keys == {};
    }
  }

  /** r is the fewest combined steps over the crossings of the two step
      dicts, or None when they do not cross. */
  ghost predicate Fewest(s1: map<Cell, nat>, s2: map<Cell, nat>, r: Option<nat>)
  {
    && (r.None? <==> forall c :: !Crossing(s1, s2, c))
    && (r.Some? ==> exists c :: Crossing(s1, s2, c) && r.value == s1[c] + s2[c])
    && (r.Some? ==> forall c :: Crossing(s1, s2, c) ==> r.value <= s1[c] + s2[c])
  }

  /** `calculate_intersections_counting_steps(line1, line2)`: the fewest
      combined first-visit steps over the crossings. */
  method CountingSteps(line1: seq<Move>, line2: seq<Move>) returns (r: Option<nat>)
    ensures Fewest(FirstVisits(Path(line1)), FirstVisits(Path(line2)), r)
  {
    var s1, _ := TraceSteps(line1);
    var s2, _ := TraceSteps(line2);
    var intersections := CombinedSteps(s1, s2);
    r := MinValue(intersections);
  }

  // ---------------------------------------------------------------------
  // Properties of the two walks
  // ---------------------------------------------------------------------

  /** The sum of the lengths of the moves with a known letter. */
  function Lengths(moves: seq<Move>): nat
  {
    if moves == [] then 0
    else
      var m := moves[|moves| - 1];
      Lengths(moves[..|moves| - 1]) + (if Known(m.dir) then m.len else 0)
  }

  /** Part 2's step counter rises by one per cell entered, so after a wire
      it is the sum of the wire's lengths. */
  lemma {:induction false} PathLength(moves: seq<Move>)
    ensures |Path(moves)| == Lengths(moves)
    decreases |moves|
  {
    if moves != [] {
      PathLength(moves[..|moves| - 1]);
    }
  }

  /** A move enters exactly the cells part 1 records for it, other than
      its start. */
  lemma SegmentCells(p: Cell, m: Move, c: Cell)
    ensures c in Segment(p, m) <==> OnMove(p, m, c) && c != p
  {
    var seg := Segment(p, m);
    if OnMove(p, m, c) && c != p {
      if m.dir == 'L' {
        assert seg[p.0 - 1 - c.0] == c;
      } else if m.dir == 'R' {
        assert seg[c.0 - p.0 - 1] == c;
      } else if m.dir == 'U' {
        assert seg[c.1 - p.1 - 1] == c;
      } else {
        assert seg[p.1 - 1 - c.1] == c;
      }
    }
  }

  /** A move of a known letter and positive length ends on the last cell
      it enters. */
  lemma SegmentEnd(p: Cell, m: Move)
    requires Known(m.dir) && m.len > 0
    ensures Segment(p, m)[m.len - 1] == Step(p, m)
  {
    if m.dir == 'L' {
    } else if m.dir == 'R' {
    } else if m.dir == 'U' {
    } else {
    }
  }

  /** The end of a wire is the port or a cell the wire entered. */
  lemma {:induction false} WalkOnPath(moves: seq<Move>)
    ensures Walk(moves) == Origin || Walk(moves) in Path(moves)
    decreases |moves|
  {
    if moves != [] {
      var init, m := moves[..|moves| - 1], moves[|moves| - 1];
      var p := Walk(init);
      WalkOnPath(init);
      var seg := Segment(p, m);
      assert Path(moves) == Path(init) + seg;
      assert Walk(moves) == Step(p, m);
      if Known(m.dir) && m.len > 0 {
        SegmentEnd(p, m);
      } else {
        assert Walk(moves) == p;
      }
    }
  }

  /** Away from the port, part 1's coordinate set and part 2's cells are
      the same, so both parts look at the same crossings. */
  lemma {:induction false} PathIsVisited(moves: seq<Move>, c: Cell)
    requires c != Origin
    ensures c in Path(moves) <==> Visited(moves, c)
    decreases |moves|
  {
    if moves != [] {
      var init, m := moves[..|moves| - 1], moves[|moves| - 1];
      var p := Walk(init);
      PathIsVisited(init, c);
      SegmentCells(p, m, c);
      if c == p {
        WalkOnPath(init);
      }
    }
  }

  /** What part 2's dict holds: the port and every entered cell; the port
      keeps 0, and any other cell the step of its first visit. */
  lemma {:induction false} FirstVisitsMeaning(path: seq<Cell>, c: Cell)
    ensures c in FirstVisits(path) <==> c == Origin || c in path
    ensures c == Origin ==> FirstVisits(path)[c] == 0
    ensures c != Origin && c in path ==> FirstVisits(path)[c] == IndexOf(path, c) + 1
    decreases |path|
  {
    if path != [] {
      var init := path[..|path| - 1];
      assert path == init + [path[|path| - 1]];
      FirstVisitsMeaning(init, c);
      if c != Origin && c in init {
        var a, b := IndexOf(path, c), IndexOf(init, c);
        assert path[b] == c;
        assert a < |init| ==> init[a] == c;
      }
    }
  }

  /** Swapping the wires changes neither the crossings of part 1 nor the
      distance computed from them. */
  lemma SwapDistance(line1: seq<Move>, line2: seq<Move>, r: set<Cell>, r': set<Cell>, d: nat, d': nat)
    requires forall c :: c in r <==> Visited(line1, c) && Visited(line2, c)
    requires forall c :: c in r' <==> Visited(line2, c) && Visited(line1, c)
    requires Nearest(r, d) && Nearest(r', d')
    ensures r == r' && d == d'
  {
    assert r == r';
    NearestUnique(r, d, d');
  }

  /** The fewest combined steps do not depend on the order of the two
      step dicts. */
  lemma FewestSymmetric(s1: map<Cell, nat>, s2: map<Cell, nat>, n: Option<nat>, n': Option<nat>)
    requires Fewest(s1, s2, n) && Fewest(s2, s1, n')
    ensures n == n'
  {
    if n.Some? {
      var c :| Crossing(s1, s2, c) && n.value == s1[c] + s2[c];
      assert Crossing(s2, s1, c);
      var c' :| Crossing(s2, s1, c') && n'.value == s2[c'] + s1[c'];
      assert Crossing(s1, s2, c');
    } else if n'.Some? {
      var c' :| Crossing(s2, s1, c') && n'.value == s2[c'] + s1[c'];
      assert Crossing(s1, s2, c');
    }
  }

  /** Swapping the wires does not change the answer of part 2. */
  lemma SwapSteps(line1: seq<Move>, line2: seq<Move>, n: Option<nat>, n': Option<nat>)
    requires Fewest(FirstVisits(Path(line1)), FirstVisits(Path(line2)), n)
    requires Fewest(FirstVisits(Path(line2)), FirstVisits(Path(line1)), n')
    ensures n == n'
  {
    FewestSymmetric(FirstVisits(Path(line1)), FirstVisits(Path(line2)), n, n');
  }

  // ---------------------------------------------------------------------
  // The sample of part 1
  // ---------------------------------------------------------------------

  /** `R75,D30,R83,U83,L12,D49,R71,U7,L72` */
  const SampleWire1: seq<Move> := [Move('R', 75), Move('D', 30), Move('R', 83), Move('U', 83),
    Move('L', 12), Move('D', 49), Move('R', 71), Move('U', 7), Move('L', 72)]

  /** `U62,R66,U55,R34,D71,R55,D58,R83` */
  const SampleWire2: seq<Move> := [Move('U', 62), Move('R', 66), Move('U', 55), Move('R', 34),
    Move('D', 71), Move('R', 55), Move('D', 58), Move('R', 83)]

  lemma VisitedSnoc(moves: seq<Move>, m: Move, c: Cell)
    ensures Walk(moves + [m]) == Step(Walk(moves), m)
    ensures Visited(moves + [m], c) <==> Visited(moves, c) || OnMove(Walk(moves), m, c)
  {
    assert (moves + [m])[..|moves|] == moves;
  }

  /** The first 5 moves of the first sample wire. */
  lemma SampleWire1Start(c: Cell)
    ensures Walk([Move('R', 75), Move('D', 30), Move('R', 83), Move('U', 83), Move('L', 12)]) == (146, 53)
    ensures Visited([Move('R', 75), Move('D', 30), Move('R', 83), Move('U', 83), Move('L', 12)], c) <==>
      || (c.1 == 0 && 0 <= c.0 <= 75)
      || (c.0 == 75 && -30 <= c.1 < 0)
      || (c.1 == -30 && 75 <= c.0 <= 158)
      || (c.0 == 158 && -30 <= c.1 <= 53)
      || (c.1 == 53 && 146 <= c.0 < 158)
  {
    var w0: seq<Move> := [];
    var w1 := w0 + [Move('R', 75)];
    VisitedSnoc(w0, Move('R', 75), c);
    assert Walk(w1) == (75, 0);
    var w2 := w1 + [Move('D', 30)];
    VisitedSnoc(w1, Move('D', 30), c);
    assert Walk(w2) == (75, -30);
    var w3 := w2 + [Move('R', 83)];
    VisitedSnoc(w2, Move('R', 83), c);
    assert Walk(w3) == (158, -30);
    var w4 := w3 + [Move('U', 83)];
    VisitedSnoc(w3, Move('U', 83), c);
    assert Walk(w4) == (158, 53);
    var w5 := w4 + [Move('L', 12)];
    VisitedSnoc(w4, Move('L', 12), c);
    assert w5 == [Move('R', 75), Move('D', 30), Move('R', 83), Move('U', 83), Move('L', 12)];
  }

  /** The first sample wire's cells, segment by segment. */
  lemma SampleWire1Cells(c: Cell)
    ensures Visited(SampleWire1, c) <==>
      || (c.1 == 0 && 0 <= c.0 <= 75)
      || (c.0 == 75 && -30 <= c.1 < 0)
      || (c.1 == -30 && 75 <= c.0 <= 158)
      || (c.0 == 158 && -30 <= c.1 <= 53)
      || (c.1 == 53 && 146 <= c.0 < 158)
      || (c.0 == 146 && 4 <= c.1 < 53)
      || (c.1 == 4 && 146 <= c.0 <= 217)
      || (c.0 == 217 && 4 <= c.1 <= 11)
      || (c.1 == 11 && 145 <= c.0 < 217)
  {
    var w5: seq<Move> := [Move('R', 75), Move('D', 30), Move('R', 83), Move('U', 83), Move('L', 12)];
    SampleWire1Start(c);
    var w6 := w5 + [Move('D', 49)];
    VisitedSnoc(w5, Move('D', 49), c);
    assert Walk(w6) == (146, 4);
    var w7 := w6 + [Move('R', 71)];
    VisitedSnoc(w6, Move('R', 71), c);
    assert Walk(w7) == (217, 4);
    var w8 := w7 + [Move('U', 7)];
    VisitedSnoc(w7, Move('U', 7), c);
    assert Walk(w8) == (217, 11);
    var w9 := w8 + [Move('L', 72)];
    VisitedSnoc(w8, Move('L', 72), c);
    assert w9 == SampleWire1;
  }

  /** The first 4 moves of the second sample wire. */
  lemma SampleWire2Start(c: Cell)
    ensures Walk([Move('U', 62), Move('R', 66), Move('U', 55), Move('R', 34)]) == (100, 117)
    ensures Visited([Move('U', 62), Move('R', 66), Move('U', 55), Move('R', 34)], c) <==>
      || (c.0 == 0 && 0 <= c.1 <= 62)
      || (c.1 == 62 && 0 <= c.0 <= 66)
      || (c.0 == 66 && 62 <= c.1 <= 117)
      || (c.1 == 117 && 66 <= c.0 <= 100)
  {
    var w0: seq<Move> := [];
    var w1 := w0 + [Move('U', 62)];
    VisitedSnoc(w0, Move('U', 62), c);
    assert Walk(w1) == (0, 62);
    var w2 := w1 + [Move('R', 66)];
    VisitedSnoc(w1, Move('R', 66), c);
    assert Walk(w2) == (66, 62);
    var w3 := w2 + [Move('U', 55)];
    VisitedSnoc(w2, Move('U', 55), c);
    assert Walk(w3) == (66, 117);
    var w4 := w3 + [Move('R', 34)];
    VisitedSnoc(w3, Move('R', 34), c);
    assert w4 == [Move('U', 62), Move('R', 66), Move('U', 55), Move('R', 34)];
  }

  /** The second sample wire's cells, segment by segment. */
  lemma SampleWire2Cells(c: Cell)
    ensures Visited(SampleWire2, c) <==>
      || (c.0 == 0 && 0 <= c.1 <= 62)
      || (c.1 == 62 && 0 <= c.0 <= 66)
      || (c.0 == 66 && 62 <= c.1 <= 117)
      || (c.1 == 117 && 66 <= c.0 <= 100)
      || (c.0 == 100 && 46 <= c.1 < 117)
      || (c.1 == 46 && 100 <= c.0 <= 155)
      || (c.0 == 155 && -12 <= c.1 < 46)
      || (c.1 == -12 && 155 <= c.0 <= 238)
  {
    var w4: seq<Move> := [Move('U', 62), Move('R', 66), Move('U', 55), Move('R', 34)];
    SampleWire2Start(c);
    var w5 := w4 + [Move('D', 71)];
    VisitedSnoc(w4, Move('D', 71), c);
    assert Walk(w5) == (100, 46);
    var w6 := w5 + [Move('R', 55)];
    VisitedSnoc(w5, Move('R', 55), c);
    assert Walk(w6) == (155, 46);
    var w7 := w6 + [Move('D', 58)];
    VisitedSnoc(w6, Move('D', 58), c);
    assert Walk(w7) == (155, -12);
    var w8 := w7 + [Move('R', 83)];
    VisitedSnoc(w7, Move('R', 83), c);
    assert w8 == SampleWire2;
  }

  /** The source's sample of part 1: whatever set and distance satisfy the
      contracts of CalculateIntersections and ShortestManhattan on the
      sample wires, the distance is 159, reached at (155, 4). */
  lemma SampleDistance(intersections: set<Cell>, shortest: nat)
    requires forall c :: c in intersections <==> Visited(SampleWire1, c) && Visited(SampleWire2, c)
    requires Nearest(intersections, shortest)
    ensures shortest == 159
  {
    SampleWire1Cells((155, 4));
    SampleWire2Cells((155, 4));
    assert (155, 4) in intersections;
    if shortest != Cap {
      var c :| c in intersections && OffAxes(c) && shortest == Manhattan(c);
      SampleWire1Cells(c);
      SampleWire2Cells(c);
    }
  }

  // ---------------------------------------------------------------------
  // The sample of part 2
  // ---------------------------------------------------------------------

  /** How many cells a move from p enters before it enters c. */
  function EntryOffset(p: Cell, m: Move, c: Cell): int
  {
    if m.dir == 'L' then p.0 - 1 - c.0
    else if m.dir == 'R' then c.0 - p.0 - 1
    else if m.dir == 'U' then c.1 - p.1 - 1
    else p.1 - 1 - c.1
  }

  lemma SegmentIndex(p: Cell, m: Move, c: Cell)
    requires c in Segment(p, m)
    ensures IndexOf(Segment(p, m), c) == EntryOffset(p, m, c)
  {
    var i := IndexOf(Segment(p, m), c);
    assert Segment(p, m)[i] == c;
  }

  /** One more move: the end point, the number of cells entered, and where
      a cell is first entered. */
  lemma PathSnocIndex(moves: seq<Move>, m: Move, c: Cell)
    ensures Walk(moves + [m]) == Step(Walk(moves), m)
    ensures |Path(moves + [m])| == |Path(moves)| + |Segment(Walk(moves), m)|
    ensures c in Path(moves + [m]) <==> c in Path(moves) || (OnMove(Walk(moves), m, c) && c != Walk(moves))
    ensures c in Path(moves) ==> IndexOf(Path(moves + [m]), c) == IndexOf(Path(moves), c)
    ensures c !in Path(moves) && c in Path(moves + [m]) ==>
      IndexOf(Path(moves + [m]), c) == |Path(moves)| + EntryOffset(Walk(moves), m, c)
  {
    assert (moves + [m])[..|moves|] == moves;
    var p, seg := Walk(moves), Segment(Walk(moves), m);
    assert Path(moves + [m]) == Path(moves) + seg;
    SegmentCells(p, m, c);
    if c in Path(moves + [m]) {
      IndexOfAppend(Path(moves), seg, c);
      if c !in Path(moves) {
        SegmentIndex(p, m, c);
      }
    }
  }

  /** The four cells the sample wires share besides the port. */
  predicate SampleCrossing(c: Cell)
  {
    c == (155, 4) || c == (155, 11) || c == (146, 46) || c == (158, -12)
  }

  lemma SampleWire1Steps3(c: Cell)
    requires SampleCrossing(c)
    ensures Walk([Move('R', 75), Move('D', 30), Move('R', 83)]) == (158, -30)
    ensures |Path([Move('R', 75), Move('D', 30), Move('R', 83)])| == 188
    ensures c !in Path([Move('R', 75), Move('D', 30), Move('R', 83)])
  {
    var w0: seq<Move> := [];
    var w1 := w0 + [Move('R', 75)];
    PathSnocIndex(w0, Move('R', 75), c);
    assert Walk(w1) == (75, 0) && |Path(w1)| == 75 && c !in Path(w1);
    var w2 := w1 + [Move('D', 30)];
    PathSnocIndex(w1, Move('D', 30), c);
    assert Walk(w2) == (75, -30) && |Path(w2)| == 105 && c !in Path(w2);
    var w3 := w2 + [Move('R', 83)];
    PathSnocIndex(w2, Move('R', 83), c);
    assert w3 == [Move('R', 75), Move('D', 30), Move('R', 83)];
  }

  lemma SampleWire1Steps6(c: Cell)
    requires SampleCrossing(c)
    ensures var w := [Move('R', 75), Move('D', 30), Move('R', 83), Move('U', 83), Move('L', 12), Move('D', 49)];
      && Walk(w) == (146, 4) && |Path(w)| == 332
      && (c in Path(w) <==> c == (158, -12) || c == (146, 46))
      && (c == (158, -12) ==> IndexOf(Path(w), c) == 205)
      && (c == (146, 46) ==> IndexOf(Path(w), c) == 289)
  {
    var w3: seq<Move> := [Move('R', 75), Move('D', 30), Move('R', 83)];
    SampleWire1Steps3(c);
    var w4 := w3 + [Move('U', 83)];
    PathSnocIndex(w3, Move('U', 83), c);
    var w5 := w4 + [Move('L', 12)];
    PathSnocIndex(w4, Move('L', 12), c);
    var w6 := w5 + [Move('D', 49)];
    PathSnocIndex(w5, Move('D', 49), c);
    assert w6 == [Move('R', 75), Move('D', 30), Move('R', 83), Move('U', 83), Move('L', 12), Move('D', 49)];
  }

  lemma SampleWire1Steps8(c: Cell)
    requires SampleCrossing(c)
    ensures var w := [Move('R', 75), Move('D', 30), Move('R', 83), Move('U', 83), Move('L', 12), Move('D', 49),
        Move('R', 71), Move('U', 7)];
      && Walk(w) == (217, 11) && |Path(w)| == 410
      && (c in Path(w) <==> c != (155, 11))
      && (c == (158, -12) ==> IndexOf(Path(w), c) == 205)
      && (c == (146, 46) ==> IndexOf(Path(w), c) == 289)
      && (c == (155, 4) ==> IndexOf(Path(w), c) == 340)
  {
    var w6: seq<Move> := [Move('R', 75), Move('D', 30), Move('R', 83), Move('U', 83), Move('L', 12), Move('D', 49)];
    SampleWire1Steps6(c);
    var w7 := w6 + [Move('R', 71)];
    PathSnocIndex(w6, Move('R', 71), c);
    assert Walk(w7) == (217, 4) && |Path(w7)| == 403;
    var w8 := w7 + [Move('U', 7)];
    PathSnocIndex(w7, Move('U', 7), c);
    assert w8 == [Move('R', 75), Move('D', 30), Move('R', 83), Move('U', 83), Move('L', 12), Move('D', 49),
      Move('R', 71), Move('U', 7)];
  }

  /** The step at which the first sample wire first enters each crossing. */
  lemma SampleWire1Steps(c: Cell)
    requires SampleCrossing(c)
    ensures c in Path(SampleWire1)
    ensures IndexOf(Path(SampleWire1), c) + 1 ==
      if c == (155, 4) then 341 else if c == (155, 11) then 472 else if c == (146, 46) then 290 else 206
  {
    var w8: seq<Move> := [Move('R', 75), Move('D', 30), Move('R', 83), Move('U', 83), Move('L', 12), Move('D', 49),
      Move('R', 71), Move('U', 7)];
    SampleWire1Steps8(c);
    var w9 := w8 + [Move('L', 72)];
    PathSnocIndex(w8, Move('L', 72), c);
    assert w9 == SampleWire1;
  }

  lemma SampleWire2Steps2(c: Cell)
    requires SampleCrossing(c)
    ensures Walk([Move('U', 62), Move('R', 66)]) == (66, 62)
    ensures |Path([Move('U', 62), Move('R', 66)])| == 128
    ensures c !in Path([Move('U', 62), Move('R', 66)])
  {
    var w0: seq<Move> := [];
    var w1 := w0 + [Move('U', 62)];
    PathSnocIndex(w0, Move('U', 62), c);
    assert Walk(w1) == (0, 62) && |Path(w1)| == 62 && c !in Path(w1);
    var w2 := w1 + [Move('R', 66)];
    PathSnocIndex(w1, Move('R', 66), c);
    assert w2 == [Move('U', 62), Move('R', 66)];
  }

  lemma SampleWire2Steps4(c: Cell)
    requires SampleCrossing(c)
    ensures Walk([Move('U', 62), Move('R', 66), Move('U', 55), Move('R', 34)]) == (100, 117)
    ensures |Path([Move('U', 62), Move('R', 66), Move('U', 55), Move('R', 34)])| == 217
    ensures c !in Path([Move('U', 62), Move('R', 66), Move('U', 55), Move('R', 34)])
  {
    var w2: seq<Move> := [Move('U', 62), Move('R', 66)];
    SampleWire2Steps2(c);
    var w3 := w2 + [Move('U', 55)];
    PathSnocIndex(w2, Move('U', 55), c);
    assert Walk(w3) == (66, 117) && |Path(w3)| == 183 && c !in Path(w3);
    var w4 := w3 + [Move('R', 34)];
    PathSnocIndex(w3, Move('R', 34), c);
    assert w4 == [Move('U', 62), Move('R', 66), Move('U', 55), Move('R', 34)];
  }

  lemma SampleWire2Steps6(c: Cell)
    requires SampleCrossing(c)
    ensures var w := [Move('U', 62), Move('R', 66), Move('U', 55), Move('R', 34), Move('D', 71), Move('R', 55)];
      && Walk(w) == (155, 46) && |Path(w)| == 343
      && (c in Path(w) <==> c == (146, 46))
      && (c == (146, 46) ==> IndexOf(Path(w), c) == 333)
  {
    var w4: seq<Move> := [Move('U', 62), Move('R', 66), Move('U', 55), Move('R', 34)];
    SampleWire2Steps4(c);
    var w5 := w4 + [Move('D', 71)];
    PathSnocIndex(w4, Move('D', 71), c);
    var w6 := w5 + [Move('R', 55)];
    PathSnocIndex(w5, Move('R', 55), c);
    assert w6 == [Move('U', 62), Move('R', 66), Move('U', 55), Move('R', 34), Move('D', 71), Move('R', 55)];
  }

  /** The step at which the second sample wire first enters each crossing. */
  lemma SampleWire2Steps(c: Cell)
    requires SampleCrossing(c)
    ensures c in Path(SampleWire2)
    ensures IndexOf(Path(SampleWire2), c) + 1 ==
      if c == (155, 4) then 385 else if c == (155, 11) then 378 else if c == (146, 46) then 334 else 404
  {
    var w6: seq<Move> := [Move('U', 62), Move('R', 66), Move('U', 55), Move('R', 34), Move('D', 71), Move('R', 55)];
    SampleWire2Steps6(c);
    var w7 := w6 + [Move('D', 58)];
    PathSnocIndex(w6, Move('D', 58), c);
    var w8 := w7 + [Move('R', 83)];
    PathSnocIndex(w7, Move('R', 83), c);
    assert w8 == SampleWire2;
  }

  /** The source's sample of part 2: whatever result satisfies the contract
      of CountingSteps on the sample wires is 610, reached at (158, -12). */
  lemma SampleSteps(r: Option<nat>)
    requires Fewest(FirstVisits(Path(SampleWire1)), FirstVisits(Path(SampleWire2)), r)
    ensures r == Some(610)
  {
    var s1, s2 := FirstVisits(Path(SampleWire1)), FirstVisits(Path(SampleWire2));
    var best: Cell := (158, -12);
    SampleWire1Steps(best);
    SampleWire2Steps(best);
    FirstVisitsMeaning(Path(SampleWire1), best);
    FirstVisitsMeaning(Path(SampleWire2), best);
    assert Crossing(s1, s2, best);
    var c :| Crossing(s1, s2, c) && r.value == s1[c] + s2[c];
    FirstVisitsMeaning(Path(SampleWire1), c);
    FirstVisitsMeaning(Path(SampleWire2), c);
    PathIsVisited(SampleWire1, c);
    PathIsVisited(SampleWire2, c);
    SampleWire1Cells(c);
    SampleWire2Cells(c);
    assert SampleCrossing(c);
    SampleWire1Steps(c);
    SampleWire2Steps(c);
  }
}
