/**
 * The layout engine of the org chart: a depth-first walk of the employee
 * tree that gives every visible employee a node at a free spot of a
 * per-level occupancy grid and connects every expanded parent to each of
 * its children by an edge.
 *
 * All coordinates are integers: every constant and offset below is an
 * integer, and `Math.round(n / 50)` of an integer `n` is `(n + 25) / 50`
 * with a floor division.
 */
module OrgChartLayout {
  import opened JsRuntime
  import opened EmployeeModel

  const CARD_WIDTH: int := 280
  const CARD_HEIGHT: int := 120
  const MIN_HORIZONTAL_GAP: int := 100
  const MIN_VERTICAL_GAP: int := 200
  const GROUP_SEPARATION: int := 150
  /** The spacing of the occupancy grid. */
  const GRID: int := 50
  const MAX_ATTEMPTS: int := 50

  /** Horizontal distance between the preferred points of two neighbouring siblings. */
  const SIBLING_PITCH: int := CARD_WIDTH + MIN_HORIZONTAL_GAP + GROUP_SEPARATION
  /** Half the width and height of the area a card reserves. */
  const HALF_SPAN_X: int := CARD_WIDTH / 2 + MIN_HORIZONTAL_GAP / 2
  const HALF_SPAN_Y: int := CARD_HEIGHT / 2 + MIN_VERTICAL_GAP / 2

  // ---------------------------------------------------------------------
  // getLevelBorderColor
  // ---------------------------------------------------------------------

  const LEVEL_BORDER_COLORS: seq<string> :=
    ["#8b5cf6", "#3b82f6", "#10b981", "#f59e0b", "#ef4444", "#ec4899", "#6366f1", "#84cc16"]
  const FALLBACK_BORDER: string := "#6b7280"

  /** `colors[(level - 1) % 8] || gray` with JavaScript's truncating `%`:
      a negative remainder indexes nothing and gives gray; `-0` indexes
      the first colour. */
  function GetLevelBorderColor(level: int): (c: string)
    ensures c in LEVEL_BORDER_COLORS || c == FALLBACK_BORDER
    ensures level >= 1 ==> c == LEVEL_BORDER_COLORS[(level - 1) % 8]
    ensures c == FALLBACK_BORDER <==> JsRem(level - 1, 8) < 0
  {
    var i := JsRem(level - 1, |LEVEL_BORDER_COLORS|);
    if 0 <= i then LEVEL_BORDER_COLORS[i] else FALLBACK_BORDER
  }

  /** Levels eight apart share a border colour. */
  lemma LevelBorderColorCycles(level: int)
    requires level >= 1
    ensures GetLevelBorderColor(level + 8) == GetLevelBorderColor(level)
  {
    assert (level + 8 - 1) % 8 == (level - 1) % 8;
  }

  // ---------------------------------------------------------------------
  // Geometry and the occupancy grid
  // ---------------------------------------------------------------------

  datatype Point = Point(x: int, y: int)

  /** A grid cell, the key `${col}_${row}` of the occupancy sets. */
  datatype Cell = Cell(col: int, row: int)

  /** The text key of a cell as the grid stores it. */
  function SpaceKey(c: Cell): string {
    IntToString(c.col) + "_" + IntToString(c.row)
  }

  lemma NoUnderscore(n: int)
    ensures forall i :: 0 <= i < |IntToString(n)| ==> IntToString(n)[i] != '_'
  {
    if n < 0 {
      assert IntToString(n) == "-" + NatToString(-n);
    }
  }

  /** The first underscore of a key follows the column's digits. */
  lemma KeyLayout(c: Cell)
    ensures |SpaceKey(c)| > |IntToString(c.col)|
    ensures SpaceKey(c)[|IntToString(c.col)|] == '_'
    ensures forall i :: 0 <= i < |IntToString(c.col)| ==> SpaceKey(c)[i] != '_'
    ensures SpaceKey(c)[..|IntToString(c.col)|] == IntToString(c.col)
    ensures SpaceKey(c)[|IntToString(c.col)| + 1..] == IntToString(c.row)
  {
    NoUnderscore(c.col);
  }

  /** Distinct cells have distinct text keys, so a set of keys is a set of cells. */
  lemma SpaceKeyInjective(a: Cell, b: Cell)
    requires SpaceKey(a) == SpaceKey(b)
    ensures a == b
  {
    KeyLayout(a);
    KeyLayout(b);
    var ac, bc := IntToString(a.col), IntToString(b.col);
    assert |ac| == |bc|;
    IntToStringInjective(a.col, b.col);
    IntToStringInjective(a.row, b.row);
  }

  /** `Math.round(n / 50)` for an integer `n`: the nearest integer to
      `n / 50`, halves rounded up. */
  function Round50(n: int): (r: int)
    ensures GRID * r - GRID / 2 <= n < GRID * r + GRID / 2
  {
    (n + GRID / 2) / GRID
  }

  lemma Round50Shift(n: int, i: int)
    ensures Round50(n + GRID * i) == Round50(n) + i
  {
    var q, r := (n + 25) / 50, (n + 25) % 50;
    assert n + 25 + 50 * i == 50 * (q + i) + r;
  }

  /** The cell checked or reserved at column step `i` and row step `j`
      around a card at `(x, y)`. */
  function FootCell(x: int, y: int, i: int, j: int): Cell {
    Cell(Round50(x - HALF_SPAN_X + GRID * i), Round50(y - HALF_SPAN_Y + GRID * j))
  }

  /** The cells of the first `n` column steps (each of seven row steps). */
  function Columns(x: int, y: int, n: int): set<Cell> {
    set i, j | 0 <= i < n && 0 <= j < 7 :: FootCell(x, y, i, j)
  }

  /** The cells of column step `i`, first `m` row steps. */
  function ColumnPart(x: int, y: int, i: int, m: int): set<Cell> {
    set j | 0 <= j < m :: FootCell(x, y, i, j)
  }

  /** The area a card at `(x, y)` occupies: the grid keys of the points
      `x - 190, x - 140, ..., x + 160` by `y - 160, y - 110, ..., y + 140`
      (eight columns, seven rows). */
  function Footprint(p: Point): set<Cell> {
    Columns(p.x, p.y, 8)
  }

  lemma ColumnsStep(x: int, y: int, n: int)
    requires n >= 0
    ensures Columns(x, y, n + 1) == Columns(x, y, n) + ColumnPart(x, y, n, 7)
  {
    forall c | c in Columns(x, y, n + 1)
      ensures c in Columns(x, y, n) + ColumnPart(x, y, n, 7)
    {
      var i, j :| 0 <= i < n + 1 && 0 <= j < 7 && c == FootCell(x, y, i, j);
      if i < n {
        assert c in Columns(x, y, n);
      } else {
        assert c in ColumnPart(x, y, n, 7);
      }
    }
  }

  lemma ColumnPartStep(x: int, y: int, i: int, m: int)
    requires m >= 0
    ensures ColumnPart(x, y, i, m + 1) == ColumnPart(x, y, i, m) + {FootCell(x, y, i, m)}
  {
  }

  /** The footprint is the 8 by 7 block of cells whose corner is the
      rounded top-left point. */
  lemma FootprintIsBlock(p: Point, c: Cell)
    ensures c in Footprint(p) <==>
      Round50(p.x - HALF_SPAN_X) <= c.col < Round50(p.x - HALF_SPAN_X) + 8 &&
      Round50(p.y - HALF_SPAN_Y) <= c.row < Round50(p.y - HALF_SPAN_Y) + 7
  {
    var c0, r0 := Round50(p.x - HALF_SPAN_X), Round50(p.y - HALF_SPAN_Y);
    forall i, j | 0 <= i < 8 && 0 <= j < 7
      ensures FootCell(p.x, p.y, i, j) == Cell(c0 + i, r0 + j)
    {
      Round50Shift(p.x - HALF_SPAN_X, i);
      Round50Shift(p.y - HALF_SPAN_Y, j);
    }
    if c0 <= c.col < c0 + 8 && r0 <= c.row < r0 + 7 {
      assert c == FootCell(p.x, p.y, c.col - c0, c.row - r0);
    }
  }

  /** Round50 is monotone and moves by at most `d / 50 + 1` over a distance `d`. */
  lemma Round50Gap(a: int, b: int)
    requires a <= b
    ensures Round50(a) <= Round50(b)
    ensures b - a <= 350 ==> Round50(b) <= Round50(a) + 7
    ensures b - a <= 300 ==> Round50(b) <= Round50(a) + 6
    ensures b - a >= 400 ==> Round50(b) >= Round50(a) + 8
    ensures b - a >= 350 ==> Round50(b) >= Round50(a) + 7
  {
    Round50Shift(a, 7);
    Round50Shift(a, 6);
    Round50Shift(a, 8);
  }

  /** A point is free when its footprint shares no cell with the level's set. */
  predicate Free(p: Point, cells: set<Cell>) {
    Footprint(p) !! cells
  }

  /** Two cards are apart when their positions differ by more than 350
      horizontally or more than 300 vertically. */
  predicate Apart(p: Point, q: Point) {
    Abs(p.x - q.x) > 350 || Abs(p.y - q.y) > 300
  }

  /** Cards that are not apart share a cell. */
  lemma CloseCardsOverlap(p: Point, q: Point)
    requires !Apart(p, q)
    ensures !(Footprint(p) !! Footprint(q))
  {
    {
      var pc, pr := Round50(p.x - HALF_SPAN_X), Round50(p.y - HALF_SPAN_Y);
      var qc, qr := Round50(q.x - HALF_SPAN_X), Round50(q.y - HALF_SPAN_Y);
      if p.x <= q.x { Round50Gap(p.x - HALF_SPAN_X, q.x - HALF_SPAN_X); }
      else { Round50Gap(q.x - HALF_SPAN_X, p.x - HALF_SPAN_X); }
      if p.y <= q.y { Round50Gap(p.y - HALF_SPAN_Y, q.y - HALF_SPAN_Y); }
      else { Round50Gap(q.y - HALF_SPAN_Y, p.y - HALF_SPAN_Y); }
      var c := Cell(if pc < qc then qc else pc, if pr < qr then qr else pr);
      FootprintIsBlock(p, c);
      FootprintIsBlock(q, c);
      assert c in Footprint(p) && c in Footprint(q);
    }
  }

  /** Cards whose footprints are disjoint are apart. */
  lemma DisjointFootprintsApart(p: Point, q: Point)
    ensures Footprint(p) !! Footprint(q) ==> Apart(p, q)
  {
    if !Apart(p, q) {
      CloseCardsOverlap(p, q);
    }
  }

  /** Cards at least 400 apart horizontally have disjoint footprints. */
  lemma FarApartDisjoint(p: Point, q: Point)
    requires Abs(p.x - q.x) >= 400
    ensures Footprint(p) !! Footprint(q)
  {
    if p.x <= q.x { Round50Gap(p.x - HALF_SPAN_X, q.x - HALF_SPAN_X); }
    else { Round50Gap(q.x - HALF_SPAN_X, p.x - HALF_SPAN_X); }
    forall c | c in Footprint(p) ensures c !in Footprint(q) {
      FootprintIsBlock(p, c);
      FootprintIsBlock(q, c);
    }
  }

  // ---------------------------------------------------------------------
  // Preferred positions
  // ---------------------------------------------------------------------

  /** The preferred x of `processEmployee`: 0 for the root, a 50-pixel
      offset under the parent for an only child (right on even levels,
      left on odd ones), otherwise the sibling's slot in a row of pitch
      530. */
  function PreferredX(level: int, parentX: int, siblingIndex: int, totalSiblings: int, isRoot: bool): (x: int)
    ensures isRoot ==> x == 0
    ensures !isRoot && totalSiblings == 1 ==> x == parentX + (if level % 2 == 0 then 50 else -50)
    ensures !isRoot && totalSiblings != 1 ==> x == parentX - 265 * totalSiblings + 530 * siblingIndex + 140
  {
    if isRoot then 0
    else if totalSiblings == 1 then parentX + (if level % 2 == 0 then 50 else -50)
    else
      var groupWidth := totalSiblings * SIBLING_PITCH;
      var startX := parentX - groupWidth / 2;
      startX + siblingIndex * SIBLING_PITCH + CARD_WIDTH / 2
  }

  /** The preferred y of a level: `(level - 1) * (300 + 50 * level)`. */
  function PreferredY(level: int): (y: int)
    ensures level == 1 ==> y == 0
  {
    var verticalSpacing := 300 + level * 50;
    (level - 1) * verticalSpacing
  }

  /** Each level's row lies `100 * level + 300` below the previous one. */
  lemma RowsDescend(level: int)
    requires level >= 1
    ensures PreferredY(level + 1) == PreferredY(level) + 100 * level + 300
    ensures PreferredY(level + 1) > PreferredY(level)
  {
  }

  /** Siblings of a row of `k > 1` are evenly spaced 530 apart, and the row
      is symmetric about `parentX - 125`. */
  lemma SiblingRow(level: int, parentX: int, i: int, k: int)
    requires k > 1
    ensures PreferredX(level, parentX, i + 1, k, false) == PreferredX(level, parentX, i, k, false) + 530
    ensures PreferredX(level, parentX, i, k, false) + PreferredX(level, parentX, k - 1 - i, k, false)
            == 2 * (parentX - 125)
  {
  }

  /** The preferred spots of two different siblings never collide. */
  lemma SiblingsPreferredDisjoint(level: int, parentX: int, i: int, j: int, k: int)
    requires k > 1 && i != j
    ensures Footprint(Point(PreferredX(level, parentX, i, k, false), PreferredY(level)))
         !! Footprint(Point(PreferredX(level, parentX, j, k, false), PreferredY(level)))
  {
    FarApartDisjoint(Point(PreferredX(level, parentX, i, k, false), PreferredY(level)),
                     Point(PreferredX(level, parentX, j, k, false), PreferredY(level)));
  }

  // ---------------------------------------------------------------------
  // The search for a free position
  // ---------------------------------------------------------------------

  /** The eight points tried at one attempt, in order. */
  function Candidates(px: int, py: int, attempt: int): (ps: seq<Point>)
    ensures |ps| == 8
  {
    var radius := attempt * (CARD_WIDTH + MIN_HORIZONTAL_GAP);
    [ Point(px + radius, py),
      Point(px - radius, py),
      Point(px, py + MIN_VERTICAL_GAP),
      Point(px, py - MIN_VERTICAL_GAP),
      Point(px + radius / 2, py + MIN_VERTICAL_GAP / 2),
      Point(px - radius / 2, py + MIN_VERTICAL_GAP / 2),
      Point(px + radius / 2, py - MIN_VERTICAL_GAP / 2),
      Point(px - radius / 2, py - MIN_VERTICAL_GAP / 2) ]
  }

  /** The candidates of attempts `attempt` .. 50, in search order. */
  function Rings(px: int, py: int, attempt: int): (ps: seq<Point>)
    requires attempt >= 1
    ensures |ps| == if attempt > MAX_ATTEMPTS then 0 else 8 * (MAX_ATTEMPTS + 1 - attempt)
    decreases MAX_ATTEMPTS + 1 - attempt
  {
    if attempt > MAX_ATTEMPTS then [] else Candidates(px, py, attempt) + Rings(px, py, attempt + 1)
  }

  /** The first free point of `ps`, if any. */
  function FirstFree(ps: seq<Point>, cells: set<Cell>): (r: Option<Point>)
    ensures r.Some? ==> r.value in ps && Free(r.value, cells)
  {
    if ps == [] then None
    else if Free(ps[0], cells) then Some(ps[0])
    else FirstFree(ps[1..], cells)
  }

  /** The search finds nothing exactly when every point is blocked. */
  lemma {:induction false} FirstFreeNone(ps: seq<Point>, cells: set<Cell>)
    ensures FirstFree(ps, cells).None? <==> forall p :: p in ps ==> !Free(p, cells)
  {
    if ps != [] {
      FirstFreeNone(ps[1..], cells);
      assert forall p :: p in ps ==> p == ps[0] || p in ps[1..];
    }
  }

  /** No point before the one `FirstFree` picks is free. */
  lemma {:induction false} FirstFreeIsFirst(ps: seq<Point>, cells: set<Cell>)
    requires FirstFree(ps, cells).Some?
    ensures exists k :: 0 <= k < |ps| && ps[k] == FirstFree(ps, cells).value &&
                        forall k' :: 0 <= k' < k ==> !Free(ps[k'], cells)
  {
    if !Free(ps[0], cells) {
      FirstFreeIsFirst(ps[1..], cells);
      var k :| 0 <= k < |ps[1..]| && ps[1..][k] == FirstFree(ps[1..], cells).value &&
               forall k' :: 0 <= k' < k ==> !Free(ps[1..][k'], cells);
      assert ps[k + 1] == FirstFree(ps, cells).value;
      forall k' | 0 <= k' < k + 1 ensures !Free(ps[k'], cells) {
        if k' > 0 { assert ps[k'] == ps[1..][k' - 1]; }
      }
    }
  }

  lemma RingsStep(px: int, py: int, attempt: int)
    requires 1 <= attempt <= MAX_ATTEMPTS
    ensures Rings(px, py, attempt) == Candidates(px, py, attempt) + Rings(px, py, attempt + 1)
  {
  }

  /** Skipping a blocked point does not change the first free one. */
  lemma FirstFreeSkip(ps: seq<Point>, rest: seq<Point>, k: int, cells: set<Cell>)
    requires 0 <= k < |ps| && !Free(ps[k], cells)
    ensures FirstFree(ps[k..] + rest, cells) == FirstFree(ps[k + 1..] + rest, cells)
  {
    assert (ps[k..] + rest)[0] == ps[k];
    assert (ps[k..] + rest)[1..] == ps[k + 1..] + rest;
  }

  lemma {:induction false} FirstFreeAppend(a: seq<Point>, b: seq<Point>, cells: set<Cell>)
    ensures FirstFree(a + b, cells) == if FirstFree(a, cells).Some? then FirstFree(a, cells) else FirstFree(b, cells)
    decreases |a|
  {
    if a == [] {
      assert a + b == b;
    } else {
      assert (a + b)[0] == a[0];
      assert (a + b)[1..] == a[1..] + b;
      FirstFreeAppend(a[1..], b, cells);
    }
  }

  /** One attempt of the search: its eight candidates come before all later attempts. */
  lemma RingsSearchStep(px: int, py: int, attempt: int, cells: set<Cell>)
    requires 1 <= attempt <= MAX_ATTEMPTS
    ensures FirstFree(Rings(px, py, attempt), cells) ==
      if FirstFree(Candidates(px, py, attempt), cells).Some? then FirstFree(Candidates(px, py, attempt), cells)
      else FirstFree(Rings(px, py, attempt + 1), cells)
  {
    RingsStep(px, py, attempt);
    FirstFreeAppend(Candidates(px, py, attempt), Rings(px, py, attempt + 1), cells);
  }

  /** `findBestPosition` as a value: the preferred point when it is free,
      else the first free candidate, else the preferred point. */
  function BestPosition(px: int, py: int, cells: set<Cell>): (p: Point)
    ensures Free(Point(px, py), cells) ==> p == Point(px, py)
    ensures p == Point(px, py) || (Free(p, cells) && p in Rings(px, py, 1))
    ensures !Free(p, cells) ==> p == Point(px, py) && forall q :: q in Rings(px, py, 1) ==> !Free(q, cells)
    ensures !Free(Point(px, py), cells) && FirstFree(Rings(px, py, 1), cells).Some? ==>
              p == FirstFree(Rings(px, py, 1), cells).value
  {
    if Free(Point(px, py), cells) then Point(px, py)
    else
      FirstFreeNone(Rings(px, py, 1), cells);
      match FirstFree(Rings(px, py, 1), cells)
      case Some(p) => p
      case None => Point(px, py)
  }

  /** When the preferred point is blocked and some candidate is free, the
      position is the first free candidate in search order: attempts in
      turn, and within an attempt the eight points in order. */
  lemma BestPositionIsFirstFree(px: int, py: int, cells: set<Cell>)
    requires !Free(Point(px, py), cells)
    requires exists q :: q in Rings(px, py, 1) && Free(q, cells)
    ensures var ps := Rings(px, py, 1);
      exists k :: 0 <= k < |ps| && ps[k] == BestPosition(px, py, cells) &&
                  forall k' :: 0 <= k' < k ==> !Free(ps[k'], cells)
  {
    FirstFreeNone(Rings(px, py, 1), cells);
    FirstFreeIsFirst(Rings(px, py, 1), cells);
  }

  /** On an empty level the preferred point is taken. */
  lemma EmptyLevelTakesPreferred(px: int, py: int)
    ensures BestPosition(px, py, {}) == Point(px, py)
  {
  }

  // ---------------------------------------------------------------------
  // Nodes and edges
  // ---------------------------------------------------------------------

  /** A chart node: its id, position, the employee it shows, whether it has
      children and is expanded, and its level's border colour. */
  datatype FlowNode = FlowNode(
    id: string,
    position: Point,
    employee: Employee,
    hasChildren: bool,
    isExpanded: bool,
    levelBorderColor: string)

  /** A chart edge with its stroke (and arrow) colour. */
  datatype FlowEdge = FlowEdge(id: string, source: string, target: string, stroke: string)

  /** The edge `edge-P-C` from a parent to one of its children. */
  function EdgeBetween(parent: Employee, child: Employee, stroke: string): (e: FlowEdge)
    ensures e.source == Id(parent.jobTitleCode) && e.target == Id(child.jobTitleCode)
  {
    FlowEdge("edge-" + IntToString(parent.jobTitleCode) + "-" + IntToString(child.jobTitleCode),
             Id(parent.jobTitleCode), Id(child.jobTitleCode), stroke)
  }

  /** The edges from `parent` to each of `cs`, in order, in colour `stroke`. */
  function EdgesTo(parent: Employee, stroke: string, cs: seq<Employee>): (r: seq<FlowEdge>)
    ensures |r| == |cs|
    ensures forall k :: 0 <= k < |cs| ==> r[k] == EdgeBetween(parent, cs[k], stroke)
  {
    if cs == [] then [] else EdgesTo(parent, stroke, cs[..|cs| - 1]) + [EdgeBetween(parent, cs[|cs| - 1], stroke)]
  }

  /** The edges a placed node emits: one per child when it has children
      and is expanded, none otherwise. */
  function ChildEdges(n: FlowNode): seq<FlowEdge> {
    if n.hasChildren && n.isExpanded then EdgesTo(n.employee, n.levelBorderColor, n.employee.children) else []
  }

  /** All edges the nodes `ns` emit, as a bag. */
  function EdgeBag(ns: seq<FlowNode>): multiset<FlowEdge> {
    if ns == [] then multiset{} else EdgeBag(ns[..|ns| - 1]) + multiset(ChildEdges(ns[|ns| - 1]))
  }

  lemma {:induction false} EdgeBagAppend(a: seq<FlowNode>, b: seq<FlowNode>)
    ensures EdgeBag(a + b) == EdgeBag(a) + EdgeBag(b)
    decreases |b|
  {
    if b == [] {
      assert a + b == a;
    } else {
      assert (a + b)[..|a + b| - 1] == a + b[..|b| - 1];
      EdgeBagAppend(a, b[..|b| - 1]);
    }
  }

  /** Every edge in the bag of `ns` leaves one of `ns` towards one of its children. */
  lemma {:induction false} EdgeBagMember(ns: seq<FlowNode>, e: FlowEdge)
    requires e in EdgeBag(ns)
    ensures exists k, c :: (0 <= k < |ns| && ns[k].hasChildren && ns[k].isExpanded &&
                            c in ns[k].employee.children &&
                            e == EdgeBetween(ns[k].employee, c, ns[k].levelBorderColor))
  {
    var last := ns[|ns| - 1];
    if e in multiset(ChildEdges(last)) {
      var i :| 0 <= i < |ChildEdges(last)| && ChildEdges(last)[i] == e;
      assert last.employee.children[i] in last.employee.children;
    } else {
      EdgeBagMember(ns[..|ns| - 1], e);
      var k, c :| 0 <= k < |ns| - 1 && ns[..|ns| - 1][k].hasChildren && ns[..|ns| - 1][k].isExpanded &&
        c in ns[..|ns| - 1][k].employee.children &&
        e == EdgeBetween(ns[..|ns| - 1][k].employee, c, ns[..|ns| - 1][k].levelBorderColor);
      assert ns[k] == ns[..|ns| - 1][k];
    }
  }

  /** The codes of the employees shown by `ns`. */
  function NodeCodes(ns: seq<FlowNode>): set<int> {
    set n | n in ns :: n.employee.jobTitleCode
  }

  function NodeIds(ns: seq<FlowNode>): set<string> {
    set n | n in ns :: n.id
  }

  /** Every expanded node of `ns` with children has all its children among `placed`. */
  ghost predicate ChildrenPlaced(ns: seq<FlowNode>, placed: set<int>) {
    forall k, c :: 0 <= k < |ns| && ns[k].hasChildren && ns[k].isExpanded && c in ns[k].employee.children
      ==> c.jobTitleCode in placed
  }

  lemma NodeCodesSnoc(ns: seq<FlowNode>, n: FlowNode)
    ensures NodeCodes(ns + [n]) == NodeCodes(ns) + {n.employee.jobTitleCode}
    ensures NodeIds(ns + [n]) == NodeIds(ns) + {n.id}
  {
    assert forall m :: m in ns + [n] <==> m in ns || m == n;
  }

  lemma ChildrenPlacedJoin(a: seq<FlowNode>, b: seq<FlowNode>, before: set<int>, after: set<int>)
    requires ChildrenPlaced(a, before) && before <= after && ChildrenPlaced(b, after)
    ensures ChildrenPlaced(a + b, after)
  {
    forall k, c | 0 <= k < |a + b| && (a + b)[k].hasChildren && (a + b)[k].isExpanded && c in (a + b)[k].employee.children
      ensures c.jobTitleCode in after
    {
      if k < |a| {
        assert (a + b)[k] == a[k];
      } else {
        assert (a + b)[k] == b[k - |a|];
      }
    }
  }

  lemma {:induction false} SubsetCard<T>(a: set<T>, b: set<T>)
    requires a <= b
    ensures |a| <= |b|
    decreases |a|
  {
    if a != {} {
      var x :| x in a;
      SubsetCard(a - {x}, b - {x});
    }
  }

  /** The cells reserved on `level` in the grid `occupied`. */
  function CellsAt(occupied: map<int, set<Cell>>, level: int): set<Cell> {
    if level in occupied then occupied[level] else {}
  }

  /** Nodes with pairwise different codes show as many codes as there are nodes. */
  lemma {:induction false} NodeCodesCard(ns: seq<FlowNode>)
    requires forall i, j :: 0 <= i < j < |ns| ==> ns[i].employee.jobTitleCode != ns[j].employee.jobTitleCode
    ensures |NodeCodes(ns)| == |ns|
    decreases |ns|
  {
    if ns != [] {
      var init, last := ns[..|ns| - 1], ns[|ns| - 1];
      assert ns == init + [last];
      NodeCodesCard(init);
      NodeCodesSnoc(init, last);
      forall i | 0 <= i < |init| ensures init[i].employee.jobTitleCode != last.employee.jobTitleCode {
        assert init[i] == ns[i];
      }
      assert last.employee.jobTitleCode !in NodeCodes(init);
    }
  }

  /** `processed` holds exactly the codes of `nodes`, one node per code,
      and each node's id is its code's text. */
  ghost predicate Placed(nodes: seq<FlowNode>, processed: set<int>) {
    && processed == NodeCodes(nodes)
    && (forall i, j :: 0 <= i < j < |nodes| ==> nodes[i].employee.jobTitleCode != nodes[j].employee.jobTitleCode)
    && (forall i :: 0 <= i < |nodes| ==> nodes[i].id == Id(nodes[i].employee.jobTitleCode))
  }

  /** Each node's footprint is reserved on the level it was placed on. */
  ghost predicate Reserved(nodes: seq<FlowNode>, levels: seq<int>, occupied: map<int, set<Cell>>)
    requires |levels| == |nodes|
  {
    forall i :: 0 <= i < |nodes| ==> Footprint(nodes[i].position) <= CellsAt(occupied, levels[i])
  }

  /** A node placed on a free spot shares no cell with an earlier node of its level. */
  ghost predicate Spaced(nodes: seq<FlowNode>, levels: seq<int>, placedFree: seq<bool>)
    requires |levels| == |nodes| && |placedFree| == |nodes|
  {
    forall i, j :: 0 <= i < j < |nodes| && levels[i] == levels[j] && placedFree[j] ==>
      Footprint(nodes[i].position) !! Footprint(nodes[j].position)
  }

  /** Looking a level up (which gives it a set when it has none) and then
      reserving cells on it adds those cells to the level and changes
      nothing else. */
  lemma LookupThenReserve(occ0: map<int, set<Cell>>, grid: map<int, set<Cell>>, occ: map<int, set<Cell>>,
                          level: int, cells: set<Cell>)
    requires grid == occ0[level := CellsAt(occ0, level)]
    requires occ == grid[level := CellsAt(grid, level) + cells]
    ensures CellsAt(grid, level) == CellsAt(occ0, level)
    ensures occ == occ0[level := CellsAt(occ0, level) + cells]
  {
  }

  lemma PlacedSnoc(nodes: seq<FlowNode>, processed: set<int>, n: FlowNode)
    requires Placed(nodes, processed) && n.employee.jobTitleCode !in processed
    requires n.id == Id(n.employee.jobTitleCode)
    ensures Placed(nodes + [n], processed + {n.employee.jobTitleCode})
  {
    NodeCodesSnoc(nodes, n);
    forall i | 0 <= i < |nodes| ensures nodes[i].employee.jobTitleCode != n.employee.jobTitleCode {
      assert nodes[i] in nodes;
    }
  }

  /** Reserving the new node's footprint on its level keeps every earlier
      node's footprint reserved. */
  lemma ReservedSnoc(nodes: seq<FlowNode>, levels: seq<int>, occupied: map<int, set<Cell>>,
                     n: FlowNode, level: int)
    requires |levels| == |nodes| && Reserved(nodes, levels, occupied)
    ensures Reserved(nodes + [n], levels + [level],
                     occupied[level := CellsAt(occupied, level) + Footprint(n.position)])
  {
    var grown := occupied[level := CellsAt(occupied, level) + Footprint(n.position)];
    forall i | 0 <= i < |nodes| + 1
      ensures Footprint((nodes + [n])[i].position) <= CellsAt(grown, (levels + [level])[i])
    {
      if i < |nodes| {
        assert (nodes + [n])[i] == nodes[i] && (levels + [level])[i] == levels[i];
        assert CellsAt(occupied, levels[i]) <= CellsAt(grown, levels[i]);
      }
    }
  }

  /** A node placed on a spot free of its level's reserved cells overlaps
      no earlier node of that level. */
  lemma SpacedSnoc(nodes: seq<FlowNode>, levels: seq<int>, placedFree: seq<bool>,
                   occupied: map<int, set<Cell>>, n: FlowNode, level: int, free: bool)
    requires |levels| == |nodes| && |placedFree| == |nodes|
    requires Reserved(nodes, levels, occupied) && Spaced(nodes, levels, placedFree)
    requires free ==> Footprint(n.position) !! CellsAt(occupied, level)
    ensures Spaced(nodes + [n], levels + [level], placedFree + [free])
  {
    var ns, ls, fs := nodes + [n], levels + [level], placedFree + [free];
    forall i, j | 0 <= i < j < |ns| && ls[i] == ls[j] && fs[j]
      ensures Footprint(ns[i].position) !! Footprint(ns[j].position)
    {
      assert ns[i] == nodes[i] && ls[i] == levels[i];
      if j < |nodes| {
        assert ns[j] == nodes[j] && ls[j] == levels[j] && fs[j] == placedFree[j];
      } else {
        assert Footprint(nodes[i].position) <= CellsAt(occupied, level);
      }
    }
  }

  // ---------------------------------------------------------------------
  // The walk of `processEmployee`, on values
  // ---------------------------------------------------------------------

  /** What the walk threads from call to call: the node and edge lists,
      the codes already placed and the per-level grid; and, for the
      proofs, the level each node was placed on and whether its spot was
      free at the time. */
  datatype LayoutState = LayoutState(
    nodes: seq<FlowNode>,
    edges: seq<FlowEdge>,
    processed: set<int>,
    occupied: map<int, set<Cell>>,
    levels: seq<int>,
    placedFree: seq<bool>)

  const EMPTY_STATE: LayoutState := LayoutState([], [], {}, map[], [], [])

  /** The node an employee gets: its id, the best position around the
      preferred point on its level's grid, and its level's colour. */
  function NewNode(st: LayoutState, employee: Employee, level: int, preferredX: int, preferredY: int,
                   expanded: set<string>): FlowNode
  {
    FlowNode(Id(employee.jobTitleCode), BestPosition(preferredX, preferredY, CellsAt(st.occupied, level)),
             employee, |employee.children| > 0, Id(employee.jobTitleCode) in expanded,
             GetLevelBorderColor(level))
  }

  /** Placing an employee: the code is marked processed, the node's
      footprint is reserved on its level and the node is pushed. */
  function PlaceNode(st: LayoutState, employee: Employee, level: int, preferredX: int, preferredY: int,
                     expanded: set<string>): (r: LayoutState)
    ensures |r.nodes| == |st.nodes| + 1 && r.nodes[..|st.nodes|] == st.nodes
    ensures r.nodes[|st.nodes|].position == BestPosition(preferredX, preferredY, CellsAt(st.occupied, level))
    ensures r.edges == st.edges && r.processed == st.processed + {employee.jobTitleCode}
    ensures CellsAt(r.occupied, level) == CellsAt(st.occupied, level) + Footprint(r.nodes[|st.nodes|].position)
    ensures forall l :: l != level ==> CellsAt(r.occupied, l) == CellsAt(st.occupied, l)
  {
    var cells := CellsAt(st.occupied, level);
    var node := NewNode(st, employee, level, preferredX, preferredY, expanded);
    LayoutState(st.nodes + [node], st.edges, st.processed + {employee.jobTitleCode},
                st.occupied[level := cells + Footprint(node.position)],
                st.levels + [level], st.placedFree + [Free(node.position, cells)])
  }

  /** Placing an employee once its position is known. */
  lemma PlaceNodeAt(st: LayoutState, employee: Employee, level: int, preferredX: int, preferredY: int,
                    expanded: set<string>, pos: Point)
    requires pos == BestPosition(preferredX, preferredY, CellsAt(st.occupied, level))
    ensures var node := FlowNode(Id(employee.jobTitleCode), pos, employee, |employee.children| > 0,
                                 Id(employee.jobTitleCode) in expanded, GetLevelBorderColor(level));
      var cells := CellsAt(st.occupied, level);
      && NewNode(st, employee, level, preferredX, preferredY, expanded) == node
      && PlaceNode(st, employee, level, preferredX, preferredY, expanded)
         == LayoutState(st.nodes + [node], st.edges, st.processed + {employee.jobTitleCode},
                        st.occupied[level := cells + Footprint(pos)], st.levels + [level],
                        st.placedFree + [Free(pos, cells)])
  {
  }

  /** `processEmployee` as a function of the state it starts from: a code
      already placed changes nothing; otherwise the employee is placed
      and, when it has children and its id is expanded, its children are
      walked one level down. The result extends the state it starts from,
      holds the employee's code and, when the code was new, the
      employee's node right after the nodes already there. */
  function Walk(st: LayoutState, employee: Employee, level: int, parentX: int, siblingIndex: int,
                totalSiblings: int, isRoot: bool, expanded: set<string>): (r: LayoutState)
    ensures st.nodes <= r.nodes && st.edges <= r.edges && st.levels <= r.levels && st.placedFree <= r.placedFree
    ensures st.processed + {employee.jobTitleCode} <= r.processed
    decreases employee, 1
  {
    if employee.jobTitleCode in st.processed then st
    else
      var preferredX := PreferredX(level, parentX, siblingIndex, totalSiblings, isRoot);
      var placed := PlaceNode(st, employee, level, preferredX, PreferredY(level), expanded);
      if |employee.children| > 0 && Id(employee.jobTitleCode) in expanded then
        WalkChildren(placed, employee, placed.nodes[|st.nodes|].position.x, level, 0, expanded)
      else placed
  }

  /** The `forEach` over the children of `parent` (placed at `x` on
      `level`) from `index` on: each child gets an edge from the parent
      and is walked in turn. The result extends the state and holds every
      remaining child's code. */
  function WalkChildren(st: LayoutState, parent: Employee, x: int, level: int, index: nat,
                        expanded: set<string>): (r: LayoutState)
    requires index <= |parent.children|
    ensures st.nodes <= r.nodes && st.edges <= r.edges && st.levels <= r.levels && st.placedFree <= r.placedFree
    ensures st.processed <= r.processed
    decreases parent, 0, |parent.children| - index
  {
    if index == |parent.children| then st
    else
      var child := parent.children[index];
      var linked := st.(edges := st.edges + [EdgeBetween(parent, child, GetLevelBorderColor(level))]);
      var walked := Walk(linked, child, level + 1, x, index, |parent.children|, false, expanded);
      WalkChildren(walked, parent, x, level, index + 1, expanded)
  }

  /** One step of the walk over a new employee: place it, then walk its
      children from the first when it is expanded. */
  lemma WalkStep(st: LayoutState, employee: Employee, level: int, parentX: int, siblingIndex: int,
                 totalSiblings: int, isRoot: bool, expanded: set<string>)
    requires employee.jobTitleCode !in st.processed
    ensures var preferredX := PreferredX(level, parentX, siblingIndex, totalSiblings, isRoot);
      var placed := PlaceNode(st, employee, level, preferredX, PreferredY(level), expanded);
      var node := NewNode(st, employee, level, preferredX, PreferredY(level), expanded);
      Walk(st, employee, level, parentX, siblingIndex, totalSiblings, isRoot, expanded)
      == if node.hasChildren && node.isExpanded then WalkChildren(placed, employee, node.position.x, level, 0, expanded)
         else placed
  {
  }

  /** One step of the children's loop: link the child, walk it, go on. */
  lemma WalkChildrenStep(st: LayoutState, parent: Employee, x: int, level: int, index: nat, expanded: set<string>)
    requires index < |parent.children|
    ensures var child := parent.children[index];
      var linked := st.(edges := st.edges + [EdgeBetween(parent, child, GetLevelBorderColor(level))]);
      WalkChildren(st, parent, x, level, index, expanded)
      == WalkChildren(Walk(linked, child, level + 1, x, index, |parent.children|, false, expanded),
                      parent, x, level, index + 1, expanded)
  {
  }

  /** An employee whose code is new gets its node right after the nodes
      already there, on its level. */
  lemma WalkPlacesEmployee(st: LayoutState, employee: Employee, level: int, parentX: int, siblingIndex: int,
                           totalSiblings: int, isRoot: bool, expanded: set<string>)
    requires employee.jobTitleCode !in st.processed
    ensures var r := Walk(st, employee, level, parentX, siblingIndex, totalSiblings, isRoot, expanded);
      && |r.nodes| > |st.nodes| && |r.levels| > |st.levels|
      && r.nodes[|st.nodes|] == NewNode(st, employee, level, PreferredX(level, parentX, siblingIndex, totalSiblings, isRoot),
                                        PreferredY(level), expanded)
      && r.levels[|st.levels|] == level
  {
  }

  /** Walking the children from `index` on places each remaining child. */
  lemma {:induction false} WalkChildrenPlacesEach(st: LayoutState, parent: Employee, x: int, level: int, index: nat,
                                                  expanded: set<string>)
    requires index <= |parent.children|
    ensures var r := WalkChildren(st, parent, x, level, index, expanded);
      forall c :: c in parent.children[index..] ==> c.jobTitleCode in r.processed
    decreases |parent.children| - index
  {
    if index < |parent.children| {
      var child := parent.children[index];
      var linked := st.(edges := st.edges + [EdgeBetween(parent, child, GetLevelBorderColor(level))]);
      var walked := Walk(linked, child, level + 1, x, index, |parent.children|, false, expanded);
      WalkChildrenPlacesEach(walked, parent, x, level, index + 1, expanded);
      assert parent.children[index..] == [child] + parent.children[index + 1..];
    }
  }

  // ---------------------------------------------------------------------
  // What the walk keeps and what it builds
  // ---------------------------------------------------------------------

  /** The bookkeeping of a layout state: one node per placed code, each
      footprint reserved, and free placements overlapping no earlier node
      of their level. */
  ghost predicate Inv(st: LayoutState) {
    && |st.levels| == |st.nodes| && |st.placedFree| == |st.nodes|
    && Placed(st.nodes, st.processed)
    && Reserved(st.nodes, st.levels, st.occupied)
    && Spaced(st.nodes, st.levels, st.placedFree)
  }

  lemma PlaceNodeInv(st: LayoutState, employee: Employee, level: int, preferredX: int, preferredY: int,
                     expanded: set<string>)
    requires Inv(st) && employee.jobTitleCode !in st.processed
    ensures Inv(PlaceNode(st, employee, level, preferredX, preferredY, expanded))
  {
    var node := NewNode(st, employee, level, preferredX, preferredY, expanded);
    var cells := CellsAt(st.occupied, level);
    PlacedSnoc(st.nodes, st.processed, node);
    ReservedSnoc(st.nodes, st.levels, st.occupied, node, level);
    SpacedSnoc(st.nodes, st.levels, st.placedFree, st.occupied, node, level, Free(node.position, cells));
  }

  /** The walk keeps the bookkeeping. */
  lemma {:induction false} WalkInv(st: LayoutState, employee: Employee, level: int, parentX: int, siblingIndex: int,
                                   totalSiblings: int, isRoot: bool, expanded: set<string>)
    requires Inv(st)
    ensures Inv(Walk(st, employee, level, parentX, siblingIndex, totalSiblings, isRoot, expanded))
    decreases employee, 1
  {
    if employee.jobTitleCode !in st.processed {
      var preferredX := PreferredX(level, parentX, siblingIndex, totalSiblings, isRoot);
      var placed := PlaceNode(st, employee, level, preferredX, PreferredY(level), expanded);
      PlaceNodeInv(st, employee, level, preferredX, PreferredY(level), expanded);
      if |employee.children| > 0 && Id(employee.jobTitleCode) in expanded {
        WalkChildrenInv(placed, employee, placed.nodes[|st.nodes|].position.x, level, 0, expanded);
      }
    }
  }

  lemma {:induction false} WalkChildrenInv(st: LayoutState, parent: Employee, x: int, level: int, index: nat,
                                           expanded: set<string>)
    requires Inv(st) && index <= |parent.children|
    ensures Inv(WalkChildren(st, parent, x, level, index, expanded))
    decreases parent, 0, |parent.children| - index
  {
    if index < |parent.children| {
      var child := parent.children[index];
      var linked := st.(edges := st.edges + [EdgeBetween(parent, child, GetLevelBorderColor(level))]);
      WalkInv(linked, child, level + 1, x, index, |parent.children|, false, expanded);
      var walked := Walk(linked, child, level + 1, x, index, |parent.children|, false, expanded);
      WalkChildrenInv(walked, parent, x, level, index + 1, expanded);
    }
  }

  /** The walk places only codes the expansion set makes visible. */
  lemma {:induction false} WalkWithinVisible(st: LayoutState, employee: Employee, level: int, parentX: int,
                                             siblingIndex: int, totalSiblings: int, isRoot: bool,
                                             expanded: set<string>)
    ensures Walk(st, employee, level, parentX, siblingIndex, totalSiblings, isRoot, expanded).processed
            <= st.processed + Visible(employee, expanded)
    decreases employee, 1
  {
    if employee.jobTitleCode !in st.processed {
      var preferredX := PreferredX(level, parentX, siblingIndex, totalSiblings, isRoot);
      var placed := PlaceNode(st, employee, level, preferredX, PreferredY(level), expanded);
      if |employee.children| > 0 && Id(employee.jobTitleCode) in expanded {
        WalkChildrenWithinVisible(placed, employee, placed.nodes[|st.nodes|].position.x, level, 0, expanded);
        assert employee.children[0..] == employee.children;
      }
    }
  }

  lemma {:induction false} WalkChildrenWithinVisible(st: LayoutState, parent: Employee, x: int, level: int,
                                                     index: nat, expanded: set<string>)
    requires index <= |parent.children|
    ensures WalkChildren(st, parent, x, level, index, expanded).processed
            <= st.processed + ForestVisible(parent.children[index..], expanded)
    decreases parent, 0, |parent.children| - index
  {
    if index < |parent.children| {
      var cs := parent.children;
      var child := cs[index];
      var linked := st.(edges := st.edges + [EdgeBetween(parent, child, GetLevelBorderColor(level))]);
      WalkWithinVisible(linked, child, level + 1, x, index, |cs|, false, expanded);
      var walked := Walk(linked, child, level + 1, x, index, |cs|, false, expanded);
      WalkChildrenWithinVisible(walked, parent, x, level, index + 1, expanded);
      assert cs[index..] == [child] + cs[index + 1..];
      ForestVisibleCons(child, cs[index + 1..], expanded);
      SubsetStep(WalkChildren(st, parent, x, level, index, expanded).processed, walked.processed, st.processed,
                 Visible(child, expanded), ForestVisible(cs[index + 1..], expanded),
                 ForestVisible(cs[index..], expanded));
    }
  }

  /** Two bounds in a row make one: the set arithmetic of one step of the
      children's loop. */
  lemma SubsetStep<T>(after: set<T>, mid: set<T>, before: set<T>, first: set<T>, rest: set<T>, all: set<T>)
    requires mid <= before + first && after <= mid + rest && all == first + rest
    ensures after <= before + all
  {
  }

  /** On a tree with unique codes, none of them placed yet, the walk
      places exactly the visible codes. */
  lemma {:induction false} WalkCoversVisible(st: LayoutState, employee: Employee, level: int, parentX: int,
                                             siblingIndex: int, totalSiblings: int, isRoot: bool,
                                             expanded: set<string>)
    requires UniqueCodes(employee)
    requires forall c :: c in Codes(employee) ==> c !in st.processed
    ensures Walk(st, employee, level, parentX, siblingIndex, totalSiblings, isRoot, expanded).processed
            == st.processed + Visible(employee, expanded)
    decreases employee, 1
  {
    var code := employee.jobTitleCode;
    var preferredX := PreferredX(level, parentX, siblingIndex, totalSiblings, isRoot);
    var placed := PlaceNode(st, employee, level, preferredX, PreferredY(level), expanded);
    if |employee.children| > 0 && Id(code) in expanded {
      var cs := employee.children;
      assert cs[0..] == cs;
      DistinctSplit([code], ForestCodes(cs));
      forall c | c in ForestCodes(cs) ensures c !in placed.processed {
        assert c in Codes(employee);
      }
      WalkChildrenCoversVisible(placed, employee, placed.nodes[|st.nodes|].position.x, level, 0, expanded);
    }
  }

  lemma {:induction false} WalkChildrenCoversVisible(st: LayoutState, parent: Employee, x: int, level: int,
                                                     index: nat, expanded: set<string>)
    requires index <= |parent.children|
    requires Distinct(ForestCodes(parent.children[index..]))
    requires forall c :: c in ForestCodes(parent.children[index..]) ==> c !in st.processed
    ensures WalkChildren(st, parent, x, level, index, expanded).processed
            == st.processed + ForestVisible(parent.children[index..], expanded)
    decreases parent, 0, |parent.children| - index
  {
    if index < |parent.children| {
      var cs := parent.children;
      var child, rest := cs[index], cs[index + 1..];
      assert cs[index..] == [child] + rest;
      ForestCodesCons(child, rest);
      ForestVisibleCons(child, rest, expanded);
      DistinctSplit(Codes(child), ForestCodes(rest));
      var linked := st.(edges := st.edges + [EdgeBetween(parent, child, GetLevelBorderColor(level))]);
      WalkCoversVisible(linked, child, level + 1, x, index, |cs|, false, expanded);
      var walked := Walk(linked, child, level + 1, x, index, |cs|, false, expanded);
      VisibleWithinTree(child, expanded);
      assert cs[index + 1..] == rest;
      WalkChildrenCoversVisible(walked, parent, x, level, index + 1, expanded);
    }
  }

  /** The edges the walk adds are exactly those its new nodes emit: the
      bag of edges after, with the bag the old nodes emit, balances the
      edges before with the bag the nodes after emit. */
  lemma {:induction false} WalkEdges(st: LayoutState, employee: Employee, level: int, parentX: int,
                                     siblingIndex: int, totalSiblings: int, isRoot: bool, expanded: set<string>)
    ensures var r := Walk(st, employee, level, parentX, siblingIndex, totalSiblings, isRoot, expanded);
            multiset(r.edges) + EdgeBag(st.nodes) == multiset(st.edges) + EdgeBag(r.nodes)
    decreases employee, 1
  {
    if employee.jobTitleCode !in st.processed {
      var r := Walk(st, employee, level, parentX, siblingIndex, totalSiblings, isRoot, expanded);
      var preferredX := PreferredX(level, parentX, siblingIndex, totalSiblings, isRoot);
      var placed := PlaceNode(st, employee, level, preferredX, PreferredY(level), expanded);
      var node := placed.nodes[|st.nodes|];
      var emitted := multiset(ChildEdges(node));
      EdgeBagSnoc(st.nodes, node);
      assert placed.nodes == st.nodes + [node];
      if |employee.children| > 0 && Id(employee.jobTitleCode) in expanded {
        WalkChildrenEdges(placed, employee, node.position.x, level, 0, expanded);
        assert employee.children[0..] == employee.children;
        BagCancel(multiset(r.edges), multiset(st.edges), EdgeBag(st.nodes), EdgeBag(r.nodes), emitted);
      } else {
        assert emitted == multiset{};
      }
    }
  }

  lemma {:induction false} WalkChildrenEdges(st: LayoutState, parent: Employee, x: int, level: int, index: nat,
                                             expanded: set<string>)
    requires index <= |parent.children|
    ensures var r := WalkChildren(st, parent, x, level, index, expanded);
            multiset(r.edges) + EdgeBag(st.nodes)
            == multiset(st.edges) + multiset(EdgesTo(parent, GetLevelBorderColor(level), parent.children[index..]))
               + EdgeBag(r.nodes)
    decreases parent, 0, |parent.children| - index
  {
    var stroke := GetLevelBorderColor(level);
    var cs := parent.children;
    if index == |cs| {
      assert cs[index..] == [];
    } else {
      var r := WalkChildren(st, parent, x, level, index, expanded);
      var edge := EdgeBetween(parent, cs[index], stroke);
      var linked := st.(edges := st.edges + [edge]);
      var walked := Walk(linked, cs[index], level + 1, x, index, |cs|, false, expanded);
      WalkEdges(linked, cs[index], level + 1, x, index, |cs|, false, expanded);
      WalkChildrenEdges(walked, parent, x, level, index + 1, expanded);
      EdgesToCons(parent, stroke, cs, index);
      assert multiset(linked.edges) == multiset(st.edges) + multiset{edge};
      BagStep(multiset(r.edges), multiset(walked.edges), multiset(st.edges), EdgeBag(st.nodes),
              EdgeBag(walked.nodes), EdgeBag(r.nodes), multiset{edge},
              multiset(EdgesTo(parent, stroke, cs[index + 1..])));
    }
  }

  /** A node appended to a list adds the edges it emits to the bag. */
  lemma EdgeBagSnoc(ns: seq<FlowNode>, n: FlowNode)
    ensures EdgeBag(ns + [n]) == EdgeBag(ns) + multiset(ChildEdges(n))
  {
    assert (ns + [n])[..|ns|] == ns;
  }

  /** Two balances in a row make one: the bag arithmetic of one step of
      the children's loop. */
  lemma BagStep<T>(after: multiset<T>, mid: multiset<T>, before: multiset<T>,
                   bagBefore: multiset<T>, bagMid: multiset<T>, bagAfter: multiset<T>,
                   first: multiset<T>, rest: multiset<T>)
    requires mid + bagBefore == before + first + bagMid
    requires after + bagMid == mid + rest + bagAfter
    ensures after + bagBefore == before + (first + rest) + bagAfter
  {
    forall t ensures (after + bagBefore)[t] == (before + (first + rest) + bagAfter)[t] {
      assert (mid + bagBefore)[t] == (before + first + bagMid)[t];
      assert (after + bagMid)[t] == (mid + rest + bagAfter)[t];
    }
  }

  /** A bag added on both sides of a balance cancels. */
  lemma BagCancel<T>(after: multiset<T>, before: multiset<T>, bagBefore: multiset<T>, bagAfter: multiset<T>,
                     k: multiset<T>)
    requires after + (bagBefore + k) == before + k + bagAfter
    ensures after + bagBefore == before + bagAfter
  {
    forall t ensures (after + bagBefore)[t] == (before + bagAfter)[t] {
      assert (after + (bagBefore + k))[t] == (before + k + bagAfter)[t];
    }
  }

  lemma EdgesToCons(parent: Employee, stroke: string, cs: seq<Employee>, index: nat)
    requires index < |cs|
    ensures EdgesTo(parent, stroke, cs[index..])
            == [EdgeBetween(parent, cs[index], stroke)] + EdgesTo(parent, stroke, cs[index + 1..])
  {
    var a, b := EdgesTo(parent, stroke, cs[index..]), EdgesTo(parent, stroke, cs[index + 1..]);
    forall k | 0 <= k < |a| ensures a[k] == ([EdgeBetween(parent, cs[index], stroke)] + b)[k] {
      if k > 0 {
        assert cs[index..][k] == cs[index + 1..][k - 1];
      }
    }
  }

  /** One step of the children's loop for `ChildrenPlaced`, on the lists alone. */
  lemma CombinePlaced(sn: seq<FlowNode>, wn: seq<FlowNode>, rn: seq<FlowNode>, wp: set<int>, rp: set<int>)
    requires sn <= wn && wn <= rn && wp <= rp
    requires ChildrenPlaced(wn[|sn|..], wp) && ChildrenPlaced(rn[|wn|..], rp)
    ensures ChildrenPlaced(rn[|sn|..], rp)
  {
    SliceJoin(sn, wn, rn);
    ChildrenPlacedJoin(wn[|sn|..], rn[|wn|..], wp, rp);
  }

  /** A suffix past a prefix splits at any longer prefix. */
  lemma SliceJoin<T>(a: seq<T>, b: seq<T>, c: seq<T>)
    requires a <= b && b <= c
    ensures c[|a|..] == b[|a|..] + c[|b|..]
  {
  }

  /** Every expanded node the walk places has its children placed too. */
  lemma {:induction false} WalkPlacesChildren(st: LayoutState, employee: Employee, level: int, parentX: int,
                                              siblingIndex: int, totalSiblings: int, isRoot: bool,
                                              expanded: set<string>)
    ensures var r := Walk(st, employee, level, parentX, siblingIndex, totalSiblings, isRoot, expanded);
            ChildrenPlaced(r.nodes[|st.nodes|..], r.processed)
    decreases employee, 1
  {
    var r := Walk(st, employee, level, parentX, siblingIndex, totalSiblings, isRoot, expanded);
    if employee.jobTitleCode !in st.processed {
      var preferredX := PreferredX(level, parentX, siblingIndex, totalSiblings, isRoot);
      var placed := PlaceNode(st, employee, level, preferredX, PreferredY(level), expanded);
      var node := placed.nodes[|st.nodes|];
      assert r.nodes[|st.nodes|..] == [node] + r.nodes[|placed.nodes|..];
      if |employee.children| > 0 && Id(employee.jobTitleCode) in expanded {
        WalkChildrenPlacesChildren(placed, employee, node.position.x, level, 0, expanded);
        WalkChildrenPlacesEach(placed, employee, node.position.x, level, 0, expanded);
        assert employee.children[0..] == employee.children;
        ChildrenPlacedJoin([node], r.nodes[|placed.nodes|..], r.processed, r.processed);
      } else {
        assert r.nodes[|placed.nodes|..] == [];
        ChildrenPlacedJoin([node], [], r.processed, r.processed);
      }
    }
  }

  lemma {:induction false} WalkChildrenPlacesChildren(st: LayoutState, parent: Employee, x: int, level: int,
                                                      index: nat, expanded: set<string>)
    requires index <= |parent.children|
    ensures var r := WalkChildren(st, parent, x, level, index, expanded);
            ChildrenPlaced(r.nodes[|st.nodes|..], r.processed)
    decreases parent, 0, |parent.children| - index
  {
    var r := WalkChildren(st, parent, x, level, index, expanded);
    var cs := parent.children;
    if index < |cs| {
      var linked := st.(edges := st.edges + [EdgeBetween(parent, cs[index], GetLevelBorderColor(level))]);
      var walked := Walk(linked, cs[index], level + 1, x, index, |cs|, false, expanded);
      WalkPlacesChildren(linked, cs[index], level + 1, x, index, |cs|, false, expanded);
      WalkChildrenPlacesChildren(walked, parent, x, level, index + 1, expanded);
      CombinePlaced(st.nodes, walked.nodes, r.nodes, walked.processed, r.processed);
    }
  }

  // ---------------------------------------------------------------------
  // The layout of a whole chart
  // ---------------------------------------------------------------------

  /** The `useMemo` result: nothing without data, otherwise the walk from
      the root on level 1 with the default arguments. */
  function Layout(companyData: Option<Employee>, expanded: set<string>): (r: LayoutState)
    ensures companyData.None? ==> r.nodes == [] && r.edges == []
    ensures companyData.Some? ==> companyData.value.jobTitleCode in r.processed && |r.nodes| >= 1
  {
    match companyData
    case None => EMPTY_STATE
    case Some(root) =>
      WalkPlacesEmployee(EMPTY_STATE, root, 1, 0, 0, 1, true, expanded);
      Walk(EMPTY_STATE, root, 1, 0, 0, 1, true, expanded)
  }

  lemma LayoutInv(companyData: Option<Employee>, expanded: set<string>)
    ensures Inv(Layout(companyData, expanded))
  {
    if companyData.Some? {
      WalkInv(EMPTY_STATE, companyData.value, 1, 0, 0, 1, true, expanded);
    }
  }

  /** The root is the first node, at the origin on level 1. */
  lemma LayoutRoot(root: Employee, expanded: set<string>)
    ensures var r := Layout(Some(root), expanded);
      && |r.nodes| >= 1 && |r.levels| >= 1 && r.levels[0] == 1
      && r.nodes[0] == FlowNode(Id(root.jobTitleCode), Point(0, 0), root, |root.children| > 0,
                                Id(root.jobTitleCode) in expanded, GetLevelBorderColor(1))
  {
    WalkPlacesEmployee(EMPTY_STATE, root, 1, 0, 0, 1, true, expanded);
    EmptyLevelTakesPreferred(0, 0);
  }

  /** A collapsed root is drawn alone. */
  lemma LayoutCollapsedRoot(root: Employee, expanded: set<string>)
    requires Id(root.jobTitleCode) !in expanded
    ensures |Layout(Some(root), expanded).nodes| == 1 && Layout(Some(root), expanded).edges == []
  {
  }

  /** The chart shows only visible employees, each once; on a tree with
      unique codes it shows every visible employee. */
  lemma LayoutShowsVisible(root: Employee, expanded: set<string>)
    ensures var r := Layout(Some(root), expanded);
      && NodeCodes(r.nodes) <= Visible(root, expanded)
      && (UniqueCodes(root) ==> NodeCodes(r.nodes) == Visible(root, expanded))
      && |r.nodes| <= |set c | c in Codes(root)|
  {
    var r := Layout(Some(root), expanded);
    LayoutInv(Some(root), expanded);
    WalkWithinVisible(EMPTY_STATE, root, 1, 0, 0, 1, true, expanded);
    if UniqueCodes(root) {
      WalkCoversVisible(EMPTY_STATE, root, 1, 0, 0, 1, true, expanded);
    }
    VisibleWithinTree(root, expanded);
    NodeCodesCard(r.nodes);
    SubsetCard(NodeCodes(r.nodes), set c | c in Codes(root));
  }

  /** No two nodes share an id. */
  lemma LayoutIdsDistinct(companyData: Option<Employee>, expanded: set<string>)
    ensures var r := Layout(companyData, expanded);
      forall i, j :: 0 <= i < j < |r.nodes| ==> r.nodes[i].id != r.nodes[j].id
  {
    var r := Layout(companyData, expanded);
    LayoutInv(companyData, expanded);
    forall i, j | 0 <= i < j < |r.nodes| ensures r.nodes[i].id != r.nodes[j].id {
      IdInjective(r.nodes[i].employee.jobTitleCode, r.nodes[j].employee.jobTitleCode);
    }
  }

  /** The edges are exactly those the nodes emit. */
  lemma LayoutEdgeBag(companyData: Option<Employee>, expanded: set<string>)
    ensures var r := Layout(companyData, expanded);
      multiset(r.edges) == EdgeBag(r.nodes)
  {
    if companyData.Some? {
      WalkEdgesFromEmpty(EMPTY_STATE, companyData.value, 1, 0, 0, 1, true, expanded);
    }
  }

  /** A walk from a state without nodes or edges emits exactly its nodes' edges. */
  lemma WalkEdgesFromEmpty(st: LayoutState, employee: Employee, level: int, parentX: int,
                           siblingIndex: int, totalSiblings: int, isRoot: bool, expanded: set<string>)
    requires st.nodes == [] && st.edges == []
    ensures var r := Walk(st, employee, level, parentX, siblingIndex, totalSiblings, isRoot, expanded);
            multiset(r.edges) == EdgeBag(r.nodes)
  {
    var r := Walk(st, employee, level, parentX, siblingIndex, totalSiblings, isRoot, expanded);
    WalkEdges(st, employee, level, parentX, siblingIndex, totalSiblings, isRoot, expanded);
    BagZero(multiset(r.edges), EdgeBag(r.nodes), EdgeBag(st.nodes), multiset(st.edges));
  }

  /** Empty bags on both sides of a balance drop out. */
  lemma BagZero<T>(a: multiset<T>, b: multiset<T>, zeroLeft: multiset<T>, zeroRight: multiset<T>)
    requires a + zeroLeft == zeroRight + b
    requires zeroLeft == multiset{} && zeroRight == multiset{}
    ensures a == b
  {
    assert a + zeroLeft == a && zeroRight + b == b;
  }

  /** Every edge joins two nodes of the chart. */
  lemma LayoutEdgesJoinNodes(companyData: Option<Employee>, expanded: set<string>)
    ensures var r := Layout(companyData, expanded);
      forall e :: e in r.edges ==> e.source in NodeIds(r.nodes) && e.target in NodeIds(r.nodes)
  {
    if companyData.Some? {
      var r := Layout(companyData, expanded);
      LayoutInv(companyData, expanded);
      LayoutEdgeBag(companyData, expanded);
      WalkPlacesChildren(EMPTY_STATE, companyData.value, 1, 0, 0, 1, true, expanded);
      assert r.nodes[0..] == r.nodes;
      forall e | e in r.edges ensures e.source in NodeIds(r.nodes) && e.target in NodeIds(r.nodes) {
        assert e in multiset(r.edges);
        EdgeEndsInNodes(r.nodes, r.processed, e);
      }
    }
  }

  /** An emitted edge of nodes whose expanded children are all placed
      leaves a node and reaches a node. */
  lemma EdgeEndsInNodes(ns: seq<FlowNode>, placed: set<int>, e: FlowEdge)
    requires Placed(ns, placed) && ChildrenPlaced(ns, placed) && e in EdgeBag(ns)
    ensures e.source in NodeIds(ns) && e.target in NodeIds(ns)
  {
    EdgeBagMember(ns, e);
    var k, c :| 0 <= k < |ns| && ns[k].hasChildren && ns[k].isExpanded &&
      c in ns[k].employee.children && e == EdgeBetween(ns[k].employee, c, ns[k].levelBorderColor);
    assert ns[k] in ns;
    var n :| n in ns && n.employee.jobTitleCode == c.jobTitleCode;
    var m :| 0 <= m < |ns| && ns[m] == n;
  }

  /** Two nodes of the same level, the later one placed on a free spot,
      are at least a card plus the gaps apart on one axis. */
  lemma LayoutSpacing(companyData: Option<Employee>, expanded: set<string>)
    ensures var r := Layout(companyData, expanded);
      && |r.levels| == |r.nodes| && |r.placedFree| == |r.nodes|
      && forall i, j :: 0 <= i < j < |r.nodes| && r.levels[i] == r.levels[j] && r.placedFree[j] ==>
           Apart(r.nodes[i].position, r.nodes[j].position)
  {
    var r := Layout(companyData, expanded);
    LayoutInv(companyData, expanded);
    forall i, j | 0 <= i < j < |r.nodes| && r.levels[i] == r.levels[j] && r.placedFree[j]
      ensures Apart(r.nodes[i].position, r.nodes[j].position)
    {
      DisjointFootprintsApart(r.nodes[i].position, r.nodes[j].position);
    }
  }

  // ---------------------------------------------------------------------
  // The builder: the state `useMemo` threads through `processEmployee`
  // ---------------------------------------------------------------------

  /** The node and edge lists, the set of codes already placed and the
      per-level occupancy grid, with the expanded ids the walk reads.
      The ghost fields record, for each node, the level it was placed on
      and whether its spot was free at the time. */
  class LayoutBuilder {
    var nodes: seq<FlowNode>
    var edges: seq<FlowEdge>
    var processed: set<int>
    var occupied: map<int, set<Cell>>
    const expanded: set<string>
    ghost var levels: seq<int>
    ghost var placedFree: seq<bool>

    /** The builder's fields as a layout state. */
    ghost function State(): LayoutState
      reads this
    {
      LayoutState(nodes, edges, processed, occupied, levels, placedFree)
    }

    /** The cells reserved on `level` so far (none when it has no set). */
    function Cells(level: int): set<Cell>
      reads this`occupied
    {
      CellsAt(occupied, level)
    }

    constructor(expanded: set<string>)
      ensures State() == EMPTY_STATE && this.expanded == expanded
    {
      this.expanded := expanded;
      nodes, edges, processed, occupied := [], [], {}, map[];
      levels, placedFree := [], [];
    }

    /** `isSpaceOccupied(level, x, y)`: whether any grid key of the card's
        area is already reserved on `level`. A level without a set gets an
        empty one. */
    method IsSpaceOccupied(level: int, x: int, y: int) returns (taken: bool)
      modifies this`occupied
      ensures occupied == old(occupied)[level := old(Cells(level))]
      ensures level in old(occupied) ==> occupied == old(occupied)
      ensures taken <==> !Free(Point(x, y), Cells(level))
    {
      if level !in occupied {
        occupied := occupied[level := {}];
      }
      var levelSpaces := occupied[level];
      var checkX := x - HALF_SPAN_X;
      ghost var i := 0;
      while checkX <= x + HALF_SPAN_X
        invariant 0 <= i <= 8 && checkX == x - HALF_SPAN_X + GRID * i
        invariant forall i', j' :: 0 <= i' < i && 0 <= j' < 7 ==> FootCell(x, y, i', j') !in levelSpaces
        decreases x + HALF_SPAN_X - checkX
      {
        var checkY := y - HALF_SPAN_Y;
        ghost var j := 0;
        while checkY <= y + HALF_SPAN_Y
          invariant 0 <= j <= 7 && checkY == y - HALF_SPAN_Y + GRID * j
          invariant forall i', j' :: 0 <= i' < i && 0 <= j' < 7 ==> FootCell(x, y, i', j') !in levelSpaces
          invariant forall j' :: 0 <= j' < j ==> FootCell(x, y, i, j') !in levelSpaces
          decreases y + HALF_SPAN_Y - checkY
        {
          var spaceKey := Cell(Round50(checkX), Round50(checkY));
          if spaceKey in levelSpaces {
            assert spaceKey == FootCell(x, y, i, j) && spaceKey in Footprint(Point(x, y));
            return true;
          }
          checkY := checkY + GRID;
          j := j + 1;
        }
        checkX := checkX + GRID;
        i := i + 1;
      }
      return false;
    }

    /** `reserveSpace(level, x, y)`: adds the card's area to the level's
        set; every other level is unchanged. */
    method ReserveSpace(level: int, x: int, y: int)
      modifies this`occupied
      ensures occupied == old(occupied)[level := old(Cells(level)) + Footprint(Point(x, y))]
      ensures !Free(Point(x, y), Cells(level))
    {
      if level !in occupied {
        occupied := occupied[level := {}];
      }
      var levelSpaces := occupied[level];
      ghost var before := levelSpaces;
      var reserveX := x - HALF_SPAN_X;
      ghost var i := 0;
      while reserveX <= x + HALF_SPAN_X
        invariant 0 <= i <= 8 && reserveX == x - HALF_SPAN_X + GRID * i
        invariant levelSpaces == before + Columns(x, y, i)
        invariant occupied == old(occupied)[level := old(Cells(level))]
        decreases x + HALF_SPAN_X - reserveX
      {
        var reserveY := y - HALF_SPAN_Y;
        ghost var j := 0;
        while reserveY <= y + HALF_SPAN_Y
          invariant 0 <= j <= 7 && reserveY == y - HALF_SPAN_Y + GRID * j
          invariant levelSpaces == before + Columns(x, y, i) + ColumnPart(x, y, i, j)
          invariant occupied == old(occupied)[level := old(Cells(level))]
          decreases y + HALF_SPAN_Y - reserveY
        {
          var spaceKey := Cell(Round50(reserveX), Round50(reserveY));
          ColumnPartStep(x, y, i, j);
          levelSpaces := levelSpaces + {spaceKey};
          reserveY := reserveY + GRID;
          j := j + 1;
        }
        ColumnsStep(x, y, i);
        reserveX := reserveX + GRID;
        i := i + 1;
      }
      occupied := occupied[level := levelSpaces];
      assert FootCell(x, y, 0, 0) in Footprint(Point(x, y));
    }

    /** The inner loop of `findBestPosition`: the first of `positions`
        whose area is free on `level`. */
    method FirstFreeCandidate(level: int, positions: seq<Point>) returns (found: Option<Point>)
      modifies this`occupied
      ensures occupied == old(occupied)[level := old(Cells(level))]
      ensures level in old(occupied) ==> occupied == old(occupied)
      ensures found == FirstFree(positions, Cells(level))
    {
      ghost var cells := old(Cells(level));
      for k := 0 to |positions|
        invariant occupied == old(occupied)[level := old(Cells(level))] || (k == 0 && occupied == old(occupied))
        invariant Cells(level) == cells
        invariant FirstFree(positions, cells) == FirstFree(positions[k..], cells)
      {
        var pos := positions[k];
        var taken := IsSpaceOccupied(level, pos.x, pos.y);
        if !taken {
          return Some(pos);
        }
        assert positions[k..][1..] == positions[k + 1..];
      }
      if level !in occupied {
        occupied := occupied[level := {}];
      }
      return None;
    }

    /** `findBestPosition(level, preferredX, preferredY)`. */
    method FindBestPosition(level: int, preferredX: int, preferredY: int) returns (pos: Point)
      modifies this`occupied
      ensures occupied == old(occupied)[level := old(Cells(level))]
      ensures pos == BestPosition(preferredX, preferredY, Cells(level))
    {
      var taken := IsSpaceOccupied(level, preferredX, preferredY);
      if !taken {
        return Point(preferredX, preferredY);
      }
      var bestX, bestY := preferredX, preferredY;
      ghost var cells := Cells(level);
      ghost var grid := occupied;
      for attempt := 1 to MAX_ATTEMPTS + 1
        invariant occupied == grid && level in grid && cells == Cells(level)
        invariant FirstFree(Rings(preferredX, preferredY, 1), cells) == FirstFree(Rings(preferredX, preferredY, attempt), cells)
      {
        var positions := Candidates(preferredX, preferredY, attempt);
        var found := FirstFreeCandidate(level, positions);
        RingsSearchStep(preferredX, preferredY, attempt, cells);
        if found.Some? {
          return found.value;
        }
      }
      return Point(bestX, bestY);
    }

    /** The part of `processEmployee` that places one employee: its code
        is marked processed, the best position around its preferred point
        is found and reserved, and its node is pushed. */
    method PlaceEmployee(employee: Employee, level: int, parentX: int, siblingIndex: int,
                         totalSiblings: int, isRoot: bool) returns (node: FlowNode)
      modifies this
      ensures var preferredX := PreferredX(level, parentX, siblingIndex, totalSiblings, isRoot);
        && node == NewNode(old(State()), employee, level, preferredX, PreferredY(level), expanded)
        && State() == PlaceNode(old(State()), employee, level, preferredX, PreferredY(level), expanded)
    {
      ghost var st := State();
      ghost var grid := occupied;
      processed := processed + {employee.jobTitleCode};

      var preferredX := PreferredX(level, parentX, siblingIndex, totalSiblings, isRoot);
      var preferredY := PreferredY(level);
      var pos := FindBestPosition(level, preferredX, preferredY);
      ghost var looked := occupied;
      ghost var free := Free(pos, Cells(level));
      ReserveSpace(level, pos.x, pos.y);
      LookupThenReserve(grid, looked, occupied, level, Footprint(pos));
      PlaceNodeAt(st, employee, level, preferredX, preferredY, expanded, pos);

      var hasChildren := |employee.children| > 0;
      var isExpanded := Id(employee.jobTitleCode) in expanded;
      node := FlowNode(Id(employee.jobTitleCode), pos, employee, hasChildren, isExpanded, GetLevelBorderColor(level));
      nodes := nodes + [node];
      levels := levels + [level];
      placedFree := placedFree + [free];
    }

    /** `processEmployee(employee, level, parentX, siblingIndex,
        totalSiblings, isRoot, groupStartX)`: the new state is the walk
        from the old one. `groupStartX` is never read. */
    method ProcessEmployee(employee: Employee, level: int, parentX: int, siblingIndex: int,
                           totalSiblings: int, isRoot: bool, groupStartX: int)
      modifies this
      ensures State() == Walk(old(State()), employee, level, parentX, siblingIndex, totalSiblings, isRoot, expanded)
      decreases employee
    {
      if employee.jobTitleCode in processed {
        return;
      }
      ghost var target := Walk(State(), employee, level, parentX, siblingIndex, totalSiblings, isRoot, expanded);
      WalkStep(State(), employee, level, parentX, siblingIndex, totalSiblings, isRoot, expanded);
      var node := PlaceEmployee(employee, level, parentX, siblingIndex, totalSiblings, isRoot);

      if node.hasChildren && node.isExpanded {
        var children := employee.children;
        var childrenCount := |children|;
        for index := 0 to childrenCount
          invariant WalkChildren(State(), employee, node.position.x, level, index, expanded) == target
        {
          var child := children[index];
          WalkChildrenStep(State(), employee, node.position.x, level, index, expanded);
          edges := edges + [EdgeBetween(employee, child, GetLevelBorderColor(level))];
          ProcessEmployee(child, level + 1, node.position.x, index, childrenCount, false,
                          node.position.x - (childrenCount * SIBLING_PITCH) / 2);
        }
      }
    }
  }

  /** The `useMemo` builder: its nodes and edges are those of the layout
      of the chart data. */
  method BuildLayout(companyData: Option<Employee>, expanded: set<string>)
    returns (nodes: seq<FlowNode>, edges: seq<FlowEdge>)
    ensures nodes == Layout(companyData, expanded).nodes && edges == Layout(companyData, expanded).edges
    ensures companyData.None? ==> nodes == [] && edges == []
  {
    if companyData.None? {
      return [], [];
    }
    var builder := new LayoutBuilder(expanded);
    builder.ProcessEmployee(companyData.value, 1, 0, 0, 1, true, 0);
    nodes, edges := builder.nodes, builder.edges;
  }
}
