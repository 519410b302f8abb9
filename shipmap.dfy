/**
 * The ship-map generator of SeaBattle (generateRandomShipMap, isPointFree,
 * canPutHorizontal, canPutVertical).
 *
 * The generator works on a map with a one-cell border: rows and columns run
 * from -1 to BOARD_SIZE, so that the neighbour scans never leave the map. Here
 * that map is a 12 x 12 array2 and the source's cell (column c, row r) is
 * stored at m[r + 1, c + 1].
 */
module ShipMap {
  import opened Config

  /** Rows (and columns) of the padded map. */
  const SIDE: int := BOARD_SIZE + 2

  /** A position inside the padded map, border included. */
  predicate InPadded(c: int, r: int) {
    -1 <= c <= BOARD_SIZE && -1 <= r <= BOARD_SIZE
  }

  predicate IsPadded(m: array2<int>) {
    m.Length0 == SIDE && m.Length1 == SIDE
  }

  /** The source's map[r][c]. */
  function At(m: array2<int>, c: int, r: int): int
    reads m
    requires IsPadded(m) && InPadded(c, r)
  {
    m[r + 1, c + 1]
  }

  /** Every cell is empty or occupied, and the border is empty. */
  ghost predicate IsShipMap(m: array2<int>)
    reads m
  {
    IsPadded(m) &&
    (forall c, r :: InPadded(c, r) ==> At(m, c, r) == CELL_EMPTY || At(m, c, r) == CELL_OCCUPIED) &&
    (forall c, r :: InPadded(c, r) && !OnBoard(Coord(c, r)) ==> At(m, c, r) == CELL_EMPTY)
  }

  /** The occupied cells of a padded map. */
  ghost function Occupied(m: array2<int>): set<Coord>
    reads m
    requires IsPadded(m)
  {
    set c, r | -1 <= c <= BOARD_SIZE && -1 <= r <= BOARD_SIZE && At(m, c, r) == CELL_OCCUPIED :: Coord(c, r)
  }

  lemma OccupiedMembers(m: array2<int>)
    requires IsPadded(m)
    ensures forall p: Coord :: p in Occupied(m) <==> InPadded(p.x, p.y) && At(m, p.x, p.y) == CELL_OCCUPIED
  {
    forall p: Coord | InPadded(p.x, p.y) && At(m, p.x, p.y) == CELL_OCCUPIED
      ensures p in Occupied(m)
    {
      assert p == Coord(p.x, p.y);
    }
  }

  /** c is a board cell of m that is not empty. */
  ghost predicate IsShipCell(m: array2<int>, c: Coord)
    reads m
  {
    IsPadded(m) && OnBoard(c) && At(m, c.x, c.y) != CELL_EMPTY
  }

  /** On a ship map, the occupied cells are exactly the board cells that are not empty. */
  lemma OccupiedShipCells(m: array2<int>)
    requires IsShipMap(m)
    ensures forall c :: c in Occupied(m) <==> IsShipCell(m, c)
  {
    OccupiedMembers(m);
  }

  /** The cells in the rectangle [x0, x1] x [y0, y1] are all empty. */
  ghost predicate RectEmpty(m: array2<int>, x0: int, y0: int, x1: int, y1: int)
    reads m
    requires IsPadded(m) && -1 <= x0 && x1 <= BOARD_SIZE && -1 <= y0 && y1 <= BOARD_SIZE
  {
    forall c, r :: x0 <= c <= x1 && y0 <= r <= y1 ==> At(m, c, r) == CELL_EMPTY
  }

  /**
   * isPointFree: the point and its eight neighbours are empty, inspected in
   * the source's order.
   */
  predicate IsPointFree(m: array2<int>, c: int, r: int)
    reads m
    requires IsPadded(m) && OnBoard(Coord(c, r))
  {
    At(m, c, r) == CELL_EMPTY &&
    At(m, c - 1, r) == CELL_EMPTY &&
    At(m, c - 1, r + 1) == CELL_EMPTY &&
    At(m, c, r + 1) == CELL_EMPTY &&
    At(m, c + 1, r + 1) == CELL_EMPTY &&
    At(m, c + 1, r) == CELL_EMPTY &&
    At(m, c + 1, r - 1) == CELL_EMPTY &&
    At(m, c, r - 1) == CELL_EMPTY &&
    At(m, c - 1, r - 1) == CELL_EMPTY
  }

  /** IsPointFree holds exactly when the 3 x 3 square centred on the point is empty. */
  lemma IsPointFreeIff(m: array2<int>, c: int, r: int)
    requires IsPadded(m) && OnBoard(Coord(c, r))
    ensures IsPointFree(m, c, r) <==> RectEmpty(m, c - 1, r - 1, c + 1, r + 1)
  {
  }

  /** The six cells canPutHorizontal inspects for column x, in its order. */
  function HorizontalCorridor(x: int, r: int): seq<Coord> {
    [Coord(x, r), Coord(x, r - 1), Coord(x + 1, r - 1), Coord(x + 1, r), Coord(x + 1, r + 1), Coord(x, r + 1)]
  }

  /**
   * The six cells canPutVertical inspects for row y, in its order. Unlike the
   * horizontal corridor it looks at (c - 1, y - 1), not at (c - 1, y + 1).
   */
  function VerticalCorridor(c: int, y: int): seq<Coord> {
    [Coord(c, y), Coord(c + 1, y), Coord(c + 1, y + 1), Coord(c, y + 1), Coord(c - 1, y), Coord(c - 1, y - 1)]
  }

  predicate AllInPadded(cells: seq<Coord>) {
    forall k :: 0 <= k < |cells| ==> InPadded(cells[k].x, cells[k].y)
  }

  predicate CellsEmpty(m: array2<int>, cells: seq<Coord>)
    reads m
    requires IsPadded(m) && AllInPadded(cells)
  {
    forall k :: 0 <= k < |cells| ==> At(m, cells[k].x, cells[k].y) == CELL_EMPTY
  }

  /**
   * What canPutHorizontal accepts: the ship ends inside the board and the
   * corridor of each of its columns is empty.
   */
  ghost predicate HorizontalFits(m: array2<int>, c: int, r: int, len: nat)
    reads m
    requires IsPadded(m) && OnBoard(Coord(c, r))
  {
    c + len <= BOARD_SIZE &&
    forall x :: c <= x < c + len ==> CellsEmpty(m, HorizontalCorridor(x, r))
  }

  /** What canPutVertical accepts, with the vertical corridor. */
  ghost predicate VerticalFits(m: array2<int>, c: int, r: int, len: nat)
    reads m
    requires IsPadded(m) && OnBoard(Coord(c, r))
  {
    r + len <= BOARD_SIZE &&
    forall y :: r <= y < r + len ==> CellsEmpty(m, VerticalCorridor(c, y))
  }

  /**
   * The ring a vertical ship and its neighbours occupy, less the one cell
   * whose content never affects the vertical scan's answer: the lower-left
   * corner (c - 1, r + len). The scan reads it only in rows r + len and
   * r + len + 1, once it has already counted len free rows.
   */
  ghost predicate VerticalRingEmpty(m: array2<int>, c: int, r: int, len: nat)
    reads m
    requires IsPadded(m) && OnBoard(Coord(c, r)) && r + len <= BOARD_SIZE
  {
    forall cc, rr ::
      c - 1 <= cc <= c + 1 && r - 1 <= rr <= r + len && !(cc == c - 1 && rr == r + len) ==>
        At(m, cc, rr) == CELL_EMPTY
  }

  /**
   * canPutHorizontal: scans columns from c to the right edge, counting the
   * columns whose corridor is empty and stopping at the first that is not;
   * the ship fits when that count reaches its length.
   */
  method CanPutHorizontal(m: array2<int>, c: int, r: int, shipLength: nat) returns (ok: bool)
    requires IsPadded(m) && OnBoard(Coord(c, r))
    ensures ok <==> HorizontalFits(m, c, r, shipLength)
  {
    var freePoints := 0;
    var x := c;
    while x < BOARD_SIZE
      invariant c <= x <= BOARD_SIZE
      invariant freePoints == x - c
      invariant forall x' :: c <= x' < x ==> CellsEmpty(m, HorizontalCorridor(x', r))
    {
      var corridor := HorizontalCorridor(x, r);
      var isFree := true;
      var k := 0;
      while k < |corridor|
        invariant 0 <= k <= |corridor|
        invariant forall j :: 0 <= j < k ==> At(m, corridor[j].x, corridor[j].y) == CELL_EMPTY
      {
        if At(m, corridor[k].x, corridor[k].y) != CELL_EMPTY {
          isFree := false;
          break;
        }
        k := k + 1;
      }
      if isFree {
        freePoints := freePoints + 1;
      } else {
        break;
      }
      x := x + 1;
    }
    ok := freePoints >= shipLength;
  }

  /** canPutVertical: the same scan downwards from row r with the vertical corridor. */
  method CanPutVertical(m: array2<int>, c: int, r: int, shipLength: nat) returns (ok: bool)
    requires IsPadded(m) && OnBoard(Coord(c, r))
    ensures ok <==> VerticalFits(m, c, r, shipLength)
  {
    var freePoints := 0;
    var y := r;
    while y < BOARD_SIZE
      invariant r <= y <= BOARD_SIZE
      invariant freePoints == y - r
      invariant forall y' :: r <= y' < y ==> CellsEmpty(m, VerticalCorridor(c, y'))
    {
      var corridor := VerticalCorridor(c, y);
      var isFree := true;
      var k := 0;
      while k < |corridor|
        invariant 0 <= k <= |corridor|
        invariant forall j :: 0 <= j < k ==> At(m, corridor[j].x, corridor[j].y) == CELL_EMPTY
      {
        if At(m, corridor[k].x, corridor[k].y) != CELL_EMPTY {
          isFree := false;
          break;
        }
        k := k + 1;
      }
      if isFree {
        freePoints := freePoints + 1;
      } else {
        break;
      }
      y := y + 1;
    }
    ok := freePoints >= shipLength;
  }

  /**
   * A horizontal ship of at least one cell is accepted exactly when it ends
   * inside the board and it and the whole ring around it are empty.
   */
  lemma HorizontalPlacementIff(m: array2<int>, c: int, r: int, len: nat)
    requires IsPadded(m) && OnBoard(Coord(c, r)) && len >= 1
    ensures IsPointFree(m, c, r) && HorizontalFits(m, c, r, len) <==>
            c + len <= BOARD_SIZE && RectEmpty(m, c - 1, r - 1, c + len, r + 1)
  {
    IsPointFreeIff(m, c, r);
    if IsPointFree(m, c, r) && HorizontalFits(m, c, r, len) {
      forall cc, rr | c - 1 <= cc <= c + len && r - 1 <= rr <= r + 1
        ensures At(m, cc, rr) == CELL_EMPTY
      {
        if cc > c + 1 {
          var corridor := HorizontalCorridor(cc - 1, r);
          assert CellsEmpty(m, corridor);
          if rr == r - 1 {
            assert corridor[2] == Coord(cc, rr);
          } else if rr == r {
            assert corridor[3] == Coord(cc, rr);
          } else {
            assert corridor[4] == Coord(cc, rr);
          }
        }
      }
    }
    if c + len <= BOARD_SIZE && RectEmpty(m, c - 1, r - 1, c + len, r + 1) {
      forall x | c <= x < c + len
        ensures CellsEmpty(m, HorizontalCorridor(x, r))
      {
        var corridor := HorizontalCorridor(x, r);
        forall k | 0 <= k < |corridor|
          ensures At(m, corridor[k].x, corridor[k].y) == CELL_EMPTY
        {
          assert c - 1 <= corridor[k].x <= c + len && r - 1 <= corridor[k].y <= r + 1;
        }
      }
    }
  }

  /**
   * A vertical ship of at least two cells is accepted exactly when it ends
   * inside the board and its ring is empty except, possibly, the lower-left
   * corner (c - 1, r + len). That corner touches the ship's last cell
   * diagonally, so a vertical ship may be placed diagonally next to another.
   */
  lemma VerticalPlacementIff(m: array2<int>, c: int, r: int, len: nat)
    requires IsPadded(m) && OnBoard(Coord(c, r)) && len >= 2
    ensures IsPointFree(m, c, r) && VerticalFits(m, c, r, len) <==>
            r + len <= BOARD_SIZE && VerticalRingEmpty(m, c, r, len)
  {
    IsPointFreeIff(m, c, r);
    if IsPointFree(m, c, r) && VerticalFits(m, c, r, len) {
      forall cc, rr | c - 1 <= cc <= c + 1 && r - 1 <= rr <= r + len && !(cc == c - 1 && rr == r + len)
        ensures At(m, cc, rr) == CELL_EMPTY
      {
        if rr > r + 1 {
          if cc == c - 1 {
            var corridor := VerticalCorridor(c, rr);
            assert CellsEmpty(m, corridor);
            assert corridor[4] == Coord(cc, rr);
          } else {
            var corridor := VerticalCorridor(c, rr - 1);
            assert CellsEmpty(m, corridor);
            if cc == c {
              assert corridor[3] == Coord(cc, rr);
            } else {
              assert corridor[2] == Coord(cc, rr);
            }
          }
        }
      }
    }
    if r + len <= BOARD_SIZE && VerticalRingEmpty(m, c, r, len) {
      forall cc, rr | c - 1 <= cc <= c + 1 && r - 1 <= rr <= r + 1
        ensures At(m, cc, rr) == CELL_EMPTY
      {
        assert !(cc == c - 1 && rr == r + len);
      }
      forall y | r <= y < r + len
        ensures CellsEmpty(m, VerticalCorridor(c, y))
      {
        var corridor := VerticalCorridor(c, y);
        forall k | 0 <= k < |corridor|
          ensures At(m, corridor[k].x, corridor[k].y) == CELL_EMPTY
        {
          assert c - 1 <= corridor[k].x <= c + 1 && r - 1 <= corridor[k].y <= r + len;
          assert !(corridor[k].x == c - 1 && corridor[k].y == r + len);
        }
      }
    }
  }

  datatype Orientation = Horizontal | Vertical

  /** Cell j of a ship laid from origin in direction o. */
  function ShipCell(origin: Coord, j: int, o: Orientation): Coord {
    if o == Horizontal then Coord(origin.x + j, origin.y) else Coord(origin.x, origin.y + j)
  }

  /** p lies on the straight segment of len cells starting at origin in direction o. */
  predicate InLine(origin: Coord, len: nat, o: Orientation, p: Coord) {
    if o == Horizontal then p.y == origin.y && origin.x <= p.x < origin.x + len
    else p.x == origin.x && origin.y <= p.y < origin.y + len
  }

  /** The cells of a ship: exactly len cells, all on one straight segment. */
  function ShipCells(origin: Coord, len: nat, o: Orientation): (cells: set<Coord>)
    ensures |cells| == len
    ensures forall p :: p in cells <==> InLine(origin, len, o, p)
  {
    if len == 0 then {} else ShipCells(origin, len - 1, o) + {ShipCell(origin, len - 1, o)}
  }

  /** A ship laid on a map: its first cell, its length and its direction. */
  datatype Ship = Ship(origin: Coord, len: nat, o: Orientation)

  function Cells(ship: Ship): set<Coord> {
    ShipCells(ship.origin, ship.len, ship.o)
  }

  /** The cells of all the ships of a fleet. */
  function FleetUnion(fleet: seq<Ship>): set<Coord> {
    if fleet == [] then {} else FleetUnion(fleet[..|fleet| - 1]) + Cells(fleet[|fleet| - 1])
  }

  /** The lengths of the ships of a fleet, in order. */
  function Lengths(fleet: seq<Ship>): (r: seq<nat>)
    ensures |r| == |fleet|
  {
    if fleet == [] then [] else Lengths(fleet[..|fleet| - 1]) + [fleet[|fleet| - 1].len]
  }

  /** No two ships of the fleet share a cell. */
  predicate PairwiseDisjoint(fleet: seq<Ship>) {
    forall i, j :: 0 <= i < j < |fleet| ==> Cells(fleet[i]) !! Cells(fleet[j])
  }

  /**
   * The fleet was laid apart: no ship shares a cell with an earlier ship, nor
   * has a cell of one in its ring (see RingClear), save the one corner the
   * vertical scan never rules out.
   */
  predicate Separated(fleet: seq<Ship>) {
    fleet == [] ||
    var init, last := fleet[..|fleet| - 1], fleet[|fleet| - 1];
    Separated(init) && Cells(last) !! FleetUnion(init) && RingClear(FleetUnion(init), last)
  }

  /** Every ship's cells lie within the cells of its fleet. */
  lemma {:induction false} FleetUnionCovers(fleet: seq<Ship>, j: int)
    requires 0 <= j < |fleet|
    ensures Cells(fleet[j]) <= FleetUnion(fleet)
    decreases |fleet|
  {
    if j < |fleet| - 1 {
      var init := fleet[..|fleet| - 1];
      FleetUnionCovers(init, j);
      assert init[j] == fleet[j];
    }
  }

  /** In a fleet laid apart a ship shares no cell with an earlier one. */
  lemma {:induction false} SeparatedPair(fleet: seq<Ship>, i: int, j: int)
    requires Separated(fleet) && 0 <= i < j < |fleet|
    ensures Cells(fleet[i]) !! Cells(fleet[j])
    decreases |fleet|
  {
    var init := fleet[..|fleet| - 1];
    assert init[i] == fleet[i];
    if j == |fleet| - 1 {
      FleetUnionCovers(init, i);
    } else {
      SeparatedPair(init, i, j);
      assert init[j] == fleet[j];
    }
  }

  /** In a fleet laid apart no two ships share a cell. */
  lemma SeparatedDisjoint(fleet: seq<Ship>)
    requires Separated(fleet)
    ensures PairwiseDisjoint(fleet)
  {
    forall i, j | 0 <= i < j < |fleet|
      ensures Cells(fleet[i]) !! Cells(fleet[j])
    {
      SeparatedPair(fleet, i, j);
    }
  }

  /** A fleet laid apart covers as many cells as its ships' lengths add up to. */
  lemma {:induction false} SeparatedCount(fleet: seq<Ship>)
    requires Separated(fleet)
    ensures |FleetUnion(fleet)| == Sum(Lengths(fleet))
    decreases |fleet|
  {
    if fleet != [] {
      SeparatedCount(fleet[..|fleet| - 1]);
    }
  }

  /**
   * A ship that shares no cell with a fleet laid apart, and whose ring holds
   * none of its cells, keeps it laid apart and adds its cells and its length.
   */
  lemma AddShip(fleet: seq<Ship>, ship: Ship)
    requires Separated(fleet) && Cells(ship) !! FleetUnion(fleet) && RingClear(FleetUnion(fleet), ship)
    ensures Separated(fleet + [ship])
    ensures FleetUnion(fleet + [ship]) == FleetUnion(fleet) + Cells(ship)
    ensures Lengths(fleet + [ship]) == Lengths(fleet) + [ship.len]
  {
    var f := fleet + [ship];
    assert Separated(f) by {
      assert f[..|f| - 1] == fleet && f[|f| - 1] == ship;
    }
    assert FleetUnion(f) == FleetUnion(fleet) + Cells(ship) by {
      assert f[..|f| - 1] == fleet && f[|f| - 1] == ship;
    }
    assert Lengths(f) == Lengths(fleet) + [ship.len] by {
      assert f[..|f| - 1] == fleet && f[|f| - 1] == ship;
    }
  }

  /**
   * One more ship of length len, laid apart from the fleet, extends the ship
   * lengths prefix + Repeat(i, len) to prefix + Repeat(i + 1, len).
   */
  lemma AddShipOfLength(fleet: seq<Ship>, ship: Ship, prefix: seq<nat>, i: nat, len: nat)
    requires Separated(fleet) && Cells(ship) !! FleetUnion(fleet) && RingClear(FleetUnion(fleet), ship)
    requires Lengths(fleet) == prefix + Repeat(i, len) && ship.len == len
    ensures Separated(fleet + [ship])
    ensures FleetUnion(fleet + [ship]) == FleetUnion(fleet) + Cells(ship)
    ensures Lengths(fleet + [ship]) == prefix + Repeat(i + 1, len)
  {
    AddShip(fleet, ship);
    assert prefix + Repeat(i, len) + [len] == prefix + (Repeat(i, len) + [len]);
  }

  /** The write loops of generateRandomShipMap: mark the ship's cells occupied. */
  method WriteShip(m: array2<int>, origin: Coord, len: nat, o: Orientation)
    requires IsPadded(m)
    requires forall p :: InLine(origin, len, o, p) ==> OnBoard(p)
    modifies m
    ensures forall cc, rr :: InPadded(cc, rr) ==>
      At(m, cc, rr) == if InLine(origin, len, o, Coord(cc, rr)) then CELL_OCCUPIED else old(At(m, cc, rr))
  {
    var j := 0;
    while j < len
      invariant 0 <= j <= len
      invariant forall cc, rr :: InPadded(cc, rr) ==>
        At(m, cc, rr) == if InLine(origin, j, o, Coord(cc, rr)) then CELL_OCCUPIED else old(At(m, cc, rr))
    {
      assert OnBoard(ShipCell(origin, j, o));
      if o == Horizontal {
        m[origin.y + 1, origin.x + j + 1] := CELL_OCCUPIED;
      } else {
        m[origin.y + j + 1, origin.x + 1] := CELL_OCCUPIED;
      }
      j := j + 1;
    }
  }

  /** The cells a ship that passed a scan will cover lie on the board and are empty. */
  lemma FitsCellsEmpty(m: array2<int>, c: int, r: int, len: nat, o: Orientation)
    requires IsPadded(m) && OnBoard(Coord(c, r))
    requires if o == Horizontal then HorizontalFits(m, c, r, len) else VerticalFits(m, c, r, len)
    ensures forall p :: InLine(Coord(c, r), len, o, p) ==> OnBoard(p) && At(m, p.x, p.y) == CELL_EMPTY
  {
    forall p | InLine(Coord(c, r), len, o, p)
      ensures OnBoard(p) && At(m, p.x, p.y) == CELL_EMPTY
    {
      if o == Horizontal {
        assert HorizontalCorridor(p.x, r)[0] == p;
      } else {
        assert VerticalCorridor(c, p.y)[0] == p;
      }
    }
  }

  /** Lay a ship over empty board cells: the occupied set grows by exactly the ship. */
  method PlaceShip(m: array2<int>, origin: Coord, len: nat, o: Orientation)
    requires IsShipMap(m)
    requires forall p :: InLine(origin, len, o, p) ==> OnBoard(p) && At(m, p.x, p.y) == CELL_EMPTY
    modifies m
    ensures IsShipMap(m)
    ensures ShipCells(origin, len, o) !! old(Occupied(m))
    ensures Occupied(m) == old(Occupied(m)) + ShipCells(origin, len, o)
  {
    ghost var before := Occupied(m);
    ghost var ship := ShipCells(origin, len, o);
    OccupiedMembers(m);
    WriteShip(m, origin, len, o);
    assert IsShipMap(m);
    OccupiedMembers(m);
    forall p: Coord
      ensures p in Occupied(m) <==> p in before || p in ship
    {
      if InPadded(p.x, p.y) {
        assert At(m, p.x, p.y) == if p in ship then CELL_OCCUPIED else old(At(m, p.x, p.y));
      }
    }
  }

  /** p lies in the rectangle [x0, x1] x [y0, y1]. */
  predicate InRect(p: Coord, x0: int, y0: int, x1: int, y1: int) {
    x0 <= p.x <= x1 && y0 <= p.y <= y1
  }

  /** p lies in the ring VerticalRingEmpty inspects for a vertical ship at (c, r) of len cells. */
  predicate InVerticalRing(p: Coord, c: int, r: int, len: nat) {
    InRect(p, c - 1, r - 1, c + 1, r + len) && !(p.x == c - 1 && p.y == r + len)
  }

  /**
   * p lies in the ring the scans inspect around ship: the whole ring for a
   * horizontal ship, the ring less the corner (c - 1, r + len) for a vertical
   * one.
   */
  predicate InRing(p: Coord, ship: Ship) {
    var c, r, len := ship.origin.x, ship.origin.y, ship.len;
    if ship.o == Horizontal then InRect(p, c - 1, r - 1, c + len, r + 1) else InVerticalRing(p, c, r, len)
  }

  /**
   * The ship was laid clear of occupied: a vertical ship has at least two
   * cells (a free origin always takes a one-cell ship horizontally, see
   * OneCellIsHorizontal), and no cell of occupied lies in the ring around a
   * ship of one cell or more.
   */
  predicate RingClear(occupied: set<Coord>, ship: Ship) {
    (ship.o == Vertical ==> ship.len >= 2) &&
    (ship.len >= 1 ==> forall p {:trigger InRing(p, ship)} :: p in occupied ==> !InRing(p, ship))
  }

  /** The horizontal corridor of a one-cell ship lies inside the 3 x 3 square isPointFree tests. */
  lemma OneCellIsHorizontal(m: array2<int>, c: int, r: int)
    requires IsPadded(m) && OnBoard(Coord(c, r)) && IsPointFree(m, c, r)
    ensures HorizontalFits(m, c, r, 1)
  {
    var corridor := HorizontalCorridor(c, r);
    assert CellsEmpty(m, corridor);
  }

  /** On a ship map, a rectangle is empty exactly when no occupied cell lies in it. */
  lemma RectEmptyOccupied(m: array2<int>, x0: int, y0: int, x1: int, y1: int)
    requires IsShipMap(m) && -1 <= x0 && x1 <= BOARD_SIZE && -1 <= y0 && y1 <= BOARD_SIZE
    ensures RectEmpty(m, x0, y0, x1, y1) <==> forall p :: p in Occupied(m) ==> !InRect(p, x0, y0, x1, y1)
  {
    OccupiedMembers(m);
    if forall p :: p in Occupied(m) ==> !InRect(p, x0, y0, x1, y1) {
      forall c, r | x0 <= c <= x1 && y0 <= r <= y1
        ensures At(m, c, r) == CELL_EMPTY
      {
        assert InRect(Coord(c, r), x0, y0, x1, y1);
      }
    }
  }

  /** On a ship map, the vertical ring is empty exactly when no occupied cell lies in it. */
  lemma VerticalRingOccupied(m: array2<int>, c: int, r: int, len: nat)
    requires IsShipMap(m) && OnBoard(Coord(c, r)) && r + len <= BOARD_SIZE
    ensures VerticalRingEmpty(m, c, r, len) <==> forall p :: p in Occupied(m) ==> !InVerticalRing(p, c, r, len)
  {
    OccupiedMembers(m);
    if forall p :: p in Occupied(m) ==> !InVerticalRing(p, c, r, len) {
      forall cc, rr | c - 1 <= cc <= c + 1 && r - 1 <= rr <= r + len && !(cc == c - 1 && rr == r + len)
        ensures At(m, cc, rr) == CELL_EMPTY
      {
        assert InVerticalRing(Coord(cc, rr), c, r, len);
      }
    }
  }

  /**
   * One attempt to place a ship of pointCount cells with its first cell at
   * (c, r): if the point is free, horizontal is tried first, then vertical.
   */
  method TryPlace(m: array2<int>, c: int, r: int, pointCount: nat) returns (placed: bool)
    requires IsShipMap(m) && OnBoard(Coord(c, r))
    modifies m
    ensures IsShipMap(m)
    ensures placed <==>
      old(IsPointFree(m, c, r) && (HorizontalFits(m, c, r, pointCount) || VerticalFits(m, c, r, pointCount)))
    ensures !placed ==> unchanged(m)
    ensures placed ==>
      var o := if old(HorizontalFits(m, c, r, pointCount)) then Horizontal else Vertical;
      var ship := ShipCells(Coord(c, r), pointCount, o);
      (forall p :: p in ship ==> OnBoard(p)) &&
      ship !! old(Occupied(m)) &&
      Occupied(m) == old(Occupied(m)) + ship
    ensures placed && old(HorizontalFits(m, c, r, pointCount)) && pointCount >= 1 ==>
      old(RectEmpty(m, c - 1, r - 1, c + pointCount, r + 1))
    ensures placed && !old(HorizontalFits(m, c, r, pointCount)) && pointCount >= 2 ==>
      old(VerticalRingEmpty(m, c, r, pointCount))
  {
    placed := false;
    if !IsPointFree(m, c, r) {
      return;
    }
    var o: Orientation;
    var horizontal := CanPutHorizontal(m, c, r, pointCount);
    if horizontal {
      if pointCount >= 1 {
        HorizontalPlacementIff(m, c, r, pointCount);
      }
      o := Horizontal;
    } else {
      var vertical := CanPutVertical(m, c, r, pointCount);
      if !vertical {
        return;
      }
      if pointCount >= 2 {
        VerticalPlacementIff(m, c, r, pointCount);
      }
      o := Vertical;
    }
    FitsCellsEmpty(m, c, r, pointCount, o);
    PlaceShip(m, Coord(c, r), pointCount, o);
    placed := true;
  }

  /** The first loops of generateRandomShipMap: a padded map with every cell empty. */
  method EmptyShipMap() returns (m: array2<int>)
    ensures fresh(m) && IsShipMap(m) && Occupied(m) == {}
  {
    m := new int[SIDE, SIDE];
    for rowIndex := -1 to BOARD_SIZE + 1
      invariant forall i, j :: 0 <= i < rowIndex + 1 && 0 <= j < SIDE ==> m[i, j] == CELL_EMPTY
    {
      var row := rowIndex + 1;
      for columnIndex := -1 to BOARD_SIZE + 1
        invariant forall i, j :: 0 <= i < rowIndex + 1 && 0 <= j < SIDE ==> m[i, j] == CELL_EMPTY
        invariant forall j :: 0 <= j < columnIndex + 1 ==> m[row, j] == CELL_EMPTY
      {
        m[rowIndex + 1, columnIndex + 1] := CELL_EMPTY;
      }
    }
    OccupiedMembers(m);
    assert Occupied(m) == {};
  }

  /**
   * One placement attempt at origin (TryPlace), reported as the ship it lays:
   * on success the ship covers previously empty board cells, and no cell
   * occupied before lies in its ring (for a vertical ship, the ring less the
   * corner (c - 1, r + len)).
   */
  method PlaceAttempt(m: array2<int>, origin: Coord, pointCount: nat) returns (placed: bool, ghost ship: Ship)
    requires IsShipMap(m) && OnBoard(origin)
    modifies m
    ensures IsShipMap(m)
    ensures !placed ==> Occupied(m) == old(Occupied(m))
    ensures placed ==>
      ship.origin == origin && ship.len == pointCount &&
      (forall p :: p in Cells(ship) ==> OnBoard(p)) &&
      Cells(ship) !! old(Occupied(m)) && Occupied(m) == old(Occupied(m)) + Cells(ship) &&
      RingClear(old(Occupied(m)), ship)
  {
    ghost var horizontal := HorizontalFits(m, origin.x, origin.y, pointCount);
    ghost var before := Occupied(m);
    ship := Ship(origin, pointCount, if horizontal then Horizontal else Vertical);
    // What TryPlace promises of the ring on success, as a fact about the map before it.
    ghost var ringEmpty :=
      if horizontal then
        pointCount >= 1 ==> RectEmpty(m, origin.x - 1, origin.y - 1, origin.x + pointCount, origin.y + 1)
      else
        pointCount >= 2 && origin.y + pointCount <= BOARD_SIZE &&
        VerticalRingEmpty(m, origin.x, origin.y, pointCount);
    assert ringEmpty ==> RingClear(before, ship) by {
      if horizontal && pointCount >= 1 {
        RectEmptyOccupied(m, origin.x - 1, origin.y - 1, origin.x + pointCount, origin.y + 1);
      }
      if !horizontal && origin.y + pointCount <= BOARD_SIZE {
        VerticalRingOccupied(m, origin.x, origin.y, pointCount);
      }
    }
    ghost var freeOrigin := IsPointFree(m, origin.x, origin.y);
    assert freeOrigin && !horizontal ==> pointCount >= 2 by {
      if pointCount == 1 && freeOrigin {
        OneCellIsHorizontal(m, origin.x, origin.y);
      }
    }
    placed := TryPlace(m, origin.x, origin.y, pointCount);
    assert placed ==> freeOrigin;
    assert placed ==> ringEmpty;
  }

  /**
   * The retry loop of generateRandomShipMap for one ship: draw origins from
   * origins[next..] until a placement attempt succeeds. Fails only when the
   * origins run out, leaving the occupied cells as they were; next' is the
   * first origin not drawn. No occupied cell is freed. On success, ship is
   * the ship laid, from the last origin drawn.
   */
  method PlaceWithRetries(m: array2<int>, origins: seq<Coord>, next: nat, pointCount: nat)
    returns (shipPlaced: bool, next': nat, ghost ship: Ship)
    requires IsShipMap(m) && next <= |origins|
    requires forall k :: 0 <= k < |origins| ==> OnBoard(origins[k])
    modifies m
    ensures IsShipMap(m) && next <= next' <= |origins|
    ensures old(Occupied(m)) <= Occupied(m)
    ensures !shipPlaced ==> next' == |origins| && Occupied(m) == old(Occupied(m))
    ensures shipPlaced ==>
      next < next' && ship.origin == origins[next' - 1] && ship.len == pointCount &&
      (forall p :: p in Cells(ship) ==> OnBoard(p)) &&
      Cells(ship) !! old(Occupied(m)) && Occupied(m) == old(Occupied(m)) + Cells(ship) &&
      |Occupied(m)| == old(|Occupied(m)|) + pointCount &&
      RingClear(old(Occupied(m)), ship)
  {
    next' := next;
    ship := Ship(Coord(0, 0), pointCount, Horizontal);
    while next' < |origins|
      invariant next <= next' <= |origins|
      invariant IsShipMap(m) && Occupied(m) == old(Occupied(m))
      decreases |origins| - next'
    {
      var origin := origins[next'];
      next' := next' + 1;
      shipPlaced, ship := PlaceAttempt(m, origin, pointCount);
      if shipPlaced {
        return;
      }
    }
    shipPlaced := false;
  }

  /**
   * The loop of generateRandomShipMap over the maxShips ships of one line of
   * the fleet: each is placed by the retry loop. No occupied cell is freed;
   * fleet' is still laid apart and covers exactly the occupied cells; when
   * allPlaced, its lengths are those of fleet followed by maxShips times
   * pointCount. allPlaced is false
   * when the origins run out first.
   */
  method PlaceShipsOfConfig(m: array2<int>, origins: seq<Coord>, next: nat, shipConfig: ShipConfig, ghost fleet: seq<Ship>)
    returns (allPlaced: bool, next': nat, ghost fleet': seq<Ship>)
    requires IsShipMap(m) && next <= |origins|
    requires forall k :: 0 <= k < |origins| ==> OnBoard(origins[k])
    requires Separated(fleet) && FleetUnion(fleet) == Occupied(m)
    modifies m
    ensures IsShipMap(m) && next <= next' <= |origins|
    ensures old(Occupied(m)) <= Occupied(m)
    ensures Separated(fleet') && FleetUnion(fleet') == Occupied(m)
    ensures allPlaced ==>
      Lengths(fleet') == Lengths(fleet) + Repeat(shipConfig.maxShips, shipConfig.pointCount)
  {
    next', fleet' := next, fleet;
    ghost var before := Occupied(m);
    var i := 0;
    while i < shipConfig.maxShips
      invariant 0 <= i <= shipConfig.maxShips
      invariant IsShipMap(m) && next <= next' <= |origins|
      invariant before <= Occupied(m)
      invariant Separated(fleet') && FleetUnion(fleet') == Occupied(m)
      invariant Lengths(fleet') == Lengths(fleet) + Repeat(i, shipConfig.pointCount)
    {
      var shipPlaced;
      ghost var ship;
      shipPlaced, next', ship := PlaceWithRetries(m, origins, next', shipConfig.pointCount);
      if !shipPlaced {
        allPlaced := false;
        return;
      }
      AddShipOfLength(fleet', ship, Lengths(fleet), i, shipConfig.pointCount);
      fleet' := fleet' + [ship];
      i := i + 1;
    }
    allPlaced := true;
  }

  /**
   * generateRandomShipMap with its random origins drawn from origins, in
   * order: every ship of the fleet, largest first, is retried with the next
   * origin until it is placed. complete is false when the origins run out
   * first. fleet lists the ships laid, in order: straight, laid apart (none
   * shares a cell with an earlier ship or has one in its ring, save the
   * corner (c - 1, r + len) of a vertical ship), hence pairwise disjoint,
   * covering exactly the occupied cells, and when complete one per entry of
   * the fleet's ship lengths.
   */
  method GenerateShipMap(origins: seq<Coord>) returns (m: array2<int>, complete: bool, ghost fleet: seq<Ship>)
    requires forall k :: 0 <= k < |origins| ==> OnBoard(origins[k])
    ensures fresh(m) && IsShipMap(m)
    ensures PairwiseDisjoint(fleet) && FleetUnion(fleet) == Occupied(m) && Separated(fleet)
    ensures complete ==> |Occupied(m)| == REQUIRED_HITS
    ensures complete ==> Lengths(fleet) == ShipLengths(SHIPS_CONFIGURATION) == [4, 3, 3, 2, 2, 2, 1, 1, 1, 1]
  {
    m := EmptyShipMap();
    complete := false;
    fleet := [];
    var next := 0;
    var k := 0;
    while k < |SHIPS_CONFIGURATION|
      invariant 0 <= k <= |SHIPS_CONFIGURATION|
      invariant 0 <= next <= |origins|
      invariant IsShipMap(m)
      invariant Separated(fleet) && FleetUnion(fleet) == Occupied(m)
      invariant Lengths(fleet) == ShipLengths(SHIPS_CONFIGURATION[..k])
    {
      var allPlaced;
      allPlaced, next, fleet := PlaceShipsOfConfig(m, origins, next, SHIPS_CONFIGURATION[k], fleet);
      if !allPlaced {
        SeparatedDisjoint(fleet);
        return;
      }
      FleetStep(SHIPS_CONFIGURATION, k);
      k := k + 1;
    }
    assert SHIPS_CONFIGURATION[..k] == SHIPS_CONFIGURATION;
    FleetShipLengths();
    SeparatedDisjoint(fleet);
    SeparatedCount(fleet);
    SumShipLengths(SHIPS_CONFIGURATION);
    RequiredHitsIsTwenty();
    complete := true;
  }
}
