/**
 * The fixed configuration of the game: the board size, the two cell markers,
 * the fleet and the number of hits that wins (the constructor of SeaBattle).
 */
module Config {
  /** Number of columns and of rows of a playing field (the lengths of boarderWidth and boarderHeight). */
  const BOARD_SIZE: int := 10

  const CELL_EMPTY: int := 0
  const CELL_OCCUPIED: int := 1

  /** A board coordinate: x is the column, y the row. */
  datatype Coord = Coord(x: int, y: int)

  predicate OnBoard(c: Coord) {
    0 <= c.x < BOARD_SIZE && 0 <= c.y < BOARD_SIZE
  }

  /** One line of the fleet: maxShips ships, each pointCount cells long. */
  datatype ShipConfig = ShipConfig(maxShips: nat, pointCount: nat)

  /** The fleet, largest ships first; ships are placed in this order. */
  const SHIPS_CONFIGURATION: seq<ShipConfig> :=
    [ShipConfig(1, 4), ShipConfig(2, 3), ShipConfig(3, 2), ShipConfig(4, 1)]

  /** The cells one line of the fleet occupies. */
  function ShipPoints(c: ShipConfig): nat {
    c.maxShips * c.pointCount
  }

  /** The constructor's reduce: a left fold of ShipPoints over the fleet, starting at total. */
  function ReduceHits(total: int, cs: seq<ShipConfig>): int
    decreases |cs|
  {
    if cs == [] then total else ReduceHits(total + ShipPoints(cs[0]), cs[1..])
  }

  /**
   * Reference count of the cells of a fleet, summed from its last line back;
   * FleetCells(cs[..k]) is what the generator has placed after k lines.
   */
  function FleetCells(cs: seq<ShipConfig>): nat {
    if cs == [] then 0 else FleetCells(cs[..|cs| - 1]) + ShipPoints(cs[|cs| - 1])
  }

  /** Adding a line in front of a fleet adds its cells. */
  lemma {:induction false} FleetCellsCons(c: ShipConfig, cs: seq<ShipConfig>)
    ensures FleetCells([c] + cs) == ShipPoints(c) + FleetCells(cs)
    decreases |cs|
  {
    var whole := [c] + cs;
    if cs == [] {
      assert whole[..0] == [];
    } else {
      assert whole[..|whole| - 1] == [c] + cs[..|cs| - 1];
      assert whole[|whole| - 1] == cs[|cs| - 1];
      FleetCellsCons(c, cs[..|cs| - 1]);
    }
  }

  /** The left fold and the reference sum agree on every fleet and every start value. */
  lemma {:induction false} ReduceIsFleetCells(total: int, cs: seq<ShipConfig>)
    ensures ReduceHits(total, cs) == total + FleetCells(cs)
    decreases |cs|
  {
    if cs != [] {
      ReduceIsFleetCells(total + ShipPoints(cs[0]), cs[1..]);
      assert cs == [cs[0]] + cs[1..];
      FleetCellsCons(cs[0], cs[1..]);
    }
  }

  /** n copies of len. */
  function Repeat(n: nat, len: nat): (r: seq<nat>)
    ensures |r| == n && forall k :: 0 <= k < n ==> r[k] == len
  {
    if n == 0 then [] else Repeat(n - 1, len) + [len]
  }

  /** The length of every ship of a fleet, in the order the generator places them. */
  function ShipLengths(cs: seq<ShipConfig>): seq<nat> {
    if cs == [] then [] else ShipLengths(cs[..|cs| - 1]) + Repeat(cs[|cs| - 1].maxShips, cs[|cs| - 1].pointCount)
  }

  /** The sum of a sequence of lengths, from its last entry back. */
  function Sum(s: seq<nat>): nat {
    if s == [] then 0 else Sum(s[..|s| - 1]) + s[|s| - 1]
  }

  lemma {:induction false} SumAppend(a: seq<nat>, b: seq<nat>)
    ensures Sum(a + b) == Sum(a) + Sum(b)
    decreases |b|
  {
    if b != [] {
      var b' := b[..|b| - 1];
      assert (a + b)[..|a + b| - 1] == a + b';
      SumAppend(a, b');
    } else {
      assert a + b == a;
    }
  }

  lemma {:induction false} SumRepeat(n: nat, len: nat)
    ensures Sum(Repeat(n, len)) == n * len
  {
    if n > 0 {
      SumRepeat(n - 1, len);
      SumAppend(Repeat(n - 1, len), [len]);
      assert Sum([len]) == len by {
        assert [len][..0] == [];
      }
    }
  }

  /** The ship lengths of a fleet add up to its cells. */
  lemma {:induction false} SumShipLengths(cs: seq<ShipConfig>)
    ensures Sum(ShipLengths(cs)) == FleetCells(cs)
    decreases |cs|
  {
    if cs != [] {
      var init, last := cs[..|cs| - 1], cs[|cs| - 1];
      SumShipLengths(init);
      SumAppend(ShipLengths(init), Repeat(last.maxShips, last.pointCount));
      SumRepeat(last.maxShips, last.pointCount);
    }
  }

  /** Taking one more line of a fleet adds its cells and its ships. */
  lemma FleetStep(cs: seq<ShipConfig>, k: int)
    requires 0 <= k < |cs|
    ensures FleetCells(cs[..k + 1]) == FleetCells(cs[..k]) + ShipPoints(cs[k])
    ensures ShipLengths(cs[..k + 1]) == ShipLengths(cs[..k]) + Repeat(cs[k].maxShips, cs[k].pointCount)
  {
    assert cs[..k + 1][..k] == cs[..k];
  }

  /** The fleet is ten ships: one of 4 cells, two of 3, three of 2 and four of 1. */
  lemma FleetShipLengths()
    ensures ShipLengths(SHIPS_CONFIGURATION) == [4, 3, 3, 2, 2, 2, 1, 1, 1, 1]
  {
    var cs := SHIPS_CONFIGURATION;
    assert cs[..1][..0] == [] && cs[..2][..1] == cs[..1] && cs[..3][..2] == cs[..2] && cs[..3] == cs[..4][..3];
    assert ShipLengths(cs[..1]) == [4] by {
      assert Repeat(1, 4) == [4];
    }
    assert ShipLengths(cs[..2]) == [4, 3, 3] by {
      assert Repeat(2, 3) == [3, 3];
    }
    assert ShipLengths(cs[..3]) == [4, 3, 3, 2, 2, 2] by {
      assert Repeat(3, 2) == [2, 2, 2];
    }
    assert Repeat(4, 1) == [1, 1, 1, 1];
    assert cs[..4] == cs;
  }

  /** The number of ship cells of the fleet: 4 + 2*3 + 3*2 + 4*1 (see RequiredHitsIsTwenty). */
  const REQUIRED_HITS: int := 20

  /** requiredHits, the constructor's reduce over the fleet, counts its 20 cells, so 20 hits win. */
  lemma RequiredHitsIsTwenty()
    ensures ReduceHits(0, SHIPS_CONFIGURATION) == FleetCells(SHIPS_CONFIGURATION) == REQUIRED_HITS
  {
    ReduceIsFleetCells(0, SHIPS_CONFIGURATION);
    var cs := SHIPS_CONFIGURATION;
    assert cs[..3][..2][..1][..0] == [];
  }
}
