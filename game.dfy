/**
 * The game state of SeaBattle: the two ship maps, the computer's shot map,
 * the hit counters, the turn flags and the computer's hunt target, with the
 * operations that fire shots (userFire, takeRandomShot, pcFire) and end or
 * restart a game (stopGame, startNewGame).
 *
 * A random choice of the source (getRandomInt) is a caller-supplied index
 * here; the delay before the computer's shot is left to the caller, which
 * calls PcFire while pcGoing is set.
 */
module Game {
  import opened Wrappers
  import opened Config
  import opened ShipMap
  import opened ShotMap

  /** A ship map as a finished generation leaves it: every ship of the fleet on the board. */
  ghost predicate IsCompleteShipMap(m: array2<int>)
    reads m
  {
    IsShipMap(m) && |Occupied(m)| == REQUIRED_HITS
  }

  /** pcFire takes a random shot: no previous hit, or none of its orthogonal neighbours left. */
  predicate NeedsRandomShot(previousHit: Option<Coord>, shots: seq<Coord>) {
    previousHit.None? || HuntCandidates(previousHit.value, shots) == []
  }

  /** Once every one of the n cells of occ has been fired at, occ lies inside fired. */
  lemma {:induction false} AllCellsFired(fired: set<Coord>, occ: set<Coord>)
    requires |fired * occ| >= |occ|
    ensures occ <= fired
  {
    if p :| p in occ && p !in fired {
      assert fired * occ <= occ - {p};
      SubsetCard(fired * occ, occ - {p});
      assert false;
    }
  }

  lemma SubsetCard(a: set<Coord>, b: set<Coord>)
    requires a <= b
    ensures |a| <= |b|
  {
    assert b == a + (b - a);
  }

  /** Firing at a cell not fired at before adds one hit when it is occupied and none otherwise. */
  lemma FireCount(fired: set<Coord>, occ: set<Coord>, p: Coord)
    requires p !in fired
    ensures |(fired + {p}) * occ| == |fired * occ| + (if p in occ then 1 else 0)
  {
    if p in occ {
      assert (fired + {p}) * occ == fired * occ + {p};
    } else {
      assert (fired + {p}) * occ == fired * occ;
    }
  }

  class SeaBattle {
    /** requiredHits, the number of ship cells of the fleet. */
    const requiredHits: int
    var pcShipGrid: array2<int>
    var userShipGrid: array2<int>
    /** The cells of the player's field the computer has not fired at, nor ruled out. */
    var pcShotMap: seq<Coord>
    var userHits: int
    var pcHits: int
    var gameStopped: bool
    /** Set while the computer's turn is on. */
    var pcGoing: bool
    /** The computer's last hit, which hunt mode shoots next to. */
    var previousHit: Option<Coord>
    /**
     * The cells of the computer's field the player has fired at in this game.
     * It stands for the click handlers: drawGameCells installs one on every
     * cell and userFire removes the one of the cell it fires at.
     */
    var userFired: set<Coord>
    /** The cells of the player's field the computer has fired at in this game. */
    ghost var pcFired: set<Coord>
    /** The ship cells of the two maps. */
    ghost var pcShips: set<Coord>
    ghost var userShips: set<Coord>

    /**
     * pcShips and userShips are the ship cells of the two maps: the board
     * cells that are not empty.
     */
    ghost predicate MapsValid()
      reads this`pcShipGrid, this`userShipGrid, this`pcShips, this`userShips, pcShipGrid, userShipGrid
    {
      IsPadded(pcShipGrid) && IsPadded(userShipGrid) &&
      (forall c :: c in pcShips <==> IsShipCell(pcShipGrid, c)) &&
      (forall c :: c in userShips <==> IsShipCell(userShipGrid, c))
    }

    /**
     * The shot map lists distinct board cells not fired at; each counter is
     * the number of ship cells its side has hit; the game is over exactly when
     * a counter reaches requiredHits, and then nobody's turn is pending.
     */
    ghost predicate StateValid()
      reads this
    {
      requiredHits == REQUIRED_HITS &&
      |pcShips| == requiredHits && |userShips| == requiredHits &&
      ShotMapOk(pcShotMap, pcFired) &&
      userHits == |userFired * pcShips| &&
      pcHits == |pcFired * userShips| &&
      userHits <= requiredHits && pcHits <= requiredHits &&
      (gameStopped <==> userHits == requiredHits || pcHits == requiredHits) &&
      (gameStopped ==> !pcGoing)
    }

    ghost predicate Valid()
      reads this, pcShipGrid, userShipGrid
    {
      MapsValid() && StateValid()
    }

    /** The play fields startNewGame resets, as it leaves them. */
    ghost predicate FreshPlay()
      reads this`pcShotMap, this`userHits, this`pcHits, this`gameStopped, this`pcGoing,
        this`userFired, this`pcFired
    {
      pcShotMap == RowMajor() &&
      userHits == 0 && pcHits == 0 && !gameStopped && !pcGoing &&
      userFired == {} && pcFired == {}
    }

    /** The fields startNewGame resets, as it leaves them. */
    ghost predicate FreshGame(pcGrid: array2<int>, userGrid: array2<int>)
      reads this
    {
      pcShipGrid == pcGrid && userShipGrid == userGrid && FreshPlay()
    }

    /**
     * The constructor followed by the startNewGame of run(): pcGrid and
     * userGrid are the two generated ship maps. No hit has been made yet.
     */
    constructor (pcGrid: array2<int>, userGrid: array2<int>)
      requires IsCompleteShipMap(pcGrid) && IsCompleteShipMap(userGrid)
      ensures Valid() && FreshGame(pcGrid, userGrid) && previousHit == None
      ensures requiredHits == 20
    {
      RequiredHitsIsTwenty();
      RowMajorLayout();
      OccupiedShipCells(pcGrid);
      OccupiedShipCells(userGrid);
      var shots := GenerateShotMap();
      requiredHits, pcShipGrid, userShipGrid, pcShotMap := ReduceHits(0, SHIPS_CONFIGURATION), pcGrid, userGrid, shots;
      userHits, pcHits, gameStopped, pcGoing, previousHit := 0, 0, false, false, None;
      userFired, pcFired, pcShips, userShips := {}, {}, Occupied(pcGrid), Occupied(userGrid);
    }

    /**
     * startNewGame with the two newly generated ship maps. The hunt target
     * previousHit is not reset: it carries over from the previous game.
     */
    method StartNewGame(pcGrid: array2<int>, userGrid: array2<int>)
      requires requiredHits == REQUIRED_HITS
      requires IsCompleteShipMap(pcGrid) && IsCompleteShipMap(userGrid)
      modifies this`pcShipGrid, this`userShipGrid, this`pcShips, this`userShips,
        this`pcShotMap, this`userHits, this`pcHits, this`gameStopped, this`pcGoing,
        this`userFired, this`pcFired
      ensures Valid() && FreshGame(pcGrid, userGrid)
      ensures previousHit == old(previousHit)
    {
      ResetPlay();
      SetShipMaps(pcGrid, userGrid);
      RowMajorLayout();
      assert userFired * pcShips == {} && pcFired * userShips == {};
    }

    /** The ship-map part of startNewGame: the two maps become the game's maps. */
    method SetShipMaps(pcGrid: array2<int>, userGrid: array2<int>)
      requires IsCompleteShipMap(pcGrid) && IsCompleteShipMap(userGrid)
      modifies this`pcShipGrid, this`userShipGrid, this`pcShips, this`userShips
      ensures MapsValid() && pcShipGrid == pcGrid && userShipGrid == userGrid
      ensures pcShips == Occupied(pcGrid) && userShips == Occupied(userGrid)
      ensures |pcShips| == REQUIRED_HITS && |userShips| == REQUIRED_HITS
    {
      OccupiedShipCells(pcGrid);
      OccupiedShipCells(userGrid);
      pcShipGrid, userShipGrid := pcGrid, userGrid;
      pcShips, userShips := Occupied(pcGrid), Occupied(userGrid);
    }

    /** The play part of startNewGame: a full shot map, no hits, nobody's turn pending. */
    method ResetPlay()
      modifies this`pcShotMap, this`userHits, this`pcHits, this`gameStopped, this`pcGoing,
        this`userFired, this`pcFired
      ensures FreshPlay()
    {
      var shots := GenerateShotMap();
      pcShotMap := shots;
      userHits, pcHits := 0, 0;
      gameStopped, pcGoing := false, false;
      userFired, pcFired := {}, {};
    }

    /**
     * A side reaches requiredHits exactly when it has fired at every ship
     * cell of the other side's map.
     */
    lemma WinMeansEveryShipCellHit()
      requires Valid()
      ensures userHits == requiredHits <==> pcShips <= userFired
      ensures pcHits == requiredHits <==> userShips <= pcFired
    {
      if userHits == requiredHits {
        AllCellsFired(userFired, pcShips);
      }
      if pcShips <= userFired {
        assert userFired * pcShips == pcShips;
      }
      if pcHits == requiredHits {
        AllCellsFired(pcFired, userShips);
      }
      if userShips <= pcFired {
        assert pcFired * userShips == userShips;
      }
    }

    /** stopGame: the game is over and nobody's turn is pending. */
    method StopGame()
      modifies this`gameStopped, this`pcGoing
      ensures gameStopped && !pcGoing
    {
      gameStopped := true;
      pcGoing := false;
    }

    /** prepareToPcFire without its timer: the computer's turn begins. */
    method PrepareToPcFire()
      modifies this`pcGoing
      ensures pcGoing
    {
      pcGoing := true;
    }

    /**
     * userFire at (x, y) of the computer's field. Ignored when the game is
     * over, during the computer's turn, or when the cell was fired at before.
     * A miss hands the turn to the computer; a hit counts, and the hit that
     * reaches requiredHits ends the game, which happens exactly when every
     * ship cell of the computer has been hit.
     */
    method UserFire(x: int, y: int)
      requires Valid() && OnBoard(Coord(x, y))
      modifies this`userHits, this`userFired, this`gameStopped, this`pcGoing
      ensures Valid()
      ensures old(gameStopped || pcGoing || Coord(x, y) in userFired) ==> unchanged(this)
      ensures !old(gameStopped || pcGoing || Coord(x, y) in userFired) ==>
        userFired == old(userFired) + {Coord(x, y)} &&
        if At(pcShipGrid, x, y) == CELL_EMPTY then
          userHits == old(userHits) && pcGoing && !gameStopped
        else
          userHits == old(userHits) + 1 && !pcGoing &&
          (gameStopped <==> userHits >= requiredHits)
    {
      if gameStopped || pcGoing {
        return;
      }
      var target := Coord(x, y);
      if target in userFired {
        return;
      }
      FireCount(userFired, pcShips, target);
      if At(pcShipGrid, x, y) == CELL_EMPTY {
        PrepareToPcFire();
      } else {
        userHits := userHits + 1;
        if userHits >= requiredHits {
          StopGame();
        }
      }
      userFired := userFired + {target};
    }

    /**
     * takeRandomShot with the random index i: returns the i-th coordinate of
     * the shot map and splices it out.
     */
    method TakeRandomShot(i: int) returns (shot: Coord)
      requires Valid() && 0 <= i < |pcShotMap|
      modifies this`pcShotMap
      ensures Valid()
      ensures shot == old(pcShotMap)[i] && pcShotMap == Splice(old(pcShotMap), i)
      ensures pcShotMap == RemoveFirst(old(pcShotMap), shot)
      ensures shot !in pcShotMap && OnBoard(shot)
    {
      shot := pcShotMap[i];
      IndexOfDistinct(pcShotMap, i);
      SpliceDistinct(pcShotMap, i);
      pcShotMap := Splice(pcShotMap, i);
    }

    /**
     * The filter of pcFire: the cells above, below, left and right of h, in
     * that order, that are still in the shot map.
     */
    method FreeNeighbours(h: Coord) returns (neighbors: seq<Coord>)
      ensures neighbors == HuntCandidates(h, pcShotMap)
    {
      var possibleNeighbors := OrthogonalNeighbours(h);
      neighbors := [];
      for k := 0 to |possibleNeighbors|
        invariant neighbors == Available(possibleNeighbors[..k], pcShotMap)
      {
        assert possibleNeighbors[..k + 1][..k] == possibleNeighbors[..k];
        if possibleNeighbors[k] in pcShotMap {
          neighbors := neighbors + [possibleNeighbors[k]];
        }
      }
      assert possibleNeighbors[..|possibleNeighbors|] == possibleNeighbors;
    }

    /** findIndex of c in the shot map, then splice at that index. */
    method RemoveFromShotMap(c: Coord)
      requires Valid() && c in pcShotMap
      modifies this`pcShotMap
      ensures Valid()
      ensures pcShotMap == RemoveFirst(old(pcShotMap), c)
      ensures c !in pcShotMap && OnBoard(c)
    {
      var index := IndexOf(pcShotMap, c);
      SpliceDistinct(pcShotMap, index);
      pcShotMap := Splice(pcShotMap, index);
    }

    /**
     * The computer's next shot (the first half of pcFire): with no previous
     * hit, a random shot; otherwise candidate neighbourPick among the
     * orthogonal neighbours still in the shot map, or, when there are none,
     * the previous hit is forgotten and a random shot (index randomPick) is
     * taken. The shot leaves the shot map.
     */
    method NextShot(neighbourPick: nat, randomPick: nat) returns (shot: Coord)
      requires Valid()
      requires NeedsRandomShot(previousHit, pcShotMap) ==> randomPick < |pcShotMap|
      requires !NeedsRandomShot(previousHit, pcShotMap) ==>
        neighbourPick < |HuntCandidates(previousHit.value, pcShotMap)|
      modifies this`pcShotMap, this`previousHit
      ensures Valid()
      ensures shot in old(pcShotMap) && shot !in pcShotMap && OnBoard(shot)
      ensures pcShotMap == RemoveFirst(old(pcShotMap), shot)
      ensures NeedsRandomShot(old(previousHit), old(pcShotMap)) ==>
        shot == old(pcShotMap)[randomPick] && previousHit == None
      ensures !NeedsRandomShot(old(previousHit), old(pcShotMap)) ==>
        shot == HuntCandidates(old(previousHit).value, old(pcShotMap))[neighbourPick] &&
        IsOrthogonalNeighbour(shot, old(previousHit).value) &&
        previousHit == old(previousHit)
    {
      if previousHit == None {
        shot := TakeRandomShot(randomPick);
      } else {
        var h := previousHit.value;
        var neighbors := FreeNeighbours(h);
        if |neighbors| > 0 {
          shot := neighbors[neighbourPick];
          HuntCandidatesIff(h, pcShotMap);
          RemoveFromShotMap(shot);
        } else {
          previousHit := None;
          shot := TakeRandomShot(randomPick);
        }
      }
    }

    /**
     * The hit branch of pcFire strikes the four diagonal cells of the hit
     * off the shot map, removing each with findIndex and splice when present.
     */
    method StrikeDiagonals(hit: Coord)
      modifies this`pcShotMap
      ensures pcShotMap == RemoveAll(old(pcShotMap), Diagonals(hit))
    {
      var diagonalCells := Diagonals(hit);
      ghost var before := pcShotMap;
      for k := 0 to |diagonalCells|
        invariant pcShotMap == RemoveAll(before, diagonalCells[..k])
      {
        assert diagonalCells[..k + 1][..k] == diagonalCells[..k];
        var cellIndex := IndexOf(pcShotMap, diagonalCells[k]);
        if cellIndex != -1 {
          pcShotMap := Splice(pcShotMap, cellIndex);
        }
      }
      assert diagonalCells[..|diagonalCells|] == diagonalCells;
    }

    /**
     * pcFire, with the random choices neighbourPick and randomPick (see
     * NextShot). Ignored once the game is over. A miss ends the computer's
     * turn; a hit records the shot as previousHit, strikes its four diagonal
     * cells off the shot map and counts, and either ends the game (at
     * requiredHits hits) or keeps the turn with the computer.
     */
    method PcFire(neighbourPick: nat, randomPick: nat) returns (shot: Option<Coord>)
      requires Valid()
      requires !gameStopped && NeedsRandomShot(previousHit, pcShotMap) ==> randomPick < |pcShotMap|
      requires !gameStopped && !NeedsRandomShot(previousHit, pcShotMap) ==>
        neighbourPick < |HuntCandidates(previousHit.value, pcShotMap)|
      modifies this`pcShotMap, this`previousHit, this`pcGoing, this`pcHits, this`gameStopped, this`pcFired
      ensures Valid()
      ensures old(gameStopped) <==> shot == None
      ensures old(gameStopped) ==> unchanged(this)
      ensures shot.Some? ==>
        var s := shot.value;
        s in old(pcShotMap) && s !in old(pcFired) && OnBoard(s) &&
        s !in pcShotMap && pcFired == old(pcFired) + {s} &&
        (NeedsRandomShot(old(previousHit), old(pcShotMap)) ==> s == old(pcShotMap)[randomPick]) &&
        (!NeedsRandomShot(old(previousHit), old(pcShotMap)) ==>
          s == HuntCandidates(old(previousHit).value, old(pcShotMap))[neighbourPick] &&
          IsOrthogonalNeighbour(s, old(previousHit).value))
      ensures shot.Some? && At(userShipGrid, shot.value.x, shot.value.y) == CELL_EMPTY ==>
        pcShotMap == RemoveFirst(old(pcShotMap), shot.value) &&
        !pcGoing && pcHits == old(pcHits) && !gameStopped &&
        previousHit == (if NeedsRandomShot(old(previousHit), old(pcShotMap)) then None else old(previousHit))
      ensures shot.Some? && At(userShipGrid, shot.value.x, shot.value.y) != CELL_EMPTY ==>
        var s := shot.value;
        pcShotMap == RemoveAll(RemoveFirst(old(pcShotMap), s), Diagonals(s)) &&
        previousHit == Some(s) && pcHits == old(pcHits) + 1 &&
        (gameStopped <==> pcHits >= requiredHits) && pcGoing == !gameStopped
    {
      if gameStopped {
        return None;
      }
      var nextShot := NextShot(neighbourPick, randomPick);
      assert IsShipCell(userShipGrid, nextShot) <==> nextShot in userShips;
      ResolvePcShot(nextShot);
      shot := Some(nextShot);
    }

    /**
     * The outcome of the computer's shot at s (the second half of pcFire):
     * a miss ends the computer's turn; a hit becomes previousHit, strikes the
     * diagonal cells of s off the shot map and counts, then ends the game at
     * requiredHits hits or keeps the turn with the computer.
     */
    method ResolvePcShot(s: Coord)
      requires StateValid() && !gameStopped && OnBoard(s) && s !in pcShotMap && s !in pcFired
      requires IsPadded(userShipGrid) && (s in userShips <==> At(userShipGrid, s.x, s.y) != CELL_EMPTY)
      modifies this`pcShotMap, this`previousHit, this`pcGoing, this`pcHits, this`gameStopped, this`pcFired
      ensures StateValid()
      ensures pcFired == old(pcFired) + {s}
      ensures s !in userShips ==>
        pcShotMap == old(pcShotMap) && previousHit == old(previousHit) &&
        !pcGoing && pcHits == old(pcHits) && !gameStopped
      ensures s in userShips ==>
        pcShotMap == RemoveAll(old(pcShotMap), Diagonals(s)) &&
        previousHit == Some(s) && pcHits == old(pcHits) + 1 &&
        (gameStopped <==> pcHits >= requiredHits) && pcGoing == !gameStopped
    {
      FireCount(pcFired, userShips, s);
      ShotMapOkShrink(pcShotMap, pcShotMap, pcFired, {s});
      StrikeOffOk(pcShotMap, pcFired + {s}, s);
      if At(userShipGrid, s.x, s.y) == CELL_EMPTY {
        pcFired, pcGoing := pcFired + {s}, false;
      } else {
        StrikeDiagonals(s);
        pcFired, previousHit, pcHits := pcFired + {s}, Some(s), pcHits + 1;
        if pcHits >= requiredHits {
          StopGame();
        } else {
          PrepareToPcFire();
        }
      }
    }
  }
}
