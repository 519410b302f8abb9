/**
 * The computer's shot map: the list of coordinates of the player's field it
 * has not fired at yet (generateShotMap), with the list operations the
 * targeting code applies to it (splice, findIndex, some).
 */
module ShotMap {
  import opened Config

  predicate Distinct(s: seq<Coord>) {
    forall i, j :: 0 <= i < j < |s| ==> s[i] != s[j]
  }

  /** The board coordinates row by row, each row from left to right: position k holds (k mod 10, k div 10). */
  function RowMajor(): seq<Coord> {
    seq(BOARD_SIZE * BOARD_SIZE, k => Coord(k % BOARD_SIZE, k / BOARD_SIZE))
  }

  /** generateShotMap: the board coordinates in row-major order. */
  method GenerateShotMap() returns (shots: seq<Coord>)
    ensures shots == RowMajor()
  {
    shots := [];
    for rowIndex := 0 to BOARD_SIZE
      invariant |shots| == rowIndex * BOARD_SIZE
      invariant forall k :: 0 <= k < |shots| ==> shots[k] == Coord(k % BOARD_SIZE, k / BOARD_SIZE)
    {
      for columnIndex := 0 to BOARD_SIZE
        invariant |shots| == rowIndex * BOARD_SIZE + columnIndex
        invariant forall k :: 0 <= k < |shots| ==> shots[k] == Coord(k % BOARD_SIZE, k / BOARD_SIZE)
      {
        assert (rowIndex * BOARD_SIZE + columnIndex) % BOARD_SIZE == columnIndex;
        assert (rowIndex * BOARD_SIZE + columnIndex) / BOARD_SIZE == rowIndex;
        shots := shots + [Coord(columnIndex, rowIndex)];
      }
    }
    assert |shots| == |RowMajor()|;
  }

  /**
   * A shot map as the computer keeps it: distinct board cells, none of them
   * among the cells already fired at.
   */
  predicate ShotMapOk(shots: seq<Coord>, fired: set<Coord>) {
    Distinct(shots) &&
    (forall k :: 0 <= k < |shots| ==> OnBoard(shots[k])) &&
    (forall c :: c in fired ==> c !in shots)
  }

  /**
   * A shot map keeps its invariant when it loses elements and when the cells
   * it no longer holds join the fired ones.
   */
  lemma ShotMapOkShrink(s: seq<Coord>, t: seq<Coord>, fired: set<Coord>, extra: set<Coord>)
    requires ShotMapOk(s, fired) && Distinct(t)
    requires forall d :: d in t ==> d in s && d !in extra
    ensures ShotMapOk(t, fired + extra)
  {
    forall k | 0 <= k < |t|
      ensures OnBoard(t[k])
    {
      assert t[k] in s;
    }
  }

  /** The row-major list holds each of the 100 board coordinates once, and only board coordinates. */
  lemma RowMajorLayout()
    ensures |RowMajor()| == 100
    ensures ShotMapOk(RowMajor(), {})
  {
    var shots := RowMajor();
    forall i, j | 0 <= i < j < |shots|
      ensures shots[i] != shots[j]
    {
      assert i == i / BOARD_SIZE * BOARD_SIZE + i % BOARD_SIZE;
      assert j == j / BOARD_SIZE * BOARD_SIZE + j % BOARD_SIZE;
    }
  }

  /** Every board coordinate is in the row-major list, at position 10 * y + x. */
  lemma RowMajorCovers(c: Coord)
    requires OnBoard(c)
    ensures c in RowMajor()
  {
    var k := c.y * BOARD_SIZE + c.x;
    assert k % BOARD_SIZE == c.x && k / BOARD_SIZE == c.y;
    assert RowMajor()[k] == c;
  }

  /** The list left by splice(i, 1): element i is dropped and the rest keep their order. */
  function Splice(s: seq<Coord>, i: int): (r: seq<Coord>)
    requires 0 <= i < |s|
    ensures |r| == |s| - 1
    ensures forall k :: 0 <= k < i ==> r[k] == s[k]
    ensures forall k :: i <= k < |r| ==> r[k] == s[k + 1]
  {
    assert s == s[..i] + [s[i]] + s[i + 1..];
    s[..i] + s[i + 1..]
  }

  /** splice(i, 1) is a permutation of the list less its element i. */
  lemma SplicePermutation(s: seq<Coord>, i: int)
    requires 0 <= i < |s|
    ensures multiset(Splice(s, i)) + multiset{s[i]} == multiset(s)
  {
    assert s == s[..i] + [s[i]] + s[i + 1..];
  }

  /** On a list without repetitions, splice removes exactly the element at i. */
  lemma SpliceDistinct(s: seq<Coord>, i: int)
    requires Distinct(s) && 0 <= i < |s|
    ensures Distinct(Splice(s, i))
    ensures forall c :: c in Splice(s, i) <==> c in s && c != s[i]
  {
    var r := Splice(s, i);
    forall a, b | 0 <= a < b < |r|
      ensures r[a] != r[b]
    {
      var a' := if a < i then a else a + 1;
      var b' := if b < i then b else b + 1;
      assert r[a] == s[a'] && r[b] == s[b'];
    }
    forall c | c in s && c != s[i]
      ensures c in r
    {
      var k :| 0 <= k < |s| && s[k] == c;
      if k < i {
        assert r[k] == c;
      } else {
        assert r[k - 1] == c;
      }
    }
    forall c | c in r
      ensures c in s && c != s[i]
    {
      var k :| 0 <= k < |r| && r[k] == c;
      if k < i {
        assert s[k] == c;
      } else {
        assert s[k + 1] == c;
      }
    }
  }

  /** findIndex with coordinate equality: the first position of c, or -1. */
  function IndexOf(s: seq<Coord>, c: Coord): (i: int)
    ensures -1 <= i < |s|
    ensures i == -1 <==> c !in s
    ensures 0 <= i ==> s[i] == c && c !in s[..i]
    decreases |s|
  {
    if s == [] then -1
    else if s[0] == c then 0
    else
      var j := IndexOf(s[1..], c);
      if j == -1 then -1
      else
        assert s[..j + 1] == [s[0]] + s[1..][..j];
        j + 1
  }

  /** On a list without repetitions, findIndex of the element at i is i. */
  lemma IndexOfDistinct(s: seq<Coord>, i: int)
    requires Distinct(s) && 0 <= i < |s|
    ensures IndexOf(s, s[i]) == i
  {
  }

  /** findIndex, then splice(index, 1) when the index is not -1. */
  function RemoveFirst(s: seq<Coord>, c: Coord): seq<Coord> {
    var i := IndexOf(s, c);
    if i == -1 then s else Splice(s, i)
  }

  /** On a list without repetitions, RemoveFirst removes c and nothing else. */
  lemma RemoveFirstDistinct(s: seq<Coord>, c: Coord)
    requires Distinct(s)
    ensures Distinct(RemoveFirst(s, c))
    ensures forall d :: d in RemoveFirst(s, c) <==> d in s && d != c
    ensures |RemoveFirst(s, c)| == if c in s then |s| - 1 else |s|
  {
    var i := IndexOf(s, c);
    if i != -1 {
      SpliceDistinct(s, i);
    }
  }

  /** RemoveFirst applied for each element of cs in turn, as the loop over the diagonal cells does. */
  function RemoveAll(s: seq<Coord>, cs: seq<Coord>): seq<Coord>
    decreases |cs|
  {
    if cs == [] then s else RemoveFirst(RemoveAll(s, cs[..|cs| - 1]), cs[|cs| - 1])
  }

  /** On a list without repetitions, RemoveAll removes exactly the elements of cs. */
  lemma {:induction false} RemoveAllDistinct(s: seq<Coord>, cs: seq<Coord>)
    requires Distinct(s)
    ensures Distinct(RemoveAll(s, cs))
    ensures forall d :: d in RemoveAll(s, cs) <==> d in s && d !in cs
    decreases |cs|
  {
    if cs != [] {
      var init := cs[..|cs| - 1];
      RemoveAllDistinct(s, init);
      RemoveFirstDistinct(RemoveAll(s, init), cs[|cs| - 1]);
      assert cs == init + [cs[|cs| - 1]];
    }
  }

  /** The cells above, below, left and right of h, in the order pcFire lists them. */
  function OrthogonalNeighbours(h: Coord): seq<Coord> {
    [Coord(h.x, h.y - 1), Coord(h.x, h.y + 1), Coord(h.x - 1, h.y), Coord(h.x + 1, h.y)]
  }

  /** The four cells touching h only at a corner, in the order pcFire lists them. */
  function Diagonals(h: Coord): seq<Coord> {
    [Coord(h.x - 1, h.y - 1), Coord(h.x + 1, h.y - 1), Coord(h.x - 1, h.y + 1), Coord(h.x + 1, h.y + 1)]
  }

  predicate IsOrthogonalNeighbour(a: Coord, h: Coord) {
    (a.x == h.x && (a.y == h.y - 1 || a.y == h.y + 1)) ||
    (a.y == h.y && (a.x == h.x - 1 || a.x == h.x + 1))
  }

  predicate IsDiagonalNeighbour(a: Coord, h: Coord) {
    (a.x == h.x - 1 || a.x == h.x + 1) && (a.y == h.y - 1 || a.y == h.y + 1)
  }

  /** The elements of cs that are still in shots, in the order of cs (the filter with some). */
  function Available(cs: seq<Coord>, shots: seq<Coord>): (r: seq<Coord>)
    ensures |r| <= |cs|
    ensures forall c :: c in r <==> c in cs && c in shots
    decreases |cs|
  {
    if cs == [] then []
    else Available(cs[..|cs| - 1], shots) + (if cs[|cs| - 1] in shots then [cs[|cs| - 1]] else [])
  }

  /** Hunt-mode candidates: the orthogonal neighbours of h still in the shot map. */
  function HuntCandidates(h: Coord, shots: seq<Coord>): seq<Coord> {
    Available(OrthogonalNeighbours(h), shots)
  }

  /** A hunt candidate is an unfired orthogonal neighbour, and every unfired orthogonal neighbour is one. */
  lemma HuntCandidatesIff(h: Coord, shots: seq<Coord>)
    ensures forall c :: c in HuntCandidates(h, shots) <==> IsOrthogonalNeighbour(c, h) && c in shots
  {
    var ns := OrthogonalNeighbours(h);
    forall c | IsOrthogonalNeighbour(c, h)
      ensures c in ns
    {
      if c == ns[0] {} else if c == ns[1] {} else if c == ns[2] {} else { assert c == ns[3]; }
    }
  }

  /** The cells Diagonals lists are exactly the diagonal neighbours. */
  lemma DiagonalsIff(h: Coord)
    ensures forall c :: c in Diagonals(h) <==> IsDiagonalNeighbour(c, h)
  {
    var ds := Diagonals(h);
    forall c | IsDiagonalNeighbour(c, h)
      ensures c in ds
    {
      if c == ds[0] {} else if c == ds[1] {} else if c == ds[2] {} else { assert c == ds[3]; }
    }
  }

  /**
   * After a hit at s (s spliced out, then its diagonal cells struck off) the
   * shot map holds the cells it held before, less s and its diagonal neighbours.
   */
  lemma AfterHit(shots: seq<Coord>, s: Coord)
    requires Distinct(shots)
    ensures Distinct(RemoveAll(RemoveFirst(shots, s), Diagonals(s)))
    ensures forall d :: d in RemoveAll(RemoveFirst(shots, s), Diagonals(s)) <==>
      d in shots && d != s && !IsDiagonalNeighbour(d, s)
  {
    RemoveFirstDistinct(shots, s);
    RemoveAllDistinct(RemoveFirst(shots, s), Diagonals(s));
    DiagonalsIff(s);
  }

  /**
   * Striking the diagonal cells of h off a shot map keeps its invariant and
   * removes exactly the diagonal neighbours of h.
   */
  lemma StrikeOffOk(shots: seq<Coord>, fired: set<Coord>, h: Coord)
    requires ShotMapOk(shots, fired)
    ensures ShotMapOk(RemoveAll(shots, Diagonals(h)), fired)
    ensures forall d :: d in RemoveAll(shots, Diagonals(h)) <==> d in shots && !IsDiagonalNeighbour(d, h)
  {
    RemoveAllDistinct(shots, Diagonals(h));
    DiagonalsIff(h);
    ShotMapOkShrink(shots, RemoveAll(shots, Diagonals(h)), fired, {});
    assert fired + {} == fired;
  }
}
