/** The Kalah board: fourteen slots in a ring, the side each player owns,
    the stores, legal moves and the starting position.

    Slots 0..5 are player 0's row, 6 is player 0's store (mancala),
    7..12 are player 1's row and 13 is player 1's store. */
module Board {

  /** The two players; the side to move is always 0 or 1. */
  type Player = p: int | 0 <= p <= 1

  /** The fourteen slots of the board, rows and stores alike. */
  type Pits = p: seq<int> | |p| == 14 witness [0, 0, 0, 0, 0, 0, 0, 0, 0, 0, 0, 0, 0, 0]

  /** A board position: the slots, whose turn it is, whether the move that led
      here was a capture, and whether the game has ended. */
  datatype State = State(pits: Pits, playerToMove: Player, lastMoveWasCapture: bool, gameOver: bool)

  /** No slot holds a negative number of stones. */
  predicate NonNegative(p: Pits) {
    forall i :: 0 <= i < |p| ==> p[i] >= 0
  }

  /** First slot of the player's row: the row is the six slots from here on. */
  function SideStart(player: Player): (r: int)
    ensures forall i :: InSide(i, player) <==> r <= i < r + 6
    ensures 0 <= r && r + 6 < 14
  {
    if player == 0 then 0 else 7
  }

  /** `i` lies in the player's row of six pits (the range `side_range` yields). */
  predicate InSide(i: int, player: Player) {
    if player == 0 then 0 <= i < 6 else 7 <= i < 13
  }

  /** The player's own store. */
  function MancalaIndex(player: Player): (r: int)
    ensures r == SideStart(player) + 6
    ensures !InSide(r, 0) && !InSide(r, 1)
  {
    if player == 0 then 6 else 13
  }

  /** The store of the player's opponent. */
  function OpponentMancalaIndex(player: Player): (r: int)
    ensures r == MancalaIndex(1 - player)
    ensures r != MancalaIndex(player)
  {
    if player == 0 then 13 else 6
  }

  /** The pit across the board from pit `i`. */
  function OppositeIndex(i: int): (r: int)
    ensures InSide(i, 0) <==> InSide(r, 1)
    ensures InSide(i, 1) <==> InSide(r, 0)
  {
    12 - i
  }

  /** Every slot of the ring is in exactly one row or is exactly one store. */
  lemma SlotsPartitionRing(i: int)
    requires 0 <= i < 14
    ensures InSide(i, 0) || InSide(i, 1) || i == MancalaIndex(0) || i == MancalaIndex(1)
    ensures !(InSide(i, 0) && InSide(i, 1))
    ensures InSide(i, 0) || InSide(i, 1) ==> i != MancalaIndex(0) && i != MancalaIndex(1)
  {
  }

  // ---------------------------------------------------------------------
  // Sums of slots

  /** Sum of p[lo..hi]. */
  function Sum(p: seq<int>, lo: int, hi: int): int
    requires 0 <= lo <= hi <= |p|
    decreases hi - lo
  {
    if lo == hi then 0 else p[lo] + Sum(p, lo + 1, hi)
  }

  /** Stones in the player's row. */
  function RowSum(p: Pits, player: Player): int {
    Sum(p, SideStart(player), SideStart(player) + 6)
  }

  /** Stones on the whole board. */
  function Total(p: Pits): int {
    Sum(p, 0, 14)
  }

  lemma {:induction false} SumSplit(p: seq<int>, lo: int, mid: int, hi: int)
    requires 0 <= lo <= mid <= hi <= |p|
    ensures Sum(p, lo, hi) == Sum(p, lo, mid) + Sum(p, mid, hi)
    decreases mid - lo
  {
    if lo < mid {
      SumSplit(p, lo + 1, mid, hi);
    }
  }

  /** Changing one slot changes the sum of a range holding it by the difference. */
  lemma {:induction false} SumUpdate(p: seq<int>, lo: int, hi: int, j: int, v: int)
    requires 0 <= lo <= hi <= |p| && 0 <= j < |p|
    ensures Sum(p[j := v], lo, hi) == Sum(p, lo, hi) + (if lo <= j < hi then v - p[j] else 0)
    decreases hi - lo
  {
    if lo < hi {
      SumUpdate(p, lo + 1, hi, j, v);
    }
  }

  /** Changing one slot changes the board total by the difference. */
  lemma TotalUpdate(p: Pits, j: int, v: int)
    requires 0 <= j < 14
    ensures Total(p[j := v]) == Total(p) + v - p[j]
  {
    SumUpdate(p, 0, 14, j, v);
  }

  /** Two sequences that agree on a range have the same sum over it. */
  lemma {:induction false} SumCongruent(p: seq<int>, q: seq<int>, lo: int, hi: int)
    requires 0 <= lo <= hi <= |p| && hi <= |q|
    requires forall i :: lo <= i < hi ==> p[i] == q[i]
    ensures Sum(p, lo, hi) == Sum(q, lo, hi)
    decreases hi - lo
  {
    if lo < hi {
      SumCongruent(p, q, lo + 1, hi);
    }
  }

  /** A range of non-negative slots sums to zero exactly when every slot is empty. */
  lemma {:induction false} SumZeroIffEmpty(p: seq<int>, lo: int, hi: int)
    requires 0 <= lo <= hi <= |p|
    requires forall i :: lo <= i < hi ==> p[i] >= 0
    ensures Sum(p, lo, hi) >= 0
    ensures Sum(p, lo, hi) == 0 <==> forall i :: lo <= i < hi ==> p[i] == 0
    decreases hi - lo
  {
    if lo < hi {
      SumZeroIffEmpty(p, lo + 1, hi);
    }
  }

  /** The board total is the two rows plus the two stores. */
  lemma TotalByParts(p: Pits)
    ensures Total(p) == RowSum(p, 0) + p[6] + RowSum(p, 1) + p[13]
  {
    SumSplit(p, 0, 6, 14);
    SumSplit(p, 6, 7, 14);
    SumSplit(p, 7, 13, 14);
    assert Sum(p, 6, 7) == p[6] + Sum(p, 7, 7);
    assert Sum(p, 13, 14) == p[13] + Sum(p, 14, 14);
  }

  // ---------------------------------------------------------------------
  // Legal moves

  /** The indices lo, lo+1, ..., hi-1 whose slot holds stones, in order. */
  function MovesFrom(p: Pits, lo: int, hi: int): (r: seq<int>)
    requires 0 <= lo <= hi <= 14
    ensures forall i {:trigger i in r} :: i in r <==> lo <= i < hi && p[i] > 0
    ensures forall k :: 0 <= k < |r| ==> lo <= r[k] < hi
    ensures forall j, k :: 0 <= j < k < |r| ==> r[j] < r[k]
    ensures |r| <= hi - lo
    decreases hi - lo
  {
    if lo == hi then []
    else if p[lo] > 0 then [lo] + MovesFrom(p, lo + 1, hi)
    else MovesFrom(p, lo + 1, hi)
  }

  /** The pits of the player's row that hold stones, in ascending order. */
  function LegalMoves(s: State, player: Player): (r: seq<int>)
    ensures forall i {:trigger i in r} :: i in r <==> InSide(i, player) && s.pits[i] > 0
    ensures forall j, k :: 0 <= j < k < |r| ==> r[j] < r[k]
    ensures |r| <= 6
  {
    MovesFrom(s.pits, SideStart(player), SideStart(player) + 6)
  }

  /** A player has a move exactly when some pit of the row is non-empty,
      which for a board without negative slots means the row sum is positive. */
  lemma HasMovesIffRowNonEmpty(s: State, player: Player)
    requires NonNegative(s.pits)
    ensures LegalMoves(s, player) != [] <==> RowSum(s.pits, player) != 0
  {
    var lo := SideStart(player);
    SumZeroIffEmpty(s.pits, lo, lo + 6);
    if LegalMoves(s, player) != [] {
      assert LegalMoves(s, player)[0] in LegalMoves(s, player);
    }
    if RowSum(s.pits, player) != 0 {
      var i :| lo <= i < lo + 6 && s.pits[i] != 0;
      assert i in LegalMoves(s, player);
    }
  }

  /** The opening position: `stonesPerPit` stones in each of the twelve pits,
      empty stores, player 0 to move, no capture and the game running. */
  function StandardStart(stonesPerPit: int): (s: State)
    ensures forall i :: 0 <= i < 14 ==>
              s.pits[i] == if i == MancalaIndex(0) || i == MancalaIndex(1) then 0 else stonesPerPit
    ensures s.playerToMove == 0 && !s.lastMoveWasCapture && !s.gameOver
    ensures Total(s.pits) == 12 * stonesPerPit
    ensures stonesPerPit >= 0 ==> NonNegative(s.pits)
  {
    var n := stonesPerPit;
    var s := State([n, n, n, n, n, n, 0, n, n, n, n, n, n, 0], 0, false, false);
    TotalByParts(s.pits);
    s
  }

  /** When every pit in lo..hi-1 holds stones, all of them are moves. */
  lemma {:induction false} MovesFromFull(p: Pits, lo: int, hi: int)
    requires 0 <= lo <= hi <= 14
    requires forall i :: lo <= i < hi ==> p[i] > 0
    ensures |MovesFrom(p, lo, hi)| == hi - lo
    ensures forall k :: 0 <= k < hi - lo ==> MovesFrom(p, lo, hi)[k] == lo + k
    decreases hi - lo
  {
    if lo < hi {
      MovesFromFull(p, lo + 1, hi);
    }
  }

  /** In the opening position with at least one stone per pit, either player
      may play any of its six pits. */
  lemma StartMoves(stonesPerPit: int)
    requires stonesPerPit > 0
    ensures LegalMoves(StandardStart(stonesPerPit), 0) == [0, 1, 2, 3, 4, 5]
    ensures LegalMoves(StandardStart(stonesPerPit), 1) == [7, 8, 9, 10, 11, 12]
  {
    var p := StandardStart(stonesPerPit).pits;
    MovesFromFull(p, 0, 6);
    MovesFromFull(p, 7, 13);
  }
}
