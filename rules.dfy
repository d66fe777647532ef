/** The rules engine: one move of Kalah. The chosen pit is emptied, its
    stones are sown one by one around the ring (jumping over the opponent's
    store), a last stone that lands alone in the mover's own pit captures the
    pit across the board, a row left empty ends the game with each side
    collecting its own row, and the turn passes unless the continuation rule
    grants another.

    `Step` is the rule as a function of values; `ApplyMove` is the same
    rule carried out in place on a copy of the slots, and is proved equal
    to it. The lemmas state what a move does to the stones, the flags and
    the turn. */
module Rules {
  import opened Board

  datatype Error = IllegalMove

  datatype Result<T> = Success(value: T) | Failure(error: Error)

  /** `m` is one of the current mover's legal moves. */
  predicate IsLegal(s: State, m: int) {
    m in LegalMoves(s, s.playerToMove)
  }

  // ---------------------------------------------------------------------
  // Sowing

  /** The slot that receives the next stone after `idx`: one step around
      the ring, and one more when that step lands on the opponent's store. */
  function NextSlot(idx: int, player: Player): (j: int)
    requires 0 <= idx < 14
    ensures 0 <= j < 14 && j != OpponentMancalaIndex(player)
    ensures (idx + 1) % 14 != OpponentMancalaIndex(player) ==> j == (idx + 1) % 14
    ensures (idx + 1) % 14 == OpponentMancalaIndex(player) ==> j == (idx + 2) % 14
  {
    var k := (idx + 1) % 14;
    if k == OpponentMancalaIndex(player) then (k + 1) % 14 else k
  }

  /** The slots after sowing, and the slot that took the last stone. */
  datatype Sowing = Sowing(pits: Pits, last: int)

  /** Sow `stones` stones one per slot, starting after `idx`. */
  function Sow(p: Pits, idx: int, stones: nat, player: Player): (r: Sowing)
    requires 0 <= idx < 14
    ensures 0 <= r.last < 14
    ensures stones > 0 ==> r.last != OpponentMancalaIndex(player)
    decreases stones
  {
    if stones == 0 then Sowing(p, idx)
    else
      var j := NextSlot(idx, player);
      Sow(p[j := p[j] + 1], j, stones - 1, player)
  }

  /** Sowing adds exactly the sown stones to the board. */
  lemma {:induction false} SowAddsStones(p: Pits, idx: int, stones: nat, player: Player)
    requires 0 <= idx < 14
    ensures Total(Sow(p, idx, stones, player).pits) == Total(p) + stones
    decreases stones
  {
    if stones > 0 {
      var j := NextSlot(idx, player);
      SumUpdate(p, 0, 14, j, p[j] + 1);
      SowAddsStones(p[j := p[j] + 1], j, stones - 1, player);
    }
  }

  /** Sowing never takes a stone away, never feeds the opponent's store, and
      the slot of the last stone gains at least that stone. */
  lemma {:induction false} SowOnlyAdds(p: Pits, idx: int, stones: nat, player: Player)
    requires 0 <= idx < 14
    ensures var r := Sow(p, idx, stones, player);
      (forall i :: 0 <= i < 14 ==> r.pits[i] >= p[i])
      && r.pits[OpponentMancalaIndex(player)] == p[OpponentMancalaIndex(player)]
      && (stones > 0 ==> r.pits[r.last] >= p[r.last] + 1)
    decreases stones
  {
    if stones > 0 {
      var j := NextSlot(idx, player);
      SowOnlyAdds(p[j := p[j] + 1], j, stones - 1, player);
    }
  }

  /** Stones that neither wrap around the ring nor reach the opponent's
      store land one each in the slots after `idx`, the last one in slot
      `idx + stones`. */
  lemma {:induction false} SowStraight(p: Pits, idx: int, stones: nat, player: Player)
    requires 0 <= idx && idx + stones < 14
    requires !(idx < OpponentMancalaIndex(player) <= idx + stones)
    ensures Sow(p, idx, stones, player).last == idx + stones
    ensures forall k :: 0 <= k < 14 ==>
              Sow(p, idx, stones, player).pits[k] == p[k] + (if idx < k <= idx + stones then 1 else 0)
    decreases stones
  {
    if stones > 0 {
      var j := idx + 1;
      assert NextSlot(idx, player) == j;
      var p' := p[j := p[j] + 1];
      assert Sow(p, idx, stones, player) == Sow(p', j, stones - 1, player);
      SowStraight(p', j, stones - 1, player);
      var q := Sow(p', j, stones - 1, player).pits;
      forall k | 0 <= k < 14
        ensures q[k] == p[k] + (if idx < k <= idx + stones then 1 else 0)
      {
        assert q[k] == p'[k] + (if j < k <= j + stones - 1 then 1 else 0);
      }
    }
  }

  /** The sowing of legal move `m`: the pit is emptied and its stones sown. */
  function Sown(s: State, m: int): (r: Sowing)
    requires IsLegal(s, m)
    ensures r.last != OpponentMancalaIndex(s.playerToMove)
  {
    Sow(s.pits[m := 0], m, s.pits[m], s.playerToMove)
  }

  // ---------------------------------------------------------------------
  // Capture

  /** The last stone landed in the mover's own pit, which now holds just that
      stone, and the pit across holds stones. */
  predicate CaptureFires(p: Pits, last: int, player: Player) {
    InSide(last, player) && p[last] == 1 && p[OppositeIndex(last)] > 0
  }

  /** The board after the capture check at slot `last`. */
  function Capture(p: Pits, last: int, player: Player): Pits
    requires 0 <= last < 14
  {
    if CaptureFires(p, last, player) then
      var opp := OppositeIndex(last);
      var store := MancalaIndex(player);
      p[opp := 0][last := 0][store := p[store] + p[opp] + 1]
    else p
  }

  /** A capture empties the landing pit and the pit across and puts both
      pits' stones in the mover's store; nothing else moves. Without a
      capture the board is untouched. */
  lemma CaptureEffect(p: Pits, last: int, player: Player)
    requires 0 <= last < 14
    ensures CaptureFires(p, last, player) ==>
      var q, opp, store := Capture(p, last, player), OppositeIndex(last), MancalaIndex(player);
      q[last] == 0 && q[opp] == 0 && q[store] == p[store] + p[opp] + 1
      && forall i :: 0 <= i < 14 && i != last && i != opp && i != store ==> q[i] == p[i]
    ensures !CaptureFires(p, last, player) ==> Capture(p, last, player) == p
  {
  }

  /** A capture keeps the board total. */
  lemma CaptureKeepsTotal(p: Pits, last: int, player: Player)
    requires 0 <= last < 14
    ensures Total(Capture(p, last, player)) == Total(p)
  {
    if CaptureFires(p, last, player) {
      var opp, store := OppositeIndex(last), MancalaIndex(player);
      var v := p[store] + p[opp] + 1;
      assert Capture(p, last, player) == p[opp := 0][last := 0][store := v];
      ThreeSlotsTotal(p, opp, last, store, v);
    }
  }

  /** Clearing two slots and setting a third changes the total by the
      difference. */
  lemma ThreeSlotsTotal(p: Pits, a: int, b: int, c: int, v: int)
    requires 0 <= a < 14 && 0 <= b < 14 && 0 <= c < 14
    requires a != b && a != c && b != c
    ensures Total(p[a := 0][b := 0][c := v]) == Total(p) - p[a] - p[b] - p[c] + v
  {
    var p1 := p[a := 0];
    TotalUpdate(p, a, 0);
    TotalUpdate(p1, b, 0);
    TotalUpdate(p1[b := 0], c, v);
  }

  /** The board after the capture check of legal move `m`. */
  function AfterCapture(s: State, m: int): Pits
    requires IsLegal(s, m)
  {
    Capture(Sown(s, m).pits, Sown(s, m).last, s.playerToMove)
  }

  // ---------------------------------------------------------------------
  // End of game

  /** The player's row holds no stones. */
  predicate SideEmpty(p: Pits, player: Player) {
    RowSum(p, player) == 0
  }

  /** The player's row emptied into the player's own store. */
  function HarvestSide(p: Pits, player: Player): Pits {
    var stash := RowSum(p, player);
    if player == 0 then [0, 0, 0, 0, 0, 0, p[6] + stash] + p[7..]
    else p[..7] + [0, 0, 0, 0, 0, 0, p[13] + stash]
  }

  /** Both rows emptied, each into its owner's store. */
  function Harvest(p: Pits): Pits {
    HarvestSide(HarvestSide(p, 0), 1)
  }

  /** Sweeping one row empties each of its pits into the owner's store; the
      total and the other row are kept. */
  lemma HarvestSideEffect(p: Pits, player: Player)
    ensures var q := HarvestSide(p, player);
      Total(q) == Total(p) && RowSum(q, player) == 0 && RowSum(q, 1 - player) == RowSum(p, 1 - player)
    ensures var q := HarvestSide(p, player);
      (forall i :: InSide(i, player) ==> q[i] == 0)
      && q[MancalaIndex(player)] == p[MancalaIndex(player)] + RowSum(p, player)
  {
    var q := HarvestSide(p, player);
    assert Swept(p, q, player);
    SweptSums(p, q, player);
  }

  /** `q` is `p` with the player's row emptied into the player's store. */
  predicate Swept(p: Pits, q: Pits, player: Player) {
    forall i :: 0 <= i < 14 ==>
      q[i] == if InSide(i, player) then 0
              else if i == MancalaIndex(player) then p[i] + RowSum(p, player)
              else p[i]
  }

  /** A sweep keeps the total, empties the swept row's sum and leaves the
      other row's sum alone. */
  lemma SweptSums(p: Pits, q: Pits, player: Player)
    requires Swept(p, q, player)
    ensures Total(q) == Total(p) && RowSum(q, player) == 0 && RowSum(q, 1 - player) == RowSum(p, 1 - player)
  {
    TotalByParts(p);
    TotalByParts(q);
    if player == 0 {
      SumZeroIffEmpty(q, 0, 6);
      SumCongruent(p, q, 7, 13);
    } else {
      SumZeroIffEmpty(q, 7, 13);
      SumCongruent(p, q, 0, 6);
    }
  }

  /** The harvest empties both rows into their owners' stores and keeps the
      board total. */
  lemma HarvestEffect(p: Pits)
    ensures var q := Harvest(p);
      Total(q) == Total(p)
      && (forall i :: InSide(i, 0) || InSide(i, 1) ==> q[i] == 0)
      && q[MancalaIndex(0)] == p[MancalaIndex(0)] + RowSum(p, 0)
      && q[MancalaIndex(1)] == p[MancalaIndex(1)] + RowSum(p, 1)
  {
    var p1 := HarvestSide(p, 0);
    var q := HarvestSide(p1, 1);
    HarvestSideEffect(p, 0);
    HarvestSideEffect(p1, 1);
    assert p1[13] == p[13] && q[6] == p1[6];
    assert forall i :: InSide(i, 0) ==> q[i] == p1[i];
  }

  // ---------------------------------------------------------------------
  // One move

  /** The whole move: illegal indices are refused; otherwise sow, capture,
      end the game if a row is empty, and hand over the turn. */
  function Step(s: State, m: int, continuationRule: bool): (r: Result<State>)
    ensures r.Success? <==> InSide(m, s.playerToMove) && s.pits[m] > 0
  {
    if m !in LegalMoves(s, s.playerToMove) then Failure(IllegalMove)
    else
      var player := s.playerToMove;
      var sown := Sown(s, m);
      var captured := AfterCapture(s, m);
      var over := SideEmpty(captured, 0) || SideEmpty(captured, 1);
      var gameOver := s.gameOver || over;
      var next :=
        if gameOver then player
        else if continuationRule && sown.last == MancalaIndex(player) then player
        else 1 - player;
      Success(State(if over then Harvest(captured) else captured, next,
                    CaptureFires(sown.pits, sown.last, player), gameOver))
  }

  /** A move neither creates nor destroys stones. */
  lemma StepConservesStones(s: State, m: int, continuationRule: bool)
    requires IsLegal(s, m)
    ensures Total(Step(s, m, continuationRule).value.pits) == Total(s.pits)
  {
    SumUpdate(s.pits, 0, 14, m, 0);
    SowAddsStones(s.pits[m := 0], m, s.pits[m], s.playerToMove);
    CaptureKeepsTotal(Sown(s, m).pits, Sown(s, m).last, s.playerToMove);
    HarvestEffect(AfterCapture(s, m));
  }

  /** A move never leaves a slot with a negative count. */
  lemma StepKeepsNonNegative(s: State, m: int, continuationRule: bool)
    requires NonNegative(s.pits) && IsLegal(s, m)
    ensures NonNegative(Step(s, m, continuationRule).value.pits)
  {
    var player := s.playerToMove;
    var w := Sown(s, m);
    assert NonNegative(w.pits) by {
      SowOnlyAdds(s.pits[m := 0], m, s.pits[m], player);
    }
    var q := AfterCapture(s, m);
    assert NonNegative(q) by {
      CaptureEffect(w.pits, w.last, player);
    }
    HarvestKeepsNonNegative(q);
  }

  lemma HarvestKeepsNonNegative(p: Pits)
    requires NonNegative(p)
    ensures NonNegative(Harvest(p))
  {
    SumZeroIffEmpty(p, 0, 6);
    SumZeroIffEmpty(p, 7, 13);
    HarvestEffect(p);
    forall i | 0 <= i < 14 ensures Harvest(p)[i] >= 0 {
      SlotsPartitionRing(i);
    }
  }

  /** The capture flag is set exactly when the last stone falls alone into
      the mover's own pit with stones across from it; a landing pit other
      than the start pit that already held stones before the move never
      captures. */
  lemma StepCapture(s: State, m: int, continuationRule: bool)
    requires IsLegal(s, m)
    ensures var w := Sown(s, m);
      Step(s, m, continuationRule).value.lastMoveWasCapture <==>
        InSide(w.last, s.playerToMove) && w.pits[w.last] == 1 && w.pits[OppositeIndex(w.last)] > 0
    ensures var w := Sown(s, m);
      w.last != m && s.pits[w.last] >= 1 ==> !Step(s, m, continuationRule).value.lastMoveWasCapture
  {
    SowOnlyAdds(s.pits[m := 0], m, s.pits[m], s.playerToMove);
  }

  /** When a row is empty after sowing and capture, the game ends: both rows
      are emptied and each row's stones go to its owner's store. Otherwise
      nothing is harvested and the game-over flag is left as it was. */
  lemma StepEndOfGame(s: State, m: int, continuationRule: bool)
    requires IsLegal(s, m)
    ensures var q, r := AfterCapture(s, m), Step(s, m, continuationRule).value;
      SideEmpty(q, 0) || SideEmpty(q, 1) ==>
        r.gameOver
        && (forall i :: InSide(i, 0) || InSide(i, 1) ==> r.pits[i] == 0)
        && r.pits[MancalaIndex(0)] == q[MancalaIndex(0)] + RowSum(q, 0)
        && r.pits[MancalaIndex(1)] == q[MancalaIndex(1)] + RowSum(q, 1)
    ensures var q, r := AfterCapture(s, m), Step(s, m, continuationRule).value;
      !SideEmpty(q, 0) && !SideEmpty(q, 1) ==> r.pits == q && r.gameOver == s.gameOver
  {
    HarvestEffect(AfterCapture(s, m));
  }

  /** While the game goes on, the mover keeps the turn exactly when the
      continuation rule is on and the last stone fell in the mover's store;
      otherwise the other player moves. Once the game is over the turn
      stays where it was. */
  lemma StepTurn(s: State, m: int, continuationRule: bool)
    requires IsLegal(s, m)
    ensures var r := Step(s, m, continuationRule).value;
      r.gameOver ==> r.playerToMove == s.playerToMove
    ensures var r := Step(s, m, continuationRule).value;
      !r.gameOver ==>
        r.playerToMove == (if continuationRule && Sown(s, m).last == MancalaIndex(s.playerToMove)
                           then s.playerToMove else 1 - s.playerToMove)
  {
  }

  /** After a move from a running game, the game is over exactly when both
      rows are empty, and then neither player has a move; while it goes on,
      both players have a move. */
  lemma StepOverOrBothCanMove(s: State, m: int, continuationRule: bool)
    requires NonNegative(s.pits) && IsLegal(s, m)
    ensures var r := Step(s, m, continuationRule).value;
      !s.gameOver ==> (r.gameOver <==> forall i :: InSide(i, 0) || InSide(i, 1) ==> r.pits[i] == 0)
    ensures var r := Step(s, m, continuationRule).value;
      !s.gameOver && r.gameOver ==> LegalMoves(r, 0) == [] && LegalMoves(r, 1) == []
    ensures var r := Step(s, m, continuationRule).value;
      !r.gameOver ==> LegalMoves(r, 0) != [] && LegalMoves(r, 1) != []
  {
    var r := Step(s, m, continuationRule).value;
    var q := AfterCapture(s, m);
    StepKeepsNonNegative(s, m, continuationRule);
    StepEndOfGame(s, m, continuationRule);
    HasMovesIffRowNonEmpty(r, 0);
    HasMovesIffRowNonEmpty(r, 1);
    SumZeroIffEmpty(r.pits, 0, 6);
    SumZeroIffEmpty(r.pits, 7, 13);
  }

  /** From the opening position with four stones per pit, pit 2 sows into
      pits 3, 4, 5 and the mover's store: no capture, and the mover moves
      again exactly when the continuation rule is on. */
  lemma OpeningMoveIntoStore()
    ensures Step(StandardStart(4), 2, true)
      == Success(State([4, 4, 0, 5, 5, 5, 1, 4, 4, 4, 4, 4, 4, 0], 0, false, false))
    ensures Step(StandardStart(4), 2, false)
      == Success(State([4, 4, 0, 5, 5, 5, 1, 4, 4, 4, 4, 4, 4, 0], 1, false, false))
  {
    var s := StandardStart(4);
    var q := [4, 4, 0, 5, 5, 5, 1, 4, 4, 4, 4, 4, 4, 0];
    assert 2 in LegalMoves(s, 0);
    SowStraight(s.pits[2 := 0], 2, 4, 0);
    assert Sown(s, 2) == Sowing(q, 6);
    assert AfterCapture(s, 2) == q;
    assert RowSum(q, 0) == 23 && RowSum(q, 1) == 24;
    StepEndOfGame(s, 2, true);
    StepEndOfGame(s, 2, false);
    StepTurn(s, 2, true);
    StepTurn(s, 2, false);
  }

  /** Player 0 plays the last stone of the row into the store: the row is
      empty, so the game ends and player 1's remaining stones go to player
      1's store. */
  lemma EmptyingRowEndsGame(s: State)
    requires s == State([0, 0, 0, 0, 0, 1, 0, 1, 2, 0, 0, 0, 0, 0], 0, false, false)
    ensures Step(s, 5, false) == Success(State([0, 0, 0, 0, 0, 0, 1, 0, 0, 0, 0, 0, 0, 3], 0, false, true))
  {
    var q := [0, 0, 0, 0, 0, 0, 1, 1, 2, 0, 0, 0, 0, 0];
    LastStoneSowing(s);
    assert RowSum(q, 0) == 0 && RowSum(q, 1) == 3;
    assert HarvestSide(q, 0) == q;
    assert Harvest(q) == [0, 0, 0, 0, 0, 0, 1, 0, 0, 0, 0, 0, 0, 3];
  }

  /** The single stone of pit 5 lands in player 0's store, with no capture. */
  lemma LastStoneSowing(s: State)
    requires s == State([0, 0, 0, 0, 0, 1, 0, 1, 2, 0, 0, 0, 0, 0], 0, false, false)
    ensures IsLegal(s, 5)
    ensures Sown(s, 5) == Sowing([0, 0, 0, 0, 0, 0, 1, 1, 2, 0, 0, 0, 0, 0], 6)
    ensures AfterCapture(s, 5) == [0, 0, 0, 0, 0, 0, 1, 1, 2, 0, 0, 0, 0, 0]
  {
    assert 5 in LegalMoves(s, 0);
    var p := [0, 0, 0, 0, 0, 0, 0, 1, 2, 0, 0, 0, 0, 0];
    assert s.pits[5 := 0] == p;
    assert Sow(p, 5, 1, 0) == Sow(p[6 := 1], 6, 0, 0);
  }

  /** Carry out a move on a copy of the board, in place. The copy's slots
      are an array; sowing walks the ring one slot at a time (SowInPlace),
      the capture check writes the two pits and the store (CaptureInPlace),
      and the harvest empties each row into its store (HarvestRow). */
  method ApplyMove(state: State, moveIdx: int, continuationRule: bool) returns (r: Result<State>)
    ensures r == Step(state, moveIdx, continuationRule)
  {
    var pits := new int[14](i requires 0 <= i < 14 => state.pits[i]);
    var player := state.playerToMove;
    if moveIdx !in LegalMoves(state, player) {
      return Failure(IllegalMove);
    }
    ghost var sown := Sown(state, moveIdx);
    var stones := pits[moveIdx];
    pits[moveIdx] := 0;
    assert pits[..] == state.pits[moveIdx := 0];
    var idx := SowInPlace(pits, moveIdx, stones, player);
    assert pits[..] == sown.pits && idx == sown.last;

    var lastMoveWasCapture := CaptureInPlace(pits, idx, player);
    assert lastMoveWasCapture == CaptureFires(sown.pits, sown.last, player);
    assert pits[..] == AfterCapture(state, moveIdx);

    var over := SideEmpty(pits[..], 0) || SideEmpty(pits[..], 1);
    ghost var beforeHarvest := pits[..];
    if over {
      for p := 0 to 2
        invariant pits[..] == if p == 0 then beforeHarvest
                              else if p == 1 then HarvestSide(beforeHarvest, 0)
                              else Harvest(beforeHarvest)
      {
        HarvestRow(pits, p);
      }
    }
    assert pits[..] == if over then Harvest(beforeHarvest) else beforeHarvest;

    var gameOver := state.gameOver;
    if over {
      gameOver := true;
    }
    var next := player;
    if !gameOver {
      if continuationRule && idx == MancalaIndex(player) {
        next := player;
      } else {
        next := 1 - player;
      }
    }
    r := Success(State(pits[..], next, lastMoveWasCapture, gameOver));
    ghost var captured := AfterCapture(state, moveIdx);
    assert over == (SideEmpty(captured, 0) || SideEmpty(captured, 1));
    assert Step(state, moveIdx, continuationRule).value.pits == pits[..];
    assert Step(state, moveIdx, continuationRule).value.gameOver == gameOver;
    assert Step(state, moveIdx, continuationRule).value.lastMoveWasCapture == lastMoveWasCapture;
    assert Step(state, moveIdx, continuationRule).value.playerToMove == next;
  }

  /** Empty the player's row into the player's own store, slot by slot. */
  method HarvestRow(pits: array<int>, p: Player)
    requires pits.Length == 14
    modifies pits
    ensures pits[..] == HarvestSide(old(pits[..]), p)
  {
    var lo := SideStart(p);
    var stash := RowSum(pits[..], p);
    for i := lo to lo + 6
      invariant forall k :: 0 <= k < 14 ==> pits[k] == if lo <= k < i then 0 else old(pits[k])
    {
      pits[i] := 0;
    }
    pits[MancalaIndex(p)] := pits[MancalaIndex(p)] + stash;
    assert forall k :: 0 <= k < 14 ==> pits[k] == HarvestSide(old(pits[..]), p)[k];
  }

  /** Sow `stones` stones one per slot after `idx`, jumping over the
      opponent's store; returns the slot of the last stone. */
  method SowInPlace(pits: array<int>, idx: int, stones: int, player: Player) returns (last: int)
    requires pits.Length == 14 && 0 <= idx < 14 && stones >= 0
    modifies pits
    ensures Sowing(pits[..], last) == Sow(old(pits[..]), idx, stones, player)
  {
    var skip := OpponentMancalaIndex(player);
    var left := stones;
    last := idx;
    while left > 0
      invariant 0 <= last < 14 && left >= 0
      invariant Sow(pits[..], last, left, player) == Sow(old(pits[..]), idx, stones, player)
      decreases 2 * left + (if (last + 1) % 14 == skip then 1 else 0)
    {
      ghost var before := last;
      last := (last + 1) % 14;
      if last == skip {
        assert NextSlot(last, player) == NextSlot(before, player);
        continue;
      }
      pits[last] := pits[last] + 1;
      left := left - 1;
    }
  }

  /** The capture check after the last stone fell in slot `idx`. */
  method CaptureInPlace(pits: array<int>, idx: int, player: Player) returns (capture: bool)
    requires pits.Length == 14 && 0 <= idx < 14
    modifies pits
    ensures capture == CaptureFires(old(pits[..]), idx, player)
    ensures pits[..] == Capture(old(pits[..]), idx, player)
  {
    capture := false;
    if InSide(idx, player) && pits[idx] == 1 {
      var opp := OppositeIndex(idx);
      var captured := pits[opp];
      if captured > 0 {
        pits[opp] := 0;
        pits[idx] := 0;
        pits[MancalaIndex(player)] := pits[MancalaIndex(player)] + captured + 1;
        capture := true;
      }
    }
  }
}
