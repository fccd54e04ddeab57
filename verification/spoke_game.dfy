/** The spoke reaction game: four tokens (player, goal, foe, creep) on a
    ring of ten spokes. Arrow keys move the player around the ring, after
    which the foe steps toward the goal and the creep toward the player;
    up and down pull the goal toward or push it away from the player. A
    round ends when the creep catches the player, the foe reaches the goal,
    or the player reaches the goal, and a new round starts at once. */
module SpokeGame {

  /** The number of spokes on the ring. */
  const SpokeCount := 10

  type Spoke = x: int | 0 <= x < 10

  /** The neighbour one step clockwise: `(c + 1) % 10`. */
  function Clockwise(c: Spoke): (r: Spoke)
    ensures r == if c == 9 then 0 else c + 1
  {
    (c + 1) % SpokeCount
  }

  /** The neighbour one step counter-clockwise: `(c - 1 + 10) % 10`. */
  function CounterClockwise(c: Spoke): (r: Spoke)
    ensures r == if c == 0 then 9 else c - 1
  {
    (c - 1 + SpokeCount) % SpokeCount
  }

  /** The distance the game compares: how many clockwise steps lead from
      `t` to `x`, that is `(x - t + 10) % 10`. It is zero exactly at `t`. */
  function Offset(x: Spoke, t: Spoke): (d: nat)
    ensures d < SpokeCount
    ensures d == 0 <==> x == t
    ensures d == if t <= x then x - t else x - t + SpokeCount
  {
    (x - t + SpokeCount) % SpokeCount
  }

  /** The number of steps between two spokes along the shorter arc. */
  function RingDistance(x: Spoke, t: Spoke): nat {
    var d := Offset(x, t);
    if d <= SpokeCount - d then d else SpokeCount - d
  }

  /** One step of `current` toward `target`. It moves to whichever
      neighbour has the smaller offset from the target, so the offset
      shrinks at every step (it is not always the shorter arc). */
  function MoveToward(target: Spoke, current: Spoke): (r: Spoke)
    ensures current == target ==> r == current
    ensures current != target ==> r == Clockwise(current) || r == CounterClockwise(current)
    ensures current != target ==> r == target || Offset(r, target) == Offset(current, target) - 1
    ensures Clockwise(current) == target || CounterClockwise(current) == target ==> r == target
  {
    if current == target then current
    else
      var cw := Clockwise(current);
      var ccw := CounterClockwise(current);
      if Offset(cw, target) < Offset(ccw, target) then cw else ccw
  }

  /** One step of `current` away from `target`: the neighbour with the
      larger offset. A token that is not on the target never lands on it. */
  function MoveAway(target: Spoke, current: Spoke): (r: Spoke)
    ensures current == target ==> r == current
    ensures current != target ==> r == Clockwise(current) || r == CounterClockwise(current)
    ensures current != target ==> r != target
    ensures current != target ==> Offset(r, target) >= Offset(current, target) || Offset(current, target) == 9
  {
    if current == target then current
    else
      var cw := Clockwise(current);
      var ccw := CounterClockwise(current);
      if Offset(cw, target) > Offset(ccw, target) then cw else ccw
  }

  /** `n` successive steps toward a fixed target. */
  function Chase(target: Spoke, current: Spoke, n: nat): Spoke
    decreases n
  {
    if n == 0 then current else Chase(target, MoveToward(target, current), n - 1)
  }

  /** Chasing a fixed target reaches it once the number of steps covers
      the starting offset, and stays there. */
  lemma {:induction false} ChaseReaches(target: Spoke, current: Spoke, n: nat)
    requires n >= Offset(current, target)
    ensures Chase(target, current, n) == target
    decreases n
  {
    if n > 0 {
      ChaseReaches(target, MoveToward(target, current), n - 1);
    }
  }

  /** Nine steps toward a fixed target always reach it. */
  lemma ChaseWithinNine(target: Spoke, current: Spoke)
    ensures Chase(target, current, 9) == target
  {
    ChaseReaches(target, current, 9);
  }

  /** `MoveToward` is not a shortest-arc step: from spoke 1 with target 3
      it moves to spoke 0, one step further away on the ring. */
  lemma MoveTowardNotShortestArc()
    ensures MoveToward(3, 1) == 0
    ensures RingDistance(0, 3) > RingDistance(1, 3)
  {
  }

  /** `MoveAway` is not a step away along the ring either: from spoke 5
      with target 0 it moves to spoke 6, one step closer on the ring. At
      offsets 5 to 8 the larger clockwise offset is the shorter arc back. */
  lemma MoveAwayNotFurtherAlongRing()
    ensures MoveAway(0, 5) == 6
    ensures RingDistance(6, 0) < RingDistance(5, 0)
  {
  }

  // ---------------------------------------------------------------------
  // the board and its transitions

  datatype Board = Board(player: Spoke, goal: Spoke, foe: Spoke, creep: Spoke, gameOver: bool)

  /** The key pressed: one of the four arrow keys, or any key whose name is
      none of the four arrow names. */
  datatype Key = ArrowRight | ArrowLeft | ArrowUp | ArrowDown | OtherKey

  /** How a check of the board ended. */
  datatype Verdict = CaughtByCreep | FoeReachedGoal | PlayerReachedGoal | Undecided

  /** The result of one key press: the new board, whether the key moved
      anything (only then is the board checked) and the check's verdict. */
  datatype Turn = Turn(board: Board, moved: bool, verdict: Verdict)

  /** The board before the first round starts. */
  const Initial := Board(0, 3, 6, 9, false)

  predicate IsArrow(k: Key) {
    !k.OtherKey?
  }

  /** Four pairwise distinct positions. */
  predicate Distinct(b: Board) {
    && b.player != b.goal && b.player != b.foe && b.player != b.creep
    && b.goal != b.foe && b.goal != b.creep && b.foe != b.creep
  }

  /** `startNewRound`: the player lands on the random spoke `roll`, and the
      goal, foe and creep three, six and nine spokes further clockwise. */
  function NewRound(roll: Spoke): (b: Board)
    ensures b.player == roll && !b.gameOver
    ensures Offset(b.goal, roll) == 3 && Offset(b.foe, roll) == 6 && Offset(b.creep, roll) == 9
    ensures Distinct(b)
  {
    Board(roll, (roll + 3) % SpokeCount, (roll + 6) % SpokeCount, (roll + 9) % SpokeCount, false)
  }

  /** `checkGameState`: the creep catching the player takes precedence over
      the foe reaching the goal, which takes precedence over the player
      reaching it; any of them starts a new round on spoke `roll`. */
  function CheckGameState(b: Board, roll: Spoke): (r: (Board, Verdict))
    ensures r.1 == CaughtByCreep <==> b.player == b.creep
    ensures r.1 == FoeReachedGoal <==> b.player != b.creep && b.foe == b.goal
    ensures r.1 == PlayerReachedGoal <==> b.player != b.creep && b.foe != b.goal && b.player == b.goal
    ensures r.1 != Undecided ==> r.0 == NewRound(roll)
    ensures r.1 == Undecided ==> r.0 == b
  {
    if b.player == b.creep then (NewRound(roll), CaughtByCreep)
    else if b.foe == b.goal then (NewRound(roll), FoeReachedGoal)
    else if b.player == b.goal then (NewRound(roll), PlayerReachedGoal)
    else (b, Undecided)
  }

  /** A freshly started round is never decided by the check that follows. */
  lemma NewRoundUndecided(roll: Spoke, next: Spoke)
    ensures CheckGameState(NewRound(roll), next) == (NewRound(roll), Undecided)
  {
  }

  /** The positions after an arrow key, before the board is checked. */
  function Move(b: Board, k: Key): (r: Board)
    requires IsArrow(k)
    ensures r.gameOver == b.gameOver
    ensures k == ArrowRight ==> r.player == Clockwise(b.player)
    ensures k == ArrowLeft ==> r.player == CounterClockwise(b.player)
    ensures k.ArrowRight? || k.ArrowLeft? ==>
      && r.goal == b.goal
      && r.foe == MoveToward(b.goal, b.foe)
      && r.creep == MoveToward(r.player, b.creep)
    ensures k.ArrowUp? || k.ArrowDown? ==>
      r.player == b.player && r.foe == b.foe && r.creep == b.creep
    ensures k == ArrowUp ==> r.goal == MoveToward(b.player, b.goal)
    ensures k == ArrowDown ==> r.goal == MoveAway(b.player, b.goal)
  {
    match k
    case ArrowRight =>
      var p := Clockwise(b.player);
      b.(player := p, foe := MoveToward(b.goal, b.foe), creep := MoveToward(p, b.creep))
    case ArrowLeft =>
      var p := CounterClockwise(b.player);
      b.(player := p, foe := MoveToward(b.goal, b.foe), creep := MoveToward(p, b.creep))
    case ArrowUp =>
      b.(goal := MoveToward(b.player, b.goal))
    case ArrowDown =>
      b.(goal := MoveAway(b.player, b.goal))
  }

  /** The keydown handler. Once the game is over no key does anything; any
      other key than the four arrows changes nothing and is not checked;
      an arrow moves the tokens and then checks the board. */
  function KeyDown(b: Board, k: Key, roll: Spoke): (t: Turn)
    ensures b.gameOver ==> t == Turn(b, false, Undecided)
    ensures !b.gameOver ==> (t.moved <==> IsArrow(k))
    ensures !b.gameOver && !IsArrow(k) ==> t.board == b && t.verdict == Undecided
    ensures !b.gameOver && IsArrow(k) ==> (t.board, t.verdict) == CheckGameState(Move(b, k), roll)
    ensures !b.gameOver ==> !t.board.gameOver
  {
    if b.gameOver then Turn(b, false, Undecided)
    else if !IsArrow(k) then Turn(b, false, Undecided)
    else
      var (after, verdict) := CheckGameState(Move(b, k), roll);
      Turn(after, true, verdict)
  }

  /** A sequence of key presses, each paired with the spoke a new round
      would start on. */
  function Play(b: Board, presses: seq<(Key, Spoke)>): Board
    decreases |presses|
  {
    if presses == [] then b
    else Play(KeyDown(b, presses[0].0, presses[0].1).board, presses[1..])
  }

  /** Nothing ever sets `gameOver`: from the initial board, every board the
      game reaches accepts every arrow key. */
  lemma {:induction false} NeverGameOver(presses: seq<(Key, Spoke)>, k: Key, roll: Spoke)
    requires IsArrow(k)
    ensures !Play(Initial, presses).gameOver
    ensures KeyDown(Play(Initial, presses), k, roll).moved
  {
    StaysLive(Initial, presses);
  }

  lemma {:induction false} StaysLive(b: Board, presses: seq<(Key, Spoke)>)
    requires !b.gameOver
    ensures !Play(b, presses).gameOver
    decreases |presses|
  {
    if presses != [] {
      StaysLive(KeyDown(b, presses[0].0, presses[0].1).board, presses[1..]);
    }
  }

  /** A horizontal move brings the foe one offset step closer to the goal
      (or onto it), since the goal does not move. */
  lemma FoeClosesIn(b: Board, k: Key)
    requires k == ArrowRight || k == ArrowLeft
    requires b.foe != b.goal
    ensures var r := Move(b, k);
      r.foe == r.goal || Offset(r.foe, r.goal) == Offset(b.foe, b.goal) - 1
  {
  }
}
