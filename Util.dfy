/**
 * The rule engine of the Santorini player: cells, positions and actions, the
 * compass step, the legality of a move and of a build, the legal actions in
 * canonical order, the turn successor and the transition by one action.
 */
module Util {

  datatype Option<T> = None | Some(value: T)

  /** Side of the square board. */
  const N: nat := 5
  /** Height of a capped tower: such a cell is never entered nor built on. */
  const Dome: nat := 4

  /** A cell holds the index of the player standing on it, if any, and its tower height. */
  datatype Cell = Cell(occupant: Option<nat>, height: nat)

  /** A player's square and the height it stands at (the source's [row, col, height]). */
  datatype Position = Position(row: int, col: int, height: nat)

  datatype Kind = Move | Build
  datatype Dir = U | D | L | R | UL | UR | DL | DR
  datatype Action = Action(kind: Kind, dir: Dir)

  predicate IsGrid(b: seq<seq<Cell>>) {
    |b| == N && forall r :: 0 <= r < N ==> |b[r]| == N
  }

  /** The starting board: every cell empty and at height 0. */
  function EmptyGrid(): (b: seq<seq<Cell>>)
    ensures IsGrid(b)
    ensures forall r, c :: 0 <= r < N && 0 <= c < N ==> b[r][c] == Cell(None, 0)
  {
    seq(N, _ => seq(N, _ => Cell(None, 0)))
  }

  type Board = b: seq<seq<Cell>> | IsGrid(b) witness EmptyGrid()

  predicate InBounds(p: Position) {
    0 <= p.row < N && 0 <= p.col < N
  }

  predicate AllInBounds(ps: seq<Position>) {
    forall i :: 0 <= i < |ps| ==> InBounds(ps[i])
  }

  function Abs(x: int): nat {
    if x < 0 then -x else x
  }

  /** At most one step apart in each coordinate (Chebyshev distance at most 1). */
  predicate Near(p: Position, q: Position) {
    Abs(p.row - q.row) <= 1 && Abs(p.col - q.col) <= 1
  }

  predicate SameSquare(p: Position, q: Position) {
    p.row == q.row && p.col == q.col
  }

  /** The compass table, grouped by the letters of the direction's name. */
  function RowOffset(d: Dir): int {
    match d
    case U | UL | UR => -1
    case D | DL | DR => 1
    case L | R => 0
  }

  function ColOffset(d: Dir): int {
    match d
    case L | UL | DL => -1
    case R | UR | DR => 1
    case U | D => 0
  }

  function Opposite(d: Dir): Dir {
    match d
    case U => D
    case D => U
    case L => R
    case R => L
    case UL => DR
    case DR => UL
    case UR => DL
    case DL => UR
  }

  /**
   * The square one compass step away in the action's direction. Its height is
   * read from the board when the square is on the board, and is the source
   * height otherwise.
   */
  function MoveLogic(b: Board, p: Position, a: Action): (t: Position)
    ensures t.row == p.row + RowOffset(a.dir) && t.col == p.col + ColOffset(a.dir)
    ensures t.height == if InBounds(t) then b[t.row][t.col].height else p.height
    ensures Near(p, t) && !SameSquare(p, t)
  {
    var rc: (int, int) :=
      match a.dir
      case U => (p.row - 1, p.col)
      case D => (p.row + 1, p.col)
      case R => (p.row, p.col + 1)
      case L => (p.row, p.col - 1)
      case UR => (p.row - 1, p.col + 1)
      case DR => (p.row + 1, p.col + 1)
      case UL => (p.row - 1, p.col - 1)
      case DL => (p.row + 1, p.col - 1);
    if 0 <= rc.0 < N && 0 <= rc.1 < N then Position(rc.0, rc.1, b[rc.0][rc.1].height)
    else Position(rc.0, rc.1, p.height)
  }

  /**
   * A move from start to end is legal when end is on the board, adjacent, empty,
   * at most one level above the height recorded in start, and not capped.
   */
  function CheckMoveValidity(b: Board, start: Position, end: Position): (valid: bool)
    ensures valid <==>
      && InBounds(end)
      && Near(start, end)
      && b[end.row][end.col].occupant.None?
      && b[end.row][end.col].height <= start.height + 1
      && b[end.row][end.col].height < Dome
  {
    if end.row < 0 || end.row >= N || end.col < 0 || end.col >= N then false
    else if Abs(start.row - end.row) > 1 || Abs(start.col - end.col) > 1 then false
    else if b[end.row][end.col].occupant.None? && b[end.row][end.col].height <= start.height + 1
            && end.row >= 0 && end.col >= 0 && b[end.row][end.col].height < Dome then true
    else false
  }

  /** A build at target is legal when target is on the board, adjacent, not capped and empty. */
  function CheckBuildValidity(b: Board, player: Position, target: Position): (valid: bool)
    ensures valid <==>
      && InBounds(target)
      && Near(player, target)
      && b[target.row][target.col].height < Dome
      && b[target.row][target.col].occupant.None?
  {
    if target.row < 0 || target.row >= N || target.col < 0 || target.col >= N then false
    else if Abs(player.row - target.row) > 1 || Abs(player.col - target.col) > 1 then false
    else if target.row >= 0 && target.col >= 0 && b[target.row][target.col].height < Dome
            && b[target.row][target.col].occupant.None? then true
    else false
  }

  /** Position of a direction in the canonical order u, d, l, r, ul, ur, dl, dr. */
  function DirIndex(d: Dir): (i: nat)
    ensures i < 8
  {
    match d
    case U => 0
    case D => 1
    case L => 2
    case R => 3
    case UL => 4
    case UR => 5
    case DL => 6
    case DR => 7
  }

  /** The eight actions of one kind in canonical order, regardless of the rules. */
  function GetAllActions(k: Kind): (acts: seq<Action>)
    ensures |acts| == 8
    ensures forall i :: 0 <= i < 8 ==> acts[i].kind == k && DirIndex(acts[i].dir) == i
  {
    [Action(k, U), Action(k, D), Action(k, L), Action(k, R),
     Action(k, UL), Action(k, UR), Action(k, DL), Action(k, DR)]
  }

  /** Whether the action's target passes the check for the action's kind. */
  predicate LegalTarget(b: Board, p: Position, a: Action) {
    var t := MoveLogic(b, p, a);
    if a.kind == Move then CheckMoveValidity(b, p, t) else CheckBuildValidity(b, p, t)
  }

  /** The legal actions among the first i canonical actions of kind k, in order. */
  function LegalAmong(b: Board, p: Position, k: Kind, i: nat): seq<Action>
    requires i <= 8
  {
    if i == 0 then []
    else
      var a := GetAllActions(k)[i - 1];
      LegalAmong(b, p, k, i - 1) + (if LegalTarget(b, p, a) then [a] else [])
  }

  /** The legal actions of kind k from p, in canonical order. */
  function ActionSpace(b: Board, p: Position, k: Kind): seq<Action> {
    LegalAmong(b, p, k, 8)
  }

  lemma {:induction false} LegalAmongSpec(b: Board, p: Position, k: Kind, i: nat)
    requires i <= 8
    ensures forall a :: a in LegalAmong(b, p, k, i) <==>
      a.kind == k && DirIndex(a.dir) < i && LegalTarget(b, p, a)
    ensures forall m, n :: 0 <= m < n < |LegalAmong(b, p, k, i)| ==>
      DirIndex(LegalAmong(b, p, k, i)[m].dir) < DirIndex(LegalAmong(b, p, k, i)[n].dir)
  {
    if i > 0 {
      LegalAmongSpec(b, p, k, i - 1);
      var all := GetAllActions(k);
      assert all[i - 1].kind == k && DirIndex(all[i - 1].dir) == i - 1;
      forall a: Action | a.kind == k && DirIndex(a.dir) == i - 1
        ensures a == all[i - 1]
      {
        assert a.dir == all[i - 1].dir by {
          match a.dir
          case U => {} case D => {} case L => {} case R => {}
          case UL => {} case UR => {} case DL => {} case DR => {}
        }
      }
    }
  }

  /**
   * The action space is exactly the actions of kind k whose target passes the
   * check, each direction at most once and in canonical order.
   */
  lemma ActionSpaceSpec(b: Board, p: Position, k: Kind)
    ensures forall a :: a in ActionSpace(b, p, k) <==> a.kind == k && LegalTarget(b, p, a)
    ensures forall m, n :: 0 <= m < n < |ActionSpace(b, p, k)| ==>
      DirIndex(ActionSpace(b, p, k)[m].dir) < DirIndex(ActionSpace(b, p, k)[n].dir)
    ensures |ActionSpace(b, p, k)| <= 8
  {
    LegalAmongSpec(b, p, k, 8);
    LegalAmongLength(b, p, k, 8);
  }

  lemma {:induction false} LegalAmongLength(b: Board, p: Position, k: Kind, i: nat)
    requires i <= 8
    ensures |LegalAmong(b, p, k, i)| <= i
  {
    if i > 0 {
      LegalAmongLength(b, p, k, i - 1);
    }
  }

  /** An action of the space has its target on the board (so it can be applied). */
  lemma ActionSpaceTargetInBounds(b: Board, p: Position, k: Kind, a: Action)
    requires a in ActionSpace(b, p, k)
    ensures a.kind == k && InBounds(MoveLogic(b, p, a))
    ensures k == Move ==> CheckMoveValidity(b, p, MoveLogic(b, p, a))
    ensures k == Build ==> CheckBuildValidity(b, p, MoveLogic(b, p, a))
  {
    ActionSpaceSpec(b, p, k);
  }

  /**
   * Every legal move direction is also a legal build direction, so an agent
   * that can move can always build.
   */
  lemma MovesAreBuilds(b: Board, p: Position)
    ensures forall a :: a in ActionSpace(b, p, Move) ==> Action(Build, a.dir) in ActionSpace(b, p, Build)
    ensures |ActionSpace(b, p, Move)| > 0 ==> |ActionSpace(b, p, Build)| > 0
  {
    ActionSpaceSpec(b, p, Move);
    ActionSpaceSpec(b, p, Build);
    forall a | a in ActionSpace(b, p, Move)
      ensures Action(Build, a.dir) in ActionSpace(b, p, Build)
    {
      MoveTargetIsBuildTarget(b, p, a.dir);
    }
    if |ActionSpace(b, p, Move)| > 0 {
      assert ActionSpace(b, p, Move)[0] in ActionSpace(b, p, Move);
    }
  }

  /** A square one can move to in direction d is a square one can build on in direction d. */
  lemma MoveTargetIsBuildTarget(b: Board, p: Position, d: Dir)
    requires LegalTarget(b, p, Action(Move, d))
    ensures LegalTarget(b, p, Action(Build, d))
  {
    assert MoveLogic(b, p, Action(Move, d)) == MoveLogic(b, p, Action(Build, d));
  }

  /** Every square is empty and at ground level. */
  ghost predicate Cleared(b: Board) {
    forall row, col :: 0 <= row < N && 0 <= col < N ==> b[row][col] == Cell(None, 0)
  }

  /** The legal actions among the first i of kind k are all of them when each is legal. */
  lemma {:induction false} LegalAmongAll(b: Board, p: Position, k: Kind, i: nat)
    requires i <= 8
    requires forall j :: 0 <= j < i ==> LegalTarget(b, p, GetAllActions(k)[j])
    ensures LegalAmong(b, p, k, i) == GetAllActions(k)[..i]
  {
    if i > 0 {
      LegalAmongAll(b, p, k, i - 1);
      assert GetAllActions(k)[..i] == GetAllActions(k)[..i - 1] + [GetAllActions(k)[i - 1]];
    }
  }

  /** The legal actions among the first i of kind k are none when none of them is legal. */
  lemma {:induction false} LegalAmongNone(b: Board, p: Position, k: Kind, i: nat)
    requires i <= 8
    requires forall j :: 0 <= j < i ==> !LegalTarget(b, p, GetAllActions(k)[j])
    ensures LegalAmong(b, p, k, i) == []
  {
    if i > 0 {
      LegalAmongNone(b, p, k, i - 1);
    }
  }

  /** On a cleared board a player in the corner (0,0) can move d, r and dr only. */
  lemma MoveSpaceFromCorner(b: Board)
    requires Cleared(b)
    ensures ActionSpace(b, Position(0, 0, 0), Move)
         == [Action(Move, D), Action(Move, R), Action(Move, DR)]
  {
    CornerTargets(b);
    CornerSpace(b);
  }

  /** The action space from the corner, given which of the eight moves pass the check. */
  lemma CornerSpace(b: Board)
    requires var p := Position(0, 0, 0);
      && !LegalTarget(b, p, Action(Move, U)) && LegalTarget(b, p, Action(Move, D))
      && !LegalTarget(b, p, Action(Move, L)) && LegalTarget(b, p, Action(Move, R))
      && !LegalTarget(b, p, Action(Move, UL)) && !LegalTarget(b, p, Action(Move, UR))
      && !LegalTarget(b, p, Action(Move, DL)) && LegalTarget(b, p, Action(Move, DR))
    ensures ActionSpace(b, Position(0, 0, 0), Move)
         == [Action(Move, D), Action(Move, R), Action(Move, DR)]
  {
    var p := Position(0, 0, 0);
    CornerSpaceHalf(b);
    LegalAmongSkip(b, p, Move, 5);
    LegalAmongSkip(b, p, Move, 6);
    LegalAmongSkip(b, p, Move, 7);
    LegalAmongTake(b, p, Move, 8);
  }

  /** The first four moves from the corner, given which of them pass the check. */
  lemma CornerSpaceHalf(b: Board)
    requires var p := Position(0, 0, 0);
      && !LegalTarget(b, p, Action(Move, U)) && LegalTarget(b, p, Action(Move, D))
      && !LegalTarget(b, p, Action(Move, L)) && LegalTarget(b, p, Action(Move, R))
    ensures LegalAmong(b, Position(0, 0, 0), Move, 4) == [Action(Move, D), Action(Move, R)]
  {
    var p := Position(0, 0, 0);
    LegalAmongSkip(b, p, Move, 1);
    LegalAmongTake(b, p, Move, 2);
    LegalAmongSkip(b, p, Move, 3);
    LegalAmongTake(b, p, Move, 4);
  }

  /** From the corner of a cleared board exactly the moves d, r and dr stay on the board. */
  lemma CornerTargets(b: Board)
    requires Cleared(b)
    ensures var p := Position(0, 0, 0);
      && !LegalTarget(b, p, Action(Move, U)) && LegalTarget(b, p, Action(Move, D))
      && !LegalTarget(b, p, Action(Move, L)) && LegalTarget(b, p, Action(Move, R))
      && !LegalTarget(b, p, Action(Move, UL)) && !LegalTarget(b, p, Action(Move, UR))
      && !LegalTarget(b, p, Action(Move, DL)) && LegalTarget(b, p, Action(Move, DR))
  {
    assert b[1][0] == b[0][1] == b[1][1] == Cell(None, 0);
  }

  /** The i-th canonical action adds nothing when it is illegal... */
  lemma LegalAmongSkip(b: Board, p: Position, k: Kind, i: nat)
    requires 0 < i <= 8 && !LegalTarget(b, p, GetAllActions(k)[i - 1])
    ensures LegalAmong(b, p, k, i) == LegalAmong(b, p, k, i - 1)
  {
  }

  /** ...and is appended when it is legal. */
  lemma LegalAmongTake(b: Board, p: Position, k: Kind, i: nat)
    requires 0 < i <= 8 && LegalTarget(b, p, GetAllActions(k)[i - 1])
    ensures LegalAmong(b, p, k, i) == LegalAmong(b, p, k, i - 1) + [GetAllActions(k)[i - 1]]
  {
  }

  /** On a cleared board a player in the centre (2,2) can move in all eight directions. */
  lemma MoveSpaceFromCentre(b: Board)
    requires Cleared(b)
    ensures ActionSpace(b, Position(2, 2, 0), Move) == GetAllActions(Move)
  {
    var p := Position(2, 2, 0);
    var all := GetAllActions(Move);
    forall j | 0 <= j < 8 ensures LegalTarget(b, p, all[j]) {
      var t := MoveLogic(b, p, all[j]);
      assert 1 <= t.row <= 3 && 1 <= t.col <= 3;
    }
    LegalAmongAll(b, p, Move, 8);
    assert all[..8] == all;
  }

  /** Enumerates the legal moves from p by trying the eight move actions in canonical order. */
  method GetMoveActionSpace(b: Board, p: Position) returns (actions: seq<Action>)
    ensures actions == ActionSpace(b, p, Move)
  {
    var moveActions := GetAllActions(Move);
    actions := [];
    for i := 0 to |moveActions|
      invariant actions == LegalAmong(b, p, Move, i)
    {
      var target := MoveLogic(b, p, moveActions[i]);
      if CheckMoveValidity(b, p, target) {
        actions := actions + [moveActions[i]];
      }
    }
  }

  /** Enumerates the legal builds from p by trying the eight build actions in canonical order. */
  method GetBuildActionSpace(b: Board, p: Position) returns (actions: seq<Action>)
    ensures actions == ActionSpace(b, p, Build)
  {
    var buildActions := GetAllActions(Build);
    actions := [];
    for i := 0 to |buildActions|
      invariant actions == LegalAmong(b, p, Build, i)
    {
      var target := MoveLogic(b, p, buildActions[i]);
      if CheckBuildValidity(b, p, target) {
        actions := actions + [buildActions[i]];
      }
    }
  }

  method GetActionSpace(b: Board, p: Position, k: Kind) returns (actions: seq<Action>)
    ensures actions == ActionSpace(b, p, k)
  {
    if k == Move {
      actions := GetMoveActionSpace(b, p);
    } else {
      actions := GetBuildActionSpace(b, p);
    }
  }

  /**
   * Who acts next and how: a move is followed by the same agent's build, a build
   * by the next agent's move (cyclically over the numPlayers players).
   */
  function NextTurn(numPlayers: nat, agent: nat, k: Kind): (next: (nat, Kind))
    requires k == Build ==> numPlayers > 0
    ensures k == Move ==> next == (agent, Build)
    ensures k == Build ==> next == ((agent + 1) % numPlayers, Move)
  {
    if k == Move then (agent, Build) else ((agent + 1) % numPlayers, Move)
  }

  /** A full turn (a move, then a build) hands the move to the next player, in range. */
  lemma FullTurn(numPlayers: nat, agent: nat)
    requires agent < numPlayers
    ensures NextTurn(numPlayers, agent, Move).1 == Build
    ensures var (a, k) := NextTurn(numPlayers, agent, Move);
            NextTurn(numPlayers, a, k) == ((agent + 1) % numPlayers, Move)
    ensures NextTurn(numPlayers, agent, Move).0 < numPlayers
    ensures NextTurn(numPlayers, agent, Build).0 < numPlayers
  {
  }

  /** The board with the occupant of p's square replaced; heights untouched. */
  function SetOccupant(b: Board, p: Position, occ: Option<nat>): (r: Board)
    requires InBounds(p)
    ensures forall row, col :: 0 <= row < N && 0 <= col < N ==>
      r[row][col] == if row == p.row && col == p.col then Cell(occ, b[row][col].height) else b[row][col]
  {
    b[p.row := b[p.row][p.col := Cell(occ, b[p.row][p.col].height)]]
  }

  /** The board with the height of p's square replaced; occupants untouched. */
  function SetHeight(b: Board, p: Position, h: nat): (r: Board)
    requires InBounds(p)
    ensures forall row, col :: 0 <= row < N && 0 <= col < N ==>
      r[row][col] == if row == p.row && col == p.col then Cell(b[row][col].occupant, h) else b[row][col]
  {
    b[p.row := b[p.row][p.col := Cell(b[p.row][p.col].occupant, h)]]
  }

  /** Player `player` leaves `from` and stands on `to`: only those two occupants change. */
  function ApplyMove(b: Board, from: Position, to: Position, player: nat): (r: Board)
    requires InBounds(from) && InBounds(to)
    ensures forall row, col :: 0 <= row < N && 0 <= col < N ==>
      && r[row][col].height == b[row][col].height
      && r[row][col].occupant ==
           if row == to.row && col == to.col then Some(player)
           else if row == from.row && col == from.col then None
           else b[row][col].occupant
  {
    SetOccupant(SetOccupant(b, from, None), to, Some(player))
  }

  /** One level is added at `at`: only that cell's height changes. */
  function ApplyBuild(b: Board, at: Position): (r: Board)
    requires InBounds(at)
    ensures forall row, col :: 0 <= row < N && 0 <= col < N ==>
      && r[row][col].occupant == b[row][col].occupant
      && r[row][col].height == if row == at.row && col == at.col then b[row][col].height + 1 else b[row][col].height
  {
    SetHeight(b, at, b[at.row][at.col].height + 1)
  }

  /** No cell of `after` is lower than the same cell of `before`. */
  ghost predicate NoLower(before: Board, after: Board) {
    forall row, col :: 0 <= row < N && 0 <= col < N ==> before[row][col].height <= after[row][col].height
  }

  /**
   * The board and positions after `player` takes action a. A move relocates the
   * player (board occupants and its own position entry); a build raises the
   * target by one level and leaves the positions alone.
   */
  function Transition(b: Board, ps: seq<Position>, a: Action, player: nat): (next: (Board, seq<Position>))
    requires player < |ps| && InBounds(ps[player]) && InBounds(MoveLogic(b, ps[player], a))
    ensures |next.1| == |ps|
    ensures a.kind == Move ==>
      && next.0 == ApplyMove(b, ps[player], MoveLogic(b, ps[player], a), player)
      && next.1[player] == MoveLogic(b, ps[player], a)
      && forall i :: 0 <= i < |ps| && i != player ==> next.1[i] == ps[i]
    ensures a.kind == Build ==>
      next.0 == ApplyBuild(b, MoveLogic(b, ps[player], a)) && next.1 == ps
    ensures NoLower(b, next.0)
    ensures AllInBounds(ps) ==> AllInBounds(next.1)
  {
    var target := MoveLogic(b, ps[player], a);
    if a.kind == Move then (ApplyMove(b, ps[player], target, player), ps[player := target])
    else (ApplyBuild(b, target), ps)
  }

  /** One step of a game: an action and the index of the player taking it. */
  datatype Step = Step(action: Action, player: nat)

  /** The state after a sequence of steps, or None once a step cannot be applied. */
  function Play(b: Board, ps: seq<Position>, steps: seq<Step>): Option<(Board, seq<Position>)>
    decreases |steps|
  {
    if steps == [] then Some((b, ps))
    else
      var s := steps[0];
      if s.player < |ps| && InBounds(ps[s.player]) && InBounds(MoveLogic(b, ps[s.player], s.action)) then
        var next := Transition(b, ps, s.action, s.player);
        Play(next.0, next.1, steps[1..])
      else None
  }

  /** Across any sequence of transitions no cell ever gets lower. */
  lemma {:induction false} PlayNeverLowers(b: Board, ps: seq<Position>, steps: seq<Step>)
    ensures Play(b, ps, steps).Some? ==> NoLower(b, Play(b, ps, steps).value.0)
    decreases |steps|
  {
    if steps != [] {
      var s := steps[0];
      if s.player < |ps| && InBounds(ps[s.player]) && InBounds(MoveLogic(b, ps[s.player], s.action)) {
        var next := Transition(b, ps, s.action, s.player);
        PlayNeverLowers(next.0, next.1, steps[1..]);
      }
    }
  }

  /**
   * Positions and board agree: player i stands on its recorded square, as the
   * only occupant there, and its recorded height is that square's height; every
   * occupied square is the recorded square of its occupant.
   */
  ghost predicate Consistent(b: Board, ps: seq<Position>) {
    && (forall i :: 0 <= i < |ps| ==>
          InBounds(ps[i]) && b[ps[i].row][ps[i].col] == Cell(Some(i), ps[i].height))
    && (forall row, col :: 0 <= row < N && 0 <= col < N && b[row][col].occupant.Some? ==>
          b[row][col].occupant.value < |ps| && ps[b[row][col].occupant.value].row == row
          && ps[b[row][col].occupant.value].col == col)
  }

  /** No tower is higher than a capped one. */
  ghost predicate Capped(b: Board) {
    forall row, col :: 0 <= row < N && 0 <= col < N ==> b[row][col].height <= Dome
  }

  /**
   * A legal action keeps positions and board consistent and keeps every tower at
   * most capped. A build never targets an occupied square, so no player's own
   * square changes height.
   */
  lemma LegalTransitionKeepsInvariant(b: Board, ps: seq<Position>, a: Action, player: nat)
    requires Consistent(b, ps) && Capped(b)
    requires player < |ps| && a in ActionSpace(b, ps[player], a.kind)
    ensures InBounds(MoveLogic(b, ps[player], a))
    ensures Consistent(Transition(b, ps, a, player).0, Transition(b, ps, a, player).1)
    ensures Capped(Transition(b, ps, a, player).0)
  {
    ActionSpaceTargetInBounds(b, ps[player], a.kind, a);
    var from := ps[player];
    var t := MoveLogic(b, from, a);
    var next := Transition(b, ps, a, player);
    var nb, nps := next.0, next.1;
    if a.kind == Move {
      forall i | 0 <= i < |nps|
        ensures InBounds(nps[i]) && nb[nps[i].row][nps[i].col] == Cell(Some(i), nps[i].height)
      {
        if i != player {
          assert b[ps[i].row][ps[i].col].occupant == Some(i);
          assert !SameSquare(ps[i], from);
          assert !SameSquare(ps[i], t);
        }
      }
      forall row, col | 0 <= row < N && 0 <= col < N && nb[row][col].occupant.Some?
        ensures nb[row][col].occupant.value < |nps| && nps[nb[row][col].occupant.value].row == row
             && nps[nb[row][col].occupant.value].col == col
      {
        if !(row == t.row && col == t.col) {
          var q := b[row][col].occupant.value;
          assert b[row][col].occupant.Some?;
          assert q != player;
        }
      }
    } else {
      forall i | 0 <= i < |nps|
        ensures InBounds(nps[i]) && nb[nps[i].row][nps[i].col] == Cell(Some(i), nps[i].height)
      {
        assert !SameSquare(ps[i], t);
      }
    }
  }

  /** The direction of the single compass step from p to an adjacent square q. */
  function DirTo(p: Position, q: Position): (d: Dir)
    requires Near(p, q) && !SameSquare(p, q)
    ensures p.row + RowOffset(d) == q.row && p.col + ColOffset(d) == q.col
  {
    var dr, dc := q.row - p.row, q.col - p.col;
    if dr == -1 then (if dc == -1 then UL else if dc == 0 then U else UR)
    else if dr == 0 then (if dc == -1 then L else R)
    else (if dc == -1 then DL else if dc == 0 then D else DR)
  }

  /**
   * A square chosen directly, as a human player does, with its height read from
   * the board, is the target of the action towards it; so a chosen move or
   * build that passes its check is an action of the action space.
   */
  lemma ChosenSquareIsAction(b: Board, p: Position, q: Position, k: Kind)
    requires InBounds(q) && q.height == b[q.row][q.col].height && !SameSquare(p, q)
    requires k == Move ==> CheckMoveValidity(b, p, q)
    requires k == Build ==> CheckBuildValidity(b, p, q)
    ensures Near(p, q)
    ensures MoveLogic(b, p, Action(k, DirTo(p, q))) == q
    ensures Action(k, DirTo(p, q)) in ActionSpace(b, p, k)
  {
    var a := Action(k, DirTo(p, q));
    assert MoveLogic(b, p, a) == q;
    ActionSpaceSpec(b, p, k);
  }

  /** No square has been built on. */
  ghost predicate Flat(b: Board) {
    forall row, col :: 0 <= row < N && 0 <= col < N ==> b[row][col].height == 0
  }

  /** On an unbuilt board with at most two players, every player has a move. */
  lemma FlatBoardHasMove(b: Board, ps: seq<Position>, i: nat)
    requires Consistent(b, ps) && Flat(b) && |ps| <= 2 && i < |ps|
    ensures |ActionSpace(b, ps[i], Move)| > 0
  {
    var p := ps[i];
    var row := if p.row < N - 1 then p.row + 1 else p.row - 1;
    var q1 := Position(row, p.col, 0);
    var q2 := Position(row, if p.col < N - 1 then p.col + 1 else p.col - 1, 0);
    var q := q1;
    if b[q1.row][q1.col].occupant.Some? {
      var j := b[q1.row][q1.col].occupant.value;
      assert j != i;
      if b[q2.row][q2.col].occupant.Some? {
        // A third occupant would need a third player index below 2.
        assert false;
      }
      q := q2;
    }
    ChosenSquareIsAction(b, p, q, Move);
  }

  /**
   * Moving onto an empty square and then back in the opposite direction restores
   * the board and every position exactly.
   */
  lemma MoveThenBackRestores(b: Board, ps: seq<Position>, d: Dir, player: nat)
    requires Consistent(b, ps) && player < |ps|
    requires InBounds(MoveLogic(b, ps[player], Action(Move, d)))
    requires b[MoveLogic(b, ps[player], Action(Move, d)).row][MoveLogic(b, ps[player], Action(Move, d)).col].occupant.None?
    ensures var next := Transition(b, ps, Action(Move, d), player);
            && InBounds(MoveLogic(next.0, next.1[player], Action(Move, Opposite(d))))
            && Transition(next.0, next.1, Action(Move, Opposite(d)), player) == (b, ps)
  {
    var next := Transition(b, ps, Action(Move, d), player);
    var t := MoveLogic(b, ps[player], Action(Move, d));
    var back := MoveLogic(next.0, next.1[player], Action(Move, Opposite(d)));
    assert back.row == ps[player].row && back.col == ps[player].col by {
      match d
      case U => {} case D => {} case L => {} case R => {}
      case UL => {} case UR => {} case DL => {} case DR => {}
    }
    assert back == ps[player];
    var last := Transition(next.0, next.1, Action(Move, Opposite(d)), player);
    assert last.1 == ps;
    forall row | 0 <= row < N ensures last.0[row] == b[row] {
      forall col | 0 <= col < N ensures last.0[row][col] == b[row][col] {
        assert b[ps[player].row][ps[player].col].occupant == Some(player);
      }
    }
    assert last.0 == b;
  }
}
