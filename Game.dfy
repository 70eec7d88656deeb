/**
 * The game state machine: placement of the two players, then alternating move
 * and build turns, each player either a human (whose clicks arrive as chosen
 * squares) or the minimax agent, until a player reaches level 3 or is left
 * without a move.
 */
module Game {
  import opened Util
  import opened MiniMax

  /** The game always has two players. */
  const NumPlayers: nat := 2

  /** The game-over flag: unset while playing, set once a winner is known. */
  datatype Flag = Running | GameOver

  datatype Policy = Human | MiniMaxPolicy

  /** The fields of the game state, as one value. */
  datatype Snapshot = Snapshot(board: Board, playerPositions: seq<Position>, winner: Option<nat>, flag: Flag,
                               turn: nat, turnType: Kind, playerToPlace: nat, currentPlayer: nat)

  /** With two players, the next of either player is the other one, and the next of that is the first. */
  lemma OtherPlayer(c: nat)
    requires c < NumPlayers
    ensures (c + 1) % NumPlayers == 1 - c
    ensures (1 - c + 1) % NumPlayers == c
  {
  }

  /** An empty unbuilt board, nobody placed, player 0 to place first and then to move first. */
  function InitialState(): Snapshot {
    Snapshot(EmptyGrid(), [], None, Running, 0, Move, 0, 0)
  }

  /**
   * What the game keeps true between events. The positions of the players
   * placed so far (in placement order) agree with the board; no tower is over
   * the cap; the flag is set exactly when there is a winner; the player to act
   * is the one whose turn it is; nothing is built before both are placed; while
   * the game runs nobody stands on level 3, and a player due to move has a move.
   */
  ghost predicate ValidState(st: Snapshot) {
    && st.playerToPlace <= NumPlayers && |st.playerPositions| == st.playerToPlace
    && st.turn < NumPlayers && st.currentPlayer == st.turn
    && Consistent(st.board, st.playerPositions) && Capped(st.board)
    && (st.flag == GameOver <==> st.winner.Some?)
    && (st.winner.Some? ==> st.winner.value < NumPlayers)
    && (st.playerToPlace < NumPlayers ==> Flat(st.board) && st.turn == 0 && st.turnType == Move && st.flag == Running)
    && (st.flag == Running ==> forall i :: 0 <= i < |st.playerPositions| ==> st.playerPositions[i].height != 3)
    && (st.flag == Running && st.playerToPlace == NumPlayers && st.turnType == Move ==>
          |ActionSpace(st.board, st.playerPositions[st.turn], Move)| > 0)
  }

  /** Both players are placed and nobody has won yet. */
  predicate InPlay(st: Snapshot) {
    st.playerToPlace == NumPlayers && st.flag == Running
  }

  /**
   * Whether player j ends the game at the check: it stands on a level-3 square,
   * or it is the current player, due to move, without a move.
   */
  ghost predicate Ends(b: Board, ps: seq<Position>, turnType: Kind, current: nat, j: nat)
    requires AllInBounds(ps) && j < |ps|
  {
    || b[ps[j].row][ps[j].col].height == 3
    || (turnType == Move && current == j && |ActionSpace(b, ps[j], Move)| == 0)
  }

  /** The winner found by the game-over check, scanning the players from index i on. */
  function GameOverEvent(b: Board, ps: seq<Position>, turnType: Kind, current: nat, i: nat): Option<nat>
    requires AllInBounds(ps) && i <= |ps|
    decreases |ps| - i
  {
    if i == |ps| then None
    else if b[ps[i].row][ps[i].col].height == 3 then Some(i)
    else if |ActionSpace(b, ps[i], Move)| == 0 && turnType == Move && current == i then Some((i + 1) % NumPlayers)
    else GameOverEvent(b, ps, turnType, current, i + 1)
  }

  /** The check finds no winner exactly when no player from index i on ends the game. */
  lemma {:induction false} GameOverEventNone(b: Board, ps: seq<Position>, turnType: Kind, current: nat, i: nat)
    requires AllInBounds(ps) && i <= |ps|
    ensures GameOverEvent(b, ps, turnType, current, i).None? <==>
      forall j :: i <= j < |ps| ==> !Ends(b, ps, turnType, current, j)
    decreases |ps| - i
  {
    if i < |ps| {
      GameOverEventNone(b, ps, turnType, current, i + 1);
      if !Ends(b, ps, turnType, current, i) {
        assert GameOverEvent(b, ps, turnType, current, i) == GameOverEvent(b, ps, turnType, current, i + 1);
      }
    }
  }

  /**
   * The check names the first player j in index order that ends the game:
   * that player when it is on level 3, and the next player when it is stuck.
   */
  lemma {:induction false} GameOverEventFirst(b: Board, ps: seq<Position>, turnType: Kind, current: nat, i: nat, j: nat)
    requires AllInBounds(ps) && i <= j < |ps|
    requires Ends(b, ps, turnType, current, j)
    requires forall k :: i <= k < j ==> !Ends(b, ps, turnType, current, k)
    ensures GameOverEvent(b, ps, turnType, current, i)
         == Some(if b[ps[j].row][ps[j].col].height == 3 then j else (j + 1) % NumPlayers)
    decreases j - i
  {
    if i < j {
      assert !Ends(b, ps, turnType, current, i);
      GameOverEventFirst(b, ps, turnType, current, i + 1, j);
    }
  }

  /** The game-over check: flag and winner are set when it finds a winner, and nothing changes otherwise. */
  function Outcome(st: Snapshot): Snapshot
    requires AllInBounds(st.playerPositions)
  {
    match GameOverEvent(st.board, st.playerPositions, st.turnType, st.currentPlayer, 0)
    case None => st
    case Some(w) => st.(flag := GameOver, winner := Some(w))
  }

  /** A player relocates on the board, the turn turns to building, and the game-over check runs. */
  function MoveOnBoardState(st: Snapshot, oldPosition: Position, newPosition: Position, playerNumber: nat): Snapshot
    requires InBounds(oldPosition) && InBounds(newPosition)
    requires playerNumber < |st.playerPositions| && AllInBounds(st.playerPositions)
  {
    Outcome(st.(board := ApplyMove(st.board, oldPosition, newPosition, playerNumber),
                playerPositions := st.playerPositions[playerNumber := newPosition],
                turnType := Build))
  }

  /** One level is built, the turn passes to the next player, and the next turn is a move. */
  function BuildOnBoardState(st: Snapshot, buildPosition: Position): Snapshot
    requires InBounds(buildPosition)
  {
    st.(board := ApplyBuild(st.board, buildPosition), turn := (st.turn + 1) % NumPlayers, turnType := Move)
  }

  /** After a build the next player becomes current and the game-over check runs. */
  function NextPlayerState(st: Snapshot): Snapshot
    requires AllInBounds(st.playerPositions)
  {
    Outcome(st.(currentPlayer := (st.currentPlayer + 1) % NumPlayers))
  }

  /** The next player to place stands on the chosen square, on the ground. */
  function PlaceState(st: Snapshot, position: Position): Snapshot
    requires InBounds(position)
  {
    st.(board := SetOccupant(st.board, position, Some(st.playerToPlace)),
        playerPositions := st.playerPositions + [position],
        playerToPlace := st.playerToPlace + 1)
  }

  /**
   * A click on square (row, col). Nothing happens once the game is over. While
   * placing, an empty square receives the next player. Afterwards, a human
   * player to act moves or builds there when the check for the turn's kind
   * allows it; an automated player to act, or a choice the check refuses,
   * changes nothing.
   */
  function MouseReleaseState(st: Snapshot, row: int, col: int, humanToAct: bool): Snapshot
    requires ValidState(st) && 0 <= row < N && 0 <= col < N
  {
    if st.flag == GameOver then st
    else
      var chosen := Position(row, col, st.board[row][col].height);
      if st.playerToPlace < NumPlayers then
        if st.board[row][col].occupant.None? then PlaceState(st, Position(row, col, 0)) else st
      else if !humanToAct then st
      else
        var at := st.playerPositions[st.currentPlayer];
        if st.turnType == Move then
          if CheckMoveValidity(st.board, at, chosen) then MoveOnBoardState(st, at, chosen, st.currentPlayer) else st
        else if CheckBuildValidity(st.board, at, chosen) then NextPlayerState(BuildOnBoardState(st, chosen))
        else st
  }

  /** The cases of a click, one per branch. */
  lemma MouseReleaseCases(st: Snapshot, row: int, col: int, humanToAct: bool)
    requires ValidState(st) && 0 <= row < N && 0 <= col < N
    ensures var r := MouseReleaseState(st, row, col, humanToAct);
      var chosen := Position(row, col, st.board[row][col].height);
      var cur := st.currentPlayer;
      && (st.flag == GameOver ==> r == st)
      && (st.flag == Running && st.playerToPlace < NumPlayers ==>
            r == if st.board[row][col].occupant.None? then PlaceState(st, Position(row, col, 0)) else st)
      && (InPlay(st) && !humanToAct ==> r == st)
      && (InPlay(st) && humanToAct && st.turnType == Move ==>
            r == if CheckMoveValidity(st.board, st.playerPositions[cur], chosen)
                 then MoveOnBoardState(st, st.playerPositions[cur], chosen, cur) else st)
      && (InPlay(st) && humanToAct && st.turnType == Build ==>
            r == if CheckBuildValidity(st.board, st.playerPositions[cur], chosen)
                 then NextPlayerState(BuildOnBoardState(st, chosen)) else st)
  {
  }

  /** An automated player's action a, taken for the current player as the game loop takes it. */
  function AutomatedState(st: Snapshot, a: Action): Snapshot
    requires ValidState(st) && InPlay(st)
    requires a in ActionSpace(st.board, st.playerPositions[st.currentPlayer], st.turnType)
  {
    ActionSpaceTargetInBounds(st.board, st.playerPositions[st.currentPlayer], st.turnType, a);
    var at := st.playerPositions[st.currentPlayer];
    var target := MoveLogic(st.board, at, a);
    if st.turnType == Move then MoveOnBoardState(st, at, target, st.currentPlayer)
    else NextPlayerState(BuildOnBoardState(st, target))
  }

  /** The search node of the player to act, searched to the given depth. */
  function RootOf(st: Snapshot, depth: nat): Node {
    Node(st.board, st.playerPositions, depth, st.turn, st.turnType)
  }

  /** a is a legal action of the player to act whose minimax value is the value of the position. */
  ghost predicate OptimalAt(st: Snapshot, depth: nat, a: Action)
    requires ValidState(st) && InPlay(st)
  {
    && depth > 0
    && a in ActionSpace(st.board, st.playerPositions[st.turn], st.turnType)
    && ChildValue(st.turn, NumPlayers, RootOf(st, depth), a) == MinimaxValue(st.turn, NumPlayers, RootOf(st, depth))
  }

  /**
   * The check at a build turn, right after a move, when only player m can be on
   * level 3: m wins exactly when it stands there, and otherwise nobody wins (a
   * player without a move loses only at a move turn).
   */
  lemma CheckAfterMove(b: Board, ps: seq<Position>, current: nat, m: nat)
    requires AllInBounds(ps) && m < |ps|
    requires forall j :: 0 <= j < |ps| && j != m ==> b[ps[j].row][ps[j].col].height != 3
    ensures GameOverEvent(b, ps, Build, current, 0)
         == if b[ps[m].row][ps[m].col].height == 3 then Some(m) else None
  {
    if b[ps[m].row][ps[m].col].height == 3 {
      GameOverEventFirst(b, ps, Build, current, 0, m);
    } else {
      GameOverEventNone(b, ps, Build, current, 0);
    }
  }

  /**
   * The check at a move turn with nobody on level 3: the current player loses
   * to the next one exactly when it has no move.
   */
  lemma CheckBeforeMove(b: Board, ps: seq<Position>, current: nat)
    requires AllInBounds(ps) && current < |ps|
    requires forall j :: 0 <= j < |ps| ==> b[ps[j].row][ps[j].col].height != 3
    ensures GameOverEvent(b, ps, Move, current, 0)
         == if |ActionSpace(b, ps[current], Move)| == 0 then Some((current + 1) % NumPlayers) else None
  {
    if |ActionSpace(b, ps[current], Move)| == 0 {
      GameOverEventFirst(b, ps, Move, current, 0, current);
    } else {
      GameOverEventNone(b, ps, Move, current, 0);
    }
  }

  /** A legal move keeps the game valid, and the mover wins exactly when it has climbed to level 3. */
  lemma LegalMoveKeepsValid(st: Snapshot, a: Action)
    requires ValidState(st) && InPlay(st) && st.turnType == Move
    requires a in ActionSpace(st.board, st.playerPositions[st.currentPlayer], Move)
    ensures InBounds(MoveLogic(st.board, st.playerPositions[st.currentPlayer], a))
    ensures var r := AutomatedState(st, a);
      && ValidState(r)
      && r.playerToPlace == NumPlayers && r.turn == st.turn && r.turnType == Build
      && (r.flag == GameOver <==> MoveLogic(st.board, st.playerPositions[st.currentPlayer], a).height == 3)
      && (r.flag == GameOver ==> r.winner == Some(st.currentPlayer))
  {
    var b, ps, cur := st.board, st.playerPositions, st.currentPlayer;
    ActionSpaceTargetInBounds(b, ps[cur], st.turnType, a);
    LegalTransitionKeepsInvariant(b, ps, a, cur);
    var t := MoveLogic(b, ps[cur], a);
    var mid := st.(board := ApplyMove(b, ps[cur], t, cur), playerPositions := ps[cur := t], turnType := Build);
    assert Transition(b, ps, a, cur) == (mid.board, mid.playerPositions);
    assert AutomatedState(st, a) == Outcome(mid);
    var nps := mid.playerPositions;
    forall j | 0 <= j < |nps| && j != cur ensures mid.board[nps[j].row][nps[j].col].height != 3 {
      assert mid.board[nps[j].row][nps[j].col].height == nps[j].height;
    }
    CheckAfterMove(mid.board, nps, cur, cur);
  }

  /** A legal build keeps board and positions consistent and nobody on level 3. */
  lemma LegalBuildKeepsBoard(st: Snapshot, a: Action)
    requires ValidState(st) && InPlay(st) && st.turnType == Build
    requires a in ActionSpace(st.board, st.playerPositions[st.currentPlayer], Build)
    ensures InBounds(MoveLogic(st.board, st.playerPositions[st.currentPlayer], a))
    ensures var b := ApplyBuild(st.board, MoveLogic(st.board, st.playerPositions[st.currentPlayer], a));
      && Consistent(b, st.playerPositions) && Capped(b)
      && forall j :: 0 <= j < |st.playerPositions| ==>
           b[st.playerPositions[j].row][st.playerPositions[j].col].height != 3
  {
    var b, ps, cur := st.board, st.playerPositions, st.currentPlayer;
    ActionSpaceTargetInBounds(b, ps[cur], st.turnType, a);
    LegalTransitionKeepsInvariant(b, ps, a, cur);
    var t := MoveLogic(b, ps[cur], a);
    assert Transition(b, ps, a, cur) == (ApplyBuild(b, t), ps);
  }

  /** A legal build keeps the game valid, and the builder wins exactly when the next player has no move. */
  lemma LegalBuildKeepsValid(st: Snapshot, a: Action)
    requires ValidState(st) && InPlay(st) && st.turnType == Build
    requires a in ActionSpace(st.board, st.playerPositions[st.currentPlayer], Build)
    ensures InBounds(MoveLogic(st.board, st.playerPositions[st.currentPlayer], a))
    ensures var r := AutomatedState(st, a);
      && ValidState(r)
      && r.playerToPlace == NumPlayers && r.turn == (st.turn + 1) % NumPlayers && r.turnType == Move
      && r.playerPositions == st.playerPositions
      && (r.flag == GameOver <==> |ActionSpace(r.board, r.playerPositions[r.turn], Move)| == 0)
      && (r.flag == GameOver ==> r.winner == Some(st.currentPlayer))
  {
    LegalBuildKeepsBoard(st, a);
    var t := MoveLogic(st.board, st.playerPositions[st.currentPlayer], a);
    var built := BuildOnBoardState(st, t);
    OtherPlayer(st.currentPlayer);
    var mid := built.(currentPlayer := 1 - st.currentPlayer);
    var r := AutomatedState(st, a);
    assert r == NextPlayerState(built);
    CheckBeforeMove(mid.board, mid.playerPositions, mid.currentPlayer);
    if |ActionSpace(mid.board, mid.playerPositions[mid.currentPlayer], Move)| == 0 {
      assert r == mid.(flag := GameOver, winner := Some(st.currentPlayer));
    } else {
      assert r == mid;
    }
  }

  /** Every automated action keeps the game valid. */
  lemma AutomatedKeepsValid(st: Snapshot, a: Action)
    requires ValidState(st) && InPlay(st)
    requires a in ActionSpace(st.board, st.playerPositions[st.currentPlayer], st.turnType)
    ensures ValidState(AutomatedState(st, a))
  {
    if st.turnType == Move {
      LegalMoveKeepsValid(st, a);
    } else {
      LegalBuildKeepsValid(st, a);
    }
  }

  /** Placing a player on an empty square keeps the game valid; after the last placement player 0 can move. */
  lemma PlacementKeepsValid(st: Snapshot, row: int, col: int)
    requires ValidState(st) && st.playerToPlace < NumPlayers
    requires 0 <= row < N && 0 <= col < N && st.board[row][col].occupant.None?
    ensures var r := PlaceState(st, Position(row, col, 0));
      && ValidState(r)
      && r.playerPositions[st.playerToPlace] == Position(row, col, 0)
      && r.board[row][col] == Cell(Some(st.playerToPlace), 0)
      && r.playerToPlace == st.playerToPlace + 1
  {
    var p := Position(row, col, 0);
    var r := PlaceState(st, p);
    var ps := r.playerPositions;
    forall i | 0 <= i < |ps| ensures InBounds(ps[i]) && r.board[ps[i].row][ps[i].col] == Cell(Some(i), ps[i].height) {
      if i < st.playerToPlace {
        assert ps[i] == st.playerPositions[i];
        assert !SameSquare(ps[i], p);
      }
    }
    assert Consistent(r.board, ps);
    if r.playerToPlace == NumPlayers {
      FlatBoardHasMove(r.board, ps, r.turn);
    }
  }

  /** Every click keeps the game valid. */
  lemma MouseReleaseKeepsValid(st: Snapshot, row: int, col: int, humanToAct: bool)
    requires ValidState(st) && 0 <= row < N && 0 <= col < N
    ensures ValidState(MouseReleaseState(st, row, col, humanToAct))
  {
    if st.flag == Running {
      var chosen := Position(row, col, st.board[row][col].height);
      if st.playerToPlace < NumPlayers {
        if st.board[row][col].occupant.None? {
          PlacementKeepsValid(st, row, col);
        }
      } else if humanToAct {
        var at := st.playerPositions[st.currentPlayer];
        if st.turnType == Move && CheckMoveValidity(st.board, at, chosen) {
          ChosenSquareIsAction(st.board, at, chosen, Move);
          LegalMoveKeepsValid(st, Action(Move, DirTo(at, chosen)));
        } else if st.turnType == Build && CheckBuildValidity(st.board, at, chosen) {
          ChosenSquareIsAction(st.board, at, chosen, Build);
          LegalBuildKeepsValid(st, Action(Build, DirTo(at, chosen)));
        }
      }
    }
  }

  /** At a move turn of a running game the agent always finds an action, as long as it searches at all. */
  lemma MoveTurnAlwaysExpands(st: Snapshot, depth: nat)
    requires ValidState(st) && InPlay(st) && st.turnType == Move && depth > 0
    ensures Fits(NumPlayers, RootOf(st, depth))
    ensures Expands(NumPlayers, RootOf(st, depth))
  {
  }

  /**
   * The example board: player 0 on the ground in the corner, player 1 below
   * it, a level-2 tower to its right and a capped tower diagonally.
   */
  function StuckBoard(): Board {
    var e := Cell(None, 0);
    [[Cell(Some(0), 0), Cell(None, 2), e, e, e],
     [Cell(Some(1), 0), Cell(None, Dome), e, e, e],
     [e, e, e, e, e], [e, e, e, e, e], [e, e, e, e, e]]
  }

  /**
   * A player on the ground in the corner (0,0) cannot move when the square to
   * its right is two levels up, the one below it is taken and the diagonal one
   * is capped: the other five directions leave the board.
   */
  lemma CornerBlocked(b: Board)
    requires b[0][1].height == 2 && b[1][0].occupant.Some? && b[1][1].height == Dome
    ensures ActionSpace(b, Position(0, 0, 0), Move) == []
  {
    var p, all := Position(0, 0, 0), GetAllActions(Move);
    forall j | 0 <= j < 8 ensures !LegalTarget(b, p, all[j]) {
      var t := MoveLogic(b, p, all[j]);
      assert InBounds(t) ==> (t.row, t.col) in {(0, 1), (1, 0), (1, 1)};
    }
    LegalAmongNone(b, p, Move, 8);
  }

  /** On the example board player 0 cannot move, but can build to its right. */
  lemma StuckBoardSpaces()
    ensures ActionSpace(StuckBoard(), Position(0, 0, 0), Move) == []
    ensures Action(Build, R) in ActionSpace(StuckBoard(), Position(0, 0, 0), Build)
  {
    var b, p := StuckBoard(), Position(0, 0, 0);
    assert b[0][1] == Cell(None, 2) && b[1][0] == Cell(Some(1), 0) && b[1][1] == Cell(None, Dome);
    CornerBlocked(b);
    ChosenSquareIsAction(b, p, Position(0, 1, 2), Build);
  }

  /** On the example board the two players stand where their positions say, and no tower is over the cap. */
  lemma StuckBoardConsistent()
    ensures Consistent(StuckBoard(), [Position(0, 0, 0), Position(1, 0, 0)]) && Capped(StuckBoard())
  {
    var b := StuckBoard();
    forall row, col | 0 <= row < N && 0 <= col < N
      ensures b[row][col].height <= Dome
      ensures b[row][col].occupant.Some? ==> (row, col) == (0, 0) || (row, col) == (1, 0)
    {
      assert b[row] == b[row];
    }
  }

  /** The example state: player 0 has just moved to the corner and is to build. */
  function StuckState(): Snapshot {
    Snapshot(StuckBoard(), [Position(0, 0, 0), Position(1, 0, 0)], None, Running, 0, Build, NumPlayers, 0)
  }

  lemma StuckStateValid()
    ensures ValidState(StuckState()) && InPlay(StuckState())
  {
    StuckBoardConsistent();
  }

  /**
   * In the example state, which is valid, the player who has just moved can
   * build but cannot move on: the search stops at its no-move base case
   * without an action, so the agent has no build to offer.
   */
  lemma BuildTurnWithoutOnwardMove(depth: nat)
    ensures ValidState(StuckState()) && InPlay(StuckState())
    ensures |ActionSpace(StuckState().board, StuckState().playerPositions[0], Build)| > 0
    ensures Fits(NumPlayers, RootOf(StuckState(), depth)) && !Expands(NumPlayers, RootOf(StuckState(), depth))
  {
    StuckStateValid();
    StuckBoardSpaces();
  }

  class Player {
    const policyType: Policy
    const playerNumber: nat
    /** The search agent of an automated player; a human player's clicks arrive through the game instead. */
    const agent: MiniMaxAgent?

    constructor (policyType: Policy, playerNumber: nat, depth: nat)
      ensures this.policyType == policyType && this.playerNumber == playerNumber
      ensures policyType == Human ==> agent == null
      ensures policyType == MiniMaxPolicy ==>
        agent != null && fresh(agent) && agent.d == depth && agent.playerNumber == playerNumber && agent.pi == None
    {
      this.policyType := policyType;
      this.playerNumber := playerNumber;
      var a: MiniMaxAgent? := null;
      if policyType == MiniMaxPolicy {
        a := new MiniMaxAgent(depth, playerNumber);
      }
      agent := a;
    }

    /** The starting position for a chosen square: that square, on the ground. */
    function ChooseStartingPosition(position: Position): (start: Position)
      ensures SameSquare(start, position) && start.height == 0
    {
      Position(position.row, position.col, 0)
    }

    /**
     * An automated move turn: the agent's action from the stored position is
     * applied with the game's move. The action is legal and optimal and is
     * applied exactly when the search expands the position; with no action
     * the game is left as it was.
     */
    method Move(game: GameState, shuffle: Shuffler) returns (action: Option<Action>)
      requires game.Valid() && InPlay(game.State()) && game.turnType == Kind.Move
      requires game.currentPlayer == playerNumber
      requires agent != null && agent.playerNumber == playerNumber && IsShuffle(shuffle)
      modifies game, agent
      ensures game.Valid()
      ensures action.Some? <==> Expands(NumPlayers, RootOf(old(game.State()), agent.d))
      ensures action.Some? ==>
        && OptimalAt(old(game.State()), agent.d, action.value)
        && game.State() == AutomatedState(old(game.State()), action.value)
      ensures action.None? ==> game.State() == old(game.State())
      ensures agent.pi == Some(OneHot(GetAllActions(Kind.Move), action))
    {
      var oldPosition := game.playerPositions[playerNumber];
      action := agent.GetAction(game.board, game.playerPositions, game.numPlayers, game.turn, game.turnType, shuffle);
      if action.Some? {
        ActionSpaceTargetInBounds(game.board, oldPosition, Kind.Move, action.value);
        LegalMoveKeepsValid(game.State(), action.value);
        var newPosition := MoveLogic(game.board, oldPosition, action.value);
        game.MoveOnBoard(oldPosition, newPosition, playerNumber);
      }
    }

    /**
     * An automated build turn: the agent's action from the stored position is
     * applied with the game's build. The action is legal and optimal and is
     * applied exactly when the search expands the position; with no action
     * the game is left as it was.
     */
    method Build(game: GameState, shuffle: Shuffler) returns (action: Option<Action>)
      requires game.Valid() && InPlay(game.State()) && game.turnType == Kind.Build
      requires game.currentPlayer == playerNumber
      requires agent != null && agent.playerNumber == playerNumber && IsShuffle(shuffle)
      modifies game, agent
      ensures action.Some? <==> Expands(NumPlayers, RootOf(old(game.State()), agent.d))
      ensures action.Some? ==>
        && OptimalAt(old(game.State()), agent.d, action.value)
        && InBounds(MoveLogic(old(game.board), old(game.playerPositions[playerNumber]), action.value))
        && game.State() == BuildOnBoardState(old(game.State()),
                                             MoveLogic(old(game.board), old(game.playerPositions[playerNumber]), action.value))
      ensures action.None? ==> game.State() == old(game.State())
      ensures agent.pi == Some(OneHot(GetAllActions(Kind.Build), action))
    {
      var position := game.playerPositions[playerNumber];
      action := agent.GetAction(game.board, game.playerPositions, game.numPlayers, game.turn, game.turnType, shuffle);
      if action.Some? {
        ActionSpaceTargetInBounds(game.board, position, Kind.Build, action.value);
        var buildLocation := MoveLogic(game.board, position, action.value);
        game.BuildOnBoard(buildLocation);
      }
    }
  }

  class GameState {
    const numPlayers: nat := NumPlayers
    const players: seq<Player>
    var playerPositions: seq<Position>
    var winner: Option<nat>
    var board: Board
    var flag: Flag
    var turn: nat
    var turnType: Kind
    var playerToPlace: nat
    var currentPlayer: nat

    function State(): Snapshot
      reads this
    {
      Snapshot(board, playerPositions, winner, flag, turn, turnType, playerToPlace, currentPlayer)
    }

    /** Player i is numbered i, and exactly the automated players have an agent, numbered like its player. */
    ghost predicate Valid()
      reads this
    {
      && |players| == numPlayers
      && (forall i :: 0 <= i < |players| ==>
            && players[i].playerNumber == i
            && (players[i].policyType == MiniMaxPolicy <==> players[i].agent != null)
            && (players[i].agent != null ==> players[i].agent.playerNumber == i))
      && ValidState(State())
    }

    constructor (policy0: Policy, policy1: Policy, depth: nat)
      ensures Valid() && State() == InitialState()
      ensures players[0].policyType == policy0 && players[1].policyType == policy1
      ensures forall i :: 0 <= i < |players| ==>
        players[i].agent != null ==> players[i].agent.d == depth && players[i].agent.pi == None
    {
      var p0 := new Player(policy0, 0, depth);
      var p1 := new Player(policy1, 1, depth);
      players := [p0, p1];
      playerPositions := [];
      winner := None;
      board := EmptyGrid();
      flag := Running;
      turn := 0;
      turnType := Move;
      playerToPlace := 0;
      currentPlayer := 0;
    }

    /**
     * One tick of the game clock. Nothing happens while players remain to be
     * placed, after the game is over, or when the player to act is human. An
     * automated player takes one move or one build (after a build the next
     * player becomes current and the game-over check runs); when its search
     * offers no action nothing changes.
     */
    method GameLoop(shuffle: Shuffler)
      requires Valid() && IsShuffle(shuffle)
      modifies this, players[currentPlayer].agent
      ensures Valid()
      ensures !InPlay(old(State())) || players[old(currentPlayer)].policyType == Human ==> State() == old(State())
      ensures InPlay(old(State())) && players[old(currentPlayer)].policyType == MiniMaxPolicy ==>
        && players[old(currentPlayer)].agent != null
        && (!Expands(NumPlayers, RootOf(old(State()), players[old(currentPlayer)].agent.d)) ==> State() == old(State()))
        && (Expands(NumPlayers, RootOf(old(State()), players[old(currentPlayer)].agent.d)) ==>
              exists a :: OptimalAt(old(State()), players[old(currentPlayer)].agent.d, a)
                          && State() == AutomatedState(old(State()), a))
    {
      if playerToPlace < numPlayers || flag == GameOver {
        return;
      }
      var player := players[currentPlayer];
      if player.policyType == Human {
        return;
      }
      if turnType == Move {
        var action := player.Move(this, shuffle);
      } else {
        ghost var before := State();
        var action := player.Build(this, shuffle);
        if action.None? {
          return;
        }
        LegalBuildKeepsValid(before, action.value);
        NextPlayer();
        assert State() == AutomatedState(before, action.value);
      }
    }

    /** A click on square (row, col) of the board. */
    method OnMouseRelease(row: int, col: int)
      requires Valid() && 0 <= row < N && 0 <= col < N
      modifies this
      ensures Valid()
      ensures State() == MouseReleaseState(old(State()), row, col, players[old(currentPlayer)].policyType == Human)
    {
      ghost var st := State();
      ghost var human := players[currentPlayer].policyType == Human;
      MouseReleaseKeepsValid(st, row, col, human);
      MouseReleaseCases(st, row, col, human);
      if flag == GameOver {
        return;
      }
      var chosenPosition := Position(row, col, board[row][col].height);
      if playerToPlace < numPlayers {
        if board[row][col].occupant.None? {
          var position := players[playerToPlace].ChooseStartingPosition(chosenPosition);
          PlacePlayer(position);
        }
      } else {
        if players[currentPlayer].policyType != Human {
          return;
        }
        var player := players[currentPlayer];
        var at := playerPositions[player.playerNumber];
        if turnType == Move {
          if CheckMoveValidity(board, at, chosenPosition) {
            MoveOnBoard(at, chosenPosition, player.playerNumber);
          }
        } else {
          if CheckBuildValidity(board, at, chosenPosition) {
            BuildOnBoard(chosenPosition);
            NextPlayer();
          }
        }
      }
    }

    /** The next player to place stands at the given position, recorded on the board and in the positions. */
    method PlacePlayer(position: Position)
      requires InBounds(position)
      modifies this
      ensures State() == PlaceState(old(State()), position)
    {
      board := SetOccupant(board, position, Some(playerToPlace));
      playerPositions := playerPositions + [position];
      playerToPlace := playerToPlace + 1;
    }

    /** After a build: the next player becomes current and the game-over check runs. */
    method NextPlayer()
      requires AllInBounds(playerPositions)
      modifies this
      ensures State() == NextPlayerState(old(State()))
    {
      currentPlayer := (currentPlayer + 1) % numPlayers;
      CheckForGameOver();
    }

    /** The player leaves its old square for the new one; then the turn is a build and the game-over check runs. */
    method MoveOnBoard(oldPosition: Position, newPosition: Position, playerNumber: nat)
      requires InBounds(oldPosition) && InBounds(newPosition)
      requires playerNumber < |playerPositions| && AllInBounds(playerPositions)
      modifies this
      ensures State() == MoveOnBoardState(old(State()), oldPosition, newPosition, playerNumber)
    {
      board := SetOccupant(board, oldPosition, None);
      board := SetOccupant(board, newPosition, Some(playerNumber));
      playerPositions := playerPositions[playerNumber := newPosition];
      turnType := Build;
      CheckForGameOver();
    }

    /** One level more at the build position; the turn passes on and is a move. */
    method BuildOnBoard(buildPosition: Position)
      requires InBounds(buildPosition)
      modifies this
      ensures State() == BuildOnBoardState(old(State()), buildPosition)
    {
      board := SetHeight(board, buildPosition, board[buildPosition.row][buildPosition.col].height + 1);
      turn := (turn + 1) % numPlayers;
      turnType := Move;
    }

    /**
     * Scans the players in index order and stops at the first one on level 3
     * (who wins) or, at a move turn, at the current player if it has no move
     * (the next player wins).
     */
    method CheckForGameOver()
      requires AllInBounds(playerPositions)
      modifies this
      ensures State() == Outcome(old(State()))
    {
      var i := 0;
      while i < |playerPositions|
        invariant 0 <= i <= |playerPositions|
        invariant State() == old(State())
        invariant GameOverEvent(board, playerPositions, turnType, currentPlayer, 0)
               == GameOverEvent(board, playerPositions, turnType, currentPlayer, i)
        decreases |playerPositions| - i
      {
        var position := playerPositions[i];
        if board[position.row][position.col].height == 3 {
          flag := GameOver;
          winner := Some(i);
          return;
        }
        var moves := GetMoveActionSpace(board, position);
        if |moves| == 0 && turnType == Move && currentPlayer == i {
          flag := GameOver;
          winner := Some((i + 1) % numPlayers);
          return;
        }
        i := i + 1;
      }
    }
  }
}
