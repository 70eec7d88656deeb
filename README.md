# Santorini AI — a Dafny model

This project models the game engine and search agent of a two-player
Santorini program. The parts it models are:

- **Util**: the rule engine.
  - It moves a position one step in one of eight compass directions.
  - It decides whether a move or a build is legal.
  - It lists the legal actions of a player in a fixed canonical order.
  - It decides who acts next and in which phase: a move is followed by a build by the same player, and a build passes the turn on.
  - It applies an action to a board and a list of player positions.

  A board is a 5x5 grid of cells, each holding an optional occupant and a tower height. Height 4 is a capped tower (a dome).
- **MiniMax**: a depth-limited minimax search with alpha-beta pruning.
  - Each node tries its legal actions in a shuffled order.
  - It stops early on a cut-off.
  - It picks the first action whose running best value equals the final value.
  - The root also records a one-hot policy vector over the canonical actions.
  - Standing on level 3 wins. Being left without a move loses. At depth 0, the heuristic is the searching player's height minus the distance between the players.
- **EvalHelper**: the Chebyshev distance between the two players and to the centre square, and the example heuristics built from them.
- **Game**: the game state machine.
  - The two players are placed by clicks on empty squares.
  - After that, each player in turn moves and then builds.
  - A human player's turns come from clicks. An automated player's turns come from its search agent on each tick of the game clock.
  - After every move and every build, a game-over check scans the players. The first player found on level 3 wins. The current player, if due to move and without a move, loses to the next player.

## How the model is built

**Util and EvalHelper** are pure functions over immutable values.
- Moves, legality checks, action spaces and transitions are functions with named results.
- The source's `transition` deep-copies before it writes, so a function on values captures it exactly.
- The two action-space loops are `method`s with `for` loops. Each is proved equal to the specification function `ActionSpace`, which is a filter over the canonical action list.

**MiniMax** has a specification semantics and an implementation.
- `MinimaxValue` is plain minimax over the canonical action order, with the source's base cases in the source's order.
- The `MiniMaxAgent` class holds the source's fields `d`, `alpha`, `beta`, `playerNumber` and `pi`.
- Its `AlphaBeta` method is the recursive search with the source's loops over the shuffled actions. It is proved *fail-soft* against `MinimaxValue`:
  - a value at or below `alpha` is an upper bound of the true value;
  - a value at or above `beta` is a lower bound;
  - a value strictly between them is exact.
- With the full window (`-inf`, `+inf`) the value is exact. The chosen action is then legal and has the optimal value. It is the first optimal action in the shuffled order: every action listed before it is strictly worse for the player to act.
- The shuffle is an arbitrary function of the search path that preserves the multiset of actions. Because of that, every random order is covered by the proof.

**Game** has two layers.
- A `Snapshot` value holds the fields of the game state. Functions on it specify each event: placement, a click, a move, a build, an automated action, and the game-over check.
- The invariant `ValidState` is proved to be kept by every event. It says:
  - the board and the positions agree;
  - no tower is over the cap;
  - the flag is set exactly when there is a winner;
  - while the game runs, nobody stands on level 3, and a player due to move has a move.
- The `GameState` and `Player` classes mutate their fields as the source does. Each method is proved to produce exactly the snapshot its specification function gives.

The model also observes one behaviour of the search at a build turn (`Game.BuildTurnWithoutOnwardMove`).
- The search checks for "no move left" before it looks at the phase.
- So a player who has just moved into a corner where it cannot move again gets no action at its build turn, even though a build is legal.
- The model proves this on a valid example state. In that case the game is left unchanged.

## Model

| member | source | states |
|---|---|---|
| `Util.EmptyGrid` | Game.py:28 | the initial board is 5x5 with every cell unoccupied at height 0 |
| `Util.MoveLogic` | Util.py:8-42 | the target is the position shifted by the direction's row and column offsets; its height is the board's height there when on the board and the old height otherwise; it is adjacent to and distinct from the start |
| `Util.CheckMoveValidity` | Util.py:45-62 | a move is valid exactly when the target is on the board, adjacent, unoccupied, at most one level above the start, and not capped |
| `Util.CheckBuildValidity` | Util.py:65-81 | a build is valid exactly when the target is on the board, adjacent, unoccupied and below the cap |
| `Util.GetAllActions` | Util.py:138-148 | the eight actions of the given kind, the i-th in canonical direction order |
| `Util.LegalAmongSpec` | Util.py:92-99 | filtering a prefix of the canonical actions keeps exactly its legal actions, in strictly increasing canonical order |
| `Util.ActionSpaceSpec` | Util.py:84-118 | an action is in the action space exactly when it has the right kind and a legal target; the space is duplicate-free, in canonical order and at most 8 long |
| `Util.LegalAmongLength` | Util.py:92-99 | the filter of a prefix is no longer than the prefix |
| `Util.ActionSpaceTargetInBounds` | Util.py:92-99 | every listed action stays on the board and passes the validity check of its kind |
| `Util.MovesAreBuilds` | Util.py:54-81 | every legal move direction is also a legal build direction, so a player with a move has a build |
| `Util.MoveSpaceFromCorner` | Util.py:84-99 | on an empty flat board, a player at the corner (0,0) can move exactly down, right and down-right, in that order |
| `Util.MoveSpaceFromCentre` | Util.py:84-99 | on an empty flat board, a player at the centre can move in all eight directions, in canonical order |
| `Util.GetMoveActionSpace` | Util.py:84-99 | the loop returns exactly the legal move actions in canonical order |
| `Util.GetBuildActionSpace` | Util.py:102-118 | the loop returns exactly the legal build actions in canonical order |
| `Util.GetActionSpace` | Util.py:121-125 | dispatches on the kind to the legal actions of that kind |
| `Util.NextTurn` | Util.py:128-135 | after a move the same agent builds; after a build the next agent, modulo the player count, moves |
| `Util.FullTurn` | Util.py:128-135 | a move and then a build return to a move turn of the next player, and the agent index stays below the player count |
| `Util.ApplyMove` | Util.py:169-175 | the old square is vacated, the new square holds the player, and every other cell is unchanged |
| `Util.ApplyBuild` | Util.py:176-179 | the target square is one level higher, and every other cell is unchanged |
| `Util.Transition` | Util.py:151-179 | a move relocates the player on the board and in the positions; a build raises one tower and leaves the positions alone; no tower is ever lowered; positions stay on the board |
| `Util.PlayNeverLowers` | Util.py:164-179 | after any sequence of transitions, no tower is lower than at the start |
| `Util.LegalTransitionKeepsInvariant` | Util.py:164-179 | a legal action keeps the board consistent with the positions, and keeps every tower at or below the cap |
| `Util.MoveThenBackRestores` | Util.py:169-175 | moving to an empty neighbour and back in the opposite direction restores the board and the positions |
| `Util.ChosenSquareIsAction` | Game.py:95-106 | a clicked square that passes the move or build check is the target of a listed action of that kind |
| `Util.FlatBoardHasMove` | Game.py:87-92 | on an unbuilt board with at most two players placed, every placed player has a move |
| `EvalHelper.DistanceBetweenPlayers` | EvalHelper.py:37-46 | the distance is the larger of the row and column gaps of players 0 and 1; it is zero exactly when they share a square, and at most 1 exactly when they are adjacent |
| `EvalHelper.DistanceSymmetric` | EvalHelper.py:37-46 | swapping players 0 and 1 leaves their distance unchanged |
| `EvalHelper.DistanceToCenter` | EvalHelper.py:48-56 | the distance is the larger of the gaps to the centre square (2,2); it is at most 2 on the board, and zero exactly at the centre |
| `EvalHelper.ExampleFirstByHeights` | EvalHelper.py:64-70 | the first (shadowed) example score changes exactly with the player's own height and with nothing else; it is never negative |
| `EvalHelper.ExampleScoreByHeights` | EvalHelper.py:75-88 | between any two position lists, the effective score changes by twice the change of the player's own height less the change of the opponent's; with the other height fixed it rises exactly when the player stands higher, or when the opponent stands lower |
| `EvalHelper.ExampleScoresRelated` | EvalHelper.py:64-88 | the effective score is twice the first example score of the player less the first example score of the opponent |
| `MiniMax.VMax` | MiniMax.py:136 | the larger of two extended values, which is one of them |
| `MiniMax.VMin` | MiniMax.py:111 | the smaller of two extended values, which is one of them |
| `MiniMax.LeTotalOrder` | MiniMax.py:95-141 | the order on -inf, integers and +inf is reflexive, total, antisymmetric and transitive |
| `MiniMax.FullWindowExact` | MiniMax.py:58-72 | a fail-soft result for the full window (-inf, +inf) equals the minimax value |
| `MiniMax.EvaluationFunction` | MiniMax.py:50-56 | the heuristic is finite and at most the searching player's (`playerNumber`'s) height; it equals the height exactly when the players share a square, and is at least the height less one exactly when they are adjacent |
| `MiniMax.Child` | MiniMax.py:97-111 | the child of a legal action is a well-formed node, one level shallower |
| `MiniMax.BestOfBounds` | MiniMax.py:109-141 | the best value over a list is at least (maximiser) or at most (minimiser) the value of each listed action |
| `MiniMax.BestOfAttained` | MiniMax.py:109-141 | the best value over a non-empty list is the value of one of its actions |
| `MiniMax.BestOfOrderFree` | MiniMax.py:97-106 | lists with the same elements have the same best value, so the shuffle does not change the minimax value |
| `MiniMax.BestOfPrefix` | MiniMax.py:113-114 | the best over a prefix is no better for the player to act than the best over the whole list |
| `MiniMax.BestOfSnoc` | MiniMax.py:109-112 | extending the prefix by one action combines its value with the prefix's best |
| `MiniMax.MaxStep` | MiniMax.py:136-140 | one child searched in the window (max(alpha, value), beta) keeps the running maximum fail-soft |
| `MiniMax.MinStep` | MiniMax.py:111-115 | one child searched in the window (alpha, min(beta, value)) keeps the running minimum fail-soft |
| `MiniMax.MaxWitnessStep` | MiniMax.py:136-140 | a child that raises the running maximum is fail-soft for the caller's window |
| `MiniMax.MinWitnessStep` | MiniMax.py:111-115 | a child that lowers the running minimum is fail-soft for the caller's window |
| `MiniMax.IndexOf` | MiniMax.py:116 | the first index at which a value occurs |
| `MiniMax.IndexOfAppend` | MiniMax.py:112 | appending keeps the first index of a value already present, and gives the new last index otherwise |
| `MiniMax.OneHotMarksChoice` | MiniMax.py:157-158 | the policy vector has 8 entries; it is 1 exactly at the chosen action's canonical index, and all 0 when there is no action |
| `MiniMax.MinRunStep` | MiniMax.py:109-115 | one iteration of the minimiser's loop keeps the running values non-increasing and the current running value fail-soft for the searched prefix; the action at that value's first occurrence is fail-soft too, and every action before it has a strictly greater minimax value |
| `MiniMax.MaxRunStep` | MiniMax.py:134-140 | one iteration of the maximiser's loop keeps the running values non-decreasing and the current running value fail-soft for the searched prefix; the action at that value's first occurrence is fail-soft too, and every action before it has a strictly smaller minimax value |
| `MiniMax.PrefixWorse` | MiniMax.py:109-141 | in either loop, when the running best strictly improves to a new value before any cut-off, every action searched so far is strictly worse than that value for the player to act |
| `MiniMax.MinRunCut` | MiniMax.py:113-114 | a cut-off at or below alpha leaves the value fail-soft for the whole action list |
| `MiniMax.MaxRunCut` | MiniMax.py:138-139 | a cut-off at or above beta leaves the value fail-soft for the whole action list |
| `MiniMax.MinRunAdvance` | MiniMax.py:109-115 | one iteration of the minimiser's loop: the new running state, and either a cut-off fail-soft for the whole list or a value still above alpha |
| `MiniMax.MaxRunAdvance` | MiniMax.py:134-140 | one iteration of the maximiser's loop: the new running state, and either a cut-off fail-soft for the whole list or a value still below beta |
| `MiniMax.MinRunDone` | MiniMax.py:116 | after the minimiser's loop, the value is fail-soft for the node, and the action at the value's first index is fail-soft too; every action before that index has a strictly greater minimax value |
| `MiniMax.MaxRunDone` | MiniMax.py:141 | after the maximiser's loop, the value is fail-soft for the node, and the action at the value's first index is fail-soft too; every action before that index has a strictly smaller minimax value |
| `MiniMax.SameElements` | MiniMax.py:97-108 | a shuffled list has the same elements as the original, and is empty exactly when the original is |
| `MiniMax.MiniMaxAgent.constructor` | MiniMax.py:15-21 | the agent stores its depth and player number, with the full window and no policy yet |
| `MiniMax.MiniMaxAgent.Transition` | MiniMax.py:23-48 | the agent's in-place transition on copies computes the same board and positions as the rule engine's transition |
| `MiniMax.MiniMaxAgent.AlphaBeta` | MiniMax.py:58-141 | the value is fail-soft against the minimax value; an action is returned exactly when the node expands; that action is legal and its child value is fail-soft against the node's value; with a non-empty window it is listed in the node's shuffled action space and every action listed before it has a minimax value strictly worse than the returned value for the player to act |
| `MiniMax.MiniMaxAgent.MinimizingPly` | MiniMax.py:94-116 | the minimiser's loop over the shuffled actions returns a value fail-soft against the best value over them, and the recorded running minima, which are non-increasing and end in that value; the action is the one at which they first reached it, its child value is fail-soft too, and with a non-empty window every action before it has a strictly greater minimax value |
| `MiniMax.MiniMaxAgent.MaximizingPly` | MiniMax.py:118-141 | the maximiser's loop over the shuffled actions returns a value fail-soft against the best value over them, and the recorded running maxima, which are non-decreasing and end in that value; the action is the one at which they first reached it, its child value is fail-soft too, and with a non-empty window every action before it has a strictly smaller minimax value |
| `MiniMax.MiniMaxAgent.SearchChild` | MiniMax.py:110-111 | searching the child of a legal action in a window gives a value fail-soft against that child's minimax value |
| `MiniMax.MiniMaxAgent.GetAction` | MiniMax.py:143-160 | searching with the full window returns an action exactly when the root expands; that action is legal and optimal; it is the first optimal action in the root's shuffled order: every action listed before it has a minimax value strictly worse than the root's for the player to act; the policy vector is the one-hot vector of the action |
| `Game.GameOverEventNone` | Game.py:147-166 | the game-over scan finds no winner exactly when no player is on level 3 and no current player due to move is without a move |
| `Game.GameOverEventFirst` | Game.py:147-166 | the scan names the first player in index order that ends the game: that player if it is on level 3, and the next player if it is stuck |
| `Game.MouseReleaseCases` | Game.py:81-110 | after the game is over a click does nothing. While placing, it places on an empty square. For an automated player to act it does nothing. For a human it moves or builds exactly when the check of the turn's kind allows it |
| `Game.CheckAfterMove` | Game.py:121-127 | right after a move, the mover wins exactly when it stands on level 3, and nobody wins otherwise |
| `Game.CheckBeforeMove` | Game.py:135-166 | after a build, with nobody on level 3, the player to move loses to the next player exactly when it has no move |
| `Game.LegalMoveKeepsValid` | Game.py:198-206 | a legal move keeps the game valid and makes the turn a build; the game ends exactly when the mover reaches level 3, and the mover is the winner |
| `Game.LegalBuildKeepsBoard` | Game.py:129-139 | a legal build keeps the board consistent with the positions, keeps towers at or below the cap, and leaves nobody on level 3 |
| `Game.LegalBuildKeepsValid` | Game.py:72-77 | a legal build keeps the game valid and passes a move turn to the other player; the game ends exactly when that player has no move, and the builder is the winner |
| `Game.AutomatedKeepsValid` | Game.py:63-79 | every legal automated action keeps the game valid |
| `Game.PlacementKeepsValid` | Game.py:87-92 | placing on an empty square keeps the game valid, records the player on the ground there, and advances the player to place |
| `Game.MouseReleaseKeepsValid` | Game.py:81-110 | every click keeps the game valid |
| `Game.MoveTurnAlwaysExpands` | MiniMax.py:76-91 | at a move turn of a running valid game with a positive depth, the search always offers an action |
| `Game.CornerBlocked` | Util.py:54-62 | a grounded player in the corner with a level-2 tower right of it, an occupied square below it and a capped diagonal has no move |
| `Game.StuckBoardSpaces` | Util.py:84-118 | on the example board, player 0 has no move but can build to its right |
| `Game.BuildTurnWithoutOnwardMove` | MiniMax.py:82-87 | in the valid example state the player to build has a legal build, yet the search does not expand the node at any depth |
| `Game.Player.constructor` | Game.py:174-185 | a player stores its policy and number; an automated player gets a fresh agent with the given depth and the same number, and a human gets none |
| `Game.Player.ChooseStartingPosition` | Game.py:187-196 | the starting position is the chosen square at height 0 |
| `Game.Player.Move` | Game.py:198-206 | the agent's action is taken exactly when the search expands. It is legal and optimal, and the game becomes the automated move's state. With no action the game is unchanged. The policy vector marks the action |
| `Game.Player.Build` | Game.py:208-216 | the agent's action is taken exactly when the search expands. It is legal and optimal, and one level is built at its target. With no action the game is unchanged. The policy vector marks the action |
| `Game.GameState.constructor` | Game.py:13-40 | a new game is valid and in the initial state, with the given policies and agents of the given depth |
| `Game.GameState.GameLoop` | Game.py:63-79 | a tick changes nothing before placement is done, after the game is over, or for a human. For an automated player it takes an optimal action's full effect when the search expands, and changes nothing otherwise |
| `Game.GameState.OnMouseRelease` | Game.py:81-110 | a click changes the state exactly as the click specification says, and keeps the game valid |
| `Game.GameState.PlacePlayer` | Game.py:88-92 | the next player is recorded on the board and in the positions, and the player to place advances |
| `Game.GameState.NextPlayer` | Game.py:107-108 | the next player becomes current and the game-over check runs |
| `Game.GameState.MoveOnBoard` | Game.py:113-127 | the player's old square is vacated and its new one occupied; its position is updated, the turn becomes a build, and the game-over check runs |
| `Game.GameState.BuildOnBoard` | Game.py:129-139 | one level more at the build square, the turn passes to the next player, and the next turn is a move |
| `Game.GameState.CheckForGameOver` | Game.py:141-166 | the scanning loop sets the flag and winner exactly as the game-over scan specifies, and changes nothing when there is no winner |

## Left out

- Rendering: pyglet windows, sprites, captions, the icon, `on_draw`, `print_board` and every `print` call. None of them affects the game state.
- `get_tile_by_click` (Util.py:188-203) is pixel arithmetic over window constants. Clicks enter the model as an on-board (row, col). Python's wrap-around of an index of -1 is not modelled.
- `main`, argparse, ConfigHandler and `config.getint` are configuration input. The search depth and the two policies are parameters instead.
- The human agent (HumanPlayer.py) only stores an index. A human's turns are the clicks handled by `OnMouseRelease`.
- `start_game` (Game.py:42-51) is dead code: nothing calls it. It would fail if called, because it passes the whole board where `choose_starting_position` expects a position. Placement is modelled as it happens, through `on_mouse_release` (`Game.PlaceState`, `Game.GameState.PlacePlayer`). `GameLoop` models one tick of the `game_loop` that `main` schedules on the clock (Game.py:237).
- `get_positions_around` and `get_reachable_positions` (EvalHelper.py:6-35) call names that do not exist and use an unset list, so they cannot run. They are not modelled.
- `Util.Transition` requires an on-board target square. Every caller guarantees it, through the action space or the validity checks. For an off-board target the source would wrap round at index -1 or raise an IndexError; that is not modelled.
- The branch of `move_logic` for an unrecognised direction is not representable. Directions are an eight-valued datatype.
- `move_logic` and `transition` promise not to modify their inputs. That holds trivially, because boards and positions are values.
- `random.shuffle` is an arbitrary permutation of each node's action list. It is a parameter that may depend on the path from the root. Randomness itself is not modelled.
- `math.inf` and the float scores are the datatype `Value` (-inf, an integer, or +inf). Heights are whole numbers, so no float arithmetic arises.
- Player policies other than human and minimax raise an exception in the source. Here the two-valued `Policy` datatype excludes them.
- An action of None reaching `Player.move` or `Player.build` raises a TypeError in the source. This happens at depth 0, or at the build turn shown by `Game.BuildTurnWithoutOnwardMove`. The model leaves the game unchanged and reports that no action was taken.
- `player_positions` with `None` entries for players not yet placed: placement fills the list in index order, so the model stores only the positions of the players placed so far.
- The board size is fixed at 5, where the source reads it from the board (`len(board[0])`).
- The first `evaluation_function_example` (EvalHelper.py:64-70) is rebound by the second definition of the same name. It is modelled as `EvalHelper.EvaluationFunctionExampleFirst` only to relate the two.
- Elimination of players beyond two is not present in the source.
