/**
 * The automated player: a depth-bounded minimax search with alpha-beta pruning
 * over alternating move and build plies, with a heuristic at the depth limit.
 * The value of a position from the searching player's point of view is given
 * by MinimaxValue (plain minimax); AlphaBeta is proved to return that value
 * whenever the window is the full one, whatever the order of the actions.
 */
module MiniMax {
  import opened Util
  import EvalHelper

  /** Search values: the integers extended with the two infinities. */
  datatype Value = NegInf | Fin(n: int) | PosInf

  predicate Le(x: Value, y: Value) {
    match x
    case NegInf => true
    case PosInf => y == PosInf
    case Fin(a) => y == PosInf || (y.Fin? && a <= y.n)
  }

  predicate Lt(x: Value, y: Value) {
    Le(x, y) && x != y
  }

  /** max(x, y) as the source computes it: x unless y is strictly greater. */
  function VMax(x: Value, y: Value): (m: Value)
    ensures Le(x, m) && Le(y, m) && (m == x || m == y)
  {
    if Le(y, x) then x else y
  }

  /** min(x, y) as the source computes it: x unless y is strictly smaller. */
  function VMin(x: Value, y: Value): (m: Value)
    ensures Le(m, x) && Le(m, y) && (m == x || m == y)
  {
    if Le(x, y) then x else y
  }

  lemma LeTotalOrder(x: Value, y: Value, z: Value)
    ensures Le(x, x)
    ensures Le(x, y) || Le(y, x)
    ensures Le(x, y) && Le(y, x) ==> x == y
    ensures Le(x, y) && Le(y, z) ==> Le(x, z)
  {
  }

  /**
   * What a search with window (alpha, beta) promises about its result v
   * against the true value m: a result at or below alpha is an upper bound of m,
   * one at or above beta is a lower bound of m, and one strictly inside is m.
   */
  ghost predicate FailSoft(alpha: Value, beta: Value, v: Value, m: Value) {
    && (Le(v, alpha) ==> Le(m, v))
    && (Lt(alpha, v) && Lt(v, beta) ==> m == v)
    && (Le(beta, v) ==> Le(v, m))
  }

  /** With the window (-inf, +inf) the promise is equality. */
  lemma FullWindowExact(v: Value, m: Value)
    requires FailSoft(NegInf, PosInf, v, m)
    ensures v == m
  {
  }

  /** The random order of the actions at every node: the path from the root and the actions to order. */
  type Shuffler = (seq<Action>, seq<Action>) -> seq<Action>

  /** Every order that the shuffler returns is a permutation of the actions it is given. */
  ghost predicate IsShuffle(shuffle: Shuffler) {
    forall path, actions :: multiset(shuffle(path, actions)) == multiset(actions)
  }

  /**
   * The heuristic at the depth limit: the searching player's height less the
   * Chebyshev distance between players 0 and 1.
   */
  function EvaluationFunction(playerNumber: nat, board: Board, ps: seq<Position>): (v: Value)
    requires playerNumber < |ps| && |ps| >= 2
    ensures v.Fin? && v.n <= ps[playerNumber].height
    ensures v.n == ps[playerNumber].height <==> SameSquare(ps[0], ps[1])
    ensures v.n >= ps[playerNumber].height - 1 <==> Near(ps[0], ps[1])
  {
    Fin(ps[playerNumber].height - EvalHelper.DistanceBetweenPlayers(ps))
  }

  /** A search node: the state, the depth still to search, who acts and how. */
  datatype Node = Node(board: Board, positions: seq<Position>, depth: nat, agent: nat, kind: Kind)

  ghost predicate Fits(n: nat, s: Node) {
    n >= 2 && |s.positions| == n && s.agent < n && AllInBounds(s.positions)
  }

  /** The node reached by the acting agent's legal action a, one ply deeper. */
  ghost function Child(n: nat, s: Node, a: Action): (c: Node)
    requires Fits(n, s) && s.depth > 0
    requires a in ActionSpace(s.board, s.positions[s.agent], s.kind)
    ensures Fits(n, c) && c.depth == s.depth - 1
  {
    ActionSpaceTargetInBounds(s.board, s.positions[s.agent], s.kind, a);
    var next := Transition(s.board, s.positions, a, s.agent);
    var turn := NextTurn(n, s.agent, s.kind);
    Node(next.0, next.1, s.depth - 1, turn.0, turn.1)
  }

  /** Whether the search expands the node rather than stopping at one of its base cases. */
  ghost predicate Expands(n: nat, s: Node)
    requires Fits(n, s)
  {
    && s.positions[s.agent].height != 3
    && |ActionSpace(s.board, s.positions[s.agent], Move)| > 0
    && s.depth > 0
    && |ActionSpace(s.board, s.positions[s.agent], s.kind)| > 0
  }

  /** The combining operator of a node: max for the searching player, min for the others. */
  function Combine(isMax: bool, x: Value, y: Value): Value {
    if isMax then VMax(x, y) else VMin(x, y)
  }

  function Identity(isMax: bool): Value {
    if isMax then NegInf else PosInf
  }

  /**
   * Plain minimax from the point of view of player me, with the same base cases
   * as the search: a player at height 3 has won, a player without a move has
   * lost, and at depth 0 the heuristic decides.
   */
  ghost function MinimaxValue(me: nat, n: nat, s: Node): Value
    requires Fits(n, s) && me < n
    decreases s.depth, 1, 0
  {
    if s.positions[s.agent].height == 3 then (if s.agent == me then PosInf else NegInf)
    else if |ActionSpace(s.board, s.positions[s.agent], Move)| == 0 then (if s.agent == me then NegInf else PosInf)
    else if s.depth == 0 then EvaluationFunction(me, s.board, s.positions)
    else
      var acts := ActionSpace(s.board, s.positions[s.agent], s.kind);
      if acts == [] then EvaluationFunction(me, s.board, s.positions)
      else BestOf(me, n, s, acts)
  }

  /** The best child value over acts (max or min according to who acts), folded from the left. */
  ghost function BestOf(me: nat, n: nat, s: Node, acts: seq<Action>): Value
    requires Fits(n, s) && me < n && s.depth > 0
    requires forall a :: a in acts ==> a in ActionSpace(s.board, s.positions[s.agent], s.kind)
    decreases s.depth, 0, |acts|
  {
    if acts == [] then Identity(s.agent == me)
    else Combine(s.agent == me, BestOf(me, n, s, acts[..|acts| - 1]), ChildValue(me, n, s, acts[|acts| - 1]))
  }

  ghost function ChildValue(me: nat, n: nat, s: Node, a: Action): Value
    requires Fits(n, s) && me < n && s.depth > 0
    requires a in ActionSpace(s.board, s.positions[s.agent], s.kind)
    decreases s.depth, 0, 0
  {
    MinimaxValue(me, n, Child(n, s, a))
  }

  /** Every child value is bounded by the best one (from above for max, from below for min). */
  lemma {:induction false} BestOfBounds(me: nat, n: nat, s: Node, acts: seq<Action>, a: Action)
    requires Fits(n, s) && me < n && s.depth > 0
    requires forall x :: x in acts ==> x in ActionSpace(s.board, s.positions[s.agent], s.kind)
    requires a in acts
    ensures s.agent == me ==> Le(ChildValue(me, n, s, a), BestOf(me, n, s, acts))
    ensures s.agent != me ==> Le(BestOf(me, n, s, acts), ChildValue(me, n, s, a))
    decreases |acts|
  {
    var init := acts[..|acts| - 1];
    var best := BestOf(me, n, s, acts);
    var rest := BestOf(me, n, s, init);
    var c := ChildValue(me, n, s, a);
    if a != acts[|acts| - 1] {
      assert a in init;
      BestOfBounds(me, n, s, init, a);
      LeTotalOrder(c, rest, best);
      LeTotalOrder(best, rest, c);
    }
  }

  /** A non-empty fold is attained by one of its actions. */
  lemma {:induction false} BestOfAttained(me: nat, n: nat, s: Node, acts: seq<Action>) returns (w: Action)
    requires Fits(n, s) && me < n && s.depth > 0
    requires forall x :: x in acts ==> x in ActionSpace(s.board, s.positions[s.agent], s.kind)
    requires acts != []
    ensures w in acts && BestOf(me, n, s, acts) == ChildValue(me, n, s, w)
    decreases |acts|
  {
    var init := acts[..|acts| - 1];
    var last := acts[|acts| - 1];
    if init == [] || BestOf(me, n, s, acts) == ChildValue(me, n, s, last) {
      w := last;
    } else {
      w := BestOfAttained(me, n, s, init);
    }
  }

  /** The best value depends only on which actions are folded, not on their order. */
  lemma BestOfOrderFree(me: nat, n: nat, s: Node, xs: seq<Action>, ys: seq<Action>)
    requires Fits(n, s) && me < n && s.depth > 0
    requires forall x :: x in xs ==> x in ActionSpace(s.board, s.positions[s.agent], s.kind)
    requires forall x :: x in xs <==> x in ys
    ensures BestOf(me, n, s, xs) == BestOf(me, n, s, ys)
  {
    assert xs != [] ==> xs[0] in ys;
    assert ys != [] ==> ys[0] in xs;
    if xs != [] {
      var wx := BestOfAttained(me, n, s, xs);
      var wy := BestOfAttained(me, n, s, ys);
      BestOfBounds(me, n, s, ys, wx);
      BestOfBounds(me, n, s, xs, wy);
      LeTotalOrder(BestOf(me, n, s, xs), BestOf(me, n, s, ys), BestOf(me, n, s, xs));
    }
  }

  /** Folding more actions can only improve the best value for whoever acts. */
  lemma {:induction false} BestOfPrefix(me: nat, n: nat, s: Node, acts: seq<Action>, i: nat)
    requires Fits(n, s) && me < n && s.depth > 0
    requires forall x :: x in acts ==> x in ActionSpace(s.board, s.positions[s.agent], s.kind)
    requires i <= |acts|
    ensures s.agent == me ==> Le(BestOf(me, n, s, acts[..i]), BestOf(me, n, s, acts))
    ensures s.agent != me ==> Le(BestOf(me, n, s, acts), BestOf(me, n, s, acts[..i]))
    decreases |acts|
  {
    if i == |acts| {
      assert acts[..i] == acts;
      LeTotalOrder(BestOf(me, n, s, acts), BestOf(me, n, s, acts), BestOf(me, n, s, acts));
    } else {
      var init := acts[..|acts| - 1];
      assert init[..i] == acts[..i];
      BestOfPrefix(me, n, s, init, i);
      LeTotalOrder(BestOf(me, n, s, acts[..i]), BestOf(me, n, s, init), BestOf(me, n, s, acts));
      LeTotalOrder(BestOf(me, n, s, acts), BestOf(me, n, s, init), BestOf(me, n, s, acts[..i]));
    }
  }

  lemma BestOfSnoc(me: nat, n: nat, s: Node, acts: seq<Action>, i: nat)
    requires Fits(n, s) && me < n && s.depth > 0
    requires forall x :: x in acts ==> x in ActionSpace(s.board, s.positions[s.agent], s.kind)
    requires i < |acts|
    ensures BestOf(me, n, s, acts[..i + 1])
         == Combine(s.agent == me, BestOf(me, n, s, acts[..i]), ChildValue(me, n, s, acts[i]))
  {
    assert acts[..i + 1][..i] == acts[..i];
  }

  /**
   * One step of a maximizing node: the running value and the running best of
   * the true values keep the promise after one more child searched with the
   * raised alpha.
   */
  lemma MaxStep(alpha: Value, beta: Value, value: Value, best: Value, v: Value, m: Value)
    requires Lt(alpha, beta) && Lt(value, beta)
    requires FailSoft(alpha, beta, value, best)
    requires FailSoft(VMax(alpha, value), beta, v, m)
    ensures FailSoft(alpha, beta, VMax(value, v), VMax(best, m))
  {
    LeTotalOrder(value, v, alpha);
    LeTotalOrder(best, m, value);
    LeTotalOrder(v, alpha, beta);
    LeTotalOrder(value, alpha, beta);
    LeTotalOrder(m, v, value);
    LeTotalOrder(best, value, v);
  }

  /** One step of a minimizing node, with the lowered beta. */
  lemma MinStep(alpha: Value, beta: Value, value: Value, best: Value, v: Value, m: Value)
    requires Lt(alpha, beta) && Lt(alpha, value)
    requires FailSoft(alpha, beta, value, best)
    requires FailSoft(alpha, VMin(beta, value), v, m)
    ensures FailSoft(alpha, beta, VMin(value, v), VMin(best, m))
  {
    LeTotalOrder(value, v, beta);
    LeTotalOrder(best, m, value);
    LeTotalOrder(alpha, v, beta);
    LeTotalOrder(alpha, value, beta);
    LeTotalOrder(v, m, value);
    LeTotalOrder(value, best, v);
  }

  /** A child that strictly raises a maximizing node's value keeps the promise for the node's window. */
  lemma MaxWitnessStep(alpha: Value, beta: Value, value: Value, v: Value, m: Value)
    requires Lt(alpha, beta) && Lt(value, beta) && Lt(value, v)
    requires FailSoft(VMax(alpha, value), beta, v, m)
    ensures FailSoft(alpha, beta, v, m)
  {
    LeTotalOrder(value, v, alpha);
    LeTotalOrder(v, alpha, beta);
    LeTotalOrder(alpha, value, v);
  }

  /** A child that strictly lowers a minimizing node's value keeps the promise for the node's window. */
  lemma MinWitnessStep(alpha: Value, beta: Value, value: Value, v: Value, m: Value)
    requires Lt(alpha, beta) && Lt(alpha, value) && Lt(v, value)
    requires FailSoft(alpha, VMin(beta, value), v, m)
    ensures FailSoft(alpha, beta, v, m)
  {
    LeTotalOrder(v, value, beta);
    LeTotalOrder(alpha, v, beta);
    LeTotalOrder(v, value, beta);
  }

  /** The first index at which x occurs (the source's list.index). */
  function IndexOf(s: seq<Value>, x: Value): (i: nat)
    requires x in s
    ensures i < |s| && s[i] == x
    ensures forall j :: 0 <= j < i ==> s[j] != x
  {
    if s[0] == x then 0 else 1 + IndexOf(s[1..], x)
  }

  lemma IndexOfAppend(s: seq<Value>, y: Value, x: Value)
    requires x in s + [y]
    ensures x in s ==> IndexOf(s + [y], x) == IndexOf(s, x)
    ensures x !in s ==> IndexOf(s + [y], x) == |s|
  {
    var i := IndexOf(s + [y], x);
    if x in s {
      var k := IndexOf(s, x);
      assert (s + [y])[k] == x;
    }
  }

  /**
   * The tie rule of a ply: values are the running best values recorded after
   * each searched action of acts (non-decreasing at a maximizing node,
   * non-increasing at a minimizing one), the last of them is value, and a is
   * the first action at which the running best reached value.
   */
  predicate FirstReaching(acts: seq<Action>, values: seq<Value>, isMax: bool, value: Value, a: Action) {
    && 0 < |values| <= |acts| && values[|values| - 1] == value && value in values
    && (isMax ==> forall j, l :: 0 <= j <= l < |values| ==> Le(values[j], values[l]))
    && (!isMax ==> forall j, l :: 0 <= j <= l < |values| ==> Le(values[l], values[j]))
    && IndexOf(values, value) < |acts| && a == acts[IndexOf(values, value)]
  }

  /**
   * Every action of acts before index k is strictly worse than value for the
   * player to act at s: its minimax value is below value at a maximizing node
   * and above it at a minimizing one.
   */
  ghost predicate EarlierWorse(me: nat, n: nat, s: Node, acts: seq<Action>, k: nat, value: Value)
    requires Fits(n, s) && me < n && s.depth > 0 && k <= |acts|
    requires forall x :: x in acts ==> x in ActionSpace(s.board, s.positions[s.agent], s.kind)
  {
    forall j :: 0 <= j < k ==>
      if s.agent == me then Lt(ChildValue(me, n, s, acts[j]), value) else Lt(value, ChildValue(me, n, s, acts[j]))
  }

  /** The tie rule of the search: a is listed in acts, and every action before it is strictly worse than value. */
  ghost predicate FirstToReach(me: nat, n: nat, s: Node, acts: seq<Action>, value: Value, a: Action) {
    && Fits(n, s) && me < n && s.depth > 0
    && (forall x :: x in acts ==> x in ActionSpace(s.board, s.positions[s.agent], s.kind))
    && exists k :: 0 <= k < |acts| && acts[k] == a && EarlierWorse(me, n, s, acts, k, value)
  }

  /**
   * When the running best of a node strictly improves to v, every action
   * searched so far is strictly worse than v: their values are bounded by the
   * best of the prefix, which the running best bounds as long as it has not cut.
   */
  lemma PrefixWorse(me: nat, n: nat, s: Node, acts: seq<Action>, alpha: Value, beta: Value,
                    value: Value, v: Value, i: nat)
    requires Fits(n, s) && me < n && s.depth > 0 && i <= |acts|
    requires forall x :: x in acts ==> x in ActionSpace(s.board, s.positions[s.agent], s.kind)
    requires Lt(alpha, beta) && FailSoft(alpha, beta, value, BestOf(me, n, s, acts[..i]))
    requires s.agent == me ==> Lt(value, beta) && Lt(value, v)
    requires s.agent != me ==> Lt(alpha, value) && Lt(v, value)
    ensures EarlierWorse(me, n, s, acts, i, v)
  {
    var b := BestOf(me, n, s, acts[..i]);
    LeTotalOrder(value, alpha, beta);
    forall j | 0 <= j < i
      ensures if s.agent == me then Lt(ChildValue(me, n, s, acts[j]), v) else Lt(v, ChildValue(me, n, s, acts[j]))
    {
      assert acts[j] in acts[..i];
      BestOfBounds(me, n, s, acts[..i], acts[j]);
      var c := ChildValue(me, n, s, acts[j]);
      if s.agent == me {
        LeTotalOrder(c, b, value);
        LeTotalOrder(c, value, v);
        LeTotalOrder(value, v, c);
      } else {
        LeTotalOrder(value, b, c);
        LeTotalOrder(v, value, c);
        LeTotalOrder(c, v, value);
      }
    }
  }

  /** pi over all actions of the kind: 1 at the chosen action and 0 elsewhere. */
  function OneHot(allActions: seq<Action>, action: Option<Action>): seq<int> {
    seq(|allActions|, i requires 0 <= i < |allActions| => if action == Some(allActions[i]) then 1 else 0)
  }

  /**
   * Over the eight actions of a kind, the vector marks exactly the chosen
   * action's direction, and is all zeros when there is no action.
   */
  lemma OneHotMarksChoice(k: Kind, action: Option<Action>)
    requires action.Some? ==> action.value.kind == k
    ensures |OneHot(GetAllActions(k), action)| == 8
    ensures action.None? ==> forall i :: 0 <= i < 8 ==> OneHot(GetAllActions(k), action)[i] == 0
    ensures action.Some? ==> forall i :: 0 <= i < 8 ==>
      OneHot(GetAllActions(k), action)[i] == if i == DirIndex(action.value.dir) then 1 else 0
  {
    var all := GetAllActions(k);
    if action.Some? {
      forall i | 0 <= i < 8
        ensures OneHot(all, action)[i] == if i == DirIndex(action.value.dir) then 1 else 0
      {
        if i == DirIndex(action.value.dir) {
          assert all[i] == action.value by {
            match action.value.dir
            case U => {} case D => {} case L => {} case R => {}
            case UL => {} case UR => {} case DL => {} case DR => {}
          }
        }
      }
    }
  }

  /**
   * The state of a minimizing node's loop after |values| children: the running
   * minima recorded so far, the last of them being value, keep the promise for
   * the folded prefix, and the first action at which the running minimum
   * reached value keeps it for its own child value.
   */
  ghost predicate MinRun(me: nat, n: nat, s: Node, acts: seq<Action>, alpha: Value, beta: Value,
                         value: Value, values: seq<Value>)
    requires Fits(n, s) && me < n && s.depth > 0 && |values| <= |acts|
    requires forall x :: x in acts ==> x in ActionSpace(s.board, s.positions[s.agent], s.kind)
  {
    var i := |values|;
    && (i == 0 ==> value == PosInf)
    && (i > 0 ==> value == values[i - 1])
    && (forall j, l :: 0 <= j <= l < i ==> Le(values[l], values[j]))
    && (Lt(alpha, beta) ==> FailSoft(alpha, beta, value, BestOf(me, n, s, acts[..i])))
    && (i > 0 && Lt(alpha, beta) ==>
         && value in values && FailSoft(alpha, beta, value, ChildValue(me, n, s, acts[IndexOf(values, value)]))
         && EarlierWorse(me, n, s, acts, IndexOf(values, value), value))
  }

  /** The same for a maximizing node, with running maxima. */
  ghost predicate MaxRun(me: nat, n: nat, s: Node, acts: seq<Action>, alpha: Value, beta: Value,
                         value: Value, values: seq<Value>)
    requires Fits(n, s) && me < n && s.depth > 0 && |values| <= |acts|
    requires forall x :: x in acts ==> x in ActionSpace(s.board, s.positions[s.agent], s.kind)
  {
    var i := |values|;
    && (i == 0 ==> value == NegInf)
    && (i > 0 ==> value == values[i - 1])
    && (forall j, l :: 0 <= j <= l < i ==> Le(values[j], values[l]))
    && (Lt(alpha, beta) ==> FailSoft(alpha, beta, value, BestOf(me, n, s, acts[..i])))
    && (i > 0 && Lt(alpha, beta) ==>
         && value in values && FailSoft(alpha, beta, value, ChildValue(me, n, s, acts[IndexOf(values, value)]))
         && EarlierWorse(me, n, s, acts, IndexOf(values, value), value))
  }

  /** Searching one more child of a minimizing node, with beta lowered to the running minimum, keeps MinRun. */
  lemma MinRunStep(me: nat, n: nat, s: Node, acts: seq<Action>, alpha: Value, beta: Value,
                   value: Value, values: seq<Value>, v: Value)
    requires Fits(n, s) && me < n && s.depth > 0 && |values| < |acts| && s.agent != me
    requires forall x :: x in acts ==> x in ActionSpace(s.board, s.positions[s.agent], s.kind)
    requires MinRun(me, n, s, acts, alpha, beta, value, values)
    requires Lt(alpha, beta) ==> Lt(alpha, value)
    requires Lt(alpha, beta) ==> FailSoft(alpha, VMin(beta, value), v, ChildValue(me, n, s, acts[|values|]))
    ensures MinRun(me, n, s, acts, alpha, beta, VMin(value, v), values + [VMin(value, v)])
    ensures VMin(VMin(beta, value), VMin(value, v)) == VMin(beta, VMin(value, v))
  {
    var i := |values|;
    var value' := VMin(value, v);
    var values' := values + [value'];
    LeTotalOrder(value', value, beta);
    forall j, l | 0 <= j <= l < i + 1 ensures Le(values'[l], values'[j]) {
      if l == i && j < i {
        LeTotalOrder(value', value, values[j]);
      }
    }
    BestOfSnoc(me, n, s, acts, i);
    if Lt(alpha, beta) {
      var c := ChildValue(me, n, s, acts[i]);
      MinStep(alpha, beta, value, BestOf(me, n, s, acts[..i]), v, c);
      IndexOfAppend(values, value', value');
      if Lt(v, value) {
        MinWitnessStep(alpha, beta, value, v, c);
        forall j | 0 <= j < i ensures values[j] != value' {
          LeTotalOrder(value, values[j], v);
        }
        PrefixWorse(me, n, s, acts, alpha, beta, value, v, i);
      } else {
        assert value' == value;
      }
    }
  }

  /** Searching one more child of a maximizing node, with alpha raised to the running maximum, keeps MaxRun. */
  lemma MaxRunStep(me: nat, n: nat, s: Node, acts: seq<Action>, alpha: Value, beta: Value,
                   value: Value, values: seq<Value>, v: Value)
    requires Fits(n, s) && me < n && s.depth > 0 && |values| < |acts| && s.agent == me
    requires forall x :: x in acts ==> x in ActionSpace(s.board, s.positions[s.agent], s.kind)
    requires MaxRun(me, n, s, acts, alpha, beta, value, values)
    requires Lt(alpha, beta) ==> Lt(value, beta)
    requires Lt(alpha, beta) ==> FailSoft(VMax(alpha, value), beta, v, ChildValue(me, n, s, acts[|values|]))
    ensures MaxRun(me, n, s, acts, alpha, beta, VMax(value, v), values + [VMax(value, v)])
    ensures VMax(VMax(alpha, value), VMax(value, v)) == VMax(alpha, VMax(value, v))
  {
    var i := |values|;
    var value' := VMax(value, v);
    var values' := values + [value'];
    LeTotalOrder(value', value, alpha);
    forall j, l | 0 <= j <= l < i + 1 ensures Le(values'[j], values'[l]) {
      if l == i && j < i {
        LeTotalOrder(values[j], value, value');
      }
    }
    BestOfSnoc(me, n, s, acts, i);
    if Lt(alpha, beta) {
      var c := ChildValue(me, n, s, acts[i]);
      MaxStep(alpha, beta, value, BestOf(me, n, s, acts[..i]), v, c);
      IndexOfAppend(values, value', value');
      if Lt(value, v) {
        MaxWitnessStep(alpha, beta, value, v, c);
        forall j | 0 <= j < i ensures values[j] != value' {
          LeTotalOrder(values[j], value, v);
        }
        PrefixWorse(me, n, s, acts, alpha, beta, value, v, i);
      } else {
        assert value' == value;
      }
    }
  }

  /** A cut at a minimizing node: a running minimum at or below alpha bounds the whole node from above. */
  lemma MinRunCut(me: nat, n: nat, s: Node, acts: seq<Action>, alpha: Value, beta: Value,
                  value: Value, values: seq<Value>)
    requires Fits(n, s) && me < n && s.depth > 0 && |values| <= |acts| && s.agent != me
    requires forall x :: x in acts ==> x in ActionSpace(s.board, s.positions[s.agent], s.kind)
    requires MinRun(me, n, s, acts, alpha, beta, value, values)
    requires Lt(alpha, beta) && Le(value, alpha)
    ensures FailSoft(alpha, beta, value, BestOf(me, n, s, acts))
  {
    BestOfPrefix(me, n, s, acts, |values|);
    LeTotalOrder(BestOf(me, n, s, acts), BestOf(me, n, s, acts[..|values|]), value);
    LeTotalOrder(value, alpha, beta);
  }

  /** A cut at a maximizing node: a running maximum at or above beta bounds the whole node from below. */
  lemma MaxRunCut(me: nat, n: nat, s: Node, acts: seq<Action>, alpha: Value, beta: Value,
                  value: Value, values: seq<Value>)
    requires Fits(n, s) && me < n && s.depth > 0 && |values| <= |acts| && s.agent == me
    requires forall x :: x in acts ==> x in ActionSpace(s.board, s.positions[s.agent], s.kind)
    requires MaxRun(me, n, s, acts, alpha, beta, value, values)
    requires Lt(alpha, beta) && Le(beta, value)
    ensures FailSoft(alpha, beta, value, BestOf(me, n, s, acts))
  {
    BestOfPrefix(me, n, s, acts, |values|);
    LeTotalOrder(value, BestOf(me, n, s, acts[..|values|]), BestOf(me, n, s, acts));
    LeTotalOrder(alpha, beta, value);
  }
  /**
   * One pass of a minimizing node's loop on the abstract state: MinRun is kept,
   * and either the new running minimum cuts (it bounds the whole node) or it
   * stays above alpha.
   */
  lemma MinRunAdvance(me: nat, n: nat, s: Node, acts: seq<Action>, alpha: Value, beta: Value,
                      value: Value, values: seq<Value>, v: Value)
    requires Fits(n, s) && me < n && s.depth > 0 && |values| < |acts| && s.agent != me
    requires forall x :: x in acts ==> x in ActionSpace(s.board, s.positions[s.agent], s.kind)
    requires MinRun(me, n, s, acts, alpha, beta, value, values)
    requires Lt(alpha, beta) ==> Lt(alpha, value)
    requires Lt(alpha, beta) ==> FailSoft(alpha, VMin(beta, value), v, ChildValue(me, n, s, acts[|values|]))
    ensures MinRun(me, n, s, acts, alpha, beta, VMin(value, v), values + [VMin(value, v)])
    ensures VMin(VMin(beta, value), VMin(value, v)) == VMin(beta, VMin(value, v))
    ensures Lt(alpha, beta) && Le(VMin(value, v), alpha) ==>
      FailSoft(alpha, beta, VMin(value, v), BestOf(me, n, s, acts))
    ensures Lt(alpha, beta) && !Le(VMin(value, v), alpha) ==> Lt(alpha, VMin(value, v))
  {
    MinRunStep(me, n, s, acts, alpha, beta, value, values, v);
    var value' := VMin(value, v);
    if Lt(alpha, beta) {
      if Le(value', alpha) {
        MinRunCut(me, n, s, acts, alpha, beta, value', values + [value']);
      } else {
        LeTotalOrder(alpha, value', alpha);
      }
    }
  }

  /** The same for a maximizing node: either the new running maximum cuts, or it stays below beta. */
  lemma MaxRunAdvance(me: nat, n: nat, s: Node, acts: seq<Action>, alpha: Value, beta: Value,
                      value: Value, values: seq<Value>, v: Value)
    requires Fits(n, s) && me < n && s.depth > 0 && |values| < |acts| && s.agent == me
    requires forall x :: x in acts ==> x in ActionSpace(s.board, s.positions[s.agent], s.kind)
    requires MaxRun(me, n, s, acts, alpha, beta, value, values)
    requires Lt(alpha, beta) ==> Lt(value, beta)
    requires Lt(alpha, beta) ==> FailSoft(VMax(alpha, value), beta, v, ChildValue(me, n, s, acts[|values|]))
    ensures MaxRun(me, n, s, acts, alpha, beta, VMax(value, v), values + [VMax(value, v)])
    ensures VMax(VMax(alpha, value), VMax(value, v)) == VMax(alpha, VMax(value, v))
    ensures Lt(alpha, beta) && Le(beta, VMax(value, v)) ==>
      FailSoft(alpha, beta, VMax(value, v), BestOf(me, n, s, acts))
    ensures Lt(alpha, beta) && !Le(beta, VMax(value, v)) ==> Lt(VMax(value, v), beta)
  {
    MaxRunStep(me, n, s, acts, alpha, beta, value, values, v);
    var value' := VMax(value, v);
    if Lt(alpha, beta) {
      if Le(beta, value') {
        MaxRunCut(me, n, s, acts, alpha, beta, value', values + [value']);
      } else {
        LeTotalOrder(value', beta, value');
      }
    }
  }

  /**
   * The end of a minimizing node's loop, after all children or after a cut:
   * the running minimum keeps the promise for the node, and so does the first
   * action at which it was reached.
   */
  lemma MinRunDone(me: nat, n: nat, s: Node, acts: seq<Action>, alpha: Value, beta: Value,
                   value: Value, values: seq<Value>)
    requires Fits(n, s) && me < n && s.depth > 0 && 0 < |values| <= |acts|
    requires forall x :: x in acts ==> x in ActionSpace(s.board, s.positions[s.agent], s.kind)
    requires MinRun(me, n, s, acts, alpha, beta, value, values)
    requires |values| == |acts| || (Lt(alpha, beta) ==> FailSoft(alpha, beta, value, BestOf(me, n, s, acts)))
    ensures value in values && IndexOf(values, value) < |acts|
    ensures Lt(alpha, beta) ==> FailSoft(alpha, beta, value, BestOf(me, n, s, acts))
    ensures Lt(alpha, beta) ==> FailSoft(alpha, beta, value, ChildValue(me, n, s, acts[IndexOf(values, value)]))
    ensures Lt(alpha, beta) ==> EarlierWorse(me, n, s, acts, IndexOf(values, value), value)
  {
    assert values[|values| - 1] == value;
    if |values| == |acts| {
      assert acts[..|values|] == acts;
    }
  }

  /** The same for a maximizing node. */
  lemma MaxRunDone(me: nat, n: nat, s: Node, acts: seq<Action>, alpha: Value, beta: Value,
                   value: Value, values: seq<Value>)
    requires Fits(n, s) && me < n && s.depth > 0 && 0 < |values| <= |acts|
    requires forall x :: x in acts ==> x in ActionSpace(s.board, s.positions[s.agent], s.kind)
    requires MaxRun(me, n, s, acts, alpha, beta, value, values)
    requires |values| == |acts| || (Lt(alpha, beta) ==> FailSoft(alpha, beta, value, BestOf(me, n, s, acts)))
    ensures value in values && IndexOf(values, value) < |acts|
    ensures Lt(alpha, beta) ==> FailSoft(alpha, beta, value, BestOf(me, n, s, acts))
    ensures Lt(alpha, beta) ==> FailSoft(alpha, beta, value, ChildValue(me, n, s, acts[IndexOf(values, value)]))
    ensures Lt(alpha, beta) ==> EarlierWorse(me, n, s, acts, IndexOf(values, value), value)
  {
    assert values[|values| - 1] == value;
    if |values| == |acts| {
      assert acts[..|values|] == acts;
    }
  }

  /** Two orderings of the same actions have the same members, and one is empty exactly when the other is. */
  lemma SameElements(xs: seq<Action>, ys: seq<Action>)
    requires multiset(xs) == multiset(ys)
    ensures forall x :: x in xs <==> x in ys
    ensures xs == [] <==> ys == []
  {
    forall x ensures x in xs <==> x in ys {
      assert x in xs <==> x in multiset(xs);
      assert x in ys <==> x in multiset(ys);
    }
    assert |xs| == |multiset(xs)| == |multiset(ys)| == |ys|;
  }

  class MiniMaxAgent {
    /** Search depth, in plies. */
    const d: nat
    /** The root window. */
    const alpha: Value := NegInf
    const beta: Value := PosInf
    const playerNumber: nat
    /** One-hot vector of the last chosen action over all actions of its kind. */
    var pi: Option<seq<int>>

    constructor (d: nat, playerNumber: nat)
      ensures this.d == d && this.playerNumber == playerNumber && pi == None
    {
      this.d := d;
      this.playerNumber := playerNumber;
      pi := None;
    }

    /**
     * The agent's own copy of the one-action transition: it writes the copied
     * board and positions in place, and computes the same as Util.Transition.
     */
    method Transition(board: Board, playerPositions: seq<Position>, action: Action, player: nat)
      returns (newBoard: Board, newPositions: seq<Position>)
      requires player < |playerPositions| && InBounds(playerPositions[player])
      requires InBounds(MoveLogic(board, playerPositions[player], action))
      ensures (newBoard, newPositions) == Util.Transition(board, playerPositions, action, player)
    {
      newBoard := board;
      newPositions := playerPositions;
      if action.kind == Move {
        var oldPosition := playerPositions[player];
        var newPosition := MoveLogic(board, oldPosition, action);
        newPositions := newPositions[player := newPosition];
        newBoard := SetOccupant(newBoard, oldPosition, None);
        newBoard := SetOccupant(newBoard, newPosition, Some(player));
      } else {
        var buildLoc := MoveLogic(board, playerPositions[player], action);
        newBoard := SetHeight(newBoard, buildLoc, board[buildLoc.row][buildLoc.col].height + 1);
      }
    }

    /**
     * Alpha-beta search of the node (board, positions, dSolve, agent, actionType).
     * The value keeps the fail-soft promise against plain minimax (so it is the
     * minimax value for the full window); an action is returned exactly when the
     * node is expanded, it is legal there, and its own minimax value keeps the
     * same promise.
     */
    method AlphaBeta(board: Board, numPlayers: nat, playerPositions: seq<Position>, alpha: Value, beta: Value,
                     dSolve: nat, agent: nat, actionType: Kind, shuffle: Shuffler, path: seq<Action>)
      returns (value: Value, action: Option<Action>)
      requires Fits(numPlayers, Node(board, playerPositions, dSolve, agent, actionType))
      requires playerNumber < numPlayers && IsShuffle(shuffle)
      ensures Lt(alpha, beta) ==>
        FailSoft(alpha, beta, value, MinimaxValue(playerNumber, numPlayers, Node(board, playerPositions, dSolve, agent, actionType)))
      ensures action.Some? <==> Expands(numPlayers, Node(board, playerPositions, dSolve, agent, actionType))
      ensures action.Some? ==> action.value in ActionSpace(board, playerPositions[agent], actionType)
      ensures action.Some? && Lt(alpha, beta) ==>
        FailSoft(alpha, beta, value, ChildValue(playerNumber, numPlayers, Node(board, playerPositions, dSolve, agent, actionType), action.value))
      ensures action.Some? && Lt(alpha, beta) ==>
        FirstToReach(playerNumber, numPlayers, Node(board, playerPositions, dSolve, agent, actionType),
                     shuffle(path, ActionSpace(board, playerPositions[agent], actionType)), value, action.value)
      decreases dSolve, 2
    {
      ghost var s := Node(board, playerPositions, dSolve, agent, actionType);
      // a player has reached the top level
      if playerPositions[agent].height == 3 {
        value := if agent == playerNumber then PosInf else NegInf;
        return value, None;
      }
      // the player to act cannot move
      var moves := GetMoveActionSpace(board, playerPositions[agent]);
      if |moves| == 0 {
        value := if agent == playerNumber then NegInf else PosInf;
        return value, None;
      }
      if dSolve == 0 {
        return EvaluationFunction(playerNumber, board, playerPositions), None;
      }
      var actions: seq<Action>;
      var nextAgent: nat, nextAction: Kind;
      if actionType == Move {
        actions := GetMoveActionSpace(board, playerPositions[agent]);
        nextAgent, nextAction := agent, Build;
      } else {
        actions := GetBuildActionSpace(board, playerPositions[agent]);
        nextAgent, nextAction := (agent + 1) % numPlayers, Move;
      }
      actions := shuffle(path, actions);
      ghost var space := ActionSpace(board, playerPositions[agent], actionType);
      SameElements(actions, space);
      if |actions| == 0 {
        return EvaluationFunction(playerNumber, board, playerPositions), None;
      }
      var chosen: Action;
      var values: seq<Value>;
      if agent != playerNumber {
        value, chosen, values := MinimizingPly(board, numPlayers, playerPositions, alpha, beta, dSolve, agent, actionType,
                                       nextAgent, nextAction, actions, shuffle, path);
      } else {
        value, chosen, values := MaximizingPly(board, numPlayers, playerPositions, alpha, beta, dSolve, agent, actionType,
                                       nextAgent, nextAction, actions, shuffle, path);
      }
      BestOfOrderFree(playerNumber, numPlayers, s, actions, space);
      ghost var k := IndexOf(values, value);
      assert actions[k] == chosen;
      action := Some(chosen);
    }

    /**
     * The loop of a minimizing node over the shuffled actions: the running
     * minimum, a cut once it is at or below alpha, beta lowered otherwise, and
     * the first action at which the running minimum reached the final value.
     */
    method MinimizingPly(board: Board, numPlayers: nat, playerPositions: seq<Position>, alpha: Value, beta: Value,
                         dSolve: nat, agent: nat, actionType: Kind, nextAgent: nat, nextAction: Kind,
                         actions: seq<Action>, shuffle: Shuffler, path: seq<Action>)
      returns (value: Value, action: Action, values: seq<Value>)
      requires Fits(numPlayers, Node(board, playerPositions, dSolve, agent, actionType))
      requires playerNumber < numPlayers && IsShuffle(shuffle)
      requires dSolve > 0 && agent != playerNumber
      requires (nextAgent, nextAction) == NextTurn(numPlayers, agent, actionType)
      requires actions != []
      requires forall x :: x in actions ==> x in ActionSpace(board, playerPositions[agent], actionType)
      ensures action in actions
      ensures FirstReaching(actions, values, agent == playerNumber, value, action)
      ensures Lt(alpha, beta) ==> EarlierWorse(playerNumber, numPlayers, Node(board, playerPositions, dSolve, agent, actionType),
                                               actions, IndexOf(values, value), value)
      ensures Lt(alpha, beta) ==>
        FailSoft(alpha, beta, value, BestOf(playerNumber, numPlayers, Node(board, playerPositions, dSolve, agent, actionType), actions))
      ensures Lt(alpha, beta) ==>
        FailSoft(alpha, beta, value, ChildValue(playerNumber, numPlayers, Node(board, playerPositions, dSolve, agent, actionType), action))
      decreases dSolve, 1
    {
      ghost var s := Node(board, playerPositions, dSolve, agent, actionType);
      value := PosInf;
      values := [];
      var hi := beta;
      var i := 0;
      while i < |actions|
        invariant i == |values| <= |actions|
        invariant hi == VMin(beta, value)
        invariant MinRun(playerNumber, numPlayers, s, actions, alpha, beta, value, values)
        invariant Lt(alpha, beta) ==> Lt(alpha, value)
        decreases |actions| - i
      {
        assert Lt(alpha, beta) ==> Lt(alpha, hi);
        var v := SearchChild(board, numPlayers, playerPositions, alpha, hi, dSolve, agent, actionType,
                             nextAgent, nextAction, actions[i], shuffle, path);
        MinRunAdvance(playerNumber, numPlayers, s, actions, alpha, beta, value, values, v);
        value := VMin(value, v);
        values := values + [value];
        i := i + 1;
        if Le(value, alpha) {
          break;
        }
        hi := VMin(hi, value);
      }
      MinRunDone(playerNumber, numPlayers, s, actions, alpha, beta, value, values);
      action := actions[IndexOf(values, value)];
    }

    /**
     * The loop of a maximizing node over the shuffled actions: the running
     * maximum, a cut once it is at or above beta, alpha raised otherwise, and
     * the first action at which the running maximum reached the final value.
     */
    method MaximizingPly(board: Board, numPlayers: nat, playerPositions: seq<Position>, alpha: Value, beta: Value,
                         dSolve: nat, agent: nat, actionType: Kind, nextAgent: nat, nextAction: Kind,
                         actions: seq<Action>, shuffle: Shuffler, path: seq<Action>)
      returns (value: Value, action: Action, values: seq<Value>)
      requires Fits(numPlayers, Node(board, playerPositions, dSolve, agent, actionType))
      requires playerNumber < numPlayers && IsShuffle(shuffle)
      requires dSolve > 0 && agent == playerNumber
      requires (nextAgent, nextAction) == NextTurn(numPlayers, agent, actionType)
      requires actions != []
      requires forall x :: x in actions ==> x in ActionSpace(board, playerPositions[agent], actionType)
      ensures action in actions
      ensures FirstReaching(actions, values, agent == playerNumber, value, action)
      ensures Lt(alpha, beta) ==> EarlierWorse(playerNumber, numPlayers, Node(board, playerPositions, dSolve, agent, actionType),
                                               actions, IndexOf(values, value), value)
      ensures Lt(alpha, beta) ==>
        FailSoft(alpha, beta, value, BestOf(playerNumber, numPlayers, Node(board, playerPositions, dSolve, agent, actionType), actions))
      ensures Lt(alpha, beta) ==>
        FailSoft(alpha, beta, value, ChildValue(playerNumber, numPlayers, Node(board, playerPositions, dSolve, agent, actionType), action))
      decreases dSolve, 1
    {
      ghost var s := Node(board, playerPositions, dSolve, agent, actionType);
      value := NegInf;
      values := [];
      var lo := alpha;
      var i := 0;
      while i < |actions|
        invariant i == |values| <= |actions|
        invariant lo == VMax(alpha, value)
        invariant MaxRun(playerNumber, numPlayers, s, actions, alpha, beta, value, values)
        invariant Lt(alpha, beta) ==> Lt(value, beta)
        decreases |actions| - i
      {
        assert Lt(alpha, beta) ==> Lt(lo, beta);
        var v := SearchChild(board, numPlayers, playerPositions, lo, beta, dSolve, agent, actionType,
                             nextAgent, nextAction, actions[i], shuffle, path);
        MaxRunAdvance(playerNumber, numPlayers, s, actions, alpha, beta, value, values, v);
        value := VMax(value, v);
        values := values + [value];
        i := i + 1;
        if Le(beta, value) {
          break;
        }
        lo := VMax(lo, value);
      }
      MaxRunDone(playerNumber, numPlayers, s, actions, alpha, beta, value, values);
      action := actions[IndexOf(values, value)];
    }

    /**
     * One pass of a ply's loop: the transition by action a and the search of
     * the resulting node, one ply shallower, in the window (alpha, beta).
     */
    method SearchChild(board: Board, numPlayers: nat, playerPositions: seq<Position>, alpha: Value, beta: Value,
                       dSolve: nat, agent: nat, actionType: Kind, nextAgent: nat, nextAction: Kind,
                       a: Action, shuffle: Shuffler, path: seq<Action>)
      returns (v: Value)
      requires Fits(numPlayers, Node(board, playerPositions, dSolve, agent, actionType))
      requires playerNumber < numPlayers && IsShuffle(shuffle) && dSolve > 0
      requires (nextAgent, nextAction) == NextTurn(numPlayers, agent, actionType)
      requires a in ActionSpace(board, playerPositions[agent], actionType)
      ensures Lt(alpha, beta) ==>
        FailSoft(alpha, beta, v, ChildValue(playerNumber, numPlayers, Node(board, playerPositions, dSolve, agent, actionType), a))
      decreases dSolve, 0
    {
      ghost var s := Node(board, playerPositions, dSolve, agent, actionType);
      ActionSpaceTargetInBounds(board, playerPositions[agent], actionType, a);
      var newBoard, newPositions := Transition(board, playerPositions, a, agent);
      assert Child(numPlayers, s, a) == Node(newBoard, newPositions, dSolve - 1, nextAgent, nextAction);
      var childAction;
      v, childAction := AlphaBeta(newBoard, numPlayers, newPositions, alpha, beta, dSolve - 1, nextAgent, nextAction,
                                  shuffle, path + [a]);
    }

    /**
     * Chooses the action for the player to act: alpha-beta from (turn, turnType)
     * at depth d with the full window on the given snapshot. The action, when
     * there is one, is legal and optimal (its minimax value is the root's); pi
     * becomes its one-hot vector over all actions of the kind.
     */
    method GetAction(board: Board, playerPositions: seq<Position>, numPlayers: nat, turn: nat, turnType: Kind,
                     shuffle: Shuffler)
      returns (action: Option<Action>)
      requires Fits(numPlayers, Node(board, playerPositions, d, turn, turnType))
      requires playerNumber < numPlayers && IsShuffle(shuffle)
      modifies this
      ensures action.Some? <==> Expands(numPlayers, Node(board, playerPositions, d, turn, turnType))
      ensures action.Some? ==>
        && action.value in ActionSpace(board, playerPositions[turn], turnType)
        && ChildValue(playerNumber, numPlayers, Node(board, playerPositions, d, turn, turnType), action.value)
           == MinimaxValue(playerNumber, numPlayers, Node(board, playerPositions, d, turn, turnType))
      ensures action.Some? ==>
        FirstToReach(playerNumber, numPlayers, Node(board, playerPositions, d, turn, turnType),
                     shuffle([], ActionSpace(board, playerPositions[turn], turnType)),
                     MinimaxValue(playerNumber, numPlayers, Node(board, playerPositions, d, turn, turnType)), action.value)
      ensures pi == Some(OneHot(GetAllActions(turnType), action))
    {
      var v: Value;
      v, action := AlphaBeta(board, numPlayers, playerPositions, alpha, beta, d, turn, turnType, shuffle, []);
      ghost var root := Node(board, playerPositions, d, turn, turnType);
      FullWindowExact(v, MinimaxValue(playerNumber, numPlayers, root));
      if action.Some? {
        FullWindowExact(v, ChildValue(playerNumber, numPlayers, root, action.value));
      }
      var allActions := GetAllActions(turnType);
      pi := Some(OneHot(allActions, action));
    }
  }
}
