/** Backpropagation: after a rollout, every node from the expanded one up to
    the root gains one visit and `points` on the tally of the rollout's result. */
module Backpropagation {
  import opened Game
  import opened SearchTree

  /** One node's share of a backpropagation. */
  function Record<S, A>(n: Node<S, A>, result: int, points: int): Node<S, A> {
    n.(visits := n.visits + 1, results := Bump(n.results, result, points))
  }

  /** `backpropagate(result)` called on node `i`, following parent links up to the root. */
  function Backpropagate<S, A>(t: Tree<S, A>, i: nat, result: int, points: int): (t': Tree<S, A>)
    requires Rooted(t) && i < |t|
    ensures |t'| == |t|
    ensures forall j :: 0 <= j < |t| ==> t'[j].parent == t[j].parent
    ensures t'[i] == Record(t[i], result, points)
    ensures forall j :: i < j < |t| ==> t'[j] == t[j]
    ensures t'[0].visits == t[0].visits + 1
    decreases i
  {
    var t1 := t[i := Record(t[i], result, points)];
    match t[i].parent
    case None => t1
    case Some(p) => Backpropagate(t1, p, result, points)
  }

  /** The exact effect: nodes on the path from `i` to the root are recorded
      once each, every other node is unchanged. */
  lemma {:induction false} BackpropagateEffect<S, A>(t: Tree<S, A>, i: nat, result: int, points: int)
    requires Rooted(t) && i < |t|
    ensures var t' := Backpropagate(t, i, result, points);
      forall j :: 0 <= j < |t| ==>
        t'[j] == (if OnPath(t, i, j) then Record(t[j], result, points) else t[j])
    decreases i
  {
    var t' := Backpropagate(t, i, result, points);
    var t1 := t[i := Record(t[i], result, points)];
    match t[i].parent
    case None =>
      forall j | 0 <= j < |t|
        ensures t'[j] == (if OnPath(t, i, j) then Record(t[j], result, points) else t[j])
      {
        if j != i {
          assert !OnPath(t, i, j);
        }
      }
    case Some(p) =>
      BackpropagateEffect(t1, p, result, points);
      forall j | 0 <= j < |t|
        ensures t'[j] == (if OnPath(t, i, j) then Record(t[j], result, points) else t[j])
      {
        OnPathParentsOnly(t, t1, p, j);
        assert OnPath(t, i, j) <==> j == i || OnPath(t, p, j);
        if OnPath(t, p, j) {
          OnPathBelow(t, p, j);
        }
      }
  }

  /** The visit count of `i` and of each ancestor rises by exactly one, the
      tally of `result` by exactly `points`, and no other tally, no other field
      and no node off the path changes. */
  lemma BackpropagateCounts<S, A>(t: Tree<S, A>, i: nat, result: int, points: int, j: nat)
    requires Rooted(t) && i < |t| && j < |t|
    ensures var t' := Backpropagate(t, i, result, points);
      && t'[j].state == t[j].state && t'[j].parent == t[j].parent
      && t'[j].children == t[j].children && t'[j].untried == t[j].untried
      && (OnPath(t, i, j) ==>
            && t'[j].visits == t[j].visits + 1
            && Tally(t'[j].results, result) == Tally(t[j].results, result) + points
            && forall k :: k != result ==> Tally(t'[j].results, k) == Tally(t[j].results, k))
      && (!OnPath(t, i, j) ==> t'[j] == t[j])
  {
    BackpropagateEffect(t, i, result, points);
  }

  /** How `q` moves at a node on the path: up by `points` when the result is the
      state's match player, down by `points` when it is the opponent. */
  lemma BackpropagateQ<S, A>(rules: Rules<S, A>, t: Tree<S, A>, i: nat, result: int, points: int, j: nat)
    requires Rooted(t) && i < |t| && j < |t| && OnPath(t, i, j)
    ensures var mp := rules.matchPlayer(t[j].state);
      Q(rules, Backpropagate(t, i, result, points), j)
        == Q(rules, t, j) + (if result == mp then points else 0) - (if result == -mp then points else 0)
  {
    BackpropagateEffect(t, i, result, points);
  }

  /** Backpropagation keeps every shape invariant of the tree. */
  lemma BackpropagateValid<S, A>(rules: Rules<S, A>, t: Tree<S, A>, i: nat, result: int, points: int)
    requires Valid(rules, t) && i < |t|
    ensures Valid(rules, Backpropagate(t, i, result, points))
  {
    var t' := Backpropagate(t, i, result, points);
    BackpropagateEffect(t, i, result, points);
    ShapeOnlyValid(rules, t, t');
  }

  /** The same update as an upward loop over parent links, without recursion. */
  method BackpropagateLoop<S, A>(t: Tree<S, A>, i: nat, result: int, points: int) returns (t': Tree<S, A>)
    requires Rooted(t) && i < |t|
    ensures t' == Backpropagate(t, i, result, points)
  {
    t' := t;
    var cur: nat := i;
    while true
      invariant Rooted(t') && cur < |t'|
      invariant Backpropagate(t', cur, result, points) == Backpropagate(t, i, result, points)
      decreases cur
    {
      var next := t'[cur].parent;
      t' := t'[cur := Record(t'[cur], result, points)];
      match next
      case None =>
        return;
      case Some(p) =>
        cur := p;
    }
  }
}
