/** `best_child`: the child of a node with the greatest selection weight, the
    first one on ties. The weight itself (the UCB1 formula over floats) is a
    parameter `score(q, n, parentN)` of the child's `q`, the child's `n` and the
    node's own `n`. */
module Selection {
  import opened Game
  import opened Outcomes
  import opened SearchTree

  /** The selection weight of node `c` under a parent visited `parentN` times. */
  function Weight<S, A>(rules: Rules<S, A>, t: Tree<S, A>, c: nat, parentN: nat, score: (int, nat, nat) -> real): real
    requires c < |t|
  {
    score(Q(rules, t, c), N(t, c), parentN)
  }

  /** Position `k` of `ws` holds its maximum, and no earlier position does. */
  ghost predicate IsFirstArgMax(ws: seq<real>, k: nat) {
    && k < |ws|
    && (forall j :: 0 <= j < |ws| ==> ws[j] <= ws[k])
    && (forall j :: 0 <= j < k ==> ws[j] < ws[k])
  }

  /** The first maximising position is unique, so the choice is well defined. */
  lemma FirstArgMaxUnique(ws: seq<real>, k: nat, l: nat)
    requires IsFirstArgMax(ws, k) && IsFirstArgMax(ws, l)
    ensures k == l
  {
    assert ws[k] == ws[l];
  }

  /** The weights of the children of `i`, in the order they are listed. */
  ghost function ChildWeights<S, A>(rules: Rules<S, A>, t: Tree<S, A>, i: nat, score: (int, nat, nat) -> real): (ws: seq<real>)
    requires Rooted(t) && ChildrenLinked(t) && i < |t|
    ensures |ws| == |t[i].children|
  {
    seq(|t[i].children|, k requires 0 <= k < |t[i].children| => Weight(rules, t, t[i].children[k], t[i].visits, score))
  }

  /** `np.argmax`: the first position holding the maximum. */
  method FirstArgMax(ws: seq<real>) returns (best: nat)
    requires |ws| > 0
    ensures IsFirstArgMax(ws, best)
  {
    best := 0;
    for k := 1 to |ws|
      invariant best < k
      invariant forall j :: 0 <= j < k ==> ws[j] <= ws[best]
      invariant forall j :: 0 <= j < best ==> ws[j] < ws[best]
    {
      if ws[k] > ws[best] {
        best := k;
      }
    }
  }

  /** The list of weights the node code builds, which fails on the first child
      that was never visited. */
  method WeighChildren<S, A>(rules: Rules<S, A>, t: Tree<S, A>, i: nat, score: (int, nat, nat) -> real)
    returns (r: Result<seq<real>>)
    requires Rooted(t) && ChildrenLinked(t) && i < |t|
    ensures var cs := t[i].children;
      && (r.Err? <==> exists k :: 0 <= k < |cs| && t[cs[k]].visits == 0)
      && (r.Err? ==> r.error == DivisionByZero)
      && (r.Ok? ==> r.value == ChildWeights(rules, t, i, score))
  {
    var cs := t[i].children;
    var ws: seq<real> := [];
    for k := 0 to |cs|
      invariant forall j :: 0 <= j < k ==> t[cs[j]].visits > 0
      invariant ws == ChildWeights(rules, t, i, score)[..k]
    {
      if t[cs[k]].visits == 0 {
        return Err(DivisionByZero);
      }
      ws := ws + [Weight(rules, t, cs[k], t[i].visits, score)];
    }
    assert ws == ChildWeights(rules, t, i, score);
    return Ok(ws);
  }

  /** `best_child` of node `i`: an error when it has no children or a child was
      never visited, otherwise the first listed child of greatest weight. */
  method BestChild<S, A>(rules: Rules<S, A>, t: Tree<S, A>, i: nat, score: (int, nat, nat) -> real)
    returns (r: Result<nat>)
    requires Rooted(t) && ChildrenLinked(t) && i < |t|
    ensures var cs := t[i].children;
      && (r.Err? <==> cs == [] || exists k :: 0 <= k < |cs| && t[cs[k]].visits == 0)
      && (r.Err? ==> r.error == (if cs == [] then EmptyArgMax else DivisionByZero))
      && (r.Ok? ==> exists k :: 0 <= k < |cs| && cs[k] == r.value && IsFirstArgMax(ChildWeights(rules, t, i, score), k))
  {
    var cs := t[i].children;
    var weights := WeighChildren(rules, t, i, score);
    match weights
    case Err(e) =>
      return Err(e);
    case Ok(ws) =>
      if |ws| == 0 {
        return Err(EmptyArgMax);
      }
      var k := FirstArgMax(ws);
      r := Ok(cs[k]);
  }
}
