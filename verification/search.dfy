/** Facts about the node operations taken together, as a search applies them
    one after another to the same tree. */
module Search {
  import opened Game
  import opened SearchTree
  import opened Expansion
  import opened Backpropagation

  /** A node's state never changes after creation, so whether it is terminal is
      the same before and after an expansion or a backpropagation anywhere in
      the tree; a new child is terminal exactly when the popped action ends the match. */
  lemma TerminalStable<S, A>(rules: Rules<S, A>, t: Tree<S, A>, i: nat, x: nat, result: int, points: int)
    requires Rooted(t) && i < |t| && x < |t|
    ensures IsTerminal(rules, Backpropagate(t, i, result, points), x) == IsTerminal(rules, t, x)
    ensures Expand(rules, t, i).Ok? ==>
      var (t', c) := Expand(rules, t, i).value;
      var u := Untried(rules, t, i).1;
      && IsTerminal(rules, t', x) == IsTerminal(rules, t, x)
      && (IsTerminal(rules, t', c) <==> rules.isGameOver(rules.doAction(t[i].state, u[|u| - 1])))
  {
    BackpropagateCounts(t, i, result, points, x);
  }

  // ---------------------------------------------------------------------------
  // Visit accounting: every visit of a child is also a visit of its parent

  lemma {:induction false} ChildVisitsAppend<S, A>(t: Tree<S, A>, cs: seq<nat>, c: nat)
    requires forall k :: 0 <= k < |cs| ==> cs[k] < |t|
    requires c < |t|
    ensures ChildVisits(t, cs + [c]) == ChildVisits(t, cs) + t[c].visits
    decreases |cs|
  {
    if |cs| > 0 {
      assert (cs + [c])[1..] == cs[1..] + [c];
      ChildVisitsAppend(t, cs[1..], c);
    }
  }

  lemma {:induction false} ChildVisitsFrame<S, A>(t: Tree<S, A>, t': Tree<S, A>, cs: seq<nat>)
    requires forall k :: 0 <= k < |cs| ==> cs[k] < |t| && cs[k] < |t'| && t'[cs[k]].visits == t[cs[k]].visits
    ensures ChildVisits(t', cs) == ChildVisits(t, cs)
    decreases |cs|
  {
    if |cs| > 0 {
      ChildVisitsFrame(t, t', cs[1..]);
    }
  }

  /** A child on the path from `i` has its parent on that path too. */
  lemma {:induction false} OnPathParent<S, A>(t: Tree<S, A>, i: nat, c: nat)
    requires Rooted(t) && i < |t| && 0 < c < |t|
    ensures OnPath(t, i, c) ==> OnPath(t, i, t[c].parent.value)
    decreases i
  {
    if c != i && t[i].parent != None {
      OnPathParent(t, t[i].parent.value, c);
    } else if c == i {
      assert OnPath(t, t[i].parent.value, t[c].parent.value);
    }
  }

  /** The path from `i` passes through at most one child of any node. */
  lemma {:induction false} OnPathOneChild<S, A>(t: Tree<S, A>, i: nat, c: nat, d: nat)
    requires Rooted(t) && i < |t| && 0 < c < |t| && 0 < d < |t|
    ensures OnPath(t, i, c) && OnPath(t, i, d) && t[c].parent == t[d].parent ==> c == d
    decreases i
  {
    if c != i && d != i && t[i].parent != None {
      OnPathOneChild(t, t[i].parent.value, c, d);
    } else if c == i && d != i && t[i].parent != None && OnPath(t, t[i].parent.value, d) {
      OnPathBelow(t, t[i].parent.value, d);
    } else if d == i && c != i && t[i].parent != None && OnPath(t, t[i].parent.value, c) {
      OnPathBelow(t, t[i].parent.value, c);
    }
  }

  /** After backpropagating from `i`, the children of `x` gained one visit in
      total if the path runs through one of them, and none otherwise. */
  lemma {:induction false} ChildVisitsAfterBackpropagate<S, A>(t: Tree<S, A>, i: nat, result: int, points: int, x: nat, cs: seq<nat>)
    requires Rooted(t) && i < |t| && x < |t|
    requires forall k :: 0 <= k < |cs| ==> 0 < cs[k] < |t| && t[cs[k]].parent == Some(x)
    requires forall k, l :: 0 <= k < l < |cs| ==> cs[k] < cs[l]
    ensures var t' := Backpropagate(t, i, result, points);
      ChildVisits(t', cs) == ChildVisits(t, cs) + (if exists k :: 0 <= k < |cs| && OnPath(t, i, cs[k]) then 1 else 0)
    decreases |cs|
  {
    var t' := Backpropagate(t, i, result, points);
    if |cs| > 0 {
      ChildVisitsAfterBackpropagate(t, i, result, points, x, cs[1..]);
      BackpropagateCounts(t, i, result, points, cs[0]);
      if OnPath(t, i, cs[0]) {
        forall k | 0 <= k < |cs[1..]|
          ensures !OnPath(t, i, cs[1..][k])
        {
          assert cs[1..][k] == cs[k + 1] && cs[0] < cs[k + 1];
          OnPathOneChild(t, i, cs[0], cs[1..][k]);
        }
      }
      assert (exists k :: 0 <= k < |cs| && OnPath(t, i, cs[k]))
        <==> OnPath(t, i, cs[0]) || exists k :: 0 <= k < |cs[1..]| && OnPath(t, i, cs[1..][k]);
    }
  }

  /** Backpropagation keeps every node's visits at least its children's:
      a node gains a visit whenever one of its children does. */
  lemma BackpropagateCover<S, A>(rules: Rules<S, A>, t: Tree<S, A>, i: nat, result: int, points: int)
    requires Valid(rules, t) && VisitsCover(t) && i < |t|
    ensures var t' := Backpropagate(t, i, result, points);
      Valid(rules, t') && VisitsCover(t')
  {
    var t' := Backpropagate(t, i, result, points);
    BackpropagateValid(rules, t, i, result, points);
    forall x | 0 <= x < |t'|
      ensures ChildVisits(t', t'[x].children) <= t'[x].visits
    {
      BackpropagateCounts(t, i, result, points, x);
      var cs := t[x].children;
      forall k | 0 <= k < |cs|
        ensures 0 < cs[k] < |t| && t[cs[k]].parent == Some(x)
      {
        ChildIsNotParent(t, x, k);
      }
      ChildVisitsAfterBackpropagate(t, i, result, points, x, cs);
      if !OnPath(t, i, x) {
        forall k | 0 <= k < |cs|
          ensures !OnPath(t, i, cs[k])
        {
          OnPathParent(t, i, cs[k]);
        }
      }
    }
  }

  /** Expansion keeps every node's visits at least its children's: the new
      child has not been visited. */
  lemma ExpandCover<S, A>(rules: Rules<S, A>, t: Tree<S, A>, i: nat)
    requires Valid(rules, t) && VisitsCover(t) && i < |t|
    requires Expand(rules, t, i).Ok?
    ensures var t' := Expand(rules, t, i).value.0;
      Valid(rules, t') && VisitsCover(t')
  {
    var (t', c) := Expand(rules, t, i).value;
    ExpandValid(rules, t, i);
    forall x | 0 <= x < |t'|
      ensures ChildVisits(t', t'[x].children) <= t'[x].visits
    {
      if x < |t| {
        var cs := t[x].children;
        forall k | 0 <= k < |cs|
          ensures cs[k] < |t| && t'[cs[k]].visits == t[cs[k]].visits
        {
          ChildIsNotParent(t, x, k);
        }
        ChildVisitsFrame(t, t', cs);
        if x == i {
          ChildVisitsAppend(t', cs, c);
        }
      }
    }
  }

  /** A fresh search tree meets the visit accounting. */
  lemma InitCover<S, A>(rules: Rules<S, A>, root: S)
    ensures var t := Init(rules, root); Valid(rules, t) && VisitsCover(t)
  {
  }

  /** Filling the untried-action cache changes no visit count, so the visit
      accounting is kept. */
  lemma UntriedCover<S, A>(rules: Rules<S, A>, t: Tree<S, A>, i: nat)
    requires Valid(rules, t) && VisitsCover(t) && i < |t|
    ensures var t' := Untried(rules, t, i).0;
      Valid(rules, t') && VisitsCover(t')
  {
    var t' := Untried(rules, t, i).0;
    UntriedValid(rules, t, i);
    forall x | 0 <= x < |t'|
      ensures ChildVisits(t', t'[x].children) <= t'[x].visits
    {
      var cs := t[x].children;
      forall k | 0 <= k < |cs|
        ensures cs[k] < |t| && t'[cs[k]].visits == t[cs[k]].visits
      {
        ChildIsNotParent(t, x, k);
      }
      ChildVisitsFrame(t, t', cs);
    }
  }
}
