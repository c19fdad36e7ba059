/** Expansion: pop the last untried action of a node, apply it to the node's
    state, and append a child holding the successor state. */
module Expansion {
  import opened Game
  import opened Outcomes
  import opened SearchTree

  /** `expand` on node `i`: the new tree and the index of the new child, or
      `PopFromEmpty` when no untried action remains. */
  function Expand<S, A>(rules: Rules<S, A>, t: Tree<S, A>, i: nat): (r: Result<(Tree<S, A>, nat)>)
    requires i < |t|
    ensures var u := Untried(rules, t, i).1;
      && (r.Err? <==> |u| == 0)
      && (r.Err? ==> r.error == PopFromEmpty)
      && (r.Ok? ==>
            var (t', c) := r.value;
            var a := u[|u| - 1];
            // exactly one new node, at the end, a child of `i` built from the popped action
            && |t'| == |t| + 1 && c == |t|
            && t'[c] == NewNode(rules.doAction(t[i].state, a), Some(i))
            // the popped action leaves the untried list, the child joins the children list
            && t'[i].untried == Some(u[..|u| - 1])
            && t'[i].children == t[i].children + [c]
            // nothing else about `i` changes
            && t'[i].state == t[i].state && t'[i].parent == t[i].parent
            && t'[i].visits == t[i].visits && t'[i].results == t[i].results
            // every other node is untouched
            && forall j :: 0 <= j < |t| && j != i ==> t'[j] == t[j])
  {
    var (t1, u) := Untried(rules, t, i);
    if |u| == 0 then Err(PopFromEmpty)
    else
      var a := u[|u| - 1];
      var child := NewNode(rules.doAction(t[i].state, a), Some(i));
      var c := |t|;
      Ok((t1[i := t1[i].(untried := Some(u[..|u| - 1]), children := t1[i].children + [c])] + [child], c))
  }

  /** Expansion fails exactly on a fully expanded node. */
  lemma ExpandFailsIffFullyExpanded<S, A>(rules: Rules<S, A>, t: Tree<S, A>, i: nat)
    requires i < |t|
    ensures Expand(rules, t, i).Err? <==> IsFullyExpanded(rules, t, i).1
  {
  }

  /** In a tree built by expansion, the popped action is legal in the node's
      state: it is the first legal action, counted from the back, that no child
      was made from yet. */
  lemma ExpandLegal<S, A>(rules: Rules<S, A>, t: Tree<S, A>, i: nat)
    requires Valid(rules, t) && i < |t|
    requires Expand(rules, t, i).Ok?
    ensures var legal := rules.legalActions(t[i].state);
      var k := |t[i].children|;
      var u := Untried(rules, t, i).1;
      var (t', c) := Expand(rules, t, i).value;
      && k < |legal|
      && u[|u| - 1] == legal[|legal| - 1 - k]
      && u[|u| - 1] in legal
      && t'[c].state == rules.doAction(t[i].state, legal[|legal| - 1 - k])
  {
    assert AccountedAt(rules, t, i);
  }

  /** The structural effect of a successful expansion of `i` that appended
      child `c`, as the lemmas below consume it. */
  ghost predicate Appended<S, A>(t: Tree<S, A>, i: nat, t': Tree<S, A>, c: nat)
    requires i < |t|
  {
    && |t'| == |t| + 1 && c == |t|
    && t'[c].parent == Some(i) && t'[c].children == [] && t'[c].untried == None
    && t'[i].children == t[i].children + [c]
    && t'[i].state == t[i].state && t'[i].parent == t[i].parent
    && forall j :: 0 <= j < |t| && j != i ==> t'[j] == t[j]
  }

  lemma AppendedLinked<S, A>(t: Tree<S, A>, i: nat, t': Tree<S, A>, c: nat)
    requires Rooted(t) && ChildrenLinked(t) && i < |t| && Appended(t, i, t', c)
    ensures Rooted(t') && ChildrenLinked(t')
  {
    assert Rooted(t');
    forall x, k | 0 <= x < |t'| && 0 <= k < |t'[x].children|
      ensures t'[x].children[k] < |t'| && t'[t'[x].children[k]].parent == Some(x)
    {
      if x != i || k < |t[i].children| {
        assert t'[x].children[k] == t[x].children[k];
      }
    }
    forall x, k, l | 0 <= x < |t'| && 0 <= k < l < |t'[x].children|
      ensures t'[x].children[k] < t'[x].children[l]
    {
      if x == i && l == |t[i].children| {
        assert t'[x].children[k] == t[x].children[k];
      }
    }
    forall j | 0 < j < |t'|
      ensures j in t'[t'[j].parent.value].children
    {
      if j < |t| {
        var p := t[j].parent.value;
        assert j in t[p].children;
        assert t'[p].children == t[p].children || t'[p].children == t[p].children + [c];
      } else {
        assert t'[i].children[|t[i].children|] == c;
      }
    }
  }

  /** Expansion keeps every shape invariant of the tree. */
  lemma ExpandValid<S, A>(rules: Rules<S, A>, t: Tree<S, A>, i: nat)
    requires Valid(rules, t) && i < |t|
    requires Expand(rules, t, i).Ok?
    ensures Valid(rules, Expand(rules, t, i).value.0)
  {
    var (t', c) := Expand(rules, t, i).value;
    var u := Untried(rules, t, i).1;
    assert Appended(t, i, t', c);
    AppendedLinked(t, i, t', c);
    forall x | 0 <= x < |t'|
      ensures AccountedAt(rules, t', x)
    {
      if x == c {
      } else if x != i {
        AppendedKeepsAccounted(rules, t, i, t', c, x);
      } else {
        assert AccountedAt(rules, t, i);
        ExpandedAccounted(rules, t, i, t', c, u);
      }
    }
  }

  lemma AppendedKeepsAccounted<S, A>(rules: Rules<S, A>, t: Tree<S, A>, i: nat, t': Tree<S, A>, c: nat, x: nat)
    requires Rooted(t) && ChildrenLinked(t) && Accounted(rules, t) && i < |t| && Appended(t, i, t', c)
    requires Rooted(t') && ChildrenLinked(t')
    requires x < |t| && x != i
    ensures AccountedAt(rules, t', x)
  {
    assert AccountedAt(rules, t, x);
    var cs := t[x].children;
    forall k | 0 <= k < |cs|
      ensures t'[cs[k]].state == t[cs[k]].state
    {
      assert cs[k] < |t|;
    }
  }

  lemma ExpandedAccounted<S, A>(rules: Rules<S, A>, t: Tree<S, A>, i: nat, t': Tree<S, A>, c: nat, u: seq<A>)
    requires Rooted(t) && ChildrenLinked(t) && i < |t| && Appended(t, i, t', c)
    requires Rooted(t') && ChildrenLinked(t')
    requires var legal := rules.legalActions(t[i].state);
      && |u| > 0 && |u| + |t[i].children| == |legal| && u == legal[..|u|]
      && (forall k :: 0 <= k < |t[i].children| ==>
            t[t[i].children[k]].state == rules.doAction(t[i].state, legal[|legal| - 1 - k]))
    requires t'[i].untried == Some(u[..|u| - 1])
    requires t'[c].state == rules.doAction(t[i].state, u[|u| - 1])
    ensures AccountedAt(rules, t', i)
  {
    var legal := rules.legalActions(t[i].state);
    var cs := t[i].children;
    var cs' := t'[i].children;
    var u' := u[..|u| - 1];
    assert cs' == cs + [c];
    assert |u'| + |cs'| == |legal|;
    assert u' == legal[..|u'|];
    forall k | 0 <= k < |cs'|
      ensures t'[cs'[k]].state == rules.doAction(t[i].state, legal[|legal| - 1 - k])
    {
      if k < |cs| {
        assert cs'[k] == cs[k];
        ChildIsNotParent(t, i, k);
        assert t'[cs[k]] == t[cs[k]];
      } else {
        assert cs'[k] == c;
        assert legal[|legal| - 1 - k] == u[|u| - 1];
      }
    }
  }

  /** A node is never its own child. */
  lemma ChildIsNotParent<S, A>(t: Tree<S, A>, i: nat, k: nat)
    requires Rooted(t) && ChildrenLinked(t) && i < |t| && k < |t[i].children|
    ensures t[i].children[k] != i && t[i].children[k] < |t|
  {
    var x := t[i].children[k];
    assert t[x].parent == Some(i);
  }
}
