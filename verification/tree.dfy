/** The search tree as an immutable arena: a sequence of node records in which
    node 0 is the root and every other node names its parent by an index smaller
    than its own. A node keeps its game state, its children's indices in creation
    order, its visit count, its result tally and its lazily filled list of
    untried actions. */
module SearchTree {
  import opened Game
  import Outcomes
  import Rollout

  /** `state` and `parent` never change after creation; the children list and
      the untried-action cache change by expansion (and the first read of the
      cache), the visit count and the tally by backpropagation. */
  datatype Node<S, A> = Node(
    state: S,
    parent: Option<nat>,
    children: seq<nat>,
    visits: nat,
    results: map<int, int>,
    untried: Option<seq<A>>)

  datatype Option<+T> = None | Some(value: T)

  type Tree<S, A> = seq<Node<S, A>>

  /** The tally for outcome `key`; an outcome never recorded counts as 0. */
  function Tally(results: map<int, int>, key: int): int {
    if key in results then results[key] else 0
  }

  /** `results` with `amount` added to the tally of `key`. */
  function Bump(results: map<int, int>, key: int, amount: int): (r: map<int, int>)
    ensures Tally(r, key) == Tally(results, key) + amount
    ensures forall k :: k != key ==> Tally(r, k) == Tally(results, k)
  {
    results[key := Tally(results, key) + amount]
  }

  /** A node as its constructor leaves it. */
  function NewNode<S, A>(state: S, parent: Option<nat>): (n: Node<S, A>)
    ensures n.state == state && n.parent == parent
    ensures n.visits == 0 && n.children == [] && n.untried == None
    ensures forall k :: Tally(n.results, k) == 0
  {
    Node(state, parent, [], 0, map[], None)
  }

  /** The visit count `n`. In a tree kept by the node operations it is never
      below the visit count of any of the node's children. */
  function N<S, A>(t: Tree<S, A>, i: nat): (r: nat)
    requires i < |t|
    ensures Rooted(t) && ChildrenLinked(t) && VisitsCover(t) ==>
      forall k :: 0 <= k < |t[i].children| ==> t[t[i].children[k]].visits <= r
  {
    ChildVisitsBound(t, t[i].children);
    t[i].visits
  }

  /** The signed tally `q`: wins of the state's match player minus wins of its
      opponent. Outcomes never recorded count as 0, so a node with neither
      outcome recorded, or whose match player is 0 (its own opponent), has `q == 0`. */
  function Q<S, A>(rules: Rules<S, A>, t: Tree<S, A>, i: nat): (r: int)
    requires i < |t|
    ensures var mp := rules.matchPlayer(t[i].state);
      && (mp !in t[i].results && -mp !in t[i].results ==> r == 0)
      && (mp == 0 ==> r == 0)
  {
    var mp := rules.matchPlayer(t[i].state);
    Tally(t[i].results, mp) - Tally(t[i].results, -1 * mp)
  }

  /** Whether the node's state ends the match: exactly when a rollout from it
      succeeds without any random draw, and then every rollout from it returns
      the state's own result. */
  function IsTerminal<S, A>(rules: Rules<S, A>, t: Tree<S, A>, i: nat): (r: bool)
    requires i < |t|
    ensures r <==> Rollout.Playout(rules, t[i].state, []).Ok?
    ensures r ==> forall draws :: Rollout.Playout(rules, t[i].state, draws) == Outcomes.Ok(rules.gameResult(t[i].state))
  {
    rules.isGameOver(t[i].state)
  }

  /** Reading `untried_actions`: the first read stores the state's legal actions
      in the node, every later read returns what is stored. The tree is returned
      because the first read changes it. */
  function Untried<S, A>(rules: Rules<S, A>, t: Tree<S, A>, i: nat): (r: (Tree<S, A>, seq<A>))
    requires i < |t|
    ensures |r.0| == |t|
    ensures r.0[i] == t[i].(untried := Some(r.1))
    ensures forall j :: 0 <= j < |t| && j != i ==> r.0[j] == t[j]
    ensures t[i].untried == None ==> r.1 == rules.legalActions(t[i].state)
    ensures t[i].untried != None ==> r.0 == t && r.1 == t[i].untried.value
  {
    match t[i].untried
    case Some(u) => (t, u)
    case None =>
      var u := rules.legalActions(t[i].state);
      (t[i := t[i].(untried := Some(u))], u)
  }

  /** `is_fully_expanded`: no untried action remains. Reading the list may fill
      the cache, as `Untried` does. In a tree built by expansion, a node is fully
      expanded exactly when it has one child per legal action of its state. */
  function IsFullyExpanded<S, A>(rules: Rules<S, A>, t: Tree<S, A>, i: nat): (r: (Tree<S, A>, bool))
    requires i < |t|
    ensures r.0 == Untried(rules, t, i).0
    ensures Valid(rules, t) ==> (r.1 <==> |t[i].children| == |rules.legalActions(t[i].state)|)
  {
    var (t', u) := Untried(rules, t, i);
    assert Valid(rules, t) ==> AccountedAt(rules, t, i);
    (t', |u| == 0)
  }

  // ---------------------------------------------------------------------------
  // Shape of a tree that the node operations build

  /** Node 0 is the root; every other node has a parent with a smaller index. */
  ghost predicate Rooted<S, A>(t: Tree<S, A>) {
    && |t| > 0
    && t[0].parent == None
    && forall j :: 0 < j < |t| ==> t[j].parent != None && t[j].parent.value < j
  }

  /** Every child points back to the node that lists it, children are listed in
      increasing index order, and every non-root node is listed by its parent. */
  ghost predicate ChildrenLinked<S, A>(t: Tree<S, A>)
    requires Rooted(t)
  {
    && (forall i, k :: 0 <= i < |t| && 0 <= k < |t[i].children| ==>
          t[i].children[k] < |t| && t[t[i].children[k]].parent == Some(i))
    && (forall i, k, l :: 0 <= i < |t| && 0 <= k < l < |t[i].children| ==>
          t[i].children[k] < t[i].children[l])
    && (forall j :: 0 < j < |t| ==> j in t[t[j].parent.value].children)
  }

  /** Every expansion moved one action from the untried list into one child:
      a node with no cached list has no children; otherwise the cached list is
      the front of the state's legal actions, and the k-th child holds the state
      reached by the k-th legal action counted from the back. */
  ghost predicate Accounted<S, A>(rules: Rules<S, A>, t: Tree<S, A>)
    requires Rooted(t) && ChildrenLinked(t)
  {
    forall i :: 0 <= i < |t| ==> AccountedAt(rules, t, i)
  }

  ghost predicate AccountedAt<S, A>(rules: Rules<S, A>, t: Tree<S, A>, i: nat)
    requires Rooted(t) && ChildrenLinked(t) && i < |t|
  {
    var legal := rules.legalActions(t[i].state);
    var cs := t[i].children;
    match t[i].untried
    case None => cs == []
    case Some(u) =>
      && |u| + |cs| == |legal|
      && u == legal[..|u|]
      && forall k :: 0 <= k < |cs| ==> t[cs[k]].state == rules.doAction(t[i].state, legal[|legal| - 1 - k])
  }

  ghost predicate Valid<S, A>(rules: Rules<S, A>, t: Tree<S, A>) {
    Rooted(t) && ChildrenLinked(t) && Accounted(rules, t)
  }

  /** The tree a search starts from: a lone root. */
  function Init<S, A>(rules: Rules<S, A>, root: S): (t: Tree<S, A>)
    ensures Valid(rules, t)
    ensures |t| == 1 && t[0] == NewNode(root, None)
  {
    [NewNode(root, None)]
  }

  /** The total visit count of the nodes listed in `cs`. */
  ghost function ChildVisits<S, A>(t: Tree<S, A>, cs: seq<nat>): nat
    requires forall k :: 0 <= k < |cs| ==> cs[k] < |t|
    decreases |cs|
  {
    if |cs| == 0 then 0 else t[cs[0]].visits + ChildVisits(t, cs[1..])
  }

  /** No node has been visited less often than its children together. */
  ghost predicate VisitsCover<S, A>(t: Tree<S, A>)
    requires Rooted(t) && ChildrenLinked(t)
  {
    forall x :: 0 <= x < |t| ==> ChildVisits(t, t[x].children) <= t[x].visits
  }

  /** Each listed node's visits are part of the total. */
  lemma {:induction false} ChildVisitsBound<S, A>(t: Tree<S, A>, cs: seq<nat>)
    ensures (forall k :: 0 <= k < |cs| ==> cs[k] < |t|) ==>
      forall k :: 0 <= k < |cs| ==> t[cs[k]].visits <= ChildVisits(t, cs)
    decreases |cs|
  {
    if |cs| > 0 {
      ChildVisitsBound(t, cs[1..]);
      if forall k :: 0 <= k < |cs| ==> cs[k] < |t| {
        forall k | 0 < k < |cs|
          ensures t[cs[k]].visits <= ChildVisits(t, cs)
        {
          assert cs[k] == cs[1..][k - 1];
        }
      }
    }
  }

  /** `j` is `i` itself or one of its ancestors. */
  ghost predicate OnPath<S, A>(t: Tree<S, A>, i: nat, j: nat)
    requires Rooted(t) && i < |t|
    decreases i
  {
    j == i || (t[i].parent != None && OnPath(t, t[i].parent.value, j))
  }

  // ---------------------------------------------------------------------------
  // Properties of the accessors

  /** The cache is filled once: a second read returns the same list and leaves the tree as the first read did. */
  lemma UntriedCached<S, A>(rules: Rules<S, A>, t: Tree<S, A>, i: nat)
    requires i < |t|
    ensures var (t1, u1) := Untried(rules, t, i); Untried(rules, t1, i) == (t1, u1)
  {
  }

  /** A fresh node has tallied nothing: its `q` and `n` are both 0. */
  lemma NewNodeStatistics<S, A>(rules: Rules<S, A>, state: S, parent: Option<nat>)
    ensures var t: Tree<S, A> := [NewNode(state, parent)]; Q(rules, t, 0) == 0 && N(t, 0) == 0
  {
  }

  /** Ancestors have smaller indices. */
  lemma {:induction false} OnPathBelow<S, A>(t: Tree<S, A>, i: nat, j: nat)
    requires Rooted(t) && i < |t| && OnPath(t, i, j)
    ensures j <= i
    decreases i
  {
    if j != i {
      OnPathBelow(t, t[i].parent.value, j);
    }
  }

  /** The root is an ancestor of every node. */
  lemma {:induction false} RootOnPath<S, A>(t: Tree<S, A>, i: nat)
    requires Rooted(t) && i < |t|
    ensures OnPath(t, i, 0)
    decreases i
  {
    if i != 0 {
      RootOnPath(t, t[i].parent.value);
    }
  }

  /** Which nodes lie on the path from `i` depends only on the parent links. */
  lemma {:induction false} OnPathParentsOnly<S, A>(t: Tree<S, A>, t': Tree<S, A>, i: nat, j: nat)
    requires Rooted(t) && i < |t| && |t'| == |t|
    requires forall k :: 0 <= k < |t| ==> t'[k].parent == t[k].parent
    ensures Rooted(t') && (OnPath(t', i, j) <==> OnPath(t, i, j))
    decreases i
  {
    if i != j && t[i].parent != None {
      OnPathParentsOnly(t, t', t[i].parent.value, j);
    }
  }

  /** Validity depends only on states, links and untried lists, never on visits or tallies. */
  lemma ShapeOnlyValid<S, A>(rules: Rules<S, A>, t: Tree<S, A>, t': Tree<S, A>)
    requires Valid(rules, t) && |t'| == |t|
    requires forall j :: 0 <= j < |t| ==>
      t'[j].state == t[j].state && t'[j].parent == t[j].parent
      && t'[j].children == t[j].children && t'[j].untried == t[j].untried
    ensures Valid(rules, t')
  {
    assert Rooted(t');
    assert ChildrenLinked(t');
    forall x | 0 <= x < |t'|
      ensures AccountedAt(rules, t', x)
    {
      ShapeOnlyAccountedAt(rules, t, t', x);
    }
  }

  lemma ShapeOnlyAccountedAt<S, A>(rules: Rules<S, A>, t: Tree<S, A>, t': Tree<S, A>, x: nat)
    requires Valid(rules, t) && |t'| == |t| && x < |t|
    requires forall j :: 0 <= j < |t| ==>
      t'[j].state == t[j].state && t'[j].parent == t[j].parent
      && t'[j].children == t[j].children && t'[j].untried == t[j].untried
    requires Rooted(t') && ChildrenLinked(t')
    ensures AccountedAt(rules, t', x)
  {
    assert AccountedAt(rules, t, x);
    var cs := t[x].children;
    forall k | 0 <= k < |cs|
      ensures t'[cs[k]].state == t[cs[k]].state
    {
      assert cs[k] < |t|;
    }
  }

  /** Filling the untried-action cache keeps every shape invariant of the tree:
      the cache is filled only while the node has no children, and then with
      the whole list of legal actions. */
  lemma UntriedValid<S, A>(rules: Rules<S, A>, t: Tree<S, A>, i: nat)
    requires Valid(rules, t) && i < |t|
    ensures Valid(rules, Untried(rules, t, i).0)
  {
    var t' := Untried(rules, t, i).0;
    assert Rooted(t');
    assert ChildrenLinked(t');
    forall x | 0 <= x < |t'|
      ensures AccountedAt(rules, t', x)
    {
      UntriedAccountedAt(rules, t, i, t', x);
    }
  }

  lemma UntriedAccountedAt<S, A>(rules: Rules<S, A>, t: Tree<S, A>, i: nat, t': Tree<S, A>, x: nat)
    requires Valid(rules, t) && i < |t| && x < |t|
    requires t' == Untried(rules, t, i).0
    requires Rooted(t') && ChildrenLinked(t')
    ensures AccountedAt(rules, t', x)
  {
    assert AccountedAt(rules, t, x);
    var cs := t[x].children;
    forall k | 0 <= k < |cs|
      ensures t'[cs[k]].state == t[cs[k]].state
    {
      assert cs[k] < |t|;
    }
    if x == i && t[i].untried == None {
      // the whole list is its own front part
      var legal := rules.legalActions(t[i].state);
      assert cs == [] && legal == legal[..|legal|];
    }
  }
}
