# Monte Carlo Tree Search node — a Dafny model

This project models the search-tree node of the Truco backend's Monte Carlo
Tree Search agent (`MonteCarloTreeSearchNode` in `mcts.py`): the lazily cached
list of untried actions, expansion, the visit count `n` and signed tally `q`,
the "fully expanded" and "terminal" tests, the random rollout, backpropagation
up the parent chain, and the choice of the best child. The source declares an
abstract node class and then a concrete class of the same name that shadows
it; the model has one node type carrying the methods of both.

The tree is an immutable arena: a sequence of node records, node 0 the root,
every other node naming its parent by a smaller index and listing its
children by index in creation order. Every operation is a pure function (or a
method with a loop) from the old tree to the new one, so "nothing else
changes" is a statement about the rest of the sequence.

The game is abstract. `Game.Rules` is a record of the five queries the node
code makes of a state (`getLegalActions`, `doAction`, `isGameOver`,
`game_result`, `matchPlayer`); every lemma holds for every choice of them.

Modules, one per concern:

- `Outcomes` (outcomes.dfy): the errors the node code lets escape, and `Result`.
- `Game` (game.dfy): the rules record, running a list of actions, and what a legal run is.
- `SearchTree` (tree.dfy): the node record, construction, `n`, `q`, the untried-action cache, `is_fully_expanded`, `is_terminal_node`, and the shape invariant `Valid` of trees the operations build.
- `Expansion` (expand.dfy): `expand`.
- `Backpropagation` (backprop.dfy): `backpropagate`, recursive as written and as an upward loop.
- `Rollout` (rollout.dfy): `rollout` and `rollout_policy`.
- `Selection` (best_child.dfy): `best_child`.
- `Search` (search.dfy): facts about the operations applied to the same tree in turn.

Modelling decisions:

- `getLegalActions` must return an indexable list: `rollout_policy` indexes
  into it (mcts.py:55). So the untried actions are a `seq`, and `pop()`
  (mcts.py:83) removes the last one. A consequence
  the model proves (`SearchTree.Accounted`): the cached list is always a front
  part of the state's legal actions, and the k-th child holds the state reached
  by the k-th legal action counted from the back.
- The visit counter is a float in the source (`0.`, `+= 1.`); it only ever
  holds whole numbers, so it is a `nat` here.
- The result tally is a `defaultdict(int)`; here it is a `map<int, int>` read
  through `Tally`, which gives 0 for a key never written.
- The ambient `session.match_points` is the explicit parameter `points`.
- The exceptions the model keeps become `Outcomes.Error` values: `pop()` on
  an empty list, `argmax` of an empty list, division by a child's zero visit
  count, and a random pick among zero moves.
- The random generator of `rollout_policy` is a sequence of draws; draw `d`
  picks index `d % |moves|`. One draw is spent per step, so the length of the
  sequence is the rollout's fuel, and running out is the extra error `OutOfDraws`.
- The UCB1 weight of `best_child` is a parameter `score(q, n, parentN)`; the
  exploration constant `c_param` is part of that function.
- `backpropagate` recurses on the parent (mcts.py:106). The model follows
  that, and also proves an upward loop equal to the recursion.
- `Rules.legalActions` is a pure function, so popping from the cached list
  never changes what the state reports as legal. In the source the cache is
  the very list object `getLegalActions()` returned (mcts.py:69), and `pop()`
  (mcts.py:83) changes it in place. The model therefore assumes that the rules
  module hands out a fresh list on every call, one the state does not keep.

## Model

| member | source | states |
|---|---|---|
| SearchTree.NewNode | mcts.py:60-64 | a new node holds the given state and parent, has no children, zero visits, a zero tally for every outcome and no cached actions |
| SearchTree.NewNodeStatistics | mcts.py:72-80 | a new node reports `q == 0` and `n == 0` |
| SearchTree.Init | mcts.py:8-11 | the lone root a search starts from is a well-formed tree |
| SearchTree.Bump | mcts.py:104 | adding to one outcome's tally raises that outcome by the amount and leaves every other outcome's tally as it was; an unwritten outcome starts from 0 |
| SearchTree.Untried | mcts.py:66-70 | the first read stores and returns the state's legal actions; later reads return the stored list and leave the tree unchanged; no other node changes |
| SearchTree.UntriedCached | mcts.py:66-70 | reading the untried actions twice gives the same list and the same tree as reading once |
| SearchTree.UntriedValid | mcts.py:66-70 | filling the untried-action cache keeps the tree well formed: a node gets its cache only while it has no children, and then gets the whole legal-action list |
| SearchTree.N | mcts.py:78-80 | `n` is the node's visit count; in a tree kept by the node operations it is never below any child's `n` |
| SearchTree.Q | mcts.py:72-76 | `q` is the match player's tally minus the opponent's; unrecorded outcomes count as 0, so `q` is 0 when neither outcome was recorded or when the match player is 0 |
| SearchTree.IsTerminal | mcts.py:91-92 | a node is terminal exactly when a rollout from it succeeds without any random draw; then every rollout from it returns the state's own result |
| SearchTree.IsFullyExpanded | mcts.py:44-45 | reading the untried list fills the cache as `untried_actions` does; in a tree built by expansion, a node is fully expanded exactly when it has one child per legal action of its state |
| Expansion.Expand | mcts.py:82-89 | fails exactly when no untried action remains; otherwise removes exactly the last untried action, appends exactly one new node at the end as the last child of the expanding node, holding the successor state under that action, and changes no other node |
| Expansion.ExpandFailsIffFullyExpanded | mcts.py:83 | expansion fails exactly on a node that is fully expanded |
| Expansion.ExpandLegal | mcts.py:83-84 | the popped action is a legal action of the node's state, the first one counted from the back that has no child yet |
| Expansion.ExpandValid | mcts.py:82-89 | expansion keeps the tree well formed: parent links, children lists and the untried/children accounting |
| Backpropagation.BackpropagateEffect | mcts.py:102-106 | every node on the path from the start node to the root gets one more visit and `points` more on the result's tally; every node off that path is unchanged |
| Backpropagation.BackpropagateCounts | mcts.py:102-106 | per node: on the path the visit count rises by exactly 1, the result's tally by exactly `points`, every other tally is unchanged; state, parent, children and untried list never change |
| Backpropagation.Backpropagate | mcts.py:102-106 | `backpropagate`: the start node is recorded once (one more visit, `points` more on the result's tally), the root gets exactly one more visit, nodes created after the start node are unchanged, and no parent link changes |
| Backpropagation.BackpropagateQ | mcts.py:72-76 | at a node on the path `q` rises by `points` when the result is the state's match player, falls by `points` when it is the opponent, and is otherwise unchanged |
| Backpropagation.BackpropagateValid | mcts.py:102-106 | backpropagation keeps the tree well formed |
| Backpropagation.BackpropagateLoop | mcts.py:102-106 | an upward loop over parent links computes the same tree as the recursive definition |
| Rollout.Playout | mcts.py:94-100 | `rollout`: it fails only for want of legal moves or of draws; with no draws at all it succeeds exactly on a finished state |
| Rollout.PlayoutOutcome | mcts.py:94-100 | every step plays a legal action from a state that is not over, one step per draw at most; a returned value is the `game_result` of the finished state reached; an error stops on an unfinished state with no legal moves or with the draws used up |
| Rollout.RolloutLoop | mcts.py:94-100 | the loop of the node code returns what the recursive definition of the playout returns |
| Selection.WeighChildren | mcts.py:48-51 | the weights are built child by child; it fails with division by zero exactly when some child has no visits |
| Selection.FirstArgMax | mcts.py:52 | the chosen position holds the greatest weight and no earlier position does |
| Selection.FirstArgMaxUnique | mcts.py:52 | at most one position is the first maximum, so the tie-break is well defined |
| Selection.BestChild | mcts.py:47-52 | fails exactly when there are no children or some child has no visits; otherwise returns one of the node's children, the first listed one of greatest weight |
| Search.TerminalStable | mcts.py:91-92 | whether a node is terminal never changes under expansion or backpropagation; a new child is terminal exactly when the popped action ends the match |
| Search.BackpropagateCover | mcts.py:102-106 | backpropagation keeps every node visited at least as often as its children together |
| Search.ExpandCover | mcts.py:82-89 | expansion keeps every node visited at least as often as its children together |
| Search.UntriedCover | mcts.py:66-70 | filling the untried-action cache keeps every node visited at least as often as its children together |
| Search.InitCover | mcts.py:60-64 | a fresh tree meets the visit accounting |

## Left out

- The UCB1 formula at mcts.py:49 (`np.sqrt`, `np.log` over floats) is the parameter `score`; NaN and infinity from `np.log(0)` are not modelled, and `score` is a total function into the reals.
- The random draw of `rollout_policy` at mcts.py:55 is a sequence of draws reduced modulo the number of moves; uniformity is not modelled.
- Rollout termination depends on game rules that are not part of this model; the rollout is bounded by its supply of draws instead, and a rollout that would run longer ends with `OutOfDraws`.
- Backpropagation.Backpropagate: the recursion-depth limit is not modelled. The source recurses once per ancestor (mcts.py:105-106), so a start node deeper than the interpreter's recursion limit raises `RecursionError`, and the nodes below the cut-off are already updated by then. The model succeeds at any depth, because the depth of the tree is bounded by the length of a match under game rules that are not part of this model.
- Expansion.Expand: when the pop fails the source has already filled the untried-action cache; the model returns only the error and drops that fill, which a later read repeats with the same result.
- Reading a missing key of the `defaultdict` in `q` inserts it with value 0; the model does not store it, which no reader can observe through `Tally`.
- The rules module is assumed to return a fresh list from `getLegalActions()` on every call. If it returned a list the state keeps, `pop()` at mcts.py:83 would also shrink that state's legal actions, which the pure `Rules.legalActions` cannot express.
- The float visit counter at mcts.py:62 and mcts.py:103 is a `nat`.
- The game rules (Truco states, cards, vira and manilha strength) live in modules that are not part of this model; states and actions are type parameters.
- `index.py` (the HTTP routes, the deck pool and the strategy dispatch) is not part of this model.
- The search loop that calls these node operations (selection by `best_child`, expansion, rollout, backpropagation, the final choice) lives in a file that is not part of this model.
