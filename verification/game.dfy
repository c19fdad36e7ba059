/** The game as the search tree sees it: a state type `S`, an action type `A`,
    and the five queries the node code makes of a state. The rules engine itself
    is not part of this model, so the queries are taken as parameters. */
module Game {

  datatype Rules<!S, !A> = Rules(
    legalActions: S -> seq<A>,    // the state's legal actions, as a list
    doAction: (S, A) -> S,        // the successor state after an action
    isGameOver: S -> bool,        // whether the match is over
    gameResult: S -> int,         // the signed outcome of a finished match
    matchPlayer: S -> int)        // the player whose wins the tree counts

  /** The state reached from `s` by playing `path` in order. */
  function After<S, A>(rules: Rules<S, A>, s: S, path: seq<A>): S
    decreases |path|
  {
    if |path| == 0 then s else After(rules, rules.doAction(s, path[0]), path[1..])
  }

  /** `path` can be played from `s`: every action is legal where it is played,
      and no state before the last one is over. */
  ghost predicate LegalRun<S, A>(rules: Rules<S, A>, s: S, path: seq<A>)
    decreases |path|
  {
    |path| == 0 ||
      (&& !rules.isGameOver(s)
       && path[0] in rules.legalActions(s)
       && LegalRun(rules, rules.doAction(s, path[0]), path[1..]))
  }
}
