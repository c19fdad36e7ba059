/** The rollout: from a node's state, play random legal actions until the match
    is over and report its result. The random number generator is replaced by a
    supply of draws; the draw `d` picks the move at index `d % |moves|`, so every
    legal move can be picked. One draw is spent per step, so the supply also
    bounds the number of steps. */
module Rollout {
  import opened Game
  import opened Outcomes

  /** The rollout as a recursive definition. */
  function Playout<S, A>(rules: Rules<S, A>, s: S, draws: seq<nat>): (r: Result<int>)
    ensures r.Err? ==> r.error == NoLegalMoves || r.error == OutOfDraws
    ensures |draws| == 0 ==> (r.Ok? <==> rules.isGameOver(s))
    decreases |draws|
  {
    if rules.isGameOver(s) then Ok(rules.gameResult(s))
    else
      var moves := rules.legalActions(s);
      if |moves| == 0 then Err(NoLegalMoves)
      else if |draws| == 0 then Err(OutOfDraws)
      else Playout(rules, rules.doAction(s, moves[draws[0] % |moves|]), draws[1..])
  }

  /** The actions a playout takes. */
  function PlayoutPath<S, A>(rules: Rules<S, A>, s: S, draws: seq<nat>): seq<A>
    decreases |draws|
  {
    if rules.isGameOver(s) then []
    else
      var moves := rules.legalActions(s);
      if |moves| == 0 || |draws| == 0 then []
      else
        var a := moves[draws[0] % |moves|];
        [a] + PlayoutPath(rules, rules.doAction(s, a), draws[1..])
  }

  /** Every step of a playout plays a legal action from a state that is not
      over, at most one step per draw; a result is the `game_result` of the
      finished state reached, and each error names the situation it stops in. */
  lemma {:induction false} PlayoutOutcome<S, A>(rules: Rules<S, A>, s: S, draws: seq<nat>)
    ensures var path := PlayoutPath(rules, s, draws);
      var last := After(rules, s, path);
      && LegalRun(rules, s, path)
      && |path| <= |draws|
      && match Playout(rules, s, draws)
         case Ok(r) => rules.isGameOver(last) && r == rules.gameResult(last)
         case Err(e) =>
           && !rules.isGameOver(last)
           && (e == NoLegalMoves ==> rules.legalActions(last) == [])
           && (e == OutOfDraws ==> |rules.legalActions(last)| > 0 && |path| == |draws|)
           && (e == NoLegalMoves || e == OutOfDraws)
    decreases |draws|
  {
    if !rules.isGameOver(s) {
      var moves := rules.legalActions(s);
      if |moves| > 0 && |draws| > 0 {
        var a := moves[draws[0] % |moves|];
        var s' := rules.doAction(s, a);
        PlayoutOutcome(rules, s', draws[1..]);
        var path := PlayoutPath(rules, s, draws);
        assert path[0] == a && path[1..] == PlayoutPath(rules, s', draws[1..]);
      }
    }
  }

  /** `rollout`: the loop of the node code, which agrees with the definition. */
  method RolloutLoop<S, A>(rules: Rules<S, A>, s: S, draws: seq<nat>) returns (res: Result<int>)
    ensures res == Playout(rules, s, draws)
  {
    var current := s;
    var k := 0;
    while !rules.isGameOver(current)
      invariant 0 <= k <= |draws|
      invariant Playout(rules, current, draws[k..]) == Playout(rules, s, draws)
      decreases |draws| - k
    {
      var moves := rules.legalActions(current);
      if |moves| == 0 {
        return Err(NoLegalMoves);
      }
      if k == |draws| {
        return Err(OutOfDraws);
      }
      assert draws[k..][1..] == draws[k + 1..];
      current := rules.doAction(current, moves[draws[k] % |moves|]);
      k := k + 1;
    }
    res := Ok(rules.gameResult(current));
  }
}
