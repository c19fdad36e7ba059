/** The ways an operation of the search tree can fail, and a result type that carries them. */
module Outcomes {

  /** Each error mirrors an exception the node code lets escape. */
  datatype Error =
    | PopFromEmpty        // `list.pop()` on an exhausted untried-action list (IndexError)
    | EmptyArgMax         // `argmax` over a node without children (ValueError)
    | DivisionByZero      // a child with zero visits in the selection weight (ZeroDivisionError)
    | NoLegalMoves        // a random pick among zero legal moves during a rollout (ValueError)
    | OutOfDraws          // the rollout used up its supply of random draws before the game ended

  datatype Result<+T> = Ok(value: T) | Err(error: Error)
}
