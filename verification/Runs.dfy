/** The end of a run of actions: the state reached, or none when an action was not enabled in its turn. */
module Runs {

  datatype Outcome<+S> = Stuck | Reached(state: S)
}
