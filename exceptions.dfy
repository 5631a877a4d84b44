/** Outcomes of a call that either returns a value or raises a Python exception, and
    optional arguments. */
module Exceptions {

  /** The exceptions the modelled code raises on its own error paths. */
  datatype Exception =
    | AssertionError      // a failed `assert` statement
    | RecursionError      // unbounded recursion (Python's recursion limit is hit)
    | IndexError          // indexing an empty list
    | KeyError            // looking up a node, or an attribute, that is not there
    | Unfeasible          // networkx refusing a graph (no source node for a topological order)
    | PointlessConcept    // networkx refusing to decide connectivity of the graph without nodes
    | NetworkXError       // networkx refusing to list the neighbours of a node not in the graph

  datatype Result<+T> = Ok(value: T) | Raise(exc: Exception) {
    predicate IsFailure() { Raise? }

    function PropagateFailure<U>(): Result<U>
      requires Raise?
    {
      Raise(exc)
    }

    function Extract(): T
      requires Ok?
    {
      value
    }
  }

  /** An optional argument: `None` stands for Python's None (and for the other falsy
      values the code treats like it). */
  datatype Option<+T> = None | Some(value: T)
}
