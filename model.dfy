/** Shared data of the planner: the activity record read from the activity
    table, and the small Option/Result wrappers used for error paths. */
module Model {

  datatype Option<+T> = None | Some(value: T)

  datatype Result<+T, +E> = Ok(value: T) | Err(error: E)

  /** One row of the activity table. Its index in the table is its label.
      - `predecessors` is the predecessor cell as text, 1-based labels
        separated by commas (an empty cell reads as "nan");
      - `progress` is the required-progress cell, already split on commas,
        one entry per token: `None` for a blank token, `Some(f)` for a
        token that reads as the fraction `f`. */
  datatype Activity = Activity(
    name: string,
    units: real,
    duration: int,
    predecessors: string,
    progress: seq<Option<real>>)

  /** An exception the source raises and lets propagate to its caller. */
  datatype Fault = IndexError
}
