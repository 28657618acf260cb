/** The Python exceptions the scripts can raise; any of them aborts the run. */
module Faults {
  import opened Wrappers

  datatype Fault =
    | IndexError              // a list index past the end of a row
    | KeyError(key: string)   // a lookup in a fixed table with an unknown key
    | ValueError              // strptime rejected its input
    | NameError(name: string) // an undefined name was evaluated
    | AssertionError          // an `assert` statement failed
    | StopIteration           // `next(reader)` on an empty file

  /** `row[i]`, which raises IndexError past the end. */
  function At<T>(row: seq<T>, i: nat): (r: Result<T, Fault>)
    ensures r.Success? <==> i < |row|
    ensures r.Success? ==> r.value == row[i]
    ensures r.Failure? ==> r.error == IndexError
  {
    if i < |row| then Success(row[i]) else Failure(IndexError)
  }

  /** `table[key]`, which raises KeyError for an unknown key. */
  function Lookup(table: map<string, string>, key: string): (r: Result<string, Fault>)
    ensures r.Success? <==> key in table
    ensures r.Success? ==> r.value == table[key]
    ensures r.Failure? ==> r.error == KeyError(key)
  {
    if key in table then Success(table[key]) else Failure(KeyError(key))
  }

  /** A parse that `strptime` rejects raises ValueError. */
  function Parsed<T>(o: Option<T>): (r: Result<T, Fault>)
    ensures r.Success? <==> o.Some?
    ensures r.Success? ==> r.value == o.value
    ensures r.Failure? ==> r.error == ValueError
  {
    if o.Some? then Success(o.value) else Failure(ValueError)
  }

  /** The slice `rows[1:]`: everything after the header row. */
  function Tail<T>(rows: seq<T>): (r: seq<T>)
    ensures |r| == if rows == [] then 0 else |rows| - 1
    ensures forall i :: 0 <= i < |r| ==> r[i] == rows[i + 1]
  {
    if rows == [] then [] else rows[1..]
  }
}
