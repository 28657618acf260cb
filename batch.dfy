/**
 * The shape every conversion loop in the scripts shares: walk the rows in
 * order, append what each row yields (nothing, one output row or event),
 * and let the first exception abort the run.
 */
module Batch {
  import opened Wrappers
  import opened Faults

  /** The outputs of `step` on `rows`, in order; the first failing row's fault otherwise. */
  function Collect<R, T>(rows: seq<R>, step: R -> Result<seq<T>, Fault>): Result<seq<T>, Fault>
    decreases |rows|
  {
    if rows == [] then Success([])
    else
      var init :- Collect(rows[..|rows| - 1], step);
      var last :- step(rows[|rows| - 1]);
      Success(init + last)
  }

  /** One more iteration of the loop appends that row's outputs. */
  lemma CollectNext<R, T>(rows: seq<R>, i: nat, step: R -> Result<seq<T>, Fault>, done: seq<T>, last: seq<T>)
    requires i < |rows|
    requires Collect(rows[..i], step) == Success(done) && step(rows[i]) == Success(last)
    ensures Collect(rows[..i + 1], step) == Success(done + last)
  {
    assert rows[..i + 1][..i] == rows[..i];
  }

  /** Once a row fails, the whole loop fails with that row's fault. */
  lemma CollectStops<R, T>(rows: seq<R>, i: nat, step: R -> Result<seq<T>, Fault>, e: Fault)
    requires i < |rows|
    requires Collect(rows[..i], step).Success? && step(rows[i]) == Failure(e)
    ensures Collect(rows, step) == Failure(e)
  {
    CollectStopsAt(rows, i, |rows|, step, e);
    assert rows[..|rows|] == rows;
  }

  lemma {:induction false} CollectStopsAt<R, T>(rows: seq<R>, i: nat, j: nat, step: R -> Result<seq<T>, Fault>, e: Fault)
    requires i < j <= |rows|
    requires Collect(rows[..i], step).Success? && step(rows[i]) == Failure(e)
    ensures Collect(rows[..j], step) == Failure(e)
    decreases j
  {
    assert rows[..j][..j - 1] == rows[..j - 1];
    if j > i + 1 {
      CollectStopsAt(rows, i, j - 1, step, e);
    }
  }

  /** The loop runs to completion exactly when no row fails. */
  lemma {:induction false} CollectSucceeds<R, T>(rows: seq<R>, step: R -> Result<seq<T>, Fault>)
    ensures Collect(rows, step).Success? <==> forall i :: 0 <= i < |rows| ==> step(rows[i]).Success?
    decreases |rows|
  {
    if rows != [] {
      var init := rows[..|rows| - 1];
      CollectSucceeds(init, step);
      assert forall i :: 0 <= i < |init| ==> init[i] == rows[i];
    }
  }

  /** When the loop fails, it fails with the fault of the first failing row. */
  lemma {:induction false} CollectFirstFault<R, T>(rows: seq<R>, step: R -> Result<seq<T>, Fault>)
    requires Collect(rows, step).Failure?
    ensures exists i :: 0 <= i < |rows| && step(rows[i]) == Failure(Collect(rows, step).error)
                        && forall j :: 0 <= j < i ==> step(rows[j]).Success?
    decreases |rows|
  {
    var init := rows[..|rows| - 1];
    assert forall i :: 0 <= i < |init| ==> init[i] == rows[i];
    if Collect(init, step).Failure? {
      CollectFirstFault(init, step);
    } else {
      CollectSucceeds(init, step);
    }
  }

  /** Every output comes from some row, and every output of every row is there. */
  lemma {:induction false} CollectMembers<R, T>(rows: seq<R>, step: R -> Result<seq<T>, Fault>)
    requires Collect(rows, step).Success?
    ensures forall i :: 0 <= i < |rows| ==> step(rows[i]).Success?
    ensures forall i, x :: 0 <= i < |rows| && x in step(rows[i]).value ==> x in Collect(rows, step).value
    ensures forall x :: x in Collect(rows, step).value ==> exists i :: 0 <= i < |rows| && x in step(rows[i]).value
    decreases |rows|
  {
    CollectSucceeds(rows, step);
    if rows != [] {
      var init := rows[..|rows| - 1];
      CollectMembers(init, step);
      assert forall i :: 0 <= i < |init| ==> init[i] == rows[i];
    }
  }

  /** Two loops over the same rows whose steps together yield exactly one output per row. */
  lemma {:induction false} CollectSplit<R, T, U>(rows: seq<R>, left: R -> Result<seq<T>, Fault>, right: R -> Result<seq<U>, Fault>)
    requires Collect(rows, left).Success? && Collect(rows, right).Success?
    requires forall i :: 0 <= i < |rows| && left(rows[i]).Success? && right(rows[i]).Success? ==>
               |left(rows[i]).value| + |right(rows[i]).value| == 1
    ensures |Collect(rows, left).value| + |Collect(rows, right).value| == |rows|
    decreases |rows|
  {
    if rows != [] {
      var init := rows[..|rows| - 1];
      assert forall i :: 0 <= i < |init| ==> init[i] == rows[i];
      CollectSplit(init, left, right);
    }
  }

  /** A loop whose every row yields exactly one output: the outputs line up with the rows. */
  lemma {:induction false} CollectEach<R, T>(rows: seq<R>, step: R -> Result<seq<T>, Fault>)
    requires Collect(rows, step).Success?
    requires forall i :: 0 <= i < |rows| && step(rows[i]).Success? ==> |step(rows[i]).value| == 1
    ensures |Collect(rows, step).value| == |rows|
    ensures forall i :: 0 <= i < |rows| ==>
              step(rows[i]).Success? && Collect(rows, step).value[i] == step(rows[i]).value[0]
    decreases |rows|
  {
    CollectSucceeds(rows, step);
    if rows != [] {
      var init := rows[..|rows| - 1];
      assert forall i :: 0 <= i < |init| ==> init[i] == rows[i];
      CollectEach(init, step);
    }
  }

  // ----- loops that keep some rows and read each kept row as one output -----

  /** The step of a loop that reads a row when `keep` holds and skips it otherwise. */
  function Select<R, T>(keep: R -> bool, read: R -> Result<T, Fault>): R -> Result<seq<T>, Fault>
  {
    row => if keep(row) then (var x :- read(row); Success([x])) else Success([])
  }

  /** What the selecting step yields for one row. */
  lemma SelectOf<R, T>(keep: R -> bool, read: R -> Result<T, Fault>, row: R)
    ensures !keep(row) ==> Select(keep, read)(row) == Success([])
    ensures keep(row) && read(row).Success? ==> Select(keep, read)(row) == Success([read(row).value])
    ensures keep(row) && read(row).Failure? ==> Select(keep, read)(row) == Failure(read(row).error)
  {
  }

  /** The rows for which `keep` holds, in order. */
  function Filter<R>(rows: seq<R>, keep: R -> bool): (r: seq<R>)
    ensures |r| <= |rows|
    ensures forall x :: x in r ==> x in rows && keep(x)
    decreases |rows|
  {
    if rows == [] then []
    else
      var last := rows[|rows| - 1];
      Filter(rows[..|rows| - 1], keep) + (if keep(last) then [last] else [])
  }

  /** A row is kept exactly when it is one of the rows and passes the test. */
  lemma {:induction false} FilterMembers<R>(rows: seq<R>, keep: R -> bool)
    ensures forall x :: x in Filter(rows, keep) <==> x in rows && keep(x)
    decreases |rows|
  {
    if rows != [] {
      var init := rows[..|rows| - 1];
      FilterMembers(init, keep);
      assert rows == init + [rows[|rows| - 1]];
    }
  }

  /** One more row of a filtering loop. */
  lemma FilterNext<R>(rows: seq<R>, i: nat, keep: R -> bool)
    requires i < |rows|
    ensures Filter(rows[..i + 1], keep) == Filter(rows[..i], keep) + (if keep(rows[i]) then [rows[i]] else [])
  {
    assert rows[..i + 1][..i] == rows[..i];
  }

  /** `f` applied to the rows for which `keep` holds, in order. */
  function MapKept<R, T>(rows: seq<R>, keep: R -> bool, f: R -> T): seq<T>
    decreases |rows|
  {
    if rows == [] then []
    else
      var last := rows[|rows| - 1];
      MapKept(rows[..|rows| - 1], keep, f) + (if keep(last) then [f(last)] else [])
  }

  /** The mapped rows are exactly the kept rows, one output each, in order. */
  lemma {:induction false} MapKeptFilter<R, T>(rows: seq<R>, keep: R -> bool, f: R -> T)
    ensures |MapKept(rows, keep, f)| == |Filter(rows, keep)|
    ensures forall k :: 0 <= k < |Filter(rows, keep)| ==> MapKept(rows, keep, f)[k] == f(Filter(rows, keep)[k])
    decreases |rows|
  {
    if rows != [] {
      var init := rows[..|rows| - 1];
      MapKeptFilter(init, keep, f);
    }
  }

  /**
   * A selecting loop succeeds exactly when every kept row reads, and then its
   * outputs are the readings of the kept rows, one each, in input order.
   */
  lemma {:induction false} CollectSelect<R, T>(rows: seq<R>, keep: R -> bool, read: R -> Result<T, Fault>)
    ensures Collect(rows, Select(keep, read)).Success? <==> forall x :: x in Filter(rows, keep) ==> read(x).Success?
    ensures Collect(rows, Select(keep, read)).Success? ==>
              var out := Collect(rows, Select(keep, read)).value;
              var kept := Filter(rows, keep);
              |out| == |kept| && forall k :: 0 <= k < |kept| ==> read(kept[k]) == Success(out[k])
    decreases |rows|
  {
    if rows != [] {
      var init, last := rows[..|rows| - 1], rows[|rows| - 1];
      CollectSelect(init, keep, read);
      var kept := Filter(rows, keep);
      assert kept == Filter(init, keep) + (if keep(last) then [last] else []);
      if Collect(init, Select(keep, read)).Success? && keep(last) && read(last).Success? {
        assert kept[|kept| - 1] == last;
        assert forall k :: 0 <= k < |kept| - 1 ==> kept[k] == Filter(init, keep)[k];
      }
    }
  }

  /**
   * A loop whose step yields one value for each row passing `keep` (the one `read`
   * gives) and nothing for the others yields exactly those values, in row order.
   */
  lemma {:induction false} CollectKept<R, T>(rows: seq<R>, step: R -> Result<seq<T>, Fault>, keep: R -> bool, read: R -> Result<T, Fault>)
    requires Collect(rows, step).Success?
    requires forall x :: x in rows && step(x).Success? ==>
               if keep(x) then read(x).Success? && step(x).value == [read(x).value] else step(x).value == []
    ensures var out, kept := Collect(rows, step).value, Filter(rows, keep);
            |out| == |kept| && forall k :: 0 <= k < |kept| ==> read(kept[k]) == Success(out[k])
    decreases |rows|
  {
    if rows != [] {
      var init, last := rows[..|rows| - 1], rows[|rows| - 1];
      assert forall x :: x in init ==> x in rows;
      CollectKept(init, step, keep, read);
      var done, kept := Collect(init, step).value, Filter(init, keep);
      assert Collect(rows, step).value == done + step(last).value;
      if keep(last) {
        assert Filter(rows, keep) == kept + [last];
      } else {
        assert Filter(rows, keep) == kept;
        assert done + step(last).value == done;
      }
    }
  }

  /** Values read one for one from `kept` are exactly the readings of its members. */
  lemma ReadMembers<R, T>(kept: seq<R>, out: seq<T>, read: R -> Result<T, Fault>)
    requires |out| == |kept| && forall k :: 0 <= k < |kept| ==> read(kept[k]) == Success(out[k])
    ensures forall y :: y in out ==> exists x :: x in kept && read(x) == Success(y)
    ensures forall x :: x in kept ==> read(x).Success? && read(x).value in out
  {
    forall y | y in out
      ensures exists x :: x in kept && read(x) == Success(y)
    {
      var k :| 0 <= k < |out| && out[k] == y;
      assert kept[k] in kept;
    }
  }
}
