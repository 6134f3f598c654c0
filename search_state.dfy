/**
 * A branch-and-bound search state: its cost matrix (held, in the program, in the
 * field named pathThusFar), its cost and its bound, and the state's copy constructor.
 */
module SearchState {

  /** The runtime errors the modelled code can raise. */
  datatype Exception = ArgumentOutOfRange(index: nat)

  /** Completion of a step that either finishes or raises. */
  datatype Outcome = Pass | Fail(error: Exception)

  /** A value, or the error that was raised instead of producing it. */
  datatype Result<T> = Success(value: T) | Failure(error: Exception)

  /**
   * A List<List<double>>: a growable list of rows. The outer list is an object
   * updated in place; each row is held as a value.
   */
  class Matrix {
    var rows: seq<seq<real>>

    /** A new, empty list of rows. */
    constructor ()
      ensures rows == []
    {
      rows := [];
    }

    /** Add on the outer list: appends one row. */
    method Add(row: seq<real>)
      modifies this
      ensures rows == old(rows) + [row]
    {
      rows := rows + [row];
    }

    /** rows[i].Add(x): appends one entry to row i. */
    method AddTo(i: nat, x: real)
      requires i < |rows|
      modifies this
      ensures rows == old(rows)[i := old(rows)[i] + [x]]
    {
      rows := rows[i := rows[i] + [x]];
    }

    /**
     * The copy loop of State's copy constructor, run with this list as the
     * destination: for each source row i it overwrites row i through the
     * indexer (which raises when i is not below the destination's Count) with a
     * new empty row, then appends the source row's entries to it one by one.
     * It fails exactly when the destination has fewer rows than the source,
     * at the first missing index, after the rows before it were copied.
     */
    method CopyRowsFrom(src: seq<seq<real>>) returns (outcome: Outcome)
      modifies this
      ensures outcome.Fail? <==> |old(rows)| < |src|
      ensures outcome.Pass? ==> rows == src + old(rows)[|src|..]
      ensures outcome.Fail? ==> outcome.error == ArgumentOutOfRange(|old(rows)|) && rows == src[..|old(rows)|]
    {
      var i := 0;
      while i < |src|
        invariant i <= |src| && i <= |rows|
        invariant |rows| == |old(rows)|
        invariant forall k :: 0 <= k < i ==> rows[k] == src[k]
        invariant forall k :: i <= k < |rows| ==> rows[k] == old(rows)[k]
      {
        if i >= |rows| {
          assert rows == src[..i];
          return Fail(ArgumentOutOfRange(i));
        }
        rows := rows[i := []];
        var j := 0;
        while j < |src[i]|
          invariant j <= |src[i]| && i < |rows| == |old(rows)|
          invariant rows[i] == src[i][..j]
          invariant forall k :: 0 <= k < i ==> rows[k] == src[k]
          invariant forall k :: i < k < |rows| ==> rows[k] == old(rows)[k]
        {
          assert src[i][..j + 1] == src[i][..j] + [src[i][j]];
          rows := rows[i := rows[i] + [src[i][j]]];
          j := j + 1;
        }
        assert src[i][..j] == src[i];
        i := i + 1;
      }
      assert rows == src + old(rows)[|src|..];
      return Pass;
    }
  }

  /** A node of the search: its cost matrix, its accumulated cost and its lower bound. */
  class State {
    var pathThusFar: Matrix
    var cost: int
    var bound: real

    /** A state with a new, empty matrix; cost and bound take their default value 0. */
    constructor ()
      ensures fresh(pathThusFar) && pathThusFar.rows == []
      ensures cost == 0 && bound == 0.0
    {
      pathThusFar := new Matrix();
      cost := 0;
      bound := 0.0;
    }

    /**
     * The copy constructor as the program writes it: it first runs the
     * parameterless constructor (so the new matrix is empty), copies cost and
     * bound, and then runs the row-copy loop into that empty matrix. The first
     * indexer write, at row 0, is out of range, so the copy succeeds only for a
     * state whose matrix has no rows.
     */
    static method CopyAsWritten(state: State) returns (r: Result<State>)
      ensures r.Failure? <==> |state.pathThusFar.rows| > 0
      ensures r.Failure? ==> r.error == ArgumentOutOfRange(0)
      ensures r.Success? ==> fresh(r.value) && fresh(r.value.pathThusFar)
      ensures r.Success? ==> r.value.cost == state.cost && r.value.bound == state.bound
      ensures r.Success? ==> r.value.pathThusFar.rows == state.pathThusFar.rows == []
    {
      var copy := new State();
      copy.cost := state.cost;
      copy.bound := state.bound;
      var outcome := copy.pathThusFar.CopyRowsFrom(state.pathThusFar.rows);
      if outcome.Fail? {
        return Failure(outcome.error);
      }
      return Success(copy);
    }

    /**
     * The copy constructor as evidently intended: the same cost and bound and a
     * deep copy of the matrix into a list of its own, built by appending rows.
     */
    constructor Copy(state: State)
      ensures fresh(pathThusFar)
      ensures cost == state.cost && bound == state.bound
      ensures pathThusFar.rows == state.pathThusFar.rows
    {
      var m := new Matrix();
      pathThusFar := m;
      cost := state.cost;
      bound := state.bound;
      new;
      var src := state.pathThusFar.rows;
      var i := 0;
      while i < |src|
        invariant i <= |src|
        invariant pathThusFar == m && cost == state.cost && bound == state.bound
        invariant m.rows == src[..i]
      {
        m.Add([]);
        var j := 0;
        while j < |src[i]|
          invariant j <= |src[i]|
          invariant pathThusFar == m && cost == state.cost && bound == state.bound
          invariant m.rows == src[..i] + [src[i][..j]]
        {
          assert src[i][..j + 1] == src[i][..j] + [src[i][j]];
          m.AddTo(i, src[i][j]);
          j := j + 1;
        }
        assert src[i][..j] == src[i];
        assert src[..i + 1] == src[..i] + [src[i]];
        i := i + 1;
      }
      assert src[..i] == src;
    }
  }

  /** A state whose matrix has a single one-entry row cannot be copied by the constructor as written. */
  method OneRowCopyFails() returns (r: Result<State>)
    ensures r == Failure(ArgumentOutOfRange(0))
  {
    var s := new State();
    s.pathThusFar.Add([0.0]);
    r := State.CopyAsWritten(s);
  }

  /** The intended copy of the same state succeeds and keeps its row. */
  method OneRowCopySucceeds() returns (rows: seq<seq<real>>)
    ensures rows == [[0.0]]
  {
    var s := new State();
    s.pathThusFar.Add([0.0]);
    var copy := new State.Copy(s);
    rows := copy.pathThusFar.rows;
  }
}
