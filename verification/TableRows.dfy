/** Which data belong to which row of the table, over whole runs, and what each operation does to each place. */
module TableRows {
  import opened Wrappers
  import opened TableModel

  /** The rows that an operation hands to a table of `n` rows. */
  function Passed(op: Op, n: nat): seq<Row> {
    match op
    case Decorate(newRows, _) => newRows
    case Reload(load) => NonNull(load)
    case AppendRow(added) => if added.Some? then [added.value] else []
    case UpdateRow(at, changed) => if 0 <= at < n then [changed] else []
    case DeleteRow(_) => []
    case Click(_) => []
  }

  /** All the rows that a run has handed over, in order. */
  function History(ops: seq<Op>): seq<Row> {
    if ops == [] then []
    else History(ops[..|ops| - 1]) + Passed(ops[|ops| - 1], |Run(ops[..|ops| - 1]).rows|)
  }

  /** The id of a row is its number among all the rows handed over. */
  predicate Paired(s: State, given: seq<Row>) {
    && s.nextId == |given| && |s.rowIds| <= |s.rows|
    && forall i :: 0 <= i < |s.rowIds| ==> s.rowIds[i] < |given| && s.rows[i] == given[s.rowIds[i]]
  }

  lemma {:induction false} BuildPairs(s: State, k: nat, given: seq<Row>)
    requires k <= |s.rows| && |s.rowIds| == k && Paired(s, given)
    ensures Paired(BuildFrom(s, k), given + s.rows[k..])
    decreases |s.rows| - k
  {
    if k < |s.rows| {
      var t := s.(rowIds := SpliceIn(s.rowIds, k, s.nextId), body := s.body + [s.nextId], nextId := s.nextId + 1);
      BuildPairs(t, k + 1, given + [s.rows[k]]);
      assert given + [s.rows[k]] + s.rows[k + 1..] == given + s.rows[k..];
    } else {
      assert given + s.rows[k..] == given;
    }
  }

  lemma AppendPairs(s: State, added: Option<Row>, given: seq<Row>)
    requires Aligned(s) && Paired(s, given)
    ensures Paired(Step(s, AppendRow(added)), given + if added.Some? then [added.value] else [])
  {
    assert given + [] == given;
  }

  lemma DeletePairs(s: State, at: int, given: seq<Row>)
    requires Aligned(s) && Paired(s, given)
    ensures Paired(Step(s, DeleteRow(at)), given + [])
  {
    assert given + [] == given;
  }

  lemma UpdatePairs(s: State, at: int, changed: Row, given: seq<Row>)
    requires Aligned(s) && Paired(s, given)
    ensures Paired(Step(s, UpdateRow(at, changed)), given + if 0 <= at < |s.rows| then [changed] else [])
  {
    assert given + [] == given;
    if 0 <= at < |s.rows| { IdsOfUpdate(s, at, changed); }
  }

  /** Taking out one place and putting something in at the same place. */
  lemma OutAndIn<T>(a: seq<T>, at: nat, x: T)
    requires at < |a|
    ensures SpliceIn(SpliceOut(a, at), at, x) == a[at := x]
  {
  }

  lemma OutAndInRow<T>(a: seq<T>, at: nat, x: T)
    requires at < |a|
    ensures InsertRow(SpliceOut(a, at), at, x) == a[at := x]
  {
    InsertRowAround(SpliceOut(a, at), at, x);
  }

  lemma IdsOfUpdate(s: State, at: nat, changed: Row)
    requires Aligned(s) && at < |s.rows|
    ensures var t := Step(s, UpdateRow(at, changed));
            t.rows == s.rows[at := changed] && t.rowIds == s.rowIds[at := s.nextId] && t.body == s.body[at := s.nextId]
  {
    OutAndIn(s.rowIds, at, s.nextId);
    OutAndInRow(s.body, at, s.nextId);
  }

  lemma StepPairs(s: State, op: Op, given: seq<Row>)
    requires Aligned(s) && Paired(s, given)
    ensures Paired(Step(s, op), given + Passed(op, |s.rows|))
  {
    StepAligns(s, op);
    match op
    case Decorate(newRows, mode) =>
      BuildPairs(State(newRows, [], [], s.selection.(mode := mode), s.nextId), 0, given);
      assert newRows[0..] == newRows;
    case Reload(load) =>
      BuildPairs(State(NonNull(load), [], [], DeselectAll(s.selection), s.nextId), 0, given);
      assert NonNull(load)[0..] == NonNull(load);
    case AppendRow(added) => AppendPairs(s, added, given);
    case DeleteRow(at) => DeletePairs(s, at, given);
    case UpdateRow(at, changed) => UpdatePairs(s, at, changed, given);
    case Click(position) => assert given + [] == given;
  }

  /** After any run every row of the table is the one that was handed over under its id. */
  lemma {:induction false} RowsAreThoseGiven(ops: seq<Op>)
    ensures Paired(Run(ops), History(ops))
  {
    if ops != [] {
      var front := ops[..|ops| - 1];
      RowsAreThoseGiven(front);
      RunAligns(front);
      StepPairs(Run(front), ops[|ops| - 1], History(front));
    }
  }

  /** A click resolves to the data that were handed over for the clicked body row. */
  lemma ClickFindsItsData(ops: seq<Op>, position: nat)
    requires position < |Run(ops).body|
    ensures var s := Run(ops);
            var row := IndexOfId(s.rowIds, s.body[position]);
            && row == position < |s.rows| && s.body[position] < |History(ops)|
            && s.rows[row] == History(ops)[s.body[position]]
  {
    ClickHitsItsRow(ops, position);
    RowsAreThoseGiven(ops);
    RunAligns(ops);
  }

  // ------------------------------------------------------------- place by place

  /** The row, its id and its body row at place `i` stand `shift` places further on after it. */
  predicate MovedBy(s: State, i: nat, t: State, shift: int) {
    && i < |s.rows| && i < |s.rowIds| && i < |s.body|
    && 0 <= i + shift < |t.rows| && i + shift < |t.rowIds| && i + shift < |t.body|
    && t.rows[i + shift] == s.rows[i] && t.rowIds[i + shift] == s.rowIds[i] && t.body[i + shift] == s.body[i]
  }

  /** A new row stands at this place. */
  predicate NewAt(t: State, j: nat, id: Id, row: Row) {
    j < |t.rows| && j < |t.rowIds| && j < |t.body| && t.rows[j] == row && t.rowIds[j] == id && t.body[j] == id
  }

  /** Deleting takes out one place; the later ones move up. */
  lemma DeleteMovesUp(s: State, at: int)
    requires Aligned(s)
    ensures var t := Step(s, DeleteRow(at));
            if 0 <= at < |s.rows| then
              && |t.rows| == |s.rows| - 1
              && (forall i :: 0 <= i < at ==> MovedBy(s, i, t, 0))
              && (forall i :: at < i < |s.rows| ==> MovedBy(s, i, t, -1))
            else t == s
  {
  }

  /** Updating puts a new row in one place. */
  lemma UpdateChangesOne(s: State, at: int, changed: Row)
    requires Aligned(s)
    ensures var t := Step(s, UpdateRow(at, changed));
            if 0 <= at < |s.rows| then
              && |t.rows| == |s.rows| && NewAt(t, at, s.nextId, changed)
              && (forall i :: 0 <= i < |s.rows| && i != at ==> MovedBy(s, i, t, 0))
            else t == s
  {
    if 0 <= at < |s.rows| { IdsOfUpdate(s, at, changed); }
  }

  /** Appending puts a new row behind all others. */
  lemma AppendAddsOne(s: State, added: Option<Row>)
    requires Aligned(s)
    ensures var t := Step(s, AppendRow(added));
            if added.Some? then
              && |t.rows| == |s.rows| + 1 && NewAt(t, |s.rows|, s.nextId, added.value)
              && (forall i :: 0 <= i < |s.rows| ==> MovedBy(s, i, t, 0))
            else t == s
  {
  }

  /** Decorating and reloading show the given rows, all of them new, and a click changes no row. */
  lemma ShowsGiven(s: State, op: Op)
    requires Aligned(s) && (op.Decorate? || op.Reload? || op.Click?)
    ensures var t := Step(s, op);
            match op
            case Decorate(newRows, _) =>
              |t.rows| == |newRows| && forall i :: 0 <= i < |newRows| ==> NewAt(t, i, s.nextId + i, newRows[i])
            case Reload(load) =>
              |t.rows| == |NonNull(load)| && forall i :: 0 <= i < |t.rows| ==> NewAt(t, i, s.nextId + i, NonNull(load)[i])
            case _ => t.rows == s.rows && t.rowIds == s.rowIds && t.body == s.body
  {
    match op
    case Decorate(newRows, mode) => BuildPlaces(State(newRows, [], [], s.selection.(mode := mode), s.nextId), 0);
    case Reload(load) => BuildPlaces(State(NonNull(load), [], [], DeselectAll(s.selection), s.nextId), 0);
    case _ =>
  }

  lemma {:induction false} BuildPlaces(s: State, k: nat)
    requires k <= |s.rows| && |s.rowIds| == k == |s.body| && k <= s.nextId
    requires forall i :: 0 <= i < k ==> NewAt(s, i, s.nextId - k + i, s.rows[i])
    ensures var t := BuildFrom(s, k);
            t.rows == s.rows && forall i :: 0 <= i < |s.rows| ==> NewAt(t, i, s.nextId - k + i, s.rows[i])
    decreases |s.rows| - k
  {
    if k < |s.rows| {
      BuildPlaces(s.(rowIds := SpliceIn(s.rowIds, k, s.nextId), body := s.body + [s.nextId], nextId := s.nextId + 1), k + 1);
    }
  }

  /** The rows that are not null stay in order. */
  lemma {:induction false} NonNullInOrder(a: seq<Option<Row>>, b: seq<Option<Row>>)
    ensures NonNull(a + b) == NonNull(a) + NonNull(b)
  {
    if a == [] {
      assert a + b == b;
    } else {
      var first := if a[0].Some? then [a[0].value] else [];
      assert (a + b)[1..] == a[1..] + b;
      NonNullInOrder(a[1..], b);
      assert first + (NonNull(a[1..]) + NonNull(b)) == first + NonNull(a[1..]) + NonNull(b);
    }
  }

  lemma NonNullOne(row: Option<Row>)
    ensures NonNull([row]) == if row.Some? then [row.value] else []
  {
    assert [row][1..] == [];
  }
}
