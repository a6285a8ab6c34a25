/** The table of gt_table.js on values: rows, row ids, table body and selection, as the methods of
    `GTable`, `TableBuilder` and `SelectionModel` change them. */
module TableModel {
  import opened Wrappers

  type Row = string
  type Id = nat

  // ------------------------------------------------------------------ selection

  datatype Mode = NoSelection | Single | Multi

  /** The selected indices, in the order in which they were selected. */
  datatype Selection = Selection(mode: Mode, indices: seq<int>)

  function Remove(indices: seq<int>, r: int): seq<int> {
    if indices == [] then []
    else (if indices[0] == r then [] else [indices[0]]) + Remove(indices[1..], r)
  }

  function DeselectRow(s: Selection, r: int): Selection {
    s.(indices := Remove(s.indices, r))
  }

  function DeselectAll(s: Selection): Selection {
    s.(indices := [])
  }

  function SetSelectedRow(s: Selection, r: int): Selection {
    match s.mode
    case Single => s.(indices := [r])
    case Multi => if r in s.indices then DeselectRow(s, r) else s.(indices := s.indices + [r])
    case NoSelection => s.(indices := [])
  }

  datatype SelOp = Toggle(row: int) | Deselect(row: int) | Clear

  function SelStep(s: Selection, op: SelOp): Selection {
    match op
    case Toggle(r) => SetSelectedRow(s, r)
    case Deselect(r) => DeselectRow(s, r)
    case Clear => DeselectAll(s)
  }

  function SelRun(s: Selection, ops: seq<SelOp>): Selection {
    if ops == [] then s else SelStep(SelRun(s, ops[..|ops| - 1]), ops[|ops| - 1])
  }

  /** Toggled an odd number of times since the last deselection that concerns it. */
  predicate Odd(ops: seq<SelOp>, r: int) {
    if ops == [] then false
    else
      var before := Odd(ops[..|ops| - 1], r);
      match ops[|ops| - 1]
      case Toggle(x) => if x == r then !before else before
      case Deselect(x) => if x == r then false else before
      case Clear => false
  }

  predicate NoRepeats(indices: seq<int>) {
    forall i, j :: 0 <= i < j < |indices| ==> indices[i] != indices[j]
  }

  lemma {:induction false} RemoveRemoves(indices: seq<int>, r: int)
    ensures forall x :: x in Remove(indices, r) <==> x in indices && x != r
    ensures NoRepeats(indices) ==> NoRepeats(Remove(indices, r))
  {
    if indices != [] {
      RemoveRemoves(indices[1..], r);
      var rest := Remove(indices[1..], r);
      if NoRepeats(indices) {
        assert NoRepeats(indices[1..]);
        assert indices[0] !in indices[1..];
      }
    }
  }

  lemma RunKeepsMode(s: Selection, ops: seq<SelOp>)
    ensures SelRun(s, ops).mode == s.mode
  {
  }

  /** In multi mode a row is selected exactly when it was toggled an odd number of times since it was
      last deselected, and no row is selected twice. */
  lemma {:induction false} MultiSelectionIsParity(ops: seq<SelOp>)
    ensures var s := SelRun(Selection(Multi, []), ops);
            && s.mode == Multi && NoRepeats(s.indices)
            && forall r :: r in s.indices <==> Odd(ops, r)
  {
    if ops != [] {
      var front, op := ops[..|ops| - 1], ops[|ops| - 1];
      MultiSelectionIsParity(front);
      var before := SelRun(Selection(Multi, []), front);
      if !op.Clear? {
        RemoveRemoves(before.indices, op.row);
      }
    }
  }

  /** The place of the last toggle of a row. */
  function LastToggle(ops: seq<SelOp>, r: int): (k: int)
    ensures -1 <= k < |ops|
  {
    if ops == [] then -1
    else if ops[|ops| - 1] == Toggle(r) then |ops| - 1
    else LastToggle(ops[..|ops| - 1], r)
  }

  predicate InOrder(indices: seq<int>, ops: seq<SelOp>) {
    forall i, j :: 0 <= i < j < |indices| ==> LastToggle(ops, indices[i]) < LastToggle(ops, indices[j])
  }

  lemma {:induction false} RemoveKeepsOrder(indices: seq<int>, r: int, ops: seq<SelOp>)
    requires InOrder(indices, ops)
    ensures InOrder(Remove(indices, r), ops)
  {
    if indices != [] {
      var rest := Remove(indices[1..], r);
      RemoveKeepsOrder(indices[1..], r, ops);
      RemoveRemoves(indices[1..], r);
      forall j | 0 <= j < |rest|
        ensures LastToggle(ops, indices[0]) < LastToggle(ops, rest[j])
      {
        assert rest[j] in rest;
        var k :| 0 <= k < |indices[1..]| && indices[1..][k] == rest[j];
        assert indices[k + 1] == rest[j];
      }
    }
  }

  lemma SameOrder(indices: seq<int>, ops: seq<SelOp>, op: SelOp)
    requires InOrder(indices, ops) && (op.Toggle? ==> op.row !in indices)
    ensures InOrder(indices, ops + [op])
  {
    assert (ops + [op])[..|ops|] == ops;
  }

  /** In multi mode the selected rows stand in the order in which they were last toggled. */
  lemma {:induction false} MultiSelectionIsInOrder(ops: seq<SelOp>)
    ensures InOrder(SelRun(Selection(Multi, []), ops).indices, ops)
  {
    if ops != [] {
      var front, op := ops[..|ops| - 1], ops[|ops| - 1];
      var before := SelRun(Selection(Multi, []), front).indices;
      var after := SelRun(Selection(Multi, []), ops).indices;
      MultiSelectionIsInOrder(front);
      MultiSelectionIsParity(front);
      assert ops == front + [op];
      if !op.Clear? {
        RemoveKeepsOrder(before, op.row, front);
        RemoveRemoves(before, op.row);
      }
      if op.Toggle? && op.row !in before {
        SameOrder(before, front, op);
      } else {
        SameOrder(after, front, op);
      }
    }
  }

  /** The row toggled last, unless it was deselected since. */
  function Latest(ops: seq<SelOp>): Option<int> {
    if ops == [] then None
    else
      var before := Latest(ops[..|ops| - 1]);
      match ops[|ops| - 1]
      case Toggle(r) => Some(r)
      case Deselect(r) => if before == Some(r) then None else before
      case Clear => None
  }

  /** In single mode exactly the latest row is selected. */
  lemma {:induction false} SingleSelectionIsLatest(ops: seq<SelOp>)
    ensures var latest := Latest(ops);
            SelRun(Selection(Single, []), ops) == Selection(Single, if latest.Some? then [latest.value] else [])
  {
    if ops != [] {
      var front, op := ops[..|ops| - 1], ops[|ops| - 1];
      SingleSelectionIsLatest(front);
      if op.Deselect? && Latest(front).Some? {
        RemoveFromOne([Latest(front).value], op.row);
      }
    }
  }

  /** Without a selection mode every attempt to select empties the selection. */
  lemma NothingIsSelected(indices: seq<int>, ops: seq<SelOp>, r: int)
    ensures SelRun(Selection(NoSelection, indices), ops + [Toggle(r)]).indices == []
  {
    assert (ops + [Toggle(r)])[..|ops|] == ops;
    RunKeepsMode(Selection(NoSelection, indices), ops);
  }

  // ---------------------------------------------------------------------- table

  /** `body` lists the ids of the rows of the table body; `nextId` is the id generator. */
  datatype State = State(rows: seq<Row>, rowIds: seq<Id>, body: seq<Id>, selection: Selection, nextId: Id)

  /** `a.splice(at, 0, x)` */
  function SpliceIn<T>(a: seq<T>, at: nat, x: T): seq<T> {
    if at < |a| then a[..at] + [x] + a[at..] else a + [x]
  }

  /** `a.splice(at, 1)`, and removing child `at` of the body. */
  function SpliceOut<T>(a: seq<T>, at: nat): seq<T> {
    if at < |a| then a[..at] + a[at + 1..] else a
  }

  /** Where `insertRowAt` puts a row: first, last, or behind row at - 1. */
  function InsertRow<T>(body: seq<T>, at: nat, x: T): seq<T> {
    if at == 0 then [x] + body
    else if at >= |body| then body + [x]
    else body[..at] + [x] + body[at..]
  }

  lemma InsertRowAround<T>(body: seq<T>, at: nat, x: T)
    ensures var k := if at < |body| then at else |body|;
            InsertRow(body, at, x) == body[..k] + [x] + body[k..]
  {
    if at == 0 {
      assert body[..0] == [] && body[0..] == body && [] + [x] == [x];
    } else if |body| <= at {
      assert body[..|body|] == body && body[|body|..] == [];
      assert body + [x] + [] == body + [x];
    }
  }

  /** `createRow` then a row at the end, for the rows from `k` on. */
  function BuildFrom(s: State, k: nat): State
    requires k <= |s.rows|
    decreases |s.rows| - k
  {
    if k == |s.rows| then s
    else BuildFrom(s.(rowIds := SpliceIn(s.rowIds, k, s.nextId),
                      body := s.body + [s.nextId],
                      nextId := s.nextId + 1), k + 1)
  }

  function InsertAt(s: State, at: nat): State {
    s.(rowIds := SpliceIn(s.rowIds, at, s.nextId),
       body := InsertRow(s.body, at, s.nextId),
       selection := SetSelectedRow(s.selection, at),
       nextId := s.nextId + 1)
  }

  function DeleteAt(s: State, at: nat): State {
    s.(rowIds := SpliceOut(s.rowIds, at), body := SpliceOut(s.body, at), selection := DeselectRow(s.selection, at))
  }

  function NonNull(rows: seq<Option<Row>>): seq<Row> {
    if rows == [] then [] else (if rows[0].Some? then [rows[0].value] else []) + NonNull(rows[1..])
  }

  function IndexOfId(ids: seq<Id>, id: Id): int {
    if ids == [] then -1
    else if ids[0] == id then 0
    else
      var k := IndexOfId(ids[1..], id);
      if k < 0 then -1 else k + 1
  }

  /** What a caller can do to a decorated table; rows that may be null are options. */
  datatype Op =
    | Decorate(newRows: seq<Row>, mode: Mode)
    | Reload(load: seq<Option<Row>>)
    | AppendRow(added: Option<Row>)
    | DeleteRow(at: int)
    | UpdateRow(at: int, changed: Row)
    | Click(position: nat)

  /** A call that throws leaves the table as it is. */
  function Step(s: State, op: Op): State {
    match op
    case Decorate(newRows, mode) =>
      BuildFrom(State(newRows, [], [], s.selection.(mode := mode), s.nextId), 0)
    case Reload(load) =>
      BuildFrom(State(NonNull(load), [], [], DeselectAll(s.selection), s.nextId), 0)
    case AppendRow(added) =>
      if added.None? then s else InsertAt(s.(rows := s.rows + [added.value]), |s.rows|)
    case DeleteRow(at) =>
      if 0 <= at < |s.rows| then DeleteAt(s.(rows := SpliceOut(s.rows, at)), at) else s
    case UpdateRow(at, changed) =>
      if 0 <= at < |s.rows| then InsertAt(DeleteAt(s.(rows := s.rows[at := changed]), at), at) else s
    case Click(position) =>
      if position < |s.body| && s.selection.mode != NoSelection
      then s.(selection := SetSelectedRow(s.selection, IndexOfId(s.rowIds, s.body[position])))
      else s
  }

  const UNDECORATED := State([], [], [], Selection(Single, []), 0)

  function Run(ops: seq<Op>): State {
    if ops == [] then UNDECORATED else Step(Run(ops[..|ops| - 1]), ops[|ops| - 1])
  }

  // ------------------------------------------------------------------ alignment

  predicate Fresh(ids: seq<Id>, next: Id) {
    && (forall i :: 0 <= i < |ids| ==> ids[i] < next)
    && (forall i, j :: 0 <= i < j < |ids| ==> ids[i] != ids[j])
  }

  /** Rows, ids and body are equally long, and the body shows the ids in order. */
  predicate Aligned(s: State) {
    |s.rows| == |s.rowIds| && s.body == s.rowIds && Fresh(s.rowIds, s.nextId)
  }

  lemma {:induction false} BuildAligns(s: State, k: nat)
    requires k <= |s.rows| && |s.rowIds| == k && s.body == s.rowIds && Fresh(s.rowIds, s.nextId)
    ensures Aligned(BuildFrom(s, k))
    ensures BuildFrom(s, k).rows == s.rows && BuildFrom(s, k).selection == s.selection
    decreases |s.rows| - k
  {
    if k < |s.rows| {
      BuildAligns(s.(rowIds := SpliceIn(s.rowIds, k, s.nextId),
                     body := s.body + [s.nextId],
                     nextId := s.nextId + 1), k + 1);
    }
  }

  lemma StepAligns(s: State, op: Op)
    requires Aligned(s)
    ensures Aligned(Step(s, op))
  {
    match op
    case Decorate(newRows, mode) =>
      BuildAligns(State(newRows, [], [], s.selection.(mode := mode), s.nextId), 0);
    case Reload(load) =>
      BuildAligns(State(NonNull(load), [], [], DeselectAll(s.selection), s.nextId), 0);
    case AppendRow(added) =>
    case DeleteRow(at) =>
    case UpdateRow(at, changed) =>
      if 0 <= at < |s.rows| { UpdateAligns(s, at, changed); }
    case Click(position) =>
  }

  lemma UpdateAligns(s: State, at: nat, changed: Row)
    requires Aligned(s) && at < |s.rows|
    ensures Aligned(Step(s, UpdateRow(at, changed)))
  {
  }

  lemma {:induction false} RunAligns(ops: seq<Op>)
    ensures Aligned(Run(ops))
  {
    if ops != [] {
      RunAligns(ops[..|ops| - 1]);
      StepAligns(Run(ops[..|ops| - 1]), ops[|ops| - 1]);
    }
  }

  lemma {:induction false} IndexOfDistinct(ids: seq<Id>, i: nat)
    requires i < |ids| && forall j, k :: 0 <= j < k < |ids| ==> ids[j] != ids[k]
    ensures IndexOfId(ids, ids[i]) == i
  {
    if 0 < i {
      IndexOfDistinct(ids[1..], i - 1);
    }
  }

  /** After any run, a click on the row at a position selects or toggles that very index. */
  lemma ClickHitsItsRow(ops: seq<Op>, position: nat)
    ensures var s := Run(ops);
            && |s.body| == |s.rows|
            && (position < |s.rows| ==> IndexOfId(s.rowIds, s.body[position]) == position)
  {
    RunAligns(ops);
    var s := Run(ops);
    if position < |s.rows| {
      IndexOfDistinct(s.rowIds, position);
    }
  }

  // ---------------------------------------------------- what a run selects

  /** The selection operations that a step performs, on a table that had `n` rows. */
  function SelOps(op: Op, n: nat): seq<SelOp> {
    match op
    case Decorate(_, _) => []
    case Reload(_) => [Clear]
    case AppendRow(added) => if added.None? then [] else [Toggle(n)]
    case DeleteRow(at) => if 0 <= at < n then [Deselect(at)] else []
    case UpdateRow(at, _) => if 0 <= at < n then [Deselect(at), Toggle(at)] else []
    case Click(position) => if position < n then [Toggle(position)] else []
  }

  function SelTrace(ops: seq<Op>): seq<SelOp> {
    if ops == [] then []
    else SelTrace(ops[..|ops| - 1]) + SelOps(ops[|ops| - 1], |Run(ops[..|ops| - 1]).rows|)
  }

  /** Every decoration of the run asks for this mode. */
  predicate KeepsMode(ops: seq<Op>, mode: Mode) {
    forall i :: 0 <= i < |ops| && ops[i].Decorate? ==> ops[i].mode == mode
  }

  lemma SelRunAppend(s: Selection, ops: seq<SelOp>, more: seq<SelOp>)
    requires |more| <= 2
    ensures SelRun(s, ops + more) == SelRun(SelRun(s, ops), more)
  {
    if |more| == 0 {
      assert ops + more == ops;
    } else if |more| == 1 {
      assert (ops + more)[..|ops + more| - 1] == ops && more[..0] == [];
    } else {
      assert (ops + more)[..|ops + more| - 1] == ops + more[..1];
      assert (ops + more[..1])[..|ops|] == ops && more[..1][..0] == [];
      assert more[..1] == [more[0]] && more[..|more| - 1] == more[..1];
    }
  }

  lemma StepSelects(s: State, op: Op)
    requires Aligned(s) && s.selection.mode != NoSelection
    requires op.Decorate? ==> op.mode == s.selection.mode
    ensures Step(s, op).selection == SelRun(s.selection, SelOps(op, |s.rows|))
  {
    match op
    case Decorate(newRows, mode) =>
      BuildAligns(State(newRows, [], [], s.selection.(mode := mode), s.nextId), 0);
    case Reload(load) =>
      BuildAligns(State(NonNull(load), [], [], DeselectAll(s.selection), s.nextId), 0);
      OneSelOp(s.selection, Clear);
    case AppendRow(added) =>
      OneSelOp(s.selection, Toggle(|s.rows|));
    case DeleteRow(at) =>
      OneSelOp(s.selection, Deselect(at));
    case UpdateRow(at, changed) =>
      TwoSelOps(s.selection, Deselect(at), Toggle(at));
    case Click(position) =>
      OneSelOp(s.selection, Toggle(position));
      if position < |s.rows| {
        IndexOfDistinct(s.rowIds, position);
      }
  }

  lemma OneSelOp(s: Selection, op: SelOp)
    ensures SelRun(s, [op]) == SelStep(s, op)
  {
    assert [op][..0] == [];
  }

  lemma TwoSelOps(s: Selection, a: SelOp, b: SelOp)
    ensures SelRun(s, [a, b]) == SelStep(SelStep(s, a), b)
  {
    assert [a, b][..1] == [a];
    OneSelOp(s, a);
  }

  /** In multi mode, whatever is done to a table, its selection is the parity of the toggles. */
  lemma {:induction false} MultiRunIsParity(rows: seq<Row>, ops: seq<Op>)
    requires KeepsMode(ops, Multi)
    ensures var s := Run([Decorate(rows, Multi)] + ops);
            && NoRepeats(s.selection.indices)
            && forall r :: r in s.selection.indices <==> Odd(SelTrace([Decorate(rows, Multi)] + ops), r)
  {
    RunIsSelRun(rows, Multi, ops);
    MultiSelectionIsParity(SelTrace([Decorate(rows, Multi)] + ops));
  }

  lemma DecoratedStart(rows: seq<Row>, mode: Mode)
    ensures Run([Decorate(rows, mode)]).selection == Selection(mode, [])
    ensures SelTrace([Decorate(rows, mode)]) == []
  {
    var all := [Decorate(rows, mode)];
    assert all[..0] == [];
    BuildAligns(State(rows, [], [], Selection(mode, []), 0), 0);
  }

  lemma LastStep(ops: seq<Op>, op: Op)
    requires op.Decorate? ==> op.mode == Run(ops).selection.mode
    requires Run(ops).selection.mode != NoSelection
    ensures Run(ops + [op]).selection == SelRun(Run(ops).selection, SelOps(op, |Run(ops).rows|))
    ensures SelTrace(ops + [op]) == SelTrace(ops) + SelOps(op, |Run(ops).rows|)
  {
    assert (ops + [op])[..|ops|] == ops;
    RunAligns(ops);
    StepSelects(Run(ops), op);
  }

  lemma {:induction false} RunIsSelRun(rows: seq<Row>, mode: Mode, ops: seq<Op>)
    requires KeepsMode(ops, mode) && mode != NoSelection
    ensures var all := [Decorate(rows, mode)] + ops;
            && Run(all).selection == SelRun(Selection(mode, []), SelTrace(all))
            && Run(all).selection.mode == mode
  {
    var first := Decorate(rows, mode);
    if ops == [] {
      assert [first] + ops == [first];
      DecoratedStart(rows, mode);
    } else {
      var earlier, op := ops[..|ops| - 1], ops[|ops| - 1];
      var front := [first] + earlier;
      assert [first] + ops == front + [op];
      RunIsSelRun(rows, mode, earlier);
      LastStep(front, op);
      SelRunAppend(Selection(mode, []), SelTrace(front), SelOps(op, |Run(front).rows|));
      RunKeepsMode(Selection(mode, []), SelTrace(front + [op]));
    }
  }

  // ------------------------------------------------------- the single selection

  /** At most one row is selected, and it exists. */
  predicate InRange(s: State) {
    s.selection.indices == [] || (|s.selection.indices| == 1 && 0 <= s.selection.indices[0] < |s.rows|)
  }

  /** What leaves the selected index behind: deleting another row while the last one is selected,
      or decorating with too few rows. */
  predicate LosesSelection(s: State, op: Op) {
    s.selection.indices != [] &&
    match op
    case DeleteRow(at) => 0 <= at < |s.rows| - 1 && s.selection.indices[0] == |s.rows| - 1
    case Decorate(newRows, _) => |newRows| <= s.selection.indices[0]
    case _ => false
  }

  /** In single mode a step keeps the selection in range exactly unless it loses it. */
  lemma SingleStepStaysInRange(s: State, op: Op)
    requires Aligned(s) && s.selection.mode == Single && InRange(s)
    requires op.Decorate? ==> op.mode == Single
    ensures InRange(Step(s, op)) <==> !LosesSelection(s, op)
    ensures Step(s, op).selection.mode == Single
  {
    StepSelects(s, op);
    StepRowCount(s, op);
    match op
    case Decorate(_, _) =>
    case Reload(_) => OneSelOp(s.selection, Clear);
    case AppendRow(_) => OneSelOp(s.selection, Toggle(|s.rows|));
    case DeleteRow(at) =>
      if s.selection.indices != [] {
        RemoveFromOne(s.selection.indices, at);
      }
    case UpdateRow(at, _) => TwoSelOps(s.selection, Deselect(at), Toggle(at));
    case Click(position) => OneSelOp(s.selection, Toggle(position));
  }

  lemma RemoveFromOne(indices: seq<int>, r: int)
    requires |indices| == 1
    ensures Remove(indices, r) == if indices[0] == r then [] else indices
  {
    assert indices[1..] == [] && indices == [indices[0]];
  }

  lemma StepRowCount(s: State, op: Op)
    ensures var n := |Step(s, op).rows|;
            match op
            case Decorate(newRows, _) => n == |newRows|
            case Reload(load) => n == |NonNull(load)|
            case AppendRow(added) => n == |s.rows| + if added.Some? then 1 else 0
            case DeleteRow(at) => n == |s.rows| - if 0 <= at < |s.rows| then 1 else 0
            case _ => n == |s.rows|
  {
    match op
    case Decorate(newRows, mode) =>
      BuildAligns(State(newRows, [], [], s.selection.(mode := mode), s.nextId), 0);
    case Reload(load) =>
      BuildAligns(State(NonNull(load), [], [], DeselectAll(s.selection), s.nextId), 0);
    case _ =>
  }

  /** No step of the run, started in state `s`, loses the selection. */
  predicate NeverLoses(s: State, ops: seq<Op>)
    decreases |ops|
  {
    ops == [] || (!LosesSelection(s, ops[0]) && NeverLoses(Step(s, ops[0]), ops[1..]))
  }

  function RunFrom(s: State, ops: seq<Op>): State
    decreases |ops|
  {
    if ops == [] then s else RunFrom(Step(s, ops[0]), ops[1..])
  }

  /** So over any run in single mode that never loses it, the selection is empty or one row. */
  lemma {:induction false} SingleRunStaysInRange(s: State, ops: seq<Op>)
    requires Aligned(s) && s.selection.mode == Single && InRange(s)
    requires KeepsMode(ops, Single) && NeverLoses(s, ops)
    ensures Aligned(RunFrom(s, ops)) && InRange(RunFrom(s, ops)) && RunFrom(s, ops).selection.mode == Single
    decreases |ops|
  {
    if ops != [] {
      StepAligns(s, ops[0]);
      SingleStepStaysInRange(s, ops[0]);
      assert KeepsMode(ops[1..], Single) by {
        assert forall i :: 0 <= i < |ops[1..]| ==> ops[1..][i] == ops[i + 1];
      }
      SingleRunStaysInRange(Step(s, ops[0]), ops[1..]);
    }
  }

  /** Deleting row `at` keeps the selected index on the row it was on exactly when that row stands
      before `at`; any later one moves up while the index stays. */
  lemma DeletionMovesSelection(s: State, at: nat)
    requires Aligned(s) && s.selection.mode == Single && InRange(s) && s.selection.indices != []
    requires at < |s.rows| && at != s.selection.indices[0]
    ensures var i := s.selection.indices[0];
            var after := Step(s, DeleteRow(at));
            && after.selection.indices == [i]
            && ((i < |after.rowIds| && after.rowIds[i] == s.rowIds[i]) <==> i < at)
  {
    RemoveFromOne(s.selection.indices, at);
    var i := s.selection.indices[0];
    if at < i && i + 1 < |s.rowIds| {
      assert SpliceOut(s.rowIds, at)[i] == s.rowIds[i + 1];
    }
  }
}
