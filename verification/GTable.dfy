/** `GTable`, `TableBuilder` and `SelectionModel` of gt_table.js on the heap: the arrays they share,
    the table body, and the click handlers that keep references to them.

    Each method is tied to an operation of `TableModel`, where runs of operations are studied. The table
    and its builder hold the same row array; the handlers hold the id array of their builder. */
module GTable {
  import opened Wrappers
  import opened TableModel

  /** A JavaScript array: an object that several others may hold. */
  class RowArray {
    var items: seq<Row>

    constructor (items: seq<Row>)
      ensures this.items == items
    {
      this.items := items;
    }
  }

  class IdArray {
    var items: seq<Id>

    constructor ()
      ensures items == []
    {
      items := [];
    }
  }

  class IdGenerator {
    var next: Id
  }

  lemma RemoveAt(indices: seq<int>, row: int, i: nat, kept: seq<int>)
    requires i < |indices|
    ensures indices[i] == row ==> kept + Remove(indices[i..], row) == kept + Remove(indices[i + 1..], row)
    ensures indices[i] != row ==>
              kept + Remove(indices[i..], row) == kept + [indices[i]] + Remove(indices[i + 1..], row)
  {
    assert indices[i..][1..] == indices[i + 1..];
  }

  class SelectionModel {
    var mode: Mode
    var selectedIndices: seq<int>

    constructor ()
      ensures Value() == Selection(Single, [])
    {
      mode, selectedIndices := Single, [];
    }

    ghost function Value(): Selection
      reads this
    {
      Selection(mode, selectedIndices)
    }

    method IsRowSelected(row: int) returns (selected: bool)
      ensures selected <==> row in selectedIndices
    {
      for i := 0 to |selectedIndices|
        invariant row !in selectedIndices[..i]
      {
        if selectedIndices[i] == row {
          return true;
        }
      }
      return false;
    }

    method DeselectRow(row: int)
      modifies this
      ensures Value() == TableModel.DeselectRow(old(Value()), row)
    {
      var kept := [];
      for i := 0 to |selectedIndices|
        invariant mode == old(mode) && selectedIndices == old(selectedIndices)
        invariant kept + Remove(selectedIndices[i..], row) == Remove(selectedIndices, row)
      {
        RemoveAt(selectedIndices, row, i, kept);
        if row != selectedIndices[i] {
          kept := kept + [selectedIndices[i]];
        }
      }
      selectedIndices := kept;
    }

    method DeselectAll()
      modifies this
      ensures Value() == TableModel.DeselectAll(old(Value()))
    {
      selectedIndices := [];
    }

    method SetSelectedRow(row: int) returns (selected: bool)
      modifies this
      ensures Value() == TableModel.SetSelectedRow(old(Value()), row)
      ensures selected <==> row in selectedIndices
    {
      match mode
      case Single =>
        selectedIndices := [row];
        return true;
      case Multi =>
        var already := IsRowSelected(row);
        if already {
          RemoveRemoves(selectedIndices, row);
          DeselectRow(row);
          return false;
        } else {
          selectedIndices := selectedIndices + [row];
          return true;
        }
      case NoSelection =>
        selectedIndices := [];
        return false;
    }
  }

  /** A row of the table body with the data its click handler was bound with. */
  datatype Tr = Tr(id: Id, rowIds: IdArray, model: SelectionModel)

  /** The table element of the page; only the rows of its body matter here. */
  class TableDom {
    var body: seq<Tr>
  }

  function IdsOf(body: seq<Tr>): (ids: seq<Id>)
    ensures |ids| == |body| && forall i :: 0 <= i < |body| ==> ids[i] == body[i].id
  {
    seq(|body|, i requires 0 <= i < |body| => body[i].id)
  }

  lemma IdsOfInserted(body: seq<Tr>, at: nat, tr: Tr)
    ensures IdsOf(InsertRow(body, at, tr)) == InsertRow(IdsOf(body), at, tr.id)
  {
    var k := if at < |body| then at else |body|;
    InsertRowAround(body, at, tr);
    InsertRowAround(IdsOf(body), at, tr.id);
    IdsOfAround(body[..k], tr, body[k..]);
    IdsOfCut(body, k);
  }

  lemma IdsOfCut(body: seq<Tr>, k: nat)
    requires k <= |body|
    ensures IdsOf(body[..k]) == IdsOf(body)[..k] && IdsOf(body[k..]) == IdsOf(body)[k..]
  {
  }

  lemma IdsOfAround(a: seq<Tr>, tr: Tr, b: seq<Tr>)
    ensures IdsOf(a + [tr] + b) == IdsOf(a) + [tr.id] + IdsOf(b)
  {
  }

  class TableBuilder {
    const tableDom: TableDom
    const ids: IdGenerator
    var rows: RowArray
    var rowIds: IdArray
    const selectionModel: SelectionModel

    constructor (tableDom: TableDom, ids: IdGenerator, rows: RowArray, selectionModel: SelectionModel)
      ensures this.tableDom == tableDom && this.ids == ids && this.rows == rows && this.selectionModel == selectionModel
      ensures fresh(rowIds) && rowIds.items == []
    {
      this.tableDom, this.ids, this.rows, this.selectionModel := tableDom, ids, rows, selectionModel;
      rowIds := new IdArray();
    }

    ghost function Value(): State
      reads this, rows, rowIds, tableDom, ids, selectionModel
    {
      State(rows.items, rowIds.items, IdsOf(tableDom.body), selectionModel.Value(), ids.next)
    }

    /** Every click handler holds the builder's own arrays. */
    ghost predicate Bound()
      reads this, tableDom
    {
      forall i :: 0 <= i < |tableDom.body| ==>
        tableDom.body[i].rowIds == rowIds && tableDom.body[i].model == selectionModel
    }

    method CreateRow(rowIndex: nat) returns (tr: Tr)
      modifies rowIds, ids
      ensures tr == Tr(old(ids.next), rowIds, selectionModel)
      ensures rowIds.items == SpliceIn(old(rowIds.items), rowIndex, old(ids.next)) && ids.next == old(ids.next) + 1
    {
      var id := ids.next;
      ids.next := ids.next + 1;
      rowIds.items := if rowIndex < |rowIds.items|
                      then rowIds.items[..rowIndex] + [id] + rowIds.items[rowIndex..]
                      else rowIds.items + [id];
      tr := Tr(id, rowIds, selectionModel);
    }

    method BuildBody()
      requires Bound()
      modifies rowIds, ids, tableDom
      ensures Value() == BuildFrom(old(Value()), 0) && Bound()
    {
      for k := 0 to |rows.items|
        invariant Bound()
        invariant BuildFrom(Value(), k) == BuildFrom(old(Value()), 0)
      {
        ghost var before := Value();
        var tr := CreateRow(k);
        tableDom.body := tableDom.body + [tr];
        assert IdsOf(tableDom.body) == before.body + [tr.id];
      }
    }

    /** `build`: the table is emptied first. */
    method Build()
      modifies rowIds, ids, tableDom
      ensures Value() == BuildFrom(old(Value()).(body := []), 0) && Bound()
    {
      tableDom.body := [];
      BuildBody();
    }

    method InsertRowAt(rowIndex: nat)
      requires Bound()
      modifies rowIds, ids, tableDom, selectionModel
      ensures Value() == InsertAt(old(Value()), rowIndex) && Bound()
    {
      var tr := CreateRow(rowIndex);
      ghost var before := tableDom.body;
      if rowIndex == 0 {
        tableDom.body := [tr] + tableDom.body;
      } else if rowIndex >= |tableDom.body| {
        tableDom.body := tableDom.body + [tr];
      } else {
        tableDom.body := tableDom.body[..rowIndex] + [tr] + tableDom.body[rowIndex..];
      }
      assert tableDom.body == InsertRow(before, rowIndex, tr);
      IdsOfInserted(before, rowIndex, tr);
      var _ := selectionModel.SetSelectedRow(rowIndex);
    }

    /** The data are already in the model, so the new row is the last one. */
    method AppendRow()
      requires Bound() && rows.items != []
      modifies rowIds, ids, tableDom, selectionModel
      ensures Value() == InsertAt(old(Value()), |rows.items| - 1) && Bound()
    {
      InsertRowAt(|rows.items| - 1);
    }

    method DeleteRow(rowIndex: nat)
      requires Bound()
      modifies rowIds, tableDom, selectionModel
      ensures Value() == DeleteAt(old(Value()), rowIndex) && Bound()
    {
      ghost var before := tableDom.body;
      if rowIndex < |tableDom.body| {
        tableDom.body := tableDom.body[..rowIndex] + tableDom.body[rowIndex + 1..];
      }
      assert IdsOf(tableDom.body) == SpliceOut(IdsOf(before), rowIndex);
      if rowIndex < |rowIds.items| {
        rowIds.items := rowIds.items[..rowIndex] + rowIds.items[rowIndex + 1..];
      }
      selectionModel.DeselectRow(rowIndex);
    }

    method UpdateRow(rowIndex: nat)
      requires Bound()
      modifies rowIds, ids, tableDom, selectionModel
      ensures Value() == InsertAt(DeleteAt(old(Value()), rowIndex), rowIndex) && Bound()
    {
      DeleteRow(rowIndex);
      InsertRowAt(rowIndex);
    }

    /** The id array is replaced, not emptied: no row is left that could hold the old one. */
    method DeleteAll()
      modifies this, tableDom, selectionModel
      ensures rows == old(rows) && fresh(rowIds) && Bound()
      ensures Value() == State(rows.items, [], [], TableModel.DeselectAll(old(selectionModel.Value())), ids.next)
    {
      tableDom.body := [];
      selectionModel.DeselectAll();
      rowIds := new IdArray();
    }
  }

  /** `rowClicked`, which knows nothing but its row and the data it was bound with. */
  method RowClicked(tr: Tr) returns (rowIndex: int)
    modifies tr.model
    ensures rowIndex == IndexOfId(tr.rowIds.items, tr.id)
    ensures tr.model.Value() == TableModel.SetSelectedRow(old(tr.model.Value()), rowIndex)
  {
    rowIndex := IndexOfId(tr.rowIds.items, tr.id);
    var _ := tr.model.SetSelectedRow(rowIndex);
  }

  class GTable {
    const tableDom: TableDom
    const ids: IdGenerator
    const selectionModel: SelectionModel
    var rows: RowArray
    var tableBuilder: TableBuilder

    ghost function Repr(): set<object>
      reads this, tableBuilder
    {
      {this, rows, tableBuilder, tableBuilder.rowIds, tableDom, ids, selectionModel}
    }

    ghost function Value(): State
      reads this, tableBuilder, tableBuilder.rows, tableBuilder.rowIds, tableDom, tableBuilder.tableDom
      reads tableBuilder.ids, tableBuilder.selectionModel
    {
      tableBuilder.Value()
    }

    /** The builder works on the table's own parts, the row array among them, and what it shows is
        aligned. */
    ghost predicate Valid()
      reads this, tableBuilder, tableBuilder.rows, tableBuilder.rowIds, tableDom, tableBuilder.tableDom
      reads tableBuilder.ids, tableBuilder.selectionModel
    {
      && tableBuilder.rows == rows
      && tableBuilder.tableDom == tableDom && tableBuilder.ids == ids
      && tableBuilder.selectionModel == selectionModel
      && tableBuilder.Bound()
      && Aligned(Value())
    }

    /** A table right after its first `decorate`, which takes over the caller's array. */
    constructor (tableDom: TableDom, ids: IdGenerator, rows: RowArray, mode: Mode)
      modifies tableDom, ids
      ensures Valid() && this.rows == rows && fresh(Repr() - {rows, tableDom, ids})
      ensures Value() == Step(UNDECORATED.(nextId := old(ids.next)), Op.Decorate(rows.items, mode))
    {
      var model := new SelectionModel();
      model.mode := mode;
      var builder := new TableBuilder(tableDom, ids, rows, model);
      ghost var blank := State(rows.items, [], [], Selection(mode, []), ids.next);
      assert builder.Value().(body := []) == blank;
      BuildAligns(blank, 0);
      builder.Build();
      this.tableDom, this.ids, this.rows := tableDom, ids, rows;
      this.selectionModel, this.tableBuilder := model, builder;
    }

    /** A further `decorate`: a new builder over the same table element and selection. */
    method Decorate(newRows: RowArray, mode: Mode)
      requires Valid()
      modifies Repr()
      ensures Valid() && rows == newRows && fresh(Repr() - old(Repr()) - {newRows})
      ensures Value() == Step(old(Value()), Op.Decorate(old(newRows.items), mode))
    {
      StepAligns(Value(), Op.Decorate(newRows.items, mode));
      rows := newRows;
      selectionModel.mode := mode;
      tableBuilder := new TableBuilder(tableDom, ids, rows, selectionModel);
      tableBuilder.Build();
    }

    /** The table gets a new array; the builder holds the old one until `load`. */
    method Clear()
      requires Valid()
      modifies this, tableBuilder, tableDom, selectionModel
      ensures fresh(rows) && rows.items == [] && tableBuilder == old(tableBuilder)
      ensures fresh(tableBuilder.rowIds) && tableBuilder.rowIds.items == [] && tableDom.body == []
      ensures selectionModel.Value() == TableModel.DeselectAll(old(selectionModel.Value()))
      ensures tableBuilder.Bound()
    {
      rows := new RowArray([]);
      tableBuilder.DeleteAll();
    }

    /** The loop of `load`: rows that are not null are appended. */
    method PushRows(load: seq<Option<Row>>)
      modifies rows
      ensures rows.items == old(rows.items) + NonNull(load)
    {
      ghost var before := rows.items;
      for i := 0 to |load|
        invariant rows.items + NonNull(load[i..]) == before + NonNull(load)
      {
        assert load[i..][1..] == load[i + 1..];
        if load[i].Some? {
          TwoParts(rows.items, load[i].value, NonNull(load[i + 1..]));
          rows.items := rows.items + [load[i].value];
        }
      }
      assert load[|load|..] == [];
    }

    lemma TwoParts(a: seq<Row>, x: Row, b: seq<Row>)
      ensures a + [x] + b == a + ([x] + b)
    {
    }

    /** `clear` then `load`. */
    method Reload(load: seq<Option<Row>>)
      requires Valid()
      modifies Repr()
      ensures Valid() && fresh(Repr() - old(Repr()))
      ensures Value() == Step(old(Value()), Op.Reload(load))
    {
      StepAligns(Value(), Op.Reload(load));
      Clear();
      PushRows(load);
      assert rows.items == NonNull(load);
      tableBuilder.rows := rows;
      tableBuilder.BuildBody();
    }

    method AppendRow(row: Option<Row>)
      requires Valid()
      modifies Repr()
      ensures Valid() && Repr() == old(Repr())
      ensures Value() == Step(old(Value()), Op.AppendRow(row))
    {
      StepAligns(Value(), Op.AppendRow(row));
      if row.Some? {
        rows.items := rows.items + [row.value];
        tableBuilder.AppendRow();
      }
    }

    /** False where `validateRowIndex` throws. */
    method DeleteRow(rowIndex: int) returns (ok: bool)
      requires Valid()
      modifies Repr()
      ensures Valid() && Repr() == old(Repr()) && (ok <==> 0 <= rowIndex < |old(rows.items)|)
      ensures Value() == Step(old(Value()), Op.DeleteRow(rowIndex))
    {
      StepAligns(Value(), Op.DeleteRow(rowIndex));
      if rowIndex < 0 || rowIndex >= |rows.items| {
        return false;
      }
      rows.items := rows.items[..rowIndex] + rows.items[rowIndex + 1..];
      tableBuilder.DeleteRow(rowIndex);
      return true;
    }

    method UpdateRow(rowIndex: int, row: Row) returns (ok: bool)
      requires Valid()
      modifies Repr()
      ensures Valid() && Repr() == old(Repr()) && (ok <==> 0 <= rowIndex < |old(rows.items)|)
      ensures Value() == Step(old(Value()), Op.UpdateRow(rowIndex, row))
    {
      StepAligns(Value(), Op.UpdateRow(rowIndex, row));
      if rowIndex < 0 || rowIndex >= |rows.items| {
        return false;
      }
      rows.items := rows.items[rowIndex := row];
      tableBuilder.UpdateRow(rowIndex);
      return true;
    }

    /** A click on the row at a position resolves to that position. */
    method Click(position: nat) returns (rowIndex: int)
      requires Valid() && position < |tableDom.body| && selectionModel.mode != NoSelection
      modifies selectionModel
      ensures Valid() && rowIndex == position
      ensures Value() == Step(old(Value()), Op.Click(position))
    {
      IndexOfDistinct(tableBuilder.rowIds.items, position);
      rowIndex := RowClicked(tableDom.body[position]);
    }
  }
}
