/**
 * `ViewColumnService`: numbers the dock-panel columns of the main panel from left
 * to right (by the default sort of their `left` positions) and, on every drop,
 * rebuilds the id-to-column map and reports the ids whose column changed.
 */
module ViewColumnService {
  import opened Wrappers
  import opened ViewColumns

  class ViewColumnService {
    /** `viewColumns`: id to column, as of the last drop. */
    var viewColumns: map<string, int>
    /** `viewColumnIds`: column to ids. */
    var viewColumnIds: map<int, seq<string>>
    /** The panels `viewColumnIds` was last computed from. */
    ghost var panels: seq<Panel>

    ghost predicate Valid()
      reads this
    {
      viewColumnIds == ColumnsOf(panels)
    }

    /** A fresh service: both maps are empty (registering the drop listener is not modelled). */
    constructor ()
      ensures Valid() && panels == []
      ensures viewColumns == map[] && viewColumnIds == map[]
    {
      viewColumns := map[];
      viewColumnIds := map[];
      panels := [];
      assert SortedPositions([]) == [];
    }

    /**
     * `updateViewColumnIds`: group the ids of the positioned panels by position,
     * sort the positions, and renumber the groups 0..k-1 into a cleared `viewColumnIds`.
     */
    method UpdateViewColumnIds(dockPanels: seq<Panel>)
      modifies this`viewColumnIds, this`panels
      ensures Valid() && panels == dockPanels
      ensures viewColumnIds == ColumnsOf(dockPanels)
    {
      var positionIds, keys := GroupByPosition(dockPanels);
      viewColumnIds := map[];
      var sorted := SortByDecimal(keys);
      assert sorted == SortedPositions(dockPanels);
      assert viewColumnIds == NumberedGroups(dockPanels, sorted, 0);
      for viewColumn := 0 to |sorted|
        invariant viewColumnIds == NumberedGroups(dockPanels, sorted, viewColumn)
      {
        var key := sorted[viewColumn];
        PushGroup(viewColumn, positionIds[key]);
        NumberedGroupsStep(dockPanels, sorted, viewColumn);
      }
      panels := dockPanels;
    }

    /** The inner loop of the renumbering: push each id of a group into column `viewColumn`. */
    method PushGroup(viewColumn: int, ids: seq<string>)
      requires viewColumn !in viewColumnIds && |ids| > 0
      modifies this`viewColumnIds
      ensures viewColumnIds == old(viewColumnIds)[viewColumn := ids]
    {
      for t := 0 to |ids|
        invariant viewColumnIds == if t == 0 then old(viewColumnIds) else old(viewColumnIds)[viewColumn := ids[..t]]
      {
        if viewColumn !in viewColumnIds {
          viewColumnIds := viewColumnIds[viewColumn := []];
        }
        viewColumnIds := viewColumnIds[viewColumn := viewColumnIds[viewColumn] + [ids[t]]];
        assert ids[..t + 1] == ids[..t] + [ids[t]];
      }
      assert ids[..|ids|] == ids;
    }

    /** `getViewColumnIds(c)`: the ids of column `c`, or none when there is no such column. */
    method GetViewColumnIds(viewColumn: int) returns (ids: seq<string>)
      requires Valid()
      ensures ids == if viewColumn in viewColumnIds then viewColumnIds[viewColumn] else []
      ensures ids != [] <==> 0 <= viewColumn < |Positions(panels)|
      ensures 0 <= viewColumn < |Positions(panels)| ==>
        ids == IdsAt(panels, SortedPositions(panels)[viewColumn])
    {
      DenseColumns(panels);
      if viewColumn in viewColumnIds {
        ids := viewColumnIds[viewColumn];
      } else {
        ids := [];
      }
    }

    /**
     * The body of the `p-drop` listener, once the drop has settled: recompute the
     * columns, map every id to its column, fire an event for every id that is new
     * or has moved, and replace `viewColumns`.
     */
    method Drop(dockPanels: seq<Panel>) returns (events: seq<ViewColumnChange>)
      modifies this
      ensures Valid() && panels == dockPanels
      ensures viewColumnIds == ColumnsOf(dockPanels)
      ensures forall c :: 0 <= c < |Positions(dockPanels)| ==> c in ColumnsOf(dockPanels)
      ensures viewColumns == Assignment(ColumnsOf(dockPanels), |Positions(dockPanels)|)
      ensures events == ChangeEvents(old(viewColumns), ColumnsOf(dockPanels), |Positions(dockPanels)|)
    {
      UpdateViewColumnIds(dockPanels);
      DenseColumns(dockPanels);
      var next;
      next, events := CollectViewColumns(viewColumnIds, viewColumns, |Positions(dockPanels)|);
      viewColumns := next;
    }
  }

  /**
   * The first loop of `updateViewColumnIds`: the ids of the positioned panels
   * grouped by position in `positionIds`, whose keys in insertion order are `keys`.
   */
  method GroupByPosition(dockPanels: seq<Panel>) returns (positionIds: map<int, seq<string>>, keys: seq<int>)
    ensures keys == PositionKeys(dockPanels)
    ensures forall p :: p in positionIds <==> IsPosition(dockPanels, p)
    ensures forall p :: p in positionIds ==> positionIds[p] == IdsAt(dockPanels, p)
  {
    positionIds := map[];
    keys := [];
    for i := 0 to |dockPanels|
      invariant keys == PositionKeys(dockPanels[..i])
      invariant forall p :: p in positionIds <==> p in keys
      invariant forall p :: p in positionIds ==> positionIds[p] == IdsAt(dockPanels[..i], p)
    {
      var panel := dockPanels[i];
      assert dockPanels[..i + 1][..i] == dockPanels[..i];
      if panel.left.Some? {
        var pos := panel.left.value;
        if pos !in positionIds {
          positionIds := positionIds[pos := []];
          keys := keys + [pos];
        }
        positionIds := positionIds[pos := positionIds[pos] + [panel.id]];
      }
    }
    assert dockPanels[..|dockPanels|] == dockPanels;
  }

  /**
   * The nested `forEach` of the drop listener over `viewColumnIds` (whose columns
   * are 0..n-1, visited in that order): `next` receives every id with its column,
   * and an event is fired for each id that `previous` lacks or maps elsewhere.
   */
  method CollectViewColumns(viewColumnIds: map<int, seq<string>>, previous: map<string, int>, ghost n: nat)
    returns (next: map<string, int>, events: seq<ViewColumnChange>)
    requires forall c :: 0 <= c < n ==> c in viewColumnIds
    requires n !in viewColumnIds
    ensures next == Assignment(viewColumnIds, n)
    ensures events == ChangeEvents(previous, viewColumnIds, n)
  {
    next := map[];
    events := [];
    var viewColumn := 0;
    while viewColumn in viewColumnIds
      invariant 0 <= viewColumn <= n
      invariant next == Assignment(viewColumnIds, viewColumn)
      invariant events == ChangeEvents(previous, viewColumnIds, viewColumn)
      decreases n - viewColumn
    {
      CollectStep(viewColumnIds, previous, viewColumn);
      next, events := CollectColumn(viewColumnIds[viewColumn], viewColumn, previous, next, events);
      viewColumn := viewColumn + 1;
    }
    assert viewColumn == n;
  }

  /** Visiting column `v` extends the map and the events by that column's share. */
  lemma CollectStep(cols: map<int, seq<string>>, previous: map<string, int>, v: nat)
    requires forall c :: 0 <= c <= v ==> c in cols
    ensures Assignment(cols, v + 1) == Assignment(cols, v) + AssignColumn(cols[v], v)
    ensures ChangeEvents(previous, cols, v + 1) == ChangeEvents(previous, cols, v) + ColumnChanges(previous, cols[v], v)
  {
  }

  /** The inner `forEach` of the drop listener, over the ids of one column. */
  method CollectColumn(ids: seq<string>, viewColumn: int, previous: map<string, int>,
                       next0: map<string, int>, events0: seq<ViewColumnChange>)
    returns (next: map<string, int>, events: seq<ViewColumnChange>)
    ensures next == next0 + AssignColumn(ids, viewColumn)
    ensures events == events0 + ColumnChanges(previous, ids, viewColumn)
  {
    next, events := next0, events0;
    for t := 0 to |ids|
      invariant next == next0 + AssignColumn(ids[..t], viewColumn)
      invariant events == events0 + ColumnChanges(previous, ids[..t], viewColumn)
    {
      var id := ids[t];
      AssignColumnStep(next0, ids, t, viewColumn);
      ColumnChangesStep(previous, ids, t, viewColumn);
      next := next[id := viewColumn];
      if id !in previous || previous[id] != viewColumn {
        events := events + [ViewColumnChange(id, viewColumn)];
      }
    }
    assert ids[..|ids|] == ids;
  }
}
