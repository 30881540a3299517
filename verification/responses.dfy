/**
  The form-response extraction shared by the five sheet generators (getTroopData,
  getConstructionData, getResearchData and their older copies): drop the header row, keep the
  rows whose opt-in column holds exactly "Yes", sort them stably by a numeric column in
  descending order (anything non-numeric counting as 0), and project a fixed list of fields.
 */
module Responses {
  import opened Strings
  import opened Cells
  import opened Sorting

  type Sheet = seq<seq<Cell>>

  /** One output field: a column of the response row, or the composed troop string. */
  datatype Field = Column(index: nat) | TroopSummary

  /** What one generator extracts: the opt-in column, the sort column and the output fields. */
  datatype Query = Query(optIn: nat, sortBy: nat, fields: seq<Field>)

  /** `data.slice(1)`: everything below the header row. */
  function Body(data: Sheet): (r: Sheet)
    ensures |r| == if data == [] then 0 else |data| - 1
    ensures forall i :: 0 <= i < |r| ==> r[i] == data[i + 1]
  {
    if data == [] then [] else data[1..]
  }

  /** `row[col] === "Yes"`: strict equality, so only the exact text counts. */
  predicate OptedIn(row: seq<Cell>, col: nat) {
    At(row, col) == Text("Yes")
  }

  /** `rows.filter(row => row[col] === "Yes")`. */
  function Filter(rows: Sheet, col: nat): (r: Sheet)
    ensures |r| <= |rows|
    ensures forall row :: row in r ==> OptedIn(row, col)
  {
    if rows == [] then []
    else Filter(rows[..|rows| - 1], col) + (if OptedIn(rows[|rows| - 1], col) then [rows[|rows| - 1]] else [])
  }

  /** The filter keeps every opted-in row as often as it occurs, and nothing else. */
  lemma {:induction false} FilterCounts(rows: Sheet, col: nat)
    ensures forall row :: multiset(Filter(rows, col))[row] == if OptedIn(row, col) then multiset(rows)[row] else 0
    decreases |rows|
  {
    if rows != [] {
      var init := rows[..|rows| - 1];
      FilterCounts(init, col);
      assert rows == init + [rows[|rows| - 1]];
    }
  }

  /** The comparator `(parseFloat(b[col]) || 0) - (parseFloat(a[col]) || 0)` as a key. */
  function DescendingKey(row: seq<Cell>, col: nat): Key {
    (-NumericValue(At(row, col)), 0)
  }

  function ByColumn(col: nat): seq<Cell> -> Key {
    row => DescendingKey(row, col)
  }

  /** `filtered.sort(...)`: stable, by the value of column col, highest first. */
  function SortDescending(rows: Sheet, col: nat): Sheet {
    SortBy(rows, ByColumn(col))
  }

  /**
    The sort permutes the rows, leaves them in non-increasing order of the sort column, and
    keeps rows with equal values in their original order.
   */
  lemma SortDescendingFacts(rows: Sheet, col: nat)
    ensures multiset(SortDescending(rows, col)) == multiset(rows)
    ensures forall i, j :: 0 <= i < j < |SortDescending(rows, col)| ==>
      NumericValue(At(SortDescending(rows, col)[i], col)) >= NumericValue(At(SortDescending(rows, col)[j], col))
    ensures forall k :: Class(SortDescending(rows, col), ByColumn(col), k) == Class(rows, ByColumn(col), k)
  {
    var key := ByColumn(col);
    SortByPermutes(rows, key);
    SortBySorted(rows, key);
    var sorted := SortDescending(rows, col);
    forall i, j | 0 <= i < j < |sorted|
      ensures NumericValue(At(sorted[i], col)) >= NumericValue(At(sorted[j], col))
    {
      assert !Before(key(sorted[j]), key(sorted[i]));
    }
    forall k
      ensures Class(sorted, key, k) == Class(rows, key, k)
    {
      SortByStable(rows, key, k);
    }
  }

  /** `${row[k]} <troop>` when the cell is truthy, '' otherwise. */
  function CountFirst(c: Cell, troop: string): string {
    if Truthy(c) then Display(c) + " " + troop else ""
  }

  /** `[...].filter(Boolean)`: the non-empty strings, in order. */
  function NonEmpty(parts: seq<string>): (r: seq<string>)
    ensures forall k :: 0 <= k < |r| ==> r[k] != ""
  {
    if parts == [] then []
    else NonEmpty(parts[..|parts| - 1]) + (if parts[|parts| - 1] != "" then [parts[|parts| - 1]] else [])
  }

  /** The troop types of the columns K, L and M of a response row. */
  const TroopNames: seq<string> := ["Infantry", "Lancer", "Marksman"]

  /** The troop string of getTroopData: "<n> Infantry, <n> Lancer, <n> Marksman", without the
      empty ones. */
  function TroopString(row: seq<Cell>): string {
    Join(NonEmpty([CountFirst(At(row, 10), "Infantry"), CountFirst(At(row, 11), "Lancer"),
                   CountFirst(At(row, 12), "Marksman")]), ", ")
  }

  /** The labelled troop counts of the truthy cells, in column order: "<n> <troop>" or, name
      first, "<troop> <n>". */
  function TroopParts(cells: seq<Cell>, countFirst: bool): (r: seq<string>)
    requires |cells| <= |TroopNames|
    ensures |r| <= |cells|
    ensures forall k :: 0 <= k < |r| ==> r[k] != ""
  {
    if cells == [] then []
    else
      var n := |cells| - 1;
      TroopParts(cells[..n], countFirst) + (if Truthy(cells[n]) then [TroopLabel(cells[n], n, countFirst)] else [])
  }

  /** The count of troop type n, count first or name first. */
  function TroopLabel(c: Cell, n: nat, countFirst: bool): string
    requires n < |TroopNames|
  {
    if countFirst then Display(c) + " " + TroopNames[n] else TroopNames[n] + " " + Display(c)
  }

  /** Adding one troop cell adds its label when the cell is truthy. */
  lemma TroopPartsStep(cells: seq<Cell>, n: nat, countFirst: bool)
    requires n < |cells| <= |TroopNames|
    ensures TroopParts(cells[..n + 1], countFirst) ==
      TroopParts(cells[..n], countFirst) + (if Truthy(cells[n]) then [TroopLabel(cells[n], n, countFirst)] else [])
  {
    assert cells[..n + 1][..n] == cells[..n];
  }

  /** One name-first part: "<name> <n>" for a truthy cell, nothing otherwise. */
  function NamedPart(c: Cell, name: string): seq<string> {
    if Truthy(c) then [name + " " + Display(c)] else []
  }

  /** The name-first parts of three troop cells, one troop type after the other. */
  lemma NameFirstParts(infantry: Cell, lancer: Cell, marksman: Cell)
    ensures TroopParts([infantry, lancer, marksman], false) ==
      NamedPart(infantry, TroopNames[0]) + NamedPart(lancer, TroopNames[1]) + NamedPart(marksman, TroopNames[2])
  {
    var cells := [infantry, lancer, marksman];
    assert cells[..0] == [];
    TroopPartsStep(cells, 0, false);
    assert TroopParts(cells[..1], false) == NamedPart(infantry, TroopNames[0]);
    TroopPartsStep(cells, 1, false);
    assert TroopParts(cells[..2], false) == NamedPart(infantry, TroopNames[0]) + NamedPart(lancer, TroopNames[1]);
    TroopPartsStep(cells, 2, false);
    assert cells[..3] == cells;
  }

  /** No part at all exactly when no troop cell is truthy, in either word order. */
  lemma {:induction false} TroopPartsEmpty(cells: seq<Cell>, countFirst: bool)
    requires |cells| <= |TroopNames|
    ensures TroopParts(cells, countFirst) == [] <==> forall k :: 0 <= k < |cells| ==> !Truthy(cells[k])
    decreases |cells|
  {
    if cells != [] {
      var n := |cells| - 1;
      TroopPartsEmpty(cells[..n], countFirst);
      assert forall k :: 0 <= k < n ==> cells[..n][k] == cells[k];
    }
  }

  /** Both word orders name the same troops: part k of one is part k of the other with the
      count and the troop type swapped. */
  lemma TroopPartsOrders(cells: seq<Cell>)
    requires |cells| <= |TroopNames|
    ensures |TroopParts(cells, true)| == |TroopParts(cells, false)|
    ensures forall k :: 0 <= k < |TroopParts(cells, true)| ==>
      exists m :: (0 <= m < |cells| &&
        TroopParts(cells, true)[k] == TroopLabel(cells[m], m, true) &&
        TroopParts(cells, false)[k] == TroopLabel(cells[m], m, false))
  {
    var idx := TruthyIndices(cells);
    TroopPartsIndexed(cells, true);
    TroopPartsIndexed(cells, false);
    forall k | 0 <= k < |TroopParts(cells, true)|
      ensures exists m :: (0 <= m < |cells| &&
        TroopParts(cells, true)[k] == TroopLabel(cells[m], m, true) &&
        TroopParts(cells, false)[k] == TroopLabel(cells[m], m, false))
    {
      var m := idx[k];
      assert 0 <= m < |cells| && TroopParts(cells, true)[k] == TroopLabel(cells[m], m, true);
    }
  }

  /** The positions of the truthy cells, in column order. */
  function TruthyIndices(cells: seq<Cell>): (r: seq<nat>)
    ensures forall k :: 0 <= k < |r| ==> r[k] < |cells| && Truthy(cells[r[k]])
  {
    if cells == [] then []
    else
      var n := |cells| - 1;
      TruthyIndices(cells[..n]) + (if Truthy(cells[n]) then [n] else [])
  }

  /** Part k of a troop list labels the k-th truthy cell. */
  lemma {:induction false} TroopPartsIndexed(cells: seq<Cell>, countFirst: bool)
    requires |cells| <= |TroopNames|
    ensures |TroopParts(cells, countFirst)| == |TruthyIndices(cells)|
    ensures forall k :: 0 <= k < |TruthyIndices(cells)| ==>
      TroopParts(cells, countFirst)[k] == TroopLabel(cells[TruthyIndices(cells)[k]], TruthyIndices(cells)[k], countFirst)
    decreases |cells|
  {
    if cells != [] {
      var n := |cells| - 1;
      var init := cells[..n];
      TroopPartsIndexed(init, countFirst);
      var idx, parts := TruthyIndices(init), TroopParts(init, countFirst);
      var lastIndex := if Truthy(cells[n]) then [n] else [];
      var lastPart := if Truthy(cells[n]) then [TroopLabel(cells[n], n, countFirst)] else [];
      assert TruthyIndices(cells) == idx + lastIndex;
      assert TroopParts(cells, countFirst) == parts + lastPart;
      LabelsSnoc(cells, idx, parts, countFirst);
    }
  }

  /** Labelling the truthy cells one more cell on. */
  lemma LabelsSnoc(cells: seq<Cell>, idx: seq<nat>, parts: seq<string>, countFirst: bool)
    requires 0 < |cells| <= |TroopNames| && |parts| == |idx|
    requires forall k :: 0 <= k < |idx| ==> idx[k] < |cells| - 1 && parts[k] == TroopLabel(cells[idx[k]], idx[k], countFirst)
    ensures var n := |cells| - 1;
      var lastIndex := if Truthy(cells[n]) then [n] else [];
      var lastPart := if Truthy(cells[n]) then [TroopLabel(cells[n], n, countFirst)] else [];
      |parts + lastPart| == |idx + lastIndex| &&
      forall k :: 0 <= k < |idx + lastIndex| ==>
        (parts + lastPart)[k] == TroopLabel(cells[(idx + lastIndex)[k]], (idx + lastIndex)[k], countFirst)
  {
    var n := |cells| - 1;
    var lastIndex := if Truthy(cells[n]) then [n] else [];
    var lastPart := if Truthy(cells[n]) then [TroopLabel(cells[n], n, countFirst)] else [];
    forall k | 0 <= k < |idx + lastIndex|
      ensures (parts + lastPart)[k] == TroopLabel(cells[(idx + lastIndex)[k]], (idx + lastIndex)[k], countFirst)
    {
      if k < |idx| {
        assert (parts + lastPart)[k] == parts[k] && (idx + lastIndex)[k] == idx[k];
      } else {
        assert (parts + lastPart)[k] == lastPart[0] && (idx + lastIndex)[k] == n;
      }
    }
  }

  /** The troop cells of a response row: columns K, L and M. */
  function TroopCells(row: seq<Cell>): (r: seq<Cell>)
    ensures |r| == 3
  {
    [At(row, 10), At(row, 11), At(row, 12)]
  }

  /** Filtering the three count-first strings leaves exactly the parts of the truthy cells. */
  lemma {:induction false} NonEmptyTroops(cells: seq<Cell>, parts: seq<string>)
    requires |cells| == |parts| <= |TroopNames|
    requires forall k :: 0 <= k < |parts| ==> parts[k] == CountFirst(cells[k], TroopNames[k])
    ensures NonEmpty(parts) == TroopParts(cells, true)
    decreases |cells|
  {
    if cells != [] {
      var n := |cells| - 1;
      NonEmptyTroops(cells[..n], parts[..n]);
    }
  }

  /** The troop string lists one "<n> <troop>" part per truthy troop cell, in column order. */
  lemma TroopStringParts(row: seq<Cell>)
    ensures TroopString(row) == Join(TroopParts(TroopCells(row), true), ", ")
  {
    var parts := [CountFirst(At(row, 10), "Infantry"), CountFirst(At(row, 11), "Lancer"),
                  CountFirst(At(row, 12), "Marksman")];
    NonEmptyTroops(TroopCells(row), parts);
  }

  /** No troop at all gives the empty string; otherwise the string is not empty. */
  lemma TroopStringEmpty(row: seq<Cell>)
    ensures TroopString(row) == "" <==> !Truthy(At(row, 10)) && !Truthy(At(row, 11)) && !Truthy(At(row, 12))
  {
    var cells := TroopCells(row);
    var parts := TroopParts(cells, true);
    TroopStringParts(row);
    TroopPartsEmpty(cells, true);
    assert cells[0] == At(row, 10) && cells[1] == At(row, 11) && cells[2] == At(row, 12);
    if parts != [] {
      JoinStartsWith(parts, ", ");
      assert parts[0] != "";
    }
  }

  /** The value of one output field. */
  function FieldValue(row: seq<Cell>, field: Field): Cell {
    match field
    case Column(k) => At(row, k)
    case TroopSummary => Text(TroopString(row))
  }

  /** `sorted.map(row => [row[a], row[b], ...])`. */
  function Project(row: seq<Cell>, fields: seq<Field>): (r: seq<Cell>)
    ensures |r| == |fields|
    ensures forall j :: 0 <= j < |fields| ==> r[j] == FieldValue(row, fields[j])
  {
    seq(|fields|, j requires 0 <= j < |fields| => FieldValue(row, fields[j]))
  }

  /** The rows a query selects, in output order. */
  function Selected(data: Sheet, q: Query): Sheet {
    SortDescending(Filter(Body(data), q.optIn), q.sortBy)
  }

  /** getTroopData / getConstructionData / getResearchData. */
  function Extract(data: Sheet, q: Query): (r: Sheet)
    ensures |r| == |Selected(data, q)|
    ensures forall i :: 0 <= i < |r| ==> r[i] == Project(Selected(data, q)[i], q.fields)
  {
    seq(|Selected(data, q)|, i requires 0 <= i < |Selected(data, q)| => Project(Selected(data, q)[i], q.fields))
  }

  /**
    What an extraction produces: one output row per opted-in response below the header (as
    often as it occurs), each with one cell per field, and the rows ordered by the sort column,
    highest first, with ties in response order.
   */
  lemma ExtractFacts(data: Sheet, q: Query)
    ensures forall row :: (multiset(Selected(data, q))[row] ==
      if OptedIn(row, q.optIn) then multiset(Body(data))[row] else 0)
    ensures |Selected(data, q)| == |Filter(Body(data), q.optIn)|
    ensures forall i :: 0 <= i < |Extract(data, q)| ==> |Extract(data, q)[i]| == |q.fields|
    ensures forall i, j :: 0 <= i < j < |Selected(data, q)| ==>
      NumericValue(At(Selected(data, q)[i], q.sortBy)) >= NumericValue(At(Selected(data, q)[j], q.sortBy))
    ensures forall k ::
      Class(Selected(data, q), ByColumn(q.sortBy), k) == Class(Filter(Body(data), q.optIn), ByColumn(q.sortBy), k)
  {
    var filtered := Filter(Body(data), q.optIn);
    FilterCounts(Body(data), q.optIn);
    SortDescendingFacts(filtered, q.sortBy);
    assert |multiset(Selected(data, q))| == |multiset(filtered)|;
  }

  /** When the sort column is also output field p, column p of the output is non-increasing. */
  lemma ExtractSortedBy(data: Sheet, q: Query, p: nat)
    requires p < |q.fields| && q.fields[p] == Column(q.sortBy)
    ensures forall i, j :: 0 <= i < j < |Extract(data, q)| ==>
      NumericValue(Extract(data, q)[i][p]) >= NumericValue(Extract(data, q)[j][p])
  {
    ExtractFacts(data, q);
  }
}
