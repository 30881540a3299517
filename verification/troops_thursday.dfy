/**
  getTroopData of TroopsThursday.js: the responses below the header whose column G (index 6) is
  exactly "Yes", highest column N (index 13) first, each reduced to 10 fields: alliance, name,
  furnace level, the troop string, promotions, specific and general speedups, enough resources,
  comments and availability.
 */
module TroopsThursday {
  import opened Strings
  import opened Cells
  import opened Responses

  const TroopQuery := Query(6, 13,
    [Column(1), Column(2), Column(3), TroopSummary, Column(13), Column(17), Column(14), Column(18), Column(20), Column(19)])

  /** The output row of one response. */
  function TroopRow(response: seq<Cell>): seq<Cell> {
    [At(response, 1), At(response, 2), At(response, 3), Text(TroopString(response)),
     At(response, 13), At(response, 17), At(response, 14), At(response, 18), At(response, 20),
     At(response, 19)]
  }

  /** The field list of the query projects a response to exactly that row. */
  lemma ProjectTroopRow(response: seq<Cell>)
    ensures Project(response, TroopQuery.fields) == TroopRow(response)
  {
  }

  /**
    getTroopData: one output row of 10 cells per opted-in response, in descending order of
    the sort column (output field 4), ties in response order.
   */
  function GetTroopData(data: Sheet): (r: Sheet)
    ensures |r| == |Selected(data, TroopQuery)| == |Filter(Body(data), 6)|
    ensures forall i :: 0 <= i < |r| ==> r[i] == TroopRow(Selected(data, TroopQuery)[i])
    ensures forall i, j :: 0 <= i < j < |r| ==>
      NumericValue(At(Selected(data, TroopQuery)[i], 13)) >= NumericValue(At(Selected(data, TroopQuery)[j], 13))
  {
    ExtractFacts(data, TroopQuery);
    forall i | 0 <= i < |Selected(data, TroopQuery)| {
      ProjectTroopRow(Selected(data, TroopQuery)[i]);
    }
    Extract(data, TroopQuery)
  }

  /** The `map` callback of combineTroopLevels: the parts of one row, joined with ", ". */
  method CombineRow(infantry: Cell, lancer: Cell, marksman: Cell) returns (line: string)
    ensures line == Join(TroopParts([infantry, lancer, marksman], false), ", ")
  {
    assert TroopNames[0] + " " == "Infantry " && TroopNames[1] + " " == "Lancer "
      && TroopNames[2] + " " == "Marksman ";
    var parts: seq<string> := [];
    if Truthy(infantry) {
      parts := parts + ["Infantry " + Display(infantry)];
    }
    assert parts == NamedPart(infantry, TroopNames[0]);
    if Truthy(lancer) {
      parts := parts + ["Lancer " + Display(lancer)];
    }
    assert parts == NamedPart(infantry, TroopNames[0]) + NamedPart(lancer, TroopNames[1]);
    if Truthy(marksman) {
      parts := parts + ["Marksman " + Display(marksman)];
    }
    assert parts == NamedPart(infantry, TroopNames[0]) + NamedPart(lancer, TroopNames[1])
      + NamedPart(marksman, TroopNames[2]);
    NameFirstParts(infantry, lancer, marksman);
    line := Join(parts, ", ");
  }

  /**
    combineTroopLevels: for every row, the truthy cells of columns K, L and M written as
    "Infantry <n>", "Lancer <n>", "Marksman <n>" and joined with ", ".
   */
  method CombineTroopLevels(infantry: seq<Cell>, lancer: seq<Cell>, marksman: seq<Cell>) returns (combined: seq<string>)
    requires |lancer| == |infantry| && |marksman| == |infantry|
    ensures |combined| == |infantry|
    ensures forall i :: 0 <= i < |infantry| ==>
      combined[i] == Join(TroopParts([infantry[i], lancer[i], marksman[i]], false), ", ")
  {
    combined := [];
    for i := 0 to |infantry|
      invariant |combined| == i
      invariant forall k :: 0 <= k < i ==>
        combined[k] == Join(TroopParts([infantry[k], lancer[k], marksman[k]], false), ", ")
    {
      var line := CombineRow(infantry[i], lancer[i], marksman[i]);
      combined := combined + [line];
    }
  }

  /**
    combineTroopLevels and the troop string of getTroopData describe the same troops: as many
    parts each, and an empty cell in one exactly when the other is empty.
   */
  lemma CombinedAgreesWithTroopString(row: seq<Cell>)
    ensures |TroopParts(TroopCells(row), false)| == |TroopParts(TroopCells(row), true)|
    ensures Join(TroopParts(TroopCells(row), false), ", ") == "" <==> TroopString(row) == ""
  {
    var cells := TroopCells(row);
    TroopPartsOrders(cells);
    TroopStringParts(row);
    var named := TroopParts(cells, false);
    var counted := TroopParts(cells, true);
    if named != [] {
      JoinStartsWith(named, ", ");
      assert named[0] != "";
    }
    if counted != [] {
      JoinStartsWith(counted, ", ");
      assert counted[0] != "";
    }
  }
}
