/**
  getConstructionData of ConstructionMondayOld.js: the responses below the header whose column E
  (index 4) is exactly "Yes", highest column H (index 7) first, each reduced to 9 fields:
  columns B, C, D, H, K, J, P, Q and O of the response.
 */
module ConstructionMondayOld {
  import opened Cells
  import opened Responses

  const ConstructionQuery := Query(4, 7,
    [Column(1), Column(2), Column(3), Column(7), Column(10), Column(9), Column(15), Column(16), Column(14)])

  /** The output row of one response. */
  function ConstructionRow(response: seq<Cell>): seq<Cell> {
    [At(response, 1), At(response, 2), At(response, 3), At(response, 7), At(response, 10),
     At(response, 9), At(response, 15), At(response, 16), At(response, 14)]
  }

  /** The field list of the query projects a response to exactly that row. */
  lemma ProjectConstructionRow(response: seq<Cell>)
    ensures Project(response, ConstructionQuery.fields) == ConstructionRow(response)
  {
  }

  /**
    getConstructionData: one output row of 9 cells per opted-in response, in descending order of
    the sort column (output field 3), ties in response order.
   */
  function GetConstructionData(data: Sheet): (r: Sheet)
    ensures |r| == |Selected(data, ConstructionQuery)| == |Filter(Body(data), 4)|
    ensures forall i :: 0 <= i < |r| ==> r[i] == ConstructionRow(Selected(data, ConstructionQuery)[i])
    ensures forall i, j :: 0 <= i < j < |r| ==>
      NumericValue(At(Selected(data, ConstructionQuery)[i], 7)) >= NumericValue(At(Selected(data, ConstructionQuery)[j], 7))
  {
    ExtractFacts(data, ConstructionQuery);
    forall i | 0 <= i < |Selected(data, ConstructionQuery)| {
      ProjectConstructionRow(Selected(data, ConstructionQuery)[i]);
    }
    Extract(data, ConstructionQuery)
  }
}
