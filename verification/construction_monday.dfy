/**
  getConstructionData of ConstructionMonday.js: the responses below the header whose column E
  (index 4) is exactly "Yes", highest column I (index 8) first, each reduced to 10 fields:
  columns B, C, D, H, I, P, O, S, U and T of the response.
 */
module ConstructionMonday {
  import opened Cells
  import opened Responses

  const ConstructionQuery := Query(4, 8,
    [Column(1), Column(2), Column(3), Column(7), Column(8), Column(15), Column(14), Column(18), Column(20), Column(19)])

  /** The output row of one response. */
  function ConstructionRow(response: seq<Cell>): seq<Cell> {
    [At(response, 1), At(response, 2), At(response, 3), At(response, 7), At(response, 8),
     At(response, 15), At(response, 14), At(response, 18), At(response, 20), At(response, 19)]
  }

  /** The field list of the query projects a response to exactly that row. */
  lemma ProjectConstructionRow(response: seq<Cell>)
    ensures Project(response, ConstructionQuery.fields) == ConstructionRow(response)
  {
  }

  /**
    getConstructionData: one output row per opted-in response, 10 cells each, ordered by the
    sort column (output field 4), highest first.
   */
  function GetConstructionData(data: Sheet): (r: Sheet)
    ensures |r| == |Selected(data, ConstructionQuery)| == |Filter(Body(data), 4)|
    ensures forall i :: 0 <= i < |r| ==> r[i] == ConstructionRow(Selected(data, ConstructionQuery)[i])
    ensures forall i, j :: 0 <= i < j < |r| ==>
      NumericValue(At(Selected(data, ConstructionQuery)[i], 8)) >= NumericValue(At(Selected(data, ConstructionQuery)[j], 8))
  {
    ExtractFacts(data, ConstructionQuery);
    forall i | 0 <= i < |Selected(data, ConstructionQuery)| {
      ProjectConstructionRow(Selected(data, ConstructionQuery)[i]);
    }
    Extract(data, ConstructionQuery)
  }
}
