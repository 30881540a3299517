/**
  getTroopData of TroopsThursdayOld.js: the responses below the header whose column G (index 6)
  is exactly "Yes", highest column N (index 13) first, each reduced to 9 fields: columns B, C,
  D, N, M, J, P, Q and O of the response.
 */
module TroopsThursdayOld {
  import opened Cells
  import opened Responses

  const TroopQuery := Query(6, 13,
    [Column(1), Column(2), Column(3), Column(13), Column(12), Column(9), Column(15), Column(16), Column(14)])

  /** The output row of one response. */
  function TroopRow(response: seq<Cell>): seq<Cell> {
    [At(response, 1), At(response, 2), At(response, 3), At(response, 13), At(response, 12),
     At(response, 9), At(response, 15), At(response, 16), At(response, 14)]
  }

  /** The field list of the query projects a response to exactly that row. */
  lemma ProjectTroopRow(response: seq<Cell>)
    ensures Project(response, TroopQuery.fields) == TroopRow(response)
  {
  }

  /**
    getTroopData: one output row per opted-in response, 9 cells each, ordered by the sort column
    (output field 3), highest first.
   */
  function GetTroopData(data: Sheet): (r: Sheet)
    ensures |r| == |Selected(data, TroopQuery)| == |Filter(Body(data), 6)|
    ensures forall i :: 0 <= i < |r| ==> r[i] == TroopRow(Selected(data, TroopQuery)[i])
    ensures forall i, j :: 0 <= i < j < |r| ==>
      NumericValue(At(Selected(data, TroopQuery)[i], 13)) >= NumericValue(At(Selected(data, TroopQuery)[j], 13))
  {
    ExtractFacts(data, TroopQuery);
    forall i | 0 <= i < |Selected(data, TroopQuery)| {
      ProjectTroopRow(Selected(data, TroopQuery)[i]);
    }
    Extract(data, TroopQuery)
  }
}
