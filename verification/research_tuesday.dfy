/**
  getResearchData of ResearchTuesday.js: the responses below the header whose column F (index 5)
  is exactly "Yes", highest column J (index 9) first, each reduced to 10 fields: columns B, C,
  D, H, J, Q, O, S, U and T of the response.
 */
module ResearchTuesday {
  import opened Cells
  import opened Responses

  const ResearchQuery := Query(5, 9,
    [Column(1), Column(2), Column(3), Column(7), Column(9), Column(16), Column(14), Column(18), Column(20), Column(19)])

  /** The output row of one response. */
  function ResearchRow(response: seq<Cell>): seq<Cell> {
    [At(response, 1), At(response, 2), At(response, 3), At(response, 7), At(response, 9),
     At(response, 16), At(response, 14), At(response, 18), At(response, 20), At(response, 19)]
  }

  /** The field list of the query projects a response to exactly that row. */
  lemma ProjectResearchRow(response: seq<Cell>)
    ensures Project(response, ResearchQuery.fields) == ResearchRow(response)
  {
  }

  /**
    getResearchData: one output row of 10 cells per opted-in response, in descending order of
    the sort column (output field 4), ties in response order.
   */
  function GetResearchData(data: Sheet): (r: Sheet)
    ensures |r| == |Selected(data, ResearchQuery)| == |Filter(Body(data), 5)|
    ensures forall i :: 0 <= i < |r| ==> r[i] == ResearchRow(Selected(data, ResearchQuery)[i])
    ensures forall i, j :: 0 <= i < j < |r| ==>
      NumericValue(At(Selected(data, ResearchQuery)[i], 9)) >= NumericValue(At(Selected(data, ResearchQuery)[j], 9))
  {
    ExtractFacts(data, ResearchQuery);
    forall i | 0 <= i < |Selected(data, ResearchQuery)| {
      ProjectResearchRow(Selected(data, ResearchQuery)[i]);
    }
    Extract(data, ResearchQuery)
  }
}
