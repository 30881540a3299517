/**
  The availability parser shared by the five sheet generators (cleanTroopsAvailabilityColumn,
  cleanConstructionAvailabilityColumn, cleanResearchAvailabilityColumn and the two copies of
  cleanAvailabilityColumn, which are the same code): a free-text availability cell is split on
  commas, each trimmed part that starts with `<1-2 digits>-<1-2 digits> UTC` is an hour range
  [start, end), and each hour h of a range becomes the two half-hour labels `HH:00`, `HH:30`
  (h zero-padded to two digits). The labels are joined with ", ".
 */
module Availability {
  import opened Options
  import opened Strings

  /** One or two digits at position i followed by the literal lit, tried greedily (two digits
      first) as the regular expression does: the number and the position after lit. */
  function HourThen(s: string, i: nat, lit: string): (r: Option<(nat, nat)>)
    requires lit != [] && !IsDigit(lit[0])
    ensures r.Some? ==> r.value.0 < 100 && i < r.value.1 <= |s|
  {
    if i + 2 <= |s| && IsDigit(s[i]) && IsDigit(s[i + 1]) && lit <= s[i + 2..] then
      DecimalValueBelow100(s[i..i + 2]);
      Some((DecimalValue(s[i..i + 2]), i + 2 + |lit|))
    else if i + 1 <= |s| && IsDigit(s[i]) && lit <= s[i + 1..] then
      DecimalValueBelow100(s[i..i + 1]);
      Some((DecimalValue(s[i..i + 1]), i + 1 + |lit|))
    else None
  }

  /** The recogniser for /^([\d]{1,2})-([\d]{1,2}) UTC/: the start and end hour, or None. */
  function MatchClause(part: string): (r: Option<(nat, nat)>)
    ensures r.Some? ==> r.value.0 < 100 && r.value.1 < 100
  {
    match HourThen(part, 0, "-")
    case None => None
    case Some((start, next)) =>
      match HourThen(part, next, " UTC")
      case None => None
      case Some((end, _)) => Some((start, end))
  }

  /** The pattern read declaratively: part starts with n1 digits, '-', n2 digits and " UTC". */
  predicate ClauseAt(part: string, n1: nat, n2: nat)
  {
    && n1 + n2 + 5 <= |part|
    && AllDigits(part[..n1])
    && part[n1] == '-'
    && AllDigits(part[n1 + 1..n1 + 1 + n2])
    && part[n1 + 1 + n2..n1 + n2 + 5] == " UTC"
  }

  /** A digit run of length n (one or two) at i followed by lit is read by HourThen. */
  lemma HourThenAt(s: string, i: nat, n: nat, lit: string)
    requires lit != [] && !IsDigit(lit[0])
    requires 1 <= n <= 2 && i + n + |lit| <= |s|
    requires AllDigits(s[i..i + n]) && s[i + n..i + n + |lit|] == lit
    ensures HourThen(s, i, lit) == Some((DecimalValue(s[i..i + n]), i + n + |lit|))
  {
    assert IsDigit(s[i..i + n][0]);
    assert s[i + n] == lit[0];
    assert lit <= s[i + n..];
    if n == 2 {
      assert IsDigit(s[i..i + n][1]);
    }
  }

  /** What HourThen reads: one or two digits at i, then lit. */
  lemma HourThenShape(s: string, i: nat, lit: string)
    requires lit != [] && !IsDigit(lit[0])
    requires HourThen(s, i, lit).Some?
    ensures var (v, j) := HourThen(s, i, lit).value; var n := j - i - |lit|;
      && 1 <= n <= 2 && j <= |s|
      && AllDigits(s[i..i + n]) && s[i + n..j] == lit && v == DecimalValue(s[i..i + n])
  {
  }

  /** A matched clause has one of the four shapes. */
  lemma MatchedClauseShape(part: string)
    requires MatchClause(part).Some?
    ensures ClauseAt(part, 1, 1) || ClauseAt(part, 1, 2) || ClauseAt(part, 2, 1) || ClauseAt(part, 2, 2)
  {
    HourThenShape(part, 0, "-");
    var next := HourThen(part, 0, "-").value.1;
    HourThenShape(part, next, " UTC");
    var after := HourThen(part, next, " UTC").value.1;
    var n1, n2 := next - 1, after - 4 - next;
    assert part[..n1] == part[0..n1];
    assert part[n1..n1 + 1] == "-";
    assert ClauseAt(part, n1, n2);
  }

  /** A clause of one of the four shapes is matched, with the values of its digit runs. */
  lemma ClauseMatches(part: string, n1: nat, n2: nat)
    requires 1 <= n1 <= 2 && 1 <= n2 <= 2 && ClauseAt(part, n1, n2)
    ensures MatchClause(part) == Some((DecimalValue(part[..n1]), DecimalValue(part[n1 + 1..n1 + 1 + n2])))
  {
    assert part[0..n1] == part[..n1];
    assert part[n1..n1 + 1] == "-";
    HourThenAt(part, 0, n1, "-");
    HourThenAt(part, n1 + 1, n2, " UTC");
  }

  /** The pattern matches exactly when part has one of its four shapes (one or two digits on
      either side of the dash), and the hours are the values of the two digit runs. */
  lemma MatchClauseShapes(part: string)
    ensures MatchClause(part).Some? <==>
      ClauseAt(part, 1, 1) || ClauseAt(part, 1, 2) || ClauseAt(part, 2, 1) || ClauseAt(part, 2, 2)
    ensures forall n1, n2 :: 1 <= n1 <= 2 && 1 <= n2 <= 2 && ClauseAt(part, n1, n2) ==>
      MatchClause(part) == Some((DecimalValue(part[..n1]), DecimalValue(part[n1 + 1..n1 + 1 + n2])))
  {
    if MatchClause(part).Some? {
      MatchedClauseShape(part);
    }
    forall n1, n2 | 1 <= n1 <= 2 && 1 <= n2 <= 2 && ClauseAt(part, n1, n2)
      ensures MatchClause(part) == Some((DecimalValue(part[..n1]), DecimalValue(part[n1 + 1..n1 + 1 + n2])))
    {
      ClauseMatches(part, n1, n2);
    }
  }

  /** The canonical clause text for an hour range, "s-e UTC". */
  function RenderClause(start: nat, end: nat): string {
    NatToString(start) + "-" + NatToString(end) + " UTC"
  }

  /** Every hour range below one hundred, written as a clause and followed by any text, is
      recognised with its own hours. */
  lemma MatchRenderedClause(start: nat, end: nat, rest: string)
    requires start < 100 && end < 100
    ensures MatchClause(RenderClause(start, end) + rest) == Some((start, end))
  {
    var d1, d2 := NatToString(start), NatToString(end);
    var part := RenderClause(start, end) + rest;
    NatToStringLength(start);
    NatToStringLength(end);
    DecimalValueOfNatToString(start);
    DecimalValueOfNatToString(end);
    var tail := d2 + " UTC" + rest;
    assert part == d1 + "-" + tail;
    assert part[..|d1|] == d1;
    assert part[|d1|] == '-';
    assert part[|d1| + 1..] == tail;
    assert tail[..|d2|] == d2;
    assert part[|d1| + 1..|d1| + 1 + |d2|] == d2;
    assert tail[|d2|..|d2| + 4] == " UTC";
    assert ClauseAt(part, |d1|, |d2|);
    MatchClauseShapes(part);
  }

  /** The two labels of one hour: `${padded(h)}:00` and `${padded(h)}:30`. */
  function HourLabels(h: nat): seq<string> {
    [Pad2(h) + ":00", Pad2(h) + ":30"]
  }

  /** The labels of the hours start, start + 1, ..., end - 1 (none when start >= end). */
  function Expand(start: nat, end: nat): seq<string>
    decreases end - start
  {
    if start < end then HourLabels(start) + Expand(start + 1, end) else []
  }

  /** A range contributes two labels per hour. */
  lemma {:induction false} ExpandLength(start: nat, end: nat)
    ensures |Expand(start, end)| == if start < end then 2 * (end - start) else 0
    decreases end - start
  {
    if start < end {
      ExpandLength(start + 1, end);
    }
  }

  /** The labels of hour start + k sit at positions 2k (":00") and 2k + 1 (":30"). */
  lemma {:induction false} ExpandAt(start: nat, end: nat, k: nat)
    requires start + k < end
    ensures |Expand(start, end)| > 2 * k + 1
    ensures Expand(start, end)[2 * k..2 * k + 2] == HourLabels(start + k)
    decreases k
  {
    ExpandLength(start, end);
    var all := Expand(start, end);
    assert all == HourLabels(start) + Expand(start + 1, end);
    if k > 0 {
      ExpandAt(start + 1, end, k - 1);
      var rest := Expand(start + 1, end);
      assert all[2 * k..2 * k + 2] == rest[2 * (k - 1)..2 * (k - 1) + 2];
    }
  }

  lemma {:induction false} ExpandSnoc(start: nat, h: nat)
    requires start <= h
    ensures Expand(start, h + 1) == Expand(start, h) + HourLabels(h)
    decreases h - start
  {
    if start < h {
      ExpandSnoc(start + 1, h);
    }
  }

  /** The labels one comma-separated part contributes. */
  function PartLabels(part: string): seq<string> {
    match MatchClause(Trim(part))
    case None => []
    case Some((start, end)) => Expand(start, end)
  }

  /** The labels of all parts, in part order, duplicates kept. */
  function ClauseLabels(parts: seq<string>): seq<string> {
    if parts == [] then [] else ClauseLabels(parts[..|parts| - 1]) + PartLabels(parts[|parts| - 1])
  }

  lemma ClauseLabelsSnoc(parts: seq<string>, i: nat)
    requires i < |parts|
    ensures ClauseLabels(parts[..i + 1]) == ClauseLabels(parts[..i]) + PartLabels(parts[i])
  {
    assert parts[..i + 1][..i] == parts[..i];
  }

  /** The half-hour labels of an availability cell, before joining. */
  function Intervals(cell: string): seq<string> {
    ClauseLabels(Split(cell, ","))
  }

  /** The cleaned cell: '' for an empty cell, otherwise the labels joined with ", ". */
  function Clean(cell: string): string {
    if cell == "" then "" else Join(Intervals(cell), ", ")
  }

  /** Cleans one availability cell, pushing the labels of each recognised range in turn. */
  method CleanCell(cell: string) returns (cleaned: string)
    ensures cleaned == Clean(cell)
  {
    if cell == "" {
      return "";
    }
    var parts := Split(cell, ",");
    var intervals: seq<string> := [];
    for i := 0 to |parts|
      invariant intervals == ClauseLabels(parts[..i])
    {
      var range := MatchClause(Trim(parts[i]));
      if range.Some? {
        intervals := PushRange(intervals, range.value.0, range.value.1);
      }
      ClauseLabelsSnoc(parts, i);
    }
    assert parts[..|parts|] == parts;
    cleaned := Join(intervals, ", ");
  }

  /** The inner loop `for (let h = start; h < end; h++)`, pushing both labels of each hour. */
  method PushRange(intervals: seq<string>, start: nat, end: nat) returns (r: seq<string>)
    ensures r == intervals + Expand(start, end)
  {
    r := intervals;
    var h := start;
    while h < end
      invariant start <= h && (h <= end || h == start)
      invariant r == intervals + Expand(start, h)
    {
      ExpandSnoc(start, h);
      r := r + HourLabels(h);
      h := h + 1;
    }
    assert Expand(start, h) == Expand(start, end);
  }
}
