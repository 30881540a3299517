/**
  The scheduler's view of times (ScheduleOld.js): normalizeTime, applied to every start time
  and to every label of a player's cleaned availability, and the slot list a player gets from
  the cleaned availability cell, `cell.split(", ").map(normalizeTime)`.
 */
module Slots {
  import opened Strings
  import opened Availability

  /** Drops one leading '0', as `replace(/^0/, '')` does. */
  function StripLeadingZero(t: string): (r: string)
    ensures r == t || (t != [] && t[0] == '0' && r == t[1..])
    ensures r != t <==> t != [] && t[0] == '0'
  {
    if t != [] && t[0] == '0' then t[1..] else t
  }

  /** normalizeTime: '' for an empty cell, otherwise the trimmed text without one leading '0'. */
  function NormalizeTime(s: string): (r: string)
  {
    if s == "" then "" else StripLeadingZero(Trim(s))
  }

  /** `.map(normalizeTime)`. */
  function NormalizeAll(ts: seq<string>): (r: seq<string>)
    ensures |r| == |ts| && forall i :: 0 <= i < |ts| ==> r[i] == NormalizeTime(ts[i])
  {
    seq(|ts|, i requires 0 <= i < |ts| => NormalizeTime(ts[i]))
  }

  /** A player's slots: the cleaned cell split on ", " and normalised, or none for an empty cell. */
  function SlotsOf(cell: string): seq<string> {
    if cell == "" then [] else NormalizeAll(Split(cell, ", "))
  }

  lemma DigitNotWhitespace(c: char)
    requires IsDigit(c)
    ensures !IsWhitespace(c)
  {
  }

  /** A padded label loses exactly its padding: the hour comes out as toString writes it. */
  lemma NormalizeTimePadded(h: nat, minutes: string)
    requires minutes == ":00" || minutes == ":30"
    ensures NormalizeTime(Pad2(h) + minutes) == NatToString(h) + minutes
  {
    NatToStringLeadingDigit(h);
    NatToStringLength(h);
    NormalizePaddedDigits(NatToString(h), minutes);
  }

  /** The same for any run of digits that has no leading zero once it is two digits long. */
  lemma NormalizePaddedDigits(d: string, minutes: string)
    requires d != [] && AllDigits(d) && (|d| >= 2 ==> d[0] != '0')
    requires minutes == ":00" || minutes == ":30"
    ensures NormalizeTime(PadStart2(d) + minutes) == d + minutes
  {
    var s := PadStart2(d) + minutes;
    PadStart2Shape(d);
    DigitNotWhitespace(s[0]);
    DigitNotWhitespace(s[|s| - 1]);
    TrimUnchanged(s);
    if |d| < 2 {
      assert s[1..] == d + minutes;
    } else {
      assert s[0] == d[0];
    }
  }

  /** The shape of every label the parser emits: two digits, ':', and "00" or "30". */
  predicate IsLabel(t: string) {
    && |t| == 5 && IsDigit(t[0]) && IsDigit(t[1]) && t[2] == ':'
    && (t[3..] == "00" || t[3..] == "30")
  }

  lemma HourLabelsAreLabels(h: nat)
    requires h < 100
    ensures IsLabel(HourLabels(h)[0]) && IsLabel(HourLabels(h)[1])
  {
    Pad2Digits(h);
    var p := Pad2(h);
    assert (p + ":00")[3..] == "00";
    assert (p + ":30")[3..] == "30";
  }

  lemma {:induction false} ExpandLabels(start: nat, end: nat)
    requires end <= 100
    ensures forall k :: 0 <= k < |Expand(start, end)| ==> IsLabel(Expand(start, end)[k])
    decreases end - start
  {
    if start < end {
      HourLabelsAreLabels(start);
      ExpandLabels(start + 1, end);
      var rest := Expand(start + 1, end);
      assert Expand(start, end) == HourLabels(start) + rest;
      forall k | 2 <= k < |Expand(start, end)|
        ensures IsLabel(Expand(start, end)[k])
      {
        assert Expand(start, end)[k] == rest[k - 2];
      }
    }
  }

  lemma PartLabelsAreLabels(part: string)
    ensures forall k :: 0 <= k < |PartLabels(part)| ==> IsLabel(PartLabels(part)[k])
  {
    var m := MatchClause(Trim(part));
    if m.Some? {
      ExpandLabels(m.value.0, m.value.1);
    }
  }

  lemma {:induction false} ClauseLabelsAreLabels(parts: seq<string>)
    ensures forall k :: 0 <= k < |ClauseLabels(parts)| ==> IsLabel(ClauseLabels(parts)[k])
    decreases |parts|
  {
    if parts != [] {
      var init := ClauseLabels(parts[..|parts| - 1]);
      var last := PartLabels(parts[|parts| - 1]);
      ClauseLabelsAreLabels(parts[..|parts| - 1]);
      PartLabelsAreLabels(parts[|parts| - 1]);
      LabelsAppend(init, last);
    }
  }

  /** Appending two lists of well-formed labels gives a list of well-formed labels. */
  lemma LabelsAppend(a: seq<string>, b: seq<string>)
    requires forall k :: 0 <= k < |a| ==> IsLabel(a[k])
    requires forall k :: 0 <= k < |b| ==> IsLabel(b[k])
    ensures forall k :: 0 <= k < |a + b| ==> IsLabel((a + b)[k])
  {
    forall k | 0 <= k < |a + b|
      ensures IsLabel((a + b)[k])
    {
      if k < |a| {
        assert (a + b)[k] == a[k];
      } else {
        assert (a + b)[k] == b[k - |a|];
      }
    }
  }

  /** Every label of a cell is well formed, so none contains the separator. */
  lemma IntervalsAreLabels(cell: string)
    ensures forall k :: 0 <= k < |Intervals(cell)| ==> IsLabel(Intervals(cell)[k])
  {
    ClauseLabelsAreLabels(Split(cell, ","));
  }

  /** An empty cell has no labels. */
  lemma IntervalsOfEmpty()
    ensures Intervals("") == []
  {
    assert Split("", ",") == [""];
    EmptyPartLabels();
    assert [""][..0] == [];
  }

  lemma EmptyPartLabels()
    ensures PartLabels("") == []
  {
    assert Trim("") == "";
    assert HourThen("", 0, "-").None?;
  }

  /** No label contains a comma. */
  lemma LabelSeparable(t: string)
    requires IsLabel(t)
    ensures Separable(t, ", ")
  {
    var sep := ", ";
    assert sep[0] == ',';
    forall i | 0 <= i < |t|
      ensures t[i] != ','
    {
      if i >= 3 {
        assert t[i] == t[3..][i - 3];
      }
    }
  }

  /** A non-empty list of labels survives joining with ", " and splitting again. */
  lemma SplitJoinedLabels(labels: seq<string>)
    requires labels != [] && forall k :: 0 <= k < |labels| ==> IsLabel(labels[k])
    ensures Join(labels, ", ") != ""
    ensures Split(Join(labels, ", "), ", ") == labels
  {
    forall k | 0 <= k < |labels|
      ensures Separable(labels[k], ", ")
    {
      LabelSeparable(labels[k]);
    }
    SplitJoin(labels, ", ");
    JoinStartsWith(labels, ", ");
    assert IsLabel(labels[0]);
  }

  /**
    The parser and the scheduler agree: a player's slot list, read from the cleaned cell with
    `split(", ")`, is the parser's label list, each label normalised.
   */
  lemma SlotsOfClean(cell: string)
    ensures Split(Clean(cell), ", ") == Intervals(cell) || Intervals(cell) == []
    ensures SlotsOf(Clean(cell)) == NormalizeAll(Intervals(cell))
  {
    var labels := Intervals(cell);
    if labels == [] {
      assert Clean(cell) == "";
    } else {
      IntervalsOfEmpty();
      IntervalsAreLabels(cell);
      SplitJoinedLabels(labels);
      assert Clean(cell) == Join(labels, ", ");
    }
  }

  /** No character of s is a dash. */
  predicate NoDash(s: string) {
    forall i :: 0 <= i < |s| ==> s[i] != '-'
  }

  /** Every field of a split of dash-free text is dash-free. */
  lemma {:induction false} SplitFromNoDash(s: string, sep: string, field: string)
    requires sep != [] && NoDash(s) && NoDash(field)
    ensures forall k :: 0 <= k < |SplitFrom(s, sep, field)| ==> NoDash(SplitFrom(s, sep, field)[k])
    decreases |s|
  {
    if s == [] {
    } else if sep <= s {
      SplitFromNoDash(s[|sep|..], sep, "");
      var rest := SplitFrom(s[|sep|..], sep, "");
      assert SplitFrom(s, sep, field) == [field] + rest;
    } else {
      SplitFromNoDash(s[1..], sep, field + [s[0]]);
    }
  }

  /** A recognised range clause contains the dash between its hours. */
  lemma ClauseHasDash(t: string)
    ensures MatchClause(t).Some? ==> !NoDash(t)
  {
    if MatchClause(t).Some? {
      HourThenShape(t, 0, "-");
      var j := HourThen(t, 0, "-").value.1;
      assert t[j - 1..j] == "-";
    }
  }

  /** Trimming never adds a dash, so a dash-free part is no range clause and adds no labels. */
  lemma PartLabelsNoDash(part: string)
    requires NoDash(part)
    ensures PartLabels(part) == []
  {
    TrimNoDash(part);
    ClauseHasDash(Trim(part));
  }

  /** Trimming keeps a piece of the text, so it never adds a dash. */
  lemma TrimNoDash(part: string)
    requires NoDash(part)
    ensures NoDash(Trim(part))
  {
    TrimIsSlice(part);
    var a := |part| - |TrimStart(part)|;
    SliceNoDash(part, a, a + |Trim(part)|);
  }

  /** A slice of dash-free text is dash-free. */
  lemma SliceNoDash(s: string, lo: nat, hi: nat)
    requires NoDash(s) && lo <= hi <= |s|
    ensures NoDash(s[lo..hi])
  {
    forall i | 0 <= i < hi - lo
      ensures s[lo..hi][i] != '-'
    {
      assert s[lo..hi][i] == s[lo + i];
    }
  }

  lemma {:induction false} ClauseLabelsNoDash(parts: seq<string>)
    requires forall k :: 0 <= k < |parts| ==> NoDash(parts[k])
    ensures ClauseLabels(parts) == []
    decreases |parts|
  {
    if parts != [] {
      ClauseLabelsNoDash(parts[..|parts| - 1]);
      PartLabelsNoDash(parts[|parts| - 1]);
    }
  }

  /** Joining dash-free labels with ", " gives dash-free text. */
  lemma {:induction false} JoinLabelsNoDash(labels: seq<string>)
    requires forall k :: 0 <= k < |labels| ==> IsLabel(labels[k])
    ensures NoDash(Join(labels, ", "))
    decreases |labels|
  {
    if |labels| > 1 {
      JoinLabelsNoDash(labels[1..]);
      var rest := Join(labels[1..], ", ");
      var first := labels[0];
      assert IsLabel(first);
      assert first[3..][0] == first[3] && first[3..][1] == first[4];
      var j := first + ", " + rest;
      forall i | 0 <= i < |j|
        ensures j[i] != '-'
      {
        if i >= |first| + 2 {
          assert j[i] == rest[i - |first| - 2];
        }
      }
    } else if |labels| == 1 {
      var first := labels[0];
      assert IsLabel(first);
      assert first[3..][0] == first[3] && first[3..][1] == first[4];
    }
  }

  /**
    Cleaning is not idempotent: the cleaned text has no dash, so no part of it is a range clause,
    and cleaning it again gives the empty string.
   */
  lemma CleanTwice(cell: string)
    ensures Clean(Clean(cell)) == ""
  {
    var once := Clean(cell);
    if once != "" {
      IntervalsAreLabels(cell);
      JoinLabelsNoDash(Intervals(cell));
      SplitFromNoDash(once, ",", "");
      ClauseLabelsNoDash(Split(once, ","));
    }
  }
}
