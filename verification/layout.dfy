/**
  The monthly layout sheet of Layout.js: three tracks (construction on Monday, research on
  Tuesday, troop training on Thursday) side by side, each with 48 half-hour slots on rows 4 to
  51, a start-time column and a message column per track, and grey border columns A, G, M and S
  framing the tracks.

  Column letters are converted to 1-based indices by columnLetterToIndex, a bijective base-26
  reading of the letters ("A" = 1, "Z" = 26, "AA" = 27).
 */
module Layout {

  /** `c.charCodeAt(0) - 64`: 1 for 'A' up to 26 for 'Z'. */
  function LetterValue(c: char): int {
    c as int - 64
  }

  predicate IsUpper(c: char) {
    'A' <= c <= 'Z'
  }

  /** A column name: one or more upper-case letters. */
  predicate ColumnName(s: string) {
    s != [] && forall k :: 0 <= k < |s| ==> IsUpper(s[k])
  }

  /** The value the Horner loop computes for a string, read left to right. */
  function ColumnIndex(s: string): int {
    if s == [] then 0 else 26 * ColumnIndex(s[..|s| - 1]) + LetterValue(s[|s| - 1])
  }

  /** columnLetterToIndex. */
  method ColumnLetterToIndex(letter: string) returns (column: int)
    ensures column == ColumnIndex(letter)
  {
    column := 0;
    for i := 0 to |letter|
      invariant column == ColumnIndex(letter[..i])
    {
      assert letter[..i + 1][..i] == letter[..i];
      column := column * 26;
      column := column + (letter[i] as int - 64);
    }
    assert letter[..|letter|] == letter;
  }

  /** The letter of digit d, 1 <= d <= 26. */
  function Letter(d: int): (c: char)
    requires 1 <= d <= 26
    ensures IsUpper(c) && LetterValue(c) == d
  {
    (64 + d) as char
  }

  /** The column name of index n >= 1: the inverse of ColumnIndex. */
  function ColumnLetters(n: int): (s: string)
    requires n >= 1
    ensures ColumnName(s)
    decreases n
  {
    if n <= 26 then [Letter(n)]
    else ColumnLetters((n - 1) / 26) + [Letter((n - 1) % 26 + 1)]
  }

  /** Every column name denotes a positive index. */
  lemma {:induction false} ColumnIndexPositive(s: string)
    requires ColumnName(s)
    ensures ColumnIndex(s) >= 1
    decreases |s|
  {
    var init := s[..|s| - 1];
    if init != [] {
      assert forall k :: 0 <= k < |init| ==> init[k] == s[k];
      ColumnIndexPositive(init);
    }
  }

  /** Reading the name of an index gives the index back. */
  lemma {:induction false} IndexOfLetters(n: int)
    requires n >= 1
    ensures ColumnIndex(ColumnLetters(n)) == n
    decreases n
  {
    if n > 26 {
      var s := ColumnLetters(n);
      IndexOfLetters((n - 1) / 26);
      assert s[..|s| - 1] == ColumnLetters((n - 1) / 26);
    }
  }

  /** Naming the index of a column name gives the name back: no two names share an index. */
  lemma {:induction false} LettersOfIndex(s: string)
    requires ColumnName(s)
    ensures ColumnIndex(s) >= 1 && ColumnLetters(ColumnIndex(s)) == s
    decreases |s|
  {
    ColumnIndexPositive(s);
    var init := s[..|s| - 1];
    var d := LetterValue(s[|s| - 1]);
    if init == [] {
      assert s == [Letter(d)];
    } else {
      assert forall k :: 0 <= k < |init| ==> init[k] == s[k];
      LettersOfIndex(init);
      var m := ColumnIndex(init);
      var n := 26 * m + d;
      assert (n - 1) / 26 == m && (n - 1) % 26 + 1 == d;
      assert s == init + [Letter(d)];
    }
  }

  /** Two column names with the same index are the same name. */
  lemma ColumnIndexInjective(s: string, t: string)
    requires ColumnName(s) && ColumnName(t) && ColumnIndex(s) == ColumnIndex(t)
    ensures s == t
  {
    LettersOfIndex(s);
    LettersOfIndex(t);
  }

  /** The grey border columns, by letter. */
  const BorderLetters: seq<string> := ["A", "G", "M", "S"]

  /** setColumnWidths: the indices of the narrow border columns, in order. */
  method BorderColumnIndices() returns (indices: seq<int>)
    ensures indices == [1, 7, 13, 19]
  {
    indices := [];
    for k := 0 to |BorderLetters|
      invariant |indices| == k
      invariant forall m :: 0 <= m < k ==> indices[m] == ColumnIndex(BorderLetters[m])
    {
      var colIndex := ColumnLetterToIndex(BorderLetters[k]);
      indices := indices + [colIndex];
    }
    assert ColumnIndex("A") == 1 && ColumnIndex("G") == 7 && ColumnIndex("M") == 13 && ColumnIndex("S") == 19;
  }

  const StartRow: nat := 4
  /** Half-hour slots from 00:00 to 23:30. */
  const Intervals: nat := 48
  const Tracks: nat := 3
  /** Columns B, H and N. */
  const TimeColumns: seq<nat> := [2, 8, 14]
  /** Columns F, L and R. */
  const MessageColumns: seq<nat> := [6, 12, 18]
  const Roles: seq<string> := [
    "Vice President time for Construction on Monday",
    "Vice President time for Research on Tuesday",
    "Minister of Education time for Troop Training on Thursday"]

  /** Minutes after midnight at which slot i starts: `new Date(0, 0, 0, 0, i * 30)`. */
  function StartMinutes(i: nat): nat {
    i * 30
  }

  /** `endHour` and `endMinute` of slot i: the time thirty minutes after its start, on the hour
      or on the half hour. */
  function EndTime(i: nat): (r: (nat, nat))
    ensures r.0 * 60 + r.1 == StartMinutes(i) + 30
    ensures r.1 == 0 || r.1 == 30
  {
    var endMinutes := (i + 1) * 30;
    HalfHours(i + 1);
    (endMinutes / 60, endMinutes % 60)
  }

  /** k half hours are k / 2 whole hours and, for odd k, thirty minutes. */
  lemma HalfHours(k: nat)
    ensures (k * 30) / 60 == k / 2 && (k * 30) % 60 == 30 * (k % 2)
  {
    var q, r := k / 2, k % 2;
    assert k * 30 == 60 * q + 30 * r;
  }

  /** The message cell's content, without its fixed wording. */
  datatype Message = Message(role: string, start: string, end: string)

  /** The two cells one slot of one track fills. */
  datatype SlotCells = SlotCells(row: nat, timeColumn: nat, time: string, messageColumn: nat, message: Message)

  /**
    Slot i of track j. `format` is the "HH:mm" rendering of a time given as minutes after
    midnight, which is what both Date values of the script denote.
   */
  function SlotAt(format: nat -> string, i: nat, j: nat): SlotCells
    requires j < Tracks
  {
    var startTime := format(StartMinutes(i));
    var (endHour, endMinute) := EndTime(i);
    SlotCells(StartRow + i, TimeColumns[j], startTime, MessageColumns[j],
      Message(Roles[j], startTime, format(endHour * 60 + endMinute)))
  }

  /**
    populateTimeAndMessages: the cells written, in the order the nested loops write them (slot
    by slot, and within a slot track by track).
   */
  method PopulateTimeAndMessages(format: nat -> string) returns (cells: seq<SlotCells>)
    ensures |cells| == 3 * Intervals
    ensures forall i, j :: 0 <= i < Intervals && 0 <= j < Tracks ==> cells[3 * i + j] == SlotAt(format, i, j)
  {
    cells := [];
    for i := 0 to Intervals
      invariant |cells| == 3 * i
      invariant forall i', j :: 0 <= i' < i && 0 <= j < Tracks ==> cells[3 * i' + j] == SlotAt(format, i', j)
    {
      var startTime := format(i * 30);
      var endMinutes := (i + 1) * 30;
      var endHour := endMinutes / 60;
      var endMinute := endMinutes % 60;
      var endTime := format(endHour * 60 + endMinute);
      assert (endHour, endMinute) == EndTime(i);
      for j := 0 to |TimeColumns|
        invariant |cells| == 3 * i + j
        invariant forall i', j' :: 0 <= i' < i && 0 <= j' < Tracks ==> cells[3 * i' + j'] == SlotAt(format, i', j')
        invariant forall j' :: 0 <= j' < j ==> cells[3 * i + j'] == SlotAt(format, i, j')
      {
        var row := StartRow + i;
        cells := cells + [SlotCells(row, TimeColumns[j], startTime, MessageColumns[j],
          Message(Roles[j], startTime, endTime))];
      }
    }
  }

  /** A slot ends when the next one starts, and the last one ends at midnight. */
  lemma SlotsContiguous(format: nat -> string, i: nat, j: nat)
    requires j < Tracks
    ensures SlotAt(format, i, j).message.end == SlotAt(format, i + 1, j).message.start
    ensures SlotAt(format, i, j).message.start == SlotAt(format, i, j).time
    ensures EndTime(Intervals - 1) == (24, 0)
  {
  }

  /**
    Every slot cell lies inside the grey frame: rows strictly between the top row 1 and the
    bottom row 52, the start time and the message strictly between the border columns to the
    left and right of their track, and two different slots or tracks never share a cell.
   */
  lemma SlotsInsideFrame(format: nat -> string, i: nat, j: nat)
    requires i < Intervals && j < Tracks
    ensures 1 < SlotAt(format, i, j).row < 52
    ensures ColumnIndex(BorderLetters[j]) < SlotAt(format, i, j).timeColumn
      < SlotAt(format, i, j).messageColumn < ColumnIndex(BorderLetters[j + 1])
  {
    assert ColumnIndex("A") == 1 && ColumnIndex("G") == 7 && ColumnIndex("M") == 13 && ColumnIndex("S") == 19;
  }

  /** Different slots or tracks write different time cells and different message cells. */
  lemma SlotCellsDistinct(format: nat -> string, i: nat, j: nat, i': nat, j': nat)
    requires j < Tracks && j' < Tracks && (i, j) != (i', j')
    ensures (SlotAt(format, i, j).row, SlotAt(format, i, j).timeColumn)
      != (SlotAt(format, i', j').row, SlotAt(format, i', j').timeColumn)
    ensures (SlotAt(format, i, j).row, SlotAt(format, i, j).messageColumn)
      != (SlotAt(format, i', j').row, SlotAt(format, i', j').messageColumn)
  {
  }
}
