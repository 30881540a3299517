/**
  highlightDuplicateNames (ScheduleOld.js): the name column of rows 7 to 107 is counted into
  a plain object `nameCounts`, skipping empty cells, and every row whose name is non-empty and
  counted more than once is greyed out.

  The counting object is modelled twice: HighlightDuplicateNames keeps the counts in a map,
  which is what the script means; FlaggedAsWritten follows the plain object, whose lookups
  also see the properties every object inherits (`constructor`, `toString`, ...).
 */
module Duplicates {
  import opened Options

  /** Row i repeats a name: its name is non-empty and occurs more than once in the column. */
  predicate Duplicated(names: seq<string>, i: nat)
    requires i < |names|
  {
    names[i] != "" && multiset(names)[names[i]] > 1
  }

  /** The counting loop, then the flagging loop: one flag per row. */
  method HighlightDuplicateNames(names: seq<string>) returns (flags: seq<bool>)
    ensures |flags| == |names|
    ensures forall i :: 0 <= i < |names| ==> (flags[i] <==> Duplicated(names, i))
  {
    var nameCounts: map<string, nat> := map[];
    for i := 0 to |names|
      invariant forall x :: x in nameCounts <==> x != "" && x in names[..i]
      invariant forall x :: x in nameCounts ==> nameCounts[x] == multiset(names[..i])[x]
    {
      assert names[..i + 1] == names[..i] + [names[i]];
      var name := names[i];
      if name != "" {
        var count := if name in nameCounts then nameCounts[name] else 0;
        nameCounts := nameCounts[name := count + 1];
      }
    }
    assert names[..|names|] == names;
    flags := [];
    for i := 0 to |names|
      invariant |flags| == i
      invariant forall k :: 0 <= k < i ==> (flags[k] <==> Duplicated(names, k))
    {
      var name := names[i];
      flags := flags + [name != "" && name in nameCounts && nameCounts[name] > 1];
    }
  }

  /** Row i is flagged exactly when some other row carries the same non-empty name. */
  lemma DuplicatedIffOther(names: seq<string>, i: nat)
    requires i < |names|
    ensures Duplicated(names, i) <==> names[i] != "" && exists j :: 0 <= j < |names| && j != i && names[j] == names[i]
  {
    var x := names[i];
    var rest := names[..i] + names[i + 1..];
    assert names == names[..i] + [x] + names[i + 1..];
    assert multiset(names)[x] == multiset(rest)[x] + 1;
    if exists j :: 0 <= j < |names| && j != i && names[j] == x {
      var j :| 0 <= j < |names| && j != i && names[j] == x;
      if j < i {
        assert rest[j] == x;
      } else {
        assert rest[j - 1] == x;
      }
    }
    if multiset(rest)[x] > 0 {
      var m :| 0 <= m < |rest| && rest[m] == x;
      if m < i {
        assert names[m] == x;
      } else {
        assert names[m + 1] == x;
      }
    }
  }

  /** Properties of Object.prototype: `nameCounts[name]` finds these on a fresh object. */
  const InheritedKeys: set<string> := {
    "constructor", "toString", "toLocaleString", "valueOf", "hasOwnProperty", "isPrototypeOf",
    "propertyIsEnumerable", "__proto__", "__defineGetter__", "__defineSetter__",
    "__lookupGetter__", "__lookupSetter__"}

  /**
    What `nameCounts[name]` holds once the counting loop is done: the number of occurrences,
    or None when the name is an inherited property. Such a lookup starts from a function (or
    the prototype object), `(f || 0) + 1` turns it into a string, and the comparison `> 1`
    on that string is false.
   */
  function StoredCountAsWritten(names: seq<string>, name: string): (r: Option<nat>)
    ensures name !in InheritedKeys ==> r == Some(multiset(names)[name])
    ensures name in InheritedKeys ==> r == None
  {
    if name in InheritedKeys then None else Some(multiset(names)[name])
  }

  /** The flag test `name && nameCounts[name] > 1` on the plain object. */
  predicate FlaggedAsWritten(names: seq<string>, i: nat)
    requires i < |names|
  {
    && names[i] != ""
    && var stored := StoredCountAsWritten(names, names[i]);
    && stored.Some? && stored.value > 1
  }

  /** The plain object agrees with the map on every name it does not inherit. */
  lemma FlaggedAsWrittenAgrees(names: seq<string>, i: nat)
    requires i < |names| && names[i] !in InheritedKeys
    ensures FlaggedAsWritten(names, i) <==> Duplicated(names, i)
  {
  }

  /** Two players both named "constructor": the rows are duplicates, and neither is greyed. */
  lemma InheritedNameNeverFlagged()
    ensures Duplicated(["constructor", "constructor"], 0)
    ensures !FlaggedAsWritten(["constructor", "constructor"], 0)
  {
    var names := ["constructor", "constructor"];
    assert multiset(names)[names[0]] == 2;
  }
}
