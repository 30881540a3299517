/**
  The scheduling engine of ScheduleOld.js. The four functions scheduleBasedOnSort,
  scheduleBasedOnLimitedAvailability, scheduleAllSlots and scheduleBasedOnSpeedups run the same
  steps with different parameters, so they are one method, RunStrategy, with a Strategy:

    1. build the pool (first row per non-empty name);
    2. sort it stably by the strategy's ranking (or not at all), and keep the first `cap` players;
    3. for every slot row, list the players whose slots include the row's normalised start time,
       counted once before anything is assigned;
    4. stably sort the slots by that count, ascending;
    5. give each slot the first candidate not assigned yet.

  The outcome is data in place of sheet writes: the name written into each slot row (None for a
  slot left blank, which the script colours), the pool players left without a slot (their name
  cells are coloured), the strategy's highlight colour, and the two counts of the log line.
 */
module Schedule {
  import opened Options
  import opened Sorting
  import opened Slots
  import opened Pool
  import opened Assignment
  import opened Cells
  import opened Duplicates

  datatype Strategy = Strategy(ranking: Ranking, cap: Option<nat>, highlight: string)

  /** scheduleBasedOnSort: fewest slots, then highest contribution; red. */
  const SortStrategy := Strategy(FewestSlotsThenContribution, None, "#FFAAA5")
  /** scheduleBasedOnLimitedAvailability: fewest slots; yellow. */
  const LimitedStrategy := Strategy(FewestSlots, None, "#FFFFBA")
  /** scheduleAllSlots: first-seen order; green. */
  const AllSlotsStrategy := Strategy(PoolOrder, None, "#BAFFC9")
  /** scheduleBasedOnSpeedups: fewest slots, then most speedups, top 48 only; purple. */
  const SpeedupStrategy := Strategy(FewestSlotsThenSpeedup, Some(48), "#E7AFED")

  datatype Outcome = Outcome(
    schedule: seq<Option<string>>,
    unassigned: seq<Player>,
    highlight: string,
    assignedCount: nat,
    poolSize: nat)

  /** The start-time column, normalised. */
  function Times(rows: seq<Row>): (r: seq<string>)
    ensures |r| == |rows| && forall i :: 0 <= i < |rows| ==> r[i] == NormalizeTime(rows[i].startTime)
  {
    NormalizeAll(seq(|rows|, i requires 0 <= i < |rows| => rows[i].startTime))
  }

  /** The players a strategy schedules: the ranked pool, cut to the cap. */
  function Considered(rows: seq<Row>, strategy: Strategy): seq<Player> {
    Cap(Ranked(PoolOf(rows, strategy.ranking), strategy.ranking), strategy.cap)
  }

  /** The slots with their candidates, in row order. */
  function Entries(rows: seq<Row>, strategy: Strategy): seq<SlotEntry> {
    SlotEntries(Times(rows), Considered(rows, strategy))
  }

  /** The slots in processing order. */
  function Order(rows: seq<Row>, strategy: Strategy): seq<SlotEntry> {
    SortBy(Entries(rows, strategy), ScarcityKey)
  }

  /** The players never assigned, in pool order (the highlighting loop). */
  function Unassigned(pool: seq<Player>, taken: set<string>): (r: seq<Player>)
    ensures forall p :: p in r <==> p in pool && p.name !in taken
  {
    if pool == [] then []
    else
      var last := pool[|pool| - 1];
      Unassigned(pool[..|pool| - 1], taken) + (if last.name in taken then [] else [last])
  }

  /**
    The order of the slots is a reordering of the slot rows, one entry per row, with the
    scarcest slots first and slots of equal scarcity in row order.
   */
  lemma OrderFacts(rows: seq<Row>, strategy: Strategy)
    ensures Positions(Order(rows, strategy), |rows|)
    ensures DistinctBy(Order(rows, strategy), Position)
    ensures forall k :: 0 <= k < |Order(rows, strategy)| ==>
      Order(rows, strategy)[k] == Entries(rows, strategy)[Order(rows, strategy)[k].position]
    ensures forall i :: 0 <= i < |rows| ==> Entries(rows, strategy)[i] in Order(rows, strategy)
    ensures |Entries(rows, strategy)| == |rows| && Reorders(Order(rows, strategy), Entries(rows, strategy), |rows|)
    ensures Sorted(Order(rows, strategy), ScarcityKey)
    ensures forall k :: Class(Order(rows, strategy), ScarcityKey, k) == Class(Entries(rows, strategy), ScarcityKey, k)
  {
    SortedSlotsReorder(Entries(rows, strategy), |rows|);
    SortBySorted(Entries(rows, strategy), ScarcityKey);
    forall k
      ensures Class(Order(rows, strategy), ScarcityKey, k) == Class(Entries(rows, strategy), ScarcityKey, k)
    {
      SortByStable(Entries(rows, strategy), ScarcityKey, k);
    }
  }

  /** Sorting slot entries numbered 0 to n - 1 by scarcity reorders them. */
  lemma SortedSlotsReorder(entries: seq<SlotEntry>, n: nat)
    requires |entries| == n && forall i :: 0 <= i < n ==> entries[i].position == i
    ensures Positions(SortBy(entries, ScarcityKey), n)
    ensures Reorders(SortBy(entries, ScarcityKey), entries, n)
  {
    var order := SortBy(entries, ScarcityKey);
    SortByPermutes(entries, ScarcityKey);
    assert DistinctBy(entries, Position) by {
      forall k, l | 0 <= k < l < |entries|
        ensures Position(entries[k]) != Position(entries[l])
      {
      }
    }
    SortByDistinct(entries, ScarcityKey, Position);
    forall k | 0 <= k < |order|
      ensures order[k].position < n && order[k] == entries[order[k].position]
    {
      assert order[k] in multiset(entries);
      var m :| 0 <= m < |entries| && entries[m] == order[k];
    }
    forall i | 0 <= i < n
      ensures entries[i] in order
    {
      assert entries[i] in multiset(order);
    }
  }

  /** The outcome of a strategy on a sheet window, as a function of the rows. */
  function Run(rows: seq<Row>, strategy: Strategy): Outcome {
    OrderFacts(rows, strategy);
    var state := Greedy(Order(rows, strategy), |rows|);
    var considered := Considered(rows, strategy);
    Outcome(state.schedule, Unassigned(considered, state.taken), strategy.highlight, |state.taken|, |considered|)
  }

  /** The highlighting loop over the pool. */
  method CollectUnassigned(pool: seq<Player>, assignedPlayers: set<string>) returns (unassigned: seq<Player>)
    ensures unassigned == Unassigned(pool, assignedPlayers)
  {
    unassigned := [];
    for i := 0 to |pool|
      invariant unassigned == Unassigned(pool[..i], assignedPlayers)
    {
      assert pool[..i + 1][..i] == pool[..i];
      if pool[i].name !in assignedPlayers {
        unassigned := unassigned + [pool[i]];
      }
    }
    assert pool[..|pool|] == pool;
  }

  /** One strategy over a sheet window: the four schedule* functions. */
  method RunStrategy(rows: seq<Row>, strategy: Strategy) returns (outcome: Outcome)
    ensures outcome == Run(rows, strategy)
  {
    var pool := BuildPool(rows, strategy.ranking);
    if strategy.ranking != PoolOrder {
      pool := StableSort(pool, PlayerKey);
    }
    var considered := Cap(pool, strategy.cap);
    var startTimes := Times(rows);
    var timeAvailability := SlotEntries(startTimes, considered);
    timeAvailability := StableSort(timeAvailability, ScarcityKey);
    OrderFacts(rows, strategy);
    var schedule, assignedPlayers := AssignSlots(timeAvailability, |rows|);
    var unassigned := CollectUnassigned(considered, assignedPlayers);
    outcome := Outcome(schedule, unassigned, strategy.highlight, |assignedPlayers|, |considered|);
  }

  /** Nobody is scheduled twice: two different slot rows never show the same name. */
  lemma RunInjective(rows: seq<Row>, strategy: Strategy)
    ensures forall i, j :: 0 <= i < j < |rows| && Run(rows, strategy).schedule[i].Some? ==>
      Run(rows, strategy).schedule[i] != Run(rows, strategy).schedule[j]
  {
    OrderFacts(rows, strategy);
    ScheduleInjective(Order(rows, strategy), Entries(rows, strategy), |rows|);
  }

  /** The names assigned by the first k slots of the processing order. */
  function AssignedBefore(rows: seq<Row>, strategy: Strategy, k: nat): set<string>
    requires k <= |Order(rows, strategy)|
  {
    OrderFacts(rows, strategy);
    Greedy(Order(rows, strategy)[..k], |rows|).taken
  }

  /**
    The priority rule: when row i receives considered player m, every considered player l
    ranked ahead of m who is free at row i's time was already assigned by an earlier slot of
    the order, so it has a slot too. Under the sorting strategies this puts the player with
    fewer slots, and on a tie the higher contribution or speedup, first.
   */
  lemma RunPicksFirst(rows: seq<Row>, strategy: Strategy, i: nat, l: nat, m: nat)
    requires i < |rows| && l < m < |Considered(rows, strategy)|
    requires Run(rows, strategy).schedule[i] == Some(Considered(rows, strategy)[m].name)
    requires Times(rows)[i] in Considered(rows, strategy)[l].slots
    ensures forall k :: 0 <= k < |Order(rows, strategy)| && Order(rows, strategy)[k].position == i ==>
      Considered(rows, strategy)[l].name in AssignedBefore(rows, strategy, k)
    ensures Considered(rows, strategy)[l].name in Scheduled(Run(rows, strategy).schedule)
  {
    var order := Order(rows, strategy);
    var entries := Entries(rows, strategy);
    OrderFacts(rows, strategy);
    ConsideredDistinct(rows, strategy);
    assert entries[i].available == Available(Considered(rows, strategy), Times(rows)[i], {});
    assert Run(rows, strategy).schedule == Greedy(order, |rows|).schedule;
    RowPriority(order, entries, |rows|, i, Considered(rows, strategy), Times(rows)[i], l, m);
  }

  /** Under a sorting strategy the considered players are in ranking order. */
  lemma ConsideredSorted(rows: seq<Row>, strategy: Strategy)
    ensures strategy.ranking != PoolOrder ==> Sorted(Considered(rows, strategy), PlayerKey)
  {
    var ranked := Ranked(PoolOf(rows, strategy.ranking), strategy.ranking);
    var considered := Considered(rows, strategy);
    RankedFacts(PoolOf(rows, strategy.ranking), strategy.ranking);
    assert forall k :: 0 <= k < |considered| ==> considered[k] == ranked[k];
  }

  /**
    Two considered players free at row i's time under a sorting strategy: if the one with
    fewer slots (or as many slots and a higher contribution or speedup) does not get row i,
    it gets another row.
   */
  lemma RunPrefersScarcer(rows: seq<Row>, strategy: Strategy, i: nat, l: nat, m: nat)
    requires strategy.ranking != PoolOrder
    requires i < |rows| && l < |Considered(rows, strategy)| && m < |Considered(rows, strategy)|
    requires Run(rows, strategy).schedule[i] == Some(Considered(rows, strategy)[m].name)
    requires Times(rows)[i] in Considered(rows, strategy)[l].slots
    requires Before(PlayerKey(Considered(rows, strategy)[l]), PlayerKey(Considered(rows, strategy)[m]))
    ensures Considered(rows, strategy)[l].name in Scheduled(Run(rows, strategy).schedule)
  {
    ConsideredSorted(rows, strategy);
    assert l < m;
    RunPicksFirst(rows, strategy, i, l, m);
  }

  /** A scheduled player is a considered player whose slot list includes the row's time. */
  lemma RunEligible(rows: seq<Row>, strategy: Strategy, i: nat) returns (p: Player)
    requires i < |rows| && Run(rows, strategy).schedule[i].Some?
    ensures p in Considered(rows, strategy) && Times(rows)[i] in p.slots
    ensures Run(rows, strategy).schedule[i] == Some(p.name)
  {
    OrderFacts(rows, strategy);
    p := ScheduleEligible(Order(rows, strategy), Entries(rows, strategy), |rows|, i);
  }

  /**
    A slot row is left blank only when every considered player whose slot list includes its
    time already has a slot.
   */
  lemma RunExhausted(rows: seq<Row>, strategy: Strategy, i: nat)
    requires i < |rows| && Run(rows, strategy).schedule[i].None?
    ensures forall p :: p in Considered(rows, strategy) && Times(rows)[i] in p.slots ==>
      p.name in Scheduled(Run(rows, strategy).schedule)
  {
    OrderFacts(rows, strategy);
    ScheduleExhausted(Order(rows, strategy), Entries(rows, strategy), |rows|, i);
  }

  /** The highlighted players are exactly the considered players without a slot, and the
      logged count is the number of names in the schedule. */
  lemma RunUnassigned(rows: seq<Row>, strategy: Strategy)
    ensures forall p :: p in Run(rows, strategy).unassigned <==>
      p in Considered(rows, strategy) && p.name !in Scheduled(Run(rows, strategy).schedule)
    ensures Run(rows, strategy).assignedCount == |Scheduled(Run(rows, strategy).schedule)|
    ensures Run(rows, strategy).assignedCount <= |Considered(rows, strategy)|
    ensures Run(rows, strategy).assignedCount <= |rows|
  {
    OrderFacts(rows, strategy);
    TakenScheduled(Order(rows, strategy), Entries(rows, strategy), |rows|);
    var schedule := Run(rows, strategy).schedule;
    ScheduledBound(schedule);
    RunCap(rows, strategy);
    ConsideredDistinct(rows, strategy);
    NamesCard(Considered(rows, strategy));
    SubsetCard(Scheduled(schedule), Names(Considered(rows, strategy)));
  }

  /** The considered players have distinct names: ranking and capping keep the pool's. */
  lemma ConsideredDistinct(rows: seq<Row>, strategy: Strategy)
    ensures DistinctBy(Considered(rows, strategy), PlayerName)
  {
    var pool := PoolOf(rows, strategy.ranking);
    var ranked := Ranked(pool, strategy.ranking);
    var considered := Considered(rows, strategy);
    PoolDistinct(rows, strategy.ranking);
    RankedFacts(pool, strategy.ranking);
    assert forall k :: 0 <= k < |considered| ==> considered[k] == ranked[k];
  }

  /** A subset is no larger than its superset, and only as large when they are equal. */
  lemma SubsetCard(a: set<string>, b: set<string>)
    ensures a <= b ==> |a| <= |b|
    ensures a <= b && |a| == |b| ==> a == b
  {
    if a <= b {
      assert b == a + (b - a);
    }
  }

  /** With every considered player available at row i, a blank row i means all of them have
      a slot. */
  lemma BlankRowCoversAll(rows: seq<Row>, strategy: Strategy, i: nat)
    requires i < |rows|
    requires forall p :: p in Considered(rows, strategy) ==> Times(rows)[i] in p.slots
    ensures Run(rows, strategy).schedule[i].None? ==>
      Names(Considered(rows, strategy)) <= Scheduled(Run(rows, strategy).schedule)
  {
    var considered := Considered(rows, strategy);
    if Run(rows, strategy).schedule[i].None? {
      RunExhausted(rows, strategy, i);
      forall x | x in Names(considered)
        ensures x in Scheduled(Run(rows, strategy).schedule)
      {
        var k :| 0 <= k < |considered| && considered[k].name == x;
        assert considered[k] in considered;
      }
    }
  }

  /** Only considered players are scheduled: under a cap, only the first `cap` players of the
      ranked pool can be scheduled or highlighted. */
  lemma RunCap(rows: seq<Row>, strategy: Strategy)
    ensures Scheduled(Run(rows, strategy).schedule) <= Names(Considered(rows, strategy))
    ensures strategy.cap.Some? ==> |Considered(rows, strategy)| <= strategy.cap.value
    ensures Considered(rows, strategy)
      == Ranked(PoolOf(rows, strategy.ranking), strategy.ranking)[..|Considered(rows, strategy)|]
    ensures forall p :: p in Run(rows, strategy).unassigned ==> p in Considered(rows, strategy)
  {
    var considered := Considered(rows, strategy);
    var schedule := Run(rows, strategy).schedule;
    forall x | x in Scheduled(schedule)
      ensures x in Names(considered)
    {
      var i :| 0 <= i < |schedule| && schedule[i].Some? && schedule[i].value == x;
      var p := RunEligible(rows, strategy, i);
      var m :| 0 <= m < |considered| && considered[m] == p;
    }
  }

  /**
    A column whose names all come from a set of as many names as it has cells, and in which
    any blank cell would mean that the whole set is written, has no blank cell.
   */
  lemma FilledByCount(schedule: seq<Option<string>>, names: set<string>)
    requires Scheduled(schedule) <= names && |names| == |schedule|
    requires forall i :: 0 <= i < |schedule| && schedule[i].None? ==> names <= Scheduled(schedule)
    ensures forall i :: 0 <= i < |schedule| ==> schedule[i].Some?
  {
    forall i | 0 <= i < |schedule|
      ensures schedule[i].Some?
    {
      ScheduledMissing(schedule, i);
      SubsetCard(names, Scheduled(schedule));
    }
  }

  /**
    When every cell of the column holds a name, no name twice, and there are as many cells as
    considered players, every considered player has a slot and none is highlighted.
   */
  lemma NoneHighlighted(considered: seq<Player>, schedule: seq<Option<string>>, unassigned: seq<Player>)
    requires |Names(considered)| == |schedule| && Scheduled(schedule) <= Names(considered)
    requires forall i :: 0 <= i < |schedule| ==> schedule[i].Some?
    requires forall i, j :: 0 <= i < j < |schedule| ==> schedule[i] != schedule[j]
    requires forall p :: p in unassigned <==> p in considered && p.name !in Scheduled(schedule)
    ensures unassigned == []
  {
    ScheduledFull(schedule);
    SubsetCard(Scheduled(schedule), Names(considered));
    forall p | p in considered
      ensures p.name in Scheduled(schedule)
    {
      var k :| 0 <= k < |considered| && considered[k] == p;
      assert p.name in Names(considered);
    }
    NoMemberEmpty(unassigned);
  }

  /** A sequence with no member is empty. */
  lemma NoMemberEmpty(s: seq<Player>)
    ensures (forall p :: p !in s) ==> s == []
  {
    if s != [] {
      assert s[0] in s;
    }
  }

  /**
    As many considered players as slot rows, each available at every row's time: every row
    gets a player and nobody is left highlighted.
   */
  lemma RunFillsAll(rows: seq<Row>, strategy: Strategy)
    requires |Considered(rows, strategy)| == |rows|
    requires forall p, i :: p in Considered(rows, strategy) && 0 <= i < |rows| ==> Times(rows)[i] in p.slots
    ensures forall i :: 0 <= i < |rows| ==> Run(rows, strategy).schedule[i].Some?
    ensures Run(rows, strategy).unassigned == []
  {
    var considered := Considered(rows, strategy);
    var outcome := Run(rows, strategy);
    var schedule := outcome.schedule;
    ConsideredDistinct(rows, strategy);
    NamesCard(considered);
    RunCap(rows, strategy);
    forall i | 0 <= i < |rows| && schedule[i].None?
      ensures Names(considered) <= Scheduled(schedule)
    {
      BlankRowCoversAll(rows, strategy, i);
    }
    FilledByCount(schedule, Names(considered));
    RunInjective(rows, strategy);
    RunUnassigned(rows, strategy);
    NoneHighlighted(considered, schedule, outcome.unassigned);
  }

  /** A sheet row whose cells are all empty, as getValues reads it below the data. */
  const BlankRow := Row("", "", "", Blank, Blank)

  /** The first n rows from row 7 down, blank where the sheet has no data. */
  function Window(sheet: seq<Row>, n: nat): (r: seq<Row>)
    ensures |r| == n
    ensures forall i :: 0 <= i < n ==> r[i] == if i < |sheet| then sheet[i] else BlankRow
  {
    seq(n, i requires 0 <= i < n => if i < |sheet| then sheet[i] else BlankRow)
  }

  /** Column B of some rows. */
  function NameColumn(rows: seq<Row>): (r: seq<string>)
    ensures |r| == |rows| && forall i :: 0 <= i < |rows| ==> r[i] == rows[i].name
  {
    seq(|rows|, i requires 0 <= i < |rows| => rows[i].name)
  }

  /** Everything Schedule() produces: the four strategies' outcomes and the duplicate flags. */
  datatype Results = Results(sorted: Outcome, limited: Outcome, allSlots: Outcome, speedups: Outcome, duplicates: seq<bool>)

  /**
    Schedule(): the three fixed-range strategies over rows 7 to 54, the speedup strategy over
    every row down to the last one with data, then the duplicate check over rows 7 to 107.
    `sheet` holds rows 7 to the sheet's last row.
   */
  method ScheduleAll(sheet: seq<Row>) returns (results: Results)
    ensures results.sorted == Run(Window(sheet, 48), SortStrategy)
    ensures results.limited == Run(Window(sheet, 48), LimitedStrategy)
    ensures results.allSlots == Run(Window(sheet, 48), AllSlotsStrategy)
    ensures results.speedups == Run(sheet, SpeedupStrategy)
    ensures |results.duplicates| == 101
    ensures forall i :: 0 <= i < 101 ==> (results.duplicates[i] <==> Duplicated(NameColumn(Window(sheet, 101)), i))
  {
    var window := Window(sheet, 48);
    var sorted := RunStrategy(window, SortStrategy);
    var limited := RunStrategy(window, LimitedStrategy);
    var allSlots := RunStrategy(window, AllSlotsStrategy);
    var speedups := RunStrategy(sheet, SpeedupStrategy);
    var duplicates := HighlightDuplicateNames(NameColumn(Window(sheet, 101)));
    results := Results(sorted, limited, allSlots, speedups, duplicates);
  }

  /**
    The pool builder and the duplicate check agree: a named row the pool skips, because an
    earlier row carries its name, is a row the duplicate check greys out.
   */
  lemma SkippedRowIsDuplicate(rows: seq<Row>, j: nat)
    requires j < |rows| && rows[j].name != "" && !FirstOccurrence(rows, j)
    ensures Duplicated(NameColumn(rows), j)
  {
    var names := NameColumn(rows);
    var i :| 0 <= i < j && rows[i].name == rows[j].name;
    assert names[i] == names[j];
    DuplicatedIffOther(names, j);
  }

  /**
    Conversely, when the first row with a name is duplicated, a later row carries the same name,
    and that row is skipped by the pool builder.
   */
  lemma DuplicateOfFirstIsSkipped(rows: seq<Row>, m: nat) returns (j: nat)
    requires m < |rows| && FirstOccurrence(rows, m) && Duplicated(NameColumn(rows), m)
    ensures m < j < |rows|
    ensures rows[j].name == rows[m].name && !FirstOccurrence(rows, j)
  {
    var names := NameColumn(rows);
    DuplicatedIffOther(names, m);
    var other :| 0 <= other < |names| && other != m && names[other] == names[m];
    j := other;
  }
}
