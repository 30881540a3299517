/**
  The player pool of the scheduler (ScheduleOld.js): the sheet rows are read top to bottom, a
  row with an empty name or with a name already seen is skipped, and every other row becomes a
  player carrying its first row index, its slot list and the metric its strategy ranks by.
 */
module Pool {
  import opened Options
  import opened Cells
  import opened Sorting
  import opened Slots

  /** One sheet row as the scheduler reads it: name (column B), cleaned availability (K),
      start time of the slot on that row (L), contribution (F) and speedups (G). */
  datatype Row = Row(name: string, availability: string, startTime: string, contribution: Cell, speedup: Cell)

  /** How a strategy orders its pool before assigning. */
  datatype Ranking =
    | PoolOrder                      // scheduleAllSlots: first-seen order
    | FewestSlots                    // scheduleBasedOnLimitedAvailability
    | FewestSlotsThenContribution    // scheduleBasedOnSort
    | FewestSlotsThenSpeedup         // scheduleBasedOnSpeedups

  datatype Player = Player(name: string, index: nat, slots: seq<string>, metric: int)

  /** The tie-breaking metric: `Number(contribution) || 0`, `parseFloat(speedup) || 0`, or none. */
  function Metric(row: Row, ranking: Ranking): int {
    match ranking
    case FewestSlotsThenContribution => NumericValue(row.contribution)
    case FewestSlotsThenSpeedup => NumericValue(row.speedup)
    case _ => 0
  }

  function PlayerName(p: Player): string {
    p.name
  }

  /** The names in a pool (the `seenNames` set). */
  function Names(pool: seq<Player>): set<string> {
    set k | 0 <= k < |pool| :: pool[k].name
  }

  /** The player a row becomes. */
  function PlayerOf(rows: seq<Row>, i: nat, ranking: Ranking): Player
    requires i < |rows|
  {
    Player(rows[i].name, i, SlotsOf(rows[i].availability), Metric(rows[i], ranking))
  }

  /** The pool built from rows, one row at a time. */
  function PoolOf(rows: seq<Row>, ranking: Ranking): seq<Player> {
    if rows == [] then []
    else
      var pool := PoolOf(rows[..|rows| - 1], ranking);
      var name := rows[|rows| - 1].name;
      if name == "" || name in Names(pool) then pool
      else pool + [PlayerOf(rows, |rows| - 1, ranking)]
  }

  lemma NamesSnoc(pool: seq<Player>, p: Player)
    ensures Names(pool + [p]) == Names(pool) + {p.name}
  {
    var q := pool + [p];
    assert q[|pool|] == p;
    forall x | x in Names(q)
      ensures x in Names(pool) + {p.name}
    {
      var k :| 0 <= k < |q| && q[k].name == x;
      if k < |pool| {
        assert q[k] == pool[k];
      }
    }
    forall x | x in Names(pool)
      ensures x in Names(q)
    {
      var k :| 0 <= k < |pool| && pool[k].name == x;
      assert q[k] == pool[k];
    }
  }

  /** The pool builder's loop, with the set of names seen so far. */
  method BuildPool(rows: seq<Row>, ranking: Ranking) returns (pool: seq<Player>)
    ensures pool == PoolOf(rows, ranking)
  {
    var seen: set<string> := {};
    pool := [];
    for i := 0 to |rows|
      invariant pool == PoolOf(rows[..i], ranking)
      invariant seen == Names(pool)
    {
      var prefix := rows[..i + 1];
      assert prefix[..i] == rows[..i] && prefix[i] == rows[i];
      var name := rows[i].name;
      if name != "" && name !in seen {
        NamesSnoc(pool, PlayerOf(rows, i, ranking));
        seen := seen + {name};
        pool := pool + [Player(name, i, SlotsOf(rows[i].availability), Metric(rows[i], ranking))];
      }
    }
    assert rows[..|rows|] == rows;
  }

  /** Row j is the first row carrying its name. */
  predicate FirstOccurrence(rows: seq<Row>, j: nat)
    requires j < |rows|
  {
    forall i :: 0 <= i < j ==> rows[i].name != rows[j].name
  }

  lemma PlayerOfPrefix(rows: seq<Row>, m: nat, i: nat, ranking: Ranking)
    requires i < m <= |rows|
    ensures PlayerOf(rows[..m], i, ranking) == PlayerOf(rows, i, ranking)
  {
    assert rows[..m][i] == rows[i];
  }

  /** p is the player of row p.index, and that row has a name. */
  predicate IsEntry(rows: seq<Row>, p: Player, ranking: Ranking) {
    p.index < |rows| && p == PlayerOf(rows, p.index, ranking) && p.name != ""
  }

  /** Every player is the player of its own row, has a non-empty name, and players come in
      row order. */
  lemma {:induction false} PoolEntries(rows: seq<Row>, ranking: Ranking)
    ensures forall k :: 0 <= k < |PoolOf(rows, ranking)| ==> IsEntry(rows, PoolOf(rows, ranking)[k], ranking)
    ensures forall k, l :: 0 <= k < l < |PoolOf(rows, ranking)| ==>
      PoolOf(rows, ranking)[k].index < PoolOf(rows, ranking)[l].index
    decreases |rows|
  {
    if rows != [] {
      var n := |rows| - 1;
      var pool := PoolOf(rows[..n], ranking);
      PoolEntries(rows[..n], ranking);
      forall k | 0 <= k < |pool|
        ensures IsEntry(rows, pool[k], ranking)
      {
        assert IsEntry(rows[..n], pool[k], ranking);
        PlayerOfPrefix(rows, n, pool[k].index, ranking);
      }
    }
  }

  /** Every non-empty name of the rows is in the pool. */
  lemma {:induction false} PoolComplete(rows: seq<Row>, ranking: Ranking)
    ensures forall j :: 0 <= j < |rows| && rows[j].name != "" ==> rows[j].name in Names(PoolOf(rows, ranking))
    decreases |rows|
  {
    if rows != [] {
      var n := |rows| - 1;
      var pool := PoolOf(rows[..n], ranking);
      PoolComplete(rows[..n], ranking);
      var whole := PoolOf(rows, ranking);
      assert Names(pool) <= Names(whole) by {
        if whole != pool {
          NamesSnoc(pool, PlayerOf(rows, n, ranking));
        }
      }
      forall j | 0 <= j < |rows| && rows[j].name != ""
        ensures rows[j].name in Names(whole)
      {
        if j < n {
          assert rows[..n][j] == rows[j];
        } else if whole != pool {
          NamesSnoc(pool, PlayerOf(rows, n, ranking));
        }
      }
    }
  }

  /** Each player's index is the first row carrying its name. */
  lemma {:induction false} PoolFirstOccurrence(rows: seq<Row>, ranking: Ranking)
    ensures forall k :: 0 <= k < |PoolOf(rows, ranking)| ==>
      PoolOf(rows, ranking)[k].index < |rows| && FirstOccurrence(rows, PoolOf(rows, ranking)[k].index)
    decreases |rows|
  {
    if rows != [] {
      var n := |rows| - 1;
      var init := rows[..n];
      var pool := PoolOf(init, ranking);
      PoolFirstOccurrence(init, ranking);
      PoolEntries(init, ranking);
      forall k | 0 <= k < |pool|
        ensures FirstOccurrence(rows, pool[k].index)
      {
        assert IsEntry(init, pool[k], ranking);
        assert FirstOccurrence(init, pool[k].index);
        forall i | 0 <= i < pool[k].index
          ensures rows[i].name != rows[pool[k].index].name
        {
          assert init[i] == rows[i] && init[pool[k].index] == rows[pool[k].index];
        }
      }
      if PoolOf(rows, ranking) != pool {
        PoolComplete(init, ranking);
        forall i | 0 <= i < n
          ensures rows[i].name != rows[n].name
        {
          assert init[i] == rows[i];
        }
      }
    }
  }

  /** The pool keeps one player per name: no two players share a name. */
  lemma PoolDistinct(rows: seq<Row>, ranking: Ranking)
    ensures DistinctBy(PoolOf(rows, ranking), PlayerName)
  {
    var pool := PoolOf(rows, ranking);
    PoolEntries(rows, ranking);
    PoolFirstOccurrence(rows, ranking);
    forall k, l | 0 <= k < l < |pool|
      ensures PlayerName(pool[k]) != PlayerName(pool[l])
    {
      assert IsEntry(rows, pool[k], ranking) && IsEntry(rows, pool[l], ranking);
      assert pool[k].index < pool[l].index;
      assert FirstOccurrence(rows, pool[l].index);
    }
  }

  /** Players with distinct names carry as many names as there are players. */
  lemma {:induction false} NamesCard(pool: seq<Player>)
    requires DistinctBy(pool, PlayerName)
    ensures |Names(pool)| == |pool|
    decreases |pool|
  {
    if pool != [] {
      var n := |pool| - 1;
      NamesLast(pool);
      NamesCard(pool[..n]);
    }
  }

  /**
    The names of a non-empty pool are those of all but its last player plus the last one's,
    which, when the names are distinct, is new.
   */
  lemma NamesLast(pool: seq<Player>)
    requires pool != []
    ensures Names(pool) == Names(pool[..|pool| - 1]) + {pool[|pool| - 1].name}
    ensures DistinctBy(pool, PlayerName) ==>
      DistinctBy(pool[..|pool| - 1], PlayerName) && pool[|pool| - 1].name !in Names(pool[..|pool| - 1])
  {
    var n := |pool| - 1;
    var init := pool[..n];
    forall x | x in Names(pool)
      ensures x in Names(init) + {pool[n].name}
    {
      var k :| 0 <= k < |pool| && pool[k].name == x;
      if k < n {
        assert init[k].name == x;
      }
    }
    forall x | x in Names(init)
      ensures x in Names(pool) && (DistinctBy(pool, PlayerName) ==> x != pool[n].name)
    {
      var k :| 0 <= k < n && init[k].name == x;
      assert pool[k].name == x;
    }
  }

  /** The order key of a ranked pool: fewest slots first, then the highest metric. */
  function PlayerKey(p: Player): Key {
    (|p.slots|, -p.metric)
  }

  /** `playerPool.sort(...)`, or the pool as built for the first-seen strategy. */
  function Ranked(pool: seq<Player>, ranking: Ranking): seq<Player> {
    if ranking == PoolOrder then pool else SortBy(pool, PlayerKey)
  }

  /**
    Ranking permutes the pool and keeps names distinct; a sorting strategy orders it by
    slot count, then by descending metric, with equal keys in first-seen order.
   */
  lemma RankedFacts(pool: seq<Player>, ranking: Ranking)
    ensures multiset(Ranked(pool, ranking)) == multiset(pool)
    ensures DistinctBy(pool, PlayerName) ==> DistinctBy(Ranked(pool, ranking), PlayerName)
    ensures ranking != PoolOrder ==> Sorted(Ranked(pool, ranking), PlayerKey)
    ensures forall k :: Class(Ranked(pool, ranking), PlayerKey, k) == Class(pool, PlayerKey, k)
  {
    if ranking != PoolOrder {
      SortByPermutes(pool, PlayerKey);
      SortBySorted(pool, PlayerKey);
      forall k
        ensures Class(Ranked(pool, ranking), PlayerKey, k) == Class(pool, PlayerKey, k)
      {
        SortByStable(pool, PlayerKey, k);
      }
      if DistinctBy(pool, PlayerName) {
        SortByDistinct(pool, PlayerKey, PlayerName);
      }
    }
  }

  /** `slice(0, cap)`: the first cap players, or all of them when there are fewer. */
  function Cap(ranked: seq<Player>, cap: Option<nat>): (r: seq<Player>)
    ensures cap.Some? ==> |r| == if |ranked| < cap.value then |ranked| else cap.value
    ensures cap.None? ==> r == ranked
    ensures r == ranked[..|r|]
  {
    if cap.Some? && cap.value < |ranked| then ranked[..cap.value] else ranked
  }
}
