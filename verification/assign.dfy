/**
  Slot scarcity and the greedy assignment loop shared by the four strategies (ScheduleOld.js).

  Every slot label gets the list of players whose slot list includes it, filtered once before
  any assignment; the slots are processed in ascending order of that count; each slot takes the
  first player of its list whose name is not assigned yet (`find`), and the name is added to
  `assignedPlayers`.
 */
module Assignment {
  import opened Options
  import opened Sorting
  import opened Pool

  /** `playerPool.filter(p => p.slots.includes(time) && !assignedPlayers.has(p.name))`. */
  function Available(players: seq<Player>, time: string, assignedPlayers: set<string>): (r: seq<Player>)
    ensures |r| <= |players|
    ensures forall p :: p in r <==> p in players && time in p.slots && p.name !in assignedPlayers
  {
    if players == [] then []
    else
      var p := players[0];
      (if time in p.slots && p.name !in assignedPlayers then [p] else []) + Available(players[1..], time, assignedPlayers)
  }

  /** Of any two elements of r, the earlier one comes from an earlier position of players. */
  ghost predicate KeepsOrder(r: seq<Player>, players: seq<Player>) {
    forall x, y :: 0 <= x < y < |r| ==> OrderedPair(r, players, x, y)
  }

  /** Elements x and y of r stand at positions p < q of players. */
  ghost predicate OrderedPair(r: seq<Player>, players: seq<Player>, x: nat, y: nat)
    requires x < |r| && y < |r|
  {
    exists p, q :: 0 <= p < q < |players| && players[p] == r[x] && players[q] == r[y]
  }

  /** The filter keeps the players' order: the candidates are listed in pool order. */
  lemma {:induction false} AvailableInOrder(players: seq<Player>, time: string, assignedPlayers: set<string>)
    ensures KeepsOrder(Available(players, time, assignedPlayers), players)
    decreases |players|
  {
    if players != [] {
      var rest := players[1..];
      AvailableInOrder(rest, time, assignedPlayers);
      var keep := time in players[0].slots && players[0].name !in assignedPlayers;
      var head := if keep then [players[0]] else [];
      var tail := Available(rest, time, assignedPlayers);
      assert Available(players, time, assignedPlayers) == head + tail;
      assert players == [players[0]] + rest;
      OrderCons(players[0], rest, head, tail, players, Available(players, time, assignedPlayers));
    }
  }

  /** Putting the first player, or nothing, in front of an order-keeping selection of the rest. */
  lemma OrderCons(first: Player, rest: seq<Player>, head: seq<Player>, tail: seq<Player>, players: seq<Player>, r: seq<Player>)
    requires head == [] || head == [first]
    requires forall t :: t in tail ==> t in rest
    requires KeepsOrder(tail, rest)
    requires players == [first] + rest && r == head + tail
    ensures KeepsOrder(r, players)
  {
    forall x, y | 0 <= x < y < |r|
      ensures OrderedPair(r, players, x, y)
    {
      var p, q := OrderConsAt(first, rest, head, tail, x, y);
    }
  }

  /** The positions in the whole pool of two elements of the extended selection. */
  lemma OrderConsAt(first: Player, rest: seq<Player>, head: seq<Player>, tail: seq<Player>, x: nat, y: nat)
    returns (p: nat, q: nat)
    requires head == [] || head == [first]
    requires forall t :: t in tail ==> t in rest
    requires KeepsOrder(tail, rest)
    requires x < y < |head + tail|
    ensures p < q < |[first] + rest| && ([first] + rest)[p] == (head + tail)[x] && ([first] + rest)[q] == (head + tail)[y]
  {
    var d := |head|;
    assert (head + tail)[y] == tail[y - d];
    if x < d {
      assert tail[y - d] in tail;
      var q' :| 0 <= q' < |rest| && rest[q'] == tail[y - d];
      p, q := 0, q' + 1;
    } else {
      assert (head + tail)[x] == tail[x - d];
      assert OrderedPair(tail, rest, x - d, y - d);
      var p', q' :| 0 <= p' < q' < |rest| && rest[p'] == tail[x - d] && rest[q'] == tail[y - d];
      p, q := p' + 1, q' + 1;
    }
  }

  /**
    In the candidate list of a time, a player ranked ahead of the one at position f comes
    before it: so when every candidate ahead of position f is taken, so is that player.
   */
  lemma CandidatesRanked(players: seq<Player>, time: string, taken: set<string>, l: nat, m: nat, f: nat)
    requires DistinctBy(players, PlayerName) && l < m < |players| && time in players[l].slots
    requires f < |Available(players, time, {})| && Available(players, time, {})[f].name == players[m].name
    requires forall g :: 0 <= g < f ==> Available(players, time, {})[g].name in taken
    ensures players[l].name in taken
  {
    var cands := Available(players, time, {});
    assert cands[f] in cands;
    var x :| 0 <= x < |players| && players[x] == cands[f];
    assert PlayerName(players[x]) == PlayerName(players[m]);
    assert players[l] in cands;
    var a :| 0 <= a < |cands| && cands[a] == players[l];
    AvailableInOrder(players, time, {});
    EarlierCandidate(players, cands, l, x, a, f);
  }

  /** Of two candidates from a pool with distinct names, the one ranked first is listed first. */
  lemma EarlierCandidate(players: seq<Player>, r: seq<Player>, l: nat, m: nat, a: nat, f: nat)
    requires DistinctBy(players, PlayerName) && KeepsOrder(r, players)
    requires l < m < |players| && a < |r| && f < |r| && r[a] == players[l] && r[f] == players[m]
    ensures a < f
  {
    assert PlayerName(players[l]) != PlayerName(players[m]);
    assert f < a ==> OrderedPair(r, players, f, a);
  }

  /** One element of `timeAvailability`: the slot's label, its row and its candidates. */
  datatype SlotEntry = SlotEntry(time: string, position: nat, available: seq<Player>)

  function Position(e: SlotEntry): nat {
    e.position
  }

  /** `startTimes.map(...)`: the entries of all slots, counted while nobody is assigned. */
  function SlotEntries(times: seq<string>, players: seq<Player>): (r: seq<SlotEntry>)
    ensures |r| == |times|
    ensures forall i :: 0 <= i < |times| ==> r[i] == SlotEntry(times[i], i, Available(players, times[i], {}))
  {
    seq(|times|, i requires 0 <= i < |times| => SlotEntry(times[i], i, Available(players, times[i], {})))
  }

  /** The slot order: fewest candidates first. */
  function ScarcityKey(e: SlotEntry): Key {
    (|e.available|, 0)
  }

  /** `availablePlayers.find(p => !assignedPlayers.has(p.name))`, as an index. */
  function FirstFree(cands: seq<Player>, taken: set<string>): (r: Option<nat>)
    ensures r.Some? ==> r.value < |cands| && cands[r.value].name !in taken
    ensures r.Some? ==> forall j :: 0 <= j < r.value ==> cands[j].name in taken
    ensures r.None? ==> forall j :: 0 <= j < |cands| ==> cands[j].name in taken
  {
    if cands == [] then None
    else if cands[0].name !in taken then Some(0)
    else
      match FirstFree(cands[1..], taken)
      case None => None
      case Some(i) => Some(i + 1)
  }

  /** The player a slot receives, if any. */
  function Pick(e: SlotEntry, taken: set<string>): Option<Player> {
    match FirstFree(e.available, taken)
    case None => None
    case Some(i) => Some(e.available[i])
  }

  function NameOf(pick: Option<Player>): Option<string> {
    if pick.Some? then Some(pick.value.name) else None
  }

  /** Every slot of the order has a row of the schedule. */
  predicate Positions(order: seq<SlotEntry>, n: nat) {
    forall k :: 0 <= k < |order| ==> order[k].position < n
  }

  /** The state after a prefix of the order: what each processed slot received, the schedule
      column (one cell per row), and `assignedPlayers`. */
  datatype State = State(picks: seq<Option<Player>>, schedule: seq<Option<string>>, taken: set<string>)

  /** The greedy assignment, one slot at a time in the given order. */
  function Greedy(order: seq<SlotEntry>, n: nat): (s: State)
    requires Positions(order, n)
    ensures |s.picks| == |order| && |s.schedule| == n
  {
    if order == [] then State([], seq(n, _ => None), {})
    else
      var prev := Greedy(order[..|order| - 1], n);
      var e := order[|order| - 1];
      var pick := Pick(e, prev.taken);
      if pick.Some? then
        State(prev.picks + [pick], prev.schedule[e.position := Some(pick.value.name)], prev.taken + {pick.value.name})
      else
        State(prev.picks + [None], prev.schedule, prev.taken)
  }

  /** The assignment loop `for (const slot of timeAvailability)`. */
  method AssignSlots(order: seq<SlotEntry>, n: nat) returns (schedule: seq<Option<string>>, assignedPlayers: set<string>)
    requires Positions(order, n)
    ensures schedule == Greedy(order, n).schedule
    ensures assignedPlayers == Greedy(order, n).taken
  {
    schedule := seq(n, _ => None);
    assignedPlayers := {};
    for k := 0 to |order|
      invariant schedule == Greedy(order[..k], n).schedule
      invariant assignedPlayers == Greedy(order[..k], n).taken
    {
      var slot := order[k];
      assert order[..k + 1][..k] == order[..k];
      var found := FirstFree(slot.available, assignedPlayers);
      if found.Some? {
        var player := slot.available[found.value];
        schedule := schedule[slot.position := Some(player.name)];
        assignedPlayers := assignedPlayers + {player.name};
      }
    }
    assert order[..|order|] == order;
  }

  /** The names that received a slot. */
  function Picked(picks: seq<Option<Player>>): set<string> {
    set k | 0 <= k < |picks| && picks[k].Some? :: picks[k].value.name
  }

  lemma PickedSnoc(picks: seq<Option<Player>>, pick: Option<Player>)
    ensures Picked(picks + [pick]) == Picked(picks) + (if pick.Some? then {pick.value.name} else {})
  {
    var q := picks + [pick];
    assert q[|picks|] == pick;
    forall x | x in Picked(q)
      ensures x in Picked(picks) + (if pick.Some? then {pick.value.name} else {})
    {
      var k :| 0 <= k < |q| && q[k].Some? && q[k].value.name == x;
      if k < |picks| {
        assert q[k] == picks[k];
      }
    }
    forall x | x in Picked(picks)
      ensures x in Picked(q)
    {
      var k :| 0 <= k < |picks| && picks[k].Some? && picks[k].value.name == x;
      assert q[k] == picks[k];
    }
  }

  /** `assignedPlayers` holds exactly the names that received a slot. */
  lemma {:induction false} GreedyTaken(order: seq<SlotEntry>, n: nat)
    requires Positions(order, n)
    ensures Greedy(order, n).taken == Picked(Greedy(order, n).picks)
    decreases |order|
  {
    if order != [] {
      var prev := Greedy(order[..|order| - 1], n);
      GreedyTaken(order[..|order| - 1], n);
      PickedSnoc(prev.picks, Pick(order[|order| - 1], prev.taken));
    }
  }

  /** Running a prefix of the order gives a prefix of the picks, and fewer assigned names. */
  lemma {:induction false} GreedyPrefix(order: seq<SlotEntry>, n: nat, k: nat)
    requires Positions(order, n) && k <= |order|
    ensures Positions(order[..k], n)
    ensures Greedy(order[..k], n).picks == Greedy(order, n).picks[..k]
    ensures Greedy(order[..k], n).taken <= Greedy(order, n).taken
    decreases |order|
  {
    if k < |order| {
      var m := |order| - 1;
      assert order[..m][..k] == order[..k];
      GreedyPrefix(order[..m], n, k);
      var prev := Greedy(order[..m], n);
      assert Greedy(order, n).picks[..m] == prev.picks;
    } else {
      assert order[..k] == order;
    }
  }

  /** Slot k of the order receives the first candidate not assigned by the slots before it. */
  lemma GreedyStep(order: seq<SlotEntry>, n: nat, k: nat)
    requires Positions(order, n) && k < |order|
    ensures Positions(order[..k], n)
    ensures Greedy(order, n).picks[k] == Pick(order[k], Greedy(order[..k], n).taken)
  {
    GreedyPrefix(order, n, k + 1);
    var pre := order[..k + 1];
    assert pre[..k] == order[..k] && pre[k] == order[k];
    assert Greedy(pre, n).picks[k] == Pick(order[k], Greedy(order[..k], n).taken);
  }

  /** Who gets a slot: a candidate of that slot not assigned before it, and every candidate
      ahead of it in the list was. A slot stays empty only when all its candidates were taken. */
  lemma GreedyPicks(order: seq<SlotEntry>, n: nat, k: nat)
    requires Positions(order, n) && k < |order|
    ensures Positions(order[..k], n)
    ensures var before := Greedy(order[..k], n).taken; var pick := Greedy(order, n).picks[k];
      && (pick.Some? ==> pick.value in order[k].available && pick.value.name !in before)
      && (pick.None? ==> forall p :: p in order[k].available ==> p.name in before)
    ensures var before := Greedy(order[..k], n).taken; var pick := Greedy(order, n).picks[k];
      var cands := order[k].available;
      pick.Some? ==> exists f :: (0 <= f < |cands| && cands[f] == pick.value &&
        forall g :: 0 <= g < f ==> cands[g].name in before)
  {
    GreedyStep(order, n, k);
    var before := Greedy(order[..k], n).taken;
    var found := FirstFree(order[k].available, before);
    if found.Some? {
      assert order[k].available[found.value] == Greedy(order, n).picks[k].value;
    }
    if found.None? {
      forall p | p in order[k].available
        ensures p.name in before
      {
        var j :| 0 <= j < |order[k].available| && order[k].available[j] == p;
      }
    }
  }

  /** No player receives two slots. */
  lemma GreedyInjective(order: seq<SlotEntry>, n: nat)
    requires Positions(order, n)
    ensures forall k, l :: 0 <= k < l < |order| ==>
      var picks := Greedy(order, n).picks;
      (picks[k].Some? && picks[l].Some? ==> picks[k].value.name != picks[l].value.name)
  {
    var picks := Greedy(order, n).picks;
    forall k, l | 0 <= k < l < |order| && picks[k].Some? && picks[l].Some?
      ensures picks[k].value.name != picks[l].value.name
    {
      GreedyPicks(order, n, l);
      GreedyPrefix(order, n, l);
      GreedyTaken(order[..l], n);
      var before := Greedy(order[..l], n);
      assert before.picks[k] == picks[k];
      assert picks[k].value.name in Picked(before.picks);
    }
  }

  /** Where the names land: the row of slot k shows what slot k received, and a row no slot of
      the order points at stays empty. */
  lemma {:induction false} GreedySchedule(order: seq<SlotEntry>, n: nat)
    requires Positions(order, n) && DistinctBy(order, Position)
    ensures forall k :: 0 <= k < |order| ==>
      Greedy(order, n).schedule[order[k].position] == NameOf(Greedy(order, n).picks[k])
    ensures forall i :: 0 <= i < n && (forall k :: 0 <= k < |order| ==> order[k].position != i) ==>
      Greedy(order, n).schedule[i] == None
    decreases |order|
  {
    if order != [] {
      var m := |order| - 1;
      var init := order[..m];
      assert DistinctBy(init, Position) by {
        forall k, l | 0 <= k < l < m
          ensures Position(init[k]) != Position(init[l])
        {
          assert init[k] == order[k] && init[l] == order[l];
        }
      }
      GreedySchedule(init, n);
      var prev := Greedy(init, n);
      var s := Greedy(order, n);
      forall k | 0 <= k < |order|
        ensures s.schedule[order[k].position] == NameOf(s.picks[k])
      {
        if k < m {
          assert init[k] == order[k];
          assert s.picks[k] == prev.picks[k];
          assert Position(order[k]) != Position(order[m]);
        }
      }
      forall i | 0 <= i < n && (forall k :: 0 <= k < |order| ==> order[k].position != i)
        ensures s.schedule[i] == None
      {
        forall k | 0 <= k < m
          ensures init[k].position != i
        {
          assert init[k] == order[k];
        }
      }
    }
  }

  /** The names written into the schedule column. */
  function Scheduled(schedule: seq<Option<string>>): set<string> {
    set i | 0 <= i < |schedule| && schedule[i].Some? :: schedule[i].value
  }

  /** Appending a cell adds its name, if any, to the scheduled names. */
  lemma ScheduledSnoc(schedule: seq<Option<string>>)
    requires schedule != []
    ensures Scheduled(schedule) == Scheduled(schedule[..|schedule| - 1])
      + (if schedule[|schedule| - 1].Some? then {schedule[|schedule| - 1].value} else {})
  {
    var init := schedule[..|schedule| - 1];
    forall x | x in Scheduled(init)
      ensures x in Scheduled(schedule)
    {
      var i :| 0 <= i < |init| && init[i].Some? && init[i].value == x;
      assert schedule[i] == init[i];
    }
  }

  /** A column of n cells holds at most n names. */
  lemma {:induction false} ScheduledBound(schedule: seq<Option<string>>)
    ensures |Scheduled(schedule)| <= |schedule|
    decreases |schedule|
  {
    if schedule != [] {
      ScheduledBound(schedule[..|schedule| - 1]);
      ScheduledSnoc(schedule);
    }
  }

  /** A column with a blank cell holds fewer names than cells. */
  lemma {:induction false} ScheduledMissing(schedule: seq<Option<string>>, i: nat)
    requires i < |schedule|
    ensures schedule[i].None? ==> |Scheduled(schedule)| < |schedule|
    decreases |schedule|
  {
    var n := |schedule| - 1;
    var init := schedule[..n];
    ScheduledSnoc(schedule);
    if i < n {
      assert init[i] == schedule[i];
      ScheduledMissing(init, i);
    } else {
      ScheduledBound(init);
    }
  }

  /** A column whose cells all hold names, no name twice, holds as many names as cells. */
  lemma {:induction false} ScheduledFull(schedule: seq<Option<string>>)
    requires forall i :: 0 <= i < |schedule| ==> schedule[i].Some?
    requires forall i, j :: 0 <= i < j < |schedule| ==> schedule[i] != schedule[j]
    ensures |Scheduled(schedule)| == |schedule|
    decreases |schedule|
  {
    if schedule != [] {
      var n := |schedule| - 1;
      var init := schedule[..n];
      assert forall i :: 0 <= i < n ==> init[i] == schedule[i];
      ScheduledFull(init);
      ScheduledSnoc(schedule);
      forall x | x in Scheduled(init)
        ensures x != schedule[n].value
      {
        var i :| 0 <= i < n && init[i].Some? && init[i].value == x;
        assert schedule[i] != schedule[n];
      }
    }
  }

  /** order lists the slot entries, each exactly once, where entry i belongs to row i. */
  ghost predicate Reorders(order: seq<SlotEntry>, entries: seq<SlotEntry>, n: nat) {
    && |entries| == n
    && (forall i :: 0 <= i < n ==> entries[i].position == i)
    && (forall k :: 0 <= k < |order| ==> order[k].position < n && order[k] == entries[order[k].position])
    && (forall i :: 0 <= i < n ==> entries[i] in order)
    && DistinctBy(order, Position)
  }

  /** The slot of the order that fills row i. */
  lemma SlotOf(order: seq<SlotEntry>, entries: seq<SlotEntry>, n: nat, i: nat) returns (k: nat)
    requires Reorders(order, entries, n) && i < n
    ensures Positions(order, n)
    ensures k < |order| && order[k] == entries[i]
    ensures Greedy(order, n).schedule[i] == NameOf(Greedy(order, n).picks[k])
  {
    assert entries[i] in order;
    k :| 0 <= k < |order| && order[k] == entries[i];
    GreedySchedule(order, n);
  }

  /** The names assigned are exactly the names in the schedule column. */
  lemma TakenScheduled(order: seq<SlotEntry>, entries: seq<SlotEntry>, n: nat)
    requires Reorders(order, entries, n)
    ensures Positions(order, n)
    ensures Greedy(order, n).taken == Scheduled(Greedy(order, n).schedule)
  {
    var state := Greedy(order, n);
    GreedyTaken(order, n);
    GreedySchedule(order, n);
    forall x | x in state.taken
      ensures x in Scheduled(state.schedule)
    {
      var k :| 0 <= k < |state.picks| && state.picks[k].Some? && state.picks[k].value.name == x;
      assert state.schedule[order[k].position] == Some(x);
    }
    forall x | x in Scheduled(state.schedule)
      ensures x in state.taken
    {
      var i :| 0 <= i < |state.schedule| && state.schedule[i].Some? && state.schedule[i].value == x;
      var k := SlotOf(order, entries, n, i);
      assert state.picks[k].Some? && state.picks[k].value.name == x;
    }
  }

  /** Two different rows never show the same name. */
  lemma ScheduleInjective(order: seq<SlotEntry>, entries: seq<SlotEntry>, n: nat)
    requires Reorders(order, entries, n)
    ensures Positions(order, n)
    ensures forall i, j :: 0 <= i < j < n && Greedy(order, n).schedule[i].Some? ==>
      Greedy(order, n).schedule[i] != Greedy(order, n).schedule[j]
  {
    var state := Greedy(order, n);
    GreedyInjective(order, n);
    forall i, j | 0 <= i < j < n && state.schedule[i].Some?
      ensures state.schedule[i] != state.schedule[j]
    {
      var ki := SlotOf(order, entries, n, i);
      var kj := SlotOf(order, entries, n, j);
      assert ki != kj;
      if state.schedule[j].Some? {
        if ki < kj {
          assert state.picks[ki].value.name != state.picks[kj].value.name;
        } else {
          assert state.picks[kj].value.name != state.picks[ki].value.name;
        }
      }
    }
  }

  /** A name in row i belongs to a candidate of row i. */
  lemma ScheduleEligible(order: seq<SlotEntry>, entries: seq<SlotEntry>, n: nat, i: nat) returns (p: Player)
    requires Reorders(order, entries, n) && i < n
    ensures Positions(order, n)
    ensures Greedy(order, n).schedule[i].Some? ==>
      p in entries[i].available && Greedy(order, n).schedule[i] == Some(p.name)
  {
    var k := SlotOf(order, entries, n, i);
    var pick := Greedy(order, n).picks[k];
    GreedyPicks(order, n, k);
    if pick.Some? {
      p := pick.value;
    } else {
      p := Player("", 0, [], 0);
    }
  }

  /**
    The name in row i is the first of the row's candidates still unassigned when its slot k
    is processed: every candidate ahead of it was assigned by an earlier slot.
   */
  lemma SchedulePriority(order: seq<SlotEntry>, entries: seq<SlotEntry>, n: nat, i: nat) returns (k: nat)
    requires Reorders(order, entries, n) && i < n
    ensures Positions(order, n) && k < |order| && order[k] == entries[i] && Positions(order[..k], n)
    ensures forall l :: 0 <= l < |order| && order[l].position == i ==> l == k
    ensures var cands := entries[i].available; var cell := Greedy(order, n).schedule[i];
      cell.Some? ==> exists f :: (0 <= f < |cands| && cell == Some(cands[f].name) &&
        forall g :: 0 <= g < f ==> cands[g].name in Greedy(order[..k], n).taken)
    ensures Greedy(order[..k], n).taken <= Scheduled(Greedy(order, n).schedule)
  {
    k := SlotOf(order, entries, n, i);
    GreedyPicks(order, n, k);
    GreedyPrefix(order, n, k);
    TakenScheduled(order, entries, n);
    forall l | 0 <= l < |order| && order[l].position == i
      ensures l == k
    {
      assert Position(order[l]) == Position(order[k]);
    }
  }

  /**
    Row i's candidates are the players free at its time. When row i shows player m, a player l
    ranked ahead of m and free at that time was assigned before row i's slot, so it has a slot.
   */
  lemma RowPriority(order: seq<SlotEntry>, entries: seq<SlotEntry>, n: nat, i: nat,
                    players: seq<Player>, time: string, l: nat, m: nat)
    requires Reorders(order, entries, n) && i < n && entries[i].available == Available(players, time, {})
    requires DistinctBy(players, PlayerName) && l < m < |players| && time in players[l].slots
    requires Greedy(order, n).schedule[i] == Some(players[m].name)
    ensures Positions(order, n)
    ensures forall k :: 0 <= k < |order| && order[k].position == i ==>
      Positions(order[..k], n) && players[l].name in Greedy(order[..k], n).taken
    ensures players[l].name in Scheduled(Greedy(order, n).schedule)
  {
    var k := SchedulePriority(order, entries, n, i);
    var cands := entries[i].available;
    var f :| 0 <= f < |cands| && Greedy(order, n).schedule[i] == Some(cands[f].name) &&
      forall g :: 0 <= g < f ==> cands[g].name in Greedy(order[..k], n).taken;
    CandidatesRanked(players, time, Greedy(order[..k], n).taken, l, m, f);
  }

  /** A blank row i: every candidate of row i has a slot elsewhere. */
  lemma ScheduleExhausted(order: seq<SlotEntry>, entries: seq<SlotEntry>, n: nat, i: nat)
    requires Reorders(order, entries, n) && i < n
    ensures Positions(order, n)
    ensures Greedy(order, n).schedule[i].None? ==>
      forall p :: p in entries[i].available ==> p.name in Scheduled(Greedy(order, n).schedule)
  {
    var k := SlotOf(order, entries, n, i);
    GreedyPicks(order, n, k);
    GreedyPrefix(order, n, k);
    TakenScheduled(order, entries, n);
  }
}
