/** The learning engine's value table and action selection: a table from state
    keys to per-action slot maps, seeded lazily, read and overwritten one slot at
    a time, and consulted by a greedy, a random or an evaluation-mode policy.
    Slot values are exact reals; random draws are parameters. */
module QLearning {
  import opened Board
  import NegaMax
  import opened StateKey

  /** Learning rate and discount factor. */
  const Alpha: real := 0.1
  const Gamma: real := 0.9

  /** The action reported by the greedy scans when no slot passes the threshold. */
  const NoAction: int := -1

  /** The learning engine's reward: 1.0, then -1.0, else 0.0, by the same
      eight-line test, checked for player 1 first, as the search engine's. */
  function Eval(s: seq<int>): (r: real)
    requires |s| == Cells
    ensures r == NegaMax.Eval(s) as real
  {
    if IsWinner(s, 1) then 1.0
    else if IsWinner(s, 2) then -1.0
    else 0.0
  }

  /** The initial value of a fresh slot from a draw `d` of nextDouble(). */
  function SeedValue(d: real): (v: real)
    requires 0.0 <= d < 1.0
    ensures -0.15 <= v < 0.15
  {
    d * 0.3 - 0.15
  }

  // Proof helpers. The four lemmas below are facts about Dafny sets and maps,
  // not about the value table: the solver does not always draw a member out of
  // a non-empty set or map unaided.

  /** A set with no member is empty. */
  lemma NoMemberIsEmpty(s: set<int>)
    requires forall b :: b !in s
    ensures s == {}
  {
    assert forall b :: b in s <==> b in {};
  }

  /** A non-empty set has a member. */
  lemma SomeMember(s: set<int>)
    requires s != {}
    ensures exists b :: b in s
  {
    if forall b :: b !in s {
      NoMemberIsEmpty(s);
    }
  }

  /** A non-empty slot map has a slot. */
  lemma SomeSlot(slots: map<int, real>)
    requires slots != map[]
    ensures exists b :: b in slots
  {
    if forall b :: b !in slots {
      NoSlotIsEmpty(slots);
    }
  }

  /** A slot map with no slot is the empty map. */
  lemma NoSlotIsEmpty(slots: map<int, real>)
    requires forall b :: b !in slots
    ensures slots == map[]
  {
    var none: map<int, real> := map[];
    assert forall b :: b in slots <==> b in none;
  }

  /** The slots of a map are exactly the empty cells of `board` below `k`. */
  ghost predicate SlotsAreEmptyCells(slots: map<int, real>, board: seq<int>, k: nat)
    requires k <= |board|
  {
    forall a :: a in slots <==> 0 <= a < k && board[a] == 0
  }

  /** The draws the source consumes are numbers in [0, 1). */
  predicate Draws(draws: seq<real>)
  {
    forall j :: 0 <= j < |draws| ==> 0.0 <= draws[j] < 1.0
  }

  /** The slot map built by scanning the first `k` cells: each empty cell gets the
      next unused draw, in ascending cell order. */
  function SeedBelow(s: seq<int>, draws: seq<real>, k: nat): (slots: map<int, real>)
    requires k <= |s| && |EmptyCellsBelow(s, k)| <= |draws| && Draws(draws)
    ensures SlotsAreEmptyCells(slots, s, k)
    ensures forall a :: a in slots ==> -0.15 <= slots[a] <= 0.15
  {
    if k == 0 then map[]
    else
      var prev := SeedBelow(s, draws, k - 1);
      if s[k - 1] == 0 then prev[k - 1 := SeedValue(draws[|EmptyCellsBelow(s, k - 1)|])]
      else prev
  }

  /** The slot map seeded for a board never seen before: one slot per empty cell. */
  function SeedSlots(s: seq<int>, draws: seq<real>): (slots: map<int, real>)
    requires |ValidMoves(s)| <= |draws| && Draws(draws)
    ensures SlotsAreEmptyCells(slots, s, |s|)
    ensures forall a :: a in slots ==> -0.15 <= slots[a] <= 0.15
  {
    SeedBelow(s, draws, |s|)
  }

  /** All slot values lie strictly between -1 and 1, the two scan thresholds. */
  predicate InRange(slots: map<int, real>)
  {
    forall a :: a in slots ==> -1.0 < slots[a] < 1.0
  }

  /** The greatest slot value (the value that maxQ returns). */
  ghost function MaxOf(slots: map<int, real>): (v: real)
    requires slots != map[]
    ensures exists a :: a in slots && slots[a] == v
    ensures forall a :: a in slots ==> slots[a] <= v
    decreases slots.Keys
  {
    SomeSlot(slots);
    var a :| a in slots;
    var rest := slots - {a};
    assert forall b :: b in slots ==> b == a || b in rest;
    if rest == map[] then slots[a]
    else
      var w := MaxOf(rest);
      if slots[a] >= w then slots[a] else w
  }

  /** The least slot value (the value that minQ returns). */
  ghost function MinOf(slots: map<int, real>): (v: real)
    requires slots != map[]
    ensures exists a :: a in slots && slots[a] == v
    ensures forall a :: a in slots ==> v <= slots[a]
    decreases slots.Keys
  {
    SomeSlot(slots);
    var a :| a in slots;
    var rest := slots - {a};
    assert forall b :: b in slots ==> b == a || b in rest;
    if rest == map[] then slots[a]
    else
      var w := MinOf(rest);
      if slots[a] <= w then slots[a] else w
  }

  /** What getMaxQAction may return: -1 when no slot exceeds -1.0, otherwise a
      slot above -1.0 whose value is at least every other slot's. */
  ghost predicate IsMaxAction(slots: map<int, real>, a: int)
  {
    if forall b :: b in slots ==> slots[b] <= -1.0 then a == NoAction
    else a in slots && slots[a] > -1.0 && forall b :: b in slots ==> slots[b] <= slots[a]
  }

  /** What getMinQAction may return: -1 when no slot is below 1.0, otherwise a
      slot below 1.0 whose value is at most every other slot's. */
  ghost predicate IsMinAction(slots: map<int, real>, a: int)
  {
    if forall b :: b in slots ==> slots[b] >= 1.0 then a == NoAction
    else a in slots && slots[a] < 1.0 && forall b :: b in slots ==> slots[a] <= slots[b]
  }

  /** Some slot exceeds -1.0: exactly when getMaxQAction returns a slot and maxQ
      can read its value. */
  ghost predicate HasSlotAbove(slots: map<int, real>)
  {
    exists a :: a in slots && slots[a] > -1.0
  }

  /** Some slot is below 1.0: exactly when getMinQAction returns a slot and minQ
      can read its value. */
  ghost predicate HasSlotBelow(slots: map<int, real>)
  {
    exists a :: a in slots && slots[a] < 1.0
  }

  /** The reply that updateQValue reads for `player`'s next key exists: minQ
      after player 1, maxQ after any other id. */
  ghost predicate HasReply(player: int, next: map<int, real>)
  {
    if player == 1 then HasSlotBelow(next) else HasSlotAbove(next)
  }

  /** With every value inside the thresholds, a non-empty slot map always yields a
      real action, whose value is the maximum (minimum) slot value. */
  lemma ExtremeActionIsSlot(slots: map<int, real>, a: int, c: int)
    requires InRange(slots) && slots != map[]
    ensures IsMaxAction(slots, a) ==> a in slots && slots[a] == MaxOf(slots)
    ensures IsMinAction(slots, c) ==> c in slots && slots[c] == MinOf(slots)
  {
    SomeSlot(slots);
    var b :| b in slots;
    assert -1.0 < slots[b] < 1.0;
    if IsMaxAction(slots, a) {
      var w :| w in slots && slots[w] == MaxOf(slots);
      assert slots[w] <= slots[a];
    }
    if IsMinAction(slots, c) {
      var w :| w in slots && slots[w] == MinOf(slots);
      assert slots[c] <= slots[w];
    }
  }

  /** The temporal-difference step q + ALPHA * (expected - q): it moves q toward
      the target without overshooting, leaves q fixed exactly when the target is
      q, and keeps a value inside the open interval (-1, 1). */
  function TdUpdate(q: real, expected: real): (r: real)
    ensures q <= expected ==> q <= r <= expected
    ensures expected <= q ==> expected <= r <= q
    ensures r == q <==> expected == q
    ensures -1.0 < q < 1.0 && -1.0 <= expected <= 1.0 ==> -1.0 < r < 1.0
  {
    q + Alpha * (expected - q)
  }

  /** The bootstrapped target of a non-final ply: the reward plus the discounted
      value of the opponent's best reply (minQ after player 1, maxQ otherwise). */
  ghost function Target(player: int, reward: real, next: map<int, real>): real
    requires next != map[]
  {
    reward + Gamma * (if player == 1 then MinOf(next) else MaxOf(next))
  }

  /** With an undecided ply's zero reward, the target stays strictly inside (-1, 1). */
  lemma TargetInRange(player: int, next: map<int, real>)
    requires next != map[] && InRange(next)
    ensures -1.0 < Target(player, 0.0, next) < 1.0
  {
    var v := if player == 1 then MinOf(next) else MaxOf(next);
    var a :| a in next && next[a] == v;
    assert -1.0 < v < 1.0;
  }

  /** The (board, player) pair a key was made from, remembered for the proofs. */
  datatype Position = Position(board: seq<int>, player: int)

  /** Every remembered position is a board whose key is the key it is stored under. */
  ghost predicate KeysOfPositions(positions: map<string, Position>)
  {
    forall k :: k in positions ==>
      |positions[k].board| == Cells && KeyOf(positions[k].board, positions[k].player) == k
  }

  /** Every entry's slots are exactly the empty cells of its position's board. */
  ghost predicate SlotsOfPositions(table: map<string, map<int, real>>, positions: map<string, Position>)
  {
    forall k :: k in positions && k in table && |positions[k].board| == Cells ==>
      SlotsAreEmptyCells(table[k], positions[k].board, Cells)
  }

  /** The table invariant: every key is the key of the board it was made from,
      its slots are exactly that board's empty cells, and every value lies
      strictly between the scan thresholds -1.0 and 1.0. */
  ghost predicate TableValid(table: map<string, map<int, real>>, positions: map<string, Position>)
  {
    && (forall k :: k in positions <==> k in table)
    && KeysOfPositions(positions)
    && SlotsOfPositions(table, positions)
    && (forall k :: k in table ==> InRange(table[k]))
  }

  /** In a valid table, the entry under the key of (s, player) has exactly the
      empty cells of s as slots, whichever call created it. */
  lemma EntryOfKey(table: map<string, map<int, real>>, positions: map<string, Position>,
                   s: seq<int>, player: int)
    requires TableValid(table, positions) && |s| == Cells && KeyOf(s, player) in table
    ensures SlotsAreEmptyCells(table[KeyOf(s, player)], s, Cells)
    ensures InRange(table[KeyOf(s, player)])
  {
    var k := KeyOf(s, player);
    KeyInjective(positions[k].board, positions[k].player, s, player);
  }

  /** Storing an entry whose values are in range keeps every entry in range. */
  lemma StoreKeepsRange(table: map<string, map<int, real>>, key: string, slots: map<int, real>,
                        table': map<string, map<int, real>>)
    requires InRange(slots) && table' == table[key := slots]
    requires forall k :: k in table ==> InRange(table[k])
    ensures forall k :: k in table' ==> InRange(table'[k])
  {
    forall k | k in table'
      ensures InRange(table'[k])
    {
      if k != key {
        assert table'[k] == table[k];
      }
    }
  }

  /** Remembering the position of a new key keeps every key the key of its board. */
  lemma AddPositionKeepsKeys(positions: map<string, Position>, s: seq<int>, player: int)
    requires KeysOfPositions(positions) && |s| == Cells
    ensures KeysOfPositions(positions[KeyOf(s, player) := Position(s, player)])
  {
    var key := KeyOf(s, player);
    var positions' := positions[key := Position(s, player)];
    forall k | k in positions'
      ensures |positions'[k].board| == Cells
      ensures KeyOf(positions'[k].board, positions'[k].player) == k
    {
      if k != key {
        assert positions'[k] == positions[k];
      }
    }
  }

  /** A new entry whose slots are its board's empty cells keeps every entry
      matching its board. */
  lemma AddEntryKeepsSlots(table: map<string, map<int, real>>, positions: map<string, Position>,
                           key: string, pos: Position, slots: map<int, real>)
    requires SlotsOfPositions(table, positions) && |pos.board| == Cells
    requires SlotsAreEmptyCells(slots, pos.board, Cells)
    ensures SlotsOfPositions(table[key := slots], positions[key := pos])
  {
    var table', positions' := table[key := slots], positions[key := pos];
    forall k | k in positions' && k in table' && |positions'[k].board| == Cells
      ensures SlotsAreEmptyCells(table'[k], positions'[k].board, Cells)
    {
      if k != key {
        assert positions'[k] == positions[k] && table'[k] == table[k];
      }
    }
  }

  /** Adding a fresh key whose slots are the board's empty cells, with values in
      range, keeps the table valid. */
  lemma AddEntryValid(table: map<string, map<int, real>>, positions: map<string, Position>,
                      s: seq<int>, player: int, slots: map<int, real>)
    requires TableValid(table, positions) && |s| == Cells && KeyOf(s, player) !in table
    requires SlotsAreEmptyCells(slots, s, Cells) && InRange(slots)
    ensures TableValid(table[KeyOf(s, player) := slots],
                       positions[KeyOf(s, player) := Position(s, player)])
  {
    var key := KeyOf(s, player);
    AddPositionKeepsKeys(positions, s, player);
    AddEntryKeepsSlots(table, positions, key, Position(s, player), slots);
    StoreKeepsRange(table, key, slots, table[key := slots]);
  }

  /** Overwriting an existing slot of one entry keeps its set of slots, and keeps
      its values in range when the new value is. */
  lemma OverwriteSlot(slots: map<int, real>, action: int, value: real)
    requires action in slots && InRange(slots) && -1.0 < value < 1.0
    ensures forall a :: a in slots[action := value] <==> a in slots
    ensures InRange(slots[action := value])
  {
  }

  /** An overwrite that keeps an entry's slots keeps every entry matching its board. */
  lemma ReplaceEntryKeepsSlots(table: map<string, map<int, real>>, positions: map<string, Position>,
                               key: string, slots: map<int, real>)
    requires SlotsOfPositions(table, positions) && key in table
    requires forall a :: a in slots <==> a in table[key]
    ensures SlotsOfPositions(table[key := slots], positions)
  {
    var table' := table[key := slots];
    forall k | k in positions && k in table' && |positions[k].board| == Cells
      ensures SlotsAreEmptyCells(table'[k], positions[k].board, Cells)
    {
      if k != key {
        assert table'[k] == table[k];
      }
    }
  }

  /** Overwriting an existing slot with a value in range keeps the table valid. */
  lemma OverwriteValid(table: map<string, map<int, real>>, positions: map<string, Position>,
                       key: string, action: int, value: real)
    requires TableValid(table, positions) && key in table && action in table[key]
    requires -1.0 < value < 1.0
    ensures TableValid(table[key := table[key][action := value]], positions)
  {
    var slots := table[key][action := value];
    OverwriteSlot(table[key], action, value);
    ReplaceEntryKeepsSlots(table, positions, key, slots);
    StoreKeepsRange(table, key, slots, table[key := slots]);
  }

  /** On a table key of a board with an empty cell, an action the greedy scans
      may return is an empty cell of that board. */
  lemma GreedyActionIsEmptyCell(table: map<string, map<int, real>>, positions: map<string, Position>,
                                s: seq<int>, player: int, a: int)
    requires TableValid(table, positions) && |s| == Cells && KeyOf(s, player) in table
    requires |ValidMoves(s)| > 0
    requires IsMaxAction(table[KeyOf(s, player)], a) || IsMinAction(table[KeyOf(s, player)], a)
    ensures 0 <= a < Cells && s[a] == 0
  {
    var slots := table[KeyOf(s, player)];
    EntryOfKey(table, positions, s, player);
    var c := ValidMoves(s)[0];
    assert c in slots;
    ExtremeActionIsSlot(slots, a, a);
  }

  /** The loop of makeKey that seeds a new entry: one slot per empty cell, in
      ascending order, each from the next draw. */
  method SeedEntry(state: array<int>, draws: seq<real>) returns (vals: map<int, real>)
    requires state.Length == Cells
    requires |ValidMoves(state[..])| <= |draws| && Draws(draws)
    ensures vals == SeedSlots(state[..], draws)
  {
    ghost var s := state[..];
    vals := map[];
    var n := 0;
    var i := 0;
    while i < state.Length
      invariant 0 <= i <= state.Length
      invariant n == |EmptyCellsBelow(s, i)| <= |draws|
      invariant vals == SeedBelow(s, draws, i)
    {
      EmptyCellsBelowMonotone(s, i + 1, Cells);
      if state[i] == 0 {
        vals := vals[i := SeedValue(draws[n])];
        n := n + 1;
      }
      i := i + 1;
    }
  }

  class QTicTacToe {
    /** The value table: key to (action to value). */
    var qvalues: map<string, map<int, real>>
    /** Evaluation mode: the deterministic policy of the last games. */
    var playOptimal: bool
    /** Set by the game loop when the current ply ended the game. */
    var gameEnded: bool
    /** For every key of the table, the position it was made from. */
    ghost var positions: map<string, Position>

    ghost predicate Valid()
      reads this
    {
      TableValid(qvalues, positions)
    }

    /** A fresh engine: an empty table, training mode. */
    constructor ()
      ensures Valid() && qvalues == map[] && !playOptimal && !gameEnded
    {
      qvalues := map[];
      positions := map[];
      playOptimal := false;
      gameEnded := false;
    }

    /** makeKey: the key of (state, player); an unseen key is added with one slot
        per empty cell, seeded from `draws`; a known key leaves the table as it was. */
    method MakeKey(state: array<int>, player: int, draws: seq<real>) returns (key: string)
      requires Valid() && state.Length == Cells
      requires |ValidMoves(state[..])| <= |draws| && Draws(draws)
      modifies this`qvalues, this`positions
      ensures Valid()
      ensures key == KeyOf(state[..], player)
      ensures key in qvalues && SlotsAreEmptyCells(qvalues[key], state[..], Cells)
      ensures key in old(qvalues) ==> qvalues == old(qvalues)
      ensures key !in old(qvalues) ==> qvalues == old(qvalues)[key := SeedSlots(state[..], draws)]
    {
      key := KeyOf(state[..], player);
      if key !in qvalues {
        var vals := SeedEntry(state, draws);
        assert InRange(vals);
        AddEntryValid(qvalues, positions, state[..], player, vals);
        qvalues := qvalues[key := vals];
        positions := positions[key := Position(state[..], player)];
      } else {
        EntryOfKey(qvalues, positions, state[..], player);
      }
    }

    /** getQ: the value of one slot. */
    method GetQ(key: string, action: int) returns (v: real)
      requires key in qvalues && action in qvalues[key]
      ensures v == qvalues[key][action]
      ensures Valid() ==> -1.0 < v < 1.0
    {
      v := qvalues[key][action];
    }

    /** setQ: overwrites slot (key, action) and nothing else. */
    method SetQ(key: string, action: int, value: real)
      requires key in qvalues
      modifies this`qvalues
      ensures qvalues == old(qvalues)[key := old(qvalues)[key][action := value]]
      ensures old(Valid()) && action in old(qvalues)[key] && -1.0 < value < 1.0 ==> Valid()
    {
      if Valid() && action in qvalues[key] && -1.0 < value < 1.0 {
        OverwriteValid(qvalues, positions, key, action, value);
      }
      qvalues := qvalues[key := qvalues[key][action := value]];
    }

    /** getMaxQAction: a scan over the slots, in the map's unspecified order, that
        keeps the first value strictly greater than the running maximum, which
        starts at -1.0. */
    method GetMaxQAction(stateKey: string) returns (bestAction: int)
      requires stateKey in qvalues
      ensures IsMaxAction(qvalues[stateKey], bestAction)
    {
      var maxValue := -1.0;
      bestAction := NoAction;
      var vals := qvalues[stateKey];
      var todo := vals.Keys;
      while todo != {}
        invariant todo <= vals.Keys
        invariant forall b :: b in vals && b !in todo ==> vals[b] <= maxValue
        invariant || (bestAction == NoAction && maxValue == -1.0)
                  || (bestAction in vals && vals[bestAction] == maxValue && maxValue > -1.0)
        decreases todo
      {
        SomeMember(todo);
        var b :| b in todo;
        if vals[b] > maxValue {
          maxValue := vals[b];
          bestAction := b;
        }
        todo := todo - {b};
      }
    }

    /** getMinQAction: the symmetric scan for the least value below 1.0. */
    method GetMinQAction(stateKey: string) returns (worstAction: int)
      requires stateKey in qvalues
      ensures IsMinAction(qvalues[stateKey], worstAction)
    {
      var minValue := 1.0;
      worstAction := NoAction;
      var vals := qvalues[stateKey];
      var todo := vals.Keys;
      while todo != {}
        invariant todo <= vals.Keys
        invariant forall b :: b in vals && b !in todo ==> minValue <= vals[b]
        invariant || (worstAction == NoAction && minValue == 1.0)
                  || (worstAction in vals && vals[worstAction] == minValue && minValue < 1.0)
        decreases todo
      {
        SomeMember(todo);
        var b :| b in todo;
        if vals[b] < minValue {
          minValue := vals[b];
          worstAction := b;
        }
        todo := todo - {b};
      }
    }

    /** maxQ: the value of the greedy action, which is the greatest slot value. */
    method MaxQ(stateKey: string) returns (v: real)
      requires stateKey in qvalues && HasSlotAbove(qvalues[stateKey])
      ensures v == MaxOf(qvalues[stateKey])
    {
      var action := GetMaxQAction(stateKey);
      ghost var slots := qvalues[stateKey];
      ghost var w :| w in slots && slots[w] == MaxOf(slots);
      assert slots[w] <= slots[action];
      v := qvalues[stateKey][action];
    }

    /** minQ: the value of the least-valued action, which is the least slot value. */
    method MinQ(stateKey: string) returns (v: real)
      requires stateKey in qvalues && HasSlotBelow(qvalues[stateKey])
      ensures v == MinOf(qvalues[stateKey])
    {
      var action := GetMinQAction(stateKey);
      ghost var slots := qvalues[stateKey];
      ghost var w :| w in slots && slots[w] == MinOf(slots);
      assert slots[action] <= slots[w];
      v := qvalues[stateKey][action];
    }

    /** updateQValue: moves slot (stateKey, action) toward the target, which is the
        reward on the final ply and otherwise the reward plus the discounted
        opponent's best reply in nextKey; no other slot changes. */
    method UpdateQValue(player: int, stateKey: string, action: int, nextKey: string, reward: real)
      requires stateKey in qvalues && action in qvalues[stateKey]
      requires !gameEnded ==> nextKey in qvalues && HasReply(player, qvalues[nextKey])
      modifies this`qvalues
      ensures qvalues == old(qvalues)[stateKey := old(qvalues)[stateKey][action :=
        TdUpdate(old(qvalues)[stateKey][action],
                 if gameEnded then reward else Target(player, reward, old(qvalues)[nextKey]))]]
      ensures old(Valid()) && -1.0 <= reward <= 1.0 && (gameEnded || reward == 0.0) ==> Valid()
    {
      ghost var target := if gameEnded then reward else Target(player, reward, qvalues[nextKey]);
      var expected := 0.0;
      if gameEnded {
        expected := reward;
      } else {
        var m := 0.0;
        if player == 1 {
          m := MinQ(nextKey);
        } else {
          m := MaxQ(nextKey);
        }
        ghost var next := qvalues[nextKey];
        assert m == if player == 1 then MinOf(next) else MaxOf(next);
        expected := reward + Gamma * m;
        assert expected == Target(player, reward, next);
        if Valid() && reward == 0.0 {
          TargetInRange(player, qvalues[nextKey]);
        }
      }
      assert expected == target;
      var q0 := GetQ(stateKey, action);
      var q := q0 + Alpha * (expected - q0);
      assert q == TdUpdate(q0, target);
      if Valid() && -1.0 <= reward <= 1.0 && (gameEnded || reward == 0.0) {
        assert -1.0 <= target <= 1.0 && -1.0 < q0 < 1.0;
      }
      SetQ(stateKey, action, q);
    }

    /** randomMove: the `pick`-th empty cell in ascending order, where `pick` is the
        draw of nextInt over the number of empty cells. */
    method RandomMove(state: array<int>, pick: int) returns (move: int)
      requires state.Length == Cells
      requires 0 <= pick < |ValidMoves(state[..])|
      ensures move == ValidMoves(state[..])[pick]
      ensures 0 <= move < Cells && state[move] == 0
    {
      var moveList: seq<nat> := [];
      var i := 0;
      while i < state.Length
        invariant 0 <= i <= state.Length
        invariant moveList == EmptyCellsBelow(state[..], i)
      {
        if state[i] == 0 {
          moveList := moveList + [i];
        }
        i := i + 1;
      }
      move := moveList[pick];
    }

    /** chooseAction: in evaluation mode both players take getMaxQAction; in
        training mode a coin below 0.5 takes the mover's greedy action (max for
        player 1, min otherwise) and any other coin a random empty cell, which
        does not read the table. On a
        table key of the current board with an empty cell, the action is always
        an empty cell. */
    method ChooseAction(stateKey: string, curPlayer: int, curState: array<int>, coin: real, pick: int)
      returns (action: int)
      requires curState.Length == Cells
      requires 0.0 <= coin < 1.0
      requires playOptimal || coin < 0.5 ==> stateKey in qvalues
      requires !playOptimal && coin >= 0.5 ==> 0 <= pick < |ValidMoves(curState[..])|
      ensures playOptimal ==> IsMaxAction(qvalues[stateKey], action)
      ensures !playOptimal && coin < 0.5 && curPlayer == 1 ==> IsMaxAction(qvalues[stateKey], action)
      ensures !playOptimal && coin < 0.5 && curPlayer != 1 ==> IsMinAction(qvalues[stateKey], action)
      ensures !playOptimal && coin >= 0.5 ==> action == ValidMoves(curState[..])[pick]
      ensures Valid() && stateKey == KeyOf(curState[..], curPlayer) && |ValidMoves(curState[..])| > 0 ==>
        0 <= action < Cells && curState[action] == 0
    {
      if playOptimal {
        if curPlayer == 1 {
          action := GetMaxQAction(stateKey);
        } else {
          action := GetMaxQAction(stateKey);
        }
      } else {
        if coin < 0.5 {
          if curPlayer == 1 {
            action := GetMaxQAction(stateKey);
          } else {
            action := GetMinQAction(stateKey);
          }
        } else {
          action := RandomMove(curState, pick);
        }
      }
      if Valid() && stateKey == KeyOf(curState[..], curPlayer) && |ValidMoves(curState[..])| > 0 {
        if playOptimal || coin < 0.5 {
          GreedyActionIsEmptyCell(qvalues, positions, curState[..], curPlayer, action);
        }
      }
    }
  }
}
