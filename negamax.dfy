/** The exhaustive game-tree search engine. Player 1 maximises and every other
    player id minimises; the search returns the game value and the move that
    attains it, or the sentinel move -1 on a finished board. */
module NegaMax {
  import opened Board

  /** Java's Integer.MIN_VALUE and Integer.MAX_VALUE, the starting values of the
      running best for the maximising and the minimising branch. */
  const IntMin: int := -0x8000_0000
  const IntMax: int := 0x7fff_ffff

  /** The move reported when no move is made. */
  const NoMove: int := -1

  /** The pair `{value, move}` that the search returns. */
  datatype Score = Score(value: int, move: int)

  /** The search engine's reward: 1 when player 1 has a line, otherwise -1 when
      player 2 has one, otherwise 0. */
  function Eval(s: seq<int>): (r: int)
    requires |s| == Cells
    ensures r == 1 <==> IsWinner(s, 1)
    ensures r == -1 <==> !IsWinner(s, 1) && IsWinner(s, 2)
    ensures r == 0 <==> !IsWinner(s, 1) && !IsWinner(s, 2)
  {
    if IsWinner(s, 1) then 1
    else if IsWinner(s, 2) then -1
    else 0
  }

  /** A board on which the search stops: someone has won or no cell is empty. */
  predicate IsTerminal(s: seq<int>)
    requires |s| == Cells
  {
    Eval(s) != 0 || |ValidMoves(s)| < 1
  }

  /** The player to move after `p`: player 1 hands over to 2, everyone else to 1. */
  function Opponent(p: int): int
  {
    if p == 1 then 2 else 1
  }

  /** The running best starts below (player 1) or above (others) every value. */
  function Sentinel(p: int): int
  {
    if p == 1 then IntMin else IntMax
  }

  /** `v` replaces `best`: strictly greater for player 1, strictly less otherwise. */
  predicate Improves(p: int, v: int, best: int)
  {
    if p == 1 then v > best else v < best
  }

  /** The second component of the termination measure: a move by the empty mark 0
      leaves the board unchanged, but the opponent then plays a real mark. */
  function Rank(p: int): nat
  {
    if p == 0 then 1 else 0
  }

  /** The value of the search from the board reached when `p` plays cell `m`. */
  function ChildValue(p: int, s: seq<int>, m: nat): (v: int)
    requires |s| == Cells && m < Cells && s[m] == 0
    ensures -1 <= v <= 1
    decreases |ValidMoves(s)|, Rank(p), 0, 0
  {
    PlayRemovesOneEmpty(s, m, p);
    Search(Opponent(p), s[m := p]).value
  }

  /** The search as a function of player and board: the reference definition that
      the method `NegaMax` is proved to compute. */
  function Search(p: int, s: seq<int>): (r: Score)
    requires |s| == Cells
    ensures -1 <= r.value <= 1
    decreases |ValidMoves(s)|, Rank(p), 1, 0
  {
    if IsTerminal(s) then Score(Eval(s), NoMove)
    else Scan(p, s, 0, Sentinel(p), NoMove)
  }

  /** The candidate loop: visits the empty cells from position `i` of the ascending
      list on, keeping a child value only when it strictly improves `best`. */
  function Scan(p: int, s: seq<int>, i: nat, best: int, move: int): (r: Score)
    requires |s| == Cells && i <= |ValidMoves(s)|
    ensures r == Score(best, move) || -1 <= r.value <= 1
    ensures i < |ValidMoves(s)| && best == Sentinel(p) ==> -1 <= r.value <= 1
    decreases |ValidMoves(s)|, Rank(p), 0, |ValidMoves(s)| - i
  {
    var moves := ValidMoves(s);
    if i == |moves| then Score(best, move)
    else
      var v := ChildValue(p, s, moves[i]);
      if Improves(p, v, best) then Scan(p, s, i + 1, v, moves[i])
      else Scan(p, s, i + 1, best, move)
  }

  /** `r` is an optimal move on a non-terminal board: an empty cell whose child
      value is `r.value`, no empty cell's child improves on it, and every empty
      cell of lower index is strictly worse (the first optimum found wins). */
  ghost predicate Optimal(p: int, s: seq<int>, r: Score)
    requires |s| == Cells
  {
    && 0 <= r.move < Cells && s[r.move] == 0
    && r.value == ChildValue(p, s, r.move)
    && (forall m: nat :: m < Cells && s[m] == 0 ==> !Improves(p, ChildValue(p, s, m), r.value))
    && (forall m: nat :: m < r.move && s[m] == 0 ==> Improves(p, r.value, ChildValue(p, s, m)))
  }

  /** What the candidate loop has established after the first `i` candidates. */
  ghost predicate ScanSoFar(p: int, s: seq<int>, i: nat, best: int, move: int)
    requires |s| == Cells && i <= |ValidMoves(s)|
  {
    var moves := ValidMoves(s);
    if i == 0 then best == Sentinel(p)
    else
      && move in moves[..i]
      && best == ChildValue(p, s, move)
      && (forall j :: 0 <= j < i ==> !Improves(p, ChildValue(p, s, moves[j]), best))
      && (forall j :: 0 <= j < i && moves[j] < move ==> Improves(p, best, ChildValue(p, s, moves[j])))
  }

  /** The candidate loop has visited every empty cell: its running best is optimal. */
  lemma ScanDoneIsOptimal(p: int, s: seq<int>, best: int, move: int, r: Score)
    requires |s| == Cells && 0 < |ValidMoves(s)|
    requires ScanSoFar(p, s, |ValidMoves(s)|, best, move)
    requires r == Scan(p, s, |ValidMoves(s)|, best, move)
    ensures Optimal(p, s, r)
  {
    var moves := ValidMoves(s);
    assert r == Score(best, move);
    assert moves[..|moves|] == moves;
    forall m: nat | m < Cells && s[m] == 0
      ensures !Improves(p, ChildValue(p, s, m), best)
    {
      var j :| 0 <= j < |moves| && moves[j] == m;
    }
    forall m: nat | m < move && s[m] == 0
      ensures Improves(p, best, ChildValue(p, s, m))
    {
      var j :| 0 <= j < |moves| && moves[j] == m;
    }
  }

  /** An iteration whose child improves on the running best makes it the new best. */
  lemma ScanStepTakes(p: int, s: seq<int>, i: nat, best: int, move: int)
    requires |s| == Cells && i < |ValidMoves(s)|
    requires ScanSoFar(p, s, i, best, move)
    requires Improves(p, ChildValue(p, s, ValidMoves(s)[i]), best)
    ensures ScanSoFar(p, s, i + 1, ChildValue(p, s, ValidMoves(s)[i]), ValidMoves(s)[i])
  {
    var moves := ValidMoves(s);
    var v := ChildValue(p, s, moves[i]);
    assert moves[..i + 1] == moves[..i] + [moves[i]];
    assert moves[i] in moves[..i + 1];
    forall j | 0 <= j < i + 1
      ensures !Improves(p, ChildValue(p, s, moves[j]), v)
    {
      if j < i {
        assert !Improves(p, ChildValue(p, s, moves[j]), best);
      }
    }
    forall j | 0 <= j < i + 1 && moves[j] < moves[i]
      ensures Improves(p, v, ChildValue(p, s, moves[j]))
    {
      assert j < i;
      assert !Improves(p, ChildValue(p, s, moves[j]), best);
    }
  }

  /** An iteration whose child does not improve keeps the running best. */
  lemma ScanStepKeeps(p: int, s: seq<int>, i: nat, best: int, move: int)
    requires |s| == Cells && i < |ValidMoves(s)|
    requires ScanSoFar(p, s, i, best, move)
    requires !Improves(p, ChildValue(p, s, ValidMoves(s)[i]), best)
    ensures ScanSoFar(p, s, i + 1, best, move)
  {
    var moves := ValidMoves(s);
    assert moves[..i + 1] == moves[..i] + [moves[i]];
    assert i > 0;
    var k :| 0 <= k < i && moves[k] == move;
    assert moves[k] < moves[i];
  }

  /** One iteration of the candidate loop: the running best it leaves behind
      still describes what the loop has seen, and the rest of the loop from there
      returns the same result. */
  lemma ScanStep(p: int, s: seq<int>, i: nat, best: int, move: int, r: Score)
    returns (best': int, move': int)
    requires |s| == Cells && i < |ValidMoves(s)|
    requires ScanSoFar(p, s, i, best, move) && r == Scan(p, s, i, best, move)
    ensures ScanSoFar(p, s, i + 1, best', move') && r == Scan(p, s, i + 1, best', move')
  {
    var m := ValidMoves(s)[i];
    var v := ChildValue(p, s, m);
    if Improves(p, v, best) {
      ScanStepTakes(p, s, i, best, move);
      best', move' := v, m;
    } else {
      ScanStepKeeps(p, s, i, best, move);
      best', move' := best, move;
    }
  }

  /** On a board where the search scans, it returns an optimal move: the
      candidate loop is followed one iteration at a time. */
  lemma SearchIsOptimal(p: int, s: seq<int>)
    requires |s| == Cells && !IsTerminal(s)
    ensures Optimal(p, s, Search(p, s))
  {
    var r := Search(p, s);
    var best, move := Sentinel(p), NoMove;
    var i := 0;
    while i < |ValidMoves(s)|
      invariant i <= |ValidMoves(s)|
      invariant ScanSoFar(p, s, i, best, move) && r == Scan(p, s, i, best, move)
      decreases |ValidMoves(s)| - i
    {
      best, move := ScanStep(p, s, i, best, move, r);
      i := i + 1;
    }
    ScanDoneIsOptimal(p, s, best, move, r);
  }

  /** The search's contract. On a terminal board it returns the reward and the
      sentinel move. Otherwise the move is an empty cell whose child has the
      returned value; for player 1 that value is the maximum over all children
      and for any other player the minimum; and it is the lowest-index empty
      cell attaining that optimum. */
  lemma SearchSpec(p: int, s: seq<int>)
    requires |s| == Cells
    ensures IsTerminal(s) ==> Search(p, s) == Score(Eval(s), NoMove)
    ensures !IsTerminal(s) ==>
      var r := Search(p, s);
      && 0 <= r.move < Cells && s[r.move] == 0
      && r.value == ChildValue(p, s, r.move)
    ensures !IsTerminal(s) && p == 1 ==>
      forall m: nat :: m < Cells && s[m] == 0 ==> ChildValue(p, s, m) <= Search(p, s).value
    ensures !IsTerminal(s) && p != 1 ==>
      forall m: nat :: m < Cells && s[m] == 0 ==> ChildValue(p, s, m) >= Search(p, s).value
    ensures !IsTerminal(s) && p == 1 ==>
      forall m: nat :: m < Search(p, s).move && s[m] == 0 ==> ChildValue(p, s, m) < Search(p, s).value
    ensures !IsTerminal(s) && p != 1 ==>
      forall m: nat :: m < Search(p, s).move && s[m] == 0 ==> ChildValue(p, s, m) > Search(p, s).value
  {
    if !IsTerminal(s) {
      SearchIsOptimal(p, s);
    }
  }

  /** When player 1 to move on an undecided board can complete a line with one
      mark, the search finds the value 1, and its move is the lowest-index empty
      cell that also reaches value 1 (the immediate win or an earlier forced one). */
  lemma ImmediateWinFound(s: seq<int>, m: nat)
    requires |s| == Cells && m < Cells && s[m] == 0
    requires Eval(s) == 0 && IsWinner(s[m := 1], 1)
    ensures Search(1, s).value == 1
    ensures 0 <= Search(1, s).move <= m && s[Search(1, s).move] == 0
    ensures ChildValue(1, s, Search(1, s).move) == 1
  {
    assert m in ValidMoves(s);
    assert Search(2, s[m := 1]) == Score(1, NoMove);
    assert ChildValue(1, s, m) == 1;
    SearchSpec(1, s);
  }

  /** The symmetric fact for player 2, whose immediate win has value -1. */
  lemma ImmediateLossFound(s: seq<int>, m: nat)
    requires |s| == Cells && m < Cells && s[m] == 0
    requires Eval(s) == 0 && IsWinner(s[m := 2], 2)
    ensures Search(2, s).value == -1
    ensures 0 <= Search(2, s).move <= m && s[Search(2, s).move] == 0
    ensures ChildValue(2, s, Search(2, s).move) == -1
  {
    assert m in ValidMoves(s);
    assert Search(1, s[m := 2]) == Score(-1, NoMove);
    assert ChildValue(2, s, m) == -1;
    SearchSpec(2, s);
  }

  /** The search engine as the source runs it on int[9] boards: it lists the empty
      cells, stops on a terminal board, and otherwise tries each empty cell on a
      fresh copy of the board and recurses. The caller's board is only read (the
      method has no modifies clause). */
  method NegaMax(p: int, state: array<int>) returns (value: int, move: int)
    requires state.Length == Cells
    ensures Score(value, move) == Search(p, state[..])
    decreases |ValidMoves(state[..])|, Rank(p)
  {
    ghost var s := state[..];
    move := NoMove;
    var validMoves := EmptyCells(state);
    var reward := Eval(state[..]);
    if reward != 0 || |validMoves| < 1 {
      return reward, move;
    }
    var bestValue := 0;
    if p == 1 {
      bestValue := IntMin;
      var j := 0;
      while j < |validMoves|
        invariant 0 <= j <= |validMoves|
        invariant Scan(p, s, j, bestValue, move) == Search(p, s)
      {
        var cell := validMoves[j];
        var tmpState := CopyWith(state, cell, p);
        PlayRemovesOneEmpty(s, cell, p);
        var val, _ := NegaMax(2, tmpState);
        assert val == ChildValue(p, s, cell);
        if val > bestValue {
          bestValue := val;
          move := cell;
        }
        j := j + 1;
      }
    } else {
      bestValue := IntMax;
      var j := 0;
      while j < |validMoves|
        invariant 0 <= j <= |validMoves|
        invariant Scan(p, s, j, bestValue, move) == Search(p, s)
      {
        var cell := validMoves[j];
        var tmpState := CopyWith(state, cell, p);
        PlayRemovesOneEmpty(s, cell, p);
        var val, _ := NegaMax(1, tmpState);
        assert val == ChildValue(p, s, cell);
        if val < bestValue {
          bestValue := val;
          move := cell;
        }
        j := j + 1;
      }
    }
    return bestValue, move;
  }

  /** The list of empty cells as the search builds it: a scan of the board from
      index 0 upwards. */
  method EmptyCells(state: array<int>) returns (validMoves: seq<nat>)
    ensures validMoves == ValidMoves(state[..])
  {
    validMoves := [];
    var i := 0;
    while i < state.Length
      invariant 0 <= i <= state.Length
      invariant validMoves == EmptyCellsBelow(state[..], i)
    {
      if state[i] == 0 {
        validMoves := validMoves + [i];
      }
      i := i + 1;
    }
  }

  /** A fresh nine-cell copy of `state` with `mark` written at `cell`: the
      `tmpState` of each candidate. */
  method CopyWith(state: array<int>, cell: nat, mark: int) returns (tmp: array<int>)
    requires state.Length == Cells && cell < Cells
    ensures fresh(tmp)
    ensures tmp[..] == state[..][cell := mark]
  {
    tmp := new int[Cells];
    forall k | 0 <= k < Cells {
      tmp[k] := state[k];
    }
    tmp[cell] := mark;
  }
}
