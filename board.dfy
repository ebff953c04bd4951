/** The board model shared by both engines: nine cells in row-major order,
    0 for an empty cell, 1 for the maximising player, 2 for the minimising one. */
module Board {

  /** Number of cells (and of possible actions) on the 3x3 grid. */
  const Cells: nat := 9

  /** The eight winning lines: three rows, three columns, two diagonals. */
  const Lines: seq<(nat, nat, nat)> :=
    [(0, 1, 2), (3, 4, 5), (6, 7, 8),
     (0, 3, 6), (1, 4, 7), (2, 5, 8),
     (0, 4, 8), (2, 4, 6)]

  /** The win test exactly as both engines write it: some line whose three cells
      are equal to each other and to `player`. */
  predicate IsWinner(s: seq<int>, player: int)
    requires |s| == Cells
  {
    || (s[0] == s[1] && s[1] == s[2] && s[0] == player)
    || (s[3] == s[4] && s[4] == s[5] && s[3] == player)
    || (s[6] == s[7] && s[7] == s[8] && s[6] == player)
    || (s[0] == s[3] && s[3] == s[6] && s[0] == player)
    || (s[1] == s[4] && s[4] == s[7] && s[1] == player)
    || (s[2] == s[5] && s[5] == s[8] && s[2] == player)
    || (s[0] == s[4] && s[4] == s[8] && s[0] == player)
    || (s[2] == s[4] && s[4] == s[6] && s[2] == player)
  }

  /** Line number `l` is completely occupied by `player`. */
  predicate OwnsLine(s: seq<int>, l: nat, player: int)
    requires |s| == Cells && l < |Lines|
  {
    s[Lines[l].0] == player && s[Lines[l].1] == player && s[Lines[l].2] == player
  }

  /** The win test holds exactly when one of the eight lines belongs to `player`. */
  lemma WinnerIffOwnsLine(s: seq<int>, player: int)
    requires |s| == Cells
    ensures IsWinner(s, player) <==> exists l: nat :: l < |Lines| && OwnsLine(s, l, player)
  {
    if IsWinner(s, player) {
      if s[0] == s[1] && s[1] == s[2] && s[0] == player { assert OwnsLine(s, 0, player); }
      else if s[3] == s[4] && s[4] == s[5] && s[3] == player { assert OwnsLine(s, 1, player); }
      else if s[6] == s[7] && s[7] == s[8] && s[6] == player { assert OwnsLine(s, 2, player); }
      else if s[0] == s[3] && s[3] == s[6] && s[0] == player { assert OwnsLine(s, 3, player); }
      else if s[1] == s[4] && s[4] == s[7] && s[1] == player { assert OwnsLine(s, 4, player); }
      else if s[2] == s[5] && s[5] == s[8] && s[2] == player { assert OwnsLine(s, 5, player); }
      else if s[0] == s[4] && s[4] == s[8] && s[0] == player { assert OwnsLine(s, 6, player); }
      else { assert OwnsLine(s, 7, player); }
    }
  }

  /** The empty cells among the first `k` cells, in ascending index order: the list
      both engines build by scanning the board from index 0 upwards. */
  function EmptyCellsBelow(s: seq<int>, k: nat): (r: seq<nat>)
    requires k <= |s|
    ensures |r| <= k
    ensures forall j :: 0 <= j < |r| ==> r[j] < k && s[r[j]] == 0
    ensures forall j, j' :: 0 <= j < j' < |r| ==> r[j] < r[j']
    ensures forall i :: 0 <= i < k && s[i] == 0 ==> i in r
  {
    if k == 0 then []
    else EmptyCellsBelow(s, k - 1) + (if s[k - 1] == 0 then [k - 1] else [])
  }

  /** All empty cells of the board, in ascending index order. */
  function ValidMoves(s: seq<int>): seq<nat>
  {
    EmptyCellsBelow(s, |s|)
  }

  /** Scanning further never shortens the list of empty cells found so far. */
  lemma {:induction false} EmptyCellsBelowMonotone(s: seq<int>, i: nat, k: nat)
    requires i <= k <= |s|
    ensures |EmptyCellsBelow(s, i)| <= |EmptyCellsBelow(s, k)|
    decreases k - i
  {
    if i < k {
      EmptyCellsBelowMonotone(s, i, k - 1);
    }
  }

  /** Writing a non-zero mark into an empty cell removes exactly one cell from
      the empty list below every bound past that cell; writing 0 changes nothing. */
  lemma {:induction false} PlayBelow(s: seq<int>, m: nat, p: int, k: nat)
    requires m < |s| && s[m] == 0 && k <= |s|
    ensures |EmptyCellsBelow(s[m := p], k)| ==
            |EmptyCellsBelow(s, k)| - (if p != 0 && m < k then 1 else 0)
  {
    if k > 0 {
      PlayBelow(s, m, p, k - 1);
    }
  }

  /** Playing mark `p` into an empty cell leaves one empty cell fewer (none fewer
      when `p` is itself the empty mark): the measure that makes the search end. */
  lemma PlayRemovesOneEmpty(s: seq<int>, m: nat, p: int)
    requires m < |s| && s[m] == 0
    ensures |ValidMoves(s[m := p])| == |ValidMoves(s)| - (if p != 0 then 1 else 0)
  {
    PlayBelow(s, m, p, |s|);
  }
}
