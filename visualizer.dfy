/** The solver state of the N-Queens visualizer window: an N×N board of 0/1
    cells that the backtracking search fills and empties in place, the list of
    solutions it records, and the index of the solution on display. */
module NQueensVisualizer {
  import opened Queens

  /** The index of the solution shown after `index`: the next one, wrapping
      round to the first after the last. */
  function NextIndex(index: nat, size: nat): (r: nat)
    requires index < size
    ensures r < size
    ensures r == if index + 1 < size then index + 1 else 0
  {
    // Java's `%` truncates towards zero; here the left operand is never
    // negative, so it agrees with Dafny's.
    (index + 1) % size
  }

  /** The index on display after `ticks` calls of the cursor, starting from the first solution. */
  function IndexAfter(ticks: nat, size: nat): (r: nat)
    requires size > 0
    ensures r < size
  {
    if ticks == 0 then 0 else NextIndex(IndexAfter(ticks - 1, size), size)
  }

  /** Starting from the first solution, the cursor shows solution `k` after
      `k` steps, for every `k` before the last: each solution is reached. */
  lemma {:induction false} IndexAfterVisitsAll(k: nat, size: nat)
    requires k < size
    ensures IndexAfter(k, size) == k
  {
    if k > 0 {
      IndexAfterVisitsAll(k - 1, size);
    }
  }

  /** After `size` steps the cursor is back where it was: it cycles through
      the solutions forever. */
  lemma {:induction false} IndexAfterPeriodic(ticks: nat, size: nat)
    requires size > 0
    ensures IndexAfter(ticks + size, size) == IndexAfter(ticks, size)
  {
    if ticks == 0 {
      IndexAfterVisitsAll(size - 1, size);
    } else {
      IndexAfterPeriodic(ticks - 1, size);
    }
  }

  class Visualizer {
    /** Number of queens, and the side of the board. */
    const N: nat
    /** board[r, c] == 1 when a queen stands on row r, column c, and 0 otherwise. */
    const board: array2<int>
    /** The solutions recorded so far, each the column of the queen in every row. */
    var solutions: seq<seq<int>>
    /** The solution on display. */
    var currentSolutionIndex: int

    /** The board has N rows and N columns, and the display index is the
        first solution or one of those recorded. */
    ghost predicate Valid()
      reads this
    {
      && board.Length0 == N && board.Length1 == N
      && 0 <= currentSolutionIndex
      && (currentSolutionIndex == 0 || currentSolutionIndex < |solutions|)
    }

    /** The board holds exactly the queens of the placement `cols`: one queen
        in each row `r < |cols|`, in column `cols[r]`, and nothing else. */
    ghost predicate Holds(cols: seq<int>)
      reads this, board
    {
      && board.Length0 == N && board.Length1 == N
      && |cols| <= N && InRange(cols, N)
      && forall i, j :: 0 <= i < N && 0 <= j < N ==>
           board[i, j] == (if QueenAt(cols, i, j) then 1 else 0)
    }

    /** No queen on rows `0 .. row-1`, in any column, attacks the square
        (row, col). */
    ghost predicate Unattacked(row: int, col: int)
      reads this, board
      requires board.Length0 == N && board.Length1 == N && 0 <= row <= N
    {
      forall i, j :: 0 <= i < row && 0 <= j < N && board[i, j] == 1 ==> !Attacks(i, j, row, col)
    }

    /** Creates the window's solver state for `n` queens and runs the search
        from the empty board. */
    constructor (n: nat)
      ensures N == n && fresh(board)
      ensures Valid() && Holds([])
      ensures solutions == Solutions(n)
      ensures forall s :: s in solutions <==> IsSolution(n, s)
      ensures StrictlySorted(solutions)
      ensures currentSolutionIndex == 0
    {
      N := n;
      board := new int[n, n]((i, j) => 0);
      solutions := [];
      currentSolutionIndex := 0;
      new;
      SolveNQueens(0, []);
      SolutionsExactlyOnce(n);
    }

    /** The board-level safety scan: the square (row, col) is safe exactly
        when no queen on an earlier row attacks it. Only the three squares of
        each earlier row that could attack it are read, and the two diagonal
        reads are guarded so that they stay on the board. */
    method IsSafe(row: int, col: int) returns (safe: bool)
      requires board.Length0 == N && board.Length1 == N
      requires 0 <= row < N && 0 <= col < N
      ensures safe <==> Unattacked(row, col)
    {
      for i := 0 to row
        invariant forall i', j :: 0 <= i' < i && 0 <= j < N && board[i', j] == 1 ==> !Attacks(i', j, row, col)
      {
        if board[i, col] == 1 {
          assert Attacks(i, col, row, col);
          return false;
        }
        if col - (row - i) >= 0 && board[i, col - (row - i)] == 1 {
          assert Attacks(i, col - (row - i), row, col);
          return false;
        }
        if col + (row - i) < N && board[i, col + (row - i)] == 1 {
          assert Attacks(i, col + (row - i), row, col);
          return false;
        }
      }
      return true;
    }

    /** On a board that holds the placement `cols`, the scan's answer is the
        placement's safety: no queen of `cols` attacks (|cols|, col). */
    lemma UnattackedIsSafeFor(cols: seq<int>, col: int)
      requires Holds(cols) && |cols| < N
      ensures Unattacked(|cols|, col) <==> SafeFor(cols, col)
    {
    }

    /** Reads back, from a full board holding the placement `cols`, the
        column of the queen in every row: each row's scan stops at its queen,
        so no entry keeps the array's default 0 unless the queen is in
        column 0. */
    method ReadPlacement(ghost cols: seq<int>) returns (placement: seq<int>)
      requires Holds(cols) && |cols| == N
      ensures placement == cols
      ensures IsSolution(N, placement) <==> NonAttacking(cols)
    {
      var solution := new int[N](_ => 0);
      for i := 0 to N
        invariant solution[..i] == cols[..i]
      {
        ghost var found := false;
        for j := 0 to N
          invariant !found ==> j <= cols[i]
          invariant found ==> solution[i] == cols[i]
          invariant solution[..i] == cols[..i]
        {
          if board[i, j] == 1 {
            solution[i] := j;
            found := true;
            break;
          }
        }
        assert found;
        assert solution[..i + 1] == solution[..i] + [solution[i]];
      }
      assert solution[..] == cols;
      placement := solution[..];
    }

    /** The backtracking search from row `row`, the board holding the
        non-attacking placement `cols` of the rows above. Every completion of
        `cols` is appended to `solutions` in discovery order, nothing already
        recorded changes, and the board is left as it was found. */
    method SolveNQueens(row: int, ghost cols: seq<int>)
      requires Holds(cols) && row == |cols| && NonAttacking(cols)
      modifies board, this`solutions
      ensures Holds(cols)
      ensures forall i, j :: 0 <= i < N && 0 <= j < N ==> board[i, j] == old(board[i, j])
      ensures solutions == old(solutions) + Completions(N, cols)
      decreases N - row
    {
      if row == N {
        var solution := ReadPlacement(cols);
        solutions := solutions + [solution];
        return;
      }

      assert Completions(N, cols) == CompletionsFrom(N, cols, 0);
      for col := 0 to N
        invariant Holds(cols)
        invariant solutions + CompletionsFrom(N, cols, col) == old(solutions) + Completions(N, cols)
      {
        ghost var here := if SafeFor(cols, col) then Completions(N, cols + [col]) else [];
        ghost var rest := CompletionsFrom(N, cols, col + 1);
        ghost var before := solutions;
        assert CompletionsFrom(N, cols, col) == here + rest;
        var safe := IsSafe(row, col);
        UnattackedIsSafeFor(cols, col);
        if safe {
          board[row, col] := 1;
          forall i, j | 0 <= i < N && 0 <= j < N
            ensures board[i, j] == (if QueenAt(cols + [col], i, j) then 1 else 0)
          {
            QueenAtExtend(cols, col, i, j);
          }
          ExtendNonAttacking(cols, col);
          InRangeExtend(cols, col, N);
          SolveNQueens(row + 1, cols + [col]);
          board[row, col] := 0;
          forall i, j | 0 <= i < N && 0 <= j < N
            ensures board[i, j] == (if QueenAt(cols, i, j) then 1 else 0)
          {
            QueenAtExtend(cols, col, i, j);
          }
        }
        assert solutions == before + here;
        AppendAssoc(before, here, rest);
      }
    }

    /** Shows the next solution, wrapping round after the last. With no
        solution recorded (two or three queens) the remainder by zero throws
        an ArithmeticException: `failed` reports it and nothing changes. */
    method NextSolution() returns (failed: bool)
      requires Valid()
      modifies this`currentSolutionIndex
      ensures Valid()
      ensures failed <==> |solutions| == 0
      ensures failed ==> currentSolutionIndex == old(currentSolutionIndex)
      ensures !failed ==> currentSolutionIndex == NextIndex(old(currentSolutionIndex), |solutions|)
    {
      if |solutions| == 0 {
        return true;
      }
      currentSolutionIndex := (currentSolutionIndex + 1) % |solutions|;
      return false;
    }
  }
}
