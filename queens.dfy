/** The N-Queens puzzle and the order in which the search visits its solutions, stated on values.

    A placement is a sequence `cols` whose entry `cols[r]` is the column of
    the queen standing in row `r`; rows `0 .. |cols|-1` are filled, the rest
    of the board is empty. `Completions` enumerates, in the order in which
    the backtracking search visits them, every way of completing a placement
    to a full board, and the lemmas below say what that enumeration contains
    and in which order. */
module Queens {

  /** Queens on (r1, c1) and (r2, c2), in different rows, attack each other
      when they share a column or a diagonal: the column distance equals the
      row distance, in either direction. */
  predicate Attacks(r1: int, c1: int, r2: int, c2: int) {
    c1 == c2 || c1 - c2 == r1 - r2 || c1 - c2 == r2 - r1
  }

  /** The placement `cols` has a queen on row `r`, column `c`. */
  predicate QueenAt(cols: seq<int>, r: int, c: int) {
    0 <= r < |cols| && cols[r] == c
  }

  /** Adding a queen in the next free row adds that square and no other. */
  lemma QueenAtExtend(cols: seq<int>, col: int, r: int, c: int)
    ensures QueenAt(cols + [col], r, c) <==> QueenAt(cols, r, c) || (r == |cols| && c == col)
  {
  }

  /** Every queen of `cols` stands on one of the `n` columns of the board. */
  predicate InRange(cols: seq<int>, n: int) {
    forall r :: 0 <= r < |cols| ==> 0 <= cols[r] < n
  }

  /** A queen added on the board keeps every queen on the board. */
  lemma InRangeExtend(cols: seq<int>, col: int, n: int)
    requires InRange(cols, n) && 0 <= col < n
    ensures InRange(cols + [col], n)
  {
  }

  /** No two queens of `cols` attack each other. */
  predicate NonAttacking(cols: seq<int>) {
    forall i, j :: 0 <= i < j < |cols| ==> !Attacks(i, cols[i], j, cols[j])
  }

  /** A full solution of the n-queens puzzle: one queen per row, on the board,
      pairwise non-attacking. */
  predicate IsSolution(n: nat, cols: seq<int>) {
    |cols| == n && InRange(cols, n) && NonAttacking(cols)
  }

  /** A queen put into the next free row, `|cols|`, in column `col` is attacked
      by none of the queens already placed. */
  predicate SafeFor(cols: seq<int>, col: int) {
    forall r :: 0 <= r < |cols| ==> !Attacks(r, cols[r], |cols|, col)
  }

  /** `a` comes before `b` in lexicographic order: both agree on a common
      prefix, after which `a` has the smaller entry. */
  predicate LexLess(a: seq<int>, b: seq<int>) {
    exists k :: 0 <= k < |a| && k < |b| && a[..k] == b[..k] && a[k] < b[k]
  }

  /** Every earlier entry of `ss` is lexicographically smaller than every later one. */
  predicate StrictlySorted(ss: seq<seq<int>>) {
    forall i, j :: 0 <= i < j < |ss| ==> LexLess(ss[i], ss[j])
  }

  /** Every completion of the placement `cols` on an `n`×`n` board that the
      backtracking search reaches, in the order it reaches them: a full board
      is recorded as it stands, otherwise the columns of the next row are
      tried from 0 upwards. */
  function Completions(n: nat, cols: seq<int>): seq<seq<int>>
    requires |cols| <= n
    decreases n - |cols|, 1, 0
  {
    if |cols| == n then [cols] else CompletionsFrom(n, cols, 0)
  }

  /** The completions reached while trying the columns `col .. n-1` of row
      `|cols|`: a column is descended into only when it is safe. */
  function CompletionsFrom(n: nat, cols: seq<int>, col: nat): seq<seq<int>>
    requires |cols| < n && col <= n
    decreases n - |cols|, 0, n - col
  {
    if col == n then []
    else
      (if SafeFor(cols, col) then Completions(n, cols + [col]) else [])
      + CompletionsFrom(n, cols, col + 1)
  }

  /** Appending lists of solutions is associative. The search calls it by
      name: the inline assertion costs the solver far more in that proof. */
  lemma AppendAssoc(a: seq<seq<int>>, b: seq<seq<int>>, c: seq<seq<int>>)
    ensures (a + b) + c == a + (b + c)
  {
  }

  /** Every solution of the n-queens puzzle, in discovery order. */
  function Solutions(n: nat): seq<seq<int>> {
    Completions(n, [])
  }

  /** Adding one queen to a non-attacking placement keeps it non-attacking
      exactly when the new queen is safe. */
  lemma ExtendNonAttacking(cols: seq<int>, col: int)
    requires NonAttacking(cols)
    ensures NonAttacking(cols + [col]) <==> SafeFor(cols, col)
  {
    var ext := cols + [col];
    if SafeFor(cols, col) {
      forall i, j | 0 <= i < j < |ext| ensures !Attacks(i, ext[i], j, ext[j]) {
        if j < |cols| {
          assert ext[i] == cols[i] && ext[j] == cols[j];
        } else {
          assert ext[i] == cols[i] && ext[j] == col;
        }
      }
    }
    if NonAttacking(ext) {
      forall r | 0 <= r < |cols| ensures !Attacks(r, cols[r], |cols|, col) {
        assert ext[r] == cols[r] && ext[|cols|] == col;
      }
    }
  }

  /** Every completion is a full board that extends `cols`; the completions
      found from column `col` on put their next queen at `col` or later. */
  lemma {:induction false} CompletionsShape(n: nat, cols: seq<int>, s: seq<int>)
    requires |cols| <= n && s in Completions(n, cols)
    ensures |s| == n && s[..|cols|] == cols
    decreases n - |cols|, 1, 0
  {
    if |cols| < n {
      CompletionsFromShape(n, cols, 0, s);
    }
  }

  lemma {:induction false} CompletionsFromShape(n: nat, cols: seq<int>, col: nat, s: seq<int>)
    requires |cols| < n && col <= n && s in CompletionsFrom(n, cols, col)
    ensures |s| == n && s[..|cols|] == cols && col <= s[|cols|]
    decreases n - |cols|, 0, n - col
  {
    var here := if SafeFor(cols, col) then Completions(n, cols + [col]) else [];
    assert CompletionsFrom(n, cols, col) == here + CompletionsFrom(n, cols, col + 1);
    if s in here {
      CompletionsShape(n, cols + [col], s);
      assert s[..|cols|] == s[..|cols| + 1][..|cols|];
      assert s[|cols|] == s[..|cols| + 1][|cols|];
    } else {
      CompletionsFromShape(n, cols, col + 1, s);
    }
  }

  /** Soundness: starting from a non-attacking placement on the board, every
      completion is a solution of the puzzle. */
  lemma {:induction false} CompletionsSound(n: nat, cols: seq<int>, s: seq<int>)
    requires |cols| <= n && InRange(cols, n) && NonAttacking(cols)
    requires s in Completions(n, cols)
    ensures IsSolution(n, s)
    decreases n - |cols|, 1, 0
  {
    if |cols| < n {
      CompletionsFromSound(n, cols, 0, s);
    }
  }

  lemma {:induction false} CompletionsFromSound(n: nat, cols: seq<int>, col: nat, s: seq<int>)
    requires |cols| < n && col <= n && InRange(cols, n) && NonAttacking(cols)
    requires s in CompletionsFrom(n, cols, col)
    ensures IsSolution(n, s)
    decreases n - |cols|, 0, n - col
  {
    var here := if SafeFor(cols, col) then Completions(n, cols + [col]) else [];
    assert CompletionsFrom(n, cols, col) == here + CompletionsFrom(n, cols, col + 1);
    if s in here {
      ExtendNonAttacking(cols, col);
      CompletionsSound(n, cols + [col], s);
    } else {
      CompletionsFromSound(n, cols, col + 1, s);
    }
  }

  /** Completeness: every solution that extends `cols` is found. */
  lemma {:induction false} CompletionsComplete(n: nat, cols: seq<int>, s: seq<int>)
    requires |cols| <= n && IsSolution(n, s) && s[..|cols|] == cols
    ensures s in Completions(n, cols)
    decreases n - |cols|, 1, 0
  {
    if |cols| == n {
      assert s == s[..|cols|];
    } else {
      CompletionsFromComplete(n, cols, 0, s);
    }
  }

  lemma {:induction false} CompletionsFromComplete(n: nat, cols: seq<int>, col: nat, s: seq<int>)
    requires |cols| < n && col <= n && IsSolution(n, s) && s[..|cols|] == cols
    requires col <= s[|cols|]
    ensures s in CompletionsFrom(n, cols, col)
    decreases n - |cols|, 0, n - col
  {
    var here := if SafeFor(cols, col) then Completions(n, cols + [col]) else [];
    assert CompletionsFrom(n, cols, col) == here + CompletionsFrom(n, cols, col + 1);
    if s[|cols|] == col {
      var ext := cols + [col];
      assert s[..|ext|] == ext;
      forall r | 0 <= r < |cols| ensures !Attacks(r, cols[r], |cols|, col) {
        assert cols[r] == s[r];
      }
      CompletionsComplete(n, ext, s);
    } else {
      CompletionsFromComplete(n, cols, col + 1, s);
    }
  }

  /** Concatenating two sorted lists, every entry of the first smaller than
      every entry of the second, gives a sorted list. */
  lemma SortedAppend(xs: seq<seq<int>>, ys: seq<seq<int>>)
    requires StrictlySorted(xs) && StrictlySorted(ys)
    requires forall x, y :: x in xs && y in ys ==> LexLess(x, y)
    ensures StrictlySorted(xs + ys)
  {
  }

  /** Discovery order: the completions come out in strictly increasing
      lexicographic order. */
  lemma {:induction false} CompletionsSorted(n: nat, cols: seq<int>)
    requires |cols| <= n
    ensures StrictlySorted(Completions(n, cols))
    decreases n - |cols|, 1, 0
  {
    if |cols| < n {
      CompletionsFromSorted(n, cols, 0);
    }
  }

  lemma {:induction false} CompletionsFromSorted(n: nat, cols: seq<int>, col: nat)
    requires |cols| < n && col <= n
    ensures StrictlySorted(CompletionsFrom(n, cols, col))
    decreases n - |cols|, 0, n - col
  {
    if col < n {
      var here := if SafeFor(cols, col) then Completions(n, cols + [col]) else [];
      var rest := CompletionsFrom(n, cols, col + 1);
      if SafeFor(cols, col) {
        CompletionsSorted(n, cols + [col]);
      }
      CompletionsFromSorted(n, cols, col + 1);
      forall x, y | x in here && y in rest ensures LexLess(x, y) {
        BranchesOrdered(n, cols, col, x, y);
      }
      SortedAppend(here, rest);
    }
  }

  /** A completion found under column `col` of the next row precedes every
      completion found under a later column. */
  lemma BranchesOrdered(n: nat, cols: seq<int>, col: nat, x: seq<int>, y: seq<int>)
    requires |cols| < n && col < n
    requires x in Completions(n, cols + [col]) && y in CompletionsFrom(n, cols, col + 1)
    ensures LexLess(x, y)
  {
    CompletionsShape(n, cols + [col], x);
    CompletionsFromShape(n, cols, col + 1, y);
    var k := |cols|;
    assert x[..k] == x[..k + 1][..k] == cols;
    assert x[k] == x[..k + 1][k] == col;
    assert x[..k] == y[..k] && x[k] < y[k];
  }

  /** A strictly sorted list holds no entry twice. */
  lemma SortedDistinct(ss: seq<seq<int>>)
    requires StrictlySorted(ss)
    ensures forall i, j :: 0 <= i < j < |ss| ==> ss[i] != ss[j]
  {
  }

  /** The enumeration finds every solution of the puzzle, nothing else, and
      each one exactly once, in increasing lexicographic order. */
  lemma SolutionsExactlyOnce(n: nat)
    ensures forall s :: s in Solutions(n) <==> IsSolution(n, s)
    ensures StrictlySorted(Solutions(n))
    ensures forall i, j :: 0 <= i < j < |Solutions(n)| ==> Solutions(n)[i] != Solutions(n)[j]
  {
    forall s | s in Solutions(n) ensures IsSolution(n, s) {
      CompletionsSound(n, [], s);
    }
    forall s | IsSolution(n, s) ensures s in Solutions(n) {
      CompletionsComplete(n, [], s);
    }
    CompletionsSorted(n, []);
    SortedDistinct(Solutions(n));
  }

  /** On an empty board (n = 0) the search records exactly one, empty, solution. */
  lemma NoQueens()
    ensures Solutions(0) == [[]]
  {
  }

  /** One queen: the single solution puts it in column 0. */
  lemma OneQueen()
    ensures Solutions(1) == [[0]]
  {
    var e: seq<int> := [];
    assert e + [0] == [0];
    assert SafeFor(e, 0);
    assert CompletionsFrom(1, e, 1) == [];
    assert CompletionsFrom(1, e, 0) == [[0]] + [];
  }

  /** The queens of rows `i` and `j` of a non-attacking placement do not
      attack each other. */
  lemma NoAttack(cols: seq<int>, i: int, j: int)
    requires NonAttacking(cols) && 0 <= i < j < |cols|
    ensures !Attacks(i, cols[i], j, cols[j])
  {
  }

  /** Each entry of a list is one of its members. Called just before a
      contradiction, where an inline assertion would itself be a checked step. */
  lemma EntryIsMember(ss: seq<seq<int>>, i: int)
    requires 0 <= i < |ss|
    ensures ss[i] in ss
  {
  }

  /** With no solution to the puzzle, the search records nothing. */
  lemma NoSolutionFound(n: nat)
    requires forall s :: !IsSolution(n, s)
    ensures Solutions(n) == []
  {
    SolutionsExactlyOnce(n);
    if Solutions(n) != [] {
      EntryIsMember(Solutions(n), 0);
      assert false;
    }
  }

  /** Neither placement of two queens on adjacent rows of a 2-column board is
      safe. */
  lemma TwoQueensUnsolvable(s: seq<int>)
    ensures !IsSolution(2, s)
  {
    if IsSolution(2, s) {
      NoAttack(s, 0, 1);
      assert false;
    }
  }

  /** Two queens cannot be placed without an attack. */
  lemma TwoQueens()
    ensures Solutions(2) == []
  {
    forall s ensures !IsSolution(2, s) {
      TwoQueensUnsolvable(s);
    }
    NoSolutionFound(2);
  }

  /** No placement of three queens on a 3×3 board is non-attacking. */
  lemma ThreeQueensUnsolvable(s: seq<int>)
    ensures !IsSolution(3, s)
  {
    if IsSolution(3, s) {
      NoAttack(s, 0, 1);
      NoAttack(s, 0, 2);
      NoAttack(s, 1, 2);
      assert false;
    }
  }

  /** Three queens cannot be placed without an attack either. */
  lemma ThreeQueens()
    ensures Solutions(3) == []
  {
    forall s ensures !IsSolution(3, s) {
      ThreeQueensUnsolvable(s);
    }
    NoSolutionFound(3);
  }

  /** The 4×4 board has exactly two solutions. */
  lemma FourQueensSolutions(s: seq<int>)
    ensures IsSolution(4, s) <==> s == [1, 3, 0, 2] || s == [2, 0, 3, 1]
  {
    if IsSolution(4, s) {
      NoAttack(s, 0, 1); NoAttack(s, 0, 2); NoAttack(s, 0, 3);
      NoAttack(s, 1, 2); NoAttack(s, 1, 3); NoAttack(s, 2, 3);
      assert s == [s[0], s[1], s[2], s[3]];
    }
    if s == [1, 3, 0, 2] || s == [2, 0, 3, 1] {
      forall i, j | 0 <= i < j < 4 ensures !Attacks(i, s[i], j, s[j]) {
      }
    }
  }

  /** A list drawn from two values without repetition has at most two entries. */
  lemma AtMostTwo(ss: seq<seq<int>>, x: seq<int>, y: seq<int>)
    requires forall i :: 0 <= i < |ss| ==> ss[i] == x || ss[i] == y
    requires forall i, j :: 0 <= i < j < |ss| ==> ss[i] != ss[j]
    ensures |ss| <= 2
  {
    if |ss| > 2 {
      EntryIsMember(ss, 0);
      EntryIsMember(ss, 1);
      EntryIsMember(ss, 2);
      assert false;
    }
  }

  /** A sequence whose first entry is larger does not come first. */
  lemma FirstEntryDecides(a: seq<int>, b: seq<int>)
    requires |a| > 0 && |b| > 0 && a[0] > b[0]
    ensures !LexLess(a, b)
  {
  }

  /** Four queens: the search finds the two solutions, 1, 3, 0, 2 first. */
  lemma FourQueens()
    ensures Solutions(4) == [[1, 3, 0, 2], [2, 0, 3, 1]]
  {
    var x, y := [1, 3, 0, 2], [2, 0, 3, 1];
    var ss := Solutions(4);
    SolutionsExactlyOnce(4);
    FourQueensSolutions(x);
    FourQueensSolutions(y);
    assert x in ss && y in ss;
    forall i | 0 <= i < |ss| ensures ss[i] == x || ss[i] == y {
      FourQueensSolutions(ss[i]);
    }
    AtMostTwo(ss, x, y);
    FirstEntryDecides(y, x);
    assert LexLess(ss[0], ss[1]);
    assert ss == [x, y];
  }
}
