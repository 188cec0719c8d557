/** The two-row edit-distance routine of samples/dp.py, as written, and the
    routine its comments and names evidently intend. */
module EditDistance {
  import opened Wrappers

  /** The only way the routine fails: a list index out of range. */
  datatype DpError = IndexError

  function Min(x: int, y: int): (m: int)
    ensures m <= x && m <= y && (m == x || m == y)
  {
    if x <= y then x else y
  }

  /** The sequence the routine treats as the shorter one: `a` only when it is
      strictly shorter than `b`, so `b` on a tie. */
  function MinStr<T>(a: seq<T>, b: seq<T>): (r: seq<T>)
    ensures |r| <= |a| && |r| <= |b|
    ensures r == a || r == b
  {
    if |a| < |b| then a else b
  }

  /** The sequence the routine treats as the longer one: `a` only when it is
      strictly longer than `b`, so `b` on a tie as well. */
  function MaxStr<T>(a: seq<T>, b: seq<T>): (r: seq<T>)
    ensures |r| >= |a| && |r| >= |b|
    ensures r == a || r == b
  {
    if |a| > |b| then a else b
  }

  /** Which sequence plays which role, case by case. */
  lemma RowSelection<T>(a: seq<T>, b: seq<T>)
    ensures |a| < |b| ==> MinStr(a, b) == a && MaxStr(a, b) == b
    ensures |a| > |b| ==> MinStr(a, b) == b && MaxStr(a, b) == a
    ensures |a| == |b| ==> MinStr(a, b) == b && MaxStr(a, b) == b
  {
  }

  /** The cost the recurrence charges for the diagonal step that pairs `u` with `v`. */
  function StepCost<T(==)>(u: T, v: T, cost: int): int
  {
    if u == v then 0 else cost
  }

  /** The step both loops take: a cell computed from its three neighbours. */
  lemma DCell<T>(x: seq<T>, y: seq<T>, cost: int, i: nat, j: nat, up: int, left: int, diag: int, cell: int)
    requires 0 < i <= |x| && 0 < j <= |y|
    requires up == Cell(x, y, cost, i - 1, j) && left == Cell(x, y, cost, i, j - 1) && diag == Cell(x, y, cost, i - 1, j - 1)
    requires cell == Min(Min(up, left) + 1, diag + StepCost(x[i - 1], y[j - 1], cost))
    ensures cell == Cell(x, y, cost, i, j)
  {
  }

  /** D(x, y, cost, i, j): the value the recurrence assigns to row i, column j of
      the table, where row i pairs x[i-1] with column j's y[j-1]. Row 0 is
      0, 1, 2, ...; column 0 is i; every other cell is the minimum of the cell
      above plus one, the cell to the left plus one, and the cell diagonally
      above-left plus the step cost. */
  function D<T(==)>(x: seq<T>, y: seq<T>, cost: int, i: nat, j: nat): int
    requires i <= |x| && j <= |y|
    decreases i + j
  {
    if i == 0 then j
    else if j == 0 then i
    else Min(Min(D(x, y, cost, i - 1, j), D(x, y, cost, i, j - 1)) + 1,
             D(x, y, cost, i - 1, j - 1) + StepCost(x[i - 1], y[j - 1], cost))
  }

  /** A cell of the table as the loops below see it. It is D itself; the loops
      refer to it by this name so that the recurrence is unfolded only inside
      DCell, which keeps their proofs small. */
  function Cell<T(==)>(x: seq<T>, y: seq<T>, cost: int, i: nat, j: nat): int
    requires i <= |x| && j <= |y|
  {
    D(x, y, cost, i, j)
  }

  /** True when the routine runs to its return statement: the rows have
      min_size + 1 cells and the inner loop reads column max_size, so the lengths
      must agree, or the outer loop must not run at all. */
  predicate DpCompletes<T>(a: seq<T>, b: seq<T>)
  {
    |a| == |b| || |a| == 0 || |b| == 0
  }

  /** What samples/dp.py returns or raises for `a`, `b` and `cost`. */
  function DpOutcome<T(==)>(a: seq<T>, b: seq<T>, cost: int): (r: Result<int, DpError>)
    ensures r.Success? <==> DpCompletes(a, b)
  {
    var shorter := MinStr(a, b);
    if DpCompletes(a, b)
    then Success(D(MaxStr(a, b), shorter, cost, |shorter|, |shorter|))
    else Failure(IndexError)
  }

  /** The table before the first outer iteration: two rows of `minSize + 1`
      cells, row 0 counting up from 0 and row 1 all zeros. */
  method InitialStates(minSize: nat) returns (states: array2<int>)
    ensures fresh(states)
    ensures states.Length0 == 2 && states.Length1 == minSize + 1
    ensures forall k :: 0 <= k <= minSize ==> states[0, k] == k && states[1, k] == 0
  {
    states := new int[2, minSize + 1];
    for x := 0 to minSize + 1
      invariant forall k :: 0 <= k < x ==> states[0, k] == k
    {
      states[0, x] := x;
    }
    for x := 0 to minSize + 1
      invariant forall k :: 0 <= k <= minSize ==> states[0, k] == k
      invariant forall k :: 0 <= k < x ==> states[1, k] == 0
    {
      states[1, x] := 0;
    }
  }

  /** samples/dp.py as written: two rows of min_size + 1 cells, the outer loop over
      the shorter length, the inner loop over the longer one. A read past the end
      of a row is the IndexError Python raises. */
  method Dp<T(==)>(a: seq<T>, b: seq<T>, cost: int) returns (r: Result<int, DpError>)
    ensures r == DpOutcome(a, b, cost)
  {
    var minStr := if |a| < |b| then a else b;
    var maxStr := if |a| > |b| then a else b;
    var minSize := |minStr|;
    var maxSize := |maxStr|;
    assert minStr == MinStr(a, b) && maxStr == MaxStr(a, b);

    var states := InitialStates(minSize);

    ghost var last := 0;  // the row filled most recently, (i - 1) % 2
    for i := 1 to minSize + 1
      invariant i > 1 ==> maxSize == minSize
      invariant last == (i - 1) % 2
      invariant forall k {:trigger states[last, k]} :: 0 <= k <= minSize ==> states[last, k] == Cell(maxStr, minStr, cost, i - 1, k)
    {
      var prev := if i % 2 == 0 then 1 else 0;
      var curr := i % 2;
      assert prev == last && curr != prev;
      states[curr, 0] := i;
      for j := 1 to maxSize + 1
        invariant j <= minSize + 1
        invariant forall k {:trigger states[prev, k]} :: 0 <= k <= minSize ==> states[prev, k] == Cell(maxStr, minStr, cost, i - 1, k)
        invariant forall k {:trigger states[curr, k]} :: 0 <= k < j ==> states[curr, k] == Cell(maxStr, minStr, cost, i, k)
      {
        if j >= states.Length1 {
          assert !DpCompletes(a, b);
          r := Failure(IndexError);
          return;
        }
        var cell := Min(Min(states[prev, j], states[curr, j - 1]) + 1,
                        states[prev, j - 1] + (if maxStr[i - 1] == minStr[j - 1] then 0 else cost));
        DCell(maxStr, minStr, cost, i, j, states[prev, j], states[curr, j - 1], states[prev, j - 1], cell);
        states[curr, j] := cell;
      }
      last := curr;
    }
    assert last == minSize % 2 && DpCompletes(a, b);
    r := Success(states[minSize % 2, minSize]);
  }

  /** With a non-negative cost every cell is non-negative. */
  lemma {:induction false} DNonNegative<T>(x: seq<T>, y: seq<T>, cost: int, i: nat, j: nat)
    requires cost >= 0 && i <= |x| && j <= |y|
    ensures D(x, y, cost, i, j) >= 0
    decreases i + j
  {
    if i > 0 && j > 0 {
      DNonNegative(x, y, cost, i - 1, j);
      DNonNegative(x, y, cost, i, j - 1);
      DNonNegative(x, y, cost, i - 1, j - 1);
    }
  }

  /** A sequence is at distance zero from itself along the whole diagonal. */
  lemma {:induction false} DDiagonalZero<T>(x: seq<T>, cost: int, i: nat)
    requires cost >= 0 && i <= |x|
    ensures D(x, x, cost, i, i) == 0
  {
    if i > 0 {
      DDiagonalZero(x, cost, i - 1);
      DNonNegative(x, x, cost, i, i);
    }
  }

  /** When the shorter sequence is empty the routine returns 0, whatever the
      length of the other. */
  lemma DpEmptyGivesZero<T>(a: seq<T>, b: seq<T>, cost: int)
    requires |a| == 0 || |b| == 0
    ensures DpOutcome(a, b, cost) == Success(0)
  {
  }

  /** Whenever the routine returns and the cost is non-negative it returns 0: on
      equal lengths both rows are built from `b`, so the table is `b` against itself. */
  lemma DpReturnsZero<T>(a: seq<T>, b: seq<T>, cost: int)
    requires cost >= 0 && DpCompletes(a, b)
    ensures DpOutcome(a, b, cost) == Success(0)
  {
    if |a| == |b| {
      DDiagonalZero(b, cost, |b|);
    }
  }

  // ---------------------------------------------------------------------------
  // The routine as evidently intended: the outer loop over the longer sequence,
  // the inner loop over the shorter one, and each input playing its own role.

  /** The edit distance of `a` and `b` under unit insertion and deletion and the
      given substitution cost: the last cell of the table of `a` against `b`. */
  function Levenshtein<T(==)>(a: seq<T>, b: seq<T>, cost: int): int
  {
    D(a, b, cost, |a|, |b|)
  }

  /** The table of x against y is the transpose of the table of y against x. */
  lemma {:induction false} DTranspose<T>(x: seq<T>, y: seq<T>, cost: int, i: nat, j: nat)
    requires i <= |x| && j <= |y|
    ensures Cell(x, y, cost, i, j) == Cell(y, x, cost, j, i)
    decreases i + j
  {
    if i > 0 && j > 0 {
      DTranspose(x, y, cost, i - 1, j);
      DTranspose(x, y, cost, i, j - 1);
      DTranspose(x, y, cost, i - 1, j - 1);
      TransposeStep(x, y, cost, i, j);
    }
  }

  /** One inductive step of DTranspose: a cell and its transpose agree once their
      three neighbours do. */
  lemma TransposeStep<T>(x: seq<T>, y: seq<T>, cost: int, i: nat, j: nat)
    requires 0 < i <= |x| && 0 < j <= |y|
    requires Cell(x, y, cost, i - 1, j) == Cell(y, x, cost, j, i - 1)
    requires Cell(x, y, cost, i, j - 1) == Cell(y, x, cost, j - 1, i)
    requires Cell(x, y, cost, i - 1, j - 1) == Cell(y, x, cost, j - 1, i - 1)
    ensures Cell(x, y, cost, i, j) == Cell(y, x, cost, j, i)
  {
    var up, left := Cell(x, y, cost, i - 1, j), Cell(x, y, cost, i, j - 1);
    assert Min(up, left) == Min(left, up);
    assert StepCost(x[i - 1], y[j - 1], cost) == StepCost(y[j - 1], x[i - 1], cost);
  }

  /** No cell exceeds the number of elements on its two prefixes. */
  lemma {:induction false} DAtMostLengths<T>(x: seq<T>, y: seq<T>, cost: int, i: nat, j: nat)
    requires i <= |x| && j <= |y|
    ensures D(x, y, cost, i, j) <= i + j
    decreases i + j
  {
    if i > 0 && j > 0 {
      DAtMostLengths(x, y, cost, i - 1, j);
    }
  }

  lemma LevenshteinSymmetric<T>(a: seq<T>, b: seq<T>, cost: int)
    ensures Levenshtein(a, b, cost) == Levenshtein(b, a, cost)
  {
    DTranspose(a, b, cost, |a|, |b|);
  }

  lemma LevenshteinEmpty<T>(a: seq<T>, cost: int)
    ensures Levenshtein([], a, cost) == |a| && Levenshtein(a, [], cost) == |a|
  {
  }

  lemma LevenshteinSelf<T>(a: seq<T>, cost: int)
    requires cost >= 0
    ensures Levenshtein(a, a, cost) == 0
  {
    DDiagonalZero(a, cost, |a|);
  }

  lemma LevenshteinBounds<T>(a: seq<T>, b: seq<T>, cost: int)
    requires cost >= 0
    ensures 0 <= Levenshtein(a, b, cost) <= |a| + |b|
  {
    DNonNegative(a, b, cost, |a|, |b|);
    DAtMostLengths(a, b, cost, |a|, |b|);
  }

  /** The corrected routine: still two rows of min(|a|, |b|) + 1 cells, but the
      outer loop runs over the longer sequence and the inner loop over the shorter. */
  method EditDistance<T(==)>(a: seq<T>, b: seq<T>, cost: int) returns (r: int)
    ensures r == Levenshtein(a, b, cost)
  {
    var minStr, maxStr := b, a;
    if |a| < |b| {
      minStr, maxStr := a, b;
    }
    var minSize := |minStr|;
    var maxSize := |maxStr|;

    var states := new int[2, minSize + 1];
    for x := 0 to minSize + 1
      invariant forall k :: 0 <= k < x ==> states[0, k] == k
    {
      states[0, x] := x;
    }

    ghost var last := 0;  // the row filled most recently, (i - 1) % 2
    for i := 1 to maxSize + 1
      invariant last == (i - 1) % 2
      invariant forall k {:trigger states[last, k]} :: 0 <= k <= minSize ==> states[last, k] == Cell(maxStr, minStr, cost, i - 1, k)
    {
      var prev := (i - 1) % 2;
      var curr := i % 2;
      assert prev == last && curr != prev;
      states[curr, 0] := i;
      for j := 1 to minSize + 1
        invariant forall k {:trigger states[prev, k]} :: 0 <= k <= minSize ==> states[prev, k] == Cell(maxStr, minStr, cost, i - 1, k)
        invariant forall k {:trigger states[curr, k]} :: 0 <= k < j ==> states[curr, k] == Cell(maxStr, minStr, cost, i, k)
      {
        var cell := Min(Min(states[prev, j], states[curr, j - 1]) + 1,
                        states[prev, j - 1] + StepCost(maxStr[i - 1], minStr[j - 1], cost));
        DCell(maxStr, minStr, cost, i, j, states[prev, j], states[curr, j - 1], states[prev, j - 1], cell);
        states[curr, j] := cell;
      }
      last := curr;
    }
    r := states[maxSize % 2, minSize];
    DTranspose(maxStr, minStr, cost, maxSize, minSize);
  }

  // ---------------------------------------------------------------------------
  // Inputs on which the routine as written and the intended one part ways.

  /** Lengths 1 and 2: the inner loop reads past the end of a row. */
  lemma DpRaisesOnUnequalLengths()
    ensures DpOutcome([1], [1, 2], 1) == Failure(IndexError)
    ensures Levenshtein([1], [1, 2], 1) == 1
  {
  }

  /** An empty first sequence: the outer loop never runs. */
  lemma DpIgnoresLongerWhenShorterEmpty()
    ensures DpOutcome([], [7], 1) == Success(0)
    ensures Levenshtein([], [7], 1) == 1
  {
  }

  /** Equal lengths: both roles go to `b`, so `a` is never read. */
  lemma DpIgnoresFirstOnEqualLengths()
    ensures DpOutcome([1], [2], 1) == Success(0)
    ensures Levenshtein([1], [2], 1) == 1
  {
  }
}
