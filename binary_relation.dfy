/** A growable square matrix of bits (`BinaryRelation`) with Warshall's
    transitive closure.  The logical relation is a `length` x `length`
    matrix; the physical storage is a `size` x `size` block whose cells
    outside the logical corner stay false. */
module Relations {

  /** Initial physical size when no positive hint is given. */
  const StartSize: int := 1
  /** Factor by which the physical size grows when the matrix is full. */
  const GrowFactor: int := 2
  /** Results of `cmp`. */
  const Same: int := 0
  const Different: int := 1

  // ---------------------------------------------------------------- matrices as values

  /** Every row of `m` is as long as `m` itself. */
  ghost predicate Square(m: seq<seq<bool>>)
  {
    forall i :: 0 <= i < |m| ==> |m[i]| == |m|
  }

  /** The empty relation on `n` elements. */
  ghost function Empty(n: nat): (r: seq<seq<bool>>)
    ensures |r| == n && Square(r)
    ensures forall i, j :: 0 <= i < n && 0 <= j < n ==> !r[i][j]
  {
    seq(n, i => seq(n, j => false))
  }

  /** `m` with one more element, related to nothing and nothing related to it. */
  ghost function Extended(m: seq<seq<bool>>): (r: seq<seq<bool>>)
    requires Square(m)
    ensures |r| == |m| + 1 && Square(r)
    ensures forall i, j :: 0 <= i < |r| && 0 <= j < |r| ==> r[i][j] == (i < |m| && j < |m| && m[i][j])
  {
    seq(|m| + 1, i requires 0 <= i < |m| + 1 => seq(|m| + 1, j requires 0 <= j < |m| + 1 => i < |m| && j < |m| && m[i][j]))
  }

  /** Two square matrices of the same size with the same cells are equal. */
  lemma SameCells(a: seq<seq<bool>>, b: seq<seq<bool>>)
    requires Square(a) && Square(b) && |a| == |b|
    requires forall i, j :: 0 <= i < |a| && 0 <= j < |a| ==> a[i][j] == b[i][j]
    ensures a == b
  {
    forall i | 0 <= i < |a|
      ensures a[i] == b[i]
    {
      assert forall j :: 0 <= j < |a| ==> a[i][j] == b[i][j];
    }
  }

  /** One cell after the pass of Warshall's loop for pivot `k`: row `k` and
      column `k` are left alone, and any other cell with `i -> k -> j` is
      set to `value`. */
  ghost function PivotCell(a: seq<seq<bool>>, k: int, value: bool, i: int, j: int): bool
    requires Square(a) && 0 <= k < |a| && 0 <= i < |a| && 0 <= j < |a|
  {
    if i != k && j != k && a[i][k] && a[k][j] then value else a[i][j]
  }

  /** The whole pass for pivot `k`. */
  ghost function PivotStep(a: seq<seq<bool>>, k: int, value: bool): (r: seq<seq<bool>>)
    requires Square(a) && 0 <= k < |a|
    ensures |r| == |a| && Square(r)
  {
    seq(|a|, i requires 0 <= i < |a| => seq(|a|, j requires 0 <= j < |a| => PivotCell(a, k, value, i, j)))
  }

  /** The first `k` passes of Warshall's loop, writing `value`. */
  ghost function Steps(m: seq<seq<bool>>, value: bool, k: nat): (r: seq<seq<bool>>)
    requires Square(m) && k <= |m|
    ensures |r| == |m| && Square(r)
    decreases k
  {
    if k == 0 then m else PivotStep(Steps(m, value, k - 1), k - 1, value)
  }

  /** What `makeTransitive` computes. */
  ghost function Closure(m: seq<seq<bool>>): (r: seq<seq<bool>>)
    requires Square(m)
    ensures |r| == |m| && Square(r)
  {
    Steps(m, true, |m|)
  }

  /** `m` with its diagonal cleared. */
  ghost function ClearDiagonal(m: seq<seq<bool>>): (r: seq<seq<bool>>)
    requires Square(m)
    ensures |r| == |m| && Square(r)
    ensures forall i, j :: 0 <= i < |m| && 0 <= j < |m| ==> r[i][j] == (i != j && m[i][j])
  {
    seq(|m|, i requires 0 <= i < |m| => seq(|m|, j requires 0 <= j < |m| => i != j && m[i][j]))
  }

  /** What `makeNonTransitive` computes. */
  ghost function Reduction(m: seq<seq<bool>>): (r: seq<seq<bool>>)
    requires Square(m)
    ensures |r| == |m| && Square(r)
  {
    ClearDiagonal(Steps(m, false, |m|))
  }

  // ---------------------------------------------------------------- paths

  /** `p` is a walk of at least one step from `i` to `j` along `m` whose
      inner nodes are all below `k`. */
  ghost predicate PathIn(m: seq<seq<bool>>, p: seq<int>, i: int, j: int, k: int)
  {
    && Square(m)
    && |p| >= 2 && p[0] == i && p[|p| - 1] == j
    && (forall t :: 0 <= t < |p| ==> 0 <= p[t] < |m|)
    && (forall t :: 0 < t < |p| ==> m[p[t - 1]][p[t]])
    && (forall t :: 0 < t < |p| - 1 ==> p[t] < k)
  }

  /** `j` can be reached from `i` in one or more steps through nodes below `k`. */
  ghost predicate Reach(m: seq<seq<bool>>, i: int, j: int, k: int)
  {
    exists p :: PathIn(m, p, i, j, k)
  }

  /** `j` can be reached from `i` in one or more steps (the path definition
      `R + R^2 + ... + R^N` of the transitive closure). */
  ghost predicate Connected(m: seq<seq<bool>>, i: int, j: int)
  {
    exists p :: PathIn(m, p, i, j, |m|)
  }

  lemma EdgePath(m: seq<seq<bool>>, i: int, j: int, k: int)
    requires Square(m) && 0 <= i < |m| && 0 <= j < |m| && m[i][j]
    ensures PathIn(m, [i, j], i, j, k)
  {
  }

  /** Following a path from `i` to `x` by one from `x` to `j`. */
  lemma Join(m: seq<seq<bool>>, p: seq<int>, q: seq<int>, i: int, x: int, j: int, k: int)
    requires PathIn(m, p, i, x, k) && PathIn(m, q, x, j, k) && x < k
    ensures PathIn(m, p + q[1..], i, j, k)
  {
    var r := p + q[1..];
    forall t | 0 < t < |r|
      ensures m[r[t - 1]][r[t]]
    {
      if t >= |p| {
        assert r[t] == q[t - |p| + 1];
        assert r[t - 1] == q[t - |p|];
      }
    }
  }

  /** A path through nodes below `k + 1` either avoids `k`, or passes from
      its start to `k` and from `k` to its end through nodes below `k`. */
  lemma {:induction false} SplitAtPivot(m: seq<seq<bool>>, p: seq<int>, i: int, j: int, k: int)
    requires 0 <= k && PathIn(m, p, i, j, k + 1)
    ensures Reach(m, i, j, k) || (Reach(m, i, k, k) && Reach(m, k, j, k))
    decreases |p|
  {
    if |p| == 2 {
      assert PathIn(m, p, i, j, k);
    } else {
      var x := p[1];
      var q := p[1..];
      assert PathIn(m, q, x, j, k + 1);
      SplitAtPivot(m, q, x, j, k);
      if x == k {
        EdgePath(m, i, k, k);
        assert Reach(m, i, k, k);
      } else if Reach(m, x, j, k) {
        var w :| PathIn(m, w, x, j, k);
        EdgePath(m, i, x, k);
        Join(m, [i, x], w, i, x, j, k);
      } else {
        var w :| PathIn(m, w, x, k, k);
        EdgePath(m, i, x, k);
        Join(m, [i, x], w, i, x, k, k);
      }
    }
  }

  lemma Widen(m: seq<seq<bool>>, p: seq<int>, i: int, j: int, k: int, k': int)
    requires PathIn(m, p, i, j, k) && k <= k'
    ensures PathIn(m, p, i, j, k')
  {
  }

  /** Allowing `k` as an inner node adds exactly the paths through `k`. */
  lemma ReachPivot(m: seq<seq<bool>>, i: int, j: int, k: int)
    requires Square(m) && 0 <= k < |m| && 0 <= i < |m| && 0 <= j < |m|
    ensures Reach(m, i, j, k + 1) <==> Reach(m, i, j, k) || (Reach(m, i, k, k) && Reach(m, k, j, k))
  {
    if Reach(m, i, j, k + 1) {
      var p :| PathIn(m, p, i, j, k + 1);
      SplitAtPivot(m, p, i, j, k);
    }
    if Reach(m, i, j, k) {
      var p :| PathIn(m, p, i, j, k);
      Widen(m, p, i, j, k, k + 1);
    }
    if Reach(m, i, k, k) && Reach(m, k, j, k) {
      var p :| PathIn(m, p, i, k, k);
      var q :| PathIn(m, q, k, j, k);
      Widen(m, p, i, k, k, k + 1);
      Widen(m, q, k, j, k, k + 1);
      Join(m, p, q, i, k, j, k + 1);
    }
  }

  /** With no inner node allowed, reaching is one step. */
  lemma ReachNone(m: seq<seq<bool>>, i: int, j: int)
    requires Square(m) && 0 <= i < |m| && 0 <= j < |m|
    ensures Reach(m, i, j, 0) <==> m[i][j]
  {
    if m[i][j] {
      EdgePath(m, i, j, 0);
    }
    if Reach(m, i, j, 0) {
      var p :| PathIn(m, p, i, j, 0);
      assert !(1 < |p| - 1) by {
        assert p[1] >= 0;
      }
      assert m[p[0]][p[1]];
    }
  }

  /** After `k` passes of `makeTransitive`'s loop, a cell is set exactly
      when its column can be reached from its row through nodes below `k`. */
  lemma {:induction false} StepsReach(m: seq<seq<bool>>, k: nat, i: int, j: int)
    requires Square(m) && k <= |m| && 0 <= i < |m| && 0 <= j < |m|
    ensures Steps(m, true, k)[i][j] <==> Reach(m, i, j, k)
    decreases k
  {
    if k == 0 {
      ReachNone(m, i, j);
    } else {
      var a := Steps(m, true, k - 1);
      StepsReach(m, k - 1, i, j);
      StepsReach(m, k - 1, i, k - 1);
      StepsReach(m, k - 1, k - 1, j);
      ReachPivot(m, i, j, k - 1);
      assert Steps(m, true, k)[i][j] == PivotCell(a, k - 1, true, i, j);
    }
  }

  /** `makeTransitive` computes the transitive closure: a cell is set
      exactly when there is a path of one or more steps. */
  lemma ClosureConnected(m: seq<seq<bool>>, i: int, j: int)
    requires Square(m) && 0 <= i < |m| && 0 <= j < |m|
    ensures Closure(m)[i][j] <==> Connected(m, i, j)
  {
    StepsReach(m, |m|, i, j);
  }

  /** The closure keeps every edge of the relation. */
  lemma ClosureExtends(m: seq<seq<bool>>, i: int, j: int)
    requires Square(m) && 0 <= i < |m| && 0 <= j < |m| && m[i][j]
    ensures Closure(m)[i][j]
  {
    EdgePath(m, i, j, |m|);
    ClosureConnected(m, i, j);
  }

  /** The closure is transitive. */
  lemma ClosureTransitive(m: seq<seq<bool>>, i: int, j: int, l: int)
    requires Square(m) && 0 <= i < |m| && 0 <= j < |m| && 0 <= l < |m|
    requires Closure(m)[i][j] && Closure(m)[j][l]
    ensures Closure(m)[i][l]
  {
    ClosureConnected(m, i, j);
    ClosureConnected(m, j, l);
    ClosureConnected(m, i, l);
    var p :| PathIn(m, p, i, j, |m|);
    var q :| PathIn(m, q, j, l, |m|);
    Join(m, p, q, i, j, l, |m|);
  }

  /** Contrary to its documentation, `makeTransitive` does not make the
      relation reflexive: an element related to nothing stays unrelated to
      itself. */
  lemma ClosureNotReflexive(m: seq<seq<bool>>)
    requires m == [[false]]
    ensures Closure(m) == m
  {
    assert Square(m);
    assert Steps(m, true, 0) == m;
    assert Closure(m) == PivotStep(m, 0, true);
    assert Closure(m)[0][0] == PivotCell(m, 0, true, 0, 0);
    SameCells(Closure(m), m);
  }

  /** The passes of `makeNonTransitive` only ever clear cells. */
  lemma {:induction false} StepsClear(m: seq<seq<bool>>, k: nat, i: int, j: int)
    requires Square(m) && k <= |m| && 0 <= i < |m| && 0 <= j < |m|
    ensures Steps(m, false, k)[i][j] ==> m[i][j]
    decreases k
  {
    if k > 0 {
      StepsClear(m, k - 1, i, j);
      assert Steps(m, false, k)[i][j] == PivotCell(Steps(m, false, k - 1), k - 1, false, i, j);
    }
  }

  /** `makeNonTransitive` keeps a subset of the relation and leaves no
      element related to itself. */
  lemma ReductionSubset(m: seq<seq<bool>>, i: int, j: int)
    requires Square(m) && 0 <= i < |m| && 0 <= j < |m|
    ensures Reduction(m)[i][j] ==> m[i][j]
    ensures !Reduction(m)[i][i]
  {
    StepsClear(m, |m|, i, j);
  }

  /** On an acyclic relation `makeTransitive` relates no element to itself. */
  lemma AcyclicIrreflexive(m: seq<seq<bool>>, i: int)
    requires Square(m) && 0 <= i < |m| && !Connected(m, i, i)
    ensures !Closure(m)[i][i]
  {
    ClosureConnected(m, i, i);
  }

  // ---------------------------------------------------------------- what makeNonTransitive keeps

  /** Every chain of two pairs of `m` is bridged by a pair of `m`. */
  ghost predicate Transitive(m: seq<seq<bool>>)
    requires Square(m)
  {
    forall i, j, l :: 0 <= i < |m| && 0 <= j < |m| && 0 <= l < |m| && m[i][j] && m[j][l] ==> m[i][l]
  }

  /** No element of `m` is related to itself. */
  ghost predicate Irreflexive(m: seq<seq<bool>>)
    requires Square(m)
  {
    forall i :: 0 <= i < |m| ==> !m[i][i]
  }

  /** No element below `k` lies strictly between `i` and `j` in `m`. */
  ghost predicate NoneBetween(m: seq<seq<bool>>, i: int, j: int, k: int)
    requires Square(m) && 0 <= i < |m| && 0 <= j < |m| && k <= |m|
  {
    forall p :: 0 <= p < k ==> !(m[i][p] && m[p][j])
  }

  /** A walk along a transitive relation is bridged by one of its pairs. */
  lemma {:induction false} TransitivePath(m: seq<seq<bool>>, p: seq<int>, i: int, j: int, k: int)
    requires PathIn(m, p, i, j, k) && Transitive(m)
    ensures m[i][j]
    decreases |p|
  {
    assert m[p[0]][p[1]];
    if |p| > 2 {
      assert PathIn(m, p[1..], p[1], j, k);
      TransitivePath(m, p[1..], p[1], j, k);
    }
  }

  /** A walk along `a` is a walk along any relation that contains `a`. */
  lemma SubPath(a: seq<seq<bool>>, b: seq<seq<bool>>, p: seq<int>, i: int, j: int, k: int)
    requires PathIn(a, p, i, j, k) && Square(b) && |b| == |a|
    requires forall x, y :: 0 <= x < |a| && 0 <= y < |a| && a[x][y] ==> b[x][y]
    ensures PathIn(b, p, i, j, k)
  {
  }

  /** A pair the clearing pass for pivot `k` removes stays connected
      through `k`: the pass never touches row `k` or column `k`. */
  lemma PivotEdge(a: seq<seq<bool>>, k: int, x: int, y: int)
    requires Square(a) && 0 <= k < |a| && 0 <= x < |a| && 0 <= y < |a| && a[x][y]
    ensures Connected(PivotStep(a, k, false), x, y)
  {
    var b := PivotStep(a, k, false);
    assert b[x][y] == PivotCell(a, k, false, x, y);
    if b[x][y] {
      EdgePath(b, x, y, |b|);
    } else {
      assert b[x][k] == PivotCell(a, k, false, x, k);
      assert b[k][y] == PivotCell(a, k, false, k, y);
      assert PathIn(b, [x, k, y], x, y, |b|);
    }
  }

  /** So the clearing pass for pivot `k` keeps every connection. */
  lemma {:induction false} PivotPath(a: seq<seq<bool>>, k: int, p: seq<int>, i: int, j: int)
    requires Square(a) && 0 <= k < |a| && PathIn(a, p, i, j, |a|)
    ensures Connected(PivotStep(a, k, false), i, j)
    decreases |p|
  {
    var b := PivotStep(a, k, false);
    PivotEdge(a, k, i, p[1]);
    if |p| > 2 {
      assert PathIn(a, p[1..], p[1], j, |a|);
      PivotPath(a, k, p[1..], p[1], j);
      var q1 :| PathIn(b, q1, i, p[1], |b|);
      var q2 :| PathIn(b, q2, p[1], j, |b|);
      Join(b, q1, q2, i, p[1], j, |b|);
    }
  }

  /** Every pair of `m` stays connected through the clearing passes. */
  lemma {:induction false} StepsConnected(m: seq<seq<bool>>, k: nat, i: int, j: int)
    requires Square(m) && k <= |m| && 0 <= i < |m| && 0 <= j < |m| && m[i][j]
    ensures Connected(Steps(m, false, k), i, j)
    decreases k
  {
    if k == 0 {
      EdgePath(m, i, j, |m|);
    } else {
      StepsConnected(m, k - 1, i, j);
      var a := Steps(m, false, k - 1);
      var p :| PathIn(a, p, i, j, |a|);
      PivotPath(a, k - 1, p, i, j);
    }
  }

  /** Warshall's loop clearing bits leaves the transitive closure of a
      transitive relation unaffected. */
  lemma StepsKeepClosure(m: seq<seq<bool>>)
    requires Square(m) && Transitive(m)
    ensures Closure(Steps(m, false, |m|)) == m
  {
    var s := Steps(m, false, |m|);
    forall x, y | 0 <= x < |m| && 0 <= y < |m|
      ensures s[x][y] ==> m[x][y]
    {
      StepsClear(m, |m|, x, y);
    }
    forall i, j | 0 <= i < |m| && 0 <= j < |m|
      ensures Closure(s)[i][j] == m[i][j]
    {
      ClosureConnected(s, i, j);
      if m[i][j] {
        StepsConnected(m, |m|, i, j);
      }
      if Connected(s, i, j) {
        var p :| PathIn(s, p, i, j, |s|);
        SubPath(s, m, p, i, j, |m|);
        TransitivePath(m, p, i, j, |m|);
      }
    }
    SameCells(Closure(s), m);
  }

  /** On a transitive relation with no element related to itself,
      `makeNonTransitive` leaves the transitive closure unaffected. */
  lemma ReductionKeepsClosure(m: seq<seq<bool>>)
    requires Square(m) && Transitive(m) && Irreflexive(m)
    ensures Closure(Reduction(m)) == m
  {
    var s := Steps(m, false, |m|);
    forall i | 0 <= i < |m|
      ensures !s[i][i]
    {
      StepsClear(m, |m|, i, i);
    }
    SameCells(Reduction(m), s);
    StepsKeepClosure(m);
  }

  /** After `k` clearing passes over a strict order, a pair survives
      exactly when no element below `k` lies between its ends. */
  lemma {:induction false} StepsHasse(m: seq<seq<bool>>, k: nat, i: int, j: int)
    requires Square(m) && Transitive(m) && Irreflexive(m)
    requires k <= |m| && 0 <= i < |m| && 0 <= j < |m|
    ensures Steps(m, false, k)[i][j] <==> m[i][j] && NoneBetween(m, i, j, k)
    decreases k
  {
    if k > 0 {
      var q := k - 1;
      var a := Steps(m, false, q);
      StepsHasse(m, q, i, j);
      StepsHasse(m, q, i, q);
      StepsHasse(m, q, q, j);
      assert Steps(m, false, k)[i][j] == PivotCell(a, q, false, i, j);
      if m[i][q] && m[q][j] && a[i][j] {
        // nothing lies between `i` and `q`, or between `q` and `j`, either
        forall p | 0 <= p < q
          ensures !(m[i][p] && m[p][q]) && !(m[q][p] && m[p][j])
        {
          assert m[p][q] && m[q][j] ==> m[p][j];
          assert m[i][q] && m[q][p] ==> m[i][p];
        }
      }
    }
  }

  /** On a strict order `makeNonTransitive` keeps exactly the pairs with
      nothing between them: its Hasse diagram. */
  lemma ReductionHasse(m: seq<seq<bool>>, i: int, j: int)
    requires Square(m) && Transitive(m) && Irreflexive(m) && 0 <= i < |m| && 0 <= j < |m|
    ensures Reduction(m)[i][j] <==> m[i][j] && NoneBetween(m, i, j, |m|)
  {
    StepsHasse(m, |m|, i, j);
  }

  /** A self-dependency is not kept: `makeNonTransitive` clears the
      diagonal, so the closure of its result loses that element's bit. */
  lemma SelfLoopLost(m: seq<seq<bool>>)
    requires m == [[true]]
    ensures Square(m) && Transitive(m)
    ensures Reduction(m) == [[false]] && Closure(Reduction(m)) == [[false]]
  {
    assert Square(m);
    assert Steps(m, false, 1) == PivotStep(m, 0, false);
    assert Steps(m, false, 1)[0][0] == PivotCell(m, 0, false, 0, 0);
    SameCells(Reduction(m), [[false]]);
    ClosureNotReflexive([[false]]);
  }

  // ---------------------------------------------------------------- the matrix object

  class BinaryRelation {
    /** `d_rel_p`: the physical `size` x `size` block. */
    var rel: array2<bool>
    /** `d_size`. */
    var size: int
    /** `d_length`. */
    var length: int

    /** The logical relation. */
    ghost var M: seq<seq<bool>>
    ghost var Repr: set<object>

    /** The physical block holds the logical relation in its top-left
        corner and false everywhere else. */
    ghost predicate Valid()
      reads this, Repr
    {
      && Repr == {this, rel}
      && rel.Length0 == size && rel.Length1 == size
      && 1 <= size && 0 <= length <= size
      && |M| == length && Square(M)
      && forall i, j :: 0 <= i < size && 0 <= j < size ==>
           rel[i, j] == (i < length && j < length && M[i][j])
    }

    /** A relation on `max(initialEntries, 0)` elements with no pair related;
        the hint only sizes the first allocation. */
    constructor (initialEntries: int, maxEntriesHint: int)
      ensures Valid() && fresh(Repr)
      ensures length == (if initialEntries > 0 then initialEntries else 0)
      ensures M == Empty(length)
      ensures size == if maxEntriesHint > 0 && maxEntriesHint >= length then maxEntriesHint
                      else if StartSize >= length then StartSize else length
    {
      var s := if maxEntriesHint > 0 then maxEntriesHint else StartSize;
      var n := if initialEntries > 0 then initialEntries else 0;
      if s < n {
        s := n;
      }
      size := s;
      length := n;
      rel := new bool[s, s]((i, j) => false);
      M := Empty(n);
      new;
      Repr := {this, rel};
    }

    /** `grow`: doubles the physical size, keeping the relation. */
    method Grow()
      requires Valid()
      modifies Repr
      ensures Valid() && fresh(Repr - old(Repr))
      ensures size == old(size) * GrowFactor
      ensures length == old(length) && M == old(M)
    {
      var newSize := size * GrowFactor;
      var tmp := rel;
      rel := new bool[newSize, newSize]((i, j) => false);
      var i := 0;
      while i < size
        invariant 0 <= i <= size
        invariant rel != tmp && fresh(rel) && rel.Length0 == newSize && rel.Length1 == newSize
        modifies rel
        invariant tmp.Length0 == size && tmp.Length1 == size && newSize == size * GrowFactor
        invariant forall a, b :: 0 <= a < newSize && 0 <= b < newSize ==>
                    rel[a, b] == (a < i && b < size && tmp[a, b])
      {
        forall b | 0 <= b < size {
          rel[i, b] := tmp[i, b];
        }
        i := i + 1;
      }
      size := newSize;
      Repr := {this, rel};
    }

    /** `compress`: shrinks the physical size to the length when the
        relation is neither empty nor already tight. */
    method Compress()
      requires Valid()
      modifies Repr
      ensures Valid() && fresh(Repr - old(Repr))
      ensures size == if old(size) > old(length) > 0 then old(length) else old(size)
      ensures length == old(length) && M == old(M)
    {
      if size > length && length > 0 {
        size := length;
        var tmp := rel;
        rel := new bool[size, size]((i, j) => false);
        var i := 0;
        while i < size
          invariant 0 <= i <= size
          invariant rel != tmp && fresh(rel) && rel.Length0 == size && rel.Length1 == size
          modifies rel
          invariant tmp.Length0 == old(size) && tmp.Length1 == old(size) && size < old(size)
          invariant forall a, b :: 0 <= a < size && 0 <= b < size ==>
                      rel[a, b] == (a < i && tmp[a, b])
        {
          forall b | 0 <= b < size {
            rel[i, b] := tmp[i, b];
          }
          i := i + 1;
        }
        Repr := {this, rel};
      }
    }

    /** `appendEntry`: adds one element related to nothing and returns its
        index, growing the block first when it is full. */
    method AppendEntry() returns (index: int)
      requires Valid()
      modifies Repr
      ensures Valid() && fresh(Repr - old(Repr))
      ensures index == old(length) && length == old(length) + 1
      ensures M == Extended(old(M))
      ensures size == if old(length) >= old(size) then old(size) * GrowFactor else old(size)
    {
      if length >= size {
        Grow();
      }
      index := length;
      length := length + 1;
      M := Extended(M);
    }

    /** `set(row, col, bit)`: stores whether `bit` is non-zero. */
    method Set(row: int, col: int, bit: int)
      requires Valid() && 0 <= row < length && 0 <= col < length
      modifies Repr
      ensures Valid() && Repr == old(Repr) && length == old(length)
      ensures M == old(M)[row := old(M)[row][col := bit != 0]]
    {
      rel[row, col] := bit != 0;
      M := M[row := M[row][col := bit != 0]];
    }

    /** `set(row, col)`: relates `row` to `col`. */
    method SetOn(row: int, col: int)
      requires Valid() && 0 <= row < length && 0 <= col < length
      modifies Repr
      ensures Valid() && Repr == old(Repr) && length == old(length)
      ensures M == old(M)[row := old(M)[row][col := true]]
    {
      rel[row, col] := true;
      M := M[row := M[row][col := true]];
    }

    /** `clr(row, col)`: unrelates `row` and `col`. */
    method Clr(row: int, col: int)
      requires Valid() && 0 <= row < length && 0 <= col < length
      modifies Repr
      ensures Valid() && Repr == old(Repr) && length == old(length)
      ensures M == old(M)[row := old(M)[row][col := false]]
    {
      rel[row, col] := false;
      M := M[row := M[row][col := false]];
    }

    /** `get`: whether `row` is related to `col`. */
    function Get(row: int, col: int): (b: bool)
      requires Valid() && 0 <= row < length && 0 <= col < length
      reads Repr
      ensures b == M[row][col]
    {
      rel[row, col]
    }

    /** `Length`: the number of elements. */
    function Length(): (n: int)
      requires Valid()
      reads Repr
      ensures n == |M|
    {
      length
    }

    /** The pass of Warshall's inner loop over the columns of one row `r`
        that holds `r -> k`. */
    method PivotRow(k: int, r: int, value: bool, ghost a: seq<seq<bool>>)
      requires Square(a) && |a| == length && length == size && 0 <= k < length && 0 <= r < length
      requires rel.Length0 == size && rel.Length1 == size
      requires r != k && a[r][k]
      requires forall i, j :: 0 <= i < length && 0 <= j < length ==>
                 rel[i, j] == (if i < r then PivotStep(a, k, value)[i][j] else a[i][j])
      modifies rel
      ensures forall i, j :: 0 <= i < length && 0 <= j < length ==>
                rel[i, j] == (if i <= r then PivotStep(a, k, value)[i][j] else a[i][j])
    {
      var c := 0;
      while c < length
        invariant 0 <= c <= length
        invariant forall i, j :: 0 <= i < length && 0 <= j < length ==>
                    rel[i, j] == (if i < r || (i == r && j < c) then PivotStep(a, k, value)[i][j] else a[i][j])
      {
        assert rel[k, c] == a[k][c];
        assert rel[r, k] == a[r][k];
        if rel[k, c] && rel[r, k] {
          if c != k {
            rel[r, c] := value;
          }
        }
        c := c + 1;
      }
    }

    /** The pass of Warshall's loop over the rows for pivot `k`. */
    method Pivot(k: int, value: bool, ghost a: seq<seq<bool>>)
      requires Square(a) && |a| == length && length == size && 0 <= k < length
      requires rel.Length0 == size && rel.Length1 == size
      requires forall i, j :: 0 <= i < length && 0 <= j < length ==> rel[i, j] == a[i][j]
      modifies rel
      ensures forall i, j :: 0 <= i < length && 0 <= j < length ==> rel[i, j] == PivotStep(a, k, value)[i][j]
    {
      var r := 0;
      while r < length
        invariant 0 <= r <= length
        invariant forall i, j :: 0 <= i < length && 0 <= j < length ==>
                    rel[i, j] == (if i < r then PivotStep(a, k, value)[i][j] else a[i][j])
      {
        if !rel[r, k] {
          assert forall j :: 0 <= j < length ==> PivotStep(a, k, value)[r][j] == a[r][j];
        } else if r == k {
          assert forall j :: 0 <= j < length ==> PivotStep(a, k, value)[r][j] == a[r][j];
        } else {
          PivotRow(k, r, value, a);
        }
        r := r + 1;
      }
    }

    /** The triple loop of `warshall` on a tight block: `value` is written
        along every `i -> k -> j` for each pivot `k` in turn. */
    method Passes(value: bool)
      requires Valid() && (length == 0 || size == length)
      modifies Repr
      ensures Valid() && Repr == old(Repr) && length == old(length)
      ensures M == Steps(old(M), value, |old(M)|)
    {
      var s := length;
      ghost var m0 := M;
      var k := 0;
      while k < s
        invariant 0 <= k <= s && s == length && |m0| == s && Square(m0)
        invariant rel.Length0 == size && rel.Length1 == size && (s == 0 || size == s)
        modifies rel
        invariant forall i, j :: 0 <= i < size && 0 <= j < size ==>
                    rel[i, j] == (i < s && j < s && Steps(m0, value, k)[i][j])
      {
        Pivot(k, value, Steps(m0, value, k));
        k := k + 1;
      }
      M := Steps(m0, value, s);
    }

    /** `warshall(bit)`: compresses the block, then runs Warshall's triple
        loop writing `bit != 0`. */
    method Warshall(bit: int)
      requires Valid()
      modifies Repr
      ensures Valid() && fresh(Repr - old(Repr))
      ensures length == old(length)
      ensures M == Steps(old(M), bit != 0, |old(M)|)
    {
      Compress();
      Passes(bit != 0);
    }

    /** `makeTransitive`: the transitive closure (see `ClosureConnected`). */
    method MakeTransitive()
      requires Valid()
      modifies Repr
      ensures Valid() && fresh(Repr - old(Repr))
      ensures M == Closure(old(M))
    {
      Warshall(1);
    }

    /** The loop of `makeNonTransitive` that subtracts the identity. */
    method ClearDiagonalCells()
      requires Valid()
      modifies Repr
      ensures Valid() && Repr == old(Repr) && length == old(length)
      ensures M == ClearDiagonal(old(M))
    {
      ghost var m1 := M;
      var i := 0;
      while i < length
        invariant 0 <= i <= length && |m1| == length
        invariant Valid() && Repr == old(Repr) && |M| == |m1|
        invariant forall a, b :: 0 <= a < length && 0 <= b < length ==>
                    M[a][b] == (!(a == b && a < i) && m1[a][b])
      {
        rel[i, i] := false;
        M := M[i := M[i][i := false]];
        i := i + 1;
      }
      SameCells(M, ClearDiagonal(m1));
    }

    /** `makeNonTransitive`: Warshall's loop clearing bits, then the
        diagonal cleared (see `ReductionSubset`); on a transitive relation
        with no self bit the closure is unaffected (`ReductionKeepsClosure`). */
    method MakeNonTransitive()
      requires Valid()
      modifies Repr
      ensures Valid() && fresh(Repr - old(Repr))
      ensures M == Reduction(old(M))
      ensures Transitive(old(M)) && Irreflexive(old(M)) ==> Closure(M) == old(M)
    {
      Warshall(0);
      ClearDiagonalCells();
      if Transitive(old(M)) && Irreflexive(old(M)) {
        ReductionKeepsClosure(old(M));
      }
    }

    /** `memcmp` of the whole `n` x `n` corner of two blocks. */
    static predicate BlocksDiffer(a: array2<bool>, b: array2<bool>, n: int)
      requires 0 <= n <= a.Length0 && n <= a.Length1 && n <= b.Length0 && n <= b.Length1
      reads a, b
    {
      exists i, j :: 0 <= i < n && 0 <= j < n && a[i, j] != b[i, j]
    }

    /** `memcmp` of the first `n` cells of row `i` of two blocks. */
    static predicate RowsDiffer(a: array2<bool>, b: array2<bool>, i: int, n: int)
      requires 0 <= i < a.Length0 && i < b.Length0 && 0 <= n <= a.Length1 && n <= b.Length1
      reads a, b
    {
      exists j :: 0 <= j < n && a[i, j] != b[i, j]
    }

    /** `cmp`: 0 exactly when both relations have the same length and the
        same pairs.  The whole-block shortcut is sound because cells outside
        the logical corner are false. */
    method Cmp(other: BinaryRelation) returns (r: int)
      requires Valid() && other.Valid()
      ensures r == Same || r == Different
      ensures r == Same <==> length == other.length && M == other.M
    {
      if length != other.length {
        return Different;
      }
      if size == other.size && BlocksDiffer(rel, other.rel, size) {
        var a, b :| 0 <= a < size && 0 <= b < size && rel[a, b] != other.rel[a, b];
        assert M[a][b] != other.M[a][b];
        return Different;
      }
      var i := 0;
      while i < length
        invariant 0 <= i <= length
        invariant forall a, b :: 0 <= a < i && 0 <= b < length ==> M[a][b] == other.M[a][b]
      {
        if RowsDiffer(rel, other.rel, i, length) {
          var b :| 0 <= b < length && rel[i, b] != other.rel[i, b];
          assert M[i][b] != other.M[i][b];
          return Different;
        }
        assert forall b :: 0 <= b < length ==> rel[i, b] == other.rel[i, b];
        i := i + 1;
      }
      SameCells(M, other.M);
      return Same;
    }

    /** `operator==`. */
    method Equal(other: BinaryRelation) returns (b: bool)
      requires Valid() && other.Valid()
      ensures b <==> length == other.length && M == other.M
    {
      var c := Cmp(other);
      b := c == Same;
    }

    /** `operator!=`. */
    method NotEqual(other: BinaryRelation) returns (b: bool)
      requires Valid() && other.Valid()
      ensures b <==> !(length == other.length && M == other.M)
    {
      var c := Cmp(other);
      b := c != Same;
    }
  }
}
