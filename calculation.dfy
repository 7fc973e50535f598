/** `calculate` stated on values: the root files placed first, each root
    expanded in turn, and the closure taken when recursion is on; then
    what the resulting registry and matrix are. */
module Calculation {
  import opened Common
  import opened Resolution
  import Relations
  import opened Expansion

  /** A matrix with no pair related. */
  ghost predicate NoEdges(m: seq<seq<bool>>)
  {
    forall i, j :: 0 <= i < |m| && 0 <= j < |m[i]| ==> !m[i][j]
  }

  /** The turn of `calculate`'s first loop for the root file `root`: the
      file it resolves to is placed when it is new; a root not found or
      resolving to a path already taken is reported. */
  ghost function Place(fs: FileSystem, dirs: seq<string>, st: Scan, root: string): (r: Scan)
    requires Fit(fs, st)
    ensures Fit(fs, r)
  {
    var f := Resolve(fs, dirs, root);
    if f.None? then st.(errs := st.errs + [RootNotFound(root)])
    else if f.value in st.names then st.(errs := st.errs + [RootRedundant(root)])
    else Appended(fs, st, f.value)
  }

  /** The state after the root files have been placed: the accepted roots,
      related to nothing, and one report for each root that is not found
      or that resolves to a path already taken. */
  ghost function Seeded(fs: FileSystem, dirs: seq<string>, roots: seq<string>): (r: Scan)
    ensures Fit(fs, r) && r.names == Accepted(fs, dirs, roots) && NoEdges(r.m)
    ensures |r.names| + |r.errs| == |roots|
    decreases |roots|, 2
  {
    if roots == [] then Scan([], [], []) else SeededSome(fs, dirs, roots)
  }

  /** `Seeded` for a non-empty root list.  It stands between `Seeded` and
      `PlacedLast` so that unfolding the first does not reach `Place`. */
  ghost function SeededSome(fs: FileSystem, dirs: seq<string>, roots: seq<string>): (r: Scan)
    requires roots != []
    ensures Fit(fs, r) && r.names == Accepted(fs, dirs, roots) && NoEdges(r.m)
    ensures |r.names| + |r.errs| == |roots|
    decreases |roots|, 1
  {
    PlacedLast(fs, dirs, roots)
  }

  /** Placing one more root places it after the others. */
  lemma SeededStep(fs: FileSystem, dirs: seq<string>, roots: seq<string>, root: string)
    ensures Seeded(fs, dirs, roots + [root]) == Place(fs, dirs, Seeded(fs, dirs, roots), root)
  {
    var s := roots + [root];
    assert s[..|s| - 1] == roots && s[|s| - 1] == root;
    assert Seeded(fs, dirs, s) == SeededSome(fs, dirs, s);
    assert SeededSome(fs, dirs, s) == PlacedLast(fs, dirs, s);
  }

  /** The last of `roots` placed after the others. */
  ghost function PlacedLast(fs: FileSystem, dirs: seq<string>, roots: seq<string>): (r: Scan)
    requires roots != []
    ensures Fit(fs, r) && r.names == Accepted(fs, dirs, roots) && NoEdges(r.m)
    ensures |r.names| + |r.errs| == |roots|
    decreases |roots|, 0
  {
    Place(fs, dirs, Seeded(fs, dirs, roots[..|roots| - 1]), roots[|roots| - 1])
  }

  /** Root `i` expanded by `calculate`'s second loop, started at `st`,
      after the turns for the roots before it. */
  ghost function Expanded(fs: FileSystem, dirs: seq<string>, recurse: bool, st: Scan, i: nat): (r: Scan)
    requires Fit(fs, st) && i < |st.names|
    ensures Fit(fs, r) && st.names <= r.names && st.errs <= r.errs
    decreases i, 1
  {
    Expand(fs, dirs, recurse, RootsDone(fs, dirs, recurse, st, i), i)
  }

  /** The state after turn `i` of `calculate`'s second loop, started at
      `st`: root `i` is expanded, and reported as incomplete when its
      expansion reported anything. */
  ghost function Turn(fs: FileSystem, dirs: seq<string>, recurse: bool, st: Scan, i: nat): (r: Scan)
    requires Fit(fs, st) && i < |st.names|
    ensures Fit(fs, r) && st.names <= r.names && st.errs <= r.errs
    decreases i, 2
  {
    var d := RootsDone(fs, dirs, recurse, st, i);
    var r1 := Expanded(fs, dirs, recurse, st, i);
    if |r1.errs| == |d.errs| then r1 else r1.(errs := r1.errs + [Incomplete(st.names[i])])
  }

  /** Turn `i` advances the state after the turns before it. */
  lemma TurnStep(fs: FileSystem, dirs: seq<string>, recurse: bool, st: Scan, i: nat)
    requires Fit(fs, st) && i < |st.names|
    ensures var d := RootsDone(fs, dirs, recurse, st, i);
            var r1 := Expand(fs, dirs, recurse, d, i);
            var r := RootsDone(fs, dirs, recurse, st, i + 1);
            && r.names == r1.names && r.m == r1.m
            && r.errs == if |r1.errs| == |d.errs| then r1.errs else r1.errs + [Incomplete(st.names[i])]
  {
    assert RootsDone(fs, dirs, recurse, st, i + 1) == After(fs, dirs, recurse, st, i);
    assert After(fs, dirs, recurse, st, i) == Turn(fs, dirs, recurse, st, i);
  }

  /** The state right after turn `i`.  It stands between `RootsDone` and
      `Turn` so that unfolding the first does not reach the body of the
      second. */
  ghost function After(fs: FileSystem, dirs: seq<string>, recurse: bool, st: Scan, i: nat): (r: Scan)
    requires Fit(fs, st) && i < |st.names|
    ensures Fit(fs, r) && st.names <= r.names && st.errs <= r.errs
    decreases i, 3
  {
    Turn(fs, dirs, recurse, st, i)
  }

  /** The state after `calculate`'s second loop, started at `st`, has
      expanded the first `i` roots. */
  ghost function RootsDone(fs: FileSystem, dirs: seq<string>, recurse: bool, st: Scan, i: nat): (r: Scan)
    requires Fit(fs, st) && i <= |st.names|
    ensures Fit(fs, r) && st.names <= r.names && st.errs <= r.errs
    decreases i, 0
  {
    if i == 0 then st else After(fs, dirs, recurse, st, i - 1)
  }

  /** `calculate(recurse)` on the search path `dirs` and the root list
      `roots`. */
  ghost function Calculated(fs: FileSystem, dirs: seq<string>, roots: seq<string>, recurse: bool): (r: Scan)
    ensures Fit(fs, r)
  {
    var s1 := RootsExpanded(fs, dirs, roots, recurse);
    if recurse then s1.(m := Relations.Closure(s1.m)) else s1
  }

  /** The state after both loops of `calculate`, before the closure. */
  ghost function RootsExpanded(fs: FileSystem, dirs: seq<string>, roots: seq<string>, recurse: bool): (r: Scan)
    ensures Fit(fs, r)
  {
    var s0 := Seeded(fs, dirs, roots);
    RootsDone(fs, dirs, recurse, s0, |s0.names|)
  }

  // ---------------------------------------------------------------- what calculate computes

  /** Every file of `names[i..n]` is `Resolvable`. */
  ghost predicate RootsClean(fs: FileSystem, dirs: seq<string>, names: seq<string>, i: nat, n: nat)
  {
    forall k :: i <= k < n && k < |names| ==> Resolvable(fs, dirs, names[k])
  }

  /** The first `i + 1` roots are `Resolvable` exactly when the first `i`
      are and root `i` is, read in any extension of the registry. */
  lemma RootsCleanNext(fs: FileSystem, dirs: seq<string>, n1: seq<string>, n2: seq<string>, i: nat)
    requires n1 <= n2 && i < |n1|
    ensures RootsClean(fs, dirs, n1, 0, i + 1) <==> RootsClean(fs, dirs, n1, 0, i) && Resolvable(fs, dirs, n2[i])
  {
    assert n1[i] == n2[i];
  }

  /** What the loop over the roots keeps: a sound matrix; the rows of the
      roots it has done, and with `recurse` the rows of every other file,
      covered; without `recurse`, no bit outside the roots' rows. */
  ghost predicate RootsInvariant(g: map<string, seq<string>>, recurse: bool, st: Scan, i: nat, n: nat)
  {
    && Sound(g, st.names, st.m) && n <= |st.names|
    && (forall k :: 0 <= k < i ==> Covered(g, st.names, st.m, k))
    && (recurse ==> forall k :: n <= k < |st.names| ==> Covered(g, st.names, st.m, k))
    && (!recurse ==> forall k, j :: n <= k < |st.m| && 0 <= j < |st.m| ==> !st.m[k][j])
  }

  /** One root: its expansion keeps the invariant with the root done. */
  lemma RootStep(fs: FileSystem, dirs: seq<string>, g: map<string, seq<string>>,
                 recurse: bool, st: Scan, i: nat, n: nat)
    requires IncludeMap(fs, dirs, g) && Fit(fs, st) && i < n
    requires RootsInvariant(g, recurse, st, i, n)
    ensures RootsInvariant(g, recurse, Expand(fs, dirs, recurse, st, i), i + 1, n)
    ensures Expand(fs, dirs, recurse, st, i).errs == st.errs <==>
      Resolvable(fs, dirs, st.names[i])
      && (recurse ==> Clean(fs, dirs, Expand(fs, dirs, recurse, st, i).names, |st.names|))
  {
    var r := Expand(fs, dirs, recurse, st, i);
    ExpandSpec(fs, dirs, g, recurse, st, i);
    forall k | 0 <= k < i + 1 ensures Covered(g, r.names, r.m, k) {
      if k < i {
        CoveredStable(g, st.names, st.m, r.names, r.m, k);
      }
    }
    if recurse {
      CoveredFrom(g, st.names, st.m, r.names, r.m, n);
    }
  }

  /** The loop over the roots keeps its invariant: after `i` turns, `i`
      roots are done. */
  lemma {:induction false} RootsKeep(fs: FileSystem, dirs: seq<string>, g: map<string, seq<string>>,
                                     recurse: bool, st: Scan, i: nat, n: nat)
    requires IncludeMap(fs, dirs, g) && Fit(fs, st) && i <= n
    requires RootsInvariant(g, recurse, st, 0, n)
    ensures RootsInvariant(g, recurse, RootsDone(fs, dirs, recurse, st, i), i, n)
    decreases i
  {
    if i > 0 {
      var j := i - 1;
      var d := RootsDone(fs, dirs, recurse, st, j);
      RootsKeep(fs, dirs, g, recurse, st, j, n);
      RootStep(fs, dirs, g, recurse, d, j, n);
      TurnStep(fs, dirs, recurse, st, j);
    }
  }

  /** After `i` turns of the loop over the roots nothing has been reported
      exactly when each of those roots is `Resolvable` and, with `recurse`,
      so is every file registered meanwhile. */
  lemma {:induction false} RootsErrs(fs: FileSystem, dirs: seq<string>, g: map<string, seq<string>>,
                                     recurse: bool, st: Scan, i: nat, n: nat)
    requires IncludeMap(fs, dirs, g) && Fit(fs, st) && i <= n
    requires RootsInvariant(g, recurse, st, 0, n)
    ensures RootsDone(fs, dirs, recurse, st, i).errs == st.errs <==>
      RootsClean(fs, dirs, st.names, 0, i)
      && (recurse ==> Clean(fs, dirs, RootsDone(fs, dirs, recurse, st, i).names, |st.names|))
    decreases i
  {
    if i > 0 {
      var j := i - 1;
      var d := RootsDone(fs, dirs, recurse, st, j);
      var r1 := Expand(fs, dirs, recurse, d, j);
      var r := RootsDone(fs, dirs, recurse, st, i);
      RootsErrs(fs, dirs, g, recurse, st, j, n);
      RootsKeep(fs, dirs, g, recurse, st, j, n);
      RootStep(fs, dirs, g, recurse, d, j, n);
      TurnStep(fs, dirs, recurse, st, j);
      assert r.errs == d.errs <==> r1.errs == d.errs;
      PrefixEq(st.errs, d.errs, r.errs);
      RootsCleanNext(fs, dirs, st.names, d.names, j);
      if recurse {
        CleanSplit(fs, dirs, d.names, r.names, |st.names|);
      }
    }
  }

  /** Every file of `names` whose directives `calculate` reads names only
      files found on the search path: with `recurse` every file, without it
      the first `n`. */
  ghost predicate Checked(fs: FileSystem, dirs: seq<string>, names: seq<string>, n: nat, recurse: bool)
  {
    forall k :: 0 <= k < |names| && (recurse || k < n) ==> Resolvable(fs, dirs, names[k])
  }

  lemma CheckedSplit(fs: FileSystem, dirs: seq<string>, n0: seq<string>, n1: seq<string>, recurse: bool)
    requires n0 <= n1
    ensures Checked(fs, dirs, n1, |n0|, recurse) <==>
      RootsClean(fs, dirs, n0, 0, |n0|) && (recurse ==> Clean(fs, dirs, n1, |n0|))
  {
    assert forall k :: 0 <= k < |n0| ==> n0[k] == n1[k];
  }

  /** The placed roots start the loop over them with its invariant. */
  lemma SeededInvariant(fs: FileSystem, dirs: seq<string>, g: map<string, seq<string>>,
                        roots: seq<string>, recurse: bool)
    ensures RootsInvariant(g, recurse, Seeded(fs, dirs, roots), 0, |Seeded(fs, dirs, roots).names|)
  {
  }

  /** The loop over the roots ends with every root done and the accepted
      roots still first. */
  lemma RootsOutcome(fs: FileSystem, dirs: seq<string>, g: map<string, seq<string>>,
                     roots: seq<string>, recurse: bool)
    requires IncludeMap(fs, dirs, g)
    ensures
      var s0 := Seeded(fs, dirs, roots);
      var s1 := RootsDone(fs, dirs, recurse, s0, |s0.names|);
      && RootsInvariant(g, recurse, s1, |s0.names|, |s0.names|)
      && s1.names[..|s0.names|] == Accepted(fs, dirs, roots)
  {
    var s0 := Seeded(fs, dirs, roots);
    var s1 := RootsDone(fs, dirs, recurse, s0, |s0.names|);
    SeededInvariant(fs, dirs, g, roots, recurse);
    RootsKeep(fs, dirs, g, recurse, s0, |s0.names|, |s0.names|);
    assert s1.names[..|s0.names|] == s0.names;
  }

  /** `calculate`'s registry: the accepted roots come first, in order, and
      every name is a distinct existing file. */
  lemma CalculatedNames(fs: FileSystem, dirs: seq<string>, roots: seq<string>, recurse: bool)
    ensures
      var r := Calculated(fs, dirs, roots, recurse);
      && |Accepted(fs, dirs, roots)| <= |r.names|
      && r.names[..|Accepted(fs, dirs, roots)|] == Accepted(fs, dirs, roots)
      && Distinct(r.names) && Registered(fs, r.names)
  {
    RootsOutcome(fs, dirs, IncludeMapOf(fs, dirs), roots, recurse);
  }

  /** `calculate` with recursion: the names are closed under inclusion and
      the matrix is the transitive closure of their include graph. */
  lemma CalculatedClosure(fs: FileSystem, dirs: seq<string>, roots: seq<string>)
    ensures
      var r := Calculated(fs, dirs, roots, true);
      r.m == Relations.Closure(Graph(fs, dirs, r.names)) && Closed(fs, dirs, r.names)
  {
    var g := IncludeMapOf(fs, dirs);
    var s0 := Seeded(fs, dirs, roots);
    var s1 := RootsDone(fs, dirs, true, s0, |s0.names|);
    RootsOutcome(fs, dirs, g, roots, true);
    ExactGraph(fs, dirs, g, s1.names, s1.m);
  }

  /** `calculate` without recursion: the matrix holds the direct includes
      of the roots alone, and every file a root includes is registered. */
  lemma CalculatedDirect(fs: FileSystem, dirs: seq<string>, roots: seq<string>)
    ensures
      var r := Calculated(fs, dirs, roots, false);
      var n := |Accepted(fs, dirs, roots)|;
      && r.m == RootGraph(fs, dirs, r.names, n)
      && forall i, b :: 0 <= i < n && b in Targets(fs, dirs, r.names[i]) ==> b in r.names
  {
    var g := IncludeMapOf(fs, dirs);
    var s0 := Seeded(fs, dirs, roots);
    var s1 := RootsDone(fs, dirs, false, s0, |s0.names|);
    RootsOutcome(fs, dirs, g, roots, false);
    ExactRootGraph(fs, dirs, g, s1.names, s1.m, |s0.names|);
  }

  /** `calculate` reports nothing exactly when every root is accepted and
      every file whose directives it read (each file with `recurse`, the
      roots without) names only files found on the search path. */
  lemma CalculatedErrs(fs: FileSystem, dirs: seq<string>, roots: seq<string>, recurse: bool)
    ensures
      var r := Calculated(fs, dirs, roots, recurse);
      r.errs == [] <==>
        |Accepted(fs, dirs, roots)| == |roots| && Checked(fs, dirs, r.names, |Accepted(fs, dirs, roots)|, recurse)
  {
    var g := IncludeMapOf(fs, dirs);
    var s0 := Seeded(fs, dirs, roots);
    var s1 := RootsDone(fs, dirs, recurse, s0, |s0.names|);
    SeededInvariant(fs, dirs, g, roots, recurse);
    RootsErrs(fs, dirs, g, recurse, s0, |s0.names|, |s0.names|);
    PrefixEq([], s0.errs, s1.errs);
    CheckedSplit(fs, dirs, s0.names, s1.names, recurse);
  }

  /** What `operator<<` lists under a root after `calculate` with
      recursion: the files the root reaches through one or more includes. */
  lemma ReportedClosure(fs: FileSystem, dirs: seq<string>, roots: seq<string>, i: int, b: string)
    requires 0 <= i < |Calculated(fs, dirs, roots, true).names|
    ensures
      var r := Calculated(fs, dirs, roots, true);
      b in Headers(r.names, r.m, i) <==>
        exists j :: 0 <= j < |r.names| && r.names[j] == b && Relations.Connected(Graph(fs, dirs, r.names), i, j)
  {
    var r := Calculated(fs, dirs, roots, true);
    var g := Graph(fs, dirs, r.names);
    CalculatedClosure(fs, dirs, roots);
    HeadersSpec(r.names, r.m, i, b);
    forall j | 0 <= j < |r.names|
      ensures r.m[i][j] <==> Relations.Connected(g, i, j)
    {
      Relations.ClosureConnected(g, i, j);
    }
  }

  /** What `operator<<` lists under a root after `calculate` without
      recursion: exactly the files the root includes directly. */
  lemma ReportedDirect(fs: FileSystem, dirs: seq<string>, roots: seq<string>, i: int, b: string)
    requires 0 <= i < |Accepted(fs, dirs, roots)|
    ensures
      var r := Calculated(fs, dirs, roots, false);
      b in Headers(r.names, r.m, i) <==> Edge(fs, dirs, r.names[i], b)
  {
    var r := Calculated(fs, dirs, roots, false);
    var n := |Accepted(fs, dirs, roots)|;
    CalculatedNames(fs, dirs, roots, false);
    CalculatedDirect(fs, dirs, roots);
    assert r.m == RootGraph(fs, dirs, r.names, n);
    HeadersSpec(r.names, r.m, i, b);
    if b in Headers(r.names, r.m, i) {
      var j :| 0 <= j < |r.names| && r.m[i][j] && r.names[j] == b;
      assert Edge(fs, dirs, r.names[i], r.names[j]);
    }
    if Edge(fs, dirs, r.names[i], b) {
      assert b in r.names;
      var j :| 0 <= j < |r.names| && r.names[j] == b;
      assert r.m[i][j];
    }
  }
}
