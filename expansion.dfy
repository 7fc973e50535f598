/** `getDep`'s recursion stated on values: the registry as its list of
    names, the relation as its matrix and the error stream as a list of
    diagnostics. The methods in `CompileDeps` are proved to compute these
    functions; the lemmas here say what the functions compute. */
module Expansion {
  import opened Common
  import opened Resolution
  import Relations

  /** What the calculation reports on its error stream; the message text
      is not modelled. */
  datatype Diagnostic =
    | RootNotFound(file: string)
    | RootRedundant(file: string)
    | IncludeNotFound(name: string)
    | Unreadable(file: string)
    | Incomplete(root: string)

  /** The registry, the relation and the error stream at one point of the
      calculation. */
  datatype Scan = Scan(names: seq<string>, m: seq<seq<bool>>, errs: seq<Diagnostic>)

  /** A registry of distinct existing files with a square matrix over it. */
  ghost predicate Fit(fs: FileSystem, st: Scan)
  {
    && Registered(fs, st.names) && Distinct(st.names) && |st.names| <= |fs.Keys|
    && |st.m| == |st.names| && Relations.Square(st.m)
  }

  /** `st` with the bit of row `i`, column `j` set. */
  ghost function Set(st: Scan, i: int, j: int): (r: Scan)
    requires |st.m| == |st.names| && Relations.Square(st.m) && 0 <= i < |st.m| && 0 <= j < |st.m|
    ensures r.names == st.names && r.errs == st.errs && |r.m| == |st.m| && Relations.Square(r.m)
  {
    st.(m := st.m[i := st.m[i][j := true]])
  }

  /** `st` with the existing file `path`, not yet registered, appended and
      related to nothing. */
  ghost function Appended(fs: FileSystem, st: Scan, path: string): (r: Scan)
    requires Fit(fs, st) && path in fs && path !in st.names
    ensures Fit(fs, r) && r.names == st.names + [path] && r.errs == st.errs
    ensures r.m == Relations.Extended(st.m)
  {
    var r := Scan(st.names + [path], Relations.Extended(st.m), st.errs);
    DistinctBound(r.names, fs.Keys);
    r
  }

  /** The turn of `getDep`'s loop for the directive `d` of file `index`. */
  ghost function Visit(fs: FileSystem, dirs: seq<string>, recurse: bool, st: Scan, index: int, d: string): (r: Scan)
    requires Fit(fs, st) && 0 <= index < |st.names|
    ensures Fit(fs, r) && st.names <= r.names && st.errs <= r.errs
    decreases |fs.Keys| - |st.names|, 1, 0
  {
    var f := Resolve(fs, dirs, d);
    if f.None? then st.(errs := st.errs + [IncludeNotFound(d)])
    else if f.value in st.names then Set(st, index, IndexOf(st.names, f.value))
    else Set(Grown(fs, dirs, recurse, st, f.value), index, |st.names|)
  }

  /** A newly found file `path` registered after the others, and expanded
      at once when `recurse` is set. */
  ghost function Grown(fs: FileSystem, dirs: seq<string>, recurse: bool, st: Scan, path: string): (r: Scan)
    requires Fit(fs, st) && path in fs && path !in st.names
    ensures Fit(fs, r) && st.names + [path] <= r.names && st.errs <= r.errs
    decreases |fs.Keys| - |st.names|, 0, 0
  {
    var st1 := Appended(fs, st, path);
    if recurse then Expand(fs, dirs, recurse, st1, |st.names|) else st1
  }

  /** The turns of `getDep`'s loop for the directives `ds[k..]`. */
  ghost function Walk(fs: FileSystem, dirs: seq<string>, recurse: bool, st: Scan, index: int,
                      ds: seq<string>, k: nat): (r: Scan)
    requires Fit(fs, st) && 0 <= index < |st.names| && k <= |ds|
    ensures Fit(fs, r) && st.names <= r.names && st.errs <= r.errs
    decreases |fs.Keys| - |st.names|, 2, |ds| - k
  {
    if k == |ds| then st
    else Walk(fs, dirs, recurse, Visit(fs, dirs, recurse, st, index, ds[k]), index, ds, k + 1)
  }

  /** `getDep(index)`: every directive of the file, then the report of a
      file that cannot be opened. */
  ghost function Expand(fs: FileSystem, dirs: seq<string>, recurse: bool, st: Scan, index: int): (r: Scan)
    requires Fit(fs, st) && 0 <= index < |st.names|
    ensures Fit(fs, r) && st.names <= r.names && st.errs <= r.errs
    decreases |fs.Keys| - |st.names|, 3, 0
  {
    var name := st.names[index];
    var st1 := Walk(fs, dirs, recurse, st, index, DepsOf(fs, name), 0);
    if name in fs then st1 else st1.(errs := st1.errs + [Unreadable(name)])
  }

  // ---------------------------------------------------------------- what getDep computes

  /** Every directive of the file at `p` names a file found on the search path. */
  ghost predicate Resolvable(fs: FileSystem, dirs: seq<string>, p: string)
  {
    forall d :: d in DepsOf(fs, p) ==> Resolve(fs, dirs, d).Some?
  }

  /** Every file of `names` from position `lo` on is `Resolvable`. */
  ghost predicate Clean(fs: FileSystem, dirs: seq<string>, names: seq<string>, lo: nat)
  {
    forall i :: lo <= i < |names| ==> Resolvable(fs, dirs, names[i])
  }

  /** Every directive of `ds[k..]` names a file found on the search path. */
  ghost predicate AllResolve(fs: FileSystem, dirs: seq<string>, ds: seq<string>, k: nat)
  {
    forall j :: k <= j < |ds| ==> Resolve(fs, dirs, ds[j]).Some?
  }

  /** Row `index` of `r` relates the file to every file a directive of
      `ds[k..]` names. */
  ghost predicate Recorded(fs: FileSystem, dirs: seq<string>, r: Scan, index: int, ds: seq<string>, k: nat)
  {
    forall j :: k <= j < |ds| && Resolve(fs, dirs, ds[j]).Some? ==>
      RowHolds(r.names, r.m, index, [Resolve(fs, dirs, ds[j]).value])
  }

  lemma AllResolveNext(fs: FileSystem, dirs: seq<string>, ds: seq<string>, k: nat)
    requires k < |ds|
    ensures AllResolve(fs, dirs, ds, k) <==> Resolve(fs, dirs, ds[k]).Some? && AllResolve(fs, dirs, ds, k + 1)
  {
  }

  /** What a step of the expansion keeps and adds, with `g` the include
      map: the matrix stays sound and only grows; with `recurse`, every file
      it registers has its row covered, and without it only row `index`
      gains bits. */
  ghost predicate Progress(g: map<string, seq<string>>, recurse: bool, index: int, st: Scan, r: Scan)
  {
    && Sound(g, r.names, r.m) && Grew(st.names, st.m, r.names, r.m)
    && (recurse ==> forall i :: |st.names| <= i < |r.names| ==> Covered(g, r.names, r.m, i))
    && (!recurse ==> Relations.Square(r.m) && OnlyRow(st.m, r.m, index))
  }

  lemma CleanSplit(fs: FileSystem, dirs: seq<string>, n1: seq<string>, n2: seq<string>, lo: nat)
    requires n1 <= n2 && lo <= |n1|
    ensures Clean(fs, dirs, n2, lo) <==> Clean(fs, dirs, n1, lo) && Clean(fs, dirs, n2, |n1|)
  {
    if Clean(fs, dirs, n1, lo) && Clean(fs, dirs, n2, |n1|) {
      forall i | lo <= i < |n2| ensures Resolvable(fs, dirs, n2[i]) {
        if i < |n1| {
          assert n2[i] == n1[i];
        }
      }
    }
    if Clean(fs, dirs, n2, lo) {
      forall i | lo <= i < |n1| ensures Resolvable(fs, dirs, n1[i]) {
        assert n2[i] == n1[i];
      }
    }
  }

  /** Two steps of the expansion make one. */
  lemma ProgressTrans(g: map<string, seq<string>>, recurse: bool, index: int, st: Scan, r1: Scan, r: Scan)
    requires Progress(g, recurse, index, st, r1) && Progress(g, recurse, index, r1, r) && Distinct(r.names)
    ensures Progress(g, recurse, index, st, r)
  {
    GrewTrans(st.names, st.m, r1.names, r1.m, r.names, r.m);
    if recurse {
      CoveredFrom(g, r1.names, r1.m, r.names, r.m, |st.names|);
    } else {
      OnlyRowTrans(st.m, r1.m, r.m, index);
    }
  }

  /** Of three streams each extending the one before, the last equals the
      first exactly when no step added anything. */
  lemma PrefixEq(a: seq<Diagnostic>, b: seq<Diagnostic>, c: seq<Diagnostic>)
    requires a <= b && b <= c
    ensures c == a <==> b == a && c == b
  {
    if c == a {
      assert |b| == |a|;
    }
  }

  /** Setting a bit keeps every other bit. */
  lemma SetGrew(st: Scan, i: int, j: int)
    requires |st.m| == |st.names| && Relations.Square(st.m) && 0 <= i < |st.m| && 0 <= j < |st.m|
    ensures Grew(st.names, st.m, st.names, Set(st, i, j).m)
    ensures Set(st, i, j).m[i][j]
  {
  }

  lemma AppendedGrew(fs: FileSystem, st: Scan, path: string)
    requires Fit(fs, st) && path in fs && path !in st.names
    ensures Grew(st.names, st.m, Appended(fs, st, path).names, Appended(fs, st, path).m)
  {
  }

  /** One directive: the file it names, if any, is registered and related
      to file `index`; no new diagnostic exactly when it resolves and, with
      `recurse`, every file registered meanwhile is `Resolvable`. */
  lemma {:induction false} VisitSpec(fs: FileSystem, dirs: seq<string>, g: map<string, seq<string>>,
                                     recurse: bool, st: Scan, index: int, d: string)
    requires IncludeMap(fs, dirs, g) && Fit(fs, st) && 0 <= index < |st.names|
    requires Sound(g, st.names, st.m) && d in DepsOf(fs, st.names[index])
    ensures Progress(g, recurse, index, st, Visit(fs, dirs, recurse, st, index, d))
    ensures Resolve(fs, dirs, d).Some? ==>
      RowHolds(Visit(fs, dirs, recurse, st, index, d).names, Visit(fs, dirs, recurse, st, index, d).m,
               index, [Resolve(fs, dirs, d).value])
    ensures Visit(fs, dirs, recurse, st, index, d).errs == st.errs <==>
      Resolve(fs, dirs, d).Some? && (recurse ==> Clean(fs, dirs, Visit(fs, dirs, recurse, st, index, d).names, |st.names|))
    decreases |fs.Keys| - |st.names|, 1, 0
  {
    var f := Resolve(fs, dirs, d);
    var r := Visit(fs, dirs, recurse, st, index, d);
    if f.None? {
      GrewRefl(st.names, st.m, index);
      assert |r.errs| == |st.errs| + 1;
    } else {
      if f.value in st.names {
        KnownSpec(fs, dirs, g, recurse, st, index, d);
      } else {
        IncludesOf(fs, dirs, g, st.names[index], d);
        var n := |st.names|;
        var r2 := Grown(fs, dirs, recurse, st, f.value);
        GrownSpec(fs, dirs, g, recurse, st, f.value);
        assert r2.names[n] == f.value && r2.names[index] == st.names[index];
        SoundSet(g, r2.names, r2.m, index, n);
        SetGrew(r2, index, n);
        GrewTrans(st.names, st.m, r2.names, r2.m, r.names, r.m);
        IndexOfDistinct(r2.names, n);
        if recurse {
          CoveredFrom(g, r2.names, r2.m, r.names, r.m, n);
        } else {
          OnlyRowRegistered(st.m, r2.m, index, n);
        }
      }
    }
  }

  /** A directive naming a file already registered: only its bit is set. */
  lemma KnownSpec(fs: FileSystem, dirs: seq<string>, g: map<string, seq<string>>,
                  recurse: bool, st: Scan, index: int, d: string)
    requires IncludeMap(fs, dirs, g) && Fit(fs, st) && 0 <= index < |st.names|
    requires Sound(g, st.names, st.m) && d in DepsOf(fs, st.names[index])
    requires Resolve(fs, dirs, d).Some? && Resolve(fs, dirs, d).value in st.names
    ensures Progress(g, recurse, index, st, Set(st, index, IndexOf(st.names, Resolve(fs, dirs, d).value)))
    ensures RowHolds(st.names, Set(st, index, IndexOf(st.names, Resolve(fs, dirs, d).value)).m,
                     index, [Resolve(fs, dirs, d).value])
  {
    var j := IndexOf(st.names, Resolve(fs, dirs, d).value);
    IncludesOf(fs, dirs, g, st.names[index], d);
    SoundSet(g, st.names, st.m, index, j);
    SetGrew(st, index, j);
    OnlyRowRegistered(st.m, st.m, index, j);
  }

  /** A new file: registered at the end, and with `recurse` expanded so
      that every file registered from it on is covered. */
  lemma {:induction false} GrownSpec(fs: FileSystem, dirs: seq<string>, g: map<string, seq<string>>,
                                     recurse: bool, st: Scan, path: string)
    requires IncludeMap(fs, dirs, g) && Fit(fs, st) && path in fs && path !in st.names
    requires Sound(g, st.names, st.m)
    ensures Sound(g, Grown(fs, dirs, recurse, st, path).names, Grown(fs, dirs, recurse, st, path).m)
    ensures Grew(st.names, st.m, Grown(fs, dirs, recurse, st, path).names, Grown(fs, dirs, recurse, st, path).m)
    ensures recurse ==> forall i :: |st.names| <= i < |Grown(fs, dirs, recurse, st, path).names| ==>
      Covered(g, Grown(fs, dirs, recurse, st, path).names, Grown(fs, dirs, recurse, st, path).m, i)
    ensures !recurse ==> Grown(fs, dirs, recurse, st, path) == Appended(fs, st, path)
    ensures recurse ==> (Grown(fs, dirs, recurse, st, path).errs == st.errs <==>
      Clean(fs, dirs, Grown(fs, dirs, recurse, st, path).names, |st.names|))
    decreases |fs.Keys| - |st.names|, 0, 0
  {
    var n := |st.names|;
    var st1 := Appended(fs, st, path);
    SoundExtended(g, st.names, st.m, path);
    AppendedGrew(fs, st, path);
    if recurse {
      var r := Expand(fs, dirs, recurse, st1, n);
      ExpandSpec(fs, dirs, g, recurse, st1, n);
      GrewTrans(st.names, st.m, st1.names, st1.m, r.names, r.m);
      CoveredWith(g, r.names, r.m, n);
      assert r.names[n] == path;
    }
  }

  /** The directives `ds[k..]` of file `index`: each one that resolves is
      related to the file; no new diagnostic exactly when all of them
      resolve and, with `recurse`, every file registered meanwhile is
      `Resolvable`. */
  lemma {:induction false} WalkSpec(fs: FileSystem, dirs: seq<string>, g: map<string, seq<string>>,
                                    recurse: bool, st: Scan, index: int, ds: seq<string>, k: nat)
    requires IncludeMap(fs, dirs, g) && Fit(fs, st) && 0 <= index < |st.names| && k <= |ds|
    requires Sound(g, st.names, st.m) && ds == DepsOf(fs, st.names[index])
    ensures Progress(g, recurse, index, st, Walk(fs, dirs, recurse, st, index, ds, k))
    ensures Recorded(fs, dirs, Walk(fs, dirs, recurse, st, index, ds, k), index, ds, k)
    ensures Walk(fs, dirs, recurse, st, index, ds, k).errs == st.errs <==>
      && AllResolve(fs, dirs, ds, k)
      && (recurse ==> Clean(fs, dirs, Walk(fs, dirs, recurse, st, index, ds, k).names, |st.names|))
    decreases |fs.Keys| - |st.names|, 2, |ds| - k
  {
    if k == |ds| {
      GrewRefl(st.names, st.m, index);
    } else {
      var r1 := Visit(fs, dirs, recurse, st, index, ds[k]);
      VisitSpec(fs, dirs, g, recurse, st, index, ds[k]);
      assert r1.names[index] == st.names[index];
      var r := Walk(fs, dirs, recurse, r1, index, ds, k + 1);
      WalkSpec(fs, dirs, g, recurse, r1, index, ds, k + 1);
      assert r == Walk(fs, dirs, recurse, st, index, ds, k);
      ProgressTrans(g, recurse, index, st, r1, r);
      forall j | k <= j < |ds| && Resolve(fs, dirs, ds[j]).Some?
        ensures RowHolds(r.names, r.m, index, [Resolve(fs, dirs, ds[j]).value])
      {
        if j == k {
          RowStable(r1.names, r1.m, r.names, r.m, index, [Resolve(fs, dirs, ds[k]).value]);
        }
      }
      AllResolveNext(fs, dirs, ds, k);
      CleanSplit(fs, dirs, r1.names, r.names, |st.names|);
      PrefixEq(st.errs, r1.errs, r.errs);
    }
  }

  /** `getDep(index)`: row `index` comes to hold every direct include of the
      file; no new diagnostic exactly when the file is `Resolvable` and,
      with `recurse`, so is every file registered meanwhile. */
  lemma {:induction false} ExpandSpec(fs: FileSystem, dirs: seq<string>, g: map<string, seq<string>>,
                                      recurse: bool, st: Scan, index: int)
    requires IncludeMap(fs, dirs, g) && Fit(fs, st) && 0 <= index < |st.names|
    requires Sound(g, st.names, st.m)
    ensures Progress(g, recurse, index, st, Expand(fs, dirs, recurse, st, index))
    ensures Covered(g, Expand(fs, dirs, recurse, st, index).names, Expand(fs, dirs, recurse, st, index).m, index)
    ensures Expand(fs, dirs, recurse, st, index).errs == st.errs <==>
      Resolvable(fs, dirs, st.names[index])
      && (recurse ==> Clean(fs, dirs, Expand(fs, dirs, recurse, st, index).names, |st.names|))
    decreases |fs.Keys| - |st.names|, 3, 0
  {
    var name := st.names[index];
    var ds := DepsOf(fs, name);
    var r := Expand(fs, dirs, recurse, st, index);
    WalkSpec(fs, dirs, g, recurse, st, index, ds, 0);
    assert name in fs && r == Walk(fs, dirs, recurse, st, index, ds, 0);
    assert r.names[index] == name;
    assert g[name] == Targets(fs, dirs, name);
    forall b | b in g[name] ensures b in r.names && r.m[index][IndexOf(r.names, b)] {
      ResolvedMembers(fs, dirs, ds, b);
      var j :| 0 <= j < |ds| && Resolve(fs, dirs, ds[j]) == Some(b);
      assert RowHolds(r.names, r.m, index, [b]);
    }
    if Resolvable(fs, dirs, name) {
      forall j | 0 <= j < |ds| ensures Resolve(fs, dirs, ds[j]).Some? {
        assert ds[j] in ds;
      }
    }
    assert AllResolve(fs, dirs, ds, 0) ==> Resolvable(fs, dirs, name);
  }
}

