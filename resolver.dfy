/** What the dependency calculation means, stated on values: resolving an
    include name against the search path, the include graph of a set of
    files, the root list and the entries of a list file. */
module Resolution {
  import opened Common
  import opened Text
  import FileDeps
  import Relations

  /** The file system: each openable path with its contents. */
  type FileSystem = map<string, string>

  /** The lines of `path`, or nothing when it cannot be opened. */
  function Open(fs: FileSystem, path: string): Option<seq<string>>
  {
    if path in fs then Some(FileDeps.Lines(fs[path])) else None
  }

  // ---------------------------------------------------------------- search

  /** The path tried for `file` in the directory `dir`: the two joined, with
      every leading "./" pair removed. */
  function Candidate(dir: string, file: string): string
  {
    DotSlashStripped(dir + file)
  }

  /** The candidate of the first directory of `dirs` in which `file` exists. */
  function FirstFound(fs: FileSystem, dirs: seq<string>, file: string): (r: Option<string>)
    ensures r.Some? ==> r.value in fs
    decreases |dirs|
  {
    if dirs == [] then None
    else if Candidate(dirs[0], file) in fs then Some(Candidate(dirs[0], file))
    else FirstFound(fs, dirs[1..], file)
  }

  /** The first existing candidate wins; there is none exactly when `file`
      exists in no directory. */
  lemma {:induction false} FirstFoundSpec(fs: FileSystem, dirs: seq<string>, file: string)
    ensures FirstFound(fs, dirs, file).None? <==>
      forall i :: 0 <= i < |dirs| ==> Candidate(dirs[i], file) !in fs
    ensures FirstFound(fs, dirs, file).Some? ==>
      exists i :: 0 <= i < |dirs| && FirstFound(fs, dirs, file) == Some(Candidate(dirs[i], file))
                  && forall h :: 0 <= h < i ==> Candidate(dirs[h], file) !in fs
    decreases |dirs|
  {
    if dirs != [] && Candidate(dirs[0], file) !in fs {
      var rest := dirs[1..];
      FirstFoundSpec(fs, rest, file);
      forall i | 0 <= i < |rest| ensures Candidate(rest[i], file) == Candidate(dirs[i + 1], file) {
      }
      if FirstFound(fs, rest, file).Some? {
        var i :| 0 <= i < |rest| && FirstFound(fs, rest, file) == Some(Candidate(rest[i], file))
                 && forall h :: 0 <= h < i ==> Candidate(rest[h], file) !in fs;
        assert FirstFound(fs, dirs, file) == Some(Candidate(dirs[i + 1], file));
        forall h | 0 <= h < i + 1 ensures Candidate(dirs[h], file) !in fs {
          if h > 0 { assert dirs[h] == rest[h - 1]; }
        }
      }
    }
  }

  /** What `search` finds for `file`: an absolute path is taken as it is,
      any other name is looked up along the search path. */
  function Resolve(fs: FileSystem, dirs: seq<string>, file: string): (r: Option<string>)
    ensures r.Some? ==> r.value in fs
  {
    if IsAbsolutePath(file) then (if file in fs then Some(file) else None)
    else FirstFound(fs, dirs, file)
  }

  /** An existing absolute path resolves to itself whatever the search path. */
  lemma ResolveAbsolute(fs: FileSystem, dirs: seq<string>, file: string)
    requires IsAbsolutePath(file)
    ensures Resolve(fs, dirs, file).Some? <==> file in fs
    ensures Resolve(fs, dirs, file).Some? ==> Resolve(fs, dirs, file).value == file
  {
  }

  // ---------------------------------------------------------------- the include graph

  /** The paths the names `ds` resolve to, in order; unresolved names are dropped. */
  function Resolved(fs: FileSystem, dirs: seq<string>, ds: seq<string>): (r: seq<string>)
    ensures |r| <= |ds|
    decreases |ds|
  {
    if ds == [] then []
    else
      var f := Resolve(fs, dirs, ds[|ds| - 1]);
      Resolved(fs, dirs, ds[..|ds| - 1]) + (if f.Some? then [f.value] else [])
  }

  lemma ResolvedSnoc(fs: FileSystem, dirs: seq<string>, ds: seq<string>, d: string)
    ensures Resolved(fs, dirs, ds + [d]) ==
      Resolved(fs, dirs, ds) + (if Resolve(fs, dirs, d).Some? then [Resolve(fs, dirs, d).value] else [])
  {
    assert (ds + [d])[..|ds|] == ds;
  }

  /** A path is among the resolved names exactly when one of the names
      resolves to it. */
  lemma {:induction false} ResolvedMembers(fs: FileSystem, dirs: seq<string>, ds: seq<string>, b: string)
    ensures b in Resolved(fs, dirs, ds) <==> exists k :: 0 <= k < |ds| && Resolve(fs, dirs, ds[k]) == Some(b)
    decreases |ds|
  {
    if ds != [] {
      var init := ds[..|ds| - 1];
      ResolvedMembers(fs, dirs, init, b);
      if b in Resolved(fs, dirs, ds) && b !in Resolved(fs, dirs, init) {
        assert Resolve(fs, dirs, ds[|ds| - 1]) == Some(b);
      }
      if k :| 0 <= k < |ds| && Resolve(fs, dirs, ds[k]) == Some(b) {
        if k < |ds| - 1 {
          assert init[k] == ds[k];
        }
      }
    }
  }

  /** The include names of the file at `path`, in order; none when it can
      not be opened. */
  function DepsOf(fs: FileSystem, path: string): seq<string>
  {
    if path in fs then FileDeps.Deps(fs[path]) else []
  }

  /** The files the file at `path` includes directly, in order. */
  function Targets(fs: FileSystem, dirs: seq<string>, path: string): seq<string>
  {
    Resolved(fs, dirs, DepsOf(fs, path))
  }

  /** `a` includes `b` directly. */
  predicate Edge(fs: FileSystem, dirs: seq<string>, a: string, b: string)
  {
    b in Targets(fs, dirs, a)
  }

  /** `a` includes `b` exactly when `a` exists and one of its include
      directives names a file that resolves to `b`. */
  lemma EdgeMeaning(fs: FileSystem, dirs: seq<string>, a: string, b: string)
    ensures Edge(fs, dirs, a, b) <==>
      a in fs && exists k :: 0 <= k < |FileDeps.Deps(fs[a])| && Resolve(fs, dirs, FileDeps.Deps(fs[a])[k]) == Some(b)
  {
    ResolvedMembers(fs, dirs, DepsOf(fs, a), b);
  }

  /** The include edge given by one directive of `a`. */
  lemma EdgeOf(fs: FileSystem, dirs: seq<string>, a: string, d: string)
    requires d in DepsOf(fs, a) && Resolve(fs, dirs, d).Some?
    ensures Edge(fs, dirs, a, Resolve(fs, dirs, d).value)
  {
    var ds := DepsOf(fs, a);
    var k :| 0 <= k < |ds| && ds[k] == d;
    ResolvedMembers(fs, dirs, ds, Resolve(fs, dirs, d).value);
  }

  /** `g` lists the direct includes of every existing file. The methods
      that build the matrix carry `g` instead of unfolding `Targets`. */
  ghost predicate IncludeMap(fs: FileSystem, dirs: seq<string>, g: map<string, seq<string>>)
  {
    && g.Keys == fs.Keys
    && forall p {:trigger Targets(fs, dirs, p)} :: p in fs ==> g[p] == Targets(fs, dirs, p)
  }

  /** The include map of a file system. */
  ghost function IncludeMapOf(fs: FileSystem, dirs: seq<string>): (g: map<string, seq<string>>)
    ensures IncludeMap(fs, dirs, g)
  {
    map p | p in fs :: Targets(fs, dirs, p)
  }

  /** `a` includes `b` directly, according to the include map `g`. */
  ghost predicate Includes(g: map<string, seq<string>>, a: string, b: string)
  {
    a in g && b in g[a]
  }

  /** The include map agrees with `Edge` on existing files. */
  lemma IncludesMeaning(fs: FileSystem, dirs: seq<string>, g: map<string, seq<string>>, a: string, b: string)
    requires IncludeMap(fs, dirs, g)
    ensures Includes(g, a, b) <==> Edge(fs, dirs, a, b)
  {
    if a in fs {
      assert g[a] == Targets(fs, dirs, a);
    }
  }

  /** The include edge given by one directive of `a`, in the include map. */
  lemma IncludesOf(fs: FileSystem, dirs: seq<string>, g: map<string, seq<string>>, a: string, d: string)
    requires IncludeMap(fs, dirs, g)
    requires d in DepsOf(fs, a) && Resolve(fs, dirs, d).Some?
    ensures Includes(g, a, Resolve(fs, dirs, d).value)
  {
    EdgeOf(fs, dirs, a, d);
    IncludesMeaning(fs, dirs, g, a, Resolve(fs, dirs, d).value);
  }

  /** A directive among `ds` that resolves names a file `a` includes, when
      `ds` resolves to the include list of `a`. */
  lemma DirectiveIncludes(fs: FileSystem, dirs: seq<string>, g: map<string, seq<string>>,
                          a: string, ds: seq<string>, d: string)
    requires a in g && g[a] == Resolved(fs, dirs, ds)
    requires d in ds && Resolve(fs, dirs, d).Some?
    ensures Includes(g, a, Resolve(fs, dirs, d).value)
  {
    var k :| 0 <= k < |ds| && ds[k] == d;
    ResolvedMembers(fs, dirs, ds, Resolve(fs, dirs, d).value);
  }

  /** The direct include relation among `names`, as a matrix. */
  ghost function Graph(fs: FileSystem, dirs: seq<string>, names: seq<string>): (m: seq<seq<bool>>)
    ensures |m| == |names| && Relations.Square(m)
    ensures forall i, j :: 0 <= i < |names| && 0 <= j < |names| ==> m[i][j] == Edge(fs, dirs, names[i], names[j])
  {
    seq(|names|, i requires 0 <= i < |names| =>
      seq(|names|, j requires 0 <= j < |names| => Edge(fs, dirs, names[i], names[j])))
  }

  /** The direct include relation for the first `roots` names only; the
      other rows are empty. */
  ghost function RootGraph(fs: FileSystem, dirs: seq<string>, names: seq<string>, roots: int): (m: seq<seq<bool>>)
    ensures |m| == |names| && Relations.Square(m)
    ensures forall i, j :: 0 <= i < |names| && 0 <= j < |names| ==>
      m[i][j] == (i < roots && Edge(fs, dirs, names[i], names[j]))
  {
    seq(|names|, i requires 0 <= i < |names| =>
      seq(|names|, j requires 0 <= j < |names| => i < roots && Edge(fs, dirs, names[i], names[j])))
  }

  /** Every file in `names` exists. */
  ghost predicate Registered(fs: FileSystem, names: seq<string>)
  {
    forall i :: 0 <= i < |names| ==> names[i] in fs
  }

  /** `m` is a matrix over `names` whose every bit is an include edge. */
  ghost predicate Sound(g: map<string, seq<string>>, names: seq<string>, m: seq<seq<bool>>)
  {
    && |m| == |names| && Relations.Square(m)
    && forall i, j :: 0 <= i < |m| && 0 <= j < |m| && m[i][j] ==> Includes(g, names[i], names[j])
  }

  /** Row `i` of `m` relates `names[i]` to every file of `bs`, each registered. */
  ghost predicate RowHolds(names: seq<string>, m: seq<seq<bool>>, i: int, bs: seq<string>)
  {
    && |m| == |names| && Relations.Square(m) && 0 <= i < |m|
    && forall b :: b in bs ==> b in names && m[i][IndexOf(names, b)]
  }

  lemma RowHoldsAppend(names: seq<string>, m: seq<seq<bool>>, i: int, bs: seq<string>, cs: seq<string>)
    requires RowHolds(names, m, i, bs) && RowHolds(names, m, i, cs)
    ensures RowHolds(names, m, i, bs + cs)
  {
  }

  /** Row `i` of `m` holds every direct include of `names[i]`. */
  ghost predicate Covered(g: map<string, seq<string>>, names: seq<string>, m: seq<seq<bool>>, i: int)
  {
    0 <= i < |names| && names[i] in g && RowHolds(names, m, i, g[names[i]])
  }

  /** Every direct include of a file in `names` is in `names`. */
  ghost predicate Closed(fs: FileSystem, dirs: seq<string>, names: seq<string>)
  {
    forall i, b :: 0 <= i < |names| && b in Targets(fs, dirs, names[i]) ==> b in names
  }

  /** `names1, m1` extend `names0, m0`: the names by appending, the matrix
      keeping every bit. */
  ghost predicate Grew(names0: seq<string>, m0: seq<seq<bool>>, names1: seq<string>, m1: seq<seq<bool>>)
  {
    && names0 <= names1
    && |m0| == |names0| && |m1| == |names1|
    && Relations.Square(m0) && Relations.Square(m1)
    && forall i, j :: 0 <= i < |m0| && 0 <= j < |m0| && m0[i][j] ==> m1[i][j]
  }

  /** Every bit of `m1` outside row `row` is an old bit of `m0`. */
  ghost predicate OnlyRow(m0: seq<seq<bool>>, m1: seq<seq<bool>>, row: int)
    requires Relations.Square(m1)
  {
    forall i, j :: 0 <= i < |m1| && 0 <= j < |m1| && i != row && m1[i][j] ==>
      i < |m0| && j < |m0| && |m0[i]| == |m0| && m0[i][j]
  }

  /** A new file related to nothing keeps the matrix sound. */
  lemma SoundExtended(g: map<string, seq<string>>, names: seq<string>, m: seq<seq<bool>>, path: string)
    requires Sound(g, names, m)
    ensures Sound(g, names + [path], Relations.Extended(m))
  {
    var names1 := names + [path];
    forall i, j | 0 <= i < |names1| && 0 <= j < |names1| && Relations.Extended(m)[i][j]
      ensures Includes(g, names1[i], names1[j])
    {
      assert names1[i] == names[i] && names1[j] == names[j];
    }
  }

  /** Setting the bit of a direct include keeps the matrix sound. */
  lemma SoundSet(g: map<string, seq<string>>, names: seq<string>, m: seq<seq<bool>>, i: int, j: int)
    requires Sound(g, names, m) && 0 <= i < |names| && 0 <= j < |names|
    requires Includes(g, names[i], names[j])
    ensures Sound(g, names, m[i := m[i][j := true]])
  {
  }

  /** Registering, expanding and then setting one bit of row `row`: the
      result extends the start and holds that bit. */
  lemma SetKeeps(n0: seq<string>, m0: seq<seq<bool>>, n1: seq<string>, m1: seq<seq<bool>>,
                 n2: seq<string>, m2: seq<seq<bool>>, m3: seq<seq<bool>>, row: int, col: int)
    requires Relations.Square(m0) && |m0| == |n0|
    requires n1 == n0 || (n1 != [] && n1 == n0 + [n1[|n1| - 1]])
    requires m1 == if n1 == n0 then m0 else Relations.Extended(m0)
    requires Grew(n1, m1, n2, m2) && Distinct(n2)
    requires 0 <= row < |m2| && 0 <= col < |m2| && m3 == m2[row := m2[row][col := true]]
    ensures Grew(n0, m0, n2, m3)
    ensures RowHolds(n2, m3, row, [n2[col]])
    ensures Grew(n2, m2, n2, m3)
  {
    IndexOfDistinct(n2, col);
  }

  /** Setting a bit of row `row` adds nothing outside that row. */
  lemma OnlyRowSet(m0: seq<seq<bool>>, m2: seq<seq<bool>>, row: int, col: int)
    requires Relations.Square(m2) && OnlyRow(m0, m2, row) && 0 <= row < |m2| && 0 <= col < |m2|
    ensures Relations.Square(m2[row := m2[row][col := true]])
    ensures OnlyRow(m0, m2[row := m2[row][col := true]], row)
  {
  }

  /** Registering a file and then setting a bit of row `row` adds nothing
      outside that row. */
  lemma OnlyRowRegistered(m0: seq<seq<bool>>, m1: seq<seq<bool>>, row: int, col: int)
    requires Relations.Square(m0) && (m1 == m0 || m1 == Relations.Extended(m0))
    requires 0 <= row < |m1| && 0 <= col < |m1|
    ensures Relations.Square(m1[row := m1[row][col := true]])
    ensures OnlyRow(m0, m1[row := m1[row][col := true]], row)
  {
  }

  lemma GrewRefl(n: seq<string>, m: seq<seq<bool>>, row: int)
    requires Relations.Square(m) && |m| == |n|
    ensures Grew(n, m, n, m)
    ensures OnlyRow(m, m, row)
  {
  }

  lemma OnlyRowTrans(m0: seq<seq<bool>>, m1: seq<seq<bool>>, m2: seq<seq<bool>>, row: int)
    requires Relations.Square(m1) && Relations.Square(m2) && |m1| <= |m2|
    requires OnlyRow(m0, m1, row) && OnlyRow(m1, m2, row)
    ensures OnlyRow(m0, m2, row)
  {
  }

  lemma GrewTrans(n0: seq<string>, m0: seq<seq<bool>>, n1: seq<string>, m1: seq<seq<bool>>,
                  n2: seq<string>, m2: seq<seq<bool>>)
    requires Grew(n0, m0, n1, m1) && Grew(n1, m1, n2, m2)
    ensures Grew(n0, m0, n2, m2)
  {
  }

  /** A row keeps relating a name to the files it relates it to as the
      registry and the matrix grow. */
  lemma RowStable(names0: seq<string>, m0: seq<seq<bool>>, names1: seq<string>, m1: seq<seq<bool>>,
                  i: int, bs: seq<string>)
    requires Grew(names0, m0, names1, m1) && Distinct(names1)
    requires RowHolds(names0, m0, i, bs)
    ensures RowHolds(names1, m1, i, bs)
  {
    forall b | b in bs ensures b in names1 && m1[i][IndexOf(names1, b)] {
      var k := IndexOf(names0, b);
      assert names1[k] == b;
      IndexOfDistinct(names1, k);
    }
  }

  lemma CoveredStable(g: map<string, seq<string>>, names0: seq<string>, m0: seq<seq<bool>>,
                      names1: seq<string>, m1: seq<seq<bool>>, i: int)
    requires Grew(names0, m0, names1, m1) && Distinct(names1)
    requires Covered(g, names0, m0, i)
    ensures Covered(g, names1, m1, i)
  {
    assert names1[i] == names0[i];
    RowStable(names0, m0, names1, m1, i, g[names0[i]]);
  }

  /** The rows from `lo` on stay covered as the registry and the matrix grow. */
  lemma CoveredFrom(g: map<string, seq<string>>, names0: seq<string>, m0: seq<seq<bool>>,
                    names1: seq<string>, m1: seq<seq<bool>>, lo: int)
    requires Grew(names0, m0, names1, m1) && Distinct(names1)
    requires forall i :: lo <= i < |names0| ==> Covered(g, names0, m0, i)
    ensures forall i :: lo <= i < |names0| ==> Covered(g, names1, m1, i)
  {
    forall i | lo <= i < |names0| ensures Covered(g, names1, m1, i) {
      CoveredStable(g, names0, m0, names1, m1, i);
    }
  }

  /** Covering row `lo` and the rows after it covers the rows from `lo` on. */
  lemma CoveredWith(g: map<string, seq<string>>, names: seq<string>, m: seq<seq<bool>>, lo: int)
    requires Covered(g, names, m, lo)
    requires forall i :: lo + 1 <= i < |names| ==> Covered(g, names, m, i)
    ensures forall i :: lo <= i < |names| ==> Covered(g, names, m, i)
  {
  }

  /** The row of a file whose every directive has been recorded is covered. */
  lemma CoveredBySeen(fs: FileSystem, dirs: seq<string>, g: map<string, seq<string>>,
                      names: seq<string>, m: seq<seq<bool>>, i: int)
    requires IncludeMap(fs, dirs, g) && 0 <= i < |names| && names[i] in fs
    requires RowHolds(names, m, i, Resolved(fs, dirs, DepsOf(fs, names[i])))
    ensures Covered(g, names, m, i)
  {
    assert g[names[i]] == Targets(fs, dirs, names[i]);
  }

  /** A sound matrix whose every row is covered is exactly the include
      graph of its names, and those names are closed under inclusion. */
  lemma ExactGraph(fs: FileSystem, dirs: seq<string>, g: map<string, seq<string>>,
                   names: seq<string>, m: seq<seq<bool>>)
    requires IncludeMap(fs, dirs, g) && Registered(fs, names)
    requires Sound(g, names, m) && Distinct(names)
    requires forall i :: 0 <= i < |names| ==> Covered(g, names, m, i)
    ensures m == Graph(fs, dirs, names)
    ensures Closed(fs, dirs, names)
  {
    var e := Graph(fs, dirs, names);
    forall i, j | 0 <= i < |m| && 0 <= j < |m| ensures m[i][j] == e[i][j] {
      IncludesMeaning(fs, dirs, g, names[i], names[j]);
      if Includes(g, names[i], names[j]) {
        assert Covered(g, names, m, i);
        IndexOfDistinct(names, j);
      }
    }
    Relations.SameCells(m, e);
    forall i, b | 0 <= i < |names| && b in Targets(fs, dirs, names[i]) ensures b in names {
      assert Covered(g, names, m, i);
      assert g[names[i]] == Targets(fs, dirs, names[i]);
    }
  }

  /** A sound matrix whose first `roots` rows are covered and whose other
      rows are empty is the include graph of the roots. */
  lemma ExactRootGraph(fs: FileSystem, dirs: seq<string>, g: map<string, seq<string>>,
                       names: seq<string>, m: seq<seq<bool>>, roots: int)
    requires IncludeMap(fs, dirs, g) && Registered(fs, names)
    requires Sound(g, names, m) && Distinct(names) && 0 <= roots <= |names|
    requires forall i :: 0 <= i < roots ==> Covered(g, names, m, i)
    requires forall i, j :: roots <= i < |m| && 0 <= j < |m| ==> !m[i][j]
    ensures m == RootGraph(fs, dirs, names, roots)
    ensures forall i, b :: 0 <= i < roots && b in Targets(fs, dirs, names[i]) ==> b in names
  {
    var e := RootGraph(fs, dirs, names, roots);
    forall i, j | 0 <= i < |m| && 0 <= j < |m| ensures m[i][j] == e[i][j] {
      IncludesMeaning(fs, dirs, g, names[i], names[j]);
      if i < roots && Includes(g, names[i], names[j]) {
        assert Covered(g, names, m, i);
        IndexOfDistinct(names, j);
      }
    }
    Relations.SameCells(m, e);
    forall i, b | 0 <= i < roots && b in Targets(fs, dirs, names[i]) ensures b in names {
      assert Covered(g, names, m, i);
      assert g[names[i]] == Targets(fs, dirs, names[i]);
    }
  }

  // ---------------------------------------------------------------- roots

  /** The root files that take a slot, in order: each resolved root whose
      path is not already taken. */
  function Accepted(fs: FileSystem, dirs: seq<string>, roots: seq<string>): (r: seq<string>)
    ensures |r| <= |roots|
    decreases |roots|
  {
    if roots == [] then []
    else
      var prev := Accepted(fs, dirs, roots[..|roots| - 1]);
      var f := Resolve(fs, dirs, roots[|roots| - 1]);
      if f.Some? && f.value !in prev then prev + [f.value] else prev
  }

  lemma AcceptedSnoc(fs: FileSystem, dirs: seq<string>, roots: seq<string>, root: string)
    ensures Accepted(fs, dirs, roots + [root]) ==
      var prev := Accepted(fs, dirs, roots);
      var f := Resolve(fs, dirs, root);
      if f.Some? && f.value !in prev then prev + [f.value] else prev
  {
    assert (roots + [root])[..|roots|] == roots;
  }

  /** The accepted roots are distinct existing files. */
  lemma {:induction false} AcceptedDistinct(fs: FileSystem, dirs: seq<string>, roots: seq<string>)
    ensures Distinct(Accepted(fs, dirs, roots)) && Registered(fs, Accepted(fs, dirs, roots))
    decreases |roots|
  {
    if roots != [] {
      AcceptedDistinct(fs, dirs, roots[..|roots| - 1]);
    }
  }

  /** A path is accepted exactly when some root resolves to it. */
  lemma {:induction false} AcceptedMembers(fs: FileSystem, dirs: seq<string>, roots: seq<string>, b: string)
    ensures b in Accepted(fs, dirs, roots) <==>
      exists k :: 0 <= k < |roots| && Resolve(fs, dirs, roots[k]) == Some(b)
    decreases |roots|
  {
    if roots != [] {
      var init := roots[..|roots| - 1];
      AcceptedMembers(fs, dirs, init, b);
      if k :| 0 <= k < |roots| && Resolve(fs, dirs, roots[k]) == Some(b) {
        if k < |init| {
          assert init[k] == roots[k];
        }
      }
      if h :| 0 <= h < |init| && Resolve(fs, dirs, init[h]) == Some(b) {
        assert roots[h] == init[h];
      }
    }
  }

  /** Every root takes a slot exactly when all of them resolve, to
      pairwise different paths. */
  lemma {:induction false} AcceptedAll(fs: FileSystem, dirs: seq<string>, roots: seq<string>)
    ensures |Accepted(fs, dirs, roots)| == |roots| <==>
      && (forall k :: 0 <= k < |roots| ==> Resolve(fs, dirs, roots[k]).Some?)
      && (forall h, k :: 0 <= h < k < |roots| ==> Resolve(fs, dirs, roots[h]) != Resolve(fs, dirs, roots[k]))
    decreases |roots|
  {
    if roots != [] {
      var init := roots[..|roots| - 1];
      var f := Resolve(fs, dirs, roots[|roots| - 1]);
      var prev := Accepted(fs, dirs, init);
      AcceptedAll(fs, dirs, init);
      assert forall k :: 0 <= k < |init| ==> init[k] == roots[k];
      if |Accepted(fs, dirs, roots)| == |roots| {
        assert |prev| == |init| && f.Some? && f.value !in prev;
        forall h | 0 <= h < |init| ensures Resolve(fs, dirs, roots[h]) != f {
          AcceptedMembers(fs, dirs, init, Resolve(fs, dirs, init[h]).value);
        }
      }
      if (forall k :: 0 <= k < |roots| ==> Resolve(fs, dirs, roots[k]).Some?)
         && (forall h, k :: 0 <= h < k < |roots| ==> Resolve(fs, dirs, roots[h]) != Resolve(fs, dirs, roots[k])) {
        assert |prev| == |init|;
        if f.value in prev {
          AcceptedMembers(fs, dirs, init, f.value);
          assert false;
        }
      }
    }
  }

  // ---------------------------------------------------------------- search path entries

  /** A directory name as it is kept on the search path: with a trailing
      '/', added only when missing. */
  function AsDirectory(dir: string): (r: string)
    requires dir != []
    ensures r != [] && r[|r| - 1] == '/'
    ensures dir <= r && |r| <= |dir| + 1
    ensures dir[|dir| - 1] == '/' ==> r == dir
  {
    if dir[|dir| - 1] == '/' then dir else dir + "/"
  }

  /** Adding the slash a second time changes nothing. */
  lemma AsDirectoryIdempotent(dir: string)
    requires dir != []
    ensures AsDirectory(AsDirectory(dir)) == AsDirectory(dir)
  {
  }

  /** What `AddIncludeDirectory` appends for `dir`: nothing for an empty name. */
  function DirectoryEntry(dir: string): (r: seq<string>)
    ensures dir == [] <==> r == []
    ensures dir != [] ==> r == [AsDirectory(dir)]
  {
    if dir == [] then [] else [AsDirectory(dir)]
  }

  /** The search path entries added for the names `ds`, in order. */
  function DirectoryEntries(ds: seq<string>): (r: seq<string>)
    ensures |r| <= |ds|
    ensures forall k :: 0 <= k < |r| ==> r[k] != [] && r[k][|r[k]| - 1] == '/'
    decreases |ds|
  {
    if ds == [] then [] else DirectoryEntries(ds[..|ds| - 1]) + DirectoryEntry(ds[|ds| - 1])
  }

  lemma DirectoryEntriesSnoc(ds: seq<string>, d: string)
    ensures DirectoryEntries(ds + [d]) == DirectoryEntries(ds) + DirectoryEntry(d)
  {
    assert (ds + [d])[..|ds|] == ds;
  }

  // ---------------------------------------------------------------- list files

  /** A token that starts a comment. */
  predicate IsComment(t: string)
  {
    |t| > 0 && t[0] == '#'
  }

  /** A token that is a line end (the only token starting with a newline). */
  predicate IsLineEnd(t: string)
  {
    |t| > 0 && t[0] == '\n'
  }

  /** The tokens after the first line end of `ts`, or nothing when `ts` has
      no line end. */
  function AfterLineEnd(ts: seq<string>): (r: Option<seq<string>>)
    ensures r.Some? ==> |r.value| < |ts| && r.value == ts[|ts| - |r.value|..]
    ensures r.Some? <==> exists k :: 0 <= k < |ts| && IsLineEnd(ts[k])
    decreases |ts|
  {
    if ts == [] then None
    else if IsLineEnd(ts[0]) then Some(ts[1..])
    else
      var r := AfterLineEnd(ts[1..]);
      assert forall k :: 0 < k < |ts| ==> ts[k] == ts[1..][k - 1];
      r
  }

  /** The entries `loadFromStream` hands on: every token in order, except
      line ends and the tokens from a comment token to the end of its line. */
  function Entries(ts: seq<string>): (r: seq<string>)
    ensures |r| <= |ts|
    decreases |ts|
  {
    if ts == [] then []
    else if IsComment(ts[0]) then
      match AfterLineEnd(ts)
      case None => []
      case Some(rest) => Entries(rest)
    else if IsLineEnd(ts[0]) then Entries(ts[1..])
    else [ts[0]] + Entries(ts[1..])
  }

  /** No entry is a comment or a line end. */
  lemma {:induction false} EntriesClean(ts: seq<string>)
    ensures forall k :: 0 <= k < |Entries(ts)| ==> !IsComment(Entries(ts)[k]) && !IsLineEnd(Entries(ts)[k])
    decreases |ts|
  {
    if ts != [] {
      if IsComment(ts[0]) {
        match AfterLineEnd(ts)
        case None =>
        case Some(rest) => EntriesClean(rest);
      } else {
        EntriesClean(ts[1..]);
      }
    }
  }

  /** Every entry is one of the tokens, taken at most as often as it occurs. */
  lemma {:induction false} EntriesFromTokens(ts: seq<string>)
    ensures multiset(Entries(ts)) <= multiset(ts)
    decreases |ts|
  {
    if ts != [] {
      if IsComment(ts[0]) {
        var after := AfterLineEnd(ts);
        if after.Some? {
          EntriesFromTokens(after.value);
          SuffixMultiset(ts, |ts| - |after.value|);
        }
      } else if IsLineEnd(ts[0]) {
        EntriesFromTokens(ts[1..]);
        SuffixMultiset(ts, 1);
      } else {
        EntriesFromTokens(ts[1..]);
        ConsMultiset(ts);
      }
    }
  }

  lemma ConsMultiset(ts: seq<string>)
    requires ts != []
    ensures multiset(ts) == multiset([ts[0]]) + multiset(ts[1..])
  {
    assert ts == [ts[0]] + ts[1..];
  }

  lemma SuffixMultiset(ts: seq<string>, k: int)
    requires 0 <= k <= |ts|
    ensures multiset(ts[k..]) <= multiset(ts)
  {
    assert ts == ts[..k] + ts[k..];
  }

  /** Splitting at a line end splits the entries there. */
  lemma {:induction false} EntriesOfLines(line: seq<string>, rest: seq<string>)
    requires forall k :: 0 <= k < |line| ==> !IsLineEnd(line[k])
    ensures Entries(line + ["\n"] + rest) == Entries(line + ["\n"]) + Entries(rest)
    decreases |line|
  {
    var ts := line + ["\n"] + rest;
    if line == [] {
      assert ts[1..] == rest;
      assert ["\n"][1..] == [];
    } else if IsComment(line[0]) {
      AfterLineEndAt(line, rest);
      AfterLineEndAt(line, []);
      assert line + ["\n"] == line + ["\n"] + [];
    } else {
      assert ts[1..] == line[1..] + ["\n"] + rest;
      assert (line + ["\n"])[1..] == line[1..] + ["\n"];
      EntriesOfLines(line[1..], rest);
    }
  }

  lemma {:induction false} AfterLineEndAt(line: seq<string>, rest: seq<string>)
    requires forall k :: 0 <= k < |line| ==> !IsLineEnd(line[k])
    ensures AfterLineEnd(line + ["\n"] + rest) == Some(rest)
    decreases |line|
  {
    var ts := line + ["\n"] + rest;
    if line == [] {
      assert ts[1..] == rest;
    } else {
      assert ts[1..] == line[1..] + ["\n"] + rest;
      AfterLineEndAt(line[1..], rest);
    }
  }

  /** Past a comment: the entries of `r0`, which starts with a comment,
      are those after the line end that starts `r1`, when both have the
      same first line end. */
  lemma EntriesAfterComment(r0: seq<string>, r1: seq<string>)
    requires r0 != [] && IsComment(r0[0]) && r1 != [] && IsLineEnd(r1[0])
    requires AfterLineEnd(r1) == AfterLineEnd(r0)
    ensures Entries(r0) == Entries(r1[1..])
  {
  }

  /** The loop of `loadFromStream` as written: after the comment skip it
      always advances the token iterator, which is undefined (a failed
      assertion) when the comment ran to the end of the input.  `None`
      stands for that case. */
  function EntriesAsWritten(ts: seq<string>): (r: Option<seq<string>>)
    decreases |ts|
  {
    if ts == [] then Some([])
    else if IsComment(ts[0]) then
      match AfterLineEnd(ts)
      case None => None
      case Some(rest) => EntriesAsWritten(rest)
    else if IsLineEnd(ts[0]) then EntriesAsWritten(ts[1..])
    else
      match EntriesAsWritten(ts[1..])
      case None => None
      case Some(es) => Some([ts[0]] + es)
  }

  /** Where the loop as written is defined it agrees with `Entries`. */
  lemma {:induction false} EntriesAsWrittenAgrees(ts: seq<string>)
    ensures EntriesAsWritten(ts).Some? ==> EntriesAsWritten(ts).value == Entries(ts)
    decreases |ts|
  {
    if ts != [] {
      if IsComment(ts[0]) {
        match AfterLineEnd(ts)
        case None =>
        case Some(rest) => EntriesAsWrittenAgrees(rest);
      } else {
        EntriesAsWrittenAgrees(ts[1..]);
      }
    }
  }

  /** Some comment token of `ts` has no line end after it. */
  ghost predicate UnendedComment(ts: seq<string>)
  {
    exists k :: 0 <= k < |ts| && IsComment(ts[k]) && forall j :: k <= j < |ts| ==> !IsLineEnd(ts[j])
  }

  /** `AfterLineEnd` cuts right after the first line end. */
  lemma {:induction false} AfterFirstLineEnd(ts: seq<string>)
    requires AfterLineEnd(ts).Some?
    ensures var m := |ts| - |AfterLineEnd(ts).value| - 1;
      0 <= m < |ts| && IsLineEnd(ts[m]) && forall j :: 0 <= j < m ==> !IsLineEnd(ts[j])
    decreases |ts|
  {
    if !IsLineEnd(ts[0]) {
      AfterFirstLineEnd(ts[1..]);
      var m := |ts| - |AfterLineEnd(ts).value| - 1;
      forall j | 0 <= j < m ensures !IsLineEnd(ts[j]) {
        if j > 0 { assert ts[j] == ts[1..][j - 1]; }
      }
    }
  }

  /** Past the first line end, the unended comments are those of the rest;
      with no line end at all, any comment is unended. */
  lemma UnendedAfterLineEnd(ts: seq<string>)
    requires ts != [] && IsComment(ts[0])
    ensures AfterLineEnd(ts).None? ==> UnendedComment(ts)
    ensures AfterLineEnd(ts).Some? ==> (UnendedComment(ts) <==> UnendedComment(AfterLineEnd(ts).value))
  {
    if AfterLineEnd(ts).None? {
      assert forall j :: 0 <= j < |ts| ==> !IsLineEnd(ts[j]);
    } else {
      AfterFirstLineEnd(ts);
      var m := |ts| - |AfterLineEnd(ts).value| - 1;
      UnendedPastLineEnd(ts, m);
    }
  }

  /** No comment before a line end is unended. */
  lemma UnendedPastLineEnd(ts: seq<string>, m: int)
    requires 0 <= m < |ts| && IsLineEnd(ts[m])
    ensures UnendedComment(ts) <==> UnendedComment(ts[m + 1..])
  {
    var rest := ts[m + 1..];
    if UnendedComment(ts) {
      var k :| 0 <= k < |ts| && IsComment(ts[k]) && forall j :: k <= j < |ts| ==> !IsLineEnd(ts[j]);
      assert k > m;
      assert rest[k - m - 1] == ts[k];
      forall j | k - m - 1 <= j < |rest| ensures !IsLineEnd(rest[j]) {
        assert rest[j] == ts[j + m + 1];
      }
    }
    if UnendedComment(rest) {
      var k :| 0 <= k < |rest| && IsComment(rest[k]) && forall j :: k <= j < |rest| ==> !IsLineEnd(rest[j]);
      assert ts[k + m + 1] == rest[k];
      forall j | k + m + 1 <= j < |ts| ensures !IsLineEnd(ts[j]) {
        assert ts[j] == rest[j - m - 1];
      }
    }
  }

  /** Past a token that is not a comment, the unended comments are those
      of the rest. */
  lemma UnendedAfterToken(ts: seq<string>)
    requires ts != [] && !IsComment(ts[0])
    ensures UnendedComment(ts) <==> UnendedComment(ts[1..])
  {
    if UnendedComment(ts) {
      var k :| 0 <= k < |ts| && IsComment(ts[k]) && forall j :: k <= j < |ts| ==> !IsLineEnd(ts[j]);
      assert IsComment(ts[1..][k - 1]);
      assert forall j :: k - 1 <= j < |ts[1..]| ==> !IsLineEnd(ts[1..][j]) by {
        forall j | k - 1 <= j < |ts[1..]| ensures !IsLineEnd(ts[1..][j]) {
          assert ts[1..][j] == ts[j + 1];
        }
      }
    }
    if UnendedComment(ts[1..]) {
      var k :| 0 <= k < |ts[1..]| && IsComment(ts[1..][k]) && forall j :: k <= j < |ts[1..]| ==> !IsLineEnd(ts[1..][j]);
      assert IsComment(ts[k + 1]);
      assert forall j :: k + 1 <= j < |ts| ==> !IsLineEnd(ts[j]) by {
        forall j | k + 1 <= j < |ts| ensures !IsLineEnd(ts[j]) {
          assert ts[j] == ts[1..][j - 1];
        }
      }
    }
  }

  /** The loop as written is undefined exactly when some comment has no
      line end after it. */
  lemma {:induction false} EntriesAsWrittenUndefined(ts: seq<string>)
    ensures EntriesAsWritten(ts).None? <==> UnendedComment(ts)
    decreases |ts|
  {
    if ts != [] {
      if IsComment(ts[0]) {
        UnendedAfterLineEnd(ts);
        match AfterLineEnd(ts)
        case None =>
        case Some(rest) => EntriesAsWrittenUndefined(rest);
      } else {
        UnendedAfterToken(ts);
        EntriesAsWrittenUndefined(ts[1..]);
      }
    }
  }

  /** A list whose last line is a comment without a final newline: the
      loop as written advances past the end, the intended reading keeps
      the entries before the comment. */
  lemma TrailingCommentExample()
    ensures EntriesAsWritten(["a.h", "\n", "#", "done"]) == None
    ensures Entries(["a.h", "\n", "#", "done"]) == ["a.h"]
  {
    var ts := ["a.h", "\n", "#", "done"];
    assert ts[1..] == ["\n", "#", "done"];
    assert ts[1..][1..] == ["#", "done"];
    assert AfterLineEnd(["done"]) == None by {
      assert ["done"][1..] == [];
    }
    assert ["#", "done"][1..] == ["done"];
    assert AfterLineEnd(["#", "done"]) == None;
  }

  // ---------------------------------------------------------------- report

  /** The columns set in `row` below `n`, in ascending order. */
  function SetBelow(row: seq<bool>, n: int): (r: seq<int>)
    requires 0 <= n <= |row|
    ensures forall k :: 0 <= k < |r| ==> 0 <= r[k] < n
    decreases n
  {
    if n == 0 then [] else SetBelow(row, n - 1) + (if row[n - 1] then [n - 1] else [])
  }

  /** A column is listed exactly when it is set, and the list ascends. */
  lemma {:induction false} SetBelowSpec(row: seq<bool>, n: int)
    requires 0 <= n <= |row|
    ensures forall j :: j in SetBelow(row, n) <==> 0 <= j < n && row[j]
    ensures forall a, b :: 0 <= a < b < |SetBelow(row, n)| ==> SetBelow(row, n)[a] < SetBelow(row, n)[b]
    decreases n
  {
    if n > 0 {
      SetBelowSpec(row, n - 1);
      var prev := SetBelow(row, n - 1);
      forall a | 0 <= a < |prev| ensures prev[a] < n - 1 {
        assert prev[a] in prev;
      }
    }
  }

  /** Past a set column `a` and the clear columns after it up to `b`, the
      list grows by `a` alone. */
  lemma {:induction false} SetBelowSkip(row: seq<bool>, a: int, b: int)
    requires 0 <= a < b <= |row| && row[a]
    requires forall j :: a < j < b ==> !row[j]
    ensures SetBelow(row, b) == SetBelow(row, a) + [a]
    decreases b
  {
    if b > a + 1 {
      SetBelowSkip(row, a, b - 1);
    }
  }

  /** No column below `b` is set: the list is empty. */
  lemma {:induction false} SetBelowNone(row: seq<bool>, b: int)
    requires 0 <= b <= |row|
    requires forall j :: 0 <= j < b ==> !row[j]
    ensures SetBelow(row, b) == []
    decreases b
  {
    if b > 0 {
      SetBelowNone(row, b - 1);
    }
  }

  /** Every column set in `row`, ascending. */
  function SetColumns(row: seq<bool>): seq<int>
  {
    SetBelow(row, |row|)
  }

  /** The names at the positions `js`. */
  function NamesAt(names: seq<string>, js: seq<int>): (r: seq<string>)
    requires forall k :: 0 <= k < |js| ==> 0 <= js[k] < |names|
    ensures |r| == |js| && forall k :: 0 <= k < |js| ==> r[k] == names[js[k]]
  {
    seq(|js|, k requires 0 <= k < |js| => names[js[k]])
  }

  /** The relative paths of `ns`, in order. */
  function Relatives(ns: seq<string>): seq<string>
    decreases |ns|
  {
    if ns == [] then []
    else (if IsAbsolutePath(ns[0]) then [] else [ns[0]]) + Relatives(ns[1..])
  }

  /** The absolute paths of `ns`, in order. */
  function Absolutes(ns: seq<string>): seq<string>
    decreases |ns|
  {
    if ns == [] then []
    else (if IsAbsolutePath(ns[0]) then [ns[0]] else []) + Absolutes(ns[1..])
  }

  lemma RelativesSnoc(ns: seq<string>, n: string)
    ensures Relatives(ns + [n]) == Relatives(ns) + (if IsAbsolutePath(n) then [] else [n])
    ensures Absolutes(ns + [n]) == Absolutes(ns) + (if IsAbsolutePath(n) then [n] else [])
    decreases |ns|
  {
    if ns != [] {
      assert (ns + [n])[1..] == ns[1..] + [n];
      RelativesSnoc(ns[1..], n);
    } else {
      assert [n][1..] == [];
    }
  }

  /** The two groups together hold each path as often as it occurs. */
  lemma {:induction false} PartitionCounts(ns: seq<string>)
    ensures multiset(Relatives(ns)) + multiset(Absolutes(ns)) == multiset(ns)
    decreases |ns|
  {
    if ns != [] {
      PartitionCounts(ns[1..]);
      assert ns == [ns[0]] + ns[1..];
    }
  }

  /** The first group holds only relative paths, the second only absolute ones. */
  lemma {:induction false} PartitionKinds(ns: seq<string>)
    ensures forall k :: 0 <= k < |Relatives(ns)| ==> !IsAbsolutePath(Relatives(ns)[k])
    ensures forall k :: 0 <= k < |Absolutes(ns)| ==> IsAbsolutePath(Absolutes(ns)[k])
    decreases |ns|
  {
    if ns != [] {
      PartitionKinds(ns[1..]);
    }
  }

  /** `INDENT`: what precedes a header under its root. */
  const Indent: string := "    "

  /** Each path as printed under its root. */
  function Indented(ns: seq<string>): (r: seq<string>)
    ensures |r| == |ns| && forall k :: 0 <= k < |ns| ==> r[k] == Indent + ns[k]
  {
    seq(|ns|, k requires 0 <= k < |ns| => Indent + ns[k])
  }

  lemma IndentedSnoc(ns: seq<string>, n: string)
    ensures Indented(ns + [n]) == Indented(ns) + [Indent + n]
  {
  }

  lemma NamesAtSnoc(names: seq<string>, js: seq<int>, j: int)
    requires forall k :: 0 <= k < |js| ==> 0 <= js[k] < |names|
    requires 0 <= j < |names|
    ensures NamesAt(names, js + [j]) == NamesAt(names, js) + [names[j]]
  {
  }

  /** The lines printed for one root: its name, its relative headers, its
      absolute headers and an empty line. */
  function Series(root: string, headers: seq<string>): seq<string>
  {
    [root] + Indented(Relatives(headers)) + Indented(Absolutes(headers)) + [""]
  }

  /** The files row `i` of the relation `m` over `names` relates to, in
      registration order. */
  function Headers(names: seq<string>, m: seq<seq<bool>>, i: int): seq<string>
    requires |m| == |names| && Relations.Square(m) && 0 <= i < |m|
  {
    NamesAt(names, SetColumns(m[i]))
  }

  /** A name is listed for row `i` exactly when it is the name of a column
      set in that row. */
  lemma HeadersSpec(names: seq<string>, m: seq<seq<bool>>, i: int, b: string)
    requires |m| == |names| && Relations.Square(m) && 0 <= i < |m|
    ensures b in Headers(names, m, i) <==> exists j :: 0 <= j < |names| && m[i][j] && names[j] == b
  {
    var cols := SetColumns(m[i]);
    SetBelowSpec(m[i], |m[i]|);
    if b in Headers(names, m, i) {
      var k :| 0 <= k < |cols| && Headers(names, m, i)[k] == b;
      assert cols[k] in cols;
    }
    if exists j :: 0 <= j < |names| && m[i][j] && names[j] == b {
      var j :| 0 <= j < |names| && m[i][j] && names[j] == b;
      var k :| 0 <= k < |cols| && cols[k] == j;
      assert Headers(names, m, i)[k] == b;
    }
  }

  /** The lines `operator<<` prints for each row of the relation `m`
      over `names`: the block of row `i` is `Series` of its name and of the
      names of its headers. */
  function Blocks(names: seq<string>, m: seq<seq<bool>>): seq<seq<string>>
    requires |m| == |names| && Relations.Square(m)
  {
    seq(|m|, i requires 0 <= i < |m| => Series(names[i], Headers(names, m, i)))
  }

  /** The blocks `bs` one after another. */
  function Concat(bs: seq<seq<string>>): seq<string>
    decreases |bs|
  {
    if bs == [] then [] else Concat(bs[..|bs| - 1]) + bs[|bs| - 1]
  }

  /** One more block at the end adds its lines at the end. */
  lemma {:induction false} ConcatPrefix(bs: seq<seq<string>>, k: int)
    requires 0 <= k < |bs|
    ensures Concat(bs[..k + 1]) == Concat(bs[..k]) + bs[k]
  {
    assert bs[..k + 1][..k] == bs[..k];
  }
}
