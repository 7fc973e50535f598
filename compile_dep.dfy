/** The compile-time dependency calculation (`CompileDep`): the search
    path, root seeding, the recursive expansion over a name registry and a
    relation matrix, and the root and header views of the result. */
module CompileDeps {
  import opened Common
  import opened Text
  import opened Resolution
  import TokenScan
  import FileDeps
  import NameArrays
  import Registry
  import Relations
  import opened Expansion
  import opened Calculation

  /** The status codes of `getDep`. */
  const Good: int := 0
  const Bad: int := -1

  // ---------------------------------------------------------------- list files

  /** `IsAsciiFile`: `false` when the file cannot be opened (`None`) or one
      of its characters is not ASCII. */
  method IsAsciiFile(file: Option<string>) returns (ok: bool)
    ensures ok <==> file.Some? && IsAscii(file.value)
  {
    if file.None? {
      return false;
    }
    var s := file.value;
    var i := 0;
    while i < |s|
      invariant 0 <= i <= |s| && IsAscii(s[..i])
    {
      if s[i] as int >= 128 {
        return false;
      }
      i := i + 1;
    }
    assert s[..i] == s;
    return true;
  }

  /** The comment skip of `loadFromStream`: advances `it` from a comment
      token to the line end after it, or to the end of the stream when
      there is none. */
  method SkipComment(it: TokenScan.TokenIterator)
    requires it.Valid() && it.IsValid() && IsComment(it.Current())
    modifies it.Repr
    ensures it.Valid() && fresh(it.Repr - old(it.Repr))
    ensures it.IsValid() ==> IsLineEnd(it.Current())
    ensures AfterLineEnd(it.Rest()) == AfterLineEnd(old(it.Rest()))
  {
    while it.IsValid() && it.Current()[0] != '\n'
      invariant it.Valid() && fresh(it.Repr - old(it.Repr))
      invariant AfterLineEnd(it.Rest()) == AfterLineEnd(old(it.Rest()))
      decreases |it.Rest()|
    {
      assert AfterLineEnd(it.Rest()) == AfterLineEnd(it.Rest()[1..]);
      Next(it);
    }
  }

  /** `++it` as `loadFromStream` uses it: the tokens still to come lose
      their first. */
  method Next(it: TokenScan.TokenIterator)
    requires it.Valid() && it.IsValid()
    modifies it.Repr
    ensures it.Valid() && fresh(it.Repr - old(it.Repr))
    ensures it.Rest() == old(it.Rest())[1..]
  {
    it.Advance();
  }

  // ---------------------------------------------------------------- search

  /** `search(s, includeDir, file)`: the candidate in one directory, when
      that file exists. */
  method SearchDir(fs: FileSystem, includeDir: string, file: string) returns (r: Option<string>)
    requires !IsAbsolutePath(file)
    ensures r.Some? <==> Candidate(includeDir, file) in fs
    ensures r.Some? ==> r.value == Candidate(includeDir, file)
  {
    var dirFile := StripDotSlash(includeDir + file);
    r := if dirFile in fs then Some(dirFile) else None;
  }

  /** `search(s, a, file)`: tries an absolute name as it is and any other
      name in each directory of `a` in turn (see `FirstFoundSpec`). */
  method Search(fs: FileSystem, a: NameArrays.NameArray, file: string) returns (r: Option<string>)
    requires a.Valid()
    ensures r == Resolve(fs, a.Contents, file)
  {
    if IsAbsolutePath(file) {
      r := if file in fs then Some(file) else None;
    } else {
      r := SearchPath(fs, a, file);
    }
  }

  /** The loop of `search` over the directories of `a`, for a relative name. */
  method SearchPath(fs: FileSystem, a: NameArrays.NameArray, file: string) returns (r: Option<string>)
    requires a.Valid() && !IsAbsolutePath(file)
    ensures r == FirstFound(fs, a.Contents, file)
  {
    r := None;
    var i := 0;
    while i < a.Length()
      invariant 0 <= i <= |a.Contents| && r.None?
      invariant FirstFound(fs, a.Contents[i..], file) == FirstFound(fs, a.Contents, file)
      decreases |a.Contents| - i
    {
      var dir := a.At(i).value;
      assert a.Contents[i..][0] == dir;
      assert a.Contents[i..][1..] == a.Contents[i + 1..];
      r := SearchDir(fs, dir, file);
      if r.Some? {
        return;
      }
      i := i + 1;
    }
  }

  // ---------------------------------------------------------------- getDep

  /** The state `getDep` works on (the file-scope variables of the source):
      three separate valid objects whose registry and matrix `Fit`. */
  ghost predicate Working(fs: FileSystem, files: Registry.NameIndexMap,
                          deps: Relations.BinaryRelation, includes: NameArrays.NameArray)
    reads files, files.Repr, deps, deps.Repr, includes, includes.Repr
  {
    && files.Valid() && deps.Valid() && includes.Valid()
    && files.Repr !! deps.Repr && files.Repr !! includes.Repr && deps.Repr !! includes.Repr
    && Fit(fs, Scan(files.Names, deps.M, []))
  }

  /** Registers the existing file `path`, giving a new file a matrix entry
      related to nothing. */
  method Register(fs: FileSystem, files: Registry.NameIndexMap, deps: Relations.BinaryRelation,
                  includes: NameArrays.NameArray, path: string)
    returns (otherIndex: int, isNew: bool)
    requires Working(fs, files, deps, includes) && path in fs
    modifies files.Repr, deps.Repr
    ensures Working(fs, files, deps, includes)
    ensures fresh(files.Repr - old(files.Repr)) && fresh(deps.Repr - old(deps.Repr))
    ensures isNew <==> path !in old(files.Names)
    ensures files.Names == if isNew then old(files.Names) + [path] else old(files.Names)
    ensures deps.M == if isNew then Relations.Extended(old(deps.M)) else old(deps.M)
    ensures isNew ==> otherIndex == |old(files.Names)|
    ensures !isNew ==> otherIndex == IndexOf(files.Names, path)
  {
    ghost var names0 := files.Names;
    ghost var f0 := files.Repr;
    var length := files.Length();
    otherIndex := files.Entry(path);
    isNew := files.Length() > length;
    assert isNew <==> path !in names0;
    assert files.Repr !! deps.Repr && files.Repr !! includes.Repr by {
      assert files.Repr <= f0 + (files.Repr - f0);
    }
    if isNew {
      Extend(fs, files, deps, includes, names0, path);
    } else {
      assert files.Names == names0;
    }
  }

  /** The matrix entry of the newly registered file `path`. */
  method Extend(fs: FileSystem, files: Registry.NameIndexMap, deps: Relations.BinaryRelation,
                includes: NameArrays.NameArray, ghost names0: seq<string>, path: string)
    requires files.Valid() && deps.Valid() && includes.Valid()
    requires files.Repr !! deps.Repr && files.Repr !! includes.Repr && deps.Repr !! includes.Repr
    requires Fit(fs, Scan(names0, deps.M, [])) && path in fs && path !in names0
    requires files.Names == names0 + [path]
    modifies deps.Repr
    ensures Working(fs, files, deps, includes)
    ensures fresh(deps.Repr - old(deps.Repr)) && deps.M == Relations.Extended(old(deps.M))
  {
    ghost var d0 := deps.Repr;
    ghost var st0 := Scan(names0, deps.M, []);
    var _ := deps.AppendEntry();
    assert deps.Repr !! files.Repr && deps.Repr !! includes.Repr by {
      assert deps.Repr <= d0 + (deps.Repr - d0);
    }
    assert Scan(files.Names, deps.M, []) == Appended(fs, st0, path);
  }

  /** Sets the bit of a direct include. */
  method Record(fs: FileSystem, files: Registry.NameIndexMap, deps: Relations.BinaryRelation,
                includes: NameArrays.NameArray, index: int, otherIndex: int)
    requires Working(fs, files, deps, includes)
    requires 0 <= index < |files.Names| && 0 <= otherIndex < |files.Names|
    modifies deps.Repr
    ensures Working(fs, files, deps, includes)
    ensures deps.Repr == old(deps.Repr) && files.Names == old(files.Names)
    ensures deps.M == old(deps.M)[index := old(deps.M)[index][otherIndex := true]]
  {
    deps.SetOn(index, otherIndex);
  }

  /** Registers the existing file `path` and, when it is new and `recurse`
      is set, expands it at once. */
  method Admit(fs: FileSystem, files: Registry.NameIndexMap, deps: Relations.BinaryRelation,
               includes: NameArrays.NameArray, recurse: bool, path: string, ghost e0: seq<Diagnostic>)
    returns (otherIndex: int, status: int, errs: seq<Diagnostic>)
    requires Working(fs, files, deps, includes) && path in fs
    modifies files.Repr, deps.Repr
    ensures Working(fs, files, deps, includes)
    ensures fresh(files.Repr - old(files.Repr)) && fresh(deps.Repr - old(deps.Repr))
    ensures path in old(files.Names) ==>
      && files.Names == old(files.Names) && deps.M == old(deps.M) && errs == []
      && otherIndex == IndexOf(files.Names, path)
    ensures path !in old(files.Names) ==>
      && otherIndex == |old(files.Names)|
      && Scan(files.Names, deps.M, e0 + errs)
         == Grown(fs, includes.Contents, recurse, Scan(old(files.Names), old(deps.M), e0), path)
    ensures status == Good || status == Bad
    ensures status == Bad <==> errs != []
    decreases |fs.Keys| - |files.Names|, 0
  {
    ghost var st0 := Scan(files.Names, deps.M, e0);
    ghost var fr0, dr0 := files.Repr, deps.Repr;
    status, errs := Good, [];
    var isNew;
    otherIndex, isNew := Register(fs, files, deps, includes, path);
    if isNew {
      assert Scan(files.Names, deps.M, e0) == Appended(fs, st0, path);
      if recurse {
        ghost var fr1, dr1 := files.Repr, deps.Repr;
        status, errs := GetDep(fs, files, deps, includes, recurse, otherIndex, e0);
        assert fresh(files.Repr - fr0) by {
          assert files.Repr - fr0 <= (files.Repr - fr1) + (fr1 - fr0);
        }
        assert fresh(deps.Repr - dr0) by {
          assert deps.Repr - dr0 <= (deps.Repr - dr1) + (dr1 - dr0);
        }
      } else {
        assert e0 + errs == e0;
      }
    }
  }

  /** The part of `getDep`'s loop after the directive `dep` of file `index`
      has been found as the existing file `path`: registers `path`, expands
      it first when it is new and `recurse` is set, and records the edge.
      `e0` stands for what the error stream held before. */
  method Link(fs: FileSystem, files: Registry.NameIndexMap, deps: Relations.BinaryRelation,
              includes: NameArrays.NameArray, recurse: bool, index: int, dep: string, path: string,
              ghost e0: seq<Diagnostic>)
    returns (status: int, errs: seq<Diagnostic>)
    requires Working(fs, files, deps, includes) && 0 <= index < |files.Names|
    requires Resolve(fs, includes.Contents, dep) == Some(path)
    modifies files.Repr, deps.Repr
    ensures Working(fs, files, deps, includes)
    ensures fresh(files.Repr - old(files.Repr)) && fresh(deps.Repr - old(deps.Repr))
    ensures Scan(files.Names, deps.M, e0 + errs)
         == Visit(fs, includes.Contents, recurse, Scan(old(files.Names), old(deps.M), e0), index, dep)
    ensures status == Good || status == Bad
    ensures status == Bad <==> errs != []
    decreases |fs.Keys| - |files.Names|, 1
  {
    var otherIndex;
    otherIndex, status, errs := Admit(fs, files, deps, includes, recurse, path, e0);
    Record(fs, files, deps, includes, index, otherIndex);
  }

  /** The body of `getDep`'s loop for the directive `dep` of file `index`:
      looks it up along the search path and links file `index` to the file
      found, or reports the directive. */
  method Step(fs: FileSystem, files: Registry.NameIndexMap, deps: Relations.BinaryRelation,
              includes: NameArrays.NameArray, recurse: bool, index: int, dep: string,
              ghost e0: seq<Diagnostic>)
    returns (status: int, errs: seq<Diagnostic>)
    requires Working(fs, files, deps, includes) && 0 <= index < |files.Names|
    modifies files.Repr, deps.Repr
    ensures Working(fs, files, deps, includes)
    ensures fresh(files.Repr - old(files.Repr)) && fresh(deps.Repr - old(deps.Repr))
    ensures Scan(files.Names, deps.M, e0 + errs)
         == Visit(fs, includes.Contents, recurse, Scan(old(files.Names), old(deps.M), e0), index, dep)
    ensures status == Good || status == Bad
    ensures status == Bad <==> errs != []
    decreases |fs.Keys| - |files.Names|, 2
  {
    var dirFile := Search(fs, includes, dep);
    if dirFile.None? {
      return Bad, [IncludeNotFound(dep)];
    }
    status, errs := Link(fs, files, deps, includes, recurse, index, dep, dirFile.value, e0);
  }

  /** Reads the directives of `name` with a `FileDepIterator`: all of
      them, in order, and whether the file could be opened. */
  method ReadDeps(fs: FileSystem, name: string) returns (ds: seq<string>, isValidFile: bool)
    ensures ds == DepsOf(fs, name)
    ensures isValidFile <==> name in fs
  {
    var it := new FileDeps.FileDepIterator(Open(fs, name));
    ds := [];
    while it.IsValid()
      invariant it.Valid() && fresh(it.Repr) && it.Seen == ds
      invariant it.AllDeps == DepsOf(fs, name) && it.isValidFile == (name in fs)
      decreases |it.AllDeps| - |it.Seen|
    {
      var dep := it.Name().value;
      it.Advance();
      ds := ds + [dep];
    }
    it.CurrentIffRemaining();
    isValidFile := it.IsValidFile();
  }

  /** `getDep`'s loop over the directives `ds[k..]` of file `index`. */
  method Drain(fs: FileSystem, files: Registry.NameIndexMap, deps: Relations.BinaryRelation,
               includes: NameArrays.NameArray, recurse: bool, index: int,
               ds: seq<string>, ghost e0: seq<Diagnostic>)
    returns (status: int, errs: seq<Diagnostic>)
    requires Working(fs, files, deps, includes) && 0 <= index < |files.Names|
    modifies files.Repr, deps.Repr
    ensures Working(fs, files, deps, includes)
    ensures fresh(files.Repr - old(files.Repr)) && fresh(deps.Repr - old(deps.Repr))
    ensures Scan(files.Names, deps.M, e0 + errs)
         == Walk(fs, includes.Contents, recurse, Scan(old(files.Names), old(deps.M), e0), index, ds, 0)
    ensures status == Good || status == Bad
    ensures status == Bad <==> errs != []
    decreases |fs.Keys| - |files.Names|, 3
  {
    ghost var dirs := includes.Contents;
    ghost var st0 := Scan(files.Names, deps.M, e0);
    status, errs := Good, [];
    assert e0 + [] == e0;
    var k := 0;
    while k < |ds|
      invariant Working(fs, files, deps, includes) && includes.Contents == dirs
      invariant fresh(files.Repr - old(files.Repr)) && fresh(deps.Repr - old(deps.Repr))
      invariant k <= |ds| && |st0.names| <= |files.Names|
      invariant Walk(fs, dirs, recurse, Scan(files.Names, deps.M, e0 + errs), index, ds, k)
             == Walk(fs, dirs, recurse, st0, index, ds, 0)
      invariant (status == Good || status == Bad) && (status == Bad <==> errs != [])
    {
      ghost var fr1, dr1 := files.Repr, deps.Repr;
      var st, e := Step(fs, files, deps, includes, recurse, index, ds[k], e0 + errs);
      if st != Good {
        status := Bad;
      }
      AppendAssociative(e0, errs, e);
      errs := errs + e;
      k := k + 1;
      assert fresh(files.Repr - old(files.Repr)) by {
        assert files.Repr - old(files.Repr) <= (files.Repr - fr1) + (fr1 - old(files.Repr));
      }
      assert fresh(deps.Repr - old(deps.Repr)) by {
        assert deps.Repr - old(deps.Repr) <= (deps.Repr - dr1) + (dr1 - old(deps.Repr));
      }
    }
  }

  /** `getDep`: records every direct include of file `index`, expanding
      each newly registered file first when `recurse` is set; reports an
      include that cannot be resolved and a file that cannot be opened. */
  method GetDep(fs: FileSystem, files: Registry.NameIndexMap, deps: Relations.BinaryRelation,
                includes: NameArrays.NameArray, recurse: bool, index: int, ghost e0: seq<Diagnostic>)
    returns (status: int, errs: seq<Diagnostic>)
    requires Working(fs, files, deps, includes) && 0 <= index < |files.Names|
    modifies files.Repr, deps.Repr
    ensures Working(fs, files, deps, includes)
    ensures fresh(files.Repr - old(files.Repr)) && fresh(deps.Repr - old(deps.Repr))
    ensures Scan(files.Names, deps.M, e0 + errs)
         == Expand(fs, includes.Contents, recurse, Scan(old(files.Names), old(deps.M), e0), index)
    ensures status == Good || status == Bad
    ensures status == Bad <==> errs != []
    decreases |fs.Keys| - |files.Names|, 4
  {
    var name := files.At(index).value;
    var ds, isValidFile := ReadDeps(fs, name);
    status, errs := Drain(fs, files, deps, includes, recurse, index, ds, e0);
    if !isValidFile {
      AppendAssociative(e0, errs, [Unreadable(name)]);
      errs := errs + [Unreadable(name)];
      status := Bad;
    }
  }

  // ---------------------------------------------------------------- calculate

  /** The body of `calculate`'s first loop for the root file `file`:
      places the file found for it, or adds a report to `errs0`. */
  method PlaceRoot(fs: FileSystem, files: Registry.NameIndexMap, deps: Relations.BinaryRelation,
                   includes: NameArrays.NameArray, file: string, errs0: seq<Diagnostic>,
                   ghost done: seq<string>)
    returns (placed: bool, errs: seq<Diagnostic>)
    requires Working(fs, files, deps, includes)
    requires Scan(files.Names, deps.M, errs0) == Seeded(fs, includes.Contents, done)
    modifies files.Repr, deps.Repr
    ensures Working(fs, files, deps, includes)
    ensures fresh(files.Repr - old(files.Repr)) && fresh(deps.Repr - old(deps.Repr))
    ensures Scan(files.Names, deps.M, errs) == Seeded(fs, includes.Contents, done + [file])
    ensures placed <==> |files.Names| == |old(files.Names)| + 1
    ensures !placed ==> |files.Names| == |old(files.Names)|
  {
    SeededStep(fs, includes.Contents, done, file);
    ghost var st := Scan(files.Names, deps.M, errs0);
    var dirFile := Search(fs, includes, file);
    if dirFile.None? {
      return false, errs0 + [RootNotFound(file)];
    }
    var r := files.Add(dirFile.value);
    if r < 0 {
      return false, errs0 + [RootRedundant(file)];
    }
    var _ := deps.AppendEntry();
    assert Scan(files.Names, deps.M, errs0) == Appended(fs, st, dirFile.value);
    placed, errs := true, errs0;
  }

  /** The first loop of `calculate`: places each root file found on the
      search path and not yet registered, and reports the others. */
  method SeedRoots(fs: FileSystem, files: Registry.NameIndexMap, deps: Relations.BinaryRelation,
                   includes: NameArrays.NameArray, roots: NameArrays.NameArray)
    returns (numRoots: int, errs: seq<Diagnostic>)
    requires Working(fs, files, deps, includes) && files.Names == [] && roots.Valid()
    requires roots.Repr !! files.Repr && roots.Repr !! deps.Repr
    modifies files.Repr, deps.Repr
    ensures Working(fs, files, deps, includes)
    ensures fresh(files.Repr - old(files.Repr)) && fresh(deps.Repr - old(deps.Repr))
    ensures Scan(files.Names, deps.M, errs) == Seeded(fs, includes.Contents, roots.Contents)
    ensures numRoots == |files.Names|
  {
    ghost var dirs := includes.Contents;
    numRoots, errs := 0, [];
    var i := 0;
    while i < roots.Length()
      invariant Working(fs, files, deps, includes) && includes.Contents == dirs
      invariant fresh(files.Repr - old(files.Repr)) && fresh(deps.Repr - old(deps.Repr))
      invariant roots.Repr !! files.Repr && roots.Repr !! deps.Repr
      invariant 0 <= i <= |roots.Contents|
      invariant Scan(files.Names, deps.M, errs) == Seeded(fs, dirs, roots.Contents[..i])
      invariant numRoots == |files.Names|
      decreases |roots.Contents| - i
    {
      ghost var fr1, dr1 := files.Repr, deps.Repr;
      var file := roots.At(i).value;
      var placed;
      placed, errs := PlaceRoot(fs, files, deps, includes, file, errs, roots.Contents[..i]);
      if placed {
        numRoots := numRoots + 1;
      }
      assert roots.Contents[..i + 1] == roots.Contents[..i] + [file];
      i := i + 1;
      assert fresh(files.Repr - old(files.Repr)) by {
        assert files.Repr - old(files.Repr) <= (files.Repr - fr1) + (fr1 - old(files.Repr));
      }
      assert fresh(deps.Repr - old(deps.Repr)) by {
        assert deps.Repr - old(deps.Repr) <= (deps.Repr - dr1) + (dr1 - old(deps.Repr));
      }
    }
    assert roots.Contents[..i] == roots.Contents;
  }

  /** The first loop of `calculate` on a new registry and a new relation. */
  method Seed(fs: FileSystem, includes: NameArrays.NameArray, roots: NameArrays.NameArray)
    returns (files: Registry.NameIndexMap, deps: Relations.BinaryRelation, numRoots: int,
             errs: seq<Diagnostic>)
    requires includes.Valid() && roots.Valid()
    ensures fresh(files.Repr) && fresh(deps.Repr)
    ensures Working(fs, files, deps, includes)
    ensures Scan(files.Names, deps.M, errs) == Seeded(fs, includes.Contents, roots.Contents)
    ensures numRoots == |files.Names|
  {
    files := new Registry.NameIndexMap(0);
    deps := new Relations.BinaryRelation(0, 0);
    ghost var fr0, dr0 := files.Repr, deps.Repr;
    numRoots, errs := SeedRoots(fs, files, deps, includes, roots);
    assert fresh(files.Repr) by {
      assert files.Repr <= (files.Repr - fr0) + fr0;
    }
    assert fresh(deps.Repr) by {
      assert deps.Repr <= (deps.Repr - dr0) + dr0;
    }
  }

  /** The body of `calculate`'s second loop for root `i`: expands it and,
      when the expansion was incomplete, adds a report for the root. After
      turn `i` of a sequence of turns started at `st0`, it does turn `i + 1`. */
  method ExpandRoot(fs: FileSystem, files: Registry.NameIndexMap, deps: Relations.BinaryRelation,
                    includes: NameArrays.NameArray, recurse: bool, i: int, errs0: seq<Diagnostic>,
                    ghost st0: Scan)
    returns (errs: seq<Diagnostic>)
    requires Working(fs, files, deps, includes) && 0 <= i < |st0.names| && Fit(fs, st0)
    requires Scan(files.Names, deps.M, errs0) == RootsDone(fs, includes.Contents, recurse, st0, i)
    modifies files.Repr, deps.Repr
    ensures Working(fs, files, deps, includes)
    ensures fresh(files.Repr - old(files.Repr)) && fresh(deps.Repr - old(deps.Repr))
    ensures Scan(files.Names, deps.M, errs) == RootsDone(fs, includes.Contents, recurse, st0, i + 1)
  {
    TurnStep(fs, includes.Contents, recurse, st0, i);
    var name := files.At(i).value;
    var status, e := GetDep(fs, files, deps, includes, recurse, i, errs0);
    errs := errs0 + e;
    if status != Good {
      errs := errs + [Incomplete(name)];
    }
  }

  /** The second loop of `calculate`: expands the first `n` files, the
      roots, in turn, adding its reports to `errs0`. */
  method ExpandRoots(fs: FileSystem, files: Registry.NameIndexMap, deps: Relations.BinaryRelation,
                     includes: NameArrays.NameArray, recurse: bool, n: int, errs0: seq<Diagnostic>)
    returns (errs: seq<Diagnostic>)
    requires Working(fs, files, deps, includes) && 0 <= n <= |files.Names|
    modifies files.Repr, deps.Repr
    ensures Working(fs, files, deps, includes)
    ensures fresh(files.Repr - old(files.Repr)) && fresh(deps.Repr - old(deps.Repr))
    ensures Scan(files.Names, deps.M, errs)
         == RootsDone(fs, includes.Contents, recurse, Scan(old(files.Names), old(deps.M), errs0), n)
  {
    ghost var dirs := includes.Contents;
    ghost var st0 := Scan(files.Names, deps.M, errs0);
    errs := errs0;
    var i := 0;
    while i < n
      invariant Working(fs, files, deps, includes) && includes.Contents == dirs
      invariant fresh(files.Repr - old(files.Repr)) && fresh(deps.Repr - old(deps.Repr))
      invariant 0 <= i <= n
      invariant Scan(files.Names, deps.M, errs) == RootsDone(fs, dirs, recurse, st0, i)
      decreases n - i
    {
      ghost var fr1, dr1 := files.Repr, deps.Repr;
      errs := ExpandRoot(fs, files, deps, includes, recurse, i, errs, st0);
      i := i + 1;
      assert fresh(files.Repr - old(files.Repr)) by {
        assert files.Repr - old(files.Repr) <= (files.Repr - fr1) + (fr1 - old(files.Repr));
      }
      assert fresh(deps.Repr - old(deps.Repr)) by {
        assert deps.Repr - old(deps.Repr) <= (deps.Repr - dr1) + (dr1 - old(deps.Repr));
      }
    }
  }

  /** A valid registry and a valid relation kept apart. */
  ghost predicate Made(files: Registry.NameIndexMap, deps: Relations.BinaryRelation)
    reads files, files.Repr, deps, deps.Repr
  {
    files.Valid() && deps.Valid() && files.Repr !! deps.Repr
  }

  /** Both loops of `calculate` on a new registry and a new relation. */
  method Gather(fs: FileSystem, includes: NameArrays.NameArray, roots: NameArrays.NameArray,
                recurse: bool)
    returns (files: Registry.NameIndexMap, deps: Relations.BinaryRelation, numRoots: int,
             errs: seq<Diagnostic>)
    requires includes.Valid() && roots.Valid()
    ensures fresh(files.Repr) && fresh(deps.Repr) && Made(files, deps)
    ensures var s0 := Seeded(fs, includes.Contents, roots.Contents);
            Scan(files.Names, deps.M, errs) == RootsDone(fs, includes.Contents, recurse, s0, |s0.names|)
    ensures numRoots == |Accepted(fs, includes.Contents, roots.Contents)|
  {
    var e1;
    files, deps, numRoots, e1 := Seed(fs, includes, roots);
    ghost var fr1, dr1 := files.Repr, deps.Repr;
    errs := ExpandRoots(fs, files, deps, includes, recurse, numRoots, e1);
    assert fresh(files.Repr) by {
      assert files.Repr <= (files.Repr - fr1) + fr1;
    }
    assert fresh(deps.Repr) by {
      assert deps.Repr <= (deps.Repr - dr1) + dr1;
    }
  }

  /** All of `calculate` on a new registry and a new relation: `Gather`,
      then the transitive closure when `recurse` is set. */
  method CalculateFresh(fs: FileSystem, includes: NameArrays.NameArray, roots: NameArrays.NameArray,
                        recurse: bool)
    returns (files: Registry.NameIndexMap, deps: Relations.BinaryRelation, numRoots: int,
             errs: seq<Diagnostic>)
    requires includes.Valid() && roots.Valid()
    ensures fresh(files.Repr) && fresh(deps.Repr) && files.Repr !! deps.Repr
    ensures files.Valid() && deps.Valid()
    ensures Scan(files.Names, deps.M, errs) == Calculated(fs, includes.Contents, roots.Contents, recurse)
    ensures numRoots == |Accepted(fs, includes.Contents, roots.Contents)|
    ensures errs == [] <==>
      numRoots == |roots.Contents| && Checked(fs, includes.Contents, files.Names, numRoots, recurse)
  {
    files, deps, numRoots, errs := Gather(fs, includes, roots, recurse);
    if recurse {
      deps.MakeTransitive();
    }
    CalculatedErrs(fs, includes.Contents, roots.Contents, recurse);
  }
}
