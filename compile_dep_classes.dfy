/** `CompileDep`, the public class of the compile-time dependency
    component: the environment that holds the search path, the root files
    and the result of the last calculation.  The two iterators over that
    result are in `CompileDepIterators`. */
module CompileDepClasses {
  import opened Common
  import opened Text
  import opened Resolution
  import TokenScan
  import NameArrays
  import Registry
  import Relations
  import opened Expansion
  import opened Calculation
  import opened CompileDeps

  /** The `int` a C++ `bool` converts to. */
  function BoolAsInt(b: bool): (n: int)
    ensures n == 0 || n == 1
    ensures n == 0 <==> !b
  {
    if b then 1 else 0
  }

  /** The test of the `-i` and `-f` options of `cdep`: a nonzero result
      means the file could not be read. */
  predicate Rejected(status: int)
  {
    0 != status
  }

  /** The readers return `true` on success, which converts to 1, so the
      caller reports a readable ASCII file as unreadable and one it cannot
      read as read. */
  lemma SuccessRejected(file: Option<string>)
    ensures Rejected(BoolAsInt(file.Some? && IsAscii(file.value))) <==> file.Some? && IsAscii(file.value)
  {
  }

  /** A one-line list file is read, and its `true` is taken for a failure. */
  lemma ReadableListRejected()
    ensures IsAscii("src\n") && Rejected(BoolAsInt(IsAscii("src\n")))
  {
    assert "src\n"[0] == 's' && "src\n"[1] == 'r' && "src\n"[2] == 'c' && "src\n"[3] == '\n';
  }

  class CompileDep {
    /** `d_includeDirectories` and `d_rootFiles`. */
    const includeDirectories: NameArrays.NameArray
    const rootFiles: NameArrays.NameArray
    /** `d_fileNames_p` and `d_dependencies_p`: the registry and the
        relation of the last calculation. */
    var fileNames: Registry.NameIndexMap
    var dependencies: Relations.BinaryRelation
    /** `d_numRootFiles`: -1 before the first calculation. */
    var numRootFiles: int
    ghost var Repr: set<object>

    ghost predicate Valid()
      reads this, Repr
    {
      && this in Repr
      && includeDirectories in Repr && includeDirectories.Repr <= Repr
      && rootFiles in Repr && rootFiles.Repr <= Repr
      && fileNames in Repr && fileNames.Repr <= Repr
      && dependencies in Repr && dependencies.Repr <= Repr
      && this !in includeDirectories.Repr && this !in rootFiles.Repr
      && this !in fileNames.Repr && this !in dependencies.Repr
      && includeDirectories.Repr !! rootFiles.Repr
      && includeDirectories.Repr !! fileNames.Repr && includeDirectories.Repr !! dependencies.Repr
      && rootFiles.Repr !! fileNames.Repr && rootFiles.Repr !! dependencies.Repr
      && fileNames.Repr !! dependencies.Repr
      && includeDirectories.Valid() && rootFiles.Valid()
      && fileNames.Valid() && dependencies.Valid()
      && |dependencies.M| == |fileNames.Names|
      && -1 <= numRootFiles <= |fileNames.Names|
    }

    /** An environment with no directories, no roots and no result yet. */
    constructor ()
      ensures Valid() && fresh(Repr)
      ensures includeDirectories.Contents == [] && rootFiles.Contents == []
      ensures fileNames.Names == [] && dependencies.M == [] && numRootFiles == -1
    {
      includeDirectories := new NameArrays.NameArray(0);
      rootFiles := new NameArrays.NameArray(0);
      fileNames := new Registry.NameIndexMap(0);
      dependencies := new Relations.BinaryRelation(0, 0);
      numRootFiles := -1;
      new;
      Repr := {this} + includeDirectories.Repr + rootFiles.Repr + fileNames.Repr + dependencies.Repr;
    }

    /** `AddIncludeDirectory`: appends `dir` to the search path with a
        trailing '/', and ignores an empty name. */
    method AddIncludeDirectory(dir: string)
      requires Valid()
      modifies Repr
      ensures Valid() && fresh(Repr - old(Repr))
      ensures includeDirectories.Contents == old(includeDirectories.Contents) + DirectoryEntry(dir)
      ensures rootFiles.Contents == old(rootFiles.Contents)
      ensures fileNames.Names == old(fileNames.Names) && dependencies.M == old(dependencies.M)
      ensures fileNames == old(fileNames) && dependencies == old(dependencies)
      ensures numRootFiles == old(numRootFiles)
    {
      if dir != [] {
        var len := |dir|;
        if dir[len - 1] == '/' {
          var _ := includeDirectories.Append(dir);
        } else {
          var _ := includeDirectories.Append(dir + "/");
        }
        Repr := Repr + includeDirectories.Repr;
      }
    }

    /** `AddRootFile`: appends `file` to the roots, as it is. */
    method AddRootFile(file: string)
      requires Valid()
      modifies Repr
      ensures Valid() && fresh(Repr - old(Repr))
      ensures rootFiles.Contents == old(rootFiles.Contents) + [file]
      ensures includeDirectories.Contents == old(includeDirectories.Contents)
      ensures fileNames.Names == old(fileNames.Names) && dependencies.M == old(dependencies.M)
      ensures fileNames == old(fileNames) && dependencies == old(dependencies)
      ensures numRootFiles == old(numRootFiles)
    {
      var _ := rootFiles.Append(file);
      Repr := Repr + rootFiles.Repr;
    }

    /** `loadFromStream`: hands the entries of `stream` (see `Entries`) in
        order to `AddIncludeDirectory` when `toIncludes` is set and to
        `AddRootFile` otherwise.  A comment that runs to the end of the
        stream ends the loop (see the finding on `EntriesAsWritten`). */
    method LoadFromStream(stream: string, toIncludes: bool)
      requires Valid()
      modifies Repr
      ensures Valid() && fresh(Repr - old(Repr))
      ensures includeDirectories.Contents == old(includeDirectories.Contents)
        + (if toIncludes then DirectoryEntries(Entries(TokenScan.Tokens(stream))) else [])
      ensures rootFiles.Contents == old(rootFiles.Contents)
        + (if toIncludes then [] else Entries(TokenScan.Tokens(stream)))
      ensures fileNames == old(fileNames) && dependencies == old(dependencies)
      ensures numRootFiles == old(numRootFiles)
    {
      var it := new TokenScan.TokenIterator(stream);
      assert it.Rest() == TokenScan.Tokens(stream);
      Load(it, toIncludes, Entries(TokenScan.Tokens(stream)));
    }

    /** The loop of `loadFromStream` over the iterator `it`, whose entries
        are `all`. */
    method Load(it: TokenScan.TokenIterator, toIncludes: bool, ghost all: seq<string>)
      requires Valid() && Scanning(it, all, []) && it.Repr !! Repr
      modifies Repr, it.Repr
      ensures Valid() && fresh(Repr - old(Repr))
      ensures includeDirectories.Contents == old(includeDirectories.Contents)
        + (if toIncludes then DirectoryEntries(all) else [])
      ensures rootFiles.Contents == old(rootFiles.Contents) + (if toIncludes then [] else all)
      ensures fileNames == old(fileNames) && dependencies == old(dependencies)
      ensures numRootFiles == old(numRootFiles)
    {
      ghost var inc0, roots0 := includeDirectories.Contents, rootFiles.Contents;
      ghost var handled: seq<string> := [];
      while it.IsValid()
        invariant Lists(toIncludes, inc0, roots0, handled)
        invariant Scanning(it, all, handled) && it.Repr !! Repr
        invariant fresh(Repr - old(Repr)) && fresh(it.Repr - old(it.Repr))
        invariant fileNames == old(fileNames) && dependencies == old(dependencies)
        invariant numRootFiles == old(numRootFiles)
        decreases |it.Rest()|
      {
        ghost var r0, i0 := Repr, it.Repr;
        handled := PassToken(it, toIncludes, inc0, roots0, all, handled);
        assert fresh(Repr - old(Repr)) by {
          assert Repr - old(Repr) <= (Repr - r0) + (r0 - old(Repr));
        }
        assert fresh(it.Repr - old(it.Repr)) by {
          assert it.Repr - old(it.Repr) <= (it.Repr - i0) + (i0 - old(it.Repr));
        }
      }
      assert all == handled by {
        assert it.Rest() == [];
        assert handled + [] == handled;
      }
    }

    /** The lists of the loop of `loadFromStream`: they started as `inc0`
        and `roots0`, and the entries `handled` have been added to one. */
    ghost predicate Lists(toIncludes: bool, inc0: seq<string>, roots0: seq<string>, handled: seq<string>)
      reads this, Repr
    {
      && Valid()
      && includeDirectories.Contents == inc0 + (if toIncludes then DirectoryEntries(handled) else [])
      && rootFiles.Contents == roots0 + (if toIncludes then [] else handled)
    }

    /** The scan of the loop of `loadFromStream`: of all entries `all` of the
        stream, `handled` are behind the iterator `it`, the rest ahead. */
    static ghost predicate Scanning(it: TokenScan.TokenIterator, all: seq<string>, handled: seq<string>)
      reads it, it.Repr
    {
      it.Valid() && all == handled + Entries(it.Rest())
    }

    /** One turn of the loop of `loadFromStream`, on the token at `it`. */
    method PassToken(it: TokenScan.TokenIterator, toIncludes: bool, ghost inc0: seq<string>,
                     ghost roots0: seq<string>, ghost all: seq<string>, ghost handled: seq<string>)
      returns (ghost handled': seq<string>)
      requires Lists(toIncludes, inc0, roots0, handled)
      requires Scanning(it, all, handled) && it.Repr !! Repr && it.IsValid()
      modifies Repr, it.Repr
      ensures Lists(toIncludes, inc0, roots0, handled')
      ensures Scanning(it, all, handled') && it.Repr !! Repr
      ensures fresh(Repr - old(Repr)) && fresh(it.Repr - old(it.Repr)) && |it.Rest()| < |old(it.Rest())|
      ensures fileNames == old(fileNames) && dependencies == old(dependencies)
      ensures numRootFiles == old(numRootFiles)
    {
      var token := it.Current();
      if token[0] == '#' {
        PassComment(it, all, handled, Repr);
        handled' := handled;
      } else if token[0] != '\n' {
        handled' := PassEntry(it, toIncludes, inc0, roots0, all, handled);
      } else {
        PassLineEnd(it, all, handled, Repr);
        handled' := handled;
      }
    }

    /** The body of `loadFromStream` on a comment token: skips to the line
        end and past it, or stops at the end of the stream.  Objects `rest`
        apart from the iterator stay apart from it. */
    static method PassComment(it: TokenScan.TokenIterator, ghost all: seq<string>,
                              ghost handled: seq<string>, ghost rest: set<object>)
      requires Scanning(it, all, handled) && it.IsValid() && IsComment(it.Current())
      requires it.Repr !! rest
      modifies it.Repr
      ensures Scanning(it, all, handled) && it.Repr !! rest
      ensures fresh(it.Repr - old(it.Repr)) && |it.Rest()| < |old(it.Rest())|
    {
      ghost var r0 := it.Rest();
      SkipComment(it);
      if it.IsValid() {
        EntriesAfterComment(r0, it.Rest());
        ghost var i1 := it.Repr;
        Next(it);
        assert fresh(it.Repr - old(it.Repr)) by {
          assert it.Repr - old(it.Repr) <= (it.Repr - i1) + (i1 - old(it.Repr));
        }
      } else {
        assert Entries(r0) == [];
      }
    }

    /** The body of `loadFromStream` on a line end: passes over it. */
    static method PassLineEnd(it: TokenScan.TokenIterator, ghost all: seq<string>,
                              ghost handled: seq<string>, ghost rest: set<object>)
      requires Scanning(it, all, handled) && it.IsValid() && IsLineEnd(it.Current())
      requires it.Repr !! rest
      modifies it.Repr
      ensures Scanning(it, all, handled) && it.Repr !! rest
      ensures fresh(it.Repr - old(it.Repr)) && |it.Rest()| < |old(it.Rest())|
    {
      Next(it);
    }

    /** The body of `loadFromStream` on an entry: `Func::call(dep, token)`,
        then on to the next token. */
    method PassEntry(it: TokenScan.TokenIterator, toIncludes: bool, ghost inc0: seq<string>,
                     ghost roots0: seq<string>, ghost all: seq<string>, ghost handled: seq<string>)
      returns (ghost handled': seq<string>)
      requires Lists(toIncludes, inc0, roots0, handled)
      requires Scanning(it, all, handled) && it.Repr !! Repr
      requires it.IsValid() && !IsComment(it.Current()) && !IsLineEnd(it.Current())
      modifies Repr, it.Repr
      ensures Lists(toIncludes, inc0, roots0, handled')
      ensures Scanning(it, all, handled') && it.Repr !! Repr
      ensures fresh(Repr - old(Repr)) && fresh(it.Repr - old(it.Repr)) && |it.Rest()| < |old(it.Rest())|
      ensures fileNames == old(fileNames) && dependencies == old(dependencies)
      ensures numRootFiles == old(numRootFiles)
    {
      var token := it.Current();
      ghost var r0 := it.Rest();
      assert Entries(r0) == [token] + Entries(r0[1..]);
      handled' := handled + [token];
      Take(token, toIncludes);
      assert it.Rest() == r0;
      assert all == handled' + Entries(r0[1..]) by {
        AppendAssociative(handled, [token], Entries(r0[1..]));
      }
      assert includeDirectories.Contents == inc0 + (if toIncludes then DirectoryEntries(handled') else []) by {
        DirectoryEntriesSnoc(handled, token);
        AppendAssociative(inc0, DirectoryEntries(handled), DirectoryEntry(token));
      }
      assert rootFiles.Contents == roots0 + (if toIncludes then [] else handled') by {
        AppendAssociative(roots0, handled, [token]);
      }
      Next(it);
    }

    /** `Func::call(dep, token)`: adds `token` as an include directory or as
        a root file. */
    method Take(token: string, toIncludes: bool)
      requires Valid()
      modifies Repr
      ensures Valid() && fresh(Repr - old(Repr))
      ensures includeDirectories.Contents == old(includeDirectories.Contents)
        + (if toIncludes then DirectoryEntry(token) else [])
      ensures rootFiles.Contents == old(rootFiles.Contents) + (if toIncludes then [] else [token])
      ensures fileNames == old(fileNames) && dependencies == old(dependencies)
      ensures numRootFiles == old(numRootFiles)
    {
      if toIncludes {
        AddIncludeDirectory(token);
      } else {
        AddRootFile(token);
      }
    }

    /** `ReadIncludeDirectories`: `false`, changing nothing, when the file
        cannot be opened or is not all ASCII; otherwise each entry of the file
        is added as an include directory and the result is `true`. */
    method ReadIncludeDirectories(file: Option<string>) returns (ok: bool)
      requires Valid()
      modifies Repr
      ensures Valid() && fresh(Repr - old(Repr))
      ensures ok <==> file.Some? && IsAscii(file.value)
      ensures includeDirectories.Contents == old(includeDirectories.Contents)
        + (if ok then DirectoryEntries(Entries(TokenScan.Tokens(file.value))) else [])
      ensures rootFiles.Contents == old(rootFiles.Contents)
      ensures fileNames == old(fileNames) && dependencies == old(dependencies)
      ensures numRootFiles == old(numRootFiles)
    {
      ok := IsAsciiFile(file);
      if ok {
        LoadFromStream(file.value, true);
      }
    }

    /** `ReadRootFiles`: as `ReadIncludeDirectories`, for root files. */
    method ReadRootFiles(file: Option<string>) returns (ok: bool)
      requires Valid()
      modifies Repr
      ensures Valid() && fresh(Repr - old(Repr))
      ensures ok <==> file.Some? && IsAscii(file.value)
      ensures rootFiles.Contents == old(rootFiles.Contents)
        + (if ok then Entries(TokenScan.Tokens(file.value)) else [])
      ensures includeDirectories.Contents == old(includeDirectories.Contents)
      ensures fileNames == old(fileNames) && dependencies == old(dependencies)
      ensures numRootFiles == old(numRootFiles)
    {
      ok := IsAsciiFile(file);
      if ok {
        LoadFromStream(file.value, false);
      }
    }

    /** `ReadIncludeDirectories` with the status its declaration documents:
        0 unless the file cannot be opened or is not all ASCII, and then -1,
        the value the alias loader gives the same failure. */
    method ReadIncludeDirectoriesStatus(file: Option<string>) returns (status: int)
      requires Valid()
      modifies Repr
      ensures Valid() && fresh(Repr - old(Repr))
      ensures status == 0 || status == -1
      ensures !Rejected(status) <==> file.Some? && IsAscii(file.value)
      ensures includeDirectories.Contents == old(includeDirectories.Contents)
        + (if status == 0 then DirectoryEntries(Entries(TokenScan.Tokens(file.value))) else [])
      ensures rootFiles.Contents == old(rootFiles.Contents)
      ensures fileNames == old(fileNames) && dependencies == old(dependencies)
      ensures numRootFiles == old(numRootFiles)
    {
      var ok := ReadIncludeDirectories(file);
      status := if ok then 0 else -1;
    }

    /** `readRootFiles` with its documented status, as
        `ReadIncludeDirectoriesStatus`. */
    method ReadRootFilesStatus(file: Option<string>) returns (status: int)
      requires Valid()
      modifies Repr
      ensures Valid() && fresh(Repr - old(Repr))
      ensures status == 0 || status == -1
      ensures !Rejected(status) <==> file.Some? && IsAscii(file.value)
      ensures rootFiles.Contents == old(rootFiles.Contents)
        + (if status == 0 then Entries(TokenScan.Tokens(file.value)) else [])
      ensures includeDirectories.Contents == old(includeDirectories.Contents)
      ensures fileNames == old(fileNames) && dependencies == old(dependencies)
      ensures numRootFiles == old(numRootFiles)
    {
      var ok := ReadRootFiles(file);
      status := if ok then 0 else -1;
    }

    /** `calculate(orf, recursionFlag)` over the files `fs`: a fresh registry
        and relation hold the roots found, then everything they include (all
        of it when `recurse` is set, else what the roots include directly),
        closed transitively when `recurse` is set.  `errs` is what is written
        to `orf`; the result is `true` exactly when nothing was. */
    method Calculate(fs: FileSystem, recurse: bool) returns (success: bool, errs: seq<Diagnostic>)
      requires Valid()
      modifies this
      ensures Valid() && fresh(Repr - old(Repr))
      ensures fresh(fileNames) && fresh(dependencies)
      ensures Scan(fileNames.Names, dependencies.M, errs)
           == Calculated(fs, includeDirectories.Contents, rootFiles.Contents, recurse)
      ensures numRootFiles == |Accepted(fs, includeDirectories.Contents, rootFiles.Contents)|
      ensures success <==> errs == []
      ensures success <==>
        && numRootFiles == |rootFiles.Contents|
        && Checked(fs, includeDirectories.Contents, fileNames.Names, numRootFiles, recurse)
    {
      var files, deps, n;
      files, deps, n, errs := CalculateFresh(fs, includeDirectories, rootFiles, recurse);
      ghost var fr, dr, r0 := files.Repr, deps.Repr, Repr;
      assert r0 == old(Repr) && fresh(fr) && fresh(dr);
      Install(files, deps, n);
      assert Repr - r0 <= fr + dr;
      assert fresh(Repr - r0) by {
        assert fresh(fr + dr);
      }
      success := errs == [];
    }

    /** Replaces the result of the last calculation by `files`, `deps` and `n`. */
    method Install(files: Registry.NameIndexMap, deps: Relations.BinaryRelation, n: int)
      requires Valid()
      requires files.Repr !! Repr && deps.Repr !! Repr && files.Repr !! deps.Repr
      requires files.Valid() && deps.Valid()
      requires |deps.M| == |files.Names| && -1 <= n <= |files.Names|
      modifies this
      ensures Valid() && Repr - old(Repr) <= files.Repr + deps.Repr
      ensures fileNames == files && dependencies == deps && numRootFiles == n
    {
      fileNames := files;
      dependencies := deps;
      numRootFiles := n;
      Repr := {this} + includeDirectories.Repr + rootFiles.Repr + fileNames.Repr + dependencies.Repr;
    }
  }
}
