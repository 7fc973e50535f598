/** The iterators over the result of a calculation of `CompileDep`, and
    the report `operator<<` writes with them. */
module CompileDepIterators {
  import opened Common
  import opened Text
  import opened Resolution
  import NameArrays
  import opened CompileDepClasses

  /** `RootFileIterator`: the roots of the last calculation of `dep`, in
      order; none before the first calculation. */
  class RootFileIterator {
    const dep: CompileDep
    /** `d_index`. */
    var index: int

    ghost predicate Valid()
      reads this, dep, dep.Repr
    {
      dep.Valid() && this !in dep.Repr && 0 <= index && (index <= dep.numRootFiles || index == 0)
    }

    constructor (compileDep: CompileDep)
      requires compileDep.Valid()
      ensures Valid() && dep == compileDep && index == 0
    {
      dep := compileDep;
      index := 0;
    }

    /** `operator const void*`: a root is at hand. */
    predicate IsValid()
      reads this, dep
    {
      index < dep.numRootFiles
    }

    /** `operator++`: on to the next root. */
    method Advance()
      requires Valid() && IsValid()
      modifies this
      ensures Valid() && index == old(index) + 1
    {
      index := index + 1;
    }

    /** `operator()`: the root at hand, or nothing past the registry. */
    function Current(): (r: Option<string>)
      requires Valid()
      reads this, dep, dep.Repr
      ensures IsValid() ==> r == Some(dep.fileNames.Names[index])
      ensures index >= |dep.fileNames.Names| ==> r == None
    {
      dep.fileNames.At(index)
    }
  }

  /** `HeaderFileIterator`: the files the root at hand of `root` depends on,
      in registration order. */
  class HeaderFileIterator {
    const root: RootFileIterator
    /** `d_index`: -1 before the first step. */
    var index: int

    /** The row of the relation for the root at hand. */
    ghost function Row(): (r: seq<bool>)
      requires root.Valid() && root.IsValid()
      reads root, root.dep, root.dep.Repr
      ensures |r| == |root.dep.dependencies.M|
    {
      root.dep.dependencies.M[root.index]
    }

    /** The iterator rests before the first column or on a column that is
        set, or past the last column. */
    ghost predicate Valid()
      reads this, root, root.dep, root.dep.Repr
    {
      && root.Valid() && root.IsValid() && this !in root.dep.Repr
      && -1 <= index <= |root.dep.dependencies.M|
      && (0 <= index < |root.dep.dependencies.M| ==> Row()[index])
    }

    /** Starts on the first column set for the root at hand of `iter`. */
    constructor (iter: RootFileIterator)
      requires iter.Valid() && iter.IsValid()
      ensures Valid() && root == iter && 0 <= index
      ensures forall j :: 0 <= j < index ==> !Row()[j]
    {
      root := iter;
      index := -1;
      new;
      Advance();
    }

    /** `operator const void*`: a column is at hand. */
    predicate IsValid()
      requires Valid()
      reads this, root, root.dep, root.dep.Repr
    {
      index < root.dep.dependencies.Length()
    }

    /** `operator++`: on to the next column that is set, or past the end. */
    method Advance()
      requires Valid() && IsValid()
      modifies this
      ensures Valid() && old(index) < index
      ensures forall j :: old(index) < j < index ==> !Row()[j]
    {
      var rel := root.dep.dependencies;
      index := index + 1;
      while index < rel.Length() && !rel.Get(root.index, index)
        invariant old(index) < index <= |rel.M|
        invariant forall j :: old(index) < j < index ==> !Row()[j]
        decreases |rel.M| - index
      {
        index := index + 1;
      }
    }

    /** `operator()`: the file at hand, or nothing outside the registry. */
    function Current(): (r: Option<string>)
      requires Valid()
      reads this, root, root.dep, root.dep.Repr
      ensures 0 <= index < |root.dep.fileNames.Names| ==> r == Some(root.dep.fileNames.Names[index])
      ensures !(0 <= index < |root.dep.fileNames.Names|) ==> r == None
    {
      root.dep.fileNames.At(index)
    }
  }

  /** `operator<<`: for each root of the last calculation, its name, then
      the relative and then the absolute names of the files it depends on,
      indented, then an empty line; one string per line written. */
  method Report(dep: CompileDep) returns (lines: seq<string>)
    requires dep.Valid()
    ensures var bs := Blocks(dep.fileNames.Names, dep.dependencies.M);
      lines == Concat(bs[..if dep.numRootFiles < 0 then 0 else dep.numRootFiles])
  {
    ghost var bs := Blocks(dep.fileNames.Names, dep.dependencies.M);
    ghost var n := if dep.numRootFiles < 0 then 0 else dep.numRootFiles;
    lines := [];
    var rit := new RootFileIterator(dep);
    while rit.IsValid()
      invariant rit.Valid() && rit.dep == dep && fresh(rit)
      invariant 0 <= rit.index <= n && lines == Concat(bs[..rit.index])
      decreases dep.numRootFiles - rit.index
    {
      lines := ReportNext(rit, lines, bs);
    }
    assert rit.index == n;
  }

  /** One turn of `operator<<` over the roots: the lines of the root at
      hand of `rit` follow those of the roots before it, on the blocks `bs`
      of the relation of the last calculation. */
  method ReportNext(rit: RootFileIterator, lines: seq<string>, ghost bs: seq<seq<string>>)
    returns (lines': seq<string>)
    requires rit.Valid() && rit.IsValid()
    requires bs == Blocks(rit.dep.fileNames.Names, rit.dep.dependencies.M)
    requires lines == Concat(bs[..rit.index])
    modifies rit
    ensures rit.Valid() && rit.index == old(rit.index) + 1
    ensures lines' == Concat(bs[..rit.index])
  {
    var series := ReportRoot(rit);
    lines' := lines + series;
    ConcatPrefix(bs, rit.index);
    rit.Advance();
  }

  /** The lines `operator<<` writes for the root at hand of `rit`. */
  method ReportRoot(rit: RootFileIterator) returns (lines: seq<string>)
    requires rit.Valid() && rit.IsValid()
    ensures lines == Series(rit.dep.fileNames.Names[rit.index],
                            Headers(rit.dep.fileNames.Names, rit.dep.dependencies.M, rit.index))
  {
    var a := new NameArrays.NameArray(0);
    lines := [rit.Current().value];
    var hit := new HeaderFileIterator(rit);
    var relatives := ReportHeaders(hit, a);
    var absolutes := ReportAbsolutes(a);
    lines := lines + relatives + absolutes + [""];
  }

  /** The loop of `operator<<` over `hit`: the relative names it yields are
      returned as lines as they come, the absolute ones are kept in `a`. */
  method ReportHeaders(hit: HeaderFileIterator, a: NameArrays.NameArray) returns (lines: seq<string>)
    requires hit.Valid() && 0 <= hit.index && forall j :: 0 <= j < hit.index ==> !hit.Row()[j]
    requires a.Valid() && a.Contents == []
    requires a.Repr !! hit.root.dep.Repr && a.Repr !! {hit, hit.root, hit.root.dep}
    modifies hit, a.Repr
    ensures a.Valid()
    ensures var hs := Headers(hit.root.dep.fileNames.Names, hit.root.dep.dependencies.M, hit.root.index);
      lines == Indented(Relatives(hs)) && a.Contents == Absolutes(hs)
  {
    ghost var names, row := hit.root.dep.fileNames.Names, hit.Row();
    ghost var others := hit.root.dep.Repr + {hit, hit.root, hit.root.dep};
    lines := [];
    SetBelowNone(row, hit.index);
    while hit.IsValid()
      invariant Listed(hit, a, lines, names, row, others)
      invariant fresh(a.Repr - old(a.Repr))
      decreases |row| - hit.index
    {
      ghost var r0 := a.Repr;
      lines := ReportHeader(hit, a, lines, names, row, others);
      assert fresh(a.Repr - old(a.Repr)) by {
        assert a.Repr - old(a.Repr) <= (a.Repr - r0) + (r0 - old(a.Repr));
      }
    }
    assert hit.index == |row|;
    assert row == hit.root.dep.dependencies.M[hit.root.index];
    assert names == hit.root.dep.fileNames.Names;
    assert SetBelow(row, hit.index) == SetColumns(row);
  }

  /** The state of the loop of `operator<<` over `hit`, on the row `row` of
      the relation over `names`: the columns passed so far are written or
      kept in `a`, which lies apart from the objects `others`. */
  ghost predicate Listed(hit: HeaderFileIterator, a: NameArrays.NameArray, lines: seq<string>,
                         names: seq<string>, row: seq<bool>, others: set<object>)
    reads hit, hit.root, hit.root.dep, hit.root.dep.Repr, a, a.Repr
  {
    && hit.Valid() && 0 <= hit.index && hit.Row() == row && names == hit.root.dep.fileNames.Names
    && hit.root.dep.Repr + {hit, hit.root, hit.root.dep} <= others
    && Kept(a, lines, names, SetBelow(row, hit.index), others)
  }

  /** The names at the columns `js` are written in `lines`, when relative,
      or kept in `a`, when absolute; `a` lies apart from the objects
      `others`. */
  ghost predicate Kept(a: NameArrays.NameArray, lines: seq<string>, names: seq<string>, js: seq<int>,
                       others: set<object>)
    reads a, a.Repr
  {
    && a.Valid() && a.Repr !! others
    && (forall k :: 0 <= k < |js| ==> 0 <= js[k] < |names|)
    && lines == Indented(Relatives(NamesAt(names, js)))
    && a.Contents == Absolutes(NamesAt(names, js))
  }

  /** One turn of the loop of `operator<<` over the headers. */
  method ReportHeader(hit: HeaderFileIterator, a: NameArrays.NameArray, lines: seq<string>,
                      ghost names: seq<string>, ghost row: seq<bool>, ghost others: set<object>)
    returns (lines': seq<string>)
    requires Listed(hit, a, lines, names, row, others) && hit.IsValid()
    modifies hit, a.Repr
    ensures Listed(hit, a, lines', names, row, others)
    ensures fresh(a.Repr - old(a.Repr)) && old(hit.index) < hit.index
  {
    var name := hit.Current().value;
    ghost var p := hit.index;
    lines' := KeepColumn(name, a, lines, names, SetBelow(row, p), p, others);
    hit.Advance();
    assert hit.Row() == row;
    SetBelowSkip(row, p, hit.index);
  }

  /** The body of the loop of `operator<<` over the headers, for the name
      of column `j`, on the state of the columns `js` before it. */
  method KeepColumn(name: string, a: NameArrays.NameArray, lines: seq<string>,
                    ghost names: seq<string>, ghost js: seq<int>, ghost j: int, ghost others: set<object>)
    returns (lines': seq<string>)
    requires Kept(a, lines, names, js, others) && 0 <= j < |names| && name == names[j]
    modifies a.Repr
    ensures Kept(a, lines', names, js + [j], others) && fresh(a.Repr - old(a.Repr))
  {
    ghost var r0 := a.Repr;
    lines' := Keep(name, a, lines);
    assert a.Repr !! others by {
      assert a.Repr <= r0 + (a.Repr - r0);
    }
    NamesAtSnoc(names, js, j);
    RelativesSnoc(NamesAt(names, js), name);
    IndentedSnoc(Relatives(NamesAt(names, js)), name);
  }

  /** The body of the loop of `operator<<` over the headers, for `name`: an
      absolute name is kept in `a`, a relative one written at once. */
  method Keep(name: string, a: NameArrays.NameArray, lines: seq<string>) returns (lines': seq<string>)
    requires a.Valid()
    modifies a.Repr
    ensures a.Valid() && fresh(a.Repr - old(a.Repr))
    ensures a.Contents == old(a.Contents) + (if IsAbsolutePath(name) then [name] else [])
    ensures lines' == lines + (if IsAbsolutePath(name) then [] else [Indent + name])
  {
    if IsAbsolutePath(name) {
      var _ := a.Append(name);
      lines' := lines;
    } else {
      lines' := lines + [Indent + name];
    }
  }

  /** The loop of `operator<<` over the absolute names kept in `a`. */
  method ReportAbsolutes(a: NameArrays.NameArray) returns (lines: seq<string>)
    requires a.Valid()
    ensures lines == Indented(a.Contents)
  {
    lines := [];
    var i := 0;
    while i < a.Length()
      invariant 0 <= i <= |a.Contents| && lines == Indented(a.Contents[..i])
    {
      IndentedSnoc(a.Contents[..i], a.Contents[i]);
      assert a.Contents[..i + 1] == a.Contents[..i] + [a.Contents[i]];
      lines := lines + [Indent + a.At(i).value];
      i := i + 1;
    }
    assert a.Contents[..i] == a.Contents;
  }
}
